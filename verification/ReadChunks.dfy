/** Chunking does not matter to the engine: however the bytes of a connection are cut up, the manager,
    the disk, the peer and the send queue may come to be the same. */
module ReadChunks {
  import opened Bytes
  import opened Connections
  import opened Cores
  import opened Messages
  import opened Pieces
  import opened Streams
  import opened Swarm
  import Handshakes

  function MoreIn(a: Local, more: seq<byte>): Local {
    WithReader(a, a.conn.reader.(buffer := a.conn.reader.buffer + more))
  }

  lemma MoreInTwice(a: Local, x: seq<byte>, y: seq<byte>)
    ensures MoreIn(MoreIn(a, x), y) == MoreIn(a, x + y)
  {
    ConcatAssociates(a.conn.reader.buffer, x, y);
  }

  // ---- what a message does is the same whatever the read buffer holds ----

  lemma {:induction false} RequestsUnread(c: Config, a: Local, n: nat, b: Local, r: Reader)
    requires Requests(c, a, n, b) && r.state == a.conn.reader.state
    ensures b.conn.reader == a.conn.reader
    ensures Requests(c, WithReader(a, r), n, WithReader(b, r))
    decreases n
  {
    hide RequestStep, BlockRequest, Frameable;
    if n > 0 {
      var mid, k :| Requests(c, a, n - 1, mid) && RequestOne(c, mid, k, b);
      RequestsUnread(c, a, n - 1, mid, r);
      assert RequestOne(c, WithReader(mid, r), k, WithReader(b, r));
    }
  }

  lemma RequestNextUnread(c: Config, a: Local, b: Local, r: Reader)
    requires RequestNext(c, a, b) && r.state == a.conn.reader.state
    ensures b.conn.reader == a.conn.reader
    ensures RequestNext(c, WithReader(a, r), WithReader(b, r))
  {
    hide Requests, NothingToRequest;
    if !a.conn.peer.peerChoking {
      var n :| RequestedUpTo(c, a, n, b);
      RequestsUnread(c, a, n, b, r);
      assert RequestedUpTo(c, WithReader(a, r), n, WithReader(b, r));
    }
  }

  lemma MessageUnread(c: Config, a: Local, m: PeerMessage, b: Local, r: Reader)
    requires MessageStep(c, a, m, b) && r.state == a.conn.reader.state
    ensures b.conn.reader == a.conn.reader
    ensures MessageStep(c, WithReader(a, r), m, WithReader(b, r))
  {
    hide RequestNext, CoreOk, StoreBlock, PieceIndex, PieceBegin, PieceData;
    if m.id == UNCHOKE {
      RequestNextUnread(c, WithPeer(a, a.conn.peer.(peerChoking := false)), b, r);
    } else if CarriesBlock(m) {
      RequestNextUnread(c, a.(core := StoreBlock(c, a.core, PieceIndex(m), PieceBegin(m), PieceData(m))), b, r);
    }
  }

  // ---- deliveries ----

  lemma DeliverMore(c: Config, a: Local, b: Local, y: seq<byte>)
    requires DeliverOne(c, a, b)
    ensures b.conn.IsConnected() && DeliverOne(c, MoreIn(a, y), MoreIn(b, y))
  {
    hide MessageStep, ParseMessage;
    var reader := a.conn.reader;
    var parsed := ParseMessage(reader.buffer);
    var mid :| && (if parsed.KeepAlive? then mid == a else MessageStep(c, a, parsed.message, mid))
               && b == WithReader(mid, TakeOne(reader));
    TakeOneAppend(reader, y);
    var longer := reader.(buffer := reader.buffer + y);
    if !parsed.KeepAlive? {
      MessageUnread(c, a, parsed.message, mid, longer);
    }
    var next := WithReader(mid, longer);
    assert MoreIn(b, y) == WithReader(next, TakeOne(longer));
  }

  lemma DeliverLess(c: Config, a: Local, y: seq<byte>, b: Local) returns (less: Local)
    requires DeliverOne(c, MoreIn(a, y), b) && Ready(a.conn.reader.buffer)
    ensures DeliverOne(c, a, less) && b == MoreIn(less, y)
  {
    hide MessageStep, ParseMessage;
    var reader := a.conn.reader;
    var longer := reader.(buffer := reader.buffer + y);
    TakeOneAppend(reader, y);
    var parsed := ParseMessage(reader.buffer);
    var mid :| && (if parsed.KeepAlive? then mid == MoreIn(a, y) else MessageStep(c, MoreIn(a, y), parsed.message, mid))
               && b == WithReader(mid, TakeOne(longer));
    if !parsed.KeepAlive? {
      MessageUnread(c, MoreIn(a, y), parsed.message, mid, reader);
      assert WithReader(MoreIn(a, y), reader) == a;
    }
    var next := WithReader(mid, reader);
    less := WithReader(next, TakeOne(reader));
  }

  lemma {:induction false} DeliverSomeMore(c: Config, a: Local, n: nat, b: Local, y: seq<byte>)
    requires DeliverSome(c, a, n, b)
    ensures DeliverSome(c, MoreIn(a, y), n, MoreIn(b, y))
    decreases n
  {
    hide DeliverOne, MoreIn;
    if n > 0 {
      var mid :| DeliverSome(c, a, n - 1, mid) && DeliverOne(c, mid, b);
      DeliverSomeMore(c, a, n - 1, mid, y);
      DeliverMore(c, mid, b, y);
    }
  }

  lemma {:induction false} DeliverJoin(c: Config, a: Local, m: nat, mid: Local, n: nat, b: Local)
    requires DeliverSome(c, a, m, mid) && DeliverSome(c, mid, n, b)
    ensures DeliverSome(c, a, m + n, b)
    decreases n
  {
    hide DeliverOne;
    if n > 0 {
      var last :| DeliverSome(c, mid, n - 1, last) && DeliverOne(c, last, b);
      DeliverJoin(c, a, m, mid, n - 1, last);
    }
  }

  lemma {:induction false} DeliverFirst(c: Config, a: Local, n: nat, b: Local) returns (first: Local)
    requires n > 0 && DeliverSome(c, a, n, b)
    ensures DeliverOne(c, a, first) && DeliverSome(c, first, n - 1, b)
    decreases n
  {
    hide DeliverOne;
    var last :| DeliverSome(c, a, n - 1, last) && DeliverOne(c, last, b);
    if n == 1 {
      first := b;
    } else {
      first := DeliverFirst(c, a, n - 1, last);
    }
  }

  lemma OneDelivery(c: Config, a: Local, b: Local)
    requires DeliverOne(c, a, b)
    ensures DeliverSome(c, a, 1, b) && b.conn.IsConnected() && Ready(a.conn.reader.buffer)
  {
    DeliverMore(c, a, b, []);
    hide DeliverOne;
    assert DeliverSome(c, a, 0, a);
  }

  /** The deliveries that the bytes at hand allow come first. */
  lemma {:induction false} DeliverCut(c: Config, a: Local, y: seq<byte>, n: nat, b: Local) returns (j: nat, mid: Local)
    requires DeliverSome(c, MoreIn(a, y), n, b) && !Ready(b.conn.reader.buffer)
    ensures j <= n && DeliverSome(c, a, j, mid) && !Ready(mid.conn.reader.buffer)
    ensures DeliverSome(c, MoreIn(mid, y), n - j, b)
    decreases n
  {
    hide DeliverOne, ParseMessage, Ready;
    if Ready(a.conn.reader.buffer) {
      ReadyMore(a.conn.reader.buffer, y);
      var whole := DeliverFirst(c, MoreIn(a, y), n, b);
      var first := DeliverLess(c, a, y, whole);
      var i: nat;
      i, mid := DeliverCut(c, first, y, n - 1, b);
      OneDelivery(c, a, first);
      DeliverJoin(c, a, 1, first, i, mid);
      j := i + 1;
    } else {
      j, mid := 0, a;
    }
  }

  lemma ReadyMore(buffer: seq<byte>, y: seq<byte>)
    requires Ready(buffer)
    ensures Ready(buffer + y)
  {
    ParseStable(buffer, y);
  }

  lemma {:induction false} StaysConnected(c: Config, a: Local, n: nat, b: Local)
    requires DeliverSome(c, a, n, b) && a.conn.IsConnected()
    ensures b.conn.IsConnected()
    decreases n
  {
    hide DeliverOne;
    if n > 0 {
      var mid :| DeliverSome(c, a, n - 1, mid) && DeliverOne(c, mid, b);
      OneDelivery(c, mid, b);
    }
  }

  lemma NothingDelivered(c: Config, a: Local, n: nat, b: Local)
    requires DeliverSome(c, a, n, b) && !Ready(a.conn.reader.buffer)
    ensures b == a
  {
    hide DeliverOne, ParseMessage;
    if n > 0 {
      var first := DeliverFirst(c, a, n, b);
      OneDelivery(c, a, first);
    }
  }

  // ---- greetings ----

  /** Equal but for the read buffer of a closed connection. */
  predicate SameLocal(a: Local, b: Local) {
    a.core == b.core && b.conn == a.conn.(reader := b.conn.reader) && Same(a.conn.reader, b.conn.reader)
  }

  lemma MetInChunks(infoHash: seq<byte>, a: Local, x: seq<byte>, y: seq<byte>)
    requires Settled(a.conn.reader) && !a.conn.reader.state.Disconnected?
    ensures var met, whole := AfterGreeting(infoHash, MoreIn(a, x)), AfterGreeting(infoHash, MoreIn(a, x + y));
            match met.conn.reader.state
            case Connected => whole == MoreIn(met, y)
            case Disconnected => SameLocal(whole, met)
            case HandshakeSent => met == MoreIn(a, x) && |met.conn.reader.buffer| < Handshakes.HANDSHAKE_SIZE
  {
    hide Handshakes.Deserialize, ParseMessage;
    MoreInTwice(a, x, y);
    var reader := MoreIn(a, x).conn.reader;
    if a.conn.reader.state.HandshakeSent? && |reader.buffer| >= Handshakes.HANDSHAKE_SIZE {
      GreetAppend(infoHash, reader, y);
    }
  }

  // ---- reads ----

  /** A closed connection is not read any more. */
  ghost predicate ReadMore(c: Config, infoHash: seq<byte>, a: Local, chunk: seq<byte>, b: Local) {
    if a.conn.reader.state.Disconnected? then b == a else ReadStep(c, infoHash, a, chunk, b)
  }

  lemma ReadSettles(c: Config, infoHash: seq<byte>, a: Local, chunk: seq<byte>, b: Local)
    requires Settled(a.conn.reader) && ReadMore(c, infoHash, a, chunk, b)
    ensures Settled(b.conn.reader)
  {
    hide DeliverSome, Handshakes.Deserialize, ParseMessage;
    if !a.conn.reader.state.Disconnected? {
      MetInChunks(infoHash, a, chunk, []);
      var met := AfterGreeting(infoHash, MoreIn(a, chunk));
      if met.conn.IsConnected() {
        var n :| DeliverSome(c, met, n, b);
        StaysConnected(c, met, n, b);
      }
    }
  }

  /** Reading x and then y, the bytes x + y might have been read at once. */
  lemma ReadsJoin(c: Config, infoHash: seq<byte>, a: Local, x: seq<byte>, mid: Local, y: seq<byte>, b: Local)
    returns (whole: Local)
    requires Settled(a.conn.reader)
    requires ReadMore(c, infoHash, a, x, mid) && ReadMore(c, infoHash, mid, y, b)
    ensures ReadMore(c, infoHash, a, x + y, whole) && SameLocal(whole, b)
  {
    hide DeliverSome, Handshakes.Deserialize, ParseMessage, AfterGreeting, Settled;
    whole := b;
    if !a.conn.reader.state.Disconnected? {
      MetInChunks(infoHash, a, x, y);
      var met := AfterGreeting(infoHash, MoreIn(a, x));
      match met.conn.reader.state
      case Connected =>
        var m :| DeliverSome(c, met, m, mid);
        StaysConnected(c, met, m, mid);
        GreetedOnce(infoHash, MoreIn(mid, y));
        var n :| DeliverSome(c, MoreIn(mid, y), n, b);
        DeliverSomeMore(c, met, m, mid, y);
        DeliverJoin(c, MoreIn(met, y), m, MoreIn(mid, y), n, b);
      case Disconnected =>
        whole := AfterGreeting(infoHash, MoreIn(a, x + y));
      case HandshakeSent =>
        MoreInTwice(a, x, y);
    }
  }

  lemma GreetedOnce(infoHash: seq<byte>, a: Local)
    requires a.conn.IsConnected()
    ensures AfterGreeting(infoHash, a) == a
  {
  }

  /** Reading x + y at once, x and then y might have been read. */
  lemma ReadSplits(c: Config, infoHash: seq<byte>, a: Local, x: seq<byte>, y: seq<byte>, whole: Local)
    returns (mid: Local, b: Local)
    requires Settled(a.conn.reader) && ReadMore(c, infoHash, a, x + y, whole)
    ensures ReadMore(c, infoHash, a, x, mid) && ReadMore(c, infoHash, mid, y, b) && SameLocal(whole, b)
  {
    hide DeliverSome, Handshakes.Deserialize, ParseMessage, AfterGreeting, Settled;
    mid, b := a, whole;
    if !a.conn.reader.state.Disconnected? {
      MetInChunks(infoHash, a, x, y);
      var met := AfterGreeting(infoHash, MoreIn(a, x));
      match met.conn.reader.state
      case Connected =>
        var n :| DeliverSome(c, MoreIn(met, y), n, whole);
        var j: nat;
        j, mid := DeliverCut(c, met, y, n, whole);
        StaysConnected(c, met, j, mid);
        GreetedOnce(infoHash, MoreIn(mid, y));
      case Disconnected =>
        mid, b := met, met;
      case HandshakeSent =>
        mid := met;
        MoreInTwice(a, x, y);
    }
  }

  /** A read of no bytes changes nothing. */
  lemma ReadNothing(c: Config, infoHash: seq<byte>, a: Local, b: Local)
    requires Settled(a.conn.reader)
    ensures ReadMore(c, infoHash, a, [], b) <==> b == a
  {
    hide ParseMessage, Handshakes.Deserialize;
    assert a.conn.reader.buffer + [] == a.conn.reader.buffer;
    assert MoreIn(a, []) == a;
    if a.conn.IsConnected() {
      if n: nat :| DeliverSome(c, a, n, b) {
        NothingDelivered(c, a, n, b);
      }
      assert DeliverSome(c, a, 0, a);
    }
  }

  ghost predicate ReadAll(c: Config, infoHash: seq<byte>, a: Local, chunks: seq<seq<byte>>, b: Local) {
    if chunks == [] then b == a
    else
      var last := chunks[|chunks| - 1];
      exists mid :: ReadAll(c, infoHash, a, chunks[..|chunks| - 1], mid) && ReadMore(c, infoHash, mid, last, b)
  }

  /** A chunk read after states that are the same to a connection. */
  lemma ReadSame(c: Config, infoHash: seq<byte>, x: Local, y: Local, chunk: seq<byte>, b: Local) returns (b': Local)
    requires SameLocal(x, y) && ReadMore(c, infoHash, x, chunk, b)
    ensures ReadMore(c, infoHash, y, chunk, b') && SameLocal(b, b')
  {
    hide ReadStep;
    b' := if x.conn.reader.state.Disconnected? then y else b;
  }

  lemma {:induction false} ChunksJoin(c: Config, infoHash: seq<byte>, a: Local, chunks: seq<seq<byte>>, b: Local)
    returns (whole: Local)
    requires Settled(a.conn.reader) && ReadAll(c, infoHash, a, chunks, b)
    ensures ReadMore(c, infoHash, a, Flatten(chunks), whole) && SameLocal(whole, b)
  {
    hide ReadMore, Settled;
    if chunks == [] {
      ReadNothing(c, infoHash, a, a);
      whole := a;
    } else {
      var init, last := chunks[..|chunks| - 1], chunks[|chunks| - 1];
      var mid :| ReadAll(c, infoHash, a, init, mid) && ReadMore(c, infoHash, mid, last, b);
      var joined := ChunksJoin(c, infoHash, a, init, mid);
      var b' := ReadSame(c, infoHash, mid, joined, last, b);
      whole := ReadsJoin(c, infoHash, a, Flatten(init), joined, last, b');
    }
  }

  lemma {:induction false} ChunksSplit(c: Config, infoHash: seq<byte>, a: Local, chunks: seq<seq<byte>>, whole: Local)
    returns (b: Local)
    requires Settled(a.conn.reader) && ReadMore(c, infoHash, a, Flatten(chunks), whole)
    ensures ReadAll(c, infoHash, a, chunks, b) && SameLocal(whole, b)
  {
    hide ReadMore, Settled;
    if chunks == [] {
      ReadNothing(c, infoHash, a, whole);
      b := a;
    } else {
      var init, last := chunks[..|chunks| - 1], chunks[|chunks| - 1];
      var mid, end := ReadSplits(c, infoHash, a, Flatten(init), last, whole);
      var mid' := ChunksSplit(c, infoHash, a, init, mid);
      b := ReadSame(c, infoHash, mid, mid', last, end);
    }
  }

  /** Chunking does not matter: from a settled connection, reading a stream in any chunks can lead to
      exactly the states, of the manager, the disk, the peer and the send queue, that reading it at once
      can lead to, up to the buffer of a closed connection. */
  lemma ReadInChunksExactly(c: Config, infoHash: seq<byte>, a: Local, chunks: seq<seq<byte>>, b: Local)
    requires Settled(a.conn.reader)
    ensures (exists x :: ReadAll(c, infoHash, a, chunks, x) && SameLocal(x, b)) <==>
            (exists y :: ReadMore(c, infoHash, a, Flatten(chunks), y) && SameLocal(y, b))
  {
    hide ReadMore, ReadAll, Settled;
    if x :| ReadAll(c, infoHash, a, chunks, x) && SameLocal(x, b) {
      var y := ChunksJoin(c, infoHash, a, chunks, x);
      assert SameLocal(y, b);
    }
    if y :| ReadMore(c, infoHash, a, Flatten(chunks), y) && SameLocal(y, b) {
      var x := ChunksSplit(c, infoHash, a, chunks, y);
      assert SameLocal(x, b);
    }
  }

  /** Reading leaves a connection settled. */
  lemma {:induction false} ReadAllSettles(c: Config, infoHash: seq<byte>, a: Local, chunks: seq<seq<byte>>, b: Local)
    requires Settled(a.conn.reader) && ReadAll(c, infoHash, a, chunks, b)
    ensures Settled(b.conn.reader)
  {
    hide ReadMore, Settled;
    if chunks != [] {
      var init, last := chunks[..|chunks| - 1], chunks[|chunks| - 1];
      var mid :| ReadAll(c, infoHash, a, init, mid) && ReadMore(c, infoHash, mid, last, b);
      ReadAllSettles(c, infoHash, a, init, mid);
      ReadSettles(c, infoHash, mid, last, b);
    }
  }

  /** Chunking does not matter at any point of a connection that has been started and read: whatever has
      been read before, in whatever chunks, reading on in chunks is reading on at once. */
  lemma ReadOnInChunksExactly(c: Config, infoHash: seq<byte>, core: Core, hello: seq<byte>, before: seq<seq<byte>>,
                              a: Local, chunks: seq<seq<byte>>, b: Local)
    requires ReadAll(c, infoHash, Local(core, Started(FRESH_CONN, hello)), before, a)
    ensures (exists x :: ReadAll(c, infoHash, a, chunks, x) && SameLocal(x, b)) <==>
            (exists y :: ReadMore(c, infoHash, a, Flatten(chunks), y) && SameLocal(y, b))
  {
    hide ReadMore, ReadAll;
    ReadAllSettles(c, infoHash, Local(core, Started(FRESH_CONN, hello)), before, a);
    ReadInChunksExactly(c, infoHash, a, chunks, b);
  }
}
