/** What every run keeps about the bytes that arrive: where they have gone, and what they have told us. */
module SwarmInbound {
  import opened Bytes
  import opened Connections
  import opened Cores
  import opened Messages
  import opened Peers
  import opened Pieces
  import opened Streams
  import opened Swarm
  import opened Wrappers
  import Handshakes

  /** All bytes that have arrived on connection `k`. */
  function Received(acts: seq<Action>, k: nat): seq<byte> {
    if acts == [] then []
    else
      var before, last := Received(acts[..|acts| - 1], k), acts[|acts| - 1];
      if last.Arrive? && last.k == k then before + last.chunk else before
  }

  /** The bytes are the handshake `h`, then the frames and keep-alives of `items`, then what is still in
      the buffer; the messages of `items` are those delivered. */
  ghost predicate Consumed(infoHash: seq<byte>, r: Reader, received: seq<byte>, h: Handshakes.Handshake,
                           items: seq<Item>)
  {
    && h.Valid() && h.infoHash == infoHash && r.peerId == Some(h.peerId)
    && Sendable(items)
    && received == Handshakes.Serialize(h) + StreamOf(items) + r.buffer
    && r.delivered == MessagesOf(items)
  }

  ghost predicate Inbound(infoHash: seq<byte>, x: Conn, received: seq<byte>) {
    && x.peer.bitfield == AfterMessages([], x.reader.delivered)
    && match x.reader.state
       case Disconnected => x.hello != [] || (x == FRESH_CONN && received == [])
       case HandshakeSent => x.hello != [] && x.reader.buffer == received && x.reader.delivered == []
       case Connected => x.hello != [] && exists h, items :: Consumed(infoHash, x.reader, received, h, items)
  }

  // ---- messages ----

  lemma {:induction false} RequestsKeepPeer(c: Config, a: Local, n: nat, b: Local)
    requires Requests(c, a, n, b)
    ensures b.conn.peer == a.conn.peer && b.conn.hello == a.conn.hello
    decreases n
  {
    hide RequestStep, BlockRequest, Frameable;
    if n > 0 {
      var mid, k :| Requests(c, a, n - 1, mid) && RequestOne(c, mid, k, b);
      RequestsKeepPeer(c, a, n - 1, mid);
    }
  }

  lemma RequestNextKeepsPeer(c: Config, a: Local, b: Local)
    requires RequestNext(c, a, b)
    ensures b.conn.peer == a.conn.peer && b.conn.hello == a.conn.hello
  {
    hide Requests, NothingToRequest;
    if !a.conn.peer.peerChoking {
      var n :| RequestedUpTo(c, a, n, b);
      RequestsKeepPeer(c, a, n, b);
    }
  }

  /** The session changes a bitfield as the messages say. */
  lemma MessageBitfield(c: Config, a: Local, m: PeerMessage, b: Local)
    requires MessageStep(c, a, m, b)
    ensures b.conn.peer.bitfield == AfterMessage(a.conn.peer.bitfield, m) && b.conn.hello == a.conn.hello
  {
    hide RequestNext, CoreOk, StoreBlock, PieceIndex, PieceBegin, PieceData, SetPiece, Serialize;
    if m.id == UNCHOKE {
      RequestNextKeepsPeer(c, WithPeer(a, a.conn.peer.(peerChoking := false)), b);
    } else if CarriesBlock(m) {
      RequestNextKeepsPeer(c, a.(core := StoreBlock(c, a.core, PieceIndex(m), PieceBegin(m), PieceData(m))), b);
    }
  }

  // ---- the stream grows at its end ----

  lemma {:induction false} StreamAppends(items: seq<Item>, x: Item)
    requires Sendable(items) && (x.Said? ==> Frameable(x.m))
    ensures Sendable(items + [x])
    ensures StreamOf(items + [x]) == StreamOf(items) + ItemBytes(x)
    ensures MessagesOf(items + [x]) == MessagesOf(items) + MessageOf(x)
  {
    hide ItemBytes, MessageOf;
    if items == [] {
      ConsItem(x, []);
      assert [] + [x] == [x] && [x] + [] == [x];
      assert StreamOf([x]) == ItemBytes(x) && MessagesOf([x]) == MessageOf(x);
    } else {
      var rest := items[1..];
      StreamAppends(rest, x);
      assert (items + [x])[0] == items[0] && (items + [x])[1..] == rest + [x];
      ConcatAssociates(ItemBytes(items[0]), StreamOf(rest), ItemBytes(x));
      ConcatAssociates(MessageOf(items[0]), MessagesOf(rest), MessageOf(x));
    }
  }

  /** Taking a message off moves it from the buffer to what has been consumed. */
  lemma TakeOneConsumes(infoHash: seq<byte>, r: Reader, received: seq<byte>, h: Handshakes.Handshake, items: seq<Item>)
    returns (more: seq<Item>)
    requires Ready(r.buffer) && Consumed(infoHash, r, received, h, items)
    ensures Consumed(infoHash, TakeOne(r), received, h, more)
  {
    var x := TakenItem(r);
    TakeOneKeepsPeer(r);
    hide ParseMessage, TakeOne, Ready, ItemBytes, MessageOf, Handshakes.Serialize, StreamOf, MessagesOf, Sendable;
    StreamAppends(items, x);
    more := items + [x];
    var front := Handshakes.Serialize(h);
    ConcatAssociates(front + StreamOf(items), ItemBytes(x), TakeOne(r).buffer);
    ConcatAssociates(front, StreamOf(items), ItemBytes(x));
  }

  lemma TakeOneKeepsPeer(r: Reader)
    requires Ready(r.buffer)
    ensures TakeOne(r).peerId == r.peerId && TakeOne(r).state == r.state
  {
  }

  /** More bytes go to the end of the buffer. */
  lemma ArriveConsumes(infoHash: seq<byte>, r: Reader, received: seq<byte>, h: Handshakes.Handshake, items: seq<Item>,
                       chunk: seq<byte>)
    requires Consumed(infoHash, r, received, h, items)
    ensures Consumed(infoHash, r.(buffer := r.buffer + chunk), received + chunk, h, items)
  {
    hide Handshakes.Serialize, StreamOf, MessagesOf, Sendable;
    ConcatAssociates(Handshakes.Serialize(h) + StreamOf(items), r.buffer, chunk);
  }

  /** An accepted handshake is what stood at the front of the buffer. */
  lemma GreetConsumes(infoHash: seq<byte>, r: Reader)
    requires r.state.HandshakeSent? && r.delivered == [] && Greet(infoHash, r).state.Connected?
    ensures exists h :: Consumed(infoHash, Greet(infoHash, r), r.buffer, h, [])
  {
    hide Handshakes.Deserialize;
    var front := r.buffer[..Handshakes.HANDSHAKE_SIZE];
    Handshakes.AcceptedExactly(front);
    var h := Handshakes.Deserialize(front).value;
    hide Handshakes.Serialize;
    assert front + StreamOf([]) == front;
    assert r.buffer == front + r.buffer[Handshakes.HANDSHAKE_SIZE..];
    assert Consumed(infoHash, Greet(infoHash, r), r.buffer, h, []);
  }

  // ---- steps ----

  lemma DeliverInbound(c: Config, infoHash: seq<byte>, a: Local, b: Local, received: seq<byte>)
    requires DeliverOne(c, a, b) && Inbound(infoHash, a.conn, received)
    ensures Inbound(infoHash, b.conn, received)
  {
    hide MessageStep, ParseMessage, TakeOne, Consumed, AfterMessages, AfterMessage;
    var reader := a.conn.reader;
    var parsed := ParseMessage(reader.buffer);
    var mid :| && (if parsed.KeepAlive? then mid == a else MessageStep(c, a, parsed.message, mid))
               && b == WithReader(mid, TakeOne(reader));
    var h, items :| Consumed(infoHash, reader, received, h, items);
    var more := TakeOneConsumes(infoHash, reader, received, h, items);
    TakeOneKeepsPeer(reader);
    if parsed.Frame? {
      MessageBitfield(c, a, parsed.message, mid);
    }
    TakenBitfield(reader);
  }

  /** The message taken off is the last one delivered. */
  lemma TakenBitfield(r: Reader)
    requires Ready(r.buffer)
    ensures AfterMessages([], TakeOne(r).delivered) ==
            if ParseMessage(r.buffer).Frame? then
              AfterMessage(AfterMessages([], r.delivered), ParseMessage(r.buffer).message)
            else AfterMessages([], r.delivered)
  {
    hide ParseMessage, AfterMessage;
    if ParseMessage(r.buffer).Frame? {
      var m := ParseMessage(r.buffer).message;
      assert (r.delivered + [m])[..|r.delivered|] == r.delivered;
    }
  }

  lemma StepInbound(c: Config, infoHash: seq<byte>, a: Local, act: Action, b: Local, received: seq<byte>)
    requires LocalStep(c, infoHash, a, act, b) && Inbound(infoHash, a.conn, received)
    ensures Inbound(infoHash, b.conn, if act.Arrive? then received + act.chunk else received)
  {
    hide DeliverOne, Consumed, AfterMessages, Greet, Handshakes.Serialize;
    match act
    case Start(_, h) =>
    case Arrive(_, chunk) =>
      if a.conn.IsConnected() {
        var h, items :| Consumed(infoHash, a.conn.reader, received, h, items);
        ArriveConsumes(infoHash, a.conn.reader, received, h, items, chunk);
      }
    case Shake(_) => ShakeInbound(infoHash, a, b, received);
    case Deliver(_) => DeliverInbound(c, infoHash, a, b, received);
    case Flush(_, n) =>
    case Close(_) =>
  }

  lemma ShakeInbound(infoHash: seq<byte>, a: Local, b: Local, received: seq<byte>)
    requires a.conn.reader.state.HandshakeSent? && Inbound(infoHash, a.conn, received)
    requires var r := Greet(infoHash, a.conn.reader);
             if r.state.Disconnected? then b == a.(conn := Closed(a.conn)) else b == WithReader(a, r)
    ensures Inbound(infoHash, b.conn, received)
  {
    hide Consumed, AfterMessages, Handshakes.Deserialize;
    if Greet(infoHash, a.conn.reader).state.Connected? {
      GreetConsumes(infoHash, a.conn.reader);
      var h :| Consumed(infoHash, Greet(infoHash, a.conn.reader), a.conn.reader.buffer, h, []);
    }
  }

  lemma {:induction false} RunLength(c: Config, infoHash: seq<byte>, run: seq<System>, acts: seq<Action>, i: nat)
    requires IsRun(c, infoHash, run, acts) && i < |run|
    ensures |run[i].conns| == |run[0].conns|
    decreases i
  {
    hide LocalStep;
    if i > 0 {
      RunLength(c, infoHash, run, acts, i - 1);
      assert Next(c, infoHash, run[i - 1], acts[i - 1], run[i]);
    }
  }

  /** In every state of every run, every connection's bytes are accounted for. */
  lemma {:induction false} RunInbound(c: Config, infoHash: seq<byte>, run: seq<System>, acts: seq<Action>, i: nat,
                                      k: nat)
    requires IsRun(c, infoHash, run, acts) && i < |run| && k < |run[0].conns|
    ensures |run[i].conns| == |run[0].conns| && Inbound(infoHash, run[i].conns[k], Received(acts[..i], k))
    decreases i
  {
    hide LocalStep, Inbound;
    if i == 0 {
      FreshInbound(infoHash);
    } else {
      RunInbound(c, infoHash, run, acts, i - 1, k);
      var s, act := run[i - 1], acts[i - 1];
      assert acts[..i][..i - 1] == acts[..i - 1];
      assert Next(c, infoHash, s, act, run[i]);
      var b :| LocalStep(c, infoHash, s.At(act.k), act, b) && run[i] == s.With(act.k, b);
      if act.k == k {
        StepInbound(c, infoHash, s.At(k), act, b, Received(acts[..i - 1], k));
      }
    }
  }

  lemma FreshInbound(infoHash: seq<byte>)
    ensures Inbound(infoHash, FRESH_CONN, [])
  {
  }

  /** Nothing that arrives is lost, repeated or reordered: on every open connection of every run, the bytes
      of its reads are one acceptable handshake, then whole frames and keep-alives, then the buffer, and
      the messages delivered are exactly those of the frames. */
  lemma ArrivedIsConsumed(c: Config, infoHash: seq<byte>, run: seq<System>, acts: seq<Action>, i: nat, k: nat)
    returns (h: Handshakes.Handshake, items: seq<Item>)
    requires IsRun(c, infoHash, run, acts) && i < |run| && k < |run[i].conns|
    requires run[i].conns[k].IsConnected()
    ensures h.Valid() && h.infoHash == infoHash && Sendable(items)
    ensures Received(acts[..i], k) == Handshakes.Serialize(h) + StreamOf(items) + run[i].conns[k].reader.buffer
    ensures run[i].conns[k].reader.delivered == MessagesOf(items)
    ensures run[i].conns[k].reader.peerId == Some(h.peerId)
  {
    RunLength(c, infoHash, run, acts, i);
    RunInbound(c, infoHash, run, acts, i, k);
    hide IsRun, StreamOf, MessagesOf, Sendable, AfterMessages, Handshakes.Serialize;
    h, items :| Consumed(infoHash, run[i].conns[k].reader, Received(acts[..i], k), h, items);
  }

  /** A peer's bitfield is the set of pieces announced by its last Bitfield or by a Have since, in every
      state of every run. */
  lemma RunBitfieldExactly(c: Config, infoHash: seq<byte>, run: seq<System>, acts: seq<Action>, i: nat, k: nat, j: nat)
    requires IsRun(c, infoHash, run, acts) && i < |run| && k < |run[i].conns|
    ensures var x := run[i].conns[k];
            HasPiece(x.peer.bitfield, j) <==>
            exists t: nat :: t < |x.reader.delivered| && Announces(x.reader.delivered[t], j)
                             && NoBitfieldAfter(x.reader.delivered, t)
  {
    RunLength(c, infoHash, run, acts, i);
    RunInbound(c, infoHash, run, acts, i, k);
    hide IsRun, AfterMessages, HasPiece, Announces, NoBitfieldAfter;
    BitfieldIsAnnouncedSet(run[i].conns[k].reader.delivered, j);
  }
}
