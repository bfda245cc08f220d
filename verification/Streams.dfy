/** Taking messages off a byte stream that arrives in arbitrary chunks. */
module Streams {
  import opened Bytes
  import opened Messages
  import opened Wrappers
  import Handshakes

  datatype ConnectionState = Disconnected | HandshakeSent | Connected

  /** The receiving half of a connection: its unconsumed bytes, the peer id it has learnt and, as
      history, the messages handed on so far. */
  datatype Reader = Reader(
    state: ConnectionState,
    buffer: seq<byte>,
    peerId: Option<seq<byte>>,
    delivered: seq<PeerMessage>)

  /** Takes one complete message off the buffer; keep-alives are dropped. */
  function TakeOne(r: Reader): Reader
    requires ParseMessage(r.buffer).KeepAlive? || ParseMessage(r.buffer).Frame?
  {
    match ParseMessage(r.buffer)
    case KeepAlive => r.(buffer := r.buffer[4..])
    case Frame(n, m) => r.(buffer := r.buffer[n..], delivered := r.delivered + [m])
  }

  /** Something can be taken off the buffer. */
  predicate Ready(buffer: seq<byte>) {
    ParseMessage(buffer).KeepAlive? || ParseMessage(buffer).Frame?
  }

  function Drain(r: Reader): Reader
    decreases |r.buffer|
  {
    if Ready(r.buffer) then Drain(TakeOne(r)) else r
  }

  /** The handshake: refused unless it is well formed and names our torrent. */
  function Greet(infoHash: seq<byte>, r: Reader): Reader {
    if |r.buffer| < Handshakes.HANDSHAKE_SIZE then r
    else
      match Handshakes.Deserialize(r.buffer[..Handshakes.HANDSHAKE_SIZE])
      case Err(_) => r.(state := Disconnected)
      case Ok(h) =>
        if h.infoHash != infoHash then r.(state := Disconnected)
        else r.(state := Connected, buffer := r.buffer[Handshakes.HANDSHAKE_SIZE..], peerId := Some(h.peerId))
  }

  function Greeted(infoHash: seq<byte>, r: Reader): Reader {
    if r.state.HandshakeSent? then Greet(infoHash, r) else r
  }

  function Drained(r: Reader): Reader {
    if r.state.Connected? then Drain(r) else r
  }

  /** One chunk read from the socket. */
  function Feed(infoHash: seq<byte>, r: Reader, chunk: seq<byte>): Reader {
    if r.state.Disconnected? then r
    else Drained(Greeted(infoHash, r.(buffer := r.buffer + chunk)))
  }

  function FeedAll(infoHash: seq<byte>, r: Reader, chunks: seq<seq<byte>>): Reader {
    if chunks == [] then r
    else Feed(infoHash, FeedAll(infoHash, r, chunks[..|chunks| - 1]), chunks[|chunks| - 1])
  }

  function Flatten(chunks: seq<seq<byte>>): seq<byte> {
    if chunks == [] then [] else Flatten(chunks[..|chunks| - 1]) + chunks[|chunks| - 1]
  }

  /** Nothing more can be taken off the buffer as it stands. */
  predicate Settled(r: Reader) {
    match r.state
    case Disconnected => true
    case HandshakeSent => |r.buffer| < Handshakes.HANDSHAKE_SIZE
    case Connected => !Ready(r.buffer)
  }

  /** Equal as far as a connection can tell: a closed one no longer looks at its buffer. */
  predicate Same(a: Reader, b: Reader) {
    && a.state == b.state && a.peerId == b.peerId && a.delivered == b.delivered
    && (!a.state.Disconnected? ==> a.buffer == b.buffer)
  }

  lemma {:induction false} DrainSettles(r: Reader)
    ensures !Ready(Drain(r).buffer) && Drain(r).state == r.state
    decreases |r.buffer|
  {
    if Ready(r.buffer) {
      DrainSettles(TakeOne(r));
    }
  }

  lemma FeedSettles(infoHash: seq<byte>, r: Reader, chunk: seq<byte>)
    requires Settled(r)
    ensures Settled(Feed(infoHash, r, chunk))
  {
    if !r.state.Disconnected? {
      DrainSettles(Greeted(infoHash, r.(buffer := r.buffer + chunk)));
    }
  }

  /** Taking a message off does not depend on what follows it. */
  lemma TakeOneAppend(r: Reader, more: seq<byte>)
    requires Ready(r.buffer)
    ensures ParseMessage(r.buffer + more) == ParseMessage(r.buffer)
    ensures TakeOne(r.(buffer := r.buffer + more)) == TakeOne(r).(buffer := TakeOne(r).buffer + more)
  {
    ParseStable(r.buffer, more);
    var n := Consumed(ParseMessage(r.buffer));
    assert (r.buffer + more)[n..] == r.buffer[n..] + more;
  }

  /** Draining before more bytes arrive makes no difference to what is drained in the end. */
  lemma {:induction false} DrainAppend(r: Reader, more: seq<byte>)
    ensures Drain(r.(buffer := r.buffer + more)) == Drain(Drain(r).(buffer := Drain(r).buffer + more))
    decreases |r.buffer|
  {
    if Ready(r.buffer) {
      var whole := r.(buffer := r.buffer + more);
      var taken := TakeOne(r);
      TakeOneAppend(r, more);
      DrainAppend(taken, more);
    }
  }

  lemma GreetAppend(infoHash: seq<byte>, r: Reader, more: seq<byte>)
    requires |r.buffer| >= Handshakes.HANDSHAKE_SIZE
    ensures var g := Greet(infoHash, r);
            var whole := Greet(infoHash, r.(buffer := r.buffer + more));
            if g.state.Disconnected? then whole == g.(buffer := r.buffer + more)
            else whole == g.(buffer := g.buffer + more)
    ensures !Greet(infoHash, r).state.HandshakeSent?
  {
    var n := Handshakes.HANDSHAKE_SIZE;
    assert (r.buffer + more)[..n] == r.buffer[..n];
    assert (r.buffer + more)[n..] == r.buffer[n..] + more;
  }

  /** Two chunks do what their concatenation does. */
  lemma FeedTwice(infoHash: seq<byte>, r: Reader, a: seq<byte>, b: seq<byte>)
    requires Settled(r)
    ensures Same(Feed(infoHash, Feed(infoHash, r, a), b), Feed(infoHash, r, a + b))
  {
    hide ParseMessage, Handshakes.Deserialize;
    if r.state.Disconnected? {
      return;
    }
    var ra, rab := r.(buffer := r.buffer + a), r.(buffer := r.buffer + (a + b));
    assert r.buffer + (a + b) == r.buffer + a + b;
    assert rab == ra.(buffer := ra.buffer + b);
    if r.state.HandshakeSent? && |ra.buffer| < Handshakes.HANDSHAKE_SIZE {
      assert Feed(infoHash, r, a) == ra;
    } else {
      var g := Greeted(infoHash, ra);
      if r.state.HandshakeSent? {
        GreetAppend(infoHash, ra, b);
      }
      if g.state.Connected? {
        DrainSettles(g);
        DrainAppend(g, b);
      }
    }
  }

  lemma FeedSame(infoHash: seq<byte>, r: Reader, s: Reader, chunk: seq<byte>)
    requires Same(r, s)
    ensures Same(Feed(infoHash, r, chunk), Feed(infoHash, s, chunk))
  {
    if !r.state.Disconnected? {
      assert r == s;
    }
  }

  /** Chunking does not matter: however a stream is cut up, the messages delivered, the state
      reached and, while the connection is open, the bytes left over are those of the whole
      stream read at once. */
  lemma {:induction false} ChunkingDoesNotMatter(infoHash: seq<byte>, r: Reader, chunks: seq<seq<byte>>)
    requires Settled(r)
    ensures Same(FeedAll(infoHash, r, chunks), Feed(infoHash, r, Flatten(chunks)))
  {
    hide Feed, Settled;
    if chunks == [] {
      FeedNothing(infoHash, r);
    } else {
      var init, last := chunks[..|chunks| - 1], chunks[|chunks| - 1];
      ChunkingDoesNotMatter(infoHash, r, init);
      FeedSame(infoHash, FeedAll(infoHash, r, init), Feed(infoHash, r, Flatten(init)), last);
      FeedTwice(infoHash, r, Flatten(init), last);
    }
  }

  /** A read that returns no bytes changes nothing. */
  lemma FeedNothing(infoHash: seq<byte>, r: Reader)
    requires Settled(r)
    ensures Feed(infoHash, r, []) == r
  {
    assert r.buffer + [] == r.buffer;
    assert r.(buffer := r.buffer + []) == r;
  }

  // ---- the stream grammar ----

  /** What a peer sends after its handshake. */
  datatype Item = Ping | Said(m: PeerMessage)

  predicate Sendable(items: seq<Item>) {
    forall i :: 0 <= i < |items| && items[i].Said? ==> Frameable(items[i].m)
  }

  function ItemBytes(x: Item): seq<byte>
    requires x.Said? ==> Frameable(x.m)
  {
    match x
    case Ping => [0, 0, 0, 0]
    case Said(m) => Serialize(m)
  }

  function StreamOf(items: seq<Item>): seq<byte>
    requires Sendable(items)
  {
    if items == [] then [] else ItemBytes(items[0]) + StreamOf(items[1..])
  }

  function MessageOf(x: Item): seq<PeerMessage> {
    if x.Said? then [x.m] else []
  }

  function MessagesOf(items: seq<Item>): seq<PeerMessage> {
    if items == [] then [] else MessageOf(items[0]) + MessagesOf(items[1..])
  }

  lemma TakeItem(r: Reader, x: Item, after: seq<byte>)
    requires x.Said? ==> Frameable(x.m)
    requires r.buffer == ItemBytes(x) + after
    ensures Ready(r.buffer)
    ensures TakeOne(r) == r.(buffer := after, delivered := r.delivered + MessageOf(x))
  {
    match x
    case Ping =>
      assert ReadU32(r.buffer) == 0;
      assert r.buffer[4..] == after;
      assert r.delivered + [] == r.delivered;
    case Said(m) =>
      ParseSerialized(m, after);
      assert r.buffer[|Serialize(m)|..] == after;
  }

  lemma TakenItem(r: Reader) returns (x: Item)
    requires Ready(r.buffer)
    ensures x.Said? ==> Frameable(x.m)
    ensures r.buffer == ItemBytes(x) + TakeOne(r).buffer
    ensures TakeOne(r).delivered == r.delivered + MessageOf(x)
  {
    if ParseMessage(r.buffer).KeepAlive? {
      x := Ping;
      EncodeReadU32(r.buffer);
      assert r.buffer == r.buffer[..4] + r.buffer[4..];
    } else {
      var n := ParseMessage(r.buffer).consumed;
      x := Said(ParseMessage(r.buffer).message);
      ParsedIsSerialized(r.buffer);
      assert r.buffer == r.buffer[..n] + r.buffer[n..];
    }
  }

  lemma ConsItem(x: Item, items: seq<Item>)
    requires Sendable(items) && (x.Said? ==> Frameable(x.m))
    ensures Sendable([x] + items)
    ensures StreamOf([x] + items) == ItemBytes(x) + StreamOf(items)
    ensures MessagesOf([x] + items) == MessageOf(x) + MessagesOf(items)
  {
    assert ([x] + items)[1..] == items;
  }

  /** Draining a buffer that begins with whole frames delivers exactly their messages. */
  lemma {:induction false} DrainDelivers(r: Reader, items: seq<Item>, rest: seq<byte>)
    requires Sendable(items)
    requires r.buffer == StreamOf(items) + rest
    ensures Drain(r) == Drain(r.(buffer := rest, delivered := r.delivered + MessagesOf(items)))
    decreases |items|
  {
    hide ParseMessage, ItemBytes, TakeOne, Ready, MessageOf;
    if items == [] {
      assert r.buffer == rest && r.delivered + [] == r.delivered;
    } else {
      var after := StreamOf(items[1..]) + rest;
      assert r.buffer == ItemBytes(items[0]) + after;
      TakeItem(r, items[0], after);
      DrainDelivers(TakeOne(r), items[1..], rest);
      assert r.delivered + MessageOf(items[0]) + MessagesOf(items[1..]) == r.delivered + MessagesOf(items);
    }
  }

  /** Conversely, what draining removes is a sequence of whole frames, and what it delivers is
      their messages. */
  lemma {:induction false} DrainedAreFrames(r: Reader) returns (items: seq<Item>)
    ensures Sendable(items)
    ensures r.buffer == StreamOf(items) + Drain(r).buffer
    ensures Drain(r).delivered == r.delivered + MessagesOf(items)
    decreases |r.buffer|
  {
    if Ready(r.buffer) {
      var taken := TakeOne(r);
      var first := TakenItem(r);
      var later := DrainedAreFrames(taken);
      items := [first] + later;
      PrependItem(r, taken, Drain(r), first, later);
    } else {
      items := [];
      assert StreamOf(items) + r.buffer == r.buffer;
      assert r.delivered + [] == r.delivered;
    }
  }

  lemma PrependItem(r: Reader, taken: Reader, left: Reader, x: Item, items: seq<Item>)
    requires Sendable(items) && (x.Said? ==> Frameable(x.m))
    requires r.buffer == ItemBytes(x) + taken.buffer && taken.buffer == StreamOf(items) + left.buffer
    requires taken.delivered == r.delivered + MessageOf(x) && left.delivered == taken.delivered + MessagesOf(items)
    ensures Sendable([x] + items)
    ensures r.buffer == StreamOf([x] + items) + left.buffer
    ensures left.delivered == r.delivered + MessagesOf([x] + items)
  {
    ConsItem(x, items);
    ConcatAssociates(ItemBytes(x), StreamOf(items), left.buffer);
    ConcatAssociates(r.delivered, MessageOf(x), MessagesOf(items));
  }

  lemma ConcatAssociates<T>(a: seq<T>, b: seq<T>, c: seq<T>)
    ensures a + (b + c) == a + b + c
  {
  }

  /** A peer's whole stream, in any chunks: its handshake is accepted and exactly its messages are
      delivered, in order; what is left is the incomplete tail. */
  lemma StreamDelivers(infoHash: seq<byte>, h: Handshakes.Handshake, items: seq<Item>, tail: seq<byte>,
                       chunks: seq<seq<byte>>)
    requires h.Valid() && h.infoHash == infoHash
    requires Sendable(items) && ParseMessage(tail).Incomplete?
    requires Flatten(chunks) == Handshakes.Serialize(h) + StreamOf(items) + tail
    ensures FeedAll(infoHash, Reader(HandshakeSent, [], None, []), chunks) ==
            Reader(Connected, tail, Some(h.peerId), MessagesOf(items))
  {
    hide Handshakes.Deserialize, Handshakes.Serialize, ParseMessage, StreamOf, MessagesOf, Drain;
    hide Feed, FeedAll, Flatten, Greeted;
    var start := Reader(HandshakeSent, [], None, []);
    var stream := Flatten(chunks);
    ChunkingDoesNotMatter(infoHash, start, chunks);
    ConcatAssociates(Handshakes.Serialize(h), StreamOf(items), tail);
    var greeted := Reader(Connected, StreamOf(items) + tail, Some(h.peerId), []);
    GreetingTaken(infoHash, h, stream, greeted);
    DrainDelivers(greeted, items, tail);
    assert [] + MessagesOf(items) == MessagesOf(items);
    DrainDone(greeted.(buffer := tail, delivered := MessagesOf(items)));
  }

  /** A stream that begins with an acceptable handshake, fed to a connection that waits for it. */
  lemma GreetingTaken(infoHash: seq<byte>, h: Handshakes.Handshake, stream: seq<byte>, greeted: Reader)
    requires h.Valid() && h.infoHash == infoHash
    requires greeted.state.Connected? && greeted.peerId == Some(h.peerId) && greeted.delivered == []
    requires stream == Handshakes.Serialize(h) + greeted.buffer
    ensures Feed(infoHash, Reader(HandshakeSent, [], None, []), stream) == Drain(greeted)
  {
    hide Handshakes.Deserialize, Handshakes.Serialize, Drain;
    Handshakes.DeserializeSerialized(h);
    assert [] + stream == stream;
    assert stream[..Handshakes.HANDSHAKE_SIZE] == Handshakes.Serialize(h);
    assert stream[Handshakes.HANDSHAKE_SIZE..] == greeted.buffer;
  }

  lemma DrainDone(r: Reader)
    requires ParseMessage(r.buffer).Incomplete?
    ensures Drain(r) == r
  {
  }
}
