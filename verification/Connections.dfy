/** One peer connection on values: the receiving half, the send queue and the poll interest. */
module Connections {
  import opened Bytes
  import opened Messages
  import opened Peers
  import opened Streams
  import opened Wrappers

  /** What the event loop watches the socket for. */
  datatype Interest = Unregistered | ReadOnly | ReadWrite

  /** `hello`, `queued` and `sent` are history: the handshake put on the queue, the messages put
      on it since, and the bytes the socket has taken. */
  datatype Conn = Conn(
    reader: Reader,
    peer: PeerView,
    hello: seq<byte>,
    queued: seq<PeerMessage>,
    sent: seq<byte>,
    writeBuffer: seq<byte>,
    interest: Interest)
  {
    predicate IsConnected() {
      reader.state.Connected?
    }

    /** Everything this connection has put on the wire or is about to. */
    function Outbound(): seq<byte> {
      sent + writeBuffer
    }
  }

  const FRESH_CONN :=
    Conn(Reader(Disconnected, [], None, []), FRESH_PEER, [], [], [], [], Unregistered)

  function Started(c: Conn, hello: seq<byte>): Conn {
    c.(reader := c.reader.(state := HandshakeSent), hello := hello,
       writeBuffer := c.writeBuffer + hello, interest := ReadWrite)
  }

  function Closed(c: Conn): Conn {
    if c.reader.state.Disconnected? then c
    else c.(reader := c.reader.(state := Disconnected), interest := Unregistered)
  }

  function Queued(c: Conn, m: PeerMessage): Conn
    requires Frameable(m)
  {
    if !c.IsConnected() then c
    else c.(queued := c.queued + [m], writeBuffer := c.writeBuffer + Serialize(m), interest := ReadWrite)
  }

  /** The socket takes the first `n` bytes of a non-empty queue. */
  function Flushed(c: Conn, n: nat): Conn
    requires n <= |c.writeBuffer|
  {
    if c.writeBuffer == [] then c
    else c.(sent := c.sent + c.writeBuffer[..n], writeBuffer := c.writeBuffer[n..],
            interest := if n == |c.writeBuffer| then ReadOnly else c.interest)
  }

  predicate AllFrameable(ms: seq<PeerMessage>) {
    forall i :: 0 <= i < |ms| ==> Frameable(ms[i])
  }

  /** The frames of a list of messages. */
  function Wire(ms: seq<PeerMessage>): seq<byte>
    requires AllFrameable(ms)
  {
    if ms == [] then [] else Wire(ms[..|ms| - 1]) + Serialize(ms[|ms| - 1])
  }

  /** No byte is lost, repeated or reordered, and none is stranded: the socket is watched for
      writing exactly while there is something to write. */
  predicate OutboundInv(c: Conn) {
    && AllFrameable(c.queued)
    && c.Outbound() == c.hello + Wire(c.queued)
    && (if c.reader.state.Disconnected? then c.interest == Unregistered
        else c.interest == if c.writeBuffer == [] then ReadOnly else ReadWrite)
  }

  lemma StartedKeeps(c: Conn, hello: seq<byte>)
    requires c == FRESH_CONN && hello != []
    ensures OutboundInv(c) && OutboundInv(Started(c, hello))
    ensures Started(c, hello).reader.state.HandshakeSent? && Started(c, hello).Outbound() == hello
  {
  }

  lemma QueuedKeeps(c: Conn, m: PeerMessage)
    requires OutboundInv(c) && Frameable(m)
    ensures OutboundInv(Queued(c, m))
    ensures Queued(c, m).Outbound() == c.Outbound() + if c.IsConnected() then Serialize(m) else []
    ensures Queued(c, m).queued == c.queued + if c.IsConnected() then [m] else []
    ensures Queued(c, m).reader == c.reader && Queued(c, m).peer == c.peer
  {
    if c.IsConnected() {
      var c' := Queued(c, m);
      assert c'.queued[..|c'.queued| - 1] == c.queued;
      ConcatAssociates(c.sent, c.writeBuffer, Serialize(m));
      ConcatAssociates(c.hello, Wire(c.queued), Serialize(m));
    }
  }

  lemma FlushedKeeps(c: Conn, n: nat)
    requires OutboundInv(c) && !c.reader.state.Disconnected? && n <= |c.writeBuffer|
    ensures OutboundInv(Flushed(c, n)) && Flushed(c, n).Outbound() == c.Outbound()
    ensures |Flushed(c, n).sent| == |c.sent| + n && Flushed(c, n).reader == c.reader
  {
    assert c.writeBuffer == c.writeBuffer[..n] + c.writeBuffer[n..];
    ConcatAssociates(c.sent, c.writeBuffer[..n], c.writeBuffer[n..]);
  }

  lemma ClosedKeeps(c: Conn)
    requires OutboundInv(c)
    ensures OutboundInv(Closed(c))
    ensures Closed(c).reader == c.reader.(state := Disconnected) && Closed(c).interest == Unregistered
    ensures Closed(c).sent == c.sent && Closed(c).writeBuffer == c.writeBuffer && Closed(c).peer == c.peer
  {
  }

  /** A queued message's frame stands in the outbound bytes, after the handshake and the frames
      queued before it. */
  lemma {:induction false} QueuedOnWire(c: Conn, i: nat) returns (before: seq<byte>, after: seq<byte>)
    requires OutboundInv(c) && i < |c.queued|
    ensures before == c.hello + Wire(c.queued[..i])
    ensures c.Outbound() == before + Serialize(c.queued[i]) + after
  {
    before := c.hello + Wire(c.queued[..i]);
    after := WireSplit(c.queued, i);
    calc {
      c.Outbound();
      c.hello + (Wire(c.queued[..i]) + Serialize(c.queued[i]) + after);
      { ConcatAssociates(c.hello, Wire(c.queued[..i]) + Serialize(c.queued[i]), after); }
      c.hello + (Wire(c.queued[..i]) + Serialize(c.queued[i])) + after;
      { ConcatAssociates(c.hello, Wire(c.queued[..i]), Serialize(c.queued[i])); }
      before + Serialize(c.queued[i]) + after;
    }
  }

  lemma {:induction false} WireSplit(ms: seq<PeerMessage>, i: nat) returns (after: seq<byte>)
    requires AllFrameable(ms) && i < |ms|
    ensures Wire(ms) == Wire(ms[..i]) + Serialize(ms[i]) + after
  {
    var init := ms[..|ms| - 1];
    if i == |ms| - 1 {
      after := [];
    } else {
      assert init[..i] == ms[..i];
      var rest := WireSplit(init, i);
      after := rest + Serialize(ms[|ms| - 1]);
      ConcatAssociates(Wire(ms[..i]) + Serialize(ms[i]), rest, Serialize(ms[|ms| - 1]));
    }
  }
}
