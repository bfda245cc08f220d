/** Peer wire messages and their length-prefixed frames. */
module Messages {
  import opened Bytes

  const CHOKE: byte := 0
  const UNCHOKE: byte := 1
  const INTERESTED: byte := 2
  const NOT_INTERESTED: byte := 3
  const HAVE: byte := 4
  const BITFIELD: byte := 5
  const REQUEST: byte := 6
  const PIECE: byte := 7

  /** Any byte is an id: the cast to the enumeration does not check its range. */
  datatype PeerMessage = PeerMessage(id: byte, payload: seq<byte>)

  /** What one attempt to take a message off a buffer yields. `Overflow` is a length
      field for which `4 + length` wraps in 32 bits. */
  datatype Parsed =
    | Incomplete
    | KeepAlive
    | Frame(consumed: nat, message: PeerMessage)
    | Overflow

  /** The frame's total length fits 32 bits. */
  predicate Frameable(m: PeerMessage) {
    |m.payload| <= TWO_32 - 6
  }

  function Serialize(m: PeerMessage): (frame: seq<byte>)
    requires Frameable(m)
    ensures |frame| == 5 + |m.payload|
  {
    EncodeU32(1 + |m.payload|) + [m.id] + m.payload
  }

  method SerializeMessage(m: PeerMessage) returns (buf: array<byte>)
    requires Frameable(m)
    ensures fresh(buf) && buf[..] == Serialize(m)
  {
    var length := U32(1 + U32(|m.payload|));
    buf := new byte[U32(4 + length)](_ => 0);
    WriteU32(buf, 0, length);
    buf[4] := m.id;
    assert buf[..4] == EncodeU32(length);
    var i := 0;
    while i < |m.payload|
      invariant 0 <= i <= |m.payload|
      invariant buf[..5] == EncodeU32(length) + [m.id]
      invariant buf[5..5 + i] == m.payload[..i]
    {
      buf[5 + i] := m.payload[i];
      assert buf[5..5 + i + 1] == buf[5..5 + i] + [m.payload[i]];
      i := i + 1;
    }
    assert buf[..] == buf[..5] + buf[5..5 + |m.payload|];
  }

  /** `4 + length` as the source computes it, in 32 bits. */
  function FrameSize(length: nat): nat {
    U32(4 + length)
  }

  function ParseMessage(buf: seq<byte>): (r: Parsed)
    ensures r.Frame? ==> 5 <= r.consumed <= |buf|
  {
    if |buf| < 4 then
      Incomplete
    else
      var length := ReadU32(buf);
      if length == 0 then
        KeepAlive
      else
        var size := FrameSize(length);
        if |buf| < size then Incomplete
        else if size < 4 then Overflow
        else Frame(size, PeerMessage(buf[4], buf[5..size]))
  }

  /** The bytes a complete result takes off the buffer. */
  function Consumed(r: Parsed): nat {
    match r
    case Incomplete => 0
    case KeepAlive => 4
    case Frame(n, _) => n
    case Overflow => 0
  }

  /** A frame size covers its own length field exactly when the sum does not wrap. */
  lemma FrameSizeExactly(length: nat)
    requires length < TWO_32
    ensures FrameSize(length) >= 4 <==> length <= TWO_32 - 5
    ensures length <= TWO_32 - 5 ==> FrameSize(length) == 4 + length
  {
    if length > TWO_32 - 5 {
      assert 4 + length == TWO_32 + (length - (TWO_32 - 4));
    }
  }

  /** Every complete parse takes at least four bytes unless the length field is one of the
      four largest, and then the source's own consumed count falls below four. */
  lemma OverflowExactly(buf: seq<byte>)
    ensures ParseMessage(buf).Overflow? <==> |buf| >= 4 && ReadU32(buf) > TWO_32 - 5
    ensures ParseMessage(buf).Overflow? ==> FrameSize(ReadU32(buf)) < 4
    ensures !ParseMessage(buf).Incomplete? && !ParseMessage(buf).Overflow? ==> 4 <= Consumed(ParseMessage(buf)) <= |buf|
  {
    if |buf| >= 4 {
      FrameSizeExactly(ReadU32(buf));
    }
  }

  /** The four bytes ff ff ff fc state a length for which the frame size wraps round to nothing. */
  lemma OverflowInstance()
    ensures ParseMessage([255, 255, 255, 252]) == Overflow
    ensures FrameSize(ReadU32([255, 255, 255, 252])) == 0
  {
    assert ReadU32([255, 255, 255, 252]) == TWO_32 - 4;
    FrameSizeExactly(TWO_32 - 4);
  }

  /** A serialized message parses back, whatever follows it in the buffer. */
  lemma ParseSerialized(m: PeerMessage, rest: seq<byte>)
    requires Frameable(m)
    ensures ParseMessage(Serialize(m) + rest) == Frame(|Serialize(m)|, m)
  {
    SerializedLayout(m, rest);
    FrameSizeExactly(1 + |m.payload|);
    hide Serialize, ReadU32, FrameSize;
  }

  /** Where the parts of a frame stand. */
  lemma SerializedLayout(m: PeerMessage, rest: seq<byte>)
    requires Frameable(m)
    ensures var buf := Serialize(m) + rest;
            && ReadU32(buf) == 1 + |m.payload|
            && buf[4] == m.id
            && buf[5..5 + |m.payload|] == m.payload
  {
    hide ReadU32, EncodeU32;
    var buf := Serialize(m) + rest;
    assert buf == EncodeU32(1 + |m.payload|) + ([m.id] + m.payload + rest);
    ReadEncodedU32(1 + |m.payload|, [m.id] + m.payload + rest);
  }

  /** A frame is the big-endian length of what follows, the id, and the payload. */
  lemma FrameLayout(m: PeerMessage)
    requires Frameable(m)
    ensures var frame := Serialize(m);
            && |frame| == 5 + |m.payload|
            && Big(frame[..4]) == |frame| - 4
            && frame[4] == m.id
            && frame[5..] == m.payload
  {
    SerializedLayout(m, []);
    assert Serialize(m) + [] == Serialize(m);
    WordIsBig(Serialize(m), 0);
    hide ReadU32, EncodeU32, Big;
  }

  /** The bytes a parsed frame took are that message's serialization. */
  lemma ParsedIsSerialized(buf: seq<byte>)
    requires ParseMessage(buf).Frame?
    ensures Frameable(ParseMessage(buf).message)
    ensures buf[..ParseMessage(buf).consumed] == Serialize(ParseMessage(buf).message)
  {
    var length := ReadU32(buf);
    FrameSizeExactly(length);
    EncodeReadU32(buf);
    var size := 4 + length;
    assert buf[..size] == buf[..4] + [buf[4]] + buf[5..size];
  }

  /** A verdict other than `Incomplete` is not changed by later bytes. */
  lemma ParseStable(buf: seq<byte>, more: seq<byte>)
    requires !ParseMessage(buf).Incomplete?
    ensures ParseMessage(buf + more) == ParseMessage(buf)
  {
    var whole := buf + more;
    assert ReadU32(whole) == ReadU32(buf);
    if ParseMessage(buf).Frame? {
      var size := FrameSize(ReadU32(buf));
      assert whole[5..size] == buf[5..size];
    }
  }

  /** No proper prefix of a frame is taken for a message. */
  lemma ProperPrefixIncomplete(m: PeerMessage, n: nat)
    requires Frameable(m) && n < |Serialize(m)|
    ensures ParseMessage(Serialize(m)[..n]).Incomplete?
  {
    var frame := Serialize(m);
    ParseSerialized(m, []);
    assert frame + [] == frame;
    assert frame[..n] + frame[n..] == frame;
    if !ParseMessage(frame[..n]).Incomplete? {
      ParseStable(frame[..n], frame[n..]);
    }
  }

  // ---- requests ----

  function RequestMessage(index: nat, offset: nat, length: nat): PeerMessage
    requires index < TWO_32 && offset < TWO_32 && length < TWO_32
  {
    PeerMessage(REQUEST, EncodeU32(index) + EncodeU32(offset) + EncodeU32(length))
  }

  /** The 12-byte payload decodes to the block it was built for. */
  lemma RequestDecodes(index: nat, offset: nat, length: nat)
    requires index < TWO_32 && offset < TWO_32 && length < TWO_32
    ensures var payload := RequestMessage(index, offset, length).payload;
            && |payload| == 12
            && ReadU32(payload) == index
            && ReadU32(payload[4..]) == offset
            && ReadU32(payload[8..]) == length
  {
    var payload := RequestMessage(index, offset, length).payload;
    assert payload == EncodeU32(index) + (EncodeU32(offset) + EncodeU32(length));
    assert payload[4..] == EncodeU32(offset) + EncodeU32(length);
    assert payload[8..] == EncodeU32(length) + [];
    ReadEncodedU32(index, EncodeU32(offset) + EncodeU32(length));
    ReadEncodedU32(offset, EncodeU32(length));
    ReadEncodedU32(length, []);
  }

  /** A Request on the wire: its id, and three big-endian words. */
  lemma RequestWords(index: nat, offset: nat, length: nat)
    requires index < TWO_32 && offset < TWO_32 && length < TWO_32
    ensures var m := RequestMessage(index, offset, length);
            && m.id == 6 && |m.payload| == 12
            && Big(m.payload[..4]) == index
            && Big(m.payload[4..8]) == offset
            && Big(m.payload[8..12]) == length
  {
    hide EncodeU32, ReadU32, Big;
    var payload := RequestMessage(index, offset, length).payload;
    assert payload[..4] == EncodeU32(index);
    assert payload[4..8] == EncodeU32(offset);
    assert payload[8..12] == EncodeU32(length);
    WordIsBig(EncodeU32(index), index);
    WordIsBig(EncodeU32(offset), offset);
    WordIsBig(EncodeU32(length), length);
  }

  function PieceMessage(index: nat, begin: nat, data: seq<byte>): PeerMessage
    requires index < TWO_32 && begin < TWO_32
  {
    PeerMessage(PIECE, EncodeU32(index) + EncodeU32(begin) + data)
  }
}
