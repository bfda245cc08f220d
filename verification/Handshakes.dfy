/** The fixed 68-byte handshake. */
module Handshakes {
  import opened Bytes
  import opened Wrappers

  const HANDSHAKE_SIZE: nat := 68
  const PROTOCOL_LEN: nat := 19

  /** "BitTorrent protocol" */
  const PROTOCOL: seq<byte> :=
    [66, 105, 116, 84, 111, 114, 114, 101, 110, 116, 32, 112, 114, 111, 116, 111, 99, 111, 108]

  datatype Handshake = Handshake(reserved: seq<byte>, infoHash: seq<byte>, peerId: seq<byte>)
  {
    predicate Valid() {
      |reserved| == 8 && |infoHash| == 20 && |peerId| == 20
    }
  }

  datatype HandshakeError = BadProtocolLength | BadProtocolString

  function Serialize(h: Handshake): (buf: seq<byte>)
    requires h.Valid()
    ensures |buf| == HANDSHAKE_SIZE
  {
    [PROTOCOL_LEN] + PROTOCOL + h.reserved + h.infoHash + h.peerId
  }

  function Deserialize(buf: seq<byte>): (r: Result<Handshake, HandshakeError>)
    requires |buf| == HANDSHAKE_SIZE
    ensures r.Ok? ==> r.value.Valid()
  {
    if buf[0] != PROTOCOL_LEN then Err(BadProtocolLength)
    else if buf[1..20] != PROTOCOL then Err(BadProtocolString)
    else Ok(Handshake(buf[20..28], buf[28..48], buf[48..68]))
  }

  /** Copies `src` into `buf` at `offset`, as memcpy does. */
  method CopyInto(buf: array<byte>, offset: nat, src: seq<byte>)
    requires offset + |src| <= buf.Length
    modifies buf
    ensures buf[..] == old(buf[..offset]) + src + old(buf[offset + |src|..])
  {
    var i := 0;
    while i < |src|
      invariant 0 <= i <= |src|
      invariant forall k :: 0 <= k < buf.Length ==>
                  buf[k] == if offset <= k < offset + i then src[k - offset] else old(buf[k])
    {
      buf[offset + i] := src[i];
      i := i + 1;
    }
  }

  method SerializeHandshake(h: Handshake) returns (buf: array<byte>)
    requires h.Valid()
    ensures fresh(buf) && buf[..] == Serialize(h)
  {
    hide Deserialize;
    buf := new byte[HANDSHAKE_SIZE](_ => 0);
    var offset := 0;
    buf[offset] := PROTOCOL_LEN;
    offset := offset + 1;
    assert buf[..1] == [PROTOCOL_LEN];
    CopyInto(buf, offset, PROTOCOL);
    offset := offset + PROTOCOL_LEN;
    assert buf[..20] == [PROTOCOL_LEN] + PROTOCOL;
    CopyInto(buf, offset, h.reserved);
    offset := offset + |h.reserved|;
    assert buf[..28] == [PROTOCOL_LEN] + PROTOCOL + h.reserved;
    CopyInto(buf, offset, h.infoHash);
    offset := offset + |h.infoHash|;
    assert buf[..48] == [PROTOCOL_LEN] + PROTOCOL + h.reserved + h.infoHash;
    CopyInto(buf, offset, h.peerId);
    assert buf[..] == buf[..48] + h.peerId;
  }

  /** Reading back what was written yields the same handshake. */
  lemma DeserializeSerialized(h: Handshake)
    requires h.Valid()
    ensures Deserialize(Serialize(h)) == Ok(h)
  {
    var head := [PROTOCOL_LEN as byte] + PROTOCOL;
    var buf := Serialize(h);
    assert buf == head + (h.reserved + (h.infoHash + h.peerId));
    assert buf[..20] == head && head[1..] == PROTOCOL;
    assert buf[20..] == h.reserved + (h.infoHash + h.peerId);
    assert buf[28..] == h.infoHash + h.peerId;
    assert buf[1..20] == PROTOCOL;
    assert buf[20..28] == h.reserved;
    assert buf[28..48] == h.infoHash;
    assert buf[48..68] == h.peerId;
  }

  /** Where each field stands: the length byte and the text of BEP 3, then the eight reserved bytes, the
      info hash and the peer id. */
  lemma LayoutExactly(h: Handshake)
    requires h.Valid()
    ensures var buf := Serialize(h);
            && |buf| == 68 && buf[0] == 19
            && (forall i :: 0 <= i < 19 ==> buf[1 + i] as int == "BitTorrent protocol"[i] as int)
            && buf[20..28] == h.reserved && buf[28..48] == h.infoHash && buf[48..68] == h.peerId
  {
    DeserializeSerialized(h);
    assert Serialize(h)[1..20] == PROTOCOL;
    assert forall i :: 0 <= i < 19 ==> Serialize(h)[1..20][i] == Serialize(h)[1 + i];
  }

  /** A buffer is accepted exactly when it is the serialization of some handshake. */
  lemma AcceptedExactly(buf: seq<byte>)
    requires |buf| == HANDSHAKE_SIZE
    ensures Deserialize(buf).Ok? <==> exists h: Handshake :: h.Valid() && Serialize(h) == buf
    ensures Deserialize(buf).Ok? ==> Serialize(Deserialize(buf).value) == buf
  {
    if Deserialize(buf).Ok? {
      var h := Deserialize(buf).value;
      assert buf == buf[..1] + buf[1..20] + buf[20..28] + buf[28..48] + buf[48..68];
      assert Serialize(h) == buf;
    }
    forall h: Handshake | h.Valid() && Serialize(h) == buf
      ensures Deserialize(buf).Ok?
    {
      DeserializeSerialized(h);
    }
  }
}
