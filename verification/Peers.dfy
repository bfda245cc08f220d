/** A remote peer: its flags and the bitfield of the pieces it has announced. */
module Peers {
  import opened Bytes
  import opened Messages

  /** What the session keeps about a peer. */
  datatype PeerView = PeerView(
    amInterested: bool,
    peerChoking: bool,
    peerInterested: bool,
    bitfield: seq<byte>)

  const FRESH_PEER := PeerView(false, true, false, [])

  /** 1 << k */
  function Pow2(k: nat): (r: nat)
    ensures r > 0
  {
    if k == 0 then 1 else 2 * Pow2(k - 1)
  }

  /** b & (1 << k) is not zero: the parity after k halvings. */
  predicate BitSet(b: nat, k: nat) {
    if k == 0 then b % 2 == 1 else BitSet(b / 2, k - 1)
  }

  /** b | (1 << k) */
  function WithBit(b: byte, k: nat): (r: byte)
    requires k < 8
  {
    if BitSet(b, k) then b
    else
      WithBitRange(b, k, 8);
      b + Pow2(k)
  }

  lemma {:induction false} WithBitRange(b: nat, k: nat, width: nat)
    requires b < Pow2(width) && k < width && !BitSet(b, k)
    ensures b + Pow2(k) < Pow2(width)
  {
    assert Pow2(width) == 2 * Pow2(width - 1);
    if k > 0 {
      var half := b / 2;
      assert b <= 2 * half + 1 && half < Pow2(width - 1);
      WithBitRange(half, k - 1, width - 1);
      assert Pow2(k) == 2 * Pow2(k - 1);
    }
  }

  lemma {:induction false} AddedBit(b: nat, k: nat, j: nat)
    requires !BitSet(b, k)
    ensures BitSet(b + Pow2(k), j) <==> j == k || BitSet(b, j)
  {
    if k == 0 {
      assert (b + 1) / 2 == b / 2;
    } else {
      assert (b + Pow2(k)) / 2 == b / 2 + Pow2(k - 1);
      if j > 0 {
        AddedBit(b / 2, k - 1, j - 1);
      }
    }
  }

  lemma WithBitExactly(b: byte, k: nat, j: nat)
    requires k < 8
    ensures BitSet(WithBit(b, k), j) <==> j == k || BitSet(b, j)
  {
    if !BitSet(b, k) {
      AddedBit(b, k, j);
    }
  }

  /** Bit `i` of a bitfield, most significant bit of each byte first; absent bytes read as zero. */
  predicate HasPiece(bitfield: seq<byte>, i: nat) {
    i / 8 < |bitfield| && BitSet(bitfield[i / 8], 7 - i % 8)
  }

  function Resized(bitfield: seq<byte>, size: nat): (r: seq<byte>)
    ensures |r| == if size > |bitfield| then size else |bitfield|
  {
    if size > |bitfield| then bitfield + seq(size - |bitfield|, _ => 0) else bitfield
  }

  function SetPiece(bitfield: seq<byte>, i: nat): seq<byte> {
    var grown := Resized(bitfield, i / 8 + 1);
    grown[i / 8 := WithBit(grown[i / 8], 7 - i % 8)]
  }

  /** Announcing a piece adds it and changes no other bit, also where the bitfield grows. */
  lemma SetPieceExactly(bitfield: seq<byte>, i: nat, j: nat)
    ensures HasPiece(SetPiece(bitfield, i), j) <==> j == i || HasPiece(bitfield, j)
  {
    var grown := Resized(bitfield, i / 8 + 1);
    if j / 8 == i / 8 {
      WithBitExactly(grown[i / 8], 7 - i % 8, 7 - j % 8);
      if i % 8 == j % 8 {
        assert i == 8 * (i / 8) + i % 8 && j == 8 * (j / 8) + j % 8;
      }
      ZeroByte(7 - j % 8);
    } else if j / 8 < |grown| && j / 8 >= |bitfield| {
      ZeroByte(7 - j % 8);
    }
  }

  lemma {:induction false} ZeroByte(k: nat)
    ensures !BitSet(0, k)
  {
    if k > 0 {
      ZeroByte(k - 1);
    }
  }

  // ---- a bitfield is a number for each byte ----

  /** The bits of a byte from `k` on, most significant first, as far as `bits` has them. */
  function BitSum(bitfield: seq<byte>, q: nat, r: nat): nat
    requires r <= 8
    decreases 8 - r
  {
    if r == 8 then 0 else (if HasPiece(bitfield, 8 * q + r) then Pow2(7 - r) else 0) + BitSum(bitfield, q, r + 1)
  }

  /** Piece 8q + r is the bit of weight 2^(7 - r) in byte q, and pieces past the last byte are absent. */
  lemma BitOrderExactly(bitfield: seq<byte>, q: nat)
    ensures q < |bitfield| ==> bitfield[q] as nat == BitSum(bitfield, q, 0)
    ensures q >= |bitfield| ==> forall i :: 8 * q <= i ==> !HasPiece(bitfield, i)
  {
    hide BitSum, BitSet;
    if q < |bitfield| {
      LowBits(bitfield, q, 0);
      PowersOfTwo();
    }
  }

  /** The bits of weight below 2^(8 - r) make up the remainder. */
  lemma {:induction false} LowBits(bitfield: seq<byte>, q: nat, r: nat)
    requires q < |bitfield| && r <= 8
    ensures bitfield[q] % Pow2(8 - r) == BitSum(bitfield, q, r)
    decreases 8 - r
  {
    hide BitSet, Pow2, BitSum;
    if r < 8 {
      LowBits(bitfield, q, r + 1);
      BitOfByte(bitfield, q, r);
      BitAddsPower(bitfield[q], 7 - r);
    } else {
      PowersOfTwo();
      assert BitSum(bitfield, q, 8) == 0 by { NoMoreBits(bitfield, q); }
      assert bitfield[q] % 1 == 0;
    }
  }

  lemma BitOfByte(bitfield: seq<byte>, q: nat, r: nat)
    requires q < |bitfield| && r < 8
    ensures BitSum(bitfield, q, r) ==
            (if BitSet(bitfield[q], 7 - r) then Pow2(7 - r) else 0) + BitSum(bitfield, q, r + 1)
  {
    hide BitSet, Pow2;
    assert (8 * q + r) / 8 == q && (8 * q + r) % 8 == r;
  }

  lemma PowersOfTwo()
    ensures Pow2(0) == 1 && Pow2(1) == 2 && Pow2(2) == 4 && Pow2(3) == 8 && Pow2(4) == 16 && Pow2(5) == 32
    ensures Pow2(6) == 64 && Pow2(7) == 128 && Pow2(8) == 256
  {
    assert Pow2(4) == 16;
  }

  lemma NoMoreBits(bitfield: seq<byte>, q: nat)
    ensures BitSum(bitfield, q, 8) == 0
  {
  }

  /** Bit k is what the remainder gains with one more bit. */
  lemma {:induction false} BitAddsPower(b: nat, k: nat)
    ensures b % Pow2(k + 1) == b % Pow2(k) + if BitSet(b, k) then Pow2(k) else 0
  {
    if k == 0 {
      assert Pow2(1) == 2 && Pow2(0) == 1;
    } else {
      BitAddsPower(b / 2, k - 1);
      HalfRemainder(b, Pow2(k - 1));
      HalfRemainder(b, Pow2(k));
    }
  }

  lemma HalfRemainder(b: nat, p: nat)
    requires p > 0
    ensures b % (2 * p) == 2 * (b / 2 % p) + b % 2
  {
    var h := b / 2;
    var r := 2 * (h % p) + b % 2;
    assert h == h / p * p + h % p;
    assert b == h / p * (2 * p) + r;
    QuotientIs(b, 2 * p, h / p);
  }

  // ---- bitfields over a run of messages ----

  /** What a Bitfield or Have message does to the bitfield; other messages do nothing. */
  function AfterMessage(bitfield: seq<byte>, m: PeerMessage): seq<byte> {
    if m.id == HAVE && |m.payload| == 4 then SetPiece(bitfield, ReadU32(m.payload))
    else if m.id == BITFIELD then m.payload
    else bitfield
  }

  function AfterMessages(bitfield: seq<byte>, ms: seq<PeerMessage>): seq<byte> {
    if ms == [] then bitfield
    else AfterMessage(AfterMessages(bitfield, ms[..|ms| - 1]), ms[|ms| - 1])
  }

  /** The message says that the peer has piece `j`. */
  predicate Announces(m: PeerMessage, j: nat) {
    || (m.id == BITFIELD && HasPiece(m.payload, j))
    || (m.id == HAVE && |m.payload| == 4 && ReadU32(m.payload) == j)
  }

  predicate NoBitfieldAfter(ms: seq<PeerMessage>, t: nat) {
    forall u :: t < u < |ms| ==> ms[u].id != BITFIELD
  }

  /** After any messages the bitfield is the set of pieces announced by the last Bitfield
      or by a Have since then. */
  lemma {:induction false} BitfieldIsAnnouncedSet(ms: seq<PeerMessage>, j: nat)
    ensures HasPiece(AfterMessages([], ms), j) <==>
            exists t: nat :: t < |ms| && Announces(ms[t], j) && NoBitfieldAfter(ms, t)
  {
    if ms != [] {
      var last := |ms| - 1;
      var before, m := ms[..last], ms[last];
      var bits := AfterMessages([], before);
      BitfieldIsAnnouncedSet(before, j);
      if m.id == HAVE && |m.payload| == 4 {
        SetPieceExactly(bits, ReadU32(m.payload), j);
      }
      assert NoBitfieldAfter(ms, last);
      if m.id != BITFIELD {
        forall t: nat | t < last
          ensures NoBitfieldAfter(before, t) <==> NoBitfieldAfter(ms, t)
        {
          assert forall u :: t < u < |ms| ==> u == last || ms[u] == before[u];
          assert forall u :: t < u < |before| ==> ms[u] == before[u];
        }
        if t: nat :| t < |before| && Announces(before[t], j) && NoBitfieldAfter(before, t) {
          assert Announces(ms[t], j) && NoBitfieldAfter(ms, t);
        }
        if t: nat :| t < |ms| && Announces(ms[t], j) && NoBitfieldAfter(ms, t) && t < last {
          assert Announces(before[t], j) && NoBitfieldAfter(before, t);
        }
      } else {
        forall t: nat | t < last
          ensures !NoBitfieldAfter(ms, t)
        {
          assert ms[last].id == BITFIELD;
        }
      }
    }
  }

  class Peer {
    var id: seq<byte>
    var idSet: bool
    var amInterested: bool
    var peerChoking: bool
    var peerInterested: bool
    var bitfield: seq<byte>

    constructor ()
      ensures View() == FRESH_PEER && !idSet && id == seq(20, _ => 0)
    {
      id := seq(20, _ => 0);
      idSet := false;
      amInterested := false;
      peerChoking := true;
      peerInterested := false;
      bitfield := [];
    }

    ghost function View(): PeerView
      reads this
    {
      PeerView(amInterested, peerChoking, peerInterested, bitfield)
    }

    predicate Has(pieceIndex: nat)
      reads this
    {
      HasPiece(bitfield, pieceIndex)
    }

    method Announce(pieceIndex: nat)
      modifies this`bitfield
      ensures bitfield == SetPiece(old(bitfield), pieceIndex)
    {
      var byteIndex := pieceIndex / 8;
      var bitOffset := 7 - pieceIndex % 8;
      if byteIndex >= |bitfield| {
        bitfield := bitfield + seq(byteIndex + 1 - |bitfield|, _ => 0);
      }
      bitfield := bitfield[byteIndex := WithBit(bitfield[byteIndex], bitOffset)];
    }
  }
}
