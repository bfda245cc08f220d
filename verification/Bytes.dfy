/** Optional values and results. */
module Wrappers {
  datatype Option<+T> = None | Some(value: T)

  datatype Result<+T, +E> = Ok(value: T) | Err(error: E)
}

/** Bytes, 32-bit words and the big-endian layout the wire protocol uses. */
module Bytes {
  type byte = n: int | 0 <= n < 256

  const TWO_32: int := 0x1_0000_0000

  /** The value an unsigned 32-bit computation leaves behind. */
  function U32(n: int): (r: nat)
    ensures r < TWO_32
    ensures 0 <= n < TWO_32 ==> r == n
  {
    n % TWO_32
  }

  function EncodeU32(v: nat): (b: seq<byte>)
    requires v < TWO_32
    ensures |b| == 4
  {
    [v / 0x100_0000, v / 0x1_0000 % 0x100, v / 0x100 % 0x100, v % 0x100]
  }

  function ReadU32(b: seq<byte>): (v: nat)
    requires |b| >= 4
    ensures v < TWO_32
  {
    var b0: int, b1: int, b2: int, b3: int := b[0], b[1], b[2], b[3];
    b0 * 0x100_0000 + b1 * 0x1_0000 + b2 * 0x100 + b3
  }

  lemma QuotientIs(g: nat, d: nat, q: nat)
    requires d > 0 && q * d <= g < q * d + d
    ensures g / d == q && g % d == g - q * d
  {
    var k := g / d;
    assert k < q ==> (k + 1) * d <= q * d;
    assert k > q ==> (q + 1) * d <= k * d;
  }

  /** The number a text of bytes writes, most significant byte first. */
  function Big(s: seq<byte>): nat {
    if s == [] then 0 else Big(s[..|s| - 1]) * 256 + s[|s| - 1]
  }

  /** Words are big-endian, as they are read and as they are written. */
  lemma WordIsBig(b: seq<byte>, v: nat)
    requires |b| >= 4 && v < TWO_32
    ensures ReadU32(b) == Big(b[..4])
    ensures Big(EncodeU32(v)) == v
  {
    FourBytes(b[..4]);
    FourBytes(EncodeU32(v));
    ReadEncodedU32(v, []);
    assert EncodeU32(v) + [] == EncodeU32(v);
  }

  lemma FourBytes(s: seq<byte>)
    requires |s| == 4
    ensures Big(s) == ReadU32(s)
  {
    assert s[..3][..2] == s[..2] && s[..2][..1] == s[..1] && s[..1][..0] == [];
    assert Big(s[..0]) == 0;
    assert Big(s[..1]) == s[0];
    assert Big(s[..2]) == Big(s[..1]) * 256 + s[1];
    assert Big(s[..3]) == Big(s[..2]) * 256 + s[2];
  }

  /** Writing a word and reading it back gives the word. */
  lemma ReadEncodedU32(v: nat, rest: seq<byte>)
    requires v < TWO_32
    ensures ReadU32(EncodeU32(v) + rest) == v
  {
    var b := EncodeU32(v) + rest;
    var b1, b2, b3 := v / 0x100_0000, v / 0x1_0000, v / 0x100;
    assert b2 == b1 * 0x100 + b2 % 0x100;
    assert b3 == b2 * 0x100 + b3 % 0x100;
    assert v == b3 * 0x100 + v % 0x100;
  }

  /** Reading a word and writing it back gives the four bytes read. */
  lemma EncodeReadU32(b: seq<byte>)
    requires |b| >= 4
    ensures EncodeU32(ReadU32(b)) == b[..4]
  {
    var v := ReadU32(b);
    var b0: int, b1: int, b2: int, b3: int := b[0], b[1], b[2], b[3];
    TopByte(b0, b1 * 0x1_0000 + b2 * 0x100 + b3);
    TopTwoBytes(b0 * 0x100 + b1, b2 * 0x100 + b3);
    LastByte(b0 * 0x1_0000 + b1 * 0x100 + b2, b3);
    LastByte(b0 * 0x100 + b1, b2);
    LastByte(b0, b1);
    assert v / 0x100_0000 == b0;
    assert v / 0x1_0000 == b0 * 0x100 + b1;
    assert v / 0x100 == b0 * 0x1_0000 + b1 * 0x100 + b2;
  }

  lemma TopByte(top: int, low: int)
    requires 0 <= low < 0x100_0000
    ensures (top * 0x100_0000 + low) / 0x100_0000 == top
  {
  }

  lemma TopTwoBytes(top: int, low: int)
    requires 0 <= low < 0x1_0000
    ensures (top * 0x1_0000 + low) / 0x1_0000 == top
  {
  }

  lemma LastByte(top: int, low: int)
    requires 0 <= low < 0x100
    ensures (top * 0x100 + low) / 0x100 == top && (top * 0x100 + low) % 0x100 == low
  {
  }

  /** The in-place form: four bytes of a buffer are overwritten. */
  method WriteU32(buf: array<byte>, at: nat, v: nat)
    requires at + 4 <= buf.Length && v < TWO_32
    modifies buf
    ensures buf[..] == old(buf[..at]) + EncodeU32(v) + old(buf[at + 4..])
  {
    buf[at] := v / 0x100_0000;
    buf[at + 1] := v / 0x1_0000 % 0x100;
    buf[at + 2] := v / 0x100 % 0x100;
    buf[at + 3] := v % 0x100;
  }
}
