/** Inputs on which the decoder's cursor goes back. */
module BackwardCursor {
  import opened Bencode
  import opened BencodeEncoding
  import opened BencodeWraps
  import opened Bytes
  import opened Wrappers

  /** l18446744073709551595: */
  const ENDLESS: seq<byte> :=
    [108, 49, 56, 52, 52, 54, 55, 52, 52, 48, 55, 51, 55, 48, 57, 53, 53, 49, 53, 57, 53, 58]

  /** l18446744073709551614:abcde */
  const CLAMPED: seq<byte> :=
    [108, 49, 56, 52, 52, 54, 55, 52, 52, 48, 55, 51, 55, 48, 57, 53, 53, 49, 54, 49, 52, 58, 97, 98, 99, 100, 101]

  lemma OneDigit(text: seq<byte>, k: nat, n: nat)
    requires 1 < k < |text| && n >= 10
    requires EncodeNat(n / 10) == text[1..k] && text[k] == 48 + n % 10
    ensures EncodeNat(n) == text[1..k + 1]
  {
  }

  lemma EndlessDigits()
    ensures EncodeNat(TWO_64 - 21) == ENDLESS[1..21]
  {
    hide EncodeNat;
    FirstDigit(ENDLESS);
    OneDigit(ENDLESS, 2, 18);
    OneDigit(ENDLESS, 3, 184);
    OneDigit(ENDLESS, 4, 1844);
    OneDigit(ENDLESS, 5, 18446);
    OneDigit(ENDLESS, 6, 184467);
    OneDigit(ENDLESS, 7, 1844674);
    OneDigit(ENDLESS, 8, 18446744);
    OneDigit(ENDLESS, 9, 184467440);
    OneDigit(ENDLESS, 10, 1844674407);
    OneDigit(ENDLESS, 11, 18446744073);
    OneDigit(ENDLESS, 12, 184467440737);
    OneDigit(ENDLESS, 13, 1844674407370);
    OneDigit(ENDLESS, 14, 18446744073709);
    OneDigit(ENDLESS, 15, 184467440737095);
    OneDigit(ENDLESS, 16, 1844674407370955);
    OneDigit(ENDLESS, 17, 18446744073709551);
    OneDigit(ENDLESS, 18, 184467440737095515);
    OneDigit(ENDLESS, 19, 1844674407370955159);
    OneDigit(ENDLESS, 20, 18446744073709551595);
  }

  lemma ClampedDigits()
    ensures EncodeNat(TWO_64 - 2) == CLAMPED[1..21]
  {
    hide EncodeNat;
    FirstDigit(CLAMPED);
    OneDigit(CLAMPED, 2, 18);
    OneDigit(CLAMPED, 3, 184);
    OneDigit(CLAMPED, 4, 1844);
    OneDigit(CLAMPED, 5, 18446);
    OneDigit(CLAMPED, 6, 184467);
    OneDigit(CLAMPED, 7, 1844674);
    OneDigit(CLAMPED, 8, 18446744);
    OneDigit(CLAMPED, 9, 184467440);
    OneDigit(CLAMPED, 10, 1844674407);
    OneDigit(CLAMPED, 11, 18446744073);
    OneDigit(CLAMPED, 12, 184467440737);
    OneDigit(CLAMPED, 13, 1844674407370);
    OneDigit(CLAMPED, 14, 18446744073709);
    OneDigit(CLAMPED, 15, 184467440737095);
    OneDigit(CLAMPED, 16, 1844674407370955);
    OneDigit(CLAMPED, 17, 18446744073709551);
    OneDigit(CLAMPED, 18, 184467440737095516);
    OneDigit(CLAMPED, 19, 1844674407370955161);
    OneDigit(CLAMPED, 20, 18446744073709551614);
  }

  lemma FirstDigit(text: seq<byte>)
    requires |text| > 1 && text[1] == 49
    ensures EncodeNat(1) == text[1..2]
  {
  }

  lemma {:induction false} CountDigits(s: seq<byte>, from: nat, n: nat)
    requires from <= n <= |s| && AllDigits(s[..n]) && (n < |s| ==> !IsDigit(s[n]))
    ensures AllDigits(s[..from]) && DigitCount(s, from) == n
    decreases n - from
  {
    assert forall i :: 0 <= i < n ==> s[..n][i] == s[i];
    if from < n {
      CountDigits(s, from + 1, n);
    }
  }

  /** The head of a string at its place; what follows the digits of its length does not count. */
  lemma HeadStands(data: seq<byte>, pos: nat, len: nat, rest: seq<byte>)
    requires len < TWO_64 && (rest != [] ==> !IsDigit(rest[0])) && COLON !in rest
    requires Stands(data, pos, EncodeNat(len) + rest + [COLON])
    ensures pos < |data| && IsDigit(data[pos])
    ensures StringHead(data, pos) == Got(len, pos + |EncodeNat(len) + rest| + 1)
  {
    hide EncodeNat, Number, Find, DigitCount;
    var digits, text := EncodeNat(len), EncodeNat(len) + rest;
    StandsAt(data, pos, text + [COLON], 0);
    StandsSplits(data, pos, text, [COLON]);
    DigitsAvoid(digits, COLON);
    FindAfter(data, pos, text, COLON);
    assert text[..|digits|] == digits;
    CountDigits(text, 0, |digits|);
    NumberOfNat(len);
  }

  /** The string in `ENDLESS` ends where it begins. */
  lemma EndlessString()
    ensures ENDLESS[1] == 49 && RunString(ENDLESS, 1) == Got(Str([]), 1)
  {
    hide StringHead, EncodeNat;
    EndlessDigits();
    assert ENDLESS[1..22] == EncodeNat(TWO_64 - 21) + [] + [COLON];
    HeadStands(ENDLESS, 1, TWO_64 - 21, []);
    StringAgreesExactly(ENDLESS, 1);
    assert ENDLESS[22..] == [];
  }

  lemma {:induction false} EndlessItems(items: seq<Value>, n: nat)
    ensures RunItems(ENDLESS, 1, items, n) == None
    decreases n
  {
    hide RunString;
    EndlessString();
    if n > 0 {
      EndlessItems(items + [Str([])], n - 1);
    }
  }

  /** On these 22 bytes the decoder never ends: each string of the list takes the cursor back to the
      first. */
  lemma NeverEnds()
    ensures Decode(ENDLESS, 0) == None
    ensures forall n: nat :: RunAt(ENDLESS, 0, n) == None
  {
    forall n: nat
      ensures RunAt(ENDLESS, 0, n) == None
    {
      EndlessItems([], n);
    }
  }

  /** The first string in `CLAMPED` gets the rest of the data, and the second starts inside its head. */
  lemma ClampedStrings(data: seq<byte>, more: seq<byte>)
    requires |more| < 2 && data == CLAMPED + more
    requires |data| >= 27 && IsDigit(data[1]) && IsDigit(data[20])
    ensures RunString(data, 1) == Got(Str([97, 98, 99, 100, 101] + more), 20)
    ensures RunString(data, 20) == Got(Str([97, 98, 99, 100]), 26)
  {
    hide StringHead, EncodeNat;
    ClampedDigits();
    assert data[1..22] == EncodeNat(TWO_64 - 2) + [] + [COLON];
    HeadStands(data, 1, TWO_64 - 2, []);
    StringAgreesExactly(data, 1);
    assert data[22..] == [97, 98, 99, 100, 101] + more;
    FourDigit();
    assert data[20..22] == EncodeNat(4) + [] + [COLON];
    HeadStands(data, 20, 4, []);
    assert data[22..26] == [97, 98, 99, 100];
  }

  lemma FourDigit()
    ensures EncodeNat(4) == [52]
  {
  }

  /** These 27 bytes decode, to two strings, with the cursor at their end. With one byte added after
      them the first string is another. */
  lemma ReadsPastItsEnd(x: byte)
    ensures Decode(CLAMPED, 0) == Some(Got(List([Str([97, 98, 99, 100, 101]), Str([97, 98, 99, 100])]), 27))
    ensures Decode(CLAMPED + [x], 0) ==
            Some(Got(List([Str([97, 98, 99, 100, 101, x]), Str([97, 98, 99, 100])]), 27))
  {
    hide Decode;
    ClampedList([]);
    ClampedList([x]);
    assert CLAMPED + [] == CLAMPED;
    assert [97, 98, 99, 100, 101] + [] == [97, 98, 99, 100, 101];
    assert [97, 98, 99, 100, 101] + [x] == [97, 98, 99, 100, 101, x];
  }

  lemma ClampedList(more: seq<byte>)
    requires |more| < 2
    ensures Decode(CLAMPED + more, 0) ==
            Some(Got(List([Str([97, 98, 99, 100, 101] + more), Str([97, 98, 99, 100])]), 27))
  {
    hide RunString;
    var data := CLAMPED + more;
    var first, second := Str([97, 98, 99, 100, 101] + more), Str([97, 98, 99, 100]);
    var n := EnoughTurns(data);
    assert data[0] == CHAR_L && data[1] == 49 && data[20] == 52 && data[26] == CHAR_E;
    ClampedStrings(data, more);
    assert RunItems(data, 26, [first, second], n - 2) == Some(Got([first, second], 27));
    assert [first] + [second] == [first, second];
    assert RunAt(data, 20, n - 2) == Some(Got(second, 26));
    assert RunItems(data, 20, [first], n - 1) == Some(Got([first, second], 27));
    assert [] + [first] == [first];
    assert RunItems(data, 1, [], n) == Some(Got([first, second], 27));
  }

  /** d1:a18446744073709551614 1:ai5ee */
  const MASKED: seq<byte> :=
    [100, 49, 58, 97] + CLAMPED[1..21] + [32, 49, 58, 97, 105, 53, 101, 101]

  /** 1:a */
  lemma OneLetter(data: seq<byte>, pos: nat)
    requires pos + 3 <= |data| < TWO_64 && data[pos..pos + 3] == [49, 58, 97] && IsDigit(data[pos])
    ensures RunString(data, pos) == Got(Str([97]), pos + 3)
  {
    hide StringHead, EncodeNat;
    OneDigits();
    assert EncodeNat(1) + [] + [COLON] == [49, 58];
    assert data[pos..pos + 2] == data[pos..pos + 3][..2];
    HeadStands(data, pos, 1, []);
    assert data[pos + 2..pos + 3] == data[pos..pos + 3][2..];
  }

  lemma OneDigits()
    ensures EncodeNat(1) == [49]
  {
  }

  lemma MaskedString(data: seq<byte>, more: seq<byte>)
    requires data == MASKED + more && |data| < TWO_64
    requires |data| >= 32 && IsDigit(data[4])
    ensures RunString(data, 4) == Got(Str(data[27..]), 25) && Wraps(data, 4)
  {
    hide StringHead, EncodeNat, RunString;
    ClampedDigits();
    var text := EncodeNat(TWO_64 - 2) + [32, 49] + [COLON];
    assert text == CLAMPED[1..21] + [32, 49, 58];
    assert data[4..27] == MASKED[4..27];
    assert MASKED[4..27] == CLAMPED[1..21] + [32, 49, 58];
    HeadStands(data, 4, TWO_64 - 2, [32, 49]);
    StringAgreesExactly(data, 4);
  }

  lemma MaskedInteger(data: seq<byte>, more: seq<byte>)
    requires data == MASKED + more && |data| >= 32 && data[28] == CHAR_I
    ensures ParseInteger(data, 28) == Got(Integer(5), 31)
  {
    assert Find(data, 30, CHAR_E) == 30;
    assert Find(data, 29, CHAR_E) == 30;
    assert data[29..30] == [53];
    assert [53][..0] == [];
    assert Number([53]) == 5;
  }

  /** The guard of `DecodeLocal` is not necessary: these bytes meet a string whose sum wraps, and yet
      decode to the same value whatever follows them, for that string's key is written again. */
  lemma MaskedIsLocal(more: seq<byte>)
    requires |MASKED + more| < TWO_64
    ensures MeetsWrap(MASKED + more, 0)
    ensures Decode(MASKED + more, 0) == Some(Got(Dict(map[[97] := Integer(5)]), |MASKED|))
  {
    hide RunString, ParseInteger, Wraps;
    var data := MASKED + more;
    assert CLAMPED[1] == 49 && data[4] == CLAMPED[1..21][0];
    assert data[0] == CHAR_D && data[1] == 49 && data[25] == 49 && data[28] == CHAR_I;
    assert data[31] == CHAR_E;
    assert data[1..4] == MASKED[1..4] && data[25..28] == MASKED[25..28];
    assert MASKED[1..4] == [49, 58, 97];
    assert MASKED[25..28] == [49, 58, 97];
    OneLetter(data, 1);
    OneLetter(data, 25);
    MaskedString(data, more);
    MaskedInteger(data, more);
    var n, rest := EnoughTurns(data), Str(data[27..]);
    var both := map[[97] := rest][[97] := Integer(5)];
    assert both == map[[97] := Integer(5)];
    assert RunEntries(data, 31, both, n - 2) == Some(Got(both, 32));
    assert RunAt(data, 25, n - 2) == Some(Got(Str([97]), 28));
    assert RunAt(data, 28, n - 2) == Some(Got(Integer(5), 31));
    assert RunEntries(data, 25, map[[97] := rest], n - 1) == Some(Got(both, 32));
    assert RunAt(data, 1, n - 1) == Some(Got(Str([97]), 4));
    assert RunAt(data, 4, n - 1) == Some(Got(rest, 25));
    assert RunEntries(data, 1, map[], n) == Some(Got(both, 32));
    MaskedMeets(data);
  }

  lemma MaskedMeets(data: seq<byte>)
    requires 28 <= |data| < TWO_64 && data[0] == CHAR_D && IsDigit(data[1]) && RunString(data, 1) == Got(Str([97]), 4)
    requires IsDigit(data[4]) && Wraps(data, 4)
    ensures MeetsWrap(data, 0)
  {
    hide RunString, ParseString, Wraps;
    StringAgreesExactly(data, 1);
    if !Wraps(data, 1) {
      assert ParseAt(data, 1) == Got(Str([97]), 4);
      assert MeetsWrap(data, 4);
    }
    assert EntriesMeetWrap(data, 1);
  }
}
