/** The canonical encoder of BEP 3, section "bencoding", and that decoding inverts it. */
module BencodeEncoding {
  import opened Bencode
  import opened BencodeWraps
  import opened Bytes
  import opened Wrappers

  // ---- the order of dictionary keys ----

  /** Keys are compared as raw strings. */
  predicate AtMost(a: seq<byte>, b: seq<byte>) {
    a == [] || (b != [] && (a[0] < b[0] || (a[0] == b[0] && AtMost(a[1..], b[1..]))))
  }

  lemma {:induction false} AtMostTotal(a: seq<byte>, b: seq<byte>)
    ensures AtMost(a, b) || AtMost(b, a)
  {
    if a != [] && b != [] && a[0] == b[0] {
      AtMostTotal(a[1..], b[1..]);
    }
  }

  lemma {:induction false} AtMostTransitive(a: seq<byte>, b: seq<byte>, c: seq<byte>)
    requires AtMost(a, b) && AtMost(b, c)
    ensures AtMost(a, c)
  {
    if a != [] && a[0] == b[0] && b[0] == c[0] {
      AtMostTransitive(a[1..], b[1..], c[1..]);
    }
  }

  lemma {:induction false} AtMostAntisymmetric(a: seq<byte>, b: seq<byte>)
    requires AtMost(a, b) && AtMost(b, a)
    ensures a == b
  {
    if a != [] && b != [] {
      AtMostAntisymmetric(a[1..], b[1..]);
      assert a == [a[0]] + a[1..] && b == [b[0]] + b[1..];
    }
  }

  /** The order of BEP 3: a key goes before those it begins, and otherwise the first byte that differs
      decides. */
  lemma {:induction false} KeyOrderExactly(a: seq<byte>, b: seq<byte>)
    ensures AtMost(a, b) <==> a <= b || exists k: nat :: FirstDifference(a, b, k) && a[k] < b[k]
  {
    if a != [] && b != [] {
      if a[0] == b[0] {
        var x, y := a[1..], b[1..];
        KeyOrderExactly(x, y);
        assert x <= y <==> a <= b by { assert a == [a[0]] + x && b == [a[0]] + y; }
        DifferenceShifts(a, b);
      } else {
        assert FirstDifference(a, b, 0);
        FrontAgrees(a, b);
      }
    }
  }

  lemma DifferenceShifts(a: seq<byte>, b: seq<byte>)
    requires a != [] && b != [] && a[0] == b[0]
    ensures (exists k: nat :: FirstDifference(a, b, k) && a[k] < b[k]) <==>
            exists k: nat :: FirstDifference(a[1..], b[1..], k) && a[1..][k] < b[1..][k]
  {
    var x, y := a[1..], b[1..];
    if k: nat :| FirstDifference(x, y, k) && x[k] < y[k] {
      assert a[..k + 1] == [a[0]] + x[..k] && b[..k + 1] == [a[0]] + y[..k];
      assert FirstDifference(a, b, k + 1) && a[k + 1] < b[k + 1];
    }
    if k: nat :| FirstDifference(a, b, k) && a[k] < b[k] {
      assert x[..k - 1] == a[..k][1..] && y[..k - 1] == b[..k][1..];
      assert FirstDifference(x, y, k - 1) && x[k - 1] < y[k - 1];
    }
  }

  lemma FrontAgrees(a: seq<byte>, b: seq<byte>)
    requires a != [] && b != []
    ensures forall k: nat :: FirstDifference(a, b, k) ==> k == 0 || a[0] == b[0]
  {
    forall k: nat | FirstDifference(a, b, k) && k > 0
      ensures a[0] == b[0]
    {
      assert a[..k][0] == b[..k][0];
    }
  }

  predicate FirstDifference(a: seq<byte>, b: seq<byte>, k: nat) {
    k < |a| && k < |b| && a[..k] == b[..k] && a[k] != b[k]
  }

  ghost predicate IsLeast(keys: set<seq<byte>>, k: seq<byte>) {
    k in keys && forall other :: other in keys ==> AtMost(k, other)
  }

  lemma {:induction false} LeastExists(keys: set<seq<byte>>) returns (k: seq<byte>)
    requires keys != {}
    ensures IsLeast(keys, k)
    decreases |keys|
  {
    var some :| some in keys;
    var rest := keys - {some};
    AtMostTotal(some, some);
    if rest == {} {
      k := some;
      assert keys == rest + {some};
    } else {
      k := LeastExists(rest);
      AtMostTotal(some, k);
      if AtMost(some, k) {
        forall other | other in keys
          ensures AtMost(some, other)
        {
          if other != some {
            assert other in rest;
            AtMostTransitive(some, k, other);
          }
        }
        k := some;
      } else {
        forall other | other in keys
          ensures AtMost(k, other)
        {
          assert other == some || other in rest;
        }
      }
    }
  }

  lemma LeastWitness(keys: set<seq<byte>>)
    requires keys != {}
    ensures exists k :: IsLeast(keys, k)
  {
    var k := LeastExists(keys);
  }

  ghost function Least(keys: set<seq<byte>>): (k: seq<byte>)
    requires keys != {}
    ensures IsLeast(keys, k)
  {
    LeastWitness(keys);
    var k :| IsLeast(keys, k);
    k
  }

  /** The keys in ascending order. */
  ghost function SortedKeys(keys: set<seq<byte>>): (r: seq<seq<byte>>)
    ensures forall k :: k in r <==> k in keys
    decreases |keys|
  {
    if keys == {} then []
    else
      var k := Least(keys);
      assert keys - {k} < keys;
      [k] + SortedKeys(keys - {k})
  }

  /** The canonical order: strictly ascending, so without repetition. */
  lemma {:induction false} SortedKeysAscend(keys: set<seq<byte>>)
    ensures forall i, j :: 0 <= i < j < |SortedKeys(keys)| ==>
              AtMost(SortedKeys(keys)[i], SortedKeys(keys)[j]) && SortedKeys(keys)[i] != SortedKeys(keys)[j]
    decreases |keys|
  {
    if keys != {} {
      var k := Least(keys);
      var rest := SortedKeys(keys - {k});
      SortedKeysAscend(keys - {k});
      forall j | 0 <= j < |rest|
        ensures AtMost(k, rest[j]) && k != rest[j]
      {
        assert rest[j] in keys - {k};
      }
    }
  }

  // ---- the encoder ----

  function EncodeNat(n: nat): (s: seq<byte>)
    ensures s != [] && AllDigits(s)
  {
    if n < 10 then [48 + n] else EncodeNat(n / 10) + [48 + n % 10]
  }

  /** The text of an integer between its delimiters. */
  function IntegerText(i: int): seq<byte> {
    if i < 0 then [MINUS] + EncodeNat(-i) else EncodeNat(i)
  }

  function EncodeInt(i: int): seq<byte> {
    [CHAR_I] + IntegerText(i) + [CHAR_E]
  }

  function EncodeString(s: seq<byte>): seq<byte> {
    EncodeNat(|s|) + [COLON] + s
  }

  ghost function Encode(v: Value): seq<byte>
    decreases v, 1
  {
    match v
    case Integer(i) => EncodeInt(i)
    case Str(s) => EncodeString(s)
    case List(items) => [CHAR_L] + EncodeItems(items) + [CHAR_E]
    case Dict(entries) => [CHAR_D] + EncodeEntries(v, SortedKeys(entries.Keys)) + [CHAR_E]
  }

  ghost function EncodeItems(items: seq<Value>): seq<byte>
    decreases items, 2
  {
    if items == [] then [] else Encode(items[0]) + EncodeItems(items[1..])
  }

  /** The entries of a dictionary for some of its keys, in the order given. */
  ghost function EncodeEntries(v: Value, keys: seq<seq<byte>>): seq<byte>
    requires v.Dict? && forall k :: k in keys ==> k in v.entries
    decreases v, 0, |keys|
  {
    if keys == [] then []
    else EncodeString(keys[0]) + Encode(v.entries[keys[0]]) + EncodeEntries(v, keys[1..])
  }

  /** All integers fit 64 bits. */
  ghost predicate Fits(v: Value) {
    match v
    case Integer(i) => -TWO_63 <= i < TWO_63
    case Str(s) => true
    case List(items) => forall x :: x in items ==> Fits(x)
    case Dict(entries) => forall k :: k in entries ==> Fits(entries[k])
  }

  // ---- decoding inverts encoding ----

  /** `piece` stands in `data` at `pos`. */
  predicate Stands(data: seq<byte>, pos: nat, piece: seq<byte>) {
    pos + |piece| <= |data| && data[pos..pos + |piece|] == piece
  }

  lemma StandsSplits(data: seq<byte>, pos: nat, a: seq<byte>, b: seq<byte>)
    ensures Stands(data, pos, a + b) <==> Stands(data, pos, a) && Stands(data, pos + |a|, b)
  {
    if pos + |a| + |b| <= |data| {
      var whole := data[pos..pos + |a + b|];
      assert data[pos..pos + |a|] == whole[..|a|];
      assert data[pos + |a|..pos + |a| + |b|] == whole[|a|..];
      assert (a + b)[..|a|] == a && (a + b)[|a|..] == b;
      assert whole == whole[..|a|] + whole[|a|..];
    }
  }

  lemma StandsAt(data: seq<byte>, pos: nat, piece: seq<byte>, i: nat)
    requires Stands(data, pos, piece) && i < |piece|
    ensures pos + i < |data| && data[pos + i] == piece[i]
  {
    assert data[pos..pos + |piece|][i] == data[pos + i];
  }

  lemma {:induction false} NumberOfNat(n: nat)
    ensures Number(EncodeNat(n)) == n
  {
    var s := EncodeNat(n);
    if n < 10 {
      assert s[..0] == [];
      assert Number(s[..0]) == 0;
    } else {
      NumberOfNat(n / 10);
      assert s[..|s| - 1] == EncodeNat(n / 10);
    }
  }

  /** The first delimiter after a delimiter-free text that stands before it. */
  lemma {:induction false} FindAfter(data: seq<byte>, pos: nat, text: seq<byte>, mark: byte)
    requires Stands(data, pos, text + [mark])
    requires forall i :: 0 <= i < |text| ==> text[i] != mark
    ensures pos <= |data| && Find(data, pos, mark) == pos + |text|
    decreases |text|
  {
    StandsAt(data, pos, text + [mark], 0);
    if text != [] {
      assert text + [mark] == [text[0]] + (text[1..] + [mark]);
      StandsSplits(data, pos, [text[0]], text[1..] + [mark]);
      FindAfter(data, pos + 1, text[1..], mark);
    }
  }

  lemma DigitsAvoid(s: seq<byte>, mark: byte)
    requires AllDigits(s) && !IsDigit(mark)
    ensures forall i :: 0 <= i < |s| ==> s[i] != mark
  {
  }

  lemma {:induction false} CountAllDigits(s: seq<byte>, from: nat)
    requires from <= |s| && AllDigits(s)
    ensures AllDigits(s[..from]) && DigitCount(s, from) == |s|
    decreases |s| - from
  {
    if from < |s| {
      CountAllDigits(s, from + 1);
    }
  }

  lemma IntegerTextMeans(i: int)
    requires -TWO_63 <= i < TWO_63
    ensures IntegerOf(IntegerText(i)) == Got(Integer(i), 0)
    ensures forall k :: 0 <= k < |IntegerText(i)| ==> IntegerText(i)[k] != CHAR_E
  {
    hide EncodeNat, Number;
    var digits, num := EncodeNat(if i < 0 then -i else i), IntegerText(i);
    NumberOfNat(if i < 0 then -i else i);
    assert i < 0 ==> num[1..] == digits;
    assert i >= 0 ==> IsDigit(num[0]);
  }

  lemma IntegerRoundTrip(data: seq<byte>, pos: nat, i: int)
    requires -TWO_63 <= i < TWO_63 && Stands(data, pos, EncodeInt(i))
    ensures pos < |data| && data[pos] == CHAR_I
    ensures ParseInteger(data, pos) == Got(Integer(i), pos + |EncodeInt(i)|)
  {
    hide IntegerOf, IntegerText, Find;
    var num := IntegerText(i);
    assert EncodeInt(i) == [CHAR_I] + (num + [CHAR_E]);
    StandsAt(data, pos, EncodeInt(i), 0);
    StandsSplits(data, pos, [CHAR_I], num + [CHAR_E]);
    StandsSplits(data, pos + 1, num, [CHAR_E]);
    IntegerTextMeans(i);
    FindAfter(data, pos + 1, num, CHAR_E);
  }

  /** Zeros in front of a number do not count. */
  lemma {:induction false} LeadingZeros(n: nat, s: seq<byte>)
    requires AllDigits(s)
    ensures AllDigits(seq(n, _ => 48) + s) && Number(seq(n, _ => 48) + s) == Number(s)
  {
    var zeros := seq(n, _ => 48);
    if s == [] {
      assert zeros + s == zeros;
      if n > 0 {
        LeadingZeros(n - 1, []);
        assert zeros[..n - 1] == seq(n - 1, _ => 48) + [];
      }
    } else {
      LeadingZeros(n, s[..|s| - 1]);
      assert (zeros + s)[..|zeros + s| - 1] == zeros + s[..|s| - 1];
    }
  }

  /** Every number has zeros, then its canonical digits. */
  lemma {:induction false} DigitsAre(s: seq<byte>) returns (zeros: nat)
    requires AllDigits(s) && s != []
    ensures zeros < |s| && s == seq(zeros, _ => 48) + EncodeNat(Number(s))
  {
    hide EncodeNat;
    var init, last := s[..|s| - 1], s[|s| - 1];
    if init == [] {
      zeros := 0;
      ZeroDigits(last);
      assert Number(init) == 0 && s == [last];
    } else {
      var before := DigitsAre(init);
      if Number(init) == 0 {
        zeros := |init|;
        ZeroDigits(last);
        assert init == seq(|init|, _ => 48);
      } else {
        zeros := before;
        NextDigit(Number(init), last);
      }
    }
  }

  lemma ZeroDigits(digit: byte)
    requires IsDigit(digit)
    ensures EncodeNat(0) == [48] && EncodeNat(digit - 48) == [digit]
  {
  }

  lemma NextDigit(n: nat, digit: byte)
    requires n > 0 && IsDigit(digit)
    ensures EncodeNat(n * 10 + (digit - 48)) == EncodeNat(n) + [digit]
  {
  }

  /** The integers that are accepted: a minus or none, zeros, and the canonical digits of a number, so
      that the whole fits a signed 64-bit word. */
  lemma IntegerExactly(num: seq<byte>, i: int)
    ensures IntegerOf(num) == Got(Integer(i), 0) <==>
            && -9223372036854775808 <= i <= 9223372036854775807
            && exists zeros: nat, minus: bool :: SpellsInteger(num, i, zeros, minus)
  {
    hide EncodeNat, Number;
    if IntegerOf(num) == Got(Integer(i), 0) {
      var minus := num[0] == MINUS;
      var digits := if minus then num[1..] else num;
      var zeros := DigitsAre(digits);
      assert num == (if minus then [45] else []) + digits;
      assert SpellsInteger(num, i, zeros, minus);
    }
    if zeros: nat, minus: bool :| SpellsInteger(num, i, zeros, minus) {
      var digits := seq(zeros, _ => 48) + EncodeNat(if i < 0 then -i else i);
      LeadingZeros(zeros, EncodeNat(if i < 0 then -i else i));
      NumberOfNat(if i < 0 then -i else i);
      assert minus ==> num[1..] == digits;
      assert !minus ==> num == digits && IsDigit(num[0]);
    }
  }

  /** `num` writes i with that many zeros in front of its digits; zero may have a minus. */
  predicate SpellsInteger(num: seq<byte>, i: int, zeros: nat, minus: bool) {
    && (i < 0 ==> minus) && (i > 0 ==> !minus)
    && num == (if minus then [45] else []) + (seq(zeros, _ => 48) + EncodeNat(if i < 0 then -i else i))
  }

  lemma StringRoundTrip(data: seq<byte>, pos: nat, s: seq<byte>)
    requires |data| < TWO_64 && Stands(data, pos, EncodeString(s))
    ensures pos < |data| && IsDigit(data[pos])
    ensures ParseString(data, pos) == Got(Str(s), pos + |EncodeString(s)|)
  {
    hide EncodeNat, Number, Find, DigitCount;
    var digits := EncodeNat(|s|);
    StandsAt(data, pos, EncodeString(s), 0);
    StandsSplits(data, pos, digits + [COLON], s);
    StandsSplits(data, pos, digits, [COLON]);
    DigitsAvoid(digits, COLON);
    FindAfter(data, pos, digits, COLON);
    CountAllDigits(digits, 0);
    assert digits[..|digits|] == digits;
    NumberOfNat(|s|);
    BoundCheckExactly(pos + |digits| + 1, |s|, |data|);
  }

  /** The bytes an encoding may begin with; none of them ends a list or a dictionary. */
  predicate Leads(b: byte) {
    b == CHAR_I || b == CHAR_L || b == CHAR_D || IsDigit(b)
  }

  lemma EncodeLeads(v: Value)
    ensures Encode(v) != [] && Leads(Encode(v)[0])
  {
    hide EncodeNat;
  }

  /** The entries of `keys` added to `acc`, in order. */
  function Added(acc: map<seq<byte>, Value>, v: Value, keys: seq<seq<byte>>): map<seq<byte>, Value>
    requires v.Dict? && forall k :: k in keys ==> k in v.entries
    decreases |keys|
  {
    if keys == [] then acc else Added(acc[keys[0] := v.entries[keys[0]]], v, keys[1..])
  }

  lemma {:induction false} AddedEntries(acc: map<seq<byte>, Value>, v: Value, keys: seq<seq<byte>>)
    requires v.Dict? && forall k :: k in keys ==> k in v.entries
    ensures forall k :: k in Added(acc, v, keys) <==> k in acc || k in keys
    ensures forall k :: k in keys ==> Added(acc, v, keys)[k] == v.entries[k]
    ensures forall k :: k in acc && k !in keys ==> Added(acc, v, keys)[k] == acc[k]
    decreases |keys|
  {
    if keys != [] {
      AddedEntries(acc[keys[0] := v.entries[keys[0]]], v, keys[1..]);
      assert forall k :: k in keys <==> k == keys[0] || k in keys[1..];
    }
  }

  /** All of a dictionary's keys, in any order, rebuild it. */
  lemma AllAdded(v: Value, keys: seq<seq<byte>>)
    requires v.Dict? && forall k :: k in keys <==> k in v.entries
    ensures Added(map[], v, keys) == v.entries
  {
    AddedEntries(map[], v, keys);
  }

  lemma {:induction false} ParseEncoded(data: seq<byte>, pos: nat, v: Value)
    requires |data| < TWO_64 && Fits(v) && Stands(data, pos, Encode(v))
    ensures ParseAt(data, pos) == Got(v, pos + |Encode(v)|)
    decreases v, 1
  {
    hide ParseInteger, ParseString, Stands, EncodeInt, EncodeString, ParseItems, ParseEntries, EncodeItems,
         EncodeEntries, SortedKeys, Added;
    EncodeLeads(v);
    StandsAt(data, pos, Encode(v), 0);
    match v
    case Integer(i) => IntegerRoundTrip(data, pos, i);
    case Str(s) => StringRoundTrip(data, pos, s);
    case List(items) =>
      assert Encode(v) == [CHAR_L] + (EncodeItems(items) + [CHAR_E]);
      StandsSplits(data, pos, [CHAR_L], EncodeItems(items) + [CHAR_E]);
      ParseEncodedItems(data, pos + 1, items, []);
      assert [] + items == items;
    case Dict(entries) =>
      var keys := SortedKeys(entries.Keys);
      assert Encode(v) == [CHAR_D] + (EncodeEntries(v, keys) + [CHAR_E]);
      StandsSplits(data, pos, [CHAR_D], EncodeEntries(v, keys) + [CHAR_E]);
      ParseEncodedEntries(data, pos + 1, v, keys, map[]);
      AllAdded(v, keys);
  }

  lemma {:induction false} ParseEncodedItems(data: seq<byte>, pos: nat, items: seq<Value>, before: seq<Value>)
    requires |data| < TWO_64 && (forall x :: x in items ==> Fits(x))
    requires Stands(data, pos, EncodeItems(items) + [CHAR_E])
    ensures pos <= |data|
    ensures ParseItems(data, pos, before) == Got(before + items, pos + |EncodeItems(items)| + 1)
    decreases items, 2
  {
    hide ParseAt, Stands, Encode;
    StandsAt(data, pos, EncodeItems(items) + [CHAR_E], 0);
    if items == [] {
      assert before + [] == before;
    } else {
      var first, rest := Encode(items[0]), EncodeItems(items[1..]) + [CHAR_E];
      assert EncodeItems(items) + [CHAR_E] == first + rest;
      StandsSplits(data, pos, first, rest);
      EncodeLeads(items[0]);
      StandsAt(data, pos, first, 0);
      ParseEncoded(data, pos, items[0]);
      ParseEncodedItems(data, pos + |first|, items[1..], before + [items[0]]);
      assert before + [items[0]] + items[1..] == before + items;
    }
  }

  lemma ParseEncodedKey(data: seq<byte>, pos: nat, k: seq<byte>)
    requires |data| < TWO_64 && Stands(data, pos, EncodeString(k))
    ensures pos < |data| && data[pos] != CHAR_E
    ensures ParseAt(data, pos) == Got(Str(k), pos + |EncodeString(k)|)
  {
    hide ParseString, Stands, EncodeString;
    StringRoundTrip(data, pos, k);
  }

  lemma {:induction false} ParseEncodedEntries(data: seq<byte>, pos: nat, v: Value, keys: seq<seq<byte>>,
                                               before: map<seq<byte>, Value>)
    requires |data| < TWO_64 && v.Dict? && Fits(v) && forall k :: k in keys ==> k in v.entries
    requires Stands(data, pos, EncodeEntries(v, keys) + [CHAR_E])
    ensures pos <= |data|
    ensures ParseEntries(data, pos, before) == Got(Added(before, v, keys), pos + |EncodeEntries(v, keys)| + 1)
    decreases v, 0, |keys|
  {
    hide ParseAt, Stands, Encode, EncodeString;
    StandsAt(data, pos, EncodeEntries(v, keys) + [CHAR_E], 0);
    if keys != [] {
      var k := keys[0];
      var key, value, rest := EncodeString(k), Encode(v.entries[k]), EncodeEntries(v, keys[1..]) + [CHAR_E];
      assert EncodeEntries(v, keys) + [CHAR_E] == key + (value + rest);
      StandsSplits(data, pos, key, value + rest);
      StandsSplits(data, pos + |key|, value, rest);
      ParseEncodedKey(data, pos, k);
      ParseEncoded(data, pos + |key|, v.entries[k]);
      ParseEncodedEntries(data, pos + |key| + |value|, v, keys[1..], before[k := v.entries[k]]);
    }
  }

  /** Decoding an encoding wherever it stands yields the value, with the cursor at its end. */
  lemma DecodeEncoded(data: seq<byte>, pos: nat, v: Value)
    requires |data| < TWO_64 && Fits(v) && Stands(data, pos, Encode(v))
    ensures ParseAt(data, pos) == Got(v, pos + |Encode(v)|)
    ensures Decode(data, pos) == Some(Got(v, pos + |Encode(v)|))
  {
    hide ParseAt, Decode, Encode;
    ParseEncoded(data, pos, v);
    AcceptedAsMeant(data, pos);
  }

  /** Round trip: the canonical encoding of a value, between any prefix and any suffix, decodes to
      that value and leaves the cursor exactly at the end of the encoding. */
  lemma RoundTrip(prefix: seq<byte>, v: Value, suffix: seq<byte>)
    requires Fits(v) && |prefix + Encode(v) + suffix| < TWO_64
    ensures Decode(prefix + Encode(v) + suffix, |prefix|) == Some(Got(v, |prefix| + |Encode(v)|))
  {
    hide Decode, Encode;
    var data := prefix + Encode(v) + suffix;
    assert data[|prefix|..|prefix| + |Encode(v)|] == Encode(v);
    DecodeEncoded(data, |prefix|, v);
  }

  /** The decoder does not ask for sorted keys: a dictionary written with its keys in any order, even
      repeated, decodes to the same value. */
  lemma AnyKeyOrder(data: seq<byte>, pos: nat, v: Value, keys: seq<seq<byte>>)
    requires |data| < TWO_64 && v.Dict? && Fits(v) && forall k :: k in keys <==> k in v.entries
    requires Stands(data, pos, [CHAR_D] + (EncodeEntries(v, keys) + [CHAR_E]))
    ensures Decode(data, pos) == Some(Got(v, pos + |EncodeEntries(v, keys)| + 2))
  {
    hide Stands, ParseEntries, EncodeEntries, Decode;
    StandsAt(data, pos, [CHAR_D] + (EncodeEntries(v, keys) + [CHAR_E]), 0);
    StandsSplits(data, pos, [CHAR_D], EncodeEntries(v, keys) + [CHAR_E]);
    ParseEncodedEntries(data, pos + 1, v, keys, map[]);
    AllAdded(v, keys);
    AcceptedAsMeant(data, pos);
  }

  /** Different values have different encodings. */
  lemma EncodeInjective(v: Value, w: Value)
    requires Fits(v) && Fits(w) && |Encode(v)| < TWO_64 && Encode(v) == Encode(w)
    ensures v == w
  {
    hide Decode, Encode;
    assert [] + Encode(v) + [] == Encode(v);
    RoundTrip([], v, []);
    RoundTrip([], w, []);
  }
}
