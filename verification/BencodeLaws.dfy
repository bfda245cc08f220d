/** What a decode that meets no wrapped sum depends on. */
module BencodeLaws {
  import opened Bencode
  import opened Bytes

  /** The bytes [a, b) of `x` are those of `y` at c. */
  predicate Agrees(x: seq<byte>, a: nat, b: nat, y: seq<byte>, c: nat) {
    && a <= b <= |x| && c + (b - a) <= |y|
    && forall i :: a <= i < b ==> x[i] == y[c + (i - a)]
  }

  lemma AgreesPart(x: seq<byte>, a: nat, b: nat, y: seq<byte>, c: nat, p: nat, q: nat)
    requires Agrees(x, a, b, y, c) && a <= p <= q <= b
    ensures q <= |x| && c + (q - a) <= |y| && Agrees(x, p, q, y, c + (p - a))
  {
    var d := c + (p - a);
    forall i | p <= i < q
      ensures x[i] == y[d + (i - p)]
    {
      assert d + (i - p) == c + (i - a);
    }
  }

  lemma AgreesSlice(x: seq<byte>, a: nat, b: nat, y: seq<byte>, c: nat, p: nat, q: nat)
    requires Agrees(x, a, b, y, c) && a <= p <= q <= b
    ensures q <= |x| && c + (q - a) <= |y| && x[p..q] == y[c + (p - a)..c + (q - a)]
  {
    AgreesPart(x, a, b, y, c, p, q);
    assert |x[p..q]| == |y[c + (p - a)..c + (q - a)]|;
  }

  lemma AgreesFirst(x: seq<byte>, a: nat, b: nat, y: seq<byte>, c: nat)
    requires Agrees(x, a, b, y, c) && a < b
    ensures a < |x| && c < |y| && y[c] == x[a]
  {
    assert x[a] == y[c + (a - a)];
  }

  /** A delimiter found inside agreeing bytes is found at the same distance. */
  lemma {:induction false} FindLocal(x: seq<byte>, a: nat, b: nat, y: seq<byte>, c: nat, from: nat, mark: byte)
    requires Agrees(x, a, b, y, c) && a <= from <= |x| && Find(x, from, mark) < b
    ensures Find(y, c + (from - a), mark) == c + (Find(x, from, mark) - a)
    decreases b - from
  {
    if x[from] != mark {
      FindLocal(x, a, b, y, c, from + 1, mark);
    }
  }

  lemma IntegerLocal(x: seq<byte>, a: nat, y: seq<byte>, c: nat)
    requires a < |x| && x[a] == CHAR_I && ParseInteger(x, a).Got?
    requires Agrees(x, a, ParseInteger(x, a).pos, y, c)
    requires ParseInteger(x, a).pos > a
    ensures c < |y| && y[c] == CHAR_I
    ensures ParseInteger(y, c) == Got(ParseInteger(x, a).value, c + (ParseInteger(x, a).pos - a))
  {
    hide Find, IntegerOf, Agrees;
    AgreesFirst(x, a, ParseInteger(x, a).pos, y, c);
    var end := Find(x, a + 1, CHAR_E);
    FindLocal(x, a, end + 1, y, c, a + 1, CHAR_E);
    AgreesSlice(x, a, end + 1, y, c, a + 1, end);
    AgreesPart(x, a, end + 1, y, c, end, end + 1);
  }

  lemma HeadLocal(x: seq<byte>, a: nat, b: nat, y: seq<byte>, c: nat)
    requires a < |x| && IsDigit(x[a]) && StringHead(x, a).Got? && StringHead(x, a).pos <= b
    requires Agrees(x, a, b, y, c)
    ensures c < |y| && IsDigit(y[c])
    ensures StringHead(y, c) == Got(StringHead(x, a).value, c + (StringHead(x, a).pos - a))
  {
    hide Number, DigitCount, Find, Agrees;
    AgreesFirst(x, a, b, y, c);
    var colon := Find(x, a, COLON);
    FindLocal(x, a, b, y, c, a, COLON);
    AgreesSlice(x, a, b, y, c, a, colon);
    AgreesPart(x, a, b, y, c, colon, b);
  }

  lemma StringLocal(x: seq<byte>, a: nat, y: seq<byte>, c: nat)
    requires a < |x| && IsDigit(x[a]) && ParseString(x, a).Got?
    requires Agrees(x, a, ParseString(x, a).pos, y, c)
    ensures c < |y| && IsDigit(y[c])
    ensures ParseString(y, c) == Got(ParseString(x, a).value, c + (ParseString(x, a).pos - a))
  {
    hide StringHead, Agrees;
    var end := ParseString(x, a).pos;
    HeadLocal(x, a, end, y, c);
    AgreesSlice(x, a, end, y, c, StringHead(x, a).pos, end);
  }

  /** As it is meant, a decode looks at nothing but the bytes it consumes. The same bytes anywhere in
      any other data decode to the same value and move the cursor as far. */
  lemma {:induction false} ParseLocal(x: seq<byte>, a: nat, y: seq<byte>, c: nat)
    requires ParseAt(x, a).Got?
    requires Agrees(x, a, ParseAt(x, a).pos, y, c)
    ensures ParseAt(y, c) == Got(ParseAt(x, a).value, c + (ParseAt(x, a).pos - a))
    decreases |x| - a, 1
  {
    hide ParseInteger, ParseString, Agrees, ParseItems, ParseEntries;
    AgreesFirst(x, a, ParseAt(x, a).pos, y, c);
    if x[a] == CHAR_I {
      IntegerLocal(x, a, y, c);
    } else if IsDigit(x[a]) {
      StringLocal(x, a, y, c);
    } else if x[a] == CHAR_L {
      AgreesPart(x, a, ParseAt(x, a).pos, y, c, a + 1, ParseAt(x, a).pos);
      ItemsLocal(x, a + 1, y, c + 1, []);
    } else {
      AgreesPart(x, a, ParseAt(x, a).pos, y, c, a + 1, ParseAt(x, a).pos);
      EntriesLocal(x, a + 1, y, c + 1, map[]);
    }
  }

  lemma {:induction false} ItemsLocal(x: seq<byte>, a: nat, y: seq<byte>, c: nat, items: seq<Value>)
    requires a <= |x| && ParseItems(x, a, items).Got?
    requires Agrees(x, a, ParseItems(x, a, items).pos, y, c)
    ensures c <= |y|
    ensures ParseItems(y, c, items) == Got(ParseItems(x, a, items).value, c + (ParseItems(x, a, items).pos - a))
    decreases |x| - a, 2
  {
    hide ParseAt, Agrees;
    var end := ParseItems(x, a, items).pos;
    AgreesFirst(x, a, end, y, c);
    if x[a] != CHAR_E {
      var item := ParseAt(x, a);
      AgreesPart(x, a, end, y, c, a, item.pos);
      ParseLocal(x, a, y, c);
      AgreesPart(x, a, end, y, c, item.pos, end);
      ItemsLocal(x, item.pos, y, c + (item.pos - a), items + [item.value]);
    }
  }

  lemma {:induction false} EntriesLocal(x: seq<byte>, a: nat, y: seq<byte>, c: nat, entries: map<seq<byte>, Value>)
    requires a <= |x| && ParseEntries(x, a, entries).Got?
    requires Agrees(x, a, ParseEntries(x, a, entries).pos, y, c)
    ensures c <= |y|
    ensures ParseEntries(y, c, entries) ==
            Got(ParseEntries(x, a, entries).value, c + (ParseEntries(x, a, entries).pos - a))
    decreases |x| - a, 2
  {
    hide ParseAt, Agrees;
    var end := ParseEntries(x, a, entries).pos;
    AgreesFirst(x, a, end, y, c);
    if x[a] != CHAR_E {
      var key := ParseAt(x, a);
      AgreesPart(x, a, end, y, c, a, key.pos);
      ParseLocal(x, a, y, c);
      var value := ParseAt(x, key.pos);
      var d := c + (key.pos - a);
      AgreesPart(x, a, end, y, c, key.pos, value.pos);
      ParseLocal(x, key.pos, y, d);
      AgreesPart(x, a, end, y, c, value.pos, end);
      EntriesLocal(x, value.pos, y, d + (value.pos - key.pos), entries[key.value.s := value.value]);
    }
  }
}
