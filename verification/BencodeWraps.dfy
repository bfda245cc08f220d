/** Where the decoder as it is written parts from the decoder as it is meant: strings whose length
    makes a 64-bit sum wrap. */
module BencodeWraps {
  import opened Bencode
  import opened BencodeLaws
  import opened BencodeTurns
  import opened Bytes
  import opened Wrappers

  // ---- one string ----

  /** A string is read as it is meant exactly when its sum does not wrap. One that wraps is never
      refused: it gets the rest of the data, and the cursor goes back. */
  lemma StringAgreesExactly(data: seq<byte>, pos: nat)
    requires |data| < TWO_64 && pos < |data| && IsDigit(data[pos])
    ensures RunString(data, pos) == ParseString(data, pos) <==> !Wraps(data, pos)
    ensures Wraps(data, pos) ==>
              var start, len := StringHead(data, pos).pos, StringHead(data, pos).value;
              RunString(data, pos) == Got(Str(data[start..]), start + len - TWO_64) && start + len - TWO_64 < start
  {
    hide StringHead;
    if StringHead(data, pos).Got? {
      BoundCheckExactly(StringHead(data, pos).pos, StringHead(data, pos).value, |data|);
    }
  }

  lemma HeadExtended(data: seq<byte>, more: seq<byte>, pos: nat)
    requires pos < |data| && IsDigit(data[pos]) && StringHead(data, pos).Got?
    ensures StringHead(data + more, pos) == StringHead(data, pos)
  {
    hide StringHead;
    HeadLocal(data, pos, |data|, data + more, pos);
  }

  /** The value of a string that is read does not depend on what follows the data exactly when its
      sum does not wrap. */
  lemma StringLocalExactly(data: seq<byte>, pos: nat)
    requires |data| + 1 < TWO_64 && pos < |data| && IsDigit(data[pos]) && RunString(data, pos).Got?
    ensures (forall more: seq<byte> :: |data + more| < TWO_64 ==> RunString(data + more, pos) == RunString(data, pos))
            <==> !Wraps(data, pos)
  {
    hide StringHead;
    StringAgreesExactly(data, pos);
    var start, len := StringHead(data, pos).pos, StringHead(data, pos).value;
    if Wraps(data, pos) {
      var longer := data + [0];
      HeadExtended(data, [0], pos);
      StringAgreesExactly(longer, pos);
      assert |longer[start..]| == |data[start..]| + 1;
      assert RunString(data + [0], pos) != RunString(data, pos);
    } else {
      forall more: seq<byte> | |data + more| < TWO_64
        ensures RunString(data + more, pos) == RunString(data, pos)
      {
        HeadExtended(data, more, pos);
        assert (data + more)[start..start + len] == data[start..start + len];
      }
    }
  }

  // ---- strings met on the way ----

  /** A decode meets a string whose sum wraps. */
  predicate MeetsWrap(data: seq<byte>, pos: nat)
    decreases |data| - pos, 1
  {
    pos < |data|
    && if IsDigit(data[pos]) then Wraps(data, pos)
       else if data[pos] == CHAR_L then ItemsMeetWrap(data, pos + 1)
       else data[pos] == CHAR_D && EntriesMeetWrap(data, pos + 1)
  }

  predicate ItemsMeetWrap(data: seq<byte>, pos: nat)
    requires pos <= |data|
    decreases |data| - pos, 2
  {
    && pos < |data| && data[pos] != CHAR_E
    && (MeetsWrap(data, pos)
        || (ParseAt(data, pos).Got? && ItemsMeetWrap(data, ParseAt(data, pos).pos)))
  }

  predicate EntriesMeetWrap(data: seq<byte>, pos: nat)
    requires pos <= |data|
    decreases |data| - pos, 2
  {
    && pos < |data| && data[pos] != CHAR_E
    && (MeetsWrap(data, pos)
        || (var key := ParseAt(data, pos);
            key.Got? && key.value.Str?
            && (MeetsWrap(data, key.pos)
                || (ParseAt(data, key.pos).Got? && EntriesMeetWrap(data, ParseAt(data, key.pos).pos)))))
  }

  /** A guard on the data alone: no string in it has a length that makes the sum wrap. */
  ghost predicate NoWraps(data: seq<byte>) {
    forall pos: nat :: !Wraps(data, pos)
  }

  lemma {:induction false} NoneMet(data: seq<byte>, pos: nat)
    requires NoWraps(data)
    ensures !MeetsWrap(data, pos)
    decreases |data| - pos, 1
  {
    hide Wraps, ParseAt;
    if pos < |data| && !IsDigit(data[pos]) {
      if data[pos] == CHAR_L {
        NoneMetInItems(data, pos + 1);
      } else if data[pos] == CHAR_D {
        NoneMetInEntries(data, pos + 1);
      }
    }
  }

  lemma {:induction false} NoneMetInItems(data: seq<byte>, pos: nat)
    requires NoWraps(data) && pos <= |data|
    ensures !ItemsMeetWrap(data, pos)
    decreases |data| - pos, 2
  {
    hide Wraps, ParseAt, NoWraps, MeetsWrap;
    if pos < |data| {
      NoneMet(data, pos);
      if ParseAt(data, pos).Got? {
        NoneMetInItems(data, ParseAt(data, pos).pos);
      }
    }
  }

  lemma {:induction false} NoneMetInEntries(data: seq<byte>, pos: nat)
    requires NoWraps(data) && pos <= |data|
    ensures !EntriesMeetWrap(data, pos)
    decreases |data| - pos, 2
  {
    hide Wraps, ParseAt, NoWraps, MeetsWrap;
    if pos < |data| {
      NoneMet(data, pos);
      var key := ParseAt(data, pos);
      if key.Got? {
        NoneMet(data, key.pos);
        if ParseAt(data, key.pos).Got? {
          NoneMetInEntries(data, ParseAt(data, key.pos).pos);
        }
      }
    }
  }

  /** As it is meant, a decode that meets such a string refuses it, and with it the whole. */
  lemma {:induction false} MetIsRefused(data: seq<byte>, pos: nat)
    requires |data| < TWO_64 && MeetsWrap(data, pos)
    ensures ParseAt(data, pos) == Fail(StringOutOfBounds)
    decreases |data| - pos, 1
  {
    hide StringHead, ItemsMeetWrap, EntriesMeetWrap, ParseItems, ParseEntries;
    if !IsDigit(data[pos]) {
      if data[pos] == CHAR_L {
        MetInItemsIsRefused(data, pos + 1, []);
      } else {
        MetInEntriesIsRefused(data, pos + 1, map[]);
      }
    }
  }

  lemma {:induction false} MetInItemsIsRefused(data: seq<byte>, pos: nat, items: seq<Value>)
    requires |data| < TWO_64 && pos <= |data| && ItemsMeetWrap(data, pos)
    ensures ParseItems(data, pos, items) == Fail(StringOutOfBounds)
    decreases |data| - pos, 2
  {
    hide MeetsWrap, ParseAt;
    if MeetsWrap(data, pos) {
      MetIsRefused(data, pos);
    } else {
      var item := ParseAt(data, pos);
      MetInItemsIsRefused(data, item.pos, items + [item.value]);
    }
  }

  lemma {:induction false} MetInEntriesIsRefused(data: seq<byte>, pos: nat, entries: map<seq<byte>, Value>)
    requires |data| < TWO_64 && pos <= |data| && EntriesMeetWrap(data, pos)
    ensures ParseEntries(data, pos, entries) == Fail(StringOutOfBounds)
    decreases |data| - pos, 2
  {
    hide MeetsWrap, ParseAt;
    if MeetsWrap(data, pos) {
      MetIsRefused(data, pos);
    } else {
      var key := ParseAt(data, pos);
      if MeetsWrap(data, key.pos) {
        MetIsRefused(data, key.pos);
      } else {
        var value := ParseAt(data, key.pos);
        MetInEntriesIsRefused(data, value.pos, entries[key.value.s := value.value]);
      }
    }
  }

  // ---- agreement ----

  lemma {:induction false} RunsAsMeant(data: seq<byte>, pos: nat, n: nat)
    requires |data| < TWO_64 && !MeetsWrap(data, pos) && n + pos + 1 >= |data|
    ensures RunAt(data, pos, n) == Some(ParseAt(data, pos))
    decreases |data| - pos, 1
  {
    hide StringHead, RunString, ParseString, ParseInteger, ParseItems, ParseEntries, RunItems, RunEntries, Wraps;
    if pos < |data| {
      if data[pos] == CHAR_I {
      } else if IsDigit(data[pos]) {
        StringAgreesExactly(data, pos);
      } else if data[pos] == CHAR_L {
        ItemsRunAsMeant(data, pos + 1, [], n);
      } else if data[pos] == CHAR_D {
        EntriesRunAsMeant(data, pos + 1, map[], n);
      }
    }
  }

  lemma {:induction false} ItemsRunAsMeant(data: seq<byte>, pos: nat, items: seq<Value>, n: nat)
    requires |data| < TWO_64 && pos <= |data| && !ItemsMeetWrap(data, pos) && n + pos >= |data|
    ensures RunItems(data, pos, items, n) == Some(ParseItems(data, pos, items))
    decreases |data| - pos, 2
  {
    hide RunAt, ParseAt, MeetsWrap;
    if pos < |data| && data[pos] != CHAR_E {
      RunsAsMeant(data, pos, n - 1);
      var item := ParseAt(data, pos);
      if item.Got? {
        ItemsRunAsMeant(data, item.pos, items + [item.value], n - 1);
      }
    }
  }

  lemma {:induction false} EntriesRunAsMeant(data: seq<byte>, pos: nat, entries: map<seq<byte>, Value>, n: nat)
    requires |data| < TWO_64 && pos <= |data| && !EntriesMeetWrap(data, pos) && n + pos >= |data|
    ensures RunEntries(data, pos, entries, n) == Some(ParseEntries(data, pos, entries))
    decreases |data| - pos, 2
  {
    hide RunAt, ParseAt, MeetsWrap;
    if pos < |data| && data[pos] != CHAR_E {
      RunsAsMeant(data, pos, n - 1);
      var key := ParseAt(data, pos);
      if key.Got? && key.value.Str? {
        RunsAsMeant(data, key.pos, n - 1);
        var value := ParseAt(data, key.pos);
        if value.Got? {
          EntriesRunAsMeant(data, value.pos, entries[key.value.s := value.value], n - 1);
        }
      }
    }
  }

  /** Where no string whose sum wraps is met, the source decodes as it is meant to, and so it ends. Where
      one is met, the whole should be refused; so what the source accepts is as it is meant exactly when
      none is met. */
  lemma DecodesAsMeantExactly(data: seq<byte>, pos: nat)
    requires |data| < TWO_64
    ensures !MeetsWrap(data, pos) ==> Decode(data, pos) == Some(ParseAt(data, pos))
    ensures MeetsWrap(data, pos) ==> ParseAt(data, pos) == Fail(StringOutOfBounds)
    ensures Decode(data, pos).Some? && Decode(data, pos).value.Got? ==>
              (Decode(data, pos) == Some(ParseAt(data, pos)) <==> !MeetsWrap(data, pos))
  {
    hide RunAt, ParseAt, MeetsWrap;
    if MeetsWrap(data, pos) {
      MetIsRefused(data, pos);
    } else {
      RunsAsMeant(data, pos, EnoughTurns(data));
    }
  }

  /** What is accepted as it is meant is accepted as it is written, with the same value and cursor. */
  lemma AcceptedAsMeant(data: seq<byte>, pos: nat)
    requires |data| < TWO_64 && ParseAt(data, pos).Got?
    ensures !MeetsWrap(data, pos) && Decode(data, pos) == Some(ParseAt(data, pos))
  {
    hide RunAt, ParseAt, MeetsWrap;
    if MeetsWrap(data, pos) {
      MetIsRefused(data, pos);
    }
    DecodesAsMeantExactly(data, pos);
  }

  /** On data without such a string every decode ends, and as it is meant to. */
  lemma DecodesWithoutWraps(data: seq<byte>, pos: nat)
    requires |data| < TWO_64 && NoWraps(data)
    ensures Decode(data, pos) == Some(ParseAt(data, pos))
  {
    hide RunAt, ParseAt, MeetsWrap;
    NoneMet(data, pos);
    DecodesAsMeantExactly(data, pos);
  }

  // ---- locality ----

  /** Locality: a decode that meets no string whose sum wraps looks at nothing but the bytes it
      consumes. The same bytes anywhere in any other data decode to the same value and move the
      cursor as far. */
  lemma DecodeLocal(x: seq<byte>, a: nat, y: seq<byte>, c: nat, v: Value, p: nat)
    requires |x| < TWO_64 && |y| < TWO_64
    requires !MeetsWrap(x, a) && Decode(x, a) == Some(Got(v, p))
    requires Agrees(x, a, p, y, c)
    ensures a < p && Decode(y, c) == Some(Got(v, c + (p - a))) && !MeetsWrap(y, c)
  {
    hide RunAt, ParseAt, MeetsWrap, Agrees;
    DecodesAsMeantExactly(x, a);
    ParseLocal(x, a, y, c);
    AcceptedAsMeant(y, c);
  }

  // ---- where a decode stops ----

  /** Bytes added after the data change neither whether a decode succeeds nor where it stops, also
      where sums wrap; they may change the value. */
  lemma {:induction false} RunExtended(x: seq<byte>, more: seq<byte>, pos: nat, n: nat)
    requires RunAt(x, pos, n).Some? && RunAt(x, pos, n).value.Got?
    ensures RunAt(x + more, pos, n).Some? && RunAt(x + more, pos, n).value.Got?
    ensures RunAt(x + more, pos, n).value.pos == RunAt(x, pos, n).value.pos
    ensures RunAt(x + more, pos, n).value.value.Str? <==> RunAt(x, pos, n).value.value.Str?
    decreases n, 1
  {
    hide ParseInteger, StringHead, RunItems, RunEntries;
    assert (x + more)[pos] == x[pos];
    if x[pos] == CHAR_I {
      IntegerExtended(x, more, pos);
    } else if IsDigit(x[pos]) {
      HeadExtended(x, more, pos);
    } else if x[pos] == CHAR_L {
      ItemsExtended(x, more, pos + 1, [], [], n);
    } else {
      EntriesExtended(x, more, pos + 1, map[], map[], n);
    }
  }

  lemma IntegerExtended(x: seq<byte>, more: seq<byte>, pos: nat)
    requires pos < |x| && x[pos] == CHAR_I && ParseInteger(x, pos).Got?
    ensures ParseInteger(x + more, pos) == ParseInteger(x, pos) && ParseInteger(x, pos).value.Integer?
  {
    IntegerLocal(x, pos, x + more, pos);
  }

  lemma {:induction false} ItemsExtended(x: seq<byte>, more: seq<byte>, pos: nat, a: seq<Value>, b: seq<Value>, n: nat)
    requires pos <= |x| && RunItems(x, pos, a, n).Some? && RunItems(x, pos, a, n).value.Got?
    ensures RunItems(x + more, pos, b, n).Some? && RunItems(x + more, pos, b, n).value.Got?
    ensures RunItems(x + more, pos, b, n).value.pos == RunItems(x, pos, a, n).value.pos
    decreases n, 0
  {
    hide RunAt;
    assert (x + more)[pos] == x[pos];
    if x[pos] != CHAR_E {
      RunExtended(x, more, pos, n - 1);
      var item, other := RunAt(x, pos, n - 1).value, RunAt(x + more, pos, n - 1).value;
      ItemsExtended(x, more, item.pos, a + [item.value], b + [other.value], n - 1);
    }
  }

  lemma {:induction false} EntriesExtended(x: seq<byte>, more: seq<byte>, pos: nat, a: map<seq<byte>, Value>,
                                           b: map<seq<byte>, Value>, n: nat)
    requires pos <= |x| && RunEntries(x, pos, a, n).Some? && RunEntries(x, pos, a, n).value.Got?
    ensures RunEntries(x + more, pos, b, n).Some? && RunEntries(x + more, pos, b, n).value.Got?
    ensures RunEntries(x + more, pos, b, n).value.pos == RunEntries(x, pos, a, n).value.pos
    decreases n, 0
  {
    hide RunAt;
    assert (x + more)[pos] == x[pos];
    if x[pos] != CHAR_E {
      RunExtended(x, more, pos, n - 1);
      var key, otherKey := RunAt(x, pos, n - 1).value, RunAt(x + more, pos, n - 1).value;
      RunExtended(x, more, key.pos, n - 1);
      var value, other := RunAt(x, key.pos, n - 1).value, RunAt(x + more, key.pos, n - 1).value;
      EntriesExtended(x, more, value.pos, a[key.value.s := value.value], b[otherKey.value.s := other.value], n - 1);
    }
  }

  /** The text is one complete encoding: the source accepts it and stops at its end. */
  predicate Encoding(text: seq<byte>) {
    Decode(text, 0).Some? && Decode(text, 0).value.Got? && Decode(text, 0).value.pos == |text|
  }

  /** No text the source accepts is a proper prefix of another, whatever sums wrap on the way. */
  lemma PrefixFree(short: seq<byte>, more: seq<byte>)
    requires Encoding(short) && Encoding(short + more)
    ensures more == []
  {
    hide RunAt;
    RunExtended(short, more, 0, EnoughTurns(short));
    MoreTurns(short + more, 0, EnoughTurns(short), EnoughTurns(short + more));
  }
}
