/** When the value of an accepted text depends on bytes behind the text: exactly when a string whose sum
    wraps is left in it. */
module BencodeLocality {
  import opened Bencode
  import opened BencodeLaws
  import opened BencodeTurns
  import opened BencodeWraps
  import opened Bytes
  import opened Wrappers

  // ---- values that remember which strings were cut off at the end of the data ----

  /** A string's bytes, or all bytes of the data from `start` on. */
  datatype Text = Exact(s: seq<byte>) | Rest(start: nat)

  datatype Sketch =
    | Number(i: int)
    | Words(t: Text)
    | Items(items: seq<Sketch>)
    | Entries(entries: map<Text, Sketch>)

  ghost predicate Accepts<T>(r: Option<Parsed<T>>) {
    r.Some? && r.value.Got?
  }

  function TextAt(data: seq<byte>, pos: nat): Text
    requires pos < |data| && IsDigit(data[pos]) && RunString(data, pos).Got?
  {
    if Wraps(data, pos) then Rest(StringHead(data, pos).pos) else Exact(RunString(data, pos).value.s)
  }

  /** What an accepting decode builds, with cut-off strings marked. */
  ghost function SketchAt(data: seq<byte>, pos: nat, n: nat): Sketch
    requires Accepts(RunAt(data, pos, n))
    decreases n, 1
  {
    if data[pos] == CHAR_I then Number(RunAt(data, pos, n).value.value.i)
    else if IsDigit(data[pos]) then Words(TextAt(data, pos))
    else if data[pos] == CHAR_L then Items(SketchItems(data, pos + 1, [], [], n))
    else Entries(SketchEntries(data, pos + 1, map[], n))
  }

  ghost function SketchItems(data: seq<byte>, pos: nat, items: seq<Value>, sketch: seq<Sketch>, n: nat): seq<Sketch>
    requires pos <= |data| && Accepts(RunItems(data, pos, items, n))
    decreases n, 0
  {
    if data[pos] == CHAR_E then sketch
    else
      var item := RunAt(data, pos, n - 1).value;
      SketchItems(data, item.pos, items + [item.value], sketch + [SketchAt(data, pos, n - 1)], n - 1)
  }

  ghost function SketchEntries(data: seq<byte>, pos: nat, sketch: map<Text, Sketch>, n: nat): map<Text, Sketch>
    requires EntriesAccepted(data, pos, n)
    decreases n, 0
  {
    hide RunAt, RunString, EntriesAccepted;
    EntryParts(data, pos, n);
    if data[pos] == CHAR_E then sketch
    else
      var start := RunString(data, pos).pos;
      SketchEntries(data, RunAt(data, start, n - 1).value.pos,
                    sketch[TextAt(data, pos) := SketchAt(data, start, n - 1)], n - 1)
  }

  ghost predicate EntriesAccepted(data: seq<byte>, pos: nat, n: nat) {
    pos <= |data| && Accepts(RunEntries(data, pos, map[], n))
  }

  /** An accepting dictionary loop ends here, or takes a key and a value and goes on. */
  lemma EntryParts(data: seq<byte>, pos: nat, n: nat)
    requires EntriesAccepted(data, pos, n)
    ensures pos < |data|
    ensures data[pos] != CHAR_E ==>
              && n > 0 && IsDigit(data[pos]) && RunString(data, pos).Got? && RunString(data, pos).value.Str?
              && RunAt(data, pos, n - 1) == Some(RunString(data, pos))
              && var start := RunString(data, pos).pos;
                 && Accepts(RunAt(data, start, n - 1))
                 && EntriesAccepted(data, RunAt(data, start, n - 1).value.pos, n - 1)
  {
    hide RunAt, RunString;
    if data[pos] != CHAR_E {
      KeyIsString(data, pos, n - 1);
      var key := RunString(data, pos);
      var value := RunAt(data, key.pos, n - 1).value;
      EntriesSameEnd(data, value.pos, map[][key.value.s := value.value], map[], n - 1);
    }
  }

  lemma KeyIsString(data: seq<byte>, pos: nat, n: nat)
    requires Accepts(RunAt(data, pos, n)) && RunAt(data, pos, n).value.value.Str?
    ensures pos < |data| && IsDigit(data[pos]) && RunAt(data, pos, n) == Some(RunString(data, pos))
  {
    hide RunString, IntegerOf, RunItems, RunEntries;
    IntegersAreNoStrings(data, pos);
  }

  lemma IntegersAreNoStrings(data: seq<byte>, pos: nat)
    ensures pos < |data| && data[pos] == CHAR_I && ParseInteger(data, pos).Got? ==>
              ParseInteger(data, pos).value.Integer?
  {
  }

  /** No string cut off at the end of the data is left. */
  ghost predicate RestFree(s: Sketch) {
    match s
    case Number(_) => true
    case Words(t) => t.Exact?
    case Items(items) => forall x :: x in items ==> RestFree(x)
    case Entries(entries) => AllExact(entries) && forall t :: t in entries ==> RestFree(entries[t])
  }

  ghost predicate AllExact(entries: map<Text, Sketch>) {
    forall t :: t in entries ==> t.Exact?
  }

  // ---- texts ----

  function TextIn(t: Text, data: seq<byte>): seq<byte> {
    match t
    case Exact(s) => s
    case Rest(start) => if start <= |data| then data[start..] else []
  }

  /** A text of at most `n` bytes, or from within the first `n`. */
  predicate Within(t: Text, n: nat) {
    match t
    case Exact(s) => |s| <= n
    case Rest(start) => start <= n
  }

  /** What a string reads as when bytes are added behind the data. */
  lemma TextExtended(data: seq<byte>, more: seq<byte>, pos: nat)
    requires |data + more| < TWO_64 && pos < |data| && IsDigit(data[pos]) && RunString(data, pos).Got?
    ensures (data + more)[pos] == data[pos] && Within(TextAt(data, pos), |data|)
    ensures RunString(data + more, pos) == Got(Str(TextIn(TextAt(data, pos), data + more)), RunString(data, pos).pos)
  {
    hide StringHead;
    HeadExtended(data, more, pos);
    StringAgreesExactly(data, pos);
    StringAgreesExactly(data + more, pos);
    var start, len := StringHead(data, pos).pos, StringHead(data, pos).value;
    if !Wraps(data, pos) {
      assert (data + more)[start..start + len] == data[start..start + len];
    }
  }

  /** With enough bytes added behind the data, different texts read differently. */
  lemma TextsDistinct(data: seq<byte>, more: seq<byte>, t: Text, u: Text)
    requires |more| > |data| && Within(t, |data|) && Within(u, |data|) && t != u
    ensures TextIn(t, data + more) != TextIn(u, data + more)
  {
    var whole := data + more;
    assert t.Rest? ==> |TextIn(t, whole)| == |whole| - t.start > |data|;
    assert u.Rest? ==> |TextIn(u, whole)| == |whole| - u.start > |data|;
  }

  // ---- without cut-off strings the value is what the sketch says ----

  /** The sketch is of this value. */
  ghost predicate Matches(s: Sketch, v: Value) {
    match s
    case Number(i) => v == Integer(i)
    case Words(t) => t.Exact? && v == Str(t.s)
    case Items(items) =>
      v.List? && |v.items| == |items| && forall i :: 0 <= i < |items| ==> Matches(items[i], v.items[i])
    case Entries(entries) =>
      v.Dict? && SameKeys(entries, v.entries)
      && forall t :: t in entries ==> t.Exact? && t.s in v.entries && Matches(entries[t], v.entries[t.s])
  }

  ghost predicate SameKeys(a: map<Text, Sketch>, b: map<seq<byte>, Value>) {
    forall k :: k in b <==> Exact(k) in a
  }

  lemma {:induction false} MatchesOne(s: Sketch, v: Value, w: Value)
    requires Matches(s, v) && Matches(s, w)
    ensures v == w
  {
    match s
    case Number(_) =>
    case Words(_) =>
    case Items(items) =>
      forall i | 0 <= i < |items|
        ensures v.items[i] == w.items[i]
      {
        MatchesOne(items[i], v.items[i], w.items[i]);
      }
    case Entries(entries) =>
      forall k | k in v.entries
        ensures k in w.entries && v.entries[k] == w.entries[k]
      {
        assert Exact(k) in entries;
        MatchesOne(entries[Exact(k)], v.entries[k], w.entries[k]);
      }
      assert forall k :: k in w.entries ==> k in v.entries;
      assert v.entries == w.entries;
  }

  /** Whatever of a list is free of cut-off strings is what the sketch says. */
  ghost predicate ItemsMatch(sketch: seq<Sketch>, items: seq<Value>) {
    |sketch| == |items| && forall i :: 0 <= i < |sketch| && RestFree(sketch[i]) ==> Matches(sketch[i], items[i])
  }

  ghost predicate EntriesMatch(sketch: map<Text, Sketch>, entries: map<seq<byte>, Value>) {
    AllExact(sketch) ==>
      && SameKeys(sketch, entries)
      && forall t :: t in sketch && RestFree(sketch[t]) ==> t.s in entries && Matches(sketch[t], entries[t.s])
  }

  lemma {:induction false} SketchMatches(data: seq<byte>, more: seq<byte>, pos: nat, n: nat)
    requires |data + more| < TWO_64 && Accepts(RunAt(data, pos, n))
    ensures Accepts(RunAt(data + more, pos, n))
    ensures RestFree(SketchAt(data, pos, n)) ==>
              Matches(SketchAt(data, pos, n), RunAt(data + more, pos, n).value.value)
    decreases n, 1
  {
    hide RunString, ParseInteger, RunItems, RunEntries, SketchItems, SketchEntries, TextAt;
    RunExtended(data, more, pos, n);
    assert (data + more)[pos] == data[pos];
    if data[pos] == CHAR_I {
      IntegerExtended(data, more, pos);
    } else if IsDigit(data[pos]) {
      TextExtended(data, more, pos);
    } else if data[pos] == CHAR_L {
      ItemsExtended(data, more, pos + 1, [], [], n);
      SketchItemsMatch(data, more, pos + 1, [], [], [], n);
    } else {
      EntriesExtended(data, more, pos + 1, map[], map[], n);
      SketchEntriesMatch(data, more, pos + 1, map[], map[], n);
    }
  }

  lemma {:induction false} SketchItemsMatch(data: seq<byte>, more: seq<byte>, pos: nat, items: seq<Value>,
                                            other: seq<Value>, sketch: seq<Sketch>, n: nat)
    requires |data + more| < TWO_64 && pos <= |data| && Accepts(RunItems(data, pos, items, n))
    requires Accepts(RunItems(data + more, pos, other, n)) && ItemsMatch(sketch, other)
    ensures ItemsMatch(SketchItems(data, pos, items, sketch, n), RunItems(data + more, pos, other, n).value.value)
    decreases n, 0
  {
    hide RunAt, SketchAt, RestFree, Matches;
    assert (data + more)[pos] == data[pos];
    if data[pos] != CHAR_E {
      RunExtended(data, more, pos, n - 1);
      SketchMatches(data, more, pos, n - 1);
      var item, otherItem := RunAt(data, pos, n - 1).value, RunAt(data + more, pos, n - 1).value;
      SketchItemsMatch(data, more, item.pos, items + [item.value], other + [otherItem.value],
                       sketch + [SketchAt(data, pos, n - 1)], n - 1);
    }
  }

  lemma {:induction false} SketchEntriesMatch(data: seq<byte>, more: seq<byte>, pos: nat,
                                              other: map<seq<byte>, Value>, sketch: map<Text, Sketch>, n: nat)
    requires |data + more| < TWO_64 && EntriesAccepted(data, pos, n)
    requires Accepts(RunEntries(data + more, pos, other, n)) && EntriesMatch(sketch, other)
    ensures EntriesMatch(SketchEntries(data, pos, sketch, n), RunEntries(data + more, pos, other, n).value.value)
    decreases n, 0
  {
    hide RunAt, SketchAt, RestFree, Matches, EntriesMatch, TextAt, RunString, EntriesAccepted;
    EntryParts(data, pos, n);
    assert (data + more)[pos] == data[pos];
    if data[pos] != CHAR_E {
      var start := RunString(data, pos).pos;
      RunExtended(data, more, pos, n - 1);
      RunExtended(data, more, start, n - 1);
      SketchMatches(data, more, start, n - 1);
      KeyIsString(data + more, pos, n - 1);
      TextExtended(data, more, pos);
      var otherKey, otherValue := RunAt(data + more, pos, n - 1).value, RunAt(data + more, start, n - 1).value;
      var t, w := TextAt(data, pos), SketchAt(data, start, n - 1);
      EntriesMatchOne(sketch, other, t, w, otherKey.value.s, otherValue.value);
      SketchEntriesMatch(data, more, RunAt(data, start, n - 1).value.pos, other[otherKey.value.s := otherValue.value],
                         sketch[t := w], n - 1);
    }
  }

  lemma EntriesMatchOne(sketch: map<Text, Sketch>, entries: map<seq<byte>, Value>, t: Text, w: Sketch, k: seq<byte>,
                        v: Value)
    requires EntriesMatch(sketch, entries) && (t.Exact? ==> k == t.s) && (RestFree(w) ==> Matches(w, v))
    ensures EntriesMatch(sketch[t := w], entries[k := v])
  {
    hide RestFree, Matches;
    var a, b := sketch[t := w], entries[k := v];
    if AllExact(a) {
      assert t in a;
      assert AllExact(sketch) by {
        forall u | u in sketch ensures u.Exact? { assert u in a; }
      }
    }
  }

  // ---- a cut-off string that is left shows when enough bytes are added ----

  /** The value holds a string of more than `n` bytes. */
  ghost predicate Long(v: Value, n: nat) {
    match v
    case Integer(_) => false
    case Str(s) => |s| > n
    case List(items) => exists x :: x in items && Long(x, n)
    case Dict(entries) => exists k :: k in entries && (|k| > n || Long(entries[k], n))
  }

  ghost predicate ItemsShow(sketch: seq<Sketch>, items: seq<Value>, n: nat) {
    |sketch| == |items| && forall i :: 0 <= i < |sketch| && !RestFree(sketch[i]) ==> Long(items[i], n)
  }

  ghost predicate EntriesShow(sketch: map<Text, Sketch>, entries: map<seq<byte>, Value>, whole: seq<byte>, n: nat) {
    forall t :: t in sketch ==>
      && Within(t, n) && TextIn(t, whole) in entries
      && (!RestFree(sketch[t]) ==> Long(entries[TextIn(t, whole)], n))
  }

  lemma {:induction false} SketchShows(data: seq<byte>, more: seq<byte>, pos: nat, n: nat)
    requires |more| > |data| && |data + more| < TWO_64 && Accepts(RunAt(data, pos, n))
    ensures Accepts(RunAt(data + more, pos, n))
    ensures !RestFree(SketchAt(data, pos, n)) ==> Long(RunAt(data + more, pos, n).value.value, |data|)
    decreases n, 1
  {
    hide RunString, ParseInteger, RunItems, RunEntries, SketchItems, SketchEntries, TextAt, ItemsShow, EntriesShow;
    RunExtended(data, more, pos, n);
    assert (data + more)[pos] == data[pos];
    if data[pos] == CHAR_I {
    } else if IsDigit(data[pos]) {
      TextExtended(data, more, pos);
      RestIsLong(data, more, TextAt(data, pos));
    } else if data[pos] == CHAR_L {
      ItemsExtended(data, more, pos + 1, [], [], n);
      NothingShown(data + more, |data|);
      SketchItemsShow(data, more, pos + 1, [], [], [], n);
      ListShows(SketchItems(data, pos + 1, [], [], n), RunItems(data + more, pos + 1, [], n).value.value, |data|);
    } else {
      EntriesExtended(data, more, pos + 1, map[], map[], n);
      NothingShown(data + more, |data|);
      SketchEntriesShow(data, more, pos + 1, map[], map[], n);
      DictShows(data, more, SketchEntries(data, pos + 1, map[], n),
                RunEntries(data + more, pos + 1, map[], n).value.value);
    }
  }

  lemma RestIsLong(data: seq<byte>, more: seq<byte>, t: Text)
    requires |more| > |data| && Within(t, |data|)
    ensures t.Rest? ==> |TextIn(t, data + more)| > |data|
  {
  }

  lemma NothingShown(whole: seq<byte>, n: nat)
    ensures ItemsShow([], [], n) && EntriesShow(map[], map[], whole, n)
  {
  }

  lemma ListShows(sketch: seq<Sketch>, items: seq<Value>, n: nat)
    requires ItemsShow(sketch, items, n)
    ensures !RestFree(Items(sketch)) ==> Long(List(items), n)
  {
    if x :| x in sketch && !RestFree(x) {
      var i :| 0 <= i < |sketch| && sketch[i] == x;
      assert items[i] in items && Long(items[i], n);
    }
  }

  lemma DictShows(data: seq<byte>, more: seq<byte>, sketch: map<Text, Sketch>, entries: map<seq<byte>, Value>)
    requires |more| > |data| && EntriesShow(sketch, entries, data + more, |data|)
    ensures !RestFree(Entries(sketch)) ==> Long(Dict(entries), |data|)
  {
    if t :| t in sketch && (!t.Exact? || !RestFree(sketch[t])) {
      var k := TextIn(t, data + more);
      RestIsLong(data, more, t);
      assert k in entries && (|k| > |data| || Long(entries[k], |data|));
    }
  }

  lemma {:induction false} SketchItemsShow(data: seq<byte>, more: seq<byte>, pos: nat, items: seq<Value>,
                                           other: seq<Value>, sketch: seq<Sketch>, n: nat)
    requires |more| > |data| && |data + more| < TWO_64 && pos <= |data| && Accepts(RunItems(data, pos, items, n))
    requires Accepts(RunItems(data + more, pos, other, n)) && ItemsShow(sketch, other, |data|)
    ensures ItemsShow(SketchItems(data, pos, items, sketch, n),
                      RunItems(data + more, pos, other, n).value.value, |data|)
    decreases n, 0
  {
    hide RunAt, SketchAt, RestFree, Long;
    assert (data + more)[pos] == data[pos];
    if data[pos] != CHAR_E {
      RunExtended(data, more, pos, n - 1);
      SketchShows(data, more, pos, n - 1);
      var item, otherItem := RunAt(data, pos, n - 1).value, RunAt(data + more, pos, n - 1).value;
      SketchItemsShow(data, more, item.pos, items + [item.value], other + [otherItem.value],
                      sketch + [SketchAt(data, pos, n - 1)], n - 1);
    }
  }

  lemma {:induction false} SketchEntriesShow(data: seq<byte>, more: seq<byte>, pos: nat,
                                             other: map<seq<byte>, Value>, sketch: map<Text, Sketch>, n: nat)
    requires |more| > |data| && |data + more| < TWO_64 && EntriesAccepted(data, pos, n)
    requires Accepts(RunEntries(data + more, pos, other, n)) && EntriesShow(sketch, other, data + more, |data|)
    ensures EntriesShow(SketchEntries(data, pos, sketch, n), RunEntries(data + more, pos, other, n).value.value,
                        data + more, |data|)
    decreases n, 0
  {
    hide RunAt, SketchAt, RestFree, Long, EntriesShow, TextAt, RunString, EntriesAccepted;
    EntryParts(data, pos, n);
    assert (data + more)[pos] == data[pos];
    if data[pos] != CHAR_E {
      var start := RunString(data, pos).pos;
      RunExtended(data, more, pos, n - 1);
      RunExtended(data, more, start, n - 1);
      SketchShows(data, more, start, n - 1);
      KeyIsString(data + more, pos, n - 1);
      TextExtended(data, more, pos);
      var otherKey, otherValue := RunAt(data + more, pos, n - 1).value, RunAt(data + more, start, n - 1).value;
      var t, w := TextAt(data, pos), SketchAt(data, start, n - 1);
      EntriesShowOne(data, more, sketch, other, t, w, otherValue.value);
      SketchEntriesShow(data, more, RunAt(data, start, n - 1).value.pos,
                        other[otherKey.value.s := otherValue.value], sketch[t := w], n - 1);
    }
  }

  lemma EntriesShowOne(data: seq<byte>, more: seq<byte>, sketch: map<Text, Sketch>, entries: map<seq<byte>, Value>,
                       t: Text, w: Sketch, v: Value)
    requires |more| > |data| && EntriesShow(sketch, entries, data + more, |data|) && Within(t, |data|)
    requires !RestFree(w) ==> Long(v, |data|)
    ensures EntriesShow(sketch[t := w], entries[TextIn(t, data + more) := v], data + more, |data|)
  {
    hide RestFree, Long, TextIn, Within;
    forall u | u in sketch && u != t
      ensures TextIn(u, data + more) != TextIn(t, data + more)
    {
      TextsDistinct(data, more, u, t);
    }
  }

  // ---- no string is longer than the data ----

  lemma {:induction false} NeverLong(data: seq<byte>, pos: nat, n: nat)
    requires Accepts(RunAt(data, pos, n))
    ensures !Long(RunAt(data, pos, n).value.value, |data|)
    decreases n, 1
  {
    hide IntegerOf, StringHead, RunItems, RunEntries;
    IntegersAreNoStrings(data, pos);
    if data[pos] == CHAR_L {
      NeverLongItems(data, pos + 1, [], n);
    } else if data[pos] == CHAR_D {
      NeverLongEntries(data, pos + 1, map[], n);
    } else if data[pos] == CHAR_I {
      IntegersAreShort(data, pos);
    }
  }

  lemma IntegersAreShort(data: seq<byte>, pos: nat)
    ensures pos < |data| && data[pos] == CHAR_I && ParseInteger(data, pos).Got? ==>
              !Long(ParseInteger(data, pos).value, |data|)
  {
    IntegersAreNoStrings(data, pos);
    hide ParseInteger;
  }

  lemma {:induction false} NeverLongItems(data: seq<byte>, pos: nat, items: seq<Value>, n: nat)
    requires pos <= |data| && Accepts(RunItems(data, pos, items, n)) && !Long(List(items), |data|)
    ensures !Long(List(RunItems(data, pos, items, n).value.value), |data|)
    decreases n, 0
  {
    hide RunAt;
    if data[pos] != CHAR_E {
      NeverLong(data, pos, n - 1);
      var item := RunAt(data, pos, n - 1).value;
      assert !Long(List(items + [item.value]), |data|) by {
        forall x | x in items + [item.value] ensures !Long(x, |data|) { assert x in items || x == item.value; }
      }
      NeverLongItems(data, item.pos, items + [item.value], n - 1);
    }
  }

  lemma {:induction false} NeverLongEntries(data: seq<byte>, pos: nat, entries: map<seq<byte>, Value>, n: nat)
    requires pos <= |data| && Accepts(RunEntries(data, pos, entries, n)) && !Long(Dict(entries), |data|)
    ensures !Long(Dict(RunEntries(data, pos, entries, n).value.value), |data|)
    decreases n, 0
  {
    hide RunAt;
    if data[pos] != CHAR_E {
      NeverLong(data, pos, n - 1);
      var key := RunAt(data, pos, n - 1).value;
      NeverLong(data, key.pos, n - 1);
      var value := RunAt(data, key.pos, n - 1).value;
      NeverLongEntries(data, value.pos, entries[key.value.s := value.value], n - 1);
    }
  }

  // ---- the exact condition ----

  /** What the source's decoder builds, with cut-off strings marked. */
  ghost function Sketched(data: seq<byte>, pos: nat): Sketch
    requires Accepts(Decode(data, pos))
  {
    SketchAt(data, pos, EnoughTurns(data))
  }

  lemma DecodeExtended(data: seq<byte>, more: seq<byte>, pos: nat)
    requires Accepts(Decode(data, pos))
    ensures Decode(data + more, pos) == RunAt(data + more, pos, EnoughTurns(data))
    ensures Accepts(Decode(data + more, pos)) && Decode(data + more, pos).value.pos == Decode(data, pos).value.pos
  {
    hide RunAt;
    RunExtended(data, more, pos, EnoughTurns(data));
    MoreTurns(data + more, pos, EnoughTurns(data), EnoughTurns(data + more));
  }

  lemma RestFreeIsLocal(data: seq<byte>, pos: nat, more: seq<byte>)
    requires |data + more| < TWO_64 && Accepts(Decode(data, pos)) && RestFree(Sketched(data, pos))
    ensures Decode(data + more, pos) == Decode(data, pos)
  {
    hide RunAt, SketchAt, RestFree, Matches;
    DecodeExtended(data, more, pos);
    SketchMatches(data, more, pos, EnoughTurns(data));
    SketchMatches(data, [], pos, EnoughTurns(data));
    assert data + [] == data;
    MatchesOne(Sketched(data, pos), Decode(data, pos).value.value, Decode(data + more, pos).value.value);
  }

  /** An accepted decode has the same value and stops at the same place whatever follows the data, if and
      only if no string cut off at the end of the data is left in the value. */
  lemma ValueLocalExactly(data: seq<byte>, pos: nat)
    requires 2 * |data| + 1 < TWO_64 && Accepts(Decode(data, pos))
    ensures (forall more: seq<byte> :: |data + more| < TWO_64 ==> Decode(data + more, pos) == Decode(data, pos))
            <==> RestFree(Sketched(data, pos))
  {
    hide RunAt, SketchAt, RestFree, Long, Decode;
    if RestFree(Sketched(data, pos)) {
      forall more: seq<byte> | |data + more| < TWO_64
        ensures Decode(data + more, pos) == Decode(data, pos)
      {
        RestFreeIsLocal(data, pos, more);
      }
    } else {
      RestShows(data, pos, seq(|data| + 1, _ => 0));
    }
  }

  lemma RestShows(data: seq<byte>, pos: nat, more: seq<byte>)
    requires |more| > |data| && |data + more| < TWO_64 && Accepts(Decode(data, pos)) && !RestFree(Sketched(data, pos))
    ensures Decode(data + more, pos) != Decode(data, pos)
  {
    hide RunAt, SketchAt, RestFree, Long;
    SketchShows(data, more, pos, EnoughTurns(data));
    DecodeExtended(data, more, pos);
    NeverLong(data, pos, EnoughTurns(data));
  }

  /** Where no string whose sum wraps is met, none is left. */
  lemma NoneMetNoneLeft(data: seq<byte>, pos: nat)
    requires 2 * |data| + 1 < TWO_64 && Accepts(Decode(data, pos)) && !MeetsWrap(data, pos)
    ensures RestFree(Sketched(data, pos))
  {
    hide RunAt, SketchAt, RestFree, Decode, MeetsWrap, ParseAt;
    var r := ParseAt(data, pos);
    DecodesAsMeantExactly(data, pos);
    forall more: seq<byte> | |data + more| < TWO_64
      ensures Decode(data + more, pos) == Decode(data, pos)
    {
      SameFront(data, more, pos, r.pos);
      DecodeLocal(data, pos, data + more, pos, r.value, r.pos);
    }
    ValueLocalExactly(data, pos);
  }

  lemma SameFront(data: seq<byte>, more: seq<byte>, a: nat, b: nat)
    requires a <= b <= |data|
    ensures Agrees(data, a, b, data + more, a)
  {
  }
}
