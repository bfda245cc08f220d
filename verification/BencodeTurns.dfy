/** When the decoder ends: more turns never change a result, and a fixed number of them is enough. */
module BencodeTurns {
  import opened Bencode
  import opened Bytes
  import opened Wrappers

  // ---- more turns ----

  lemma {:induction false} MoreTurns(data: seq<byte>, pos: nat, m: nat, n: nat)
    requires m <= n && RunAt(data, pos, m).Some?
    ensures RunAt(data, pos, n) == RunAt(data, pos, m)
    decreases m, 1
  {
    hide ParseInteger, RunString, RunItems, RunEntries;
    if pos < |data| && data[pos] == CHAR_L {
      MoreItemTurns(data, pos + 1, [], m, n);
    } else if pos < |data| && data[pos] == CHAR_D {
      MoreEntryTurns(data, pos + 1, map[], m, n);
    }
  }

  lemma {:induction false} MoreItemTurns(data: seq<byte>, pos: nat, items: seq<Value>, m: nat, n: nat)
    requires m <= n && pos <= |data| && RunItems(data, pos, items, m).Some?
    ensures RunItems(data, pos, items, n) == RunItems(data, pos, items, m)
    decreases m, 0
  {
    hide RunAt;
    if pos < |data| && data[pos] != CHAR_E {
      MoreTurns(data, pos, m - 1, n - 1);
      var item := RunAt(data, pos, m - 1).value;
      if item.Got? {
        MoreItemTurns(data, item.pos, items + [item.value], m - 1, n - 1);
      }
    }
  }

  lemma {:induction false} MoreEntryTurns(data: seq<byte>, pos: nat, entries: map<seq<byte>, Value>, m: nat, n: nat)
    requires m <= n && pos <= |data| && RunEntries(data, pos, entries, m).Some?
    ensures RunEntries(data, pos, entries, n) == RunEntries(data, pos, entries, m)
    decreases m, 0
  {
    hide RunAt;
    if pos < |data| && data[pos] != CHAR_E {
      MoreTurns(data, pos, m - 1, n - 1);
      var key := RunAt(data, pos, m - 1).value;
      if key.Got? && key.value.Str? {
        MoreTurns(data, key.pos, m - 1, n - 1);
        var value := RunAt(data, key.pos, m - 1).value;
        if value.Got? {
          MoreEntryTurns(data, value.pos, entries[key.value.s := value.value], m - 1, n - 1);
        }
      }
    }
  }

  // ---- control does not depend on what has been gathered ----

  /** Both end, at the same place or with the same error, or neither does. */
  predicate SameEnd<S, T>(x: Option<Parsed<S>>, y: Option<Parsed<T>>) {
    match (x, y)
    case (None, None) => true
    case (Some(Got(_, p)), Some(Got(_, q))) => p == q
    case (Some(Fail(d)), Some(Fail(e))) => d == e
    case _ => false
  }

  lemma {:induction false} ItemsSameEnd(data: seq<byte>, pos: nat, a: seq<Value>, b: seq<Value>, n: nat)
    requires pos <= |data|
    ensures SameEnd(RunItems(data, pos, a, n), RunItems(data, pos, b, n))
    decreases n
  {
    hide RunAt;
    if pos < |data| && data[pos] != CHAR_E && n > 0 {
      var item := RunAt(data, pos, n - 1);
      if item.Some? && item.value.Got? {
        ItemsSameEnd(data, item.value.pos, a + [item.value.value], b + [item.value.value], n - 1);
      }
    }
  }

  lemma {:induction false} EntriesSameEnd(data: seq<byte>, pos: nat, a: map<seq<byte>, Value>,
                                          b: map<seq<byte>, Value>, n: nat)
    requires pos <= |data|
    ensures SameEnd(RunEntries(data, pos, a, n), RunEntries(data, pos, b, n))
    decreases n
  {
    hide RunAt;
    if pos < |data| && data[pos] != CHAR_E && n > 0 {
      var key := RunAt(data, pos, n - 1);
      if key.Some? && key.value.Got? && key.value.value.Str? {
        var value := RunAt(data, key.value.pos, n - 1);
        if value.Some? && value.value.Got? {
          var k, v := key.value.value.s, value.value.value;
          EntriesSameEnd(data, value.value.pos, a[k := v], b[k := v], n - 1);
        }
      }
    }
  }

  // ---- enough turns ----

  /** The loops a decode may be in: a list loop (even) or a dictionary loop (odd), by position. */
  function Loops(data: seq<byte>): nat {
    2 * |data| + 2
  }

  /** Loop `k` ends within `n` turns. */
  predicate Ends(data: seq<byte>, k: nat, n: nat)
    requires k < Loops(data)
  {
    if k % 2 == 0 then RunItems(data, k / 2, [], n).Some? else RunEntries(data, k / 2, map[], n).Some?
  }

  /** One more turn ends no further loop. */
  ghost predicate Stable(data: seq<byte>, n: nat) {
    forall k: nat :: k < Loops(data) && Ends(data, k, n + 1) ==> Ends(data, k, n)
  }

  lemma ListLoop(data: seq<byte>, pos: nat, n: nat)
    requires pos <= |data|
    ensures Ends(data, 2 * pos, n) <==> RunItems(data, pos, [], n).Some?
  {
    hide RunItems, RunEntries;
    assert 2 * pos / 2 == pos;
  }

  lemma DictLoop(data: seq<byte>, pos: nat, n: nat)
    requires pos <= |data|
    ensures Ends(data, 2 * pos + 1, n) <==> RunEntries(data, pos, map[], n).Some?
  {
    hide RunItems, RunEntries;
    assert (2 * pos + 1) / 2 == pos;
  }

  /** A value that ends with one more turn ends without it. */
  lemma ValueStable(data: seq<byte>, pos: nat, n: nat)
    requires Stable(data, n) && RunAt(data, pos, n + 1).Some?
    ensures RunAt(data, pos, n).Some? && RunAt(data, pos, n) == RunAt(data, pos, n + 1)
  {
    hide Ends, RunItems, RunEntries, ParseInteger, RunString;
    if pos < |data| && data[pos] == CHAR_L {
      ListLoop(data, pos + 1, n);
      ListLoop(data, pos + 1, n + 1);
      assert Ends(data, 2 * (pos + 1), n);
    } else if pos < |data| && data[pos] == CHAR_D {
      DictLoop(data, pos + 1, n);
      DictLoop(data, pos + 1, n + 1);
      assert Ends(data, 2 * (pos + 1) + 1, n);
    }
    MoreTurns(data, pos, n, n + 1);
  }

  lemma ItemsStable(data: seq<byte>, pos: nat, items: seq<Value>, n: nat)
    requires Stable(data, n) && pos <= |data| && RunItems(data, pos, items, n + 1).Some?
    ensures RunItems(data, pos, items, n).Some?
  {
    hide Ends, RunItems;
    ItemsSameEnd(data, pos, items, [], n + 1);
    ItemsSameEnd(data, pos, items, [], n);
    ListLoop(data, pos, n);
    ListLoop(data, pos, n + 1);
    assert Ends(data, 2 * pos, n);
  }

  lemma EntriesStable(data: seq<byte>, pos: nat, entries: map<seq<byte>, Value>, n: nat)
    requires Stable(data, n) && pos <= |data| && RunEntries(data, pos, entries, n + 1).Some?
    ensures RunEntries(data, pos, entries, n).Some?
  {
    hide Ends, RunEntries;
    EntriesSameEnd(data, pos, entries, map[], n + 1);
    EntriesSameEnd(data, pos, entries, map[], n);
    DictLoop(data, pos, n);
    DictLoop(data, pos, n + 1);
    assert Ends(data, 2 * pos + 1, n);
  }

  lemma ItemLoopStays(data: seq<byte>, pos: nat, n: nat)
    requires Stable(data, n) && pos <= |data| && RunItems(data, pos, [], n + 2).Some?
    ensures RunItems(data, pos, [], n + 1).Some?
  {
    hide RunAt, Stable;
    if pos < |data| && data[pos] != CHAR_E {
      ValueStable(data, pos, n);
      var item := RunAt(data, pos, n).value;
      if item.Got? {
        ItemsStable(data, item.pos, [] + [item.value], n);
      }
    }
  }

  lemma EntryLoopStays(data: seq<byte>, pos: nat, n: nat)
    requires Stable(data, n) && pos <= |data| && RunEntries(data, pos, map[], n + 2).Some?
    ensures RunEntries(data, pos, map[], n + 1).Some?
  {
    hide RunAt, Stable;
    if pos < |data| && data[pos] != CHAR_E {
      ValueStable(data, pos, n);
      var key := RunAt(data, pos, n).value;
      if key.Got? && key.value.Str? {
        ValueStable(data, key.pos, n);
        var value := RunAt(data, key.pos, n).value;
        if value.Got? {
          EntriesStable(data, value.pos, map[key.value.s := value.value], n);
        }
      }
    }
  }

  /** Once a turn ends no further loop, no later turn does. */
  lemma StableStays(data: seq<byte>, n: nat)
    requires Stable(data, n)
    ensures Stable(data, n + 1)
  {
    var m := n + 1;
    forall k: nat | k < Loops(data) && Ends(data, k, m + 1)
      ensures Ends(data, k, m)
    {
      if k % 2 == 0 {
        ItemLoopStays(data, k / 2, n);
      } else {
        EntryLoopStays(data, k / 2, n);
      }
    }
  }

  lemma MoreEnd(data: seq<byte>, k: nat, m: nat, n: nat)
    requires k < Loops(data) && m <= n && Ends(data, k, m)
    ensures Ends(data, k, n)
  {
    hide RunItems, RunEntries;
    if k % 2 == 0 {
      MoreItemTurns(data, k / 2, [], m, n);
    } else {
      MoreEntryTurns(data, k / 2, map[], m, n);
    }
  }

  /** The loops that end within `n` turns. */
  ghost function Ended(data: seq<byte>, n: nat): (r: set<nat>) {
    set k: nat | k < Loops(data) && Ends(data, k, n)
  }

  lemma {:induction false} Below(s: set<nat>, n: nat)
    requires forall k :: k in s ==> k < n
    ensures |s| <= n
  {
    if n > 0 {
      Below(s - {n - 1}, n - 1);
    } else {
      assert s == {};
    }
  }

  lemma Larger(s: set<nat>, t: set<nat>, k: nat)
    requires s <= t && k in t && k !in s
    ensures |s| < |t|
  {
    var rest := t - {k};
    SubsetSize(s, rest);
  }

  lemma {:induction false} SubsetSize(s: set<nat>, t: set<nat>)
    requires s <= t
    ensures |s| <= |t|
  {
    if s != {} {
      var k :| k in s;
      SubsetSize(s - {k}, t - {k});
    }
  }

  /** Each turn ends a further loop or no later turn does. */
  lemma {:induction false} EndedGrows(data: seq<byte>, n: nat)
    ensures Stable(data, n) || |Ended(data, n)| >= n
  {
    hide Ends, Stable;
    if n > 0 && !Stable(data, n) {
      if Stable(data, n - 1) {
        StableStays(data, n - 1);
      }
      EndedGrows(data, n - 1);
      var k := FreshEnd(data, n - 1);
      forall i | i in Ended(data, n - 1)
        ensures i in Ended(data, n)
      {
        MoreEnd(data, i, n - 1, n);
      }
      Larger(Ended(data, n - 1), Ended(data, n), k);
    }
  }

  lemma FreshEnd(data: seq<byte>, n: nat) returns (k: nat)
    requires !Stable(data, n)
    ensures k < Loops(data) && Ends(data, k, n + 1) && !Ends(data, k, n)
  {
    k :| k < Loops(data) && Ends(data, k, n + 1) && !Ends(data, k, n);
  }

  lemma {:induction false} StableFromThere(data: seq<byte>, n: nat)
    requires n >= EnoughTurns(data)
    ensures Stable(data, n)
  {
    hide Stable, Ends;
    if n == EnoughTurns(data) {
      EndedGrows(data, n);
      Below(Ended(data, n), Loops(data));
    } else {
      StableFromThere(data, n - 1);
      StableStays(data, n - 1);
    }
  }

  lemma {:induction false} NoLaterEnd(data: seq<byte>, pos: nat, n: nat)
    requires n >= EnoughTurns(data) && RunAt(data, pos, n).Some?
    ensures RunAt(data, pos, EnoughTurns(data)) == RunAt(data, pos, n)
  {
    hide RunAt, Stable;
    if n > EnoughTurns(data) {
      StableFromThere(data, n - 1);
      ValueStable(data, pos, n - 1);
      NoLaterEnd(data, pos, n - 1);
    }
  }

  /** A decode ends if and only if it ends within 2 * size + 3 turns, and its result does not depend
      on the number of turns; so `Decode` tells exactly what the source does. */
  lemma EndsExactly(data: seq<byte>, pos: nat, r: Parsed<Value>)
    ensures (exists n: nat :: RunAt(data, pos, n) == Some(r)) <==> Decode(data, pos) == Some(r)
  {
    hide RunAt;
    if n: nat :| RunAt(data, pos, n) == Some(r) {
      if n <= EnoughTurns(data) {
        MoreTurns(data, pos, n, EnoughTurns(data));
      } else {
        NoLaterEnd(data, pos, n);
      }
    }
  }

  /** It never ends if and only if no number of turns is enough. */
  lemma NeverEndsExactly(data: seq<byte>, pos: nat)
    ensures Decode(data, pos).None? <==> forall n: nat :: RunAt(data, pos, n).None?
  {
    hide RunAt;
    if n: nat :| RunAt(data, pos, n).Some? {
      var r := RunAt(data, pos, n).value;
      assert RunAt(data, pos, n) == Some(r);
      EndsExactly(data, pos, r);
    }
    assert Decode(data, pos) == RunAt(data, pos, EnoughTurns(data));
  }
}
