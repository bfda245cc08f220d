/** Tracker tiers: failover, move-to-front, backoff, and the merged peer list. */
module Tiers {
  import opened Wrappers

  datatype Address = Address(ip: nat, port: nat)

  datatype Response = Response(interval: int, minInterval: int, peers: seq<Address>)

  /** What asking one tracker leads to, and the time when that is known. An unsupported scheme
      refuses too. */
  datatype Reply = Answered(response: Response, at: int) | Refused(at: int)

  datatype TierEntry = TierEntry(url: string, interval: int, failures: nat, nextAnnounce: int)

  type Tier = seq<TierEntry>

  const DEFAULT_INTERVAL: int := 1800

  function Min(a: int, b: int): int {
    if b < a then b else a
  }

  /** 1 << k */
  function Shift(k: nat): nat {
    if k == 0 then 1 else 2 * Shift(k - 1)
  }

  /** Seconds to wait after that many consecutive failures. */
  function Backoff(failures: nat): int {
    Min(60 * Shift(if failures < 5 then failures else 5), 1800)
  }

  /** The wait doubles from two minutes and stays at half an hour from the fifth failure on. */
  lemma BackoffExactly(failures: nat)
    requires failures > 0
    ensures Backoff(failures) == if failures >= 5 then 1800 else 60 * Shift(failures)
    ensures failures < 4 ==> Backoff(failures + 1) == 2 * Backoff(failures)
    ensures 120 <= Backoff(failures) <= 1800
  {
    assert Shift(1) == 2 && Shift(2) == 4 && Shift(3) == 8;
    assert Shift(4) == 2 * Shift(3) && Shift(5) == 2 * Shift(4);
  }

  // ---- one tier ----

  function Failed(e: TierEntry, at: int): TierEntry {
    e.(failures := e.failures + 1, nextAnnounce := at + Backoff(e.failures + 1))
  }

  function Scheduled(e: TierEntry, r: Response, at: int): TierEntry {
    e.(failures := 0, interval := r.interval, nextAnnounce := at + r.interval)
  }

  /** The first tracker to answer. */
  function FirstAnswer(replies: seq<Reply>, from: nat, n: nat): (r: Option<nat>)
    requires from <= n <= |replies|
    ensures r.Some? ==> from <= r.value < n && replies[r.value].Answered?
                        && forall i :: from <= i < r.value ==> replies[i].Refused?
    ensures r.None? ==> forall i :: from <= i < n ==> replies[i].Refused?
    decreases n - from
  {
    if from == n then None
    else if replies[from].Answered? then Some(from)
    else FirstAnswer(replies, from + 1, n)
  }

  /** The first `n` entries have failed. */
  function FailedPrefix(tier: Tier, replies: seq<Reply>, n: nat): (r: Tier)
    requires n <= |tier| <= |replies|
    ensures |r| == |tier|
  {
    seq(|tier|, i requires 0 <= i < |tier| => if i < n then Failed(tier[i], replies[i].at) else tier[i])
  }

  /** Entry `i` moved to the front, the others in order. */
  function MovedToFront<T>(s: seq<T>, i: nat): (r: seq<T>)
    requires i < |s|
    ensures |r| == |s|
  {
    [s[i]] + s[..i] + s[i + 1..]
  }

  /** A tier after its trackers have been asked in order until one answered. The schedule goes to
      the entry that stands at the answering index after the move. */
  function TierAfter(tier: Tier, replies: seq<Reply>): (r: Tier)
    requires |tier| <= |replies|
    ensures |r| == |tier|
  {
    match FirstAnswer(replies, 0, |tier|)
    case None => FailedPrefix(tier, replies, |tier|)
    case Some(i) =>
      var moved := MovedToFront(FailedPrefix(tier, replies, i), i);
      moved[i := Scheduled(moved[i], replies[i].response, replies[i].at)]
  }

  function PeersFrom(tier: Tier, replies: seq<Reply>): seq<Address>
    requires |tier| <= |replies|
  {
    match FirstAnswer(replies, 0, |tier|)
    case None => []
    case Some(i) => replies[i].response.peers
  }

  function MinIntervalAfter(tier: Tier, replies: seq<Reply>, minInterval: int): int
    requires |tier| <= |replies|
  {
    match FirstAnswer(replies, 0, |tier|)
    case None => minInterval
    case Some(i) =>
      if replies[i].response.minInterval > 0 then Min(minInterval, replies[i].response.minInterval) else minInterval
  }

  function Urls(tier: Tier): (r: seq<string>)
    ensures |r| == |tier|
  {
    seq(|tier|, i requires 0 <= i < |tier| => tier[i].url)
  }

  lemma MovedMultiset<T>(s: seq<T>, i: nat)
    requires i < |s|
    ensures multiset(MovedToFront(s, i)) == multiset(s)
  {
    assert s == s[..i] + [s[i]] + s[i + 1..];
  }

  /** Move to front: an answer at index i brings that URL to the front and leaves the others in
      order; without an answer the order stays. Either way the tier keeps its URLs. */
  lemma TierOrder(tier: Tier, replies: seq<Reply>)
    requires |tier| <= |replies|
    ensures var first := FirstAnswer(replies, 0, |tier|);
            Urls(TierAfter(tier, replies)) == if first.Some? then MovedToFront(Urls(tier), first.value) else Urls(tier)
    ensures multiset(Urls(TierAfter(tier, replies))) == multiset(Urls(tier))
  {
    hide Urls, FailedPrefix, MovedToFront;
    var first := FirstAnswer(replies, 0, |tier|);
    if first.Some? {
      var i := first.value;
      var failed := FailedPrefix(tier, replies, i);
      var moved := MovedToFront(failed, i);
      FailedUrls(tier, replies, i);
      MovedUrls(failed, i);
      SameUrl(moved, i, Scheduled(moved[i], replies[i].response, replies[i].at));
      MovedMultiset(Urls(tier), i);
    } else {
      FailedUrls(tier, replies, |tier|);
    }
  }

  lemma FailedUrls(tier: Tier, replies: seq<Reply>, n: nat)
    requires n <= |tier| <= |replies|
    ensures Urls(FailedPrefix(tier, replies, n)) == Urls(tier)
  {
  }

  lemma MovedUrls(tier: Tier, i: nat)
    requires i < |tier|
    ensures Urls(MovedToFront(tier, i)) == MovedToFront(Urls(tier), i)
  {
  }

  lemma SameUrl(tier: Tier, i: nat, e: TierEntry)
    requires i < |tier| && e.url == tier[i].url
    ensures Urls(tier[i := e]) == Urls(tier)
  {
  }

  /** The tracker that answered, now at the front, has the schedule of its answer exactly when it
      was at the front already or happened to have that schedule before. So the tier is due again
      after the interval it was told if it answered from the front, and by its old schedule if not. */
  lemma AnswererScheduledExactly(tier: Tier, replies: seq<Reply>, i: nat)
    requires |tier| <= |replies| && FirstAnswer(replies, 0, |tier|) == Some(i)
    ensures TierAfter(tier, replies)[0] == Scheduled(tier[i], replies[i].response, replies[i].at) <==>
            i == 0 || tier[i] == Scheduled(tier[i], replies[i].response, replies[i].at)
    ensures i > 0 ==>
              && TierAfter(tier, replies)[0] == tier[i]
              && TierAfter(tier, replies)[i] ==
                Scheduled(Failed(tier[i - 1], replies[i - 1].at), replies[i].response, replies[i].at)
    ensures forall now :: Due(TierAfter(tier, replies), now) <==>
                          now >= if i == 0 then replies[i].at + replies[i].response.interval else tier[i].nextAnnounce
  {
    var failed := FailedPrefix(tier, replies, i);
    assert failed[i] == tier[i];
    assert MovedToFront(failed, i)[0] == tier[i];
    if i > 0 {
      assert MovedToFront(failed, i)[i] == failed[i - 1] == Failed(tier[i - 1], replies[i - 1].at);
    }
  }

  /** Tracker `i` is the first of its tier to answer. */
  predicate FirstToAnswer(tier: Tier, replies: seq<Reply>, i: nat)
    requires |tier| <= |replies|
  {
    i < |tier| && replies[i].Answered? && forall k :: 0 <= k < i ==> replies[k].Refused?
  }

  lemma AnswersFirst(tier: Tier, replies: seq<Reply>, i: nat)
    requires |tier| <= |replies|
    ensures FirstToAnswer(tier, replies, i) <==> FirstAnswer(replies, 0, |tier|) == Some(i)
  {
  }

  /** The peers of a tier are those of the first answer, and none if all refuse. */
  lemma PeersExactly(tier: Tier, replies: seq<Reply>, i: nat)
    requires |tier| <= |replies|
    ensures FirstToAnswer(tier, replies, i) ==> PeersFrom(tier, replies) == replies[i].response.peers
    ensures (forall k :: 0 <= k < |tier| ==> replies[k].Refused?) ==> PeersFrom(tier, replies) == []
  {
    hide FirstAnswer;
    AnswersFirst(tier, replies, i);
  }

  /** The minimum interval goes down to the one answered, if one is given that is smaller. */
  lemma MinIntervalExactly(tier: Tier, replies: seq<Reply>, minInterval: int, i: nat)
    requires |tier| <= |replies|
    ensures FirstToAnswer(tier, replies, i) ==>
              var told := replies[i].response.minInterval;
              MinIntervalAfter(tier, replies, minInterval) == if 0 < told < minInterval then told else minInterval
    ensures (forall k :: 0 <= k < |tier| ==> replies[k].Refused?) ==>
              MinIntervalAfter(tier, replies, minInterval) == minInterval
  {
    hide FirstAnswer;
    AnswersFirst(tier, replies, i);
  }

  /** Seconds to wait after that many failures in a row. */
  function WaitTable(failures: nat): int {
    if failures == 1 then 120
    else if failures == 2 then 240
    else if failures == 3 then 480
    else if failures == 4 then 960
    else 1800
  }

  /** An entry that has failed once more. */
  predicate HasFailed(before: TierEntry, at: int, after: TierEntry) {
    && after.url == before.url && after.interval == before.interval
    && after.failures == before.failures + 1
    && after.nextAnnounce == at + WaitTable(before.failures + 1)
  }

  lemma FailedExactly(e: TierEntry, at: int)
    ensures HasFailed(e, at, Failed(e, at))
  {
    BackoffExactly(e.failures + 1);
    assert Shift(1) == 2 && Shift(2) == 4 && Shift(3) == 8 && Shift(4) == 16;
  }

  /** What an entry has come from: the answering one moves to the front, those before it move back. */
  function CameFrom(i: nat, k: nat): nat {
    if k == 0 then i else if k <= i then k - 1 else k
  }

  /** A tier after all its trackers refused: each has failed once more, in place. */
  lemma AllFailedExactly(tier: Tier, replies: seq<Reply>, k: nat)
    requires k < |tier| <= |replies| && forall j :: 0 <= j < |tier| ==> replies[j].Refused?
    ensures HasFailed(tier[k], replies[k].at, TierAfter(tier, replies)[k])
  {
    FailedExactly(tier[k], replies[k].at);
  }

  /** A tier after tracker `i` was the first to answer, entry by entry: those before it have failed once
      more, those after it are untouched, and the entry that now stands at index i gets the schedule. */
  lemma TierEntriesExactly(tier: Tier, replies: seq<Reply>, i: nat, k: nat)
    requires k < |tier| <= |replies| && FirstToAnswer(tier, replies, i)
    ensures var from, after := CameFrom(i, k), TierAfter(tier, replies)[k];
            && from < |tier|
            && (k != i && from >= i ==> after == tier[from])
            && (k != i && from < i ==> HasFailed(tier[from], replies[from].at, after))
            && (k == i ==> after == TierEntry(tier[from].url, replies[i].response.interval, 0,
                                              replies[i].at + replies[i].response.interval))
  {
    hide FirstAnswer, HasFailed;
    AnswersFirst(tier, replies, i);
    var from, failed := CameFrom(i, k), FailedPrefix(tier, replies, i);
    FailedExactly(tier[from], replies[from].at);
    assert MovedToFront(failed, i)[k] == failed[from];
  }

  /** Two trackers of which the second answers: it moves to the front with its old schedule, still
      due at once, and the one that failed is marked as if it had answered. */
  lemma WrongEntryScheduled()
    ensures var a, b := TierEntry("a", 1800, 0, 0), TierEntry("b", 1800, 0, 0);
            var replies := [Refused(5), Answered(Response(900, 0, []), 6)];
            TierAfter([a, b], replies) == [b, TierEntry("a", 900, 0, 906)]
  {
    var a, b := TierEntry("a", 1800, 0, 0), TierEntry("b", 1800, 0, 0);
    var replies := [Refused(5), Answered(Response(900, 0, []), 6)];
    assert FirstAnswer(replies, 1, 2) == Some(1);
    assert FirstAnswer(replies, 0, 2) == Some(1);
    AnswererScheduledExactly([a, b], replies, 1);
    var after := TierAfter([a, b], replies);
    assert after == [after[0], after[1]];
  }

  // ---- merging ----

  /** The elements of a list without later repetitions. */
  function FirstOccurrences<T(==)>(s: seq<T>): seq<T> {
    if s == [] then []
    else
      var before, last := FirstOccurrences(s[..|s| - 1]), s[|s| - 1];
      if last in before then before else before + [last]
  }

  /** `x` is first met in `s` at `i`. */
  predicate FirstAt<T(==)>(s: seq<T>, x: T, i: nat) {
    i < |s| && s[i] == x && x !in s[..i]
  }

  /** The merged list has no duplicates, exactly the elements of the original, and they come in the
      order in which they are first met. */
  lemma {:induction false} MergeExactly<T>(s: seq<T>)
    ensures forall x :: x in FirstOccurrences(s) <==> x in s
    ensures forall i, j :: 0 <= i < j < |FirstOccurrences(s)| ==> FirstOccurrences(s)[i] != FirstOccurrences(s)[j]
    ensures forall i, j, m: nat, n: nat ::
              (0 <= i < j < |FirstOccurrences(s)|
               && FirstAt(s, FirstOccurrences(s)[i], m) && FirstAt(s, FirstOccurrences(s)[j], n))
              ==> m < n
  {
    if s != [] {
      var init, last := s[..|s| - 1], s[|s| - 1];
      MergeExactly(init);
      var before := FirstOccurrences(init);
      var r := FirstOccurrences(s);
      assert forall x :: x in s <==> x in init || x == last;
      forall i, j, m: nat, n: nat | 0 <= i < j < |r| && FirstAt(s, r[i], m) && FirstAt(s, r[j], n)
        ensures m < n
      {
        assert r[i] == before[i];
        FirstAtInit(s, r[i], m);
        if j < |before| {
          FirstAtInit(s, r[j], n);
        } else {
          assert n == |init| by {
            assert last !in init;
          }
        }
      }
    }
  }

  lemma FirstAtInit<T>(s: seq<T>, x: T, m: nat)
    requires s != [] && FirstAt(s, x, m) && x in s[..|s| - 1]
    ensures FirstAt(s[..|s| - 1], x, m)
  {
    var init := s[..|s| - 1];
    var k :| 0 <= k < |init| && init[k] == x;
    forall j | 0 <= j < m ensures s[j] != x {
      assert s[..m][j] == s[j];
    }
    assert m <= k;
    assert init[..m] == s[..m];
  }

  // ---- all tiers ----

  datatype Manager = Manager(tiers: seq<Tier>, minInterval: int)

  /** One reply for each tracker of each tier. */
  predicate Covers(tiers: seq<Tier>, replies: seq<seq<Reply>>) {
    |tiers| == |replies| && forall t :: 0 <= t < |tiers| ==> |tiers[t]| <= |replies[t]|
  }

  /** A re-announce asks the tiers whose first entry is due. */
  predicate Due(tier: Tier, now: int) {
    tier != [] && now >= tier[0].nextAnnounce
  }

  datatype Call =
    | Announce(replies: seq<seq<Reply>>)
    | Reannounce(now: seq<int>, replies: seq<seq<Reply>>)

  predicate Callable(m: Manager, c: Call) {
    Covers(m.tiers, c.replies) && (c.Reannounce? ==> |c.now| == |m.tiers|)
  }

  function TierAfterCall(tier: Tier, replies: seq<Reply>, asked: bool): (r: Tier)
    requires |tier| <= |replies|
  {
    if asked then TierAfter(tier, replies) else tier
  }

  /** A tier is asked in every announce, and in a re-announce when its first entry is due. */
  predicate Asked(m: Manager, c: Call, t: nat)
    requires Callable(m, c) && t < |m.tiers|
  {
    c.Announce? || Due(m.tiers[t], c.now[t])
  }

  function MinAfterCall(m: Manager, c: Call, n: nat): int
    requires Callable(m, c) && n <= |m.tiers|
  {
    if n == 0 then m.minInterval
    else if Asked(m, c, n - 1) then MinIntervalAfter(m.tiers[n - 1], c.replies[n - 1], MinAfterCall(m, c, n - 1))
    else MinAfterCall(m, c, n - 1)
  }

  function TiersAfterCall(m: Manager, c: Call, n: nat): (r: seq<Tier>)
    requires Callable(m, c) && n <= |m.tiers|
    ensures |r| == |m.tiers|
  {
    seq(|m.tiers|, t requires 0 <= t < |m.tiers| =>
      if t < n then TierAfterCall(m.tiers[t], c.replies[t], Asked(m, c, t)) else m.tiers[t])
  }

  function AfterCall(m: Manager, c: Call): Manager
    requires Callable(m, c)
  {
    Manager(TiersAfterCall(m, c, |m.tiers|), MinAfterCall(m, c, |m.tiers|))
  }

  /** What the tiers asked have answered. */
  function Gathered(m: Manager, c: Call, n: nat): seq<Address>
    requires Callable(m, c) && n <= |m.tiers|
  {
    if n == 0 then []
    else Gathered(m, c, n - 1) + (if Asked(m, c, n - 1) then PeersFrom(m.tiers[n - 1], c.replies[n - 1]) else [])
  }

  /** A tier is asked in every announce; in a re-announce if its first entry is due. */
  lemma AskedExactly(m: Manager, c: Call, t: nat)
    requires Callable(m, c) && t < |m.tiers|
    ensures Asked(m, c, t) <==>
            c.Announce? || (m.tiers[t] != [] && m.tiers[t][0].nextAnnounce <= c.now[t])
  {
  }

  /** Address `x` is in the first answer of tier `t`. */
  ghost predicate Told(m: Manager, c: Call, t: nat, x: Address)
    requires Callable(m, c) && t < |m.tiers|
  {
    exists i: nat :: FirstToAnswer(m.tiers[t], c.replies[t], i) && x in c.replies[t][i].response.peers
  }

  lemma ToldExactly(m: Manager, c: Call, t: nat, x: Address)
    requires Callable(m, c) && t < |m.tiers|
    ensures x in PeersFrom(m.tiers[t], c.replies[t]) <==> Told(m, c, t, x)
  {
    hide FirstToAnswer;
    var first := FirstAnswer(c.replies[t], 0, |m.tiers[t]|);
    if first.Some? {
      AnswersFirst(m.tiers[t], c.replies[t], first.value);
    }
    forall i: nat | FirstToAnswer(m.tiers[t], c.replies[t], i)
      ensures first == Some(i)
    {
      AnswersFirst(m.tiers[t], c.replies[t], i);
    }
  }

  /** What a call returns: no address twice, and exactly the addresses in the first answer of some
      tier that was asked. */
  lemma {:induction false} MergedPeersExactly(m: Manager, c: Call, x: Address)
    requires Callable(m, c)
    ensures var all := FirstOccurrences(Gathered(m, c, |m.tiers|));
            && (forall i, j :: 0 <= i < j < |all| ==> all[i] != all[j])
            && (x in all <==> exists t: nat :: t < |m.tiers| && Asked(m, c, t) && Told(m, c, t, x))
  {
    hide Asked, Told;
    MergeExactly(Gathered(m, c, |m.tiers|));
    GatheredExactly(m, c, |m.tiers|, x);
  }

  lemma {:induction false} GatheredExactly(m: Manager, c: Call, n: nat, x: Address)
    requires Callable(m, c) && n <= |m.tiers|
    ensures x in Gathered(m, c, n) <==> exists t: nat :: t < n && Asked(m, c, t) && Told(m, c, t, x)
  {
    hide Asked, Told, PeersFrom;
    if n > 0 {
      GatheredExactly(m, c, n - 1, x);
      ToldExactly(m, c, n - 1, x);
    }
  }

  /** The answers are merged tier by tier: before the peers of a tier stand those of earlier tiers. */
  lemma {:induction false} GatheredInOrder(m: Manager, c: Call, n: nat, t: nat, i: nat) returns (later: seq<Address>)
    requires Callable(m, c) && t < n <= |m.tiers| && Asked(m, c, t) && FirstToAnswer(m.tiers[t], c.replies[t], i)
    ensures Gathered(m, c, n) == Gathered(m, c, t) + c.replies[t][i].response.peers + later
  {
    hide Asked, PeersFrom;
    if t == n - 1 {
      PeersExactly(m.tiers[t], c.replies[t], i);
      later := [];
    } else {
      var before := GatheredInOrder(m, c, n - 1, t, i);
      later := before + if Asked(m, c, n - 1) then PeersFrom(m.tiers[n - 1], c.replies[n - 1]) else [];
    }
  }

  /** Each tier that is asked is tried once, and the others stay as they are. */
  lemma CallTiersExactly(m: Manager, c: Call, t: nat)
    requires Callable(m, c) && t < |m.tiers|
    ensures |AfterCall(m, c).tiers| == |m.tiers|
    ensures AfterCall(m, c).tiers[t] == if Asked(m, c, t) then TierAfter(m.tiers[t], c.replies[t]) else m.tiers[t]
  {
    hide Asked, TierAfter;
  }

  /** The minimum interval after some tiers is the least of the old one and those they answered. */
  ghost predicate LeastTold(m: Manager, c: Call, n: nat, least: int)
    requires Callable(m, c) && n <= |m.tiers|
  {
    && least <= m.minInterval
    && (forall t: nat, i: nat :: t < n && TellsMin(m, c, t, i) ==> least <= c.replies[t][i].response.minInterval)
    && (least == m.minInterval
        || exists t: nat, i: nat :: t < n && TellsMin(m, c, t, i) && least == c.replies[t][i].response.minInterval)
  }

  /** Tier `t` is asked, and its first answer, from tracker `i`, gives a minimum interval. */
  predicate TellsMin(m: Manager, c: Call, t: nat, i: nat)
    requires Callable(m, c) && t < |m.tiers|
  {
    Asked(m, c, t) && FirstToAnswer(m.tiers[t], c.replies[t], i) && c.replies[t][i].response.minInterval > 0
  }

  lemma {:induction false} MinAfterCallExactly(m: Manager, c: Call, n: nat)
    requires Callable(m, c) && n <= |m.tiers|
    ensures LeastTold(m, c, n, MinAfterCall(m, c, n))
  {
    hide Asked, FirstAnswer, FirstToAnswer;
    if n > 0 {
      MinAfterCallExactly(m, c, n - 1);
      var t, before := n - 1, MinAfterCall(m, c, n - 1);
      forall i: nat
        ensures FirstToAnswer(m.tiers[t], c.replies[t], i) <==>
                FirstAnswer(c.replies[t], 0, |m.tiers[t]|) == Some(i)
      {
        AnswersFirst(m.tiers[t], c.replies[t], i);
      }
      var after := MinAfterCall(m, c, n);
      if after != before {
        var i := FirstAnswer(c.replies[t], 0, |m.tiers[t]|).value;
        assert TellsMin(m, c, t, i);
      }
    }
  }

  /** A run of calls. */
  ghost predicate IsRun(ms: seq<Manager>, calls: seq<Call>) {
    && |ms| == |calls| + 1
    && forall i :: 0 <= i < |calls| ==> Callable(ms[i], calls[i]) && ms[i + 1] == AfterCall(ms[i], calls[i])
  }

  predicate SameUrls(x: Manager, y: Manager) {
    && |x.tiers| == |y.tiers|
    && forall t :: 0 <= t < |x.tiers| ==> multiset(Urls(x.tiers[t])) == multiset(Urls(y.tiers[t]))
  }

  /** Over any run of announces and re-announces each tier keeps its URLs, and the announce interval
      never grows. */
  lemma {:induction false} RunKeepsUrls(ms: seq<Manager>, calls: seq<Call>, i: nat)
    requires IsRun(ms, calls) && i < |ms|
    ensures SameUrls(ms[0], ms[i]) && ms[i].minInterval <= ms[0].minInterval
    decreases i
  {
    if i > 0 {
      RunKeepsUrls(ms, calls, i - 1);
      var m, c := ms[i - 1], calls[i - 1];
      forall t | 0 <= t < |m.tiers|
        ensures multiset(Urls(AfterCall(m, c).tiers[t])) == multiset(Urls(m.tiers[t]))
      {
        TierOrder(m.tiers[t], c.replies[t]);
      }
      MinNeverGrows(m, c, |m.tiers|);
    }
  }

  lemma {:induction false} MinNeverGrows(m: Manager, c: Call, n: nat)
    requires Callable(m, c) && n <= |m.tiers|
    ensures MinAfterCall(m, c, n) <= m.minInterval
  {
    if n > 0 {
      MinNeverGrows(m, c, n - 1);
    }
  }

  class TrackerManager {
    var tiers: seq<Tier>
    var minInterval: int

    function View(): Manager
      reads this
    {
      Manager(tiers, minInterval)
    }

    /** One entry per URL, due from the start; tiers without URLs are left out. */
    constructor (announceList: seq<seq<string>>, now: int)
      ensures minInterval == 1800
      ensures tiers == NonEmptyTiers(announceList, now)
    {
      minInterval := DEFAULT_INTERVAL;
      var built: seq<Tier> := [];
      for t := 0 to |announceList|
        invariant built == NonEmptyTiers(announceList[..t], now)
      {
        assert announceList[..t + 1][..t] == announceList[..t];
        var tier: Tier := [];
        for u := 0 to |announceList[t]|
          invariant tier == FreshTier(announceList[t][..u], now)
        {
          tier := tier + [TierEntry(announceList[t][u], DEFAULT_INTERVAL, 0, now)];
        }
        assert announceList[t][..|announceList[t]|] == announceList[t];
        if tier != [] {
          built := built + [tier];
        }
      }
      assert announceList[..|announceList|] == announceList;
      tiers := built;
    }

    /** Asks the trackers of tier `t` in order until one answers. */
    method TryTier(t: nat, replies: seq<Reply>) returns (peers: seq<Address>)
      requires t < |tiers| && |tiers[t]| <= |replies|
      modifies this
      ensures tiers == old(tiers)[t := TierAfter(old(tiers)[t], replies)]
      ensures minInterval == MinIntervalAfter(old(tiers)[t], replies, old(minInterval))
      ensures peers == PeersFrom(old(tiers)[t], replies)
    {
      ghost var before := tiers[t];
      assert FailedPrefix(before, replies, 0) == before;
      assert tiers[t := tiers[t]] == tiers;
      var i := 0;
      while i < |tiers[t]|
        invariant 0 <= i <= |before|
        invariant |tiers| == |old(tiers)| && tiers == old(tiers)[t := FailedPrefix(before, replies, i)]
        invariant minInterval == old(minInterval)
        invariant FirstAnswer(replies, 0, |before|) == FirstAnswer(replies, i, |before|)
      {
        var tier := tiers[t];
        if replies[i].Answered? {
          var response := replies[i].response;
          if i > 0 {
            tier := [tier[i]] + tier[..i] + tier[i + 1..];
          }
          assert tier == MovedToFront(tiers[t], i);
          var e := tier[i].(failures := 0);
          e := e.(interval := response.interval);
          e := e.(nextAnnounce := replies[i].at + response.interval);
          tiers := tiers[t := tier[i := e]];
          if response.minInterval > 0 {
            minInterval := Min(minInterval, response.minInterval);
          }
          return response.peers;
        }
        var e := tier[i].(failures := tier[i].failures + 1);
        var backoff := Backoff(e.failures);
        e := e.(nextAnnounce := replies[i].at + backoff);
        tiers := tiers[t := tier[i := e]];
        assert tiers[t] == FailedPrefix(before, replies, i + 1);
        i := i + 1;
      }
      return [];
    }

    /** Adds the peers that are not on the list yet. */
    static method Merge(all: seq<Address>, seen: set<Address>, peers: seq<Address>, ghost gathered: seq<Address>)
      returns (all': seq<Address>, seen': set<Address>)
      requires all == FirstOccurrences(gathered) && forall x :: x in seen <==> x in all
      ensures all' == FirstOccurrences(gathered + peers) && forall x :: x in seen' <==> x in all'
    {
      all', seen' := all, seen;
      assert gathered + peers[..0] == gathered;
      for i := 0 to |peers|
        invariant all' == FirstOccurrences(gathered + peers[..i])
        invariant forall x :: x in seen' <==> x in all'
      {
        ghost var more := gathered + peers[..i + 1];
        assert more[..|more| - 1] == gathered + peers[..i];
        if peers[i] !in seen' {
          seen' := seen' + {peers[i]};
          all' := all' + [peers[i]];
        }
      }
      assert gathered + peers[..|peers|] == gathered + peers;
    }

    /** Asks every tier, also after one has answered, and merges the answers. */
    method Announce(replies: seq<seq<Reply>>) returns (all: seq<Address>)
      requires Callable(View(), Call.Announce(replies))
      modifies this
      ensures View() == AfterCall(old(View()), Call.Announce(replies))
      ensures all == FirstOccurrences(Gathered(old(View()), Call.Announce(replies), |old(tiers)|))
    {
      hide TierAfter, PeersFrom, MinIntervalAfter, FirstOccurrences;
      ghost var m, c := View(), Call.Announce(replies);
      var seen: set<Address> := {};
      all := [];
      NothingMerged();
      var t := 0;
      while t < |tiers|
        invariant 0 <= t <= |m.tiers| == |tiers|
        invariant tiers == TiersAfterCall(m, c, t) && minInterval == MinAfterCall(m, c, t)
        invariant all == FirstOccurrences(Gathered(m, c, t)) && forall x :: x in seen <==> x in all
      {
        var peers := TryTier(t, replies[t]);
        all, seen := Merge(all, seen, peers, Gathered(m, c, t));
        TierAsked(m, c, t);
        t := t + 1;
      }
    }

    /** Asks the tiers whose first entry is due, `now[t]` being the time when tier `t` is looked at. */
    method ReannounceIfDue(now: seq<int>, replies: seq<seq<Reply>>) returns (all: seq<Address>)
      requires Callable(View(), Call.Reannounce(now, replies))
      modifies this
      ensures View() == AfterCall(old(View()), Call.Reannounce(now, replies))
      ensures all == FirstOccurrences(Gathered(old(View()), Call.Reannounce(now, replies), |old(tiers)|))
    {
      hide TierAfter, PeersFrom, MinIntervalAfter, FirstOccurrences;
      ghost var m, c := View(), Call.Reannounce(now, replies);
      var seen: set<Address> := {};
      all := [];
      NothingMerged();
      var t := 0;
      while t < |tiers|
        invariant 0 <= t <= |m.tiers| == |tiers|
        invariant tiers == TiersAfterCall(m, c, t) && minInterval == MinAfterCall(m, c, t)
        invariant all == FirstOccurrences(Gathered(m, c, t)) && forall x :: x in seen <==> x in all
      {
        TierAsked(m, c, t);
        if tiers[t] != [] && now[t] >= tiers[t][0].nextAnnounce {
          var peers := TryTier(t, replies[t]);
          all, seen := Merge(all, seen, peers, Gathered(m, c, t));
        }
        t := t + 1;
      }
    }
  }

  lemma NothingMerged()
    ensures FirstOccurrences<Address>([]) == []
  {
  }

  /** One more tier. */
  lemma TierAsked(m: Manager, c: Call, t: nat)
    requires Callable(m, c) && t < |m.tiers|
    ensures TiersAfterCall(m, c, t)[t] == m.tiers[t]
    ensures TiersAfterCall(m, c, t + 1)
            == if Asked(m, c, t) then TiersAfterCall(m, c, t)[t := TierAfter(m.tiers[t], c.replies[t])]
              else TiersAfterCall(m, c, t)
    ensures !Asked(m, c, t) ==> Gathered(m, c, t + 1) == Gathered(m, c, t)
  {
    hide TierAfter, PeersFrom;
  }

  function FreshTier(urls: seq<string>, now: int): (r: Tier)
    ensures |r| == |urls|
  {
    seq(|urls|, i requires 0 <= i < |urls| => TierEntry(urls[i], DEFAULT_INTERVAL, 0, now))
  }

  /** The places of the lists that are not empty, in order. */
  predicate NonEmptyAt(announceList: seq<seq<string>>, at: seq<nat>) {
    && (forall i, j :: 0 <= i < j < |at| ==> at[i] < at[j])
    && (forall i :: 0 <= i < |at| ==> at[i] < |announceList|)
    && forall k: nat :: k < |announceList| ==> (announceList[k] != [] <==> k in at)
  }

  predicate StartAt(announceList: seq<seq<string>>, tiers: seq<Tier>, at: seq<nat>, now: int) {
    && |at| == |tiers|
    && forall i :: 0 <= i < |at| ==> at[i] < |announceList| && StartsWith(tiers[i], announceList[at[i]], now)
  }

  lemma NonEmptyOneMore(init: seq<seq<string>>, last: seq<string>, at: seq<nat>)
    requires NonEmptyAt(init, at)
    ensures NonEmptyAt(init + [last], if last == [] then at else at + [|init|])
  {
    var whole, after := init + [last], if last == [] then at else at + [|init|];
    forall k: nat | k < |whole|
      ensures whole[k] != [] <==> k in after
    {
      if k < |init| {
        assert whole[k] == init[k];
      }
    }
  }

  lemma StartOneMore(init: seq<seq<string>>, last: seq<string>, tiers: seq<Tier>, at: seq<nat>, tier: Tier, now: int)
    requires StartAt(init, tiers, at, now) && StartsWith(tier, last, now)
    ensures StartAt(init + [last], tiers, at, now)
    ensures StartAt(init + [last], tiers + [tier], at + [|init|], now)
  {
    hide StartsWith;
    var whole := init + [last];
    assert forall i :: 0 <= i < |at| ==> whole[at[i]] == init[at[i]];
  }

  /** The tiers at the start: for each list of URLs that is not empty, in order, one entry per URL, due
      at once and with half an hour as its interval. */
  lemma {:induction false} StartTiersExactly(announceList: seq<seq<string>>, now: int) returns (at: seq<nat>)
    ensures NonEmptyAt(announceList, at) && StartAt(announceList, NonEmptyTiers(announceList, now), at, now)
  {
    if announceList == [] {
      at := [];
    } else {
      hide StartsWith, StartAt, NonEmptyAt, FreshTier;
      var init, last := announceList[..|announceList| - 1], announceList[|announceList| - 1];
      assert announceList == init + [last];
      var before := StartTiersExactly(init, now);
      FreshStarts(last, now);
      NonEmptyOneMore(init, last, before);
      StartOneMore(init, last, NonEmptyTiers(init, now), before, FreshTier(last, now), now);
      at := if last == [] then before else before + [|init|];
    }
  }

  predicate StartsWith(tier: Tier, urls: seq<string>, now: int) {
    && |tier| == |urls|
    && forall u :: 0 <= u < |tier| ==>
         tier[u].url == urls[u] && tier[u].interval == 1800 && tier[u].failures == 0 && tier[u].nextAnnounce == now
  }

  lemma FreshStarts(urls: seq<string>, now: int)
    ensures StartsWith(FreshTier(urls, now), urls, now)
  {
  }

  function NonEmptyTiers(announceList: seq<seq<string>>, now: int): seq<Tier> {
    if announceList == [] then []
    else
      var before, last := NonEmptyTiers(announceList[..|announceList| - 1], now), announceList[|announceList| - 1];
      if last == [] then before else before + [FreshTier(last, now)]
  }
}
