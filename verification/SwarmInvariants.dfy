/** What every run of the engine keeps: how often blocks are requested, and where the requests are. */
module SwarmInvariants {
  import opened Bytes
  import opened Agreement
  import opened Connections
  import opened Cores
  import opened Messages
  import opened Pieces
  import opened Swarm
  import opened SwarmSteps
  import opened Torrents
  import opened Wrappers

  // ---- requests over all connections ----

  /** How often a message has been queued on any connection. */
  function TotalQueued(conns: seq<Conn>, m: PeerMessage): nat {
    if conns == [] then 0
    else TotalQueued(conns[..|conns| - 1], m) + QueuedCount(conns[|conns| - 1], m)
  }

  lemma {:induction false} TotalUpdate(conns: seq<Conn>, k: nat, x: Conn, m: PeerMessage)
    requires k < |conns|
    ensures TotalQueued(conns[k := x], m) + QueuedCount(conns[k], m) == TotalQueued(conns, m) + QueuedCount(x, m)
  {
    var last := |conns| - 1;
    if k == last {
      assert conns[k := x][..last] == conns[..last];
    } else {
      assert conns[k := x][..last] == conns[..last][k := x];
      TotalUpdate(conns[..last], k, x, m);
    }
  }

  lemma {:induction false} TotalZero(conns: seq<Conn>, m: PeerMessage)
    requires forall k :: 0 <= k < |conns| ==> conns[k].queued == []
    ensures TotalQueued(conns, m) == 0
  {
    if conns != [] {
      TotalZero(conns[..|conns| - 1], m);
    }
  }

  lemma {:induction false} TotalPositive(conns: seq<Conn>, m: PeerMessage) returns (k: nat, i: nat)
    requires TotalQueued(conns, m) > 0
    ensures k < |conns| && i < |conns[k].queued| && conns[k].queued[i] == m
  {
    var last := conns[|conns| - 1];
    if QueuedCount(last, m) > 0 {
      assert m in last.queued;
      k := |conns| - 1;
      i :| 0 <= i < |last.queued| && last.queued[i] == m;
    } else {
      k, i := TotalPositive(conns[..|conns| - 1], m);
    }
  }

  /** Where a block stands. */
  datatype Standing = Unopened | Held(state: BlockState) | Done

  function StandingOf(s: Manager, k: Pick): Standing {
    if k.piece in s.active then
      if k.block < |s.active[k.piece].blocks| then Held(s.active[k.piece].blocks[k.block].state) else Unopened
    else if k.piece < |s.completed| && s.completed[k.piece] then Done
    else Unopened
  }

  /** How often a block may have been requested, given its piece's hash failures. */
  predicate Warranted(st: Standing, requests: nat, failures: nat) {
    match st
    case Unopened => requests == 0 && failures == 0
    case Held(Missing) => requests <= failures
    case Held(Requested) => 1 <= requests <= failures + 1
    case Held(Downloaded) => requests <= failures + 1
    case Done => requests <= failures + 1
  }

  predicate InTorrent(t: Torrent, k: Pick)
    requires t.WellFormed()
  {
    k.piece < |t.pieces| && k.block < BlockCount(Size(t, k.piece))
  }

  function TimesRequested(t: Torrent, conns: seq<Conn>, k: Pick): nat
    requires t.WellFormed() && InTorrent(t, k)
  {
    TotalQueued(conns, BlockRequest(t, k))
  }

  ghost predicate RequestsWarranted(c: Config, s: System) {
    && CoreOk(c, s.core)
    && c.torrent.WellFormed()
    && forall k: Pick :: InTorrent(c.torrent, k) ==>
         Warranted(StandingOf(s.core.mgr, k), TimesRequested(c.torrent, s.conns, k), FailureCount(s.core.log, k.piece))
  }

  ghost predicate QueuesSound(s: System) {
    forall k :: 0 <= k < |s.conns| ==> OutboundInv(s.conns[k])
  }

  ghost predicate SwarmInv(c: Config, s: System) {
    HistoryInv(c, s.core) && RequestsWarranted(c, s) && QueuesSound(s)
  }

  lemma InitSwarm(c: Config, s: System)
    requires Init(c, s)
    ensures SwarmInv(c, s)
  {
    hide Torrent.WellFormed, Size, BlockCount;
    InitInv(c.torrent);
    assert CoreOk(c, s.core);
    assert HistoryInv(c, s.core) by {
      forall p: nat | p < |c.torrent.pieces|
        ensures Balanced(c, s.core, p)
      {
      }
    }
    forall k: Pick | InTorrent(c.torrent, k)
      ensures TimesRequested(c.torrent, s.conns, k) == 0
    {
      TotalZero(s.conns, BlockRequest(c.torrent, k));
    }
  }

  // ---- a request ----

  lemma RequestStanding(t: Torrent, s: Manager, bits: seq<byte>, s': Manager, k: Pick, l: Pick)
    requires RequestStep(t, s, bits, s', Some(k))
    requires t.WellFormed() && InTorrent(t, l)
    ensures var before, after := StandingOf(s, l), StandingOf(s', l);
            if l == k then (before == Unopened || before == Held(Missing)) && after == Held(Requested)
            else after == before || (before == Unopened && after == Held(Missing))
  {
    hide Torrent.WellFormed, Inv, Size, BlockCount, MayPick, RequestStep, BlockLength;
    RequestStepEffect(t, s, bits, s', k);
    RequestOpens(t, s, bits, s', k);
  }

  lemma RequestOpens(t: Torrent, s: Manager, bits: seq<byte>, s': Manager, k: Pick)
    requires RequestStep(t, s, bits, s', Some(k))
    ensures k.piece < |s.completed| && !s.completed[k.piece]
    ensures k.piece !in s.active ==>
              && k.piece < |t.pieces|
              && Opened(t, s, k.piece).active[k.piece].blocks == FreshBlocks(Size(t, k.piece))
  {
    hide Torrent.WellFormed;
    PickInRange(t, s, bits, k);
  }

  lemma QueuedOnce(x: Conn, m: PeerMessage, n: PeerMessage)
    requires x.IsConnected() && Frameable(m)
    ensures QueuedCount(Queued(x, m), n) == QueuedCount(x, n) + if n == m then 1 else 0
  {
  }

  lemma AskedCounts(c: Config, s: System, j: nat, k: Pick, b: Local, l: Pick)
    requires j < |s.conns| && HasEffect(c, s.At(j), Asked(k), b)
    requires c.torrent.WellFormed() && InTorrent(c.torrent, l)
    ensures TimesRequested(c.torrent, s.With(j, b).conns, l) == TimesRequested(c.torrent, s.conns, l)
            + if l == k then 1 else 0
  {
    hide Torrent.WellFormed, Size, BlockCount, BlockRequest, Inv, MayPick;
    BlockRequestInjective(c.torrent, k, l);
    QueuedOnce(s.conns[j], BlockRequest(c.torrent, k), BlockRequest(c.torrent, l));
    TotalUpdate(s.conns, j, b.conn, BlockRequest(c.torrent, l));
  }

  lemma AskedWarranted(c: Config, s: System, j: nat, k: Pick, b: Local, l: Pick)
    requires j < |s.conns| && RequestsWarranted(c, s) && HasEffect(c, s.At(j), Asked(k), b)
    requires InTorrent(c.torrent, l)
    ensures Warranted(StandingOf(b.core.mgr, l), TimesRequested(c.torrent, s.With(j, b).conns, l),
                      FailureCount(b.core.log, l.piece))
  {
    hide Torrent.WellFormed, Size, BlockCount, RequestStep, Warranted, StandingOf, TimesRequested, InTorrent, Queued,
         BlockRequest, CoreOk;
    AskedCounts(c, s, j, k, b, l);
    RequestStanding(c.torrent, s.core.mgr, s.conns[j].peer.bitfield, b.core.mgr, k, l);
    WarrantAsked(StandingOf(s.core.mgr, l), StandingOf(b.core.mgr, l), TimesRequested(c.torrent, s.conns, l),
                 FailureCount(s.core.log, l.piece), l == k);
  }

  lemma QueuesUpdate(s: System, j: nat, b: Local)
    requires j < |s.conns| && QueuesSound(s)
    requires OutboundInv(s.conns[j]) ==> OutboundInv(b.conn)
    ensures QueuesSound(s.With(j, b))
  {
    hide OutboundInv;
  }

  lemma AskedQueue(c: Config, a: Local, k: Pick, b: Local)
    requires HasEffect(c, a, Asked(k), b)
    ensures OutboundInv(a.conn) ==> OutboundInv(b.conn)
  {
    hide OutboundInv, Queued, MayPick, Inv, BlockRequest, Torrent.WellFormed;
    ActiveInRange(c.torrent, a.core.mgr, k.piece);
    if OutboundInv(a.conn) {
      QueuedKeeps(a.conn, BlockRequest(c.torrent, k));
    }
  }

  lemma AskedKeeps(c: Config, s: System, j: nat, k: Pick, b: Local)
    requires j < |s.conns| && SwarmInv(c, s) && HasEffect(c, s.At(j), Asked(k), b)
    ensures SwarmInv(c, s.With(j, b))
  {
    hide Torrent.WellFormed, Size, BlockCount, RequestStep, Warranted, HistoryInv, StandingOf, TimesRequested,
         InTorrent, OutboundInv, Queued, BlockRequest, QueuesSound;
    var s' := s.With(j, b);
    RequestKeepsHistory(c, s.core, s.conns[j].peer.bitfield, b.core.mgr, Some(k));
    HistoryCore(c, s'.core);
    forall l: Pick | InTorrent(c.torrent, l)
      ensures Warranted(StandingOf(s'.core.mgr, l), TimesRequested(c.torrent, s'.conns, l),
                        FailureCount(s'.core.log, l.piece))
    {
      AskedWarranted(c, s, j, k, b, l);
    }
    AskedQueue(c, s.At(j), k, b);
    QueuesUpdate(s, j, b);
  }

  lemma HistoryCore(c: Config, core: Core)
    requires HistoryInv(c, core)
    ensures CoreOk(c, core) && c.torrent.WellFormed()
  {
  }

  lemma WarrantAsked(before: Standing, after: Standing, requests: nat, failures: nat, asked: bool)
    requires Warranted(before, requests, failures)
    requires if asked then (before == Unopened || before == Held(Missing)) && after == Held(Requested)
             else after == before || (before == Unopened && after == Held(Missing))
    ensures Warranted(after, requests + (if asked then 1 else 0), failures)
  {
  }

  // ---- a stored block ----

  lemma StoreStanding(c: Config, s: Manager, p: nat, begin: nat, data: seq<byte>, l: Pick)
    requires Inv(c.torrent, s)
    ensures c.torrent.WellFormed()
    ensures var r, s' := ProcessOutcome(c, s, p, begin, data), AfterProcess(c, s, p, begin, data);
            var before, after := StandingOf(s, l), StandingOf(s', l);
            if l.piece != p || r.Ignored? then after == before
            else if r.Completed? then (before.Held? || before == Unopened) && (before.Held? ==> after == Done)
            else if r.Failed? then (before.Held? && after == Held(Missing)) || before == after == Unopened
            else after == before || (before.Held? && after == Held(Downloaded))
  {
    hide Torrent.WellFormed, Joined, CountDownloaded, GoodPiece, FindBlock;
    ActiveInRange(c.torrent, s, p);
  }

  /** Every block of the torrent stands as held while its piece is active. */
  lemma HeldInActive(t: Torrent, s: Manager, l: Pick)
    requires Inv(t, s) && t.WellFormed() && InTorrent(t, l) && l.piece in s.active
    ensures StandingOf(s, l).Held?
  {
  }

  lemma WarrantTook(before: Standing, after: Standing, requests: nat, failures: nat, failed: bool)
    requires Warranted(before, requests, failures)
    requires if failed then before.Held? && after == Held(Missing)
             else after == before || (before.Held? && (after == Held(Downloaded) || after == Done))
    ensures Warranted(after, requests, failures + if failed then 1 else 0)
  {
  }

  lemma TookKeeps(c: Config, s: System, j: nat, p: nat, begin: nat, data: seq<byte>, b: Local)
    requires j < |s.conns| && SwarmInv(c, s) && HasEffect(c, s.At(j), Took(p, begin, data), b)
    ensures SwarmInv(c, s.With(j, b))
  {
    hide Torrent.WellFormed, Size, BlockCount, Warranted, HistoryInv, StandingOf, TimesRequested, InTorrent,
         OutboundInv, StoreBlock, FailureCount, CoreOk;
    var s' := s.With(j, b);
    assert s'.conns == s.conns;
    StoreBlockKeepsHistory(c, s.core, p, begin, data);
    HistoryCore(c, s'.core);
    forall l: Pick | InTorrent(c.torrent, l)
      ensures Warranted(StandingOf(s'.core.mgr, l), TimesRequested(c.torrent, s'.conns, l),
                        FailureCount(s'.core.log, l.piece))
    {
      TookWarranted(c, s.core, p, begin, data, l, TimesRequested(c.torrent, s.conns, l));
    }
  }

  lemma TookWarranted(c: Config, core: Core, p: nat, begin: nat, data: seq<byte>, l: Pick, requests: nat)
    requires CoreOk(c, core) && c.torrent.WellFormed() && InTorrent(c.torrent, l)
    requires Warranted(StandingOf(core.mgr, l), requests, FailureCount(core.log, l.piece))
    ensures var after := StoreBlock(c, core, p, begin, data);
            Warranted(StandingOf(after.mgr, l), requests, FailureCount(after.log, l.piece))
  {
    hide Torrent.WellFormed, Size, BlockCount, Warranted, StandingOf, InTorrent, ProcessOutcome, AfterProcess, Inv,
         FailureCount, AcceptCount, CompletionCount;
    ActiveInRange(c.torrent, core.mgr, p);
    var r := ProcessOutcome(c, core.mgr, p, begin, data);
    CountEvents(core.log, p, r, l.piece);
    StoreStanding(c, core.mgr, p, begin, data, l);
    AcceptedBlock(c, core.mgr, p, begin, data);
    if l.piece == p && !r.Ignored? {
      HeldInActive(c.torrent, core.mgr, l);
    }
    WarrantTook(StandingOf(core.mgr, l), StandingOf(AfterProcess(c, core.mgr, p, begin, data), l), requests,
                FailureCount(core.log, l.piece), l.piece == p && r.Failed?);
  }

  // ---- a quiet step ----

  lemma QuietCounts(c: Config, s: System, j: nat, b: Local, l: Pick)
    requires j < |s.conns| && QuietConn(s.conns[j], b.conn)
    requires c.torrent.WellFormed() && InTorrent(c.torrent, l)
    ensures TimesRequested(c.torrent, s.With(j, b).conns, l) == TimesRequested(c.torrent, s.conns, l)
  {
    hide Torrent.WellFormed, Size, BlockCount, OutboundInv;
    TotalUpdate(s.conns, j, b.conn, BlockRequest(c.torrent, l));
  }

  lemma QuietKeeps(c: Config, s: System, j: nat, b: Local)
    requires j < |s.conns| && SwarmInv(c, s) && HasEffect(c, s.At(j), Quiet, b)
    ensures SwarmInv(c, s.With(j, b))
  {
    hide Torrent.WellFormed, Size, BlockCount, Warranted, HistoryInv, StandingOf, InTorrent, OutboundInv,
         TimesRequested, QueuesSound;
    var s' := s.With(j, b);
    forall l: Pick | InTorrent(c.torrent, l)
      ensures TimesRequested(c.torrent, s'.conns, l) == TimesRequested(c.torrent, s.conns, l)
    {
      QuietCounts(c, s, j, b, l);
    }
    QueuesUpdate(s, j, b);
  }

  lemma MicroKeeps(c: Config, s: System, s': System, strict: bool)
    requires SwarmInv(c, s) && Micro(c, s, s', strict)
    ensures SwarmInv(c, s')
  {
    hide SwarmInv, HasEffect, Honest, CoreOk;
    var k: nat, e, b :| k < |s.conns| && MicroAt(c, s, k, e, b, strict) && s' == s.With(k, b);
    match e
    case Quiet => QuietKeeps(c, s, k, b);
    case Asked(pick) => AskedKeeps(c, s, k, pick, b);
    case Took(p, begin, data) => TookKeeps(c, s, k, p, begin, data, b);
  }

  lemma {:induction false} PathKeeps(c: Config, path: seq<System>, i: nat, strict: bool)
    requires Path(c, path, strict) && SwarmInv(c, path[0]) && i < |path|
    ensures SwarmInv(c, path[i])
    decreases i
  {
    hide SwarmInv, Micro;
    if i > 0 {
      PathKeeps(c, path, i - 1, strict);
      assert MicroFrom(c, path, i - 1, strict);
      MicroKeeps(c, path[i - 1], path[i], strict);
    }
  }

  /** Every state of every run satisfies the invariant. */
  lemma {:induction false} RunKeeps(c: Config, infoHash: seq<byte>, run: seq<System>, acts: seq<Action>, i: nat)
    requires IsRun(c, infoHash, run, acts) && i < |run|
    ensures SwarmInv(c, run[i])
    decreases i
  {
    hide SwarmInv, Next, Init, Path;
    if i == 0 {
      InitSwarm(c, run[0]);
    } else {
      RunKeeps(c, infoHash, run, acts, i - 1);
      var path := ActionPath(c, infoHash, run[i - 1], acts[i - 1], run[i], false);
      assert path != [] by { PathNonEmpty(c, path, false); }
      PathKeeps(c, path, |path| - 1, false);
    }
  }

  lemma PathNonEmpty(c: Config, path: seq<System>, strict: bool)
    requires Path(c, path, strict)
    ensures path != []
  {
  }
}
