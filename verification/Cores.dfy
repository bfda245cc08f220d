/** The state all connections share, the steps that change it, and what its history says. */
module Cores {
  import opened Bytes
  import opened Disks
  import opened Pieces
  import opened Torrents
  import opened Wrappers

  /** What the manager has decided so far. `Finished` keeps the bytes that were hashed. */
  datatype Event =
    | Accepted(piece: nat)
    | HashFailed(piece: nat)
    | Finished(piece: nat, content: seq<byte>)

  /** The manager, the flat disk image, the history of decisions and the writes made so far. */
  datatype Core = Core(mgr: Manager, image: seq<byte>, log: seq<Event>, writes: seq<Write>)

  ghost predicate CoreOk(c: Config, core: Core) {
    Inv(c.torrent, core.mgr) && |core.image| == c.torrent.TotalSize()
  }

  function EventsOf(p: nat, r: Outcome): seq<Event> {
    match r
    case Ignored => []
    case Stored(_) => [Accepted(p)]
    case Failed(_) => [Accepted(p), HashFailed(p)]
    case Completed(_, content) => [Accepted(p), Finished(p, content)]
  }

  /** Where byte `begin` of piece `p` lies in the torrent. */
  function Place(t: Torrent, p: nat, begin: nat): (g: nat)
    requires t.WellFormed()
  {
    p * t.pieceLength + begin
  }

  /** A block is written to disk, whatever it is, and then handed to the manager. */
  ghost function StoreBlock(c: Config, core: Core, p: nat, begin: nat, data: seq<byte>): Core
    requires CoreOk(c, core)
  {
    Core(
      AfterProcess(c, core.mgr, p, begin, data),
      Patch(core.image, Place(c.torrent, p, begin), data),
      core.log + EventsOf(p, ProcessOutcome(c, core.mgr, p, begin, data)),
      core.writes + [Write(Place(c.torrent, p, begin), data)])
  }

  lemma StoreBlockOk(c: Config, core: Core, p: nat, begin: nat, data: seq<byte>)
    requires CoreOk(c, core)
    ensures CoreOk(c, StoreBlock(c, core, p, begin, data))
  {
    hide Inv, AfterProcess;
    ProcessKeepsInv(c, core.mgr, p, begin, data);
  }

  // ---- counting the history ----

  function AcceptCount(log: seq<Event>, p: nat): nat {
    if log == [] then 0
    else AcceptCount(log[..|log| - 1], p) + (if log[|log| - 1] == Accepted(p) then 1 else 0)
  }

  function FailureCount(log: seq<Event>, p: nat): nat {
    if log == [] then 0
    else FailureCount(log[..|log| - 1], p) + (if log[|log| - 1] == HashFailed(p) then 1 else 0)
  }

  function CompletionCount(log: seq<Event>, p: nat): nat {
    if log == [] then 0
    else
      var e := log[|log| - 1];
      CompletionCount(log[..|log| - 1], p) + (if e.Finished? && e.piece == p then 1 else 0)
  }

  lemma CountOne(log: seq<Event>, e: Event, p: nat)
    ensures AcceptCount(log + [e], p) == AcceptCount(log, p) + if e == Accepted(p) then 1 else 0
    ensures FailureCount(log + [e], p) == FailureCount(log, p) + if e == HashFailed(p) then 1 else 0
    ensures CompletionCount(log + [e], p) == CompletionCount(log, p) + if e.Finished? && e.piece == p then 1 else 0
  {
    assert (log + [e])[..|log + [e]| - 1] == log;
  }

  lemma CountEvents(log: seq<Event>, p: nat, r: Outcome, q: nat)
    ensures var after := log + EventsOf(p, r);
            && AcceptCount(after, q) == AcceptCount(log, q) + (if q == p && !r.Ignored? then 1 else 0)
            && FailureCount(after, q) == FailureCount(log, q) + (if q == p && r.Failed? then 1 else 0)
            && CompletionCount(after, q) == CompletionCount(log, q) + (if q == p && r.Completed? then 1 else 0)
  {
    match r
    case Ignored => assert log + [] == log;
    case Stored(_) => CountOne(log, Accepted(p), q);
    case Failed(_) =>
      CountOne(log, Accepted(p), q);
      CountOne(log + [Accepted(p)], HashFailed(p), q);
      assert log + EventsOf(p, r) == log + [Accepted(p)] + [HashFailed(p)];
    case Completed(_, content) =>
      CountOne(log, Accepted(p), q);
      CountOne(log + [Accepted(p)], Finished(p, content), q);
      assert log + EventsOf(p, r) == log + [Accepted(p)] + [Finished(p, content)];
  }

  /** The blocks of `p` counted as downloaded at the moment. */
  function InHand(s: Manager, p: nat): nat {
    if p in s.active then s.active[p].blocksDownloaded else 0
  }

  /** Every accepted block of a piece is accounted for: it went into a failed attempt, into the
      completion of the piece, or is still in hand. A piece completes at most once, and one that
      was never opened has no failures. */
  predicate Balance(blocks: nat, accepts: nat, failures: nat, completions: nat, inHand: nat, done: bool, active: bool) {
    && accepts == blocks * (failures + completions) + inHand
    && completions == (if done then 1 else 0)
    && (!active && !done ==> failures == 0)
    && (!active ==> inHand == 0)
  }

  ghost predicate Balanced(c: Config, core: Core, p: nat)
    requires CoreOk(c, core) && p < |c.torrent.pieces|
  {
    Balance(BlockCount(Size(c.torrent, p)),
            AcceptCount(core.log, p), FailureCount(core.log, p), CompletionCount(core.log, p),
            InHand(core.mgr, p), core.mgr.completed[p], p in core.mgr.active)
  }

  /** Every completion is of a real piece and its bytes have the expected hash. */
  ghost predicate HashesMatch(c: Config, core: Core)
    requires CoreOk(c, core)
  {
    forall p: nat, content :: Finished(p, content) in core.log ==>
      p < |c.torrent.pieces| && core.mgr.completed[p] && c.sha1(content) == c.torrent.pieces[p]
  }

  ghost predicate HistoryInv(c: Config, core: Core) {
    && CoreOk(c, core)
    && (forall p: nat :: p < |c.torrent.pieces| ==> Balanced(c, core, p))
    && HashesMatch(c, core)
  }

  lemma BalanceAccepts(blocks: nat, accepts: nat, failures: nat, completions: nat, inHand: nat, r: Outcome)
    requires Balance(blocks, accepts, failures, completions, inHand, false, true)
    requires r.Failed? || r.Completed? ==> inHand + 1 == blocks
    ensures match r
            case Ignored => true
            case Stored(_) => Balance(blocks, accepts + 1, failures, completions, inHand + 1, false, true)
            case Failed(_) => Balance(blocks, accepts + 1, failures + 1, completions, 0, false, true)
            case Completed(_, _) => Balance(blocks, accepts + 1, failures, completions + 1, 0, true, false)
  {
    assert blocks * (failures + 1) == blocks * failures + blocks;
  }

  lemma BalanceOpens(blocks: nat, accepts: nat, failures: nat, completions: nat, inHand: nat, done: bool, active: bool)
    requires Balance(blocks, accepts, failures, completions, inHand, done, active)
    ensures Balance(blocks, accepts, failures, completions, inHand, done, true)
  {
  }

  /** What a block does to the standing of piece `q`. */
  lemma StoreBlockInHand(c: Config, s: Manager, p: nat, begin: nat, data: seq<byte>, q: nat)
    requires Inv(c.torrent, s) && q < |c.torrent.pieces|
    ensures |s.completed| == |c.torrent.pieces|
    ensures var r, s' := ProcessOutcome(c, s, p, begin, data), AfterProcess(c, s, p, begin, data);
            && |s'.completed| == |s.completed|
            && (if q != p || r.Ignored? then
                  && InHand(s', q) == InHand(s, q)
                  && (q in s'.active <==> q in s.active)
                  && s'.completed[q] == s.completed[q]
                else
                  && q in s.active && !s.completed[q]
                  && (q in s'.active <==> !r.Completed?)
                  && (s'.completed[q] <==> r.Completed?)
                  && InHand(s', q) == (if r.Stored? then InHand(s, q) + 1 else 0)
                  && (!r.Stored? ==> InHand(s, q) + 1 == BlockCount(Size(c.torrent, q))))
  {
    hide Torrent.WellFormed, Joined, CountDownloaded, Cleared, FindBlock, Inv;
    ActiveInRange(c.torrent, s, p);
  }

  lemma StoreBlockBalanced(c: Config, core: Core, p: nat, begin: nat, data: seq<byte>, q: nat)
    requires CoreOk(c, core) && q < |c.torrent.pieces| && Balanced(c, core, q)
    ensures CoreOk(c, StoreBlock(c, core, p, begin, data))
    ensures Balanced(c, StoreBlock(c, core, p, begin, data), q)
  {
    hide Torrent.WellFormed, Inv, ProcessOutcome, AfterProcess, Patch, InHand, Size, BlockCount, AcceptCount,
         FailureCount, CompletionCount, Balance;
    StoreBlockOk(c, core, p, begin, data);
    ActiveInRange(c.torrent, core.mgr, p);
    var r := ProcessOutcome(c, core.mgr, p, begin, data);
    CountEvents(core.log, p, r, q);
    StoreBlockInHand(c, core.mgr, p, begin, data, q);
    if q == p && !r.Ignored? {
      var blocks := BlockCount(Size(c.torrent, p));
      BalanceAccepts(blocks, AcceptCount(core.log, p), FailureCount(core.log, p), CompletionCount(core.log, p),
                     InHand(core.mgr, p), r);
    }
  }

  /** Conservation of accepted blocks, and a matching hash for every completion, survive any
      block. */
  lemma StoreBlockKeepsHistory(c: Config, core: Core, p: nat, begin: nat, data: seq<byte>)
    requires HistoryInv(c, core)
    ensures HistoryInv(c, StoreBlock(c, core, p, begin, data))
  {
    hide Balanced, Inv, AfterProcess, Patch, CoreOk, ProcessOutcome;
    StoreBlockOk(c, core, p, begin, data);
    var after := StoreBlock(c, core, p, begin, data);
    forall q: nat | q < |c.torrent.pieces|
      ensures Balanced(c, after, q)
    {
      StoreBlockBalanced(c, core, p, begin, data, q);
    }
    StoreBlockHashes(c, core, p, begin, data);
  }

  lemma StoreBlockHashes(c: Config, core: Core, p: nat, begin: nat, data: seq<byte>)
    requires CoreOk(c, core) && HashesMatch(c, core)
    ensures CoreOk(c, StoreBlock(c, core, p, begin, data))
    ensures HashesMatch(c, StoreBlock(c, core, p, begin, data))
  {
    hide Torrent.WellFormed, Inv, ProcessOutcome, AfterProcess, Patch, InHand, Size, BlockCount;
    StoreBlockOk(c, core, p, begin, data);
    CompletedHash(c, core.mgr, p, begin, data);
    var after := StoreBlock(c, core, p, begin, data);
    ActiveInRange(c.torrent, core.mgr, p);
    ActiveInRange(c.torrent, after.mgr, p);
    forall q: nat, content | Finished(q, content) in after.log
      ensures q < |c.torrent.pieces| && after.mgr.completed[q] && c.sha1(content) == c.torrent.pieces[q]
    {
      assert Finished(q, content) in core.log
             || Finished(q, content) in EventsOf(p, ProcessOutcome(c, core.mgr, p, begin, data));
      StoreBlockInHand(c, core.mgr, p, begin, data, q);
    }
  }

  lemma CompletedHash(c: Config, s: Manager, p: nat, begin: nat, data: seq<byte>)
    requires Inv(c.torrent, s)
    ensures var r := ProcessOutcome(c, s, p, begin, data);
            r.Completed? ==> p < |c.torrent.pieces| && c.sha1(r.content) == c.torrent.pieces[p]
  {
  }

  /** Requesting a block touches neither the disk nor the history. */
  lemma RequestKeepsHistory(c: Config, core: Core, bits: seq<byte>, mgr: Manager, r: Option<Pick>)
    requires HistoryInv(c, core) && RequestStep(c.torrent, core.mgr, bits, mgr, r)
    ensures HistoryInv(c, core.(mgr := mgr))
  {
    hide Balanced, Inv;
    RequestStepKeepsInv(c.torrent, core.mgr, bits, mgr, r);
    var after := core.(mgr := mgr);
    assert mgr.completed == core.mgr.completed by {
      if r.Some? {
        RequestStepEffect(c.torrent, core.mgr, bits, mgr, r.value);
      }
    }
    forall q: nat | q < |c.torrent.pieces|
      ensures Balanced(c, after, q)
    {
      RequestBalanced(c, core, bits, mgr, r, q);
    }
    assert HashesMatch(c, after);
  }

  lemma RequestBalanced(c: Config, core: Core, bits: seq<byte>, mgr: Manager, r: Option<Pick>, q: nat)
    requires CoreOk(c, core) && RequestStep(c.torrent, core.mgr, bits, mgr, r)
    requires q < |c.torrent.pieces| && Balanced(c, core, q)
    ensures CoreOk(c, core.(mgr := mgr)) && Balanced(c, core.(mgr := mgr), q)
  {
    RequestStepKeepsInv(c.torrent, core.mgr, bits, mgr, r);
    if r.Some? {
      RequestInHand(c.torrent, core.mgr, bits, mgr, r.value, q);
      hide Torrent.WellFormed, Inv, AcceptCount, FailureCount, CompletionCount, MayPick, InHand, RequestStep, Size,
           BlockCount, Balance;
      if q in mgr.active {
        BalanceOpens(BlockCount(Size(c.torrent, q)), AcceptCount(core.log, q), FailureCount(core.log, q),
                     CompletionCount(core.log, q), InHand(core.mgr, q), core.mgr.completed[q], q in core.mgr.active);
      }
    }
  }

  /** The piece a block is requested of is not completed, and has nothing in hand when it is opened. */
  lemma RequestPicksOpen(t: Torrent, s: Manager, bits: seq<byte>, s': Manager, k: Pick)
    requires RequestStep(t, s, bits, s', Some(k))
    ensures k.piece < |s.completed| && !s.completed[k.piece]
    ensures t.WellFormed() && k.piece < |t.pieces|
    ensures k.piece !in s.active ==> Opened(t, s, k.piece).active[k.piece].blocksDownloaded == 0
  {
    PickInRange(t, s, bits, k);
  }

  /** Opening a piece or requesting a block leaves the number of downloaded blocks alone. */
  lemma RequestInHand(t: Torrent, s: Manager, bits: seq<byte>, s': Manager, k: Pick, q: nat)
    requires RequestStep(t, s, bits, s', Some(k))
    ensures InHand(s', q) == InHand(s, q)
    ensures q in s.active ==> q in s'.active
    ensures q in s'.active && q !in s.active ==> q < |s.completed| && !s.completed[q]
    ensures s'.completed == s.completed
  {
    hide Torrent.WellFormed, Inv, MayPick, RequestStep, Size, BlockCount, FreshBlocks;
    RequestStepEffect(t, s, bits, s', k);
    RequestPicksOpen(t, s, bits, s', k);
  }
}
