/** The main results about runs of the engine. */
module SwarmTheorems {
  import opened Agreement
  import opened Bytes
  import opened Connections
  import opened Cores
  import opened Messages
  import opened Pieces
  import opened Streams
  import opened Swarm
  import opened SwarmInvariants
  import opened SwarmSteps
  import opened Torrents
  import opened Wrappers

  lemma ReachedOk(c: Config, infoHash: seq<byte>, run: seq<System>, acts: seq<Action>, i: nat)
    requires IsRun(c, infoHash, run, acts) && i < |run|
    ensures SwarmInv(c, run[i]) && CoreOk(c, run[i].core) && c.torrent.WellFormed()
    ensures |run[i].core.mgr.completed| == |c.torrent.pieces|
  {
    hide IsRun, CoreOk, Torrent.WellFormed, Inv;
    RunKeeps(c, infoHash, run, acts, i);
    assert CoreOk(c, run[i].core);
    CoreRange(c, run[i].core);
  }

  lemma CoreRange(c: Config, core: Core)
    requires CoreOk(c, core)
    ensures |core.mgr.completed| == |c.torrent.pieces| && Inv(c.torrent, core.mgr)
  {
  }

  /** Conservation: in every state of every run, the blocks accepted for a piece are those of its
      failed attempts, of its completion and of the attempt in hand; no piece completes twice, and
      a completion has the expected hash. */
  lemma AcceptedBlocksConserved(c: Config, infoHash: seq<byte>, run: seq<System>, acts: seq<Action>, i: nat, p: nat)
    requires IsRun(c, infoHash, run, acts) && i < |run| && p < |c.torrent.pieces|
    ensures c.torrent.WellFormed() && |run[i].core.mgr.completed| == |c.torrent.pieces|
    ensures var core := run[i].core;
            && AcceptCount(core.log, p) ==
               BlockCount(Size(c.torrent, p)) * (FailureCount(core.log, p) + CompletionCount(core.log, p))
               + InHand(core.mgr, p)
            && CompletionCount(core.log, p) <= 1
            && (core.mgr.completed[p] <==> CompletionCount(core.log, p) == 1)
            && forall content :: Finished(p, content) in core.log ==> c.sha1(content) == c.torrent.pieces[p]
  {
    hide IsRun, HistoryInv, RequestsWarranted, QueuesSound, Torrent.WellFormed, Inv, Size, BlockCount, CoreOk,
         AcceptCount, FailureCount, CompletionCount, InHand;
    ReachedOk(c, infoHash, run, acts, i);
    HistoryMeans(c, run[i].core, p);
  }

  lemma HistoryMeans(c: Config, core: Core, p: nat)
    requires HistoryInv(c, core) && p < |c.torrent.pieces|
    ensures c.torrent.WellFormed() && |core.mgr.completed| == |c.torrent.pieces|
    ensures AcceptCount(core.log, p) ==
            BlockCount(Size(c.torrent, p)) * (FailureCount(core.log, p) + CompletionCount(core.log, p))
            + InHand(core.mgr, p)
    ensures CompletionCount(core.log, p) == if core.mgr.completed[p] then 1 else 0
    ensures forall content :: Finished(p, content) in core.log ==> c.sha1(content) == c.torrent.pieces[p]
  {
    hide Torrent.WellFormed, Size, BlockCount, InHand, AcceptCount, FailureCount, CompletionCount;
    ActiveInRange(c.torrent, core.mgr, p);
    assert Balanced(c, core, p);
  }

  /** Request bound: over all connections a block is requested at most once more than its piece has
      failed its hash. */
  lemma RequestBound(c: Config, infoHash: seq<byte>, run: seq<System>, acts: seq<Action>, i: nat, k: Pick)
    requires IsRun(c, infoHash, run, acts) && i < |run|
    requires c.torrent.WellFormed() && InTorrent(c.torrent, k)
    ensures TimesRequested(c.torrent, run[i].conns, k) <= 1 + FailureCount(run[i].core.log, k.piece)
  {
    hide IsRun, Torrent.WellFormed, HistoryInv, QueuesSound, InTorrent, StandingOf, TimesRequested, CoreOk, Inv, Size,
         BlockCount, FailureCount;
    ReachedOk(c, infoHash, run, acts, i);
  }

  /** Every block in state Requested has its Request frame on the wire of some connection, whole and
      at a frame boundary. */
  lemma RequestedIsOnWire(c: Config, infoHash: seq<byte>, run: seq<System>, acts: seq<Action>, i: nat, k: Pick)
    returns (n: nat, before: seq<byte>, after: seq<byte>)
    requires IsRun(c, infoHash, run, acts) && i < |run|
    requires c.torrent.WellFormed() && InTorrent(c.torrent, k) && StandingOf(run[i].core.mgr, k) == Held(Requested)
    ensures n < |run[i].conns| && Frameable(BlockRequest(c.torrent, k))
    ensures run[i].conns[n].Outbound() == before + Serialize(BlockRequest(c.torrent, k)) + after
    ensures exists j: nat :: j <= |run[i].conns[n].queued| && AllFrameable(run[i].conns[n].queued[..j])
                             && before == run[i].conns[n].hello + Wire(run[i].conns[n].queued[..j])
  {
    ReachedOk(c, infoHash, run, acts, i);
    hide IsRun, Torrent.WellFormed, HistoryInv, Size, BlockCount, StandingOf, CoreOk, BlockRequest;
    assert TimesRequested(c.torrent, run[i].conns, k) > 0;
    var j: nat;
    n, j := TotalPositive(run[i].conns, BlockRequest(c.torrent, k));
    before, after := QueuedOnWire(run[i].conns[n], j);
  }

  // ---- once completed ----

  /** A completed piece stays completed, its blocks are not requested again, and the history only
      grows. */
  ghost predicate Settles(c: Config, s: System, s': System) {
    && |s'.core.mgr.completed| == |s.core.mgr.completed|
    && s.core.log <= s'.core.log
    && forall k: Pick :: c.torrent.WellFormed() && InTorrent(c.torrent, k) && StandingOf(s.core.mgr, k) == Done ==>
         && StandingOf(s'.core.mgr, k) == Done
         && TimesRequested(c.torrent, s'.conns, k) == TimesRequested(c.torrent, s.conns, k)
  }

  lemma SettlesTwice(c: Config, x: System, y: System, z: System)
    requires Settles(c, x, y) && Settles(c, y, z)
    ensures Settles(c, x, z)
  {
    hide InTorrent, StandingOf, TimesRequested;
  }

  lemma SettlesSame(c: Config, x: System)
    ensures Settles(c, x, x)
  {
    hide InTorrent, StandingOf, TimesRequested;
  }

  lemma AskedSettles(c: Config, s: System, j: nat, k: Pick, b: Local)
    requires j < |s.conns| && CoreOk(c, s.core) && HasEffect(c, s.At(j), Asked(k), b)
    ensures Settles(c, s, s.With(j, b))
  {
    hide Torrent.WellFormed, Size, BlockCount, RequestStep, InTorrent, Queued, BlockRequest, StandingOf, TimesRequested;
    RequestStepEffect(c.torrent, s.core.mgr, s.conns[j].peer.bitfield, b.core.mgr, k);
    forall l: Pick | c.torrent.WellFormed() && InTorrent(c.torrent, l) && StandingOf(s.core.mgr, l) == Done
      ensures StandingOf(b.core.mgr, l) == Done
      ensures TimesRequested(c.torrent, s.With(j, b).conns, l) == TimesRequested(c.torrent, s.conns, l)
    {
      AskedCounts(c, s, j, k, b, l);
      RequestStanding(c.torrent, s.core.mgr, s.conns[j].peer.bitfield, b.core.mgr, k, l);
    }
  }

  lemma TookSettles(c: Config, s: System, j: nat, p: nat, begin: nat, data: seq<byte>, b: Local)
    requires j < |s.conns| && CoreOk(c, s.core) && HasEffect(c, s.At(j), Took(p, begin, data), b)
    ensures Settles(c, s, s.With(j, b))
  {
    hide Torrent.WellFormed, Size, BlockCount, InTorrent, StandingOf, TimesRequested, ProcessOutcome, AfterProcess, Inv;
    assert s.With(j, b).conns == s.conns;
    ActiveInRange(c.torrent, s.core.mgr, p);
    StoreBlockOk(c, s.core, p, begin, data);
    CoreRange(c, b.core);
    AcceptedBlock(c, s.core.mgr, p, begin, data);
    forall l: Pick | InTorrent(c.torrent, l) && StandingOf(s.core.mgr, l) == Done
      ensures StandingOf(b.core.mgr, l) == Done
    {
      StoreStanding(c, s.core.mgr, p, begin, data, l);
      DoneIsIdle(s.core.mgr, l);
    }
  }

  lemma DoneIsIdle(s: Manager, l: Pick)
    requires StandingOf(s, l) == Done
    ensures l.piece !in s.active && l.piece < |s.completed| && s.completed[l.piece]
  {
  }

  lemma QuietSettles(c: Config, s: System, j: nat, b: Local)
    requires j < |s.conns| && HasEffect(c, s.At(j), Quiet, b)
    ensures Settles(c, s, s.With(j, b))
  {
    hide Torrent.WellFormed, InTorrent, StandingOf, TimesRequested, OutboundInv;
    forall l: Pick | c.torrent.WellFormed() && InTorrent(c.torrent, l)
      ensures TimesRequested(c.torrent, s.With(j, b).conns, l) == TimesRequested(c.torrent, s.conns, l)
    {
      QuietCounts(c, s, j, b, l);
    }
  }

  lemma MicroSettles(c: Config, s: System, s': System, strict: bool)
    requires SwarmInv(c, s) && Micro(c, s, s', strict)
    ensures Settles(c, s, s')
  {
    hide HasEffect, Honest, Settles, HistoryInv, QueuesSound, CoreOk;
    var k: nat, e, b :| k < |s.conns| && MicroAt(c, s, k, e, b, strict) && s' == s.With(k, b);
    match e
    case Quiet => QuietSettles(c, s, k, b);
    case Asked(pick) => AskedSettles(c, s, k, pick, b);
    case Took(p, begin, data) => TookSettles(c, s, k, p, begin, data, b);
  }

  lemma {:induction false} PathSettles(c: Config, path: seq<System>, i: nat, strict: bool)
    requires Path(c, path, strict) && SwarmInv(c, path[0]) && i < |path|
    ensures Settles(c, path[0], path[i])
    decreases i
  {
    hide SwarmInv, Micro, Settles;
    if i == 0 {
      SettlesSame(c, path[0]);
    } else {
      PathSettles(c, path, i - 1, strict);
      PathKeeps(c, path, i - 1, strict);
      assert MicroFrom(c, path, i - 1, strict);
      MicroSettles(c, path[i - 1], path[i], strict);
      SettlesTwice(c, path[0], path[i - 1], path[i]);
    }
  }

  lemma {:induction false} RunSettles(c: Config, infoHash: seq<byte>, run: seq<System>, acts: seq<Action>, i: nat,
                                      j: nat)
    requires IsRun(c, infoHash, run, acts) && i <= j < |run|
    ensures Settles(c, run[i], run[j])
    decreases j
  {
    hide SwarmInv, Next, Init, Path, Settles;
    if i == j {
      SettlesSame(c, run[i]);
    } else {
      RunSettles(c, infoHash, run, acts, i, j - 1);
      RunKeeps(c, infoHash, run, acts, j - 1);
      var path := ActionPath(c, infoHash, run[j - 1], acts[j - 1], run[j], false);
      PathNonEmpty(c, path, false);
      PathSettles(c, path, |path| - 1, false);
      SettlesTwice(c, run[i], run[j - 1], run[j]);
    }
  }

  /** Once a piece is completed it stays completed and none of its blocks is ever requested again,
      on any connection. */
  lemma NeverRequestedAgain(c: Config, infoHash: seq<byte>, run: seq<System>, acts: seq<Action>, i: nat, j: nat,
                            k: Pick)
    requires IsRun(c, infoHash, run, acts) && i <= j < |run|
    requires c.torrent.WellFormed() && InTorrent(c.torrent, k) && StandingOf(run[i].core.mgr, k) == Done
    ensures StandingOf(run[j].core.mgr, k) == Done
    ensures TimesRequested(c.torrent, run[j].conns, k) == TimesRequested(c.torrent, run[i].conns, k)
  {
    hide IsRun, Torrent.WellFormed, InTorrent, StandingOf, TimesRequested;
    RunSettles(c, infoHash, run, acts, i, j);
  }

  // ---- the disk ----

  lemma RequestKeepsAgreement(c: Config, core: Core, bits: seq<byte>, mgr: Manager, k: Pick)
    requires Agree(c, core) && RequestStep(c.torrent, core.mgr, bits, mgr, Some(k))
    ensures Agree(c, core.(mgr := mgr))
  {
    hide Torrent.WellFormed, Inv, RequestStep, PieceAgrees, BlockBytes, Size, BlockCount, DownloadedAt;
    var after := core.(mgr := mgr);
    RequestStepKeepsInv(c.torrent, core.mgr, bits, mgr, Some(k));
    forall u: nat, b: nat | DownloadedAt(mgr, u, b)
      ensures BlockAgrees(c, after, u, b)
    {
      RequestDownloads(c.torrent, core.mgr, bits, mgr, k, u, b);
      assert BlockAgrees(c, core, u, b);
    }
    forall u: nat, content | Finished(u, content) in after.log
      ensures PieceAgrees(c, after, u, content)
    {
      assert PieceAgrees(c, core, u, content);
      SamePieceAgrees(c, core, after, u, content);
    }
  }

  lemma SamePieceAgrees(c: Config, x: Core, y: Core, u: nat, content: seq<byte>)
    requires CoreOk(c, x) && CoreOk(c, y) && x.image == y.image && PieceAgrees(c, x, u, content)
    ensures PieceAgrees(c, y, u, content)
  {
  }

  /** A request downloads nothing. */
  lemma RequestDownloads(t: Torrent, s: Manager, bits: seq<byte>, s': Manager, k: Pick, u: nat, b: nat)
    requires RequestStep(t, s, bits, s', Some(k)) && DownloadedAt(s', u, b)
    ensures DownloadedAt(s, u, b) && s'.active[u].blocks[b] == s.active[u].blocks[b]
  {
    hide Torrent.WellFormed, MayPick, RequestStep, Inv;
    RequestStepEffect(t, s, bits, s', k);
    RequestOpens(t, s, bits, s', k);
  }

  lemma MicroAgrees(c: Config, s: System, s': System)
    requires Agree(c, s.core) && Micro(c, s, s', true)
    ensures Agree(c, s'.core)
  {
    hide Agree, Honest, QuietConn, Queued, BlockRequest;
    var k: nat, e, b :| k < |s.conns| && MicroAt(c, s, k, e, b, true) && s' == s.With(k, b);
    match e
    case Quiet =>
    case Asked(pick) => RequestKeepsAgreement(c, s.core, s.conns[k].peer.bitfield, b.core.mgr, pick);
    case Took(p, begin, data) => HonestKeepsAgreement(c, s.core, p, begin, data);
  }

  lemma {:induction false} PathAgrees(c: Config, path: seq<System>, i: nat)
    requires Path(c, path, true) && Agree(c, path[0].core) && i < |path|
    ensures Agree(c, path[i].core)
    decreases i
  {
    hide Agree, Micro;
    if i > 0 {
      PathAgrees(c, path, i - 1);
      assert MicroFrom(c, path, i - 1, true);
      MicroAgrees(c, path[i - 1], path[i]);
    }
  }

  ghost predicate HonestRun(c: Config, run: seq<System>, acts: seq<Action>) {
    forall i: nat :: i < |acts| && i < |run| ==> HonestAction(c, run[i], acts[i])
  }

  lemma InitAgrees(c: Config, s: System)
    requires Init(c, s)
    ensures Agree(c, s.core)
  {
    InitInv(c.torrent);
    hide Torrent.WellFormed, Inv;
  }

  lemma {:induction false} RunAgrees(c: Config, infoHash: seq<byte>, run: seq<System>, acts: seq<Action>, i: nat)
    requires IsRun(c, infoHash, run, acts) && HonestRun(c, run, acts) && i < |run|
    ensures Agree(c, run[i].core)
    decreases i
  {
    hide Agree, Next, Init, Path, HonestAction;
    if i == 0 {
      InitAgrees(c, run[0]);
    } else {
      RunAgrees(c, infoHash, run, acts, i - 1);
      var path := ActionPath(c, infoHash, run[i - 1], acts[i - 1], run[i], true);
      PathNonEmpty(c, path, true);
      PathAgrees(c, path, |path| - 1);
    }
  }

  // ---- the other direction ----

  /** A request drops nothing that is downloaded. */
  lemma RequestKeepsDownloads(t: Torrent, s: Manager, bits: seq<byte>, s': Manager, k: Pick, u: nat, b: nat)
    requires RequestStep(t, s, bits, s', Some(k)) && DownloadedAt(s, u, b)
    ensures DownloadedAt(s', u, b) && s'.active[u].blocks[b] == s.active[u].blocks[b]
  {
    hide Torrent.WellFormed, MayPick, RequestStep, Inv;
    RequestStepEffect(t, s, bits, s', k);
    RequestOpens(t, s, bits, s', k);
  }

  /** Agreement after a request was there before it. */
  lemma RequestReflectsAgreement(c: Config, core: Core, bits: seq<byte>, mgr: Manager, k: Pick)
    requires CoreOk(c, core) && RequestStep(c.torrent, core.mgr, bits, mgr, Some(k))
    requires Agree(c, core.(mgr := mgr))
    ensures Agree(c, core)
  {
    var after := core.(mgr := mgr);
    hide Torrent.WellFormed, Inv, RequestStep, PieceAgrees, BlockBytes, Size, BlockCount;
    forall u: nat, b: nat | DownloadedAt(core.mgr, u, b)
      ensures BlockAgrees(c, core, u, b)
    {
      RequestKeepsDownloads(c.torrent, core.mgr, bits, mgr, k, u, b);
      assert BlockAgrees(c, after, u, b);
    }
    forall u: nat, content | Finished(u, content) in core.log
      ensures PieceAgrees(c, core, u, content)
    {
      assert PieceAgrees(c, after, u, content);
      SamePieceAgrees(c, after, core, u, content);
    }
  }

  lemma {:induction false} RequestsReflectAgreement(c: Config, a: Local, n: nat, b: Local)
    requires Requests(c, a, n, b) && Agree(c, b.core)
    ensures Agree(c, a.core)
    decreases n
  {
    hide RequestOne, Agree;
    if n > 0 {
      var mid, k :| Requests(c, a, n - 1, mid) && RequestOne(c, mid, k, b);
      RequestOneReflects(c, mid, k, b);
      RequestsReflectAgreement(c, a, n - 1, mid);
    }
  }

  lemma RequestOneReflects(c: Config, a: Local, k: Pick, b: Local)
    requires RequestOne(c, a, k, b) && Agree(c, b.core)
    ensures Agree(c, a.core)
  {
    hide RequestOne, Agree, CoreOk, RequestStep;
    AgreeIsOk(c, b.core);
    RequestFromOk(c, a, k, b);
    RequestReflectsAgreement(c, a.core, a.conn.peer.bitfield, b.core.mgr, k);
  }

  lemma AgreeIsOk(c: Config, core: Core)
    requires Agree(c, core)
    ensures CoreOk(c, core)
  {
    hide Inv;
  }

  lemma RequestFromOk(c: Config, a: Local, k: Pick, b: Local)
    requires RequestOne(c, a, k, b) && CoreOk(c, b.core)
    ensures CoreOk(c, a.core) && b.core == a.core.(mgr := b.core.mgr)
    ensures RequestStep(c.torrent, a.core.mgr, a.conn.peer.bitfield, b.core.mgr, Some(k))
  {
    hide Torrent.WellFormed, MayPick, Queued;
  }

  /** If the disk agrees before and after a message, the block it carries was honest. */
  lemma MessageReflectsAgreement(c: Config, a: Local, m: PeerMessage, b: Local)
    requires MessageStep(c, a, m, b) && Agree(c, a.core) && Agree(c, b.core)
    ensures HonestMessage(c, a.core, m)
  {
    hide Agree, Honest, RequestNext, CoreOk, StoreBlock, PieceIndex, PieceBegin, PieceData;
    if CarriesBlock(m) {
      var p, begin, data := PieceIndex(m), PieceBegin(m), PieceData(m);
      var stored := a.(core := StoreBlock(c, a.core, p, begin, data));
      RequestNextReflects(c, stored, b);
      AgreementExactly(c, a.core, p, begin, data);
    }
  }

  lemma RequestNextReflects(c: Config, a: Local, b: Local)
    requires RequestNext(c, a, b) && Agree(c, b.core)
    ensures Agree(c, a.core)
  {
    hide Agree, Requests, NothingToRequest;
    if !a.conn.peer.peerChoking {
      var n :| RequestedUpTo(c, a, n, b);
      RequestsReflectAgreement(c, a, n, b);
    }
  }

  lemma ActionReflectsAgreement(c: Config, infoHash: seq<byte>, s: System, act: Action, s': System)
    requires Next(c, infoHash, s, act, s') && Agree(c, s.core) && Agree(c, s'.core)
    ensures HonestAction(c, s, act)
  {
    hide Agree, HonestMessage, MessageStep, Greet;
    if act.Deliver? && ParseMessage(s.conns[act.k].reader.buffer).Frame? {
      var b :| LocalStep(c, infoHash, s.At(act.k), act, b) && s' == s.With(act.k, b);
      var m := ParseMessage(s.conns[act.k].reader.buffer).message;
      var mid :| MessageStep(c, s.At(act.k), m, mid) && b == WithReader(mid, TakeOne(s.conns[act.k].reader));
      MessageReflectsAgreement(c, s.At(act.k), m, mid);
    }
  }

  /** The disk agrees in every state of a run if and only if every block delivered in it is honest. */
  lemma RunAgreesExactly(c: Config, infoHash: seq<byte>, run: seq<System>, acts: seq<Action>)
    requires IsRun(c, infoHash, run, acts)
    ensures (forall i: nat :: i < |run| ==> Agree(c, run[i].core)) <==> HonestRun(c, run, acts)
  {
    hide Agree, Next, Init, HonestAction;
    if HonestRun(c, run, acts) {
      forall i: nat | i < |run|
        ensures Agree(c, run[i].core)
      {
        RunAgrees(c, infoHash, run, acts, i);
      }
    }
    if forall i: nat :: i < |run| ==> Agree(c, run[i].core) {
      forall i: nat | i < |acts| && i < |run|
        ensures HonestAction(c, run[i], acts[i])
      {
        ActionReflectsAgreement(c, infoHash, run[i], acts[i], run[i + 1]);
      }
    }
  }

  // ---- completed pieces ----

  lemma {:induction false} CompletionRecorded(log: seq<Event>, p: nat) returns (content: seq<byte>)
    requires CompletionCount(log, p) > 0
    ensures Finished(p, content) in log
  {
    var e := log[|log| - 1];
    if e.Finished? && e.piece == p {
      content := e.content;
    } else {
      content := CompletionRecorded(log[..|log| - 1], p);
    }
  }

  /** Disk agrees with verification: in a run whose blocks are honest, the bytes on disk of a piece
      that is completed have its expected hash, from the state in which it completes onwards, and
      they never change again. Every downloaded block's data is on disk in its place. */
  lemma DiskAgreesWithVerification(c: Config, infoHash: seq<byte>, run: seq<System>, acts: seq<Action>, i: nat,
                                   j: nat, p: nat)
    requires IsRun(c, infoHash, run, acts) && HonestRun(c, run, acts) && i <= j < |run|
    requires p < |c.torrent.pieces|
    ensures c.torrent.WellFormed() && |run[i].core.mgr.completed| == |c.torrent.pieces|
    ensures |run[i].core.image| == |run[j].core.image| == c.torrent.TotalSize()
    ensures Agree(c, run[i].core)
    ensures run[i].core.mgr.completed[p] ==>
              && PieceBytes(c.torrent, run[j].core.image, p) == PieceBytes(c.torrent, run[i].core.image, p)
              && c.sha1(PieceBytes(c.torrent, run[j].core.image, p)) == c.torrent.pieces[p]
  {
    ReachedOk(c, infoHash, run, acts, i);
    ReachedOk(c, infoHash, run, acts, j);
    RunAgrees(c, infoHash, run, acts, i);
    RunAgrees(c, infoHash, run, acts, j);
    RunSettles(c, infoHash, run, acts, i, j);
    AcceptedBlocksConserved(c, infoHash, run, acts, i, p);
    hide IsRun, HonestRun, Torrent.WellFormed, Inv, PieceBytes, InTorrent, StandingOf, TimesRequested, BlockAgrees,
         SwarmInv, Size, BlockCount;
    if run[i].core.mgr.completed[p] {
      var content := CompletionRecorded(run[i].core.log, p);
      assert Finished(p, content) in run[j].core.log;
      assert PieceAgrees(c, run[i].core, p, content) && PieceAgrees(c, run[j].core, p, content);
    }
  }

  /** The block in a message that names an outstanding block and carries its length is honest. */
  lemma OutstandingMessageIsHonest(c: Config, s: System, m: PeerMessage)
    requires SwarmInv(c, s)
    requires CarriesBlock(m) ==>
               CoreOk(c, s.core) && NamesOutstanding(c, s.core, PieceIndex(m), PieceBegin(m), PieceData(m))
    ensures HonestMessage(c, s.core, m)
  {
    hide RequestsWarranted, QueuesSound, NamesOutstanding, HistoryInv, Honest, CoreOk;
    if CarriesBlock(m) {
      OutstandingIsHonest(c, s.core, PieceIndex(m), PieceBegin(m), PieceData(m));
    }
  }

  /** Every delivered Piece message names an outstanding block of an active piece and carries exactly
      that block's length. */
  ghost predicate ExactRun(c: Config, run: seq<System>, acts: seq<Action>) {
    forall i: nat :: i < |acts| && i < |run| ==> ExactAction(c, run[i], acts[i])
  }

  ghost predicate ExactAction(c: Config, s: System, act: Action) {
    act.Deliver? && act.k < |s.conns| && ParseMessage(s.conns[act.k].reader.buffer).Frame? ==>
      var m := ParseMessage(s.conns[act.k].reader.buffer).message;
      CarriesBlock(m) ==> CoreOk(c, s.core) && NamesOutstanding(c, s.core, PieceIndex(m), PieceBegin(m), PieceData(m))
  }

  /** Peers that send what was outstanding keep the disk in agreement. */
  lemma ExactRunIsHonest(c: Config, infoHash: seq<byte>, run: seq<System>, acts: seq<Action>)
    requires IsRun(c, infoHash, run, acts) && ExactRun(c, run, acts)
    ensures HonestRun(c, run, acts)
  {
    hide SwarmInv, NamesOutstanding, HonestMessage, CoreOk, Next, Init;
    forall i: nat | i < |acts| && i < |run|
      ensures HonestAction(c, run[i], acts[i])
    {
      RunKeeps(c, infoHash, run, acts, i);
      assert ExactAction(c, run[i], acts[i]);
      if acts[i].Deliver? && acts[i].k < |run[i].conns| && ParseMessage(run[i].conns[acts[i].k].reader.buffer).Frame? {
        OutstandingMessageIsHonest(c, run[i], ParseMessage(run[i].conns[acts[i].k].reader.buffer).message);
      }
    }
  }
}
