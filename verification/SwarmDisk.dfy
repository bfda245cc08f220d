/** That a completed piece can be read back: its bytes are not only right, they are on disk. */
module SwarmDisk {
  import opened Agreement
  import opened Bytes
  import opened Connections
  import opened Cores
  import opened Disks
  import opened FileMaps
  import opened Pieces
  import opened Swarm
  import opened SwarmInvariants
  import opened SwarmSteps
  import opened SwarmTheorems
  import opened Torrents
  import opened Wrappers

  // ---- what has been written ----

  ghost predicate Written(ws: seq<Write>, q: nat) {
    exists t: nat :: t < |ws| && Covers(ws[t], q)
  }

  lemma {:induction false} WrittenHasLatest(ws: seq<Write>, q: nat)
    requires Written(ws, q)
    ensures WrittenIn(ws, q)
  {
    hide Covers;
    var last := |ws| - 1;
    var before := ws[..last];
    LatestStep(ws, q);
    if Covers(ws[last], q) {
      assert Latest(ws, last, q);
    } else {
      var t: nat :| t < |ws| && Covers(ws[t], q);
      assert before[t] == ws[t];
      WrittenHasLatest(before, q);
      var u: nat :| Latest(before, u, q);
      assert Latest(ws, u, q);
    }
  }

  lemma WrittenMore(ws: seq<Write>, w: Write, q: nat)
    requires Written(ws, q) || Covers(w, q)
    ensures Written(ws + [w], q)
  {
    hide Covers;
    var longer := ws + [w];
    if Covers(w, q) {
      assert longer[|ws|] == w;
    } else {
      var t: nat :| t < |ws| && Covers(ws[t], q);
      assert longer[t] == ws[t];
    }
  }

  /** Every byte of a downloaded block and of a completed piece has been written. */
  ghost predicate AllWritten(c: Config, core: Core) {
    && CoreOk(c, core)
    && (forall u: nat, b: nat, q: nat ::
          q < |core.image| && DownloadedAt(core.mgr, u, b) && InBlock(c.torrent, u, b, q) ==> Written(core.writes, q))
    && (forall u: nat, content, q: nat ::
          q < |core.image| && Finished(u, content) in core.log && InPiece(c.torrent, u, q) ==> Written(core.writes, q))
  }

  /** Every byte of a piece lies in one of its blocks. */
  lemma PieceHasBlock(t: Torrent, p: nat, q: nat) returns (b: nat)
    requires t.WellFormed() && InPiece(t, p, q)
    ensures InBlock(t, p, b, q) && b < BlockCount(Size(t, p))
  {
    PieceSizeRange(t, p);
    hide Torrent.WellFormed, BlockCount;
    b := (q - PieceStart(t, p)) / BLOCK_SIZE;
    BlockFound(Size(t, p), q - PieceStart(t, p));
  }

  lemma BlockCovered(c: Config, p: nat, begin: nat, data: seq<byte>, b: nat, q: nat)
    requires c.torrent.WellFormed() && p < |c.torrent.pieces| && ExactData(c.torrent, p, b, data)
    requires begin == b * BLOCK_SIZE && InBlock(c.torrent, p, b, q)
    ensures Covers(Write(Place(c.torrent, p, begin), data), q)
  {
    hide Torrent.WellFormed, InBlock, Size, BlockCount;
    BlockInTorrent(c.torrent, p, b);
  }

  lemma StoredBlockWritten(c: Config, core: Core, p: nat, begin: nat, data: seq<byte>, u: nat, b: nat, q: nat)
    requires AllWritten(c, core) && FitsBlock(c, core, p, begin, data) && q < |core.image|
    requires CoreOk(c, StoreBlock(c, core, p, begin, data)) && c.torrent.WellFormed()
    requires DownloadedAt(StoreBlock(c, core, p, begin, data).mgr, u, b) && InBlock(c.torrent, u, b, q)
    ensures Written(StoreBlock(c, core, p, begin, data).writes, q)
  {
    hide Torrent.WellFormed, Inv, AfterProcess, ProcessOutcome, Patch, InBlock, Size, BlockCount, DownloadedAt,
         FitsBlock,
         Written, Covers, ExactData;
    ActiveInRange(c.torrent, core.mgr, p);
    StoreBlockDownloads(c, core.mgr, p, begin, data, u, b);
    AcceptedBlock(c, core.mgr, p, begin, data);
    FittingData(c, core, p, begin, data);
    var r := ProcessOutcome(c, core.mgr, p, begin, data);
    if r.Stored? && u == p && b == r.block {
      BlockCovered(c, p, begin, data, b, q);
    }
    WrittenMore(core.writes, Write(Place(c.torrent, p, begin), data), q);
  }

  lemma CompletedPieceWritten(c: Config, core: Core, p: nat, begin: nat, data: seq<byte>, q: nat)
    requires AllWritten(c, core) && FitsBlock(c, core, p, begin, data) && q < |core.image|
    requires c.torrent.WellFormed() && InPiece(c.torrent, p, q)
    requires ProcessOutcome(c, core.mgr, p, begin, data).Completed?
    ensures Written(StoreBlock(c, core, p, begin, data).writes, q)
  {
    hide Torrent.WellFormed, Inv, AfterProcess, ProcessOutcome, Patch, InBlock, Size, BlockCount, DownloadedAt,
         FitsBlock,
         Written, Covers, ExactData, Joined, InPiece;
    var b := PieceHasBlock(c.torrent, p, q);
    AcceptedBlock(c, core.mgr, p, begin, data);
    FittingData(c, core, p, begin, data);
    var r := ProcessOutcome(c, core.mgr, p, begin, data);
    var blocks := CompletedBlocks(c, core.mgr, p, begin, data);
    if b == r.block {
      BlockCovered(c, p, begin, data, b, q);
    }
    WrittenMore(core.writes, Write(Place(c.torrent, p, begin), data), q);
  }

  /** A block that fits keeps all bytes that count written. */
  lemma StoreKeepsWritten(c: Config, core: Core, p: nat, begin: nat, data: seq<byte>)
    requires AllWritten(c, core) && FitsBlock(c, core, p, begin, data)
    ensures AllWritten(c, StoreBlock(c, core, p, begin, data))
  {
    hide Torrent.WellFormed, Inv, AfterProcess, ProcessOutcome, Patch, InBlock, DownloadedAt, FitsBlock, Written,
         InPiece;
    StoreBlockOk(c, core, p, begin, data);
    ActiveInRange(c.torrent, core.mgr, p);
    var after := StoreBlock(c, core, p, begin, data);
    var r := ProcessOutcome(c, core.mgr, p, begin, data);
    forall u: nat, b: nat, q: nat | q < |core.image| && DownloadedAt(after.mgr, u, b) && InBlock(c.torrent, u, b, q)
      ensures Written(after.writes, q)
    {
      StoredBlockWritten(c, core, p, begin, data, u, b, q);
    }
    forall u: nat, content, q: nat | q < |core.image| && Finished(u, content) in after.log && InPiece(c.torrent, u, q)
      ensures Written(after.writes, q)
    {
      if Finished(u, content) in core.log {
        WrittenMore(core.writes, Write(Place(c.torrent, p, begin), data), q);
      } else {
        assert Finished(u, content) in EventsOf(p, r);
        CompletedPieceWritten(c, core, p, begin, data, q);
      }
    }
  }

  lemma RequestKeepsWritten(c: Config, core: Core, bits: seq<byte>, mgr: Manager, k: Pick)
    requires AllWritten(c, core) && RequestStep(c.torrent, core.mgr, bits, mgr, Some(k))
    ensures AllWritten(c, core.(mgr := mgr))
  {
    hide Torrent.WellFormed, Inv, RequestStep, DownloadedAt, InBlock, InPiece, Written;
    RequestStepKeepsInv(c.torrent, core.mgr, bits, mgr, Some(k));
    forall u: nat, b: nat | DownloadedAt(mgr, u, b)
      ensures DownloadedAt(core.mgr, u, b)
    {
      RequestDownloads(c.torrent, core.mgr, bits, mgr, k, u, b);
    }
  }

  // ---- the store behind the image ----

  /** A layout of the torrent's bytes over files. */
  ghost predicate LayoutOf(c: Config, files: seq<FileEntry>) {
    Contiguous(files) && DistinctPaths(files) && Total(files) == c.torrent.TotalSize()
  }

  /** The image is what the files hold after the writes made so far. */
  ghost predicate Backed(c: Config, files: seq<FileEntry>, store: Store, core: Core)
    requires LayoutOf(c, files)
  {
    core.image == Image(files, AfterWrites(files, store, core.writes))
  }

  lemma StoreKeepsBacked(c: Config, files: seq<FileEntry>, store: Store, core: Core, p: nat, begin: nat,
                         data: seq<byte>)
    requires LayoutOf(c, files) && CoreOk(c, core) && Backed(c, files, store, core)
    ensures Backed(c, files, store, StoreBlock(c, core, p, begin, data))
  {
    hide Torrent.WellFormed, Inv, AfterProcess, ProcessOutcome, Image, Patch, Disks.WriteBlock;
    ActiveInRange(c.torrent, core.mgr, p);
    var w := Write(Place(c.torrent, p, begin), data);
    assert (core.writes + [w])[..|core.writes|] == core.writes;
    WriteRefines(files, AfterWrites(files, store, core.writes), w.at, w.data);
  }

  // ---- runs ----

  ghost predicate DiskInv(c: Config, files: seq<FileEntry>, store: Store, core: Core) {
    LayoutOf(c, files) && AllWritten(c, core) && Backed(c, files, store, core)
  }

  lemma MicroKeepsDisk(c: Config, files: seq<FileEntry>, store: Store, s: System, s': System)
    requires DiskInv(c, files, store, s.core) && Micro(c, s, s', true)
    ensures DiskInv(c, files, store, s'.core)
  {
    hide AllWritten, Backed, QuietConn, Queued, BlockRequest, StoreBlock, SparesBlocks, SparesPieces, FitsBlock;
    var k: nat, e, b :| k < |s.conns| && MicroAt(c, s, k, e, b, true) && s' == s.With(k, b);
    match e
    case Quiet =>
    case Asked(pick) =>
      RequestKeepsWritten(c, s.core, s.conns[k].peer.bitfield, b.core.mgr, pick);
      SameImageBacked(c, files, store, s.core, b.core);
    case Took(p, begin, data) =>
      StoreKeepsWritten(c, s.core, p, begin, data);
      StoreKeepsBacked(c, files, store, s.core, p, begin, data);
  }

  lemma SameImageBacked(c: Config, files: seq<FileEntry>, store: Store, x: Core, y: Core)
    requires LayoutOf(c, files) && Backed(c, files, store, x) && x.image == y.image && x.writes == y.writes
    ensures Backed(c, files, store, y)
  {
  }

  lemma {:induction false} PathKeepsDisk(c: Config, files: seq<FileEntry>, store: Store, path: seq<System>, i: nat)
    requires Path(c, path, true) && DiskInv(c, files, store, path[0].core) && i < |path|
    ensures DiskInv(c, files, store, path[i].core)
    decreases i
  {
    hide DiskInv, Micro;
    if i > 0 {
      PathKeepsDisk(c, files, store, path, i - 1);
      assert MicroFrom(c, path, i - 1, true);
      MicroKeepsDisk(c, files, store, path[i - 1], path[i]);
    }
  }

  lemma InitDisk(c: Config, files: seq<FileEntry>, store: Store, s: System)
    requires Init(c, s) && LayoutOf(c, files) && s.core.image == Image(files, store)
    ensures DiskInv(c, files, store, s.core)
  {
    InitInv(c.torrent);
    hide Torrent.WellFormed, Inv, Image;
  }

  lemma {:induction false} RunKeepsDisk(c: Config, infoHash: seq<byte>, run: seq<System>, acts: seq<Action>,
                                        files: seq<FileEntry>, store: Store, i: nat)
    requires IsRun(c, infoHash, run, acts) && HonestRun(c, run, acts) && i < |run|
    requires LayoutOf(c, files) && run[0].core.image == Image(files, store)
    ensures DiskInv(c, files, store, run[i].core)
    decreases i
  {
    hide DiskInv, Next, Init, Path, HonestAction, Image;
    if i == 0 {
      InitDisk(c, files, store, run[0]);
    } else {
      RunKeepsDisk(c, infoHash, run, acts, files, store, i - 1);
      var path := ActionPath(c, infoHash, run[i - 1], acts[i - 1], run[i], true);
      PathNonEmpty(c, path, true);
      PathKeepsDisk(c, files, store, path, |path| - 1);
    }
  }

  /** Reading a range that has been written yields the image there. */
  lemma ReadsWritten(files: seq<FileEntry>, store: Store, ws: seq<Write>, g: nat, length: nat)
    requires Contiguous(files) && DistinctPaths(files) && g + length <= Total(files)
    requires forall q: nat :: g <= q < g + length ==> Written(ws, q)
    ensures var after := AfterWrites(files, store, ws);
            ReadBlock(files, after, g, length) == Some(Image(files, after)[g..g + length])
  {
    hide ReadBlock, Image, AfterWrites, Written;
    var after := AfterWrites(files, store, ws);
    forall q: nat | g <= q < g + length
      ensures WrittenIn(ws, q)
    {
      WrittenHasLatest(ws, q);
    }
    ReadAfterWrites(files, store, ws, g, length);
    ReadExactly(files, after, g, length);
    var data := ReadBlock(files, after, g, length).value;
    assert data == Image(files, after)[g..g + length];
  }

  /** In a run whose blocks are honest, over any layout of the torrent and whatever the files held at the
      start, reading a completed piece back from the files succeeds and yields bytes with the expected
      digest. */
  lemma CompletedPieceReads(c: Config, infoHash: seq<byte>, run: seq<System>, acts: seq<Action>,
                            files: seq<FileEntry>, store: Store, i: nat, p: nat)
    requires IsRun(c, infoHash, run, acts) && HonestRun(c, run, acts) && i < |run|
    requires LayoutOf(c, files) && run[0].core.image == Image(files, store)
    requires p < |c.torrent.pieces| && p < |run[i].core.mgr.completed| && run[i].core.mgr.completed[p]
    ensures c.torrent.WellFormed()
    ensures var after := AfterWrites(files, store, run[i].core.writes);
            var r := ReadBlock(files, after, PieceStart(c.torrent, p), Size(c.torrent, p));
            && Image(files, after) == run[i].core.image
            && r.Some? && c.sha1(r.value) == c.torrent.pieces[p]
  {
    hide IsRun, HonestRun, Torrent.WellFormed, Inv, InBlock, DownloadedAt, Written, Size, BlockCount, Image, ReadBlock,
         AfterWrites, InPiece, Agree;
    DiskAgreesWithVerification(c, infoHash, run, acts, i, i, p);
    RunKeepsDisk(c, infoHash, run, acts, files, store, i);
    AcceptedBlocksConserved(c, infoHash, run, acts, i, p);
    var core := run[i].core;
    var content := CompletionRecorded(core.log, p);
    PieceInTorrent(c.torrent, p);
    forall q: nat | PieceStart(c.torrent, p) <= q < PieceStart(c.torrent, p) + Size(c.torrent, p)
      ensures Written(core.writes, q)
    {
      InThePiece(c.torrent, p, q);
    }
    ReadsWritten(files, store, core.writes, PieceStart(c.torrent, p), Size(c.torrent, p));
  }

  lemma InThePiece(t: Torrent, p: nat, q: nat)
    requires t.WellFormed() && p < |t.pieces| && PieceStart(t, p) <= q < PieceStart(t, p) + Size(t, p)
    ensures InPiece(t, p, q)
  {
  }
}
