/** When the disk agrees with what the manager holds and has verified. */
module Agreement {
  import opened Bytes
  import opened Cores
  import opened Disks
  import opened Pieces
  import opened Torrents
  import opened Wrappers

  // ---- the bytes of a block and of a piece ----

  lemma BlockInTorrent(t: Torrent, p: nat, b: nat)
    requires t.WellFormed() && p < |t.pieces| && b < BlockCount(Size(t, p))
    ensures 0 <= BlockStart(t, p, b)
    ensures BlockStart(t, p, b) + BlockLength(Size(t, p), b) <= t.TotalSize()
    ensures BlockStart(t, p, b) == PieceStart(t, p) + b * BLOCK_SIZE
    ensures forall q: nat :: InBlock(t, p, b, q) <==>
              BlockStart(t, p, b) <= q < BlockStart(t, p, b) + BlockLength(Size(t, p), b)
  {
    hide Torrent.WellFormed, BlockCount;
    PieceSizeRange(t, p);
    TimesMonotone(0, p, t.pieceLength);
  }

  function PieceStart(t: Torrent, p: nat): nat
    requires t.WellFormed()
  {
    p * t.pieceLength
  }

  lemma PieceInTorrent(t: Torrent, p: nat)
    requires t.WellFormed() && p < |t.pieces|
    ensures PieceStart(t, p) + Size(t, p) <= t.TotalSize()
  {
    hide Torrent.WellFormed;
    PieceSizeRange(t, p);
  }

  predicate InPiece(t: Torrent, p: nat, q: nat)
    requires t.WellFormed()
  {
    p < |t.pieces| && PieceStart(t, p) <= q < PieceStart(t, p) + Size(t, p)
  }

  ghost function BlockBytes(t: Torrent, image: seq<byte>, p: nat, b: nat): (r: seq<byte>)
    requires t.WellFormed() && |image| == t.TotalSize() && p < |t.pieces| && b < BlockCount(Size(t, p))
    ensures |r| == BlockLength(Size(t, p), b)
  {
    BlockInTorrent(t, p, b);
    image[BlockStart(t, p, b)..BlockStart(t, p, b) + BlockLength(Size(t, p), b)]
  }

  ghost function PieceBytes(t: Torrent, image: seq<byte>, p: nat): (r: seq<byte>)
    requires t.WellFormed() && |image| == t.TotalSize() && p < |t.pieces|
    ensures |r| == Size(t, p)
  {
    PieceInTorrent(t, p);
    image[PieceStart(t, p)..PieceStart(t, p) + Size(t, p)]
  }

  /** Two images hold the same block exactly when they hold the same bytes there. */
  lemma SameBlockExactly(t: Torrent, x: seq<byte>, y: seq<byte>, p: nat, b: nat)
    requires t.WellFormed() && |x| == |y| == t.TotalSize() && p < |t.pieces| && b < BlockCount(Size(t, p))
    ensures BlockBytes(t, x, p, b) == BlockBytes(t, y, p, b) <==>
            forall q: nat :: q < |x| && InBlock(t, p, b, q) ==> x[q] == y[q]
  {
    hide Torrent.WellFormed, InBlock, BlockStart, BlockLength, BlockCount, Size;
    BlockInTorrent(t, p, b);
    var start := BlockStart(t, p, b);
    forall q: nat | q < |x| && InBlock(t, p, b, q)
      ensures BlockBytes(t, x, p, b)[q - start] == x[q] && BlockBytes(t, y, p, b)[q - start] == y[q]
    {
    }
    if forall q: nat :: q < |x| && InBlock(t, p, b, q) ==> x[q] == y[q] {
      forall i | 0 <= i < BlockLength(Size(t, p), b)
        ensures BlockBytes(t, x, p, b)[i] == BlockBytes(t, y, p, b)[i]
      {
        assert InBlock(t, p, b, start + i);
      }
    }
  }

  lemma SamePieceExactly(t: Torrent, x: seq<byte>, y: seq<byte>, p: nat)
    requires t.WellFormed() && |x| == |y| == t.TotalSize() && p < |t.pieces|
    ensures PieceBytes(t, x, p) == PieceBytes(t, y, p) <==>
            forall q: nat :: q < |x| && InPiece(t, p, q) ==> x[q] == y[q]
  {
    hide Torrent.WellFormed, PieceStart, Size;
    PieceInTorrent(t, p);
    var start := PieceStart(t, p);
    forall q: nat | q < |x| && InPiece(t, p, q)
      ensures PieceBytes(t, x, p)[q - start] == x[q] && PieceBytes(t, y, p)[q - start] == y[q]
    {
    }
    if forall q: nat :: q < |x| && InPiece(t, p, q) ==> x[q] == y[q] {
      forall i | 0 <= i < Size(t, p)
        ensures PieceBytes(t, x, p)[i] == PieceBytes(t, y, p)[i]
      {
        assert InPiece(t, p, start + i);
      }
    }
  }

  // ---- joining blocks ----

  predicate ExactLength(size: nat, blocks: seq<Block>, b: nat) {
    b < |blocks| && b < BlockCount(size) && |blocks[b].data| == BlockLength(size, b)
  }

  /** Where block `n` begins; past the last block, the piece's end. */
  function PrefixEnd(size: nat, n: nat): nat
  {
    if n == BlockCount(size) then size else n * BLOCK_SIZE
  }

  lemma {:induction false} JoinedPrefix(size: nat, blocks: seq<Block>, n: nat)
    requires size > 0 && n <= |blocks| == BlockCount(size)
    requires forall b: nat :: b < n ==> ExactLength(size, blocks, b)
    ensures |Joined(blocks[..n])| == PrefixEnd(size, n)
    ensures forall b: nat :: b < n ==>
              && b * BLOCK_SIZE + BlockLength(size, b) <= PrefixEnd(size, n)
              && Joined(blocks[..n])[b * BLOCK_SIZE..b * BLOCK_SIZE + BlockLength(size, b)] == blocks[b].data
  {
    if n > 0 {
      JoinedPrefix(size, blocks, n - 1);
      assert blocks[..n][..n - 1] == blocks[..n - 1];
      assert ExactLength(size, blocks, n - 1);
      var before, last := Joined(blocks[..n - 1]), blocks[n - 1].data;
      assert Joined(blocks[..n]) == before + last;
      assert |before| == (n - 1) * BLOCK_SIZE;
      JoinedExtends(size, blocks, n, before);
    }
  }

  lemma JoinedExtends(size: nat, blocks: seq<Block>, n: nat, before: seq<byte>)
    requires 0 < n <= |blocks| == BlockCount(size) && |before| == (n - 1) * BLOCK_SIZE
    requires forall b: nat :: b < n ==> ExactLength(size, blocks, b)
    requires forall b: nat :: b < n - 1 ==>
               && b * BLOCK_SIZE + BlockLength(size, b) <= |before|
               && before[b * BLOCK_SIZE..b * BLOCK_SIZE + BlockLength(size, b)] == blocks[b].data
    ensures |before + blocks[n - 1].data| == PrefixEnd(size, n)
    ensures forall b: nat :: b < n ==>
              && b * BLOCK_SIZE + BlockLength(size, b) <= PrefixEnd(size, n)
              && (before + blocks[n - 1].data)[b * BLOCK_SIZE..b * BLOCK_SIZE + BlockLength(size, b)] == blocks[b].data
  {
    var last := blocks[n - 1].data;
    assert ExactLength(size, blocks, n - 1);
    assert |before + last| == PrefixEnd(size, n);
    hide BlockCount;
    forall b: nat | b < n
      ensures b * BLOCK_SIZE + BlockLength(size, b) <= PrefixEnd(size, n)
      ensures (before + last)[b * BLOCK_SIZE..b * BLOCK_SIZE + BlockLength(size, b)] == blocks[b].data
    {
      if b < n - 1 {
        SliceOfFirst(before, last, b * BLOCK_SIZE, b * BLOCK_SIZE + BlockLength(size, b));
      }
    }
  }

  lemma SliceOfFirst<T>(x: seq<T>, y: seq<T>, i: nat, j: nat)
    requires i <= j <= |x|
    ensures (x + y)[i..j] == x[i..j]
  {
  }

  /** Blocks of the right lengths join up to the piece's length, each at its own offset. */
  lemma JoinedSlices(size: nat, blocks: seq<Block>)
    requires size > 0 && |blocks| == BlockCount(size)
    requires forall b: nat :: b < |blocks| ==> ExactLength(size, blocks, b)
    ensures |Joined(blocks)| == size
    ensures forall b: nat :: b < |blocks| ==>
              Joined(blocks)[b * BLOCK_SIZE..b * BLOCK_SIZE + BlockLength(size, b)] == blocks[b].data
  {
    JoinedPrefix(size, blocks, |blocks|);
    assert blocks[..|blocks|] == blocks;
  }

  lemma {:induction false} JoinedLengthUpdate(blocks: seq<Block>, b: nat, x: Block)
    requires b < |blocks|
    ensures |Joined(blocks[b := x])| + |blocks[b].data| == |Joined(blocks)| + |x.data|
  {
    var last := |blocks| - 1;
    if b == last {
      assert blocks[b := x][..last] == blocks[..last];
    } else {
      assert blocks[b := x][..last] == blocks[..last][b := x];
      JoinedLengthUpdate(blocks[..last], b, x);
    }
  }

  /** If all blocks but one have the right length and the whole has, so has that one. */
  lemma LengthForced(size: nat, blocks: seq<Block>, b: nat)
    requires size > 0 && b < |blocks| == BlockCount(size)
    requires forall i: nat :: i < |blocks| && i != b ==> ExactLength(size, blocks, i)
    requires |Joined(blocks)| == size
    ensures ExactLength(size, blocks, b)
  {
    var x := blocks[b].(data := Zeros(BlockLength(size, b)));
    var exact := blocks[b := x];
    forall i: nat | i < |exact|
      ensures ExactLength(size, exact, i)
    {
      assert i != b ==> ExactLength(size, blocks, i);
    }
    JoinedSlices(size, exact);
    JoinedLengthUpdate(blocks, b, x);
  }

  lemma BlockOfPiece(t: Torrent, image: seq<byte>, p: nat, b: nat)
    requires t.WellFormed() && |image| == t.TotalSize() && p < |t.pieces| && b < BlockCount(Size(t, p))
    ensures PieceBytes(t, image, p)[b * BLOCK_SIZE..b * BLOCK_SIZE + BlockLength(Size(t, p), b)] ==
            BlockBytes(t, image, p, b)
  {
    hide Torrent.WellFormed, InBlock, BlockStart, PieceStart, Size, BlockCount;
    BlockInTorrent(t, p, b);
    PieceInTorrent(t, p);
    var start, n := PieceStart(t, p), b * BLOCK_SIZE;
    SliceOfSlice(image, start, start + Size(t, p), n, n + BlockLength(Size(t, p), b));
  }

  lemma SliceOfSlice<T>(s: seq<T>, a: nat, b: nat, i: nat, j: nat)
    requires a <= b <= |s| && i <= j <= b - a
    ensures s[a..b][i..j] == s[a + i..a + j]
  {
    var x, y := s[a..b][i..j], s[a + i..a + j];
    assert |x| == |y|;
    forall k | 0 <= k < |x|
      ensures x[k] == y[k]
    {
      assert s[a..b][i + k] == s[a + i + k];
    }
  }

  /** A piece on disk is its blocks joined exactly when every block on disk is. */
  lemma PieceIsJoinedExactly(t: Torrent, image: seq<byte>, p: nat, blocks: seq<Block>)
    requires t.WellFormed() && |image| == t.TotalSize() && p < |t.pieces|
    requires |blocks| == BlockCount(Size(t, p))
    requires forall b: nat :: b < |blocks| ==> ExactLength(Size(t, p), blocks, b)
    ensures PieceBytes(t, image, p) == Joined(blocks) <==>
            forall b: nat :: b < |blocks| ==> BlockBytes(t, image, p, b) == blocks[b].data
  {
    hide Torrent.WellFormed, BlockBytes, PieceBytes, Joined, Size;
    var size := Size(t, p);
    var piece, joined := PieceBytes(t, image, p), Joined(blocks);
    JoinedSlices(size, blocks);
    forall b: nat | b < |blocks|
      ensures BlockBytes(t, image, p, b) == piece[b * BLOCK_SIZE..b * BLOCK_SIZE + BlockLength(size, b)]
    {
      BlockOfPiece(t, image, p, b);
    }
    if forall b: nat :: b < |blocks| ==> BlockBytes(t, image, p, b) == blocks[b].data {
      SameByBlocks(size, piece, joined);
    }
  }

  /** Two pieces are equal if all their blocks are. */
  lemma SameByBlocks(size: nat, x: seq<byte>, y: seq<byte>)
    requires |x| == |y| == size
    requires forall b: nat :: b < BlockCount(size) ==>
               x[b * BLOCK_SIZE..b * BLOCK_SIZE + BlockLength(size, b)] ==
               y[b * BLOCK_SIZE..b * BLOCK_SIZE + BlockLength(size, b)]
    ensures x == y
  {
    forall i: nat | i < size
      ensures x[i] == y[i]
    {
      var b := i / BLOCK_SIZE;
      BlockFound(size, i);
      var n := b * BLOCK_SIZE;
      assert x[n..n + BlockLength(size, b)][i - n] == y[n..n + BlockLength(size, b)][i - n];
    }
  }

  // ---- agreement ----

  predicate DownloadedAt(s: Manager, p: nat, b: nat) {
    p in s.active && b < |s.active[p].blocks| && s.active[p].blocks[b].state == Downloaded
  }

  lemma DownloadedInRange(t: Torrent, s: Manager, p: nat, b: nat)
    requires Inv(t, s) && DownloadedAt(s, p, b)
    ensures t.WellFormed() && p < |t.pieces| && b < BlockCount(Size(t, p))
  {
  }

  ghost predicate BlockAgrees(c: Config, core: Core, p: nat, b: nat)
    requires CoreOk(c, core) && DownloadedAt(core.mgr, p, b)
  {
    DownloadedInRange(c.torrent, core.mgr, p, b);
    BlockBytes(c.torrent, core.image, p, b) == core.mgr.active[p].blocks[b].data
  }

  ghost predicate PieceAgrees(c: Config, core: Core, p: nat, content: seq<byte>)
    requires CoreOk(c, core)
  {
    p < |c.torrent.pieces| && PieceBytes(c.torrent, core.image, p) == content
  }

  /** The disk holds every downloaded block's data in its place, and for every completed piece
      exactly the bytes that were hashed. */
  ghost predicate Agree(c: Config, core: Core) {
    && CoreOk(c, core)
    && (forall p: nat, b: nat :: DownloadedAt(core.mgr, p, b) ==> BlockAgrees(c, core, p, b))
    && (forall p: nat, content :: Finished(p, content) in core.log ==> PieceAgrees(c, core, p, content))
  }

  /** Writing the block leaves byte `q` of the image as it is. */
  predicate Spares(c: Config, core: Core, p: nat, begin: nat, data: seq<byte>, q: nat)
    requires c.torrent.WellFormed() && q < |core.image|
  {
    var g := Place(c.torrent, p, begin);
    g <= q < g + |data| ==> data[q - g] == core.image[q]
  }

  /** Block `b` of piece `p` is the outstanding block at that offset. */
  predicate Outstanding(s: Manager, p: nat, begin: nat, b: nat) {
    p in s.active && Accepts(s.active[p].blocks, begin, b)
  }

  /** The block is the last one its piece waits for, and with it the piece has another digest than the
      one expected. */
  ghost predicate FailsHash(c: Config, s: Manager, p: nat, begin: nat, data: seq<byte>) {
    p < |c.torrent.pieces|
    && exists b: nat :: && Outstanding(s, p, begin, b)
                        && OthersDownloaded(s.active[p].blocks, b)
                        && c.sha1(Joined(WithData(s.active[p], b, data).blocks)) != c.torrent.pieces[p]
  }

  /** The outcome of a block told by what can be looked at before. */
  lemma OutcomeByGuards(c: Config, s: Manager, p: nat, begin: nat, data: seq<byte>)
    requires Inv(c.torrent, s)
    ensures p in s.active ==> p < |c.torrent.pieces|
    ensures ProcessOutcome(c, s, p, begin, data).Failed? <==> FailsHash(c, s, p, begin, data)
    ensures forall b: nat :: Outstanding(s, p, begin, b) <==>
              !ProcessOutcome(c, s, p, begin, data).Ignored? && ProcessOutcome(c, s, p, begin, data).block == b
  {
    hide Torrent.WellFormed, Joined, CountDownloaded, Size, BlockCount;
    ActiveInRange(c.torrent, s, p);
    if p in s.active {
      var blocks := s.active[p].blocks;
      var found := FindBlock(blocks, begin, 0);
      forall b: nat
        ensures Accepts(blocks, begin, b) <==> found == Some(b)
      {
      }
      if found.Some? {
        LastBlockExactly(blocks, found.value);
        assert Outstanding(s, p, begin, found.value);
      }
    }
  }

  /** The block repeats every downloaded byte it is written over, save those of the piece whose
      hash check it makes fail. */
  ghost predicate SparesBlocks(c: Config, core: Core, p: nat, begin: nat, data: seq<byte>)
    requires CoreOk(c, core)
  {
    forall u: nat, b: nat, q: nat ::
      q < |core.image| && DownloadedAt(core.mgr, u, b) && InBlock(c.torrent, u, b, q)
      && !(u == p && FailsHash(c, core.mgr, p, begin, data))
      ==> Spares(c, core, p, begin, data, q)
  }

  /** The block repeats every byte of a completed piece it is written over. */
  ghost predicate SparesPieces(c: Config, core: Core, p: nat, begin: nat, data: seq<byte>)
    requires CoreOk(c, core)
  {
    forall u: nat, content, q: nat ::
      q < |core.image| && Finished(u, content) in core.log && InPiece(c.torrent, u, q)
      ==> Spares(c, core, p, begin, data, q)
  }

  /** A block that is kept has the length of the block it is kept as. */
  ghost predicate FitsBlock(c: Config, core: Core, p: nat, begin: nat, data: seq<byte>)
    requires CoreOk(c, core)
  {
    forall b: nat :: Outstanding(core.mgr, p, begin, b) && !FailsHash(c, core.mgr, p, begin, data) ==>
      p < |c.torrent.pieces| && ExactData(c.torrent, p, b, data)
  }

  predicate ExactData(t: Torrent, p: nat, b: nat, data: seq<byte>)
    requires t.WellFormed() && p < |t.pieces|
  {
    b < BlockCount(Size(t, p)) && |data| == BlockLength(Size(t, p), b)
  }

  ghost predicate Honest(c: Config, core: Core, p: nat, begin: nat, data: seq<byte>)
    requires CoreOk(c, core)
  {
    SparesBlocks(c, core, p, begin, data) && SparesPieces(c, core, p, begin, data) && FitsBlock(c, core, p, begin, data)
  }

  lemma SparesExactly(c: Config, core: Core, p: nat, begin: nat, data: seq<byte>, q: nat)
    requires c.torrent.WellFormed() && q < |core.image|
    ensures Spares(c, core, p, begin, data, q) <==>
            Patch(core.image, Place(c.torrent, p, begin), data)[q] == core.image[q]
  {
    hide Place, Torrent.WellFormed;
  }

  /** What a block does to the downloaded blocks of piece `u`. */
  lemma StoreBlockDownloads(c: Config, s: Manager, p: nat, begin: nat, data: seq<byte>, u: nat, b: nat)
    requires Inv(c.torrent, s)
    ensures var r, s' := ProcessOutcome(c, s, p, begin, data), AfterProcess(c, s, p, begin, data);
            && (r.Stored? && u == p && b == r.block ==>
                  DownloadedAt(s', u, b) && !DownloadedAt(s, u, b) && s'.active[u].blocks[b].data == data)
            && (!(r.Stored? && u == p && b == r.block) ==>
                  (DownloadedAt(s', u, b) <==> DownloadedAt(s, u, b) && !(u == p && (r.Failed? || r.Completed?)))
                  && (DownloadedAt(s', u, b) ==> s'.active[u].blocks[b] == s.active[u].blocks[b]))
  {
    hide Torrent.WellFormed, Joined, CountDownloaded, GoodPiece;
    ActiveInRange(c.torrent, s, p);
  }

  /** The block that is accepted begins where it says, and was not downloaded before. */
  lemma AcceptedBlock(c: Config, s: Manager, p: nat, begin: nat, data: seq<byte>)
    requires Inv(c.torrent, s)
    ensures c.torrent.WellFormed()
    ensures var r := ProcessOutcome(c, s, p, begin, data);
            !r.Ignored? ==>
              && p in s.active && p < |c.torrent.pieces| && !s.completed[p]
              && |s.active[p].blocks| == BlockCount(Size(c.torrent, p))
              && r.block < BlockCount(Size(c.torrent, p))
              && begin == r.block * BLOCK_SIZE
              && !DownloadedAt(s, p, r.block)
  {
    hide Torrent.WellFormed, Joined, CountDownloaded, Size, BlockCount;
    ActiveInRange(c.torrent, s, p);
    var r := ProcessOutcome(c, s, p, begin, data);
    if !r.Ignored? {
      assert GoodBlock(c.torrent, p, r.block, s.active[p].blocks[r.block]);
    }
  }

  /** When a piece completes, every other block had been downloaded, and what was hashed is all of
      them joined with the new one. */
  lemma CompletedBlocks(c: Config, s: Manager, p: nat, begin: nat, data: seq<byte>) returns (blocks: seq<Block>)
    requires Inv(c.torrent, s) && ProcessOutcome(c, s, p, begin, data).Completed?
    ensures var r := ProcessOutcome(c, s, p, begin, data);
            && p in s.active && r.block < |s.active[p].blocks| == |blocks|
            && Joined(blocks) == r.content
            && blocks[r.block].data == data
            && forall b: nat :: b < |blocks| && b != r.block ==>
                 DownloadedAt(s, p, b) && blocks[b] == s.active[p].blocks[b]
  {
    hide Torrent.WellFormed, Joined, CountDownloaded, Size;
    ActiveInRange(c.torrent, s, p);
    var r := ProcessOutcome(c, s, p, begin, data);
    var before := s.active[p].blocks;
    blocks := before[r.block := before[r.block].(state := Downloaded, data := data)];
    LastBlockExactly(before, r.block);
  }

  /** A block of the right length, once written, is on disk in its place. */
  lemma WrittenBlock(c: Config, core: Core, p: nat, begin: nat, data: seq<byte>, b: nat)
    requires CoreOk(c, core) && c.torrent.WellFormed() && p < |c.torrent.pieces|
    requires ExactData(c.torrent, p, b, data) && begin == b * BLOCK_SIZE
    ensures BlockBytes(c.torrent, StoreBlock(c, core, p, begin, data).image, p, b) == data
  {
    hide Torrent.WellFormed, Size, BlockCount, AfterProcess, ProcessOutcome, Inv, InBlock;
    BlockInTorrent(c.torrent, p, b);
    assert Place(c.torrent, p, begin) == BlockStart(c.torrent, p, b);
  }

  // ---- a block that keeps agreement ----

  lemma SparedBlock(c: Config, core: Core, p: nat, begin: nat, data: seq<byte>, u: nat, b: nat)
    requires CoreOk(c, core) && c.torrent.WellFormed() && u < |c.torrent.pieces| && b < BlockCount(Size(c.torrent, u))
    ensures BlockBytes(c.torrent, StoreBlock(c, core, p, begin, data).image, u, b) ==
            BlockBytes(c.torrent, core.image, u, b)
            <==> forall q: nat :: q < |core.image| && InBlock(c.torrent, u, b, q) ==> Spares(c, core, p, begin, data, q)
  {
    hide Torrent.WellFormed, BlockBytes, Size, BlockCount, Inv, InBlock, Spares, AfterProcess, ProcessOutcome, Patch;
    var after := StoreBlock(c, core, p, begin, data).image;
    SameBlockExactly(c.torrent, after, core.image, u, b);
    forall q: nat | q < |core.image|
      ensures Spares(c, core, p, begin, data, q) <==> after[q] == core.image[q]
    {
      SparesExactly(c, core, p, begin, data, q);
    }
  }

  lemma SparedPiece(c: Config, core: Core, p: nat, begin: nat, data: seq<byte>, u: nat)
    requires CoreOk(c, core) && c.torrent.WellFormed() && u < |c.torrent.pieces|
    ensures PieceBytes(c.torrent, StoreBlock(c, core, p, begin, data).image, u) == PieceBytes(c.torrent, core.image, u)
            <==> forall q: nat :: q < |core.image| && InPiece(c.torrent, u, q) ==> Spares(c, core, p, begin, data, q)
  {
    hide Torrent.WellFormed, PieceBytes, Size, Inv, InPiece, Spares, AfterProcess, ProcessOutcome, Patch;
    var after := StoreBlock(c, core, p, begin, data).image;
    SamePieceExactly(c.torrent, after, core.image, u);
    forall q: nat | q < |core.image|
      ensures Spares(c, core, p, begin, data, q) <==> after[q] == core.image[q]
    {
      SparesExactly(c, core, p, begin, data, q);
    }
  }

  /** A block that is still downloaded afterwards agrees with the disk afterwards. */
  lemma HonestBlock(c: Config, core: Core, p: nat, begin: nat, data: seq<byte>, u: nat, b: nat)
    requires Agree(c, core) && Honest(c, core, p, begin, data)
    requires CoreOk(c, StoreBlock(c, core, p, begin, data))
    requires DownloadedAt(StoreBlock(c, core, p, begin, data).mgr, u, b)
    ensures BlockAgrees(c, StoreBlock(c, core, p, begin, data), u, b)
  {
    hide Torrent.WellFormed, Inv, AfterProcess, ProcessOutcome, Patch, BlockBytes, Size, BlockCount, InBlock, Spares,
         DownloadedAt, FailsHash, Outstanding;
    OutcomeByGuards(c, core.mgr, p, begin, data);
    var after := StoreBlock(c, core, p, begin, data);
    ActiveInRange(c.torrent, core.mgr, p);
    var r := ProcessOutcome(c, core.mgr, p, begin, data);
    DownloadedInRange(c.torrent, after.mgr, u, b);
    StoreBlockDownloads(c, core.mgr, p, begin, data, u, b);
    AcceptedBlock(c, core.mgr, p, begin, data);
    if r.Stored? && u == p && b == r.block {
      WrittenBlock(c, core, p, begin, data, b);
    } else {
      assert BlockAgrees(c, core, u, b);
      SparedBlock(c, core, p, begin, data, u, b);
    }
  }

  lemma CompletedPiece(c: Config, core: Core, p: nat, begin: nat, data: seq<byte>)
    requires Agree(c, core) && Honest(c, core, p, begin, data)
    requires CoreOk(c, StoreBlock(c, core, p, begin, data))
    requires ProcessOutcome(c, core.mgr, p, begin, data).Completed?
    ensures PieceAgrees(c, StoreBlock(c, core, p, begin, data), p, ProcessOutcome(c, core.mgr, p, begin, data).content)
  {
    hide Torrent.WellFormed, Inv, AfterProcess, ProcessOutcome, Patch, BlockBytes, Size, BlockCount, InBlock, Spares,
         DownloadedAt, PieceBytes, Joined, FailsHash, Outstanding;
    OutcomeByGuards(c, core.mgr, p, begin, data);
    ActiveInRange(c.torrent, core.mgr, p);
    var t, r := c.torrent, ProcessOutcome(c, core.mgr, p, begin, data);
    var image := StoreBlock(c, core, p, begin, data).image;
    AcceptedBlock(c, core.mgr, p, begin, data);
    var blocks := CompletedBlocks(c, core.mgr, p, begin, data);
    forall b: nat | b < |blocks|
      ensures ExactLength(Size(t, p), blocks, b) && BlockBytes(t, image, p, b) == blocks[b].data
    {
      if b == r.block {
        WrittenBlock(c, core, p, begin, data, b);
      } else {
        assert BlockAgrees(c, core, p, b);
        SparedBlock(c, core, p, begin, data, p, b);
      }
    }
    PieceIsJoinedExactly(t, image, p, blocks);
  }

  lemma HonestPiece(c: Config, core: Core, p: nat, begin: nat, data: seq<byte>, u: nat, content: seq<byte>)
    requires Agree(c, core) && Honest(c, core, p, begin, data)
    requires CoreOk(c, StoreBlock(c, core, p, begin, data))
    requires Finished(u, content) in StoreBlock(c, core, p, begin, data).log
    ensures PieceAgrees(c, StoreBlock(c, core, p, begin, data), u, content)
  {
    hide Torrent.WellFormed, Inv, AfterProcess, ProcessOutcome, Patch, Size, InPiece, Spares, DownloadedAt, PieceBytes;
    ActiveInRange(c.torrent, core.mgr, p);
    AcceptedBlock(c, core.mgr, p, begin, data);
    var r := ProcessOutcome(c, core.mgr, p, begin, data);
    if Finished(u, content) in core.log {
      assert PieceAgrees(c, core, u, content);
      SparedPiece(c, core, p, begin, data, u);
    } else {
      assert Finished(u, content) in EventsOf(p, r);
      CompletedPiece(c, core, p, begin, data);
    }
  }

  lemma HonestKeepsAgreement(c: Config, core: Core, p: nat, begin: nat, data: seq<byte>)
    requires Agree(c, core) && Honest(c, core, p, begin, data)
    ensures Agree(c, StoreBlock(c, core, p, begin, data))
  {
    hide Torrent.WellFormed, Inv, AfterProcess, ProcessOutcome, Patch, DownloadedAt, BlockAgrees, PieceAgrees, Honest;
    StoreBlockOk(c, core, p, begin, data);
    var after := StoreBlock(c, core, p, begin, data);
    forall u: nat, b: nat | DownloadedAt(after.mgr, u, b)
      ensures BlockAgrees(c, after, u, b)
    {
      HonestBlock(c, core, p, begin, data, u, b);
    }
    forall u: nat, content | Finished(u, content) in after.log
      ensures PieceAgrees(c, after, u, content)
    {
      HonestPiece(c, core, p, begin, data, u, content);
    }
  }

  // ---- a block that breaks it ----

  lemma KeptFits(c: Config, core: Core, p: nat, begin: nat, data: seq<byte>)
    requires Agree(c, core) && Agree(c, StoreBlock(c, core, p, begin, data))
    ensures FitsBlock(c, core, p, begin, data)
  {
    hide Torrent.WellFormed, Inv, AfterProcess, ProcessOutcome, Patch, BlockBytes, Size, BlockCount, DownloadedAt,
         PieceBytes, Joined, FailsHash, Outstanding;
    OutcomeByGuards(c, core.mgr, p, begin, data);
    ActiveInRange(c.torrent, core.mgr, p);
    var t, r := c.torrent, ProcessOutcome(c, core.mgr, p, begin, data);
    var after := StoreBlock(c, core, p, begin, data);
    AcceptedBlock(c, core.mgr, p, begin, data);
    if r.Stored? {
      StoreBlockDownloads(c, core.mgr, p, begin, data, p, r.block);
      assert BlockAgrees(c, after, p, r.block);
    } else if r.Completed? {
      var blocks := CompletedBlocks(c, core.mgr, p, begin, data);
      assert Finished(p, r.content) in EventsOf(p, r);
      assert PieceAgrees(c, after, p, r.content);
      forall b: nat | b < |blocks| && b != r.block
        ensures ExactLength(Size(t, p), blocks, b)
      {
        assert BlockAgrees(c, core, p, b);
      }
      LengthForced(Size(t, p), blocks, r.block);
    }
  }

  lemma FittingData(c: Config, core: Core, p: nat, begin: nat, data: seq<byte>)
    requires CoreOk(c, core) && FitsBlock(c, core, p, begin, data)
    ensures c.torrent.WellFormed()
    ensures var r := ProcessOutcome(c, core.mgr, p, begin, data);
            r.Stored? || r.Completed? ==> p < |c.torrent.pieces| && ExactData(c.torrent, p, r.block, data)
  {
    hide Torrent.WellFormed, Inv, ProcessOutcome, ExactData, FailsHash, Outstanding;
    ActiveInRange(c.torrent, core.mgr, p);
    OutcomeByGuards(c, core.mgr, p, begin, data);
    var r := ProcessOutcome(c, core.mgr, p, begin, data);
    if !r.Ignored? {
      assert Outstanding(core.mgr, p, begin, r.block);
    }
  }

  lemma KeptBlock(c: Config, core: Core, p: nat, begin: nat, data: seq<byte>, u: nat, b: nat)
    requires Agree(c, core) && Agree(c, StoreBlock(c, core, p, begin, data))
    requires FitsBlock(c, core, p, begin, data)
    requires DownloadedAt(core.mgr, u, b) && !(u == p && ProcessOutcome(c, core.mgr, p, begin, data).Failed?)
    ensures c.torrent.WellFormed() && u < |c.torrent.pieces| && b < BlockCount(Size(c.torrent, u))
    ensures BlockBytes(c.torrent, StoreBlock(c, core, p, begin, data).image, u, b) ==
            BlockBytes(c.torrent, core.image, u, b)
  {
    hide Torrent.WellFormed, Inv, AfterProcess, ProcessOutcome, Patch, BlockBytes, Size, BlockCount, DownloadedAt,
         PieceBytes, Joined, FitsBlock;
    FittingData(c, core, p, begin, data);
    ActiveInRange(c.torrent, core.mgr, p);
    var t, r := c.torrent, ProcessOutcome(c, core.mgr, p, begin, data);
    var after := StoreBlock(c, core, p, begin, data);
    DownloadedInRange(t, core.mgr, u, b);
    assert BlockAgrees(c, core, u, b);
    AcceptedBlock(c, core.mgr, p, begin, data);
    StoreBlockDownloads(c, core.mgr, p, begin, data, u, b);
    if DownloadedAt(after.mgr, u, b) {
      assert BlockAgrees(c, after, u, b);
    } else {
      assert u == p && r.Completed?;
      var blocks := CompletedBlocks(c, core.mgr, p, begin, data);
      assert Finished(p, r.content) in EventsOf(p, r);
      assert PieceAgrees(c, after, p, r.content);
      forall i: nat | i < |blocks|
        ensures ExactLength(Size(t, p), blocks, i)
      {
        if i != r.block {
          assert BlockAgrees(c, core, p, i);
        }
      }
      PieceIsJoinedExactly(t, after.image, p, blocks);
    }
  }

  lemma KeptSparesBlocks(c: Config, core: Core, p: nat, begin: nat, data: seq<byte>)
    requires Agree(c, core) && Agree(c, StoreBlock(c, core, p, begin, data))
    requires FitsBlock(c, core, p, begin, data)
    ensures SparesBlocks(c, core, p, begin, data)
  {
    hide Torrent.WellFormed, Inv, AfterProcess, ProcessOutcome, Patch, BlockBytes, Size, BlockCount, DownloadedAt,
         BlockAgrees, PieceAgrees, Spares, InBlock, FitsBlock, FailsHash, Outstanding;
    OutcomeByGuards(c, core.mgr, p, begin, data);
    ActiveInRange(c.torrent, core.mgr, p);
    forall u: nat, b: nat, q: nat |
      q < |core.image| && DownloadedAt(core.mgr, u, b) && InBlock(c.torrent, u, b, q)
      && !(u == p && FailsHash(c, core.mgr, p, begin, data))
      ensures c.torrent.WellFormed() && Spares(c, core, p, begin, data, q)
    {
      KeptBlock(c, core, p, begin, data, u, b);
      SparedBlock(c, core, p, begin, data, u, b);
    }
  }

  lemma KeptSparesPieces(c: Config, core: Core, p: nat, begin: nat, data: seq<byte>)
    requires Agree(c, core) && Agree(c, StoreBlock(c, core, p, begin, data))
    ensures SparesPieces(c, core, p, begin, data)
  {
    hide Torrent.WellFormed, Inv, AfterProcess, ProcessOutcome, Patch, PieceBytes, Size, DownloadedAt, Spares, InPiece;
    var after := StoreBlock(c, core, p, begin, data);
    AcceptedBlock(c, core.mgr, p, begin, data);
    forall u: nat, content, q: nat | q < |core.image| && Finished(u, content) in core.log && InPiece(c.torrent, u, q)
      ensures Spares(c, core, p, begin, data, q)
    {
      assert Finished(u, content) in after.log;
      assert PieceAgrees(c, core, u, content) && PieceAgrees(c, after, u, content);
      SparedPiece(c, core, p, begin, data, u);
    }
  }

  /** Agreement survives a block exactly when the block is honest: since it is written before it is
      looked at, it must repeat the downloaded and completed bytes it falls on, and it must have
      the length of the block it is kept as. */
  lemma AgreementExactly(c: Config, core: Core, p: nat, begin: nat, data: seq<byte>)
    requires Agree(c, core)
    ensures Agree(c, StoreBlock(c, core, p, begin, data)) <==> Honest(c, core, p, begin, data)
  {
    assert CoreOk(c, core);
    hide Agree, SparesBlocks, SparesPieces, FitsBlock, CoreOk;
    if Honest(c, core, p, begin, data) {
      HonestKeepsAgreement(c, core, p, begin, data);
    }
    if Agree(c, StoreBlock(c, core, p, begin, data)) {
      KeptFits(c, core, p, begin, data);
      KeptSparesBlocks(c, core, p, begin, data);
      KeptSparesPieces(c, core, p, begin, data);
    }
  }

  /** A block that names an active piece's outstanding block and carries exactly its length is
      honest. */
  ghost predicate NamesOutstanding(c: Config, core: Core, p: nat, begin: nat, data: seq<byte>)
    requires CoreOk(c, core)
  {
    exists b: nat :: && p in core.mgr.active && b < |core.mgr.active[p].blocks|
                     && core.mgr.active[p].blocks[b].offset == begin
                     && core.mgr.active[p].blocks[b].state != Downloaded
                     && |data| == core.mgr.active[p].blocks[b].length
  }

  lemma OutstandingRange(c: Config, core: Core, p: nat, begin: nat, data: seq<byte>) returns (b: nat)
    requires CoreOk(c, core) && NamesOutstanding(c, core, p, begin, data)
    ensures c.torrent.WellFormed() && p < |c.torrent.pieces| && !core.mgr.completed[p]
    ensures ExactData(c.torrent, p, b, data) && begin == b * BLOCK_SIZE && !DownloadedAt(core.mgr, p, b)
    ensures forall q: nat :: Place(c.torrent, p, begin) <= q < Place(c.torrent, p, begin) + |data| <==>
            InBlock(c.torrent, p, b, q)
  {
    hide Torrent.WellFormed, InBlock, Size, BlockCount;
    b :| && p in core.mgr.active && b < |core.mgr.active[p].blocks|
         && core.mgr.active[p].blocks[b].offset == begin
         && core.mgr.active[p].blocks[b].state != Downloaded
         && |data| == core.mgr.active[p].blocks[b].length;
    ActiveInRange(c.torrent, core.mgr, p);
    assert GoodBlock(c.torrent, p, b, core.mgr.active[p].blocks[b]);
    BlockInTorrent(c.torrent, p, b);
  }

  lemma InBlockInPiece(t: Torrent, p: nat, b: nat, q: nat)
    requires t.WellFormed() && InBlock(t, p, b, q)
    ensures InPiece(t, p, q)
  {
    PieceSizeRange(t, p);
    BlockInTorrent(t, p, b);
  }

  lemma PiecesDisjoint(t: Torrent, u: nat, p: nat, q: nat)
    requires t.WellFormed() && InPiece(t, u, q) && InPiece(t, p, q)
    ensures u == p
  {
    PieceSizeRange(t, u);
    PieceSizeRange(t, p);
    QuotientIs(q, t.pieceLength, u);
    QuotientIs(q, t.pieceLength, p);
  }

  lemma OutstandingIsHonest(c: Config, core: Core, p: nat, begin: nat, data: seq<byte>)
    requires HistoryInv(c, core) && NamesOutstanding(c, core, p, begin, data)
    ensures Honest(c, core, p, begin, data)
  {
    var b := OutstandingRange(c, core, p, begin, data);
    var t := c.torrent;
    hide Torrent.WellFormed, InBlock, Size, BlockCount, Inv, InPiece, DownloadedAt, ProcessOutcome, Place, Balanced;
    forall u: nat, i: nat, q: nat | q < |core.image| && DownloadedAt(core.mgr, u, i) && InBlock(t, u, i, q)
      ensures Spares(c, core, p, begin, data, q)
    {
      if InBlock(t, p, b, q) {
        BlocksDisjoint(t, u, i, p, b, q);
      }
    }
    forall u: nat, content, q: nat | q < |core.image| && Finished(u, content) in core.log && InPiece(t, u, q)
      ensures Spares(c, core, p, begin, data, q)
    {
      if InBlock(t, p, b, q) {
        InBlockInPiece(t, p, b, q);
        PiecesDisjoint(t, u, p, q);
      }
    }
    OutstandingFits(c, core, p, begin, data, b);
  }

  lemma OutstandingFits(c: Config, core: Core, p: nat, begin: nat, data: seq<byte>, b: nat)
    requires CoreOk(c, core) && c.torrent.WellFormed() && p < |c.torrent.pieces|
    requires ExactData(c.torrent, p, b, data) && begin == b * BLOCK_SIZE
    ensures FitsBlock(c, core, p, begin, data)
  {
    hide Torrent.WellFormed, Size, BlockCount, Inv, ProcessOutcome, FailsHash, Outstanding;
    OutcomeByGuards(c, core.mgr, p, begin, data);
    AcceptedBlock(c, core.mgr, p, begin, data);
  }
}
