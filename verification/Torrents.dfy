/** The torrent's shape: its sizes, and how pieces are cut into blocks. */
module Torrents {
  import opened Bytes

  const BLOCK_SIZE: nat := 16384

  datatype FileInfo = FileInfo(length: int, path: seq<string>)

  datatype Torrent = Torrent(
    name: string,
    pieceLength: int,
    pieces: seq<seq<byte>>,
    length: int,
    files: seq<FileInfo>)
  {
    predicate IsMultiFile() {
      files != []
    }

    function TotalSize(): int {
      if IsMultiFile() then SumLengths(files) else length
    }

    /** The relation between sizes and piece count that the metainfo parser does not check. */
    predicate WellFormed() {
      && 0 < pieceLength <= TWO_32 - BLOCK_SIZE
      && |pieces| < 0x8000_0000
      && (|pieces| - 1) * pieceLength < TotalSize() <= |pieces| * pieceLength
      && length >= 0
      && (forall i :: 0 <= i < |files| ==> files[i].length >= 0)
    }

    /** The number of bytes in piece `p`; only the last piece may be short. */
    function PieceSize(p: nat): int {
      if p * pieceLength + pieceLength > TotalSize() then TotalSize() - p * pieceLength else pieceLength
    }
  }

  function SumLengths(files: seq<FileInfo>): int {
    if files == [] then 0 else SumLengths(files[..|files| - 1]) + files[|files| - 1].length
  }

  method ComputeTotalSize(t: Torrent) returns (total: int)
    ensures total == t.TotalSize()
  {
    if !t.IsMultiFile() {
      return t.length;
    }
    total := 0;
    for i := 0 to |t.files|
      invariant total == SumLengths(t.files[..i])
    {
      assert t.files[..i + 1][..i] == t.files[..i];
      total := total + t.files[i].length;
    }
    assert t.files[..|t.files|] == t.files;
  }

  lemma {:induction false} SumSplits(a: seq<FileInfo>, b: seq<FileInfo>)
    ensures SumLengths(a + b) == SumLengths(a) + SumLengths(b)
  {
    if b == [] {
      assert a + b == a;
    } else {
      var init := b[..|b| - 1];
      assert (a + b)[..|a + b| - 1] == a + init;
      SumSplits(a, init);
    }
  }

  /** The size of a torrent with files is what its files add up to, one by one; only one without files
      has its own length. */
  lemma TotalExactly(t: Torrent, f: FileInfo)
    ensures t.files == [] ==> t.TotalSize() == t.length
    ensures t.files == [f] ==> t.TotalSize() == f.length
    ensures t.files != [] ==> t.(files := t.files + [f]).TotalSize() == t.TotalSize() + f.length
  {
    SumSplits(t.files, [f]);
    assert [f][..0] == [] && SumLengths([f][..0]) == 0;
  }

  // ---- blocks ----

  datatype BlockState = Missing | Requested | Downloaded

  datatype Block = Block(index: nat, offset: nat, length: nat, state: BlockState, data: seq<byte>)

  function BlockCount(size: nat): nat {
    (size + BLOCK_SIZE - 1) / BLOCK_SIZE
  }

  function BlockLength(size: nat, i: nat): (r: nat)
    requires i < BlockCount(size)
    ensures 1 <= r <= BLOCK_SIZE
    ensures i * BLOCK_SIZE + r <= size
    ensures i + 1 < BlockCount(size) ==> r == BLOCK_SIZE
    ensures i + 1 == BlockCount(size) ==> i * BLOCK_SIZE + r == size
  {
    if size - i * BLOCK_SIZE < BLOCK_SIZE then size - i * BLOCK_SIZE else BLOCK_SIZE
  }

  /** The blocks of a piece of `size` bytes, none of them requested yet. */
  function FreshBlocks(size: nat): (r: seq<Block>)
    ensures |r| == BlockCount(size)
  {
    seq(BlockCount(size), i requires 0 <= i < BlockCount(size) =>
      Block(i, i * BLOCK_SIZE, BlockLength(size, i), Missing, []))
  }

  /** The block count as the source computes it, in 32 bits. */
  function BlockCount32(size: nat): nat {
    U32(size + BLOCK_SIZE - 1) / BLOCK_SIZE
  }

  /** Up to 2^32 - BLOCK_SIZE bytes the 32-bit count is the number of blocks needed; above
      that the sum wraps and a non-empty piece gets no block at all. */
  lemma BlockCountExactly(size: nat)
    requires size < TWO_32
    ensures BlockCount32(size) == BlockCount(size) <==> size <= TWO_32 - BLOCK_SIZE
    ensures size > TWO_32 - BLOCK_SIZE ==> BlockCount32(size) == 0 && BlockCount(size) > 0
  {
    if size > TWO_32 - BLOCK_SIZE {
      assert size + BLOCK_SIZE - 1 == TWO_32 + (size + BLOCK_SIZE - 1 - TWO_32);
      assert U32(size + BLOCK_SIZE - 1) == size + BLOCK_SIZE - 1 - TWO_32;
    }
  }

  // ---- tiling ----

  lemma PieceSizeRange(t: Torrent, p: nat)
    requires t.WellFormed() && p < |t.pieces|
    ensures 0 < t.PieceSize(p) <= t.pieceLength
    ensures p * t.pieceLength + t.PieceSize(p) <= t.TotalSize()
    ensures p + 1 < |t.pieces| ==> t.PieceSize(p) == t.pieceLength
    ensures p + 1 == |t.pieces| ==> p * t.pieceLength + t.PieceSize(p) == t.TotalSize()
  {
    PieceEdges(t, p);
    hide Torrent.WellFormed;
  }

  lemma TimesSuccessor(p: int, d: int)
    ensures (p + 1) * d == p * d + d
  {
  }

  /** Where the next piece begins, seen from the torrent's end. */
  lemma PieceEdges(t: Torrent, p: nat)
    requires t.WellFormed() && p < |t.pieces|
    ensures 0 < t.pieceLength && p * t.pieceLength < t.TotalSize()
    ensures p + 1 < |t.pieces| ==> p * t.pieceLength + t.pieceLength < t.TotalSize()
    ensures p + 1 == |t.pieces| ==> t.TotalSize() <= p * t.pieceLength + t.pieceLength
  {
    var n, d := |t.pieces|, t.pieceLength;
    TimesSuccessor(p, d);
    TimesMonotone(p, n - 1, d);
    if p + 1 < n {
      TimesMonotone(p + 1, n - 1, d);
    }
  }

  /** The first byte of block `b` of piece `p` in the whole torrent. */
  function BlockStart(t: Torrent, p: nat, b: nat): int {
    p * t.pieceLength + b * BLOCK_SIZE
  }

  /** Byte `g` of the torrent lies in block `b` of piece `p`. */
  predicate InBlock(t: Torrent, p: nat, b: nat, g: int) {
    && p < |t.pieces|
    && t.PieceSize(p) >= 0
    && b < BlockCount(t.PieceSize(p))
    && BlockStart(t, p, b) <= g < BlockStart(t, p, b) + BlockLength(t.PieceSize(p), b)
  }

  /** The blocks of all pieces tile the torrent: each byte lies in one block, found by division,
      and in no other; a byte outside the torrent lies in none. */
  lemma TilingExactly(t: Torrent, p: nat, b: nat, g: int)
    requires t.WellFormed()
    ensures InBlock(t, p, b, g) <==>
            0 <= g < t.TotalSize() && p == g / t.pieceLength && b == g % t.pieceLength / BLOCK_SIZE
  {
    if InBlock(t, p, b, g) {
      InBlockDivides(t, p, b, g);
    } else if 0 <= g < t.TotalSize() && p == g / t.pieceLength && b == g % t.pieceLength / BLOCK_SIZE {
      DividedInBlock(t, g);
    }
  }

  lemma InBlockDivides(t: Torrent, p: nat, b: nat, g: int)
    requires t.WellFormed() && InBlock(t, p, b, g)
    ensures 0 <= g < t.TotalSize() && p == g / t.pieceLength && b == g % t.pieceLength / BLOCK_SIZE
  {
    hide Torrent.WellFormed, BlockCount;
    PieceSizeRange(t, p);
    InPieceDivides(g, p * t.pieceLength, t.pieceLength, p, b);
  }

  lemma InPieceDivides(g: int, start: int, d: int, p: nat, b: nat)
    requires d > 0 && start == p * d && start + b * BLOCK_SIZE <= g
    requires g < start + d && g < start + b * BLOCK_SIZE + BLOCK_SIZE
    ensures p == g / d && b == g % d / BLOCK_SIZE
  {
    QuotientIs(g, d, p);
    var r := g - start;
    assert g % d == r;
    assert b * BLOCK_SIZE <= r < b * BLOCK_SIZE + BLOCK_SIZE;
  }

  lemma DividedInBlock(t: Torrent, g: int)
    requires t.WellFormed() && 0 <= g < t.TotalSize()
    ensures g / t.pieceLength >= 0
    ensures InBlock(t, g / t.pieceLength, g % t.pieceLength / BLOCK_SIZE, g)
  {
    hide Torrent.WellFormed, InBlock;
    PieceLengthPositive(t);
    DivisionSplits(g, t.pieceLength);
    SplitInBlock(t, g / t.pieceLength, g % t.pieceLength);
  }

  lemma PieceLengthPositive(t: Torrent)
    requires t.WellFormed()
    ensures t.pieceLength > 0
  {
  }

  lemma DivisionSplits(g: nat, d: nat)
    requires d > 0
    ensures g / d >= 0 && 0 <= g % d < d && g == g / d * d + g % d
  {
  }

  lemma SplitInBlock(t: Torrent, p: nat, r: nat)
    requires t.WellFormed() && r < t.pieceLength && p * t.pieceLength + r < t.TotalSize()
    ensures InBlock(t, p, r / BLOCK_SIZE, p * t.pieceLength + r)
  {
    if p < |t.pieces| {
      PieceSizeRange(t, p);
      BlockFound(t.PieceSize(p), r);
    } else {
      TimesMonotone(|t.pieces|, p, t.pieceLength);
    }
  }

  lemma TimesMonotone(a: nat, b: nat, d: nat)
    requires a <= b
    ensures a * d <= b * d
  {
    assert b * d == a * d + (b - a) * d;
  }

  lemma BlockFound(size: nat, r: nat)
    requires r < size
    ensures r / BLOCK_SIZE < BlockCount(size)
    ensures r < r / BLOCK_SIZE * BLOCK_SIZE + BlockLength(size, r / BLOCK_SIZE)
  {
    var b := r / BLOCK_SIZE;
    assert b * BLOCK_SIZE < size;
  }

  /** Two different blocks share no byte. */
  lemma BlocksDisjoint(t: Torrent, p: nat, b: nat, q: nat, c: nat, g: int)
    requires t.WellFormed()
    requires InBlock(t, p, b, g) && InBlock(t, q, c, g)
    ensures p == q && b == c
  {
    TilingExactly(t, p, b, g);
    TilingExactly(t, q, c, g);
  }
}
