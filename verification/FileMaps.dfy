/** The torrent's bytes as one range laid over a list of files. */
module FileMaps {

  datatype FileEntry = FileEntry(path: string, length: nat, globalOffset: nat)
  {
    function End(): nat {
      globalOffset + length
    }
  }

  datatype FileSlice = FileSlice(path: string, fileOffset: nat, size: nat)

  /** One byte of one file. */
  datatype Spot = Spot(path: string, offset: nat)

  /** Where the first `i` files end. */
  function StartAt(files: seq<FileEntry>, i: nat): nat
    requires i <= |files|
  {
    if i == 0 then 0 else files[i - 1].End()
  }

  function Total(files: seq<FileEntry>): nat {
    StartAt(files, |files|)
  }

  /** File `i` starts where the one before it ends. */
  predicate Follows(files: seq<FileEntry>, i: nat) {
    i < |files| ==> files[i].globalOffset == StartAt(files, i)
  }

  ghost predicate Contiguous(files: seq<FileEntry>) {
    forall i: nat :: Follows(files, i)
  }

  predicate DistinctPaths(files: seq<FileEntry>) {
    forall i, j :: 0 <= i < j < |files| ==> files[i].path != files[j].path
  }

  // ---- one byte at a time ----

  /** Linear search, from file `i` on, for the file that holds byte `g`. */
  ghost function FindFile(files: seq<FileEntry>, i: nat, g: nat): (r: nat)
    requires Contiguous(files) && i < |files| && files[i].globalOffset <= g < Total(files)
    ensures i <= r < |files| && files[r].globalOffset <= g < files[r].End()
    decreases |files| - i
  {
    if g < files[i].End() then i
    else
      assert Follows(files, i + 1);
      FindFile(files, i + 1, g)
  }

  /** The place of byte `g` of the torrent. */
  ghost function SpotOf(files: seq<FileEntry>, g: nat): Spot
    requires Contiguous(files) && g < Total(files)
  {
    assert Follows(files, 0);
    var f := files[FindFile(files, 0, g)];
    Spot(f.path, g - f.globalOffset)
  }

  lemma {:induction false} OffsetsMonotone(files: seq<FileEntry>, i: nat, j: nat)
    requires Contiguous(files) && i < j < |files|
    ensures files[i].End() <= files[j].globalOffset
    decreases j
  {
    assert Follows(files, j);
    if i < j - 1 {
      OffsetsMonotone(files, i, j - 1);
    }
  }

  lemma EndsInTotal(files: seq<FileEntry>, i: nat)
    requires Contiguous(files) && i < |files|
    ensures files[i].End() <= Total(files)
  {
    if i < |files| - 1 {
      OffsetsMonotone(files, i, |files| - 1);
    }
  }

  /** Only one file holds a given byte, so every search finds the same place. */
  lemma SpotIs(files: seq<FileEntry>, g: nat, i: nat)
    requires Contiguous(files) && i < |files| && files[i].globalOffset <= g < files[i].End()
    ensures g < Total(files) && SpotOf(files, g) == Spot(files[i].path, g - files[i].globalOffset)
  {
    EndsInTotal(files, i);
    assert Follows(files, 0);
    var r := FindFile(files, 0, g);
    if r < i {
      OffsetsMonotone(files, r, i);
    } else if i < r {
      OffsetsMonotone(files, i, r);
    }
  }

  /** Different bytes of the torrent have different places. */
  lemma SpotsDistinct(files: seq<FileEntry>, g: nat, h: nat)
    requires Contiguous(files) && DistinctPaths(files)
    requires g < Total(files) && h < Total(files) && g != h
    ensures SpotOf(files, g) != SpotOf(files, h)
  {
    assert Follows(files, 0);
    var i, j := FindFile(files, 0, g), FindFile(files, 0, h);
    assert i != j ==> files[i].path != files[j].path;
  }

  // ---- slices ----

  function SpotsOf(s: FileSlice): seq<Spot> {
    seq(s.size, k requires 0 <= k => Spot(s.path, s.fileOffset + k))
  }

  /** The places a list of slices covers, in order. */
  function Expand(slices: seq<FileSlice>): seq<Spot> {
    if slices == [] then [] else Expand(slices[..|slices| - 1]) + SpotsOf(slices[|slices| - 1])
  }

  lemma {:induction false} ExpandConcat(a: seq<FileSlice>, b: seq<FileSlice>)
    ensures Expand(a + b) == Expand(a) + Expand(b)
  {
    if b == [] {
      assert a + b == a;
    } else {
      var init := b[..|b| - 1];
      assert (a + b)[..|a + b| - 1] == a + init;
      ExpandConcat(a, init);
    }
  }

  /** The slice of file `f` at the current offset; `None` leaves the file out. */
  predicate Hits(f: FileEntry, current: nat, left: nat) {
    left > 0 && f.globalOffset <= current < f.End()
  }

  function Hit(f: FileEntry, current: nat, left: nat): (s: FileSlice)
    requires Hits(f, current, left)
    ensures 0 < s.size <= left
    ensures s.fileOffset + s.size <= f.length
  {
    var offset := current - f.globalOffset;
    FileSlice(f.path, offset, if left < f.length - offset then left else f.length - offset)
  }

  /** The slices that files `i` onwards contribute to `left` bytes at `current`. */
  function Slices(files: seq<FileEntry>, i: nat, current: nat, left: nat): seq<FileSlice>
    requires i <= |files|
    decreases |files| - i
  {
    if i == |files| then []
    else if Hits(files[i], current, left) then
      var s := Hit(files[i], current, left);
      [s] + Slices(files, i + 1, current + s.size, left - s.size)
    else Slices(files, i + 1, current, left)
  }

  function MapBlock(files: seq<FileEntry>, g: nat, length: nat): seq<FileSlice> {
    Slices(files, 0, g, length)
  }

  /** How many of `length` bytes at `g` lie inside the torrent. */
  function Mapped(files: seq<FileEntry>, g: nat, length: nat): (n: nat)
    ensures n <= length
    ensures n == length || g + n == Total(files) || (n == 0 && Total(files) <= g)
  {
    if g >= Total(files) then 0
    else if length < Total(files) - g then length
    else Total(files) - g
  }

  /** The places of `n` consecutive bytes, found one at a time. */
  ghost function SpotRun(files: seq<FileEntry>, g: nat, n: nat): seq<Spot>
    requires Contiguous(files) && (n > 0 ==> g + n <= Total(files))
  {
    seq(n, k requires 0 <= k < n => SpotOf(files, g + k))
  }

  lemma SpotRunSplits(files: seq<FileEntry>, g: nat, m: nat, n: nat)
    requires Contiguous(files) && (m + n > 0 ==> g + m + n <= Total(files))
    ensures SpotRun(files, g, m + n) == SpotRun(files, g, m) + SpotRun(files, g + m, n)
  {
  }

  lemma HitSpots(files: seq<FileEntry>, i: nat, current: nat, left: nat)
    requires Contiguous(files) && i < |files| && Hits(files[i], current, left)
    ensures var s := Hit(files[i], current, left);
            current + s.size <= Total(files) && SpotsOf(s) == SpotRun(files, current, s.size)
  {
    var s := Hit(files[i], current, left);
    EndsInTotal(files, i);
    forall k: nat | k < s.size
      ensures SpotsOf(s)[k] == SpotOf(files, current + k)
    {
      SpotIs(files, current + k, i);
    }
  }

  lemma {:induction false} SlicesExpand(files: seq<FileEntry>, i: nat, current: nat, left: nat)
    requires Contiguous(files) && i <= |files|
    requires left == 0 || current >= StartAt(files, i)
    ensures Expand(Slices(files, i, current, left)) == SpotRun(files, current, Mapped(files, current, left))
    decreases |files| - i
  {
    hide SpotRun, SpotsOf, SpotOf, Expand, Hit, Contiguous;
    if i == |files| {
      ExpandNothing();
      SpotRunSplits(files, current, 0, 0);
    } else if Hits(files[i], current, left) {
      var s := Hit(files[i], current, left);
      var rest := Slices(files, i + 1, current + s.size, left - s.size);
      HitReaches(files, i, current, left);
      SlicesExpand(files, i + 1, current + s.size, left - s.size);
      SlicesAfterHit(files, i, current, left, rest);
    } else {
      NoHitReaches(files, i, current, left);
      SlicesExpand(files, i + 1, current, left);
    }
  }

  /** After a hit the next file starts where the offset stands, if bytes are left. */
  lemma HitReaches(files: seq<FileEntry>, i: nat, current: nat, left: nat)
    requires Contiguous(files) && i < |files| && Hits(files[i], current, left)
    ensures var s := Hit(files[i], current, left);
            left == s.size || current + s.size >= StartAt(files, i + 1)
  {
  }

  lemma NoHitReaches(files: seq<FileEntry>, i: nat, current: nat, left: nat)
    requires Contiguous(files) && i < |files| && !Hits(files[i], current, left)
    requires left == 0 || current >= StartAt(files, i)
    ensures left == 0 || current >= StartAt(files, i + 1)
  {
    assert Follows(files, i);
  }

  lemma SlicesAfterHit(files: seq<FileEntry>, i: nat, current: nat, left: nat, rest: seq<FileSlice>)
    requires Contiguous(files) && i < |files| && Hits(files[i], current, left)
    requires var s := Hit(files[i], current, left);
             Expand(rest) == SpotRun(files, current + s.size, Mapped(files, current + s.size, left - s.size))
    ensures Expand([Hit(files[i], current, left)] + rest) == SpotRun(files, current, Mapped(files, current, left))
  {
    hide SpotRun, SpotsOf, SpotOf, Contiguous;
    var s := Hit(files[i], current, left);
    HitSpots(files, i, current, left);
    ExpandConcat([s], rest);
    ExpandOne(s);
    SpotRunSplits(files, current, s.size, Mapped(files, current + s.size, left - s.size));
  }

  lemma ExpandNothing()
    ensures Expand([]) == []
  {
  }

  lemma ExpandOne(s: FileSlice)
    ensures Expand([s]) == SpotsOf(s)
  {
    hide SpotsOf;
    assert [s][..0] == [];
    assert Expand([s][..0]) == [];
  }

  lemma {:induction false} NothingLeft(files: seq<FileEntry>, i: nat, current: nat)
    requires i <= |files|
    ensures Slices(files, i, current, 0) == []
    decreases |files| - i
  {
    if i < |files| {
      NothingLeft(files, i + 1, current);
    }
  }

  /** Mapping a range lists exactly the places that looking up its bytes one at a time finds,
      cut off at the end of the torrent. */
  lemma MapBlockExpands(files: seq<FileEntry>, g: nat, length: nat)
    requires Contiguous(files)
    ensures Expand(MapBlock(files, g, length)) == SpotRun(files, g, Mapped(files, g, length))
  {
    SlicesExpand(files, 0, g, length);
  }

  /** Mapping a + b bytes covers what mapping a bytes and then b more covers. */
  lemma MapBlockSplits(files: seq<FileEntry>, g: nat, a: nat, b: nat)
    requires Contiguous(files)
    ensures Expand(MapBlock(files, g, a + b)) == Expand(MapBlock(files, g, a)) + Expand(MapBlock(files, g + a, b))
  {
    MapBlockExpands(files, g, a + b);
    MapBlockExpands(files, g, a);
    MapBlockExpands(files, g + a, b);
  }

  /** Slice `k` is a non-empty part of file `at[k]`. */
  predicate PartOf(files: seq<FileEntry>, s: FileSlice, f: nat) {
    f < |files| && s.size > 0 && s.path == files[f].path && s.fileOffset + s.size <= files[f].length
  }

  /** Slices are non-empty, each lies inside one file, and the files are visited in order, each
      at most once. */
  lemma {:induction false} SlicesInOrder(files: seq<FileEntry>, i: nat, current: nat, left: nat) returns (at: seq<nat>)
    requires i <= |files|
    ensures |at| == |Slices(files, i, current, left)|
    ensures forall k :: 0 <= k < |at| ==> i <= at[k] && PartOf(files, Slices(files, i, current, left)[k], at[k])
    ensures forall k, l :: 0 <= k < l < |at| ==> at[k] < at[l]
    decreases |files| - i
  {
    hide PartOf, Hit;
    if i == |files| {
      at := [];
    } else if Hits(files[i], current, left) {
      var s := Hit(files[i], current, left);
      var rest := SlicesInOrder(files, i + 1, current + s.size, left - s.size);
      HitIsPart(files, i, current, left);
      at := [i] + rest;
    } else {
      at := SlicesInOrder(files, i + 1, current, left);
    }
  }

  lemma HitIsPart(files: seq<FileEntry>, i: nat, current: nat, left: nat)
    requires i < |files| && Hits(files[i], current, left)
    ensures PartOf(files, Hit(files[i], current, left), i)
  {
  }

  class FileMap {
    var files: seq<FileEntry>
    var totalSize: nat

    ghost predicate Valid()
      reads this
    {
      Contiguous(files) && totalSize == Total(files)
    }

    constructor ()
      ensures Valid() && files == []
    {
      files := [];
      totalSize := 0;
    }

    method AddFile(path: string, length: nat)
      requires Valid()
      modifies this
      ensures Valid()
      ensures files == old(files) + [FileEntry(path, length, Total(old(files)))]
      ensures totalSize == old(totalSize) + length
    {
      var before := files;
      files := files + [FileEntry(path, length, totalSize)];
      totalSize := totalSize + length;
      forall i: nat
        ensures Follows(files, i)
      {
        assert Follows(before, i);
      }
    }

    method Map(globalOffset: nat, length: nat) returns (slices: seq<FileSlice>)
      ensures slices == MapBlock(files, globalOffset, length)
    {
      slices := [];
      var bytesLeft: nat := length;
      var currentOffset: nat := globalOffset;
      var i := 0;
      while i < |files|
        invariant 0 <= i <= |files|
        invariant MapBlock(files, globalOffset, length) == slices + Slices(files, i, currentOffset, bytesLeft)
      {
        if bytesLeft == 0 {
          break;
        }
        var file := files[i];
        var fileStart := file.globalOffset;
        var fileEnd := file.globalOffset + file.length;
        if currentOffset >= fileStart && currentOffset < fileEnd {
          var offsetInFile := currentOffset - fileStart;
          var roomInFile := file.length - offsetInFile;
          var bytesInThisFile := if bytesLeft < roomInFile then bytesLeft else roomInFile;
          slices := slices + [FileSlice(file.path, offsetInFile, bytesInThisFile)];
          currentOffset := currentOffset + bytesInThisFile;
          bytesLeft := bytesLeft - bytesInThisFile;
        }
        i := i + 1;
      }
      if i < |files| {
        NothingLeft(files, i, currentOffset);
      }
    }
  }
}
