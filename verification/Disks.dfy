/** The files on disk, and the flat byte range they stand for. */
module Disks {
  import opened Bytes
  import opened FileMaps
  import opened Wrappers

  /** File contents by path; a file that was never opened is absent. */
  type Store = map<string, seq<byte>>

  function ContentOf(store: Store, path: string): seq<byte> {
    if path in store then store[path] else []
  }

  predicate Present(store: Store, x: Spot) {
    x.offset < |ContentOf(store, x.path)|
  }

  /** A byte of a file, zero past its end. */
  function ByteIn(store: Store, x: Spot): byte {
    if Present(store, x) then ContentOf(store, x.path)[x.offset] else 0
  }

  // ---- writing ----

  function Max(a: nat, b: nat): nat {
    if a < b then b else a
  }

  /** Seek and write: a gap between the end of the file and the offset reads as zeros. */
  function WriteAt(content: seq<byte>, offset: nat, data: seq<byte>): seq<byte> {
    seq(Max(|content|, offset + |data|), k requires 0 <= k =>
      if offset <= k < offset + |data| then data[k - offset]
      else if k < |content| then content[k]
      else 0)
  }

  function WriteSlice(store: Store, s: FileSlice, data: seq<byte>): Store
    requires |data| == s.size
  {
    store[s.path := WriteAt(ContentOf(store, s.path), s.fileOffset, data)]
  }

  /** The number of bytes a list of slices covers. */
  function Extent(slices: seq<FileSlice>): (n: nat)
    ensures n == |Expand(slices)|
  {
    if slices == [] then 0 else Extent(slices[..|slices| - 1]) + slices[|slices| - 1].size
  }

  /** Writes consecutive parts of `data` to consecutive slices. */
  function WriteSlices(store: Store, slices: seq<FileSlice>, data: seq<byte>): Store
    requires Extent(slices) <= |data|
  {
    if slices == [] then store
    else
      var init, last := slices[..|slices| - 1], slices[|slices| - 1];
      WriteSlice(WriteSlices(store, init, data), last, data[Extent(init)..Extent(init) + last.size])
  }

  predicate InSlice(s: FileSlice, x: Spot) {
    x.path == s.path && s.fileOffset <= x.offset < s.fileOffset + s.size
  }

  lemma WriteSliceByte(store: Store, s: FileSlice, data: seq<byte>, x: Spot)
    requires |data| == s.size
    ensures ByteIn(WriteSlice(store, s, data), x) ==
            if InSlice(s, x) then data[x.offset - s.fileOffset] else ByteIn(store, x)
    ensures InSlice(s, x) || Present(store, x) ==> Present(WriteSlice(store, s, data), x)
  {
  }

  predicate NoDuplicates(xs: seq<Spot>) {
    forall i, j :: 0 <= i < j < |xs| ==> xs[i] != xs[j]
  }

  lemma InSliceExactly(s: FileSlice, x: Spot)
    ensures InSlice(s, x) <==> x in SpotsOf(s)
    ensures InSlice(s, x) ==> SpotsOf(s)[x.offset - s.fileOffset] == x
  {
    if InSlice(s, x) {
      assert SpotsOf(s)[x.offset - s.fileOffset] == x;
    }
  }

  /** Writing slices keeps every byte outside them, and never removes a byte. */
  lemma {:induction false} WriteSlicesOther(store: Store, slices: seq<FileSlice>, data: seq<byte>, x: Spot)
    requires Extent(slices) <= |data|
    ensures x !in Expand(slices) ==> ByteIn(WriteSlices(store, slices, data), x) == ByteIn(store, x)
    ensures Present(store, x) ==> Present(WriteSlices(store, slices, data), x)
  {
    if slices != [] {
      hide Present, ByteIn, WriteSlice;
      var init, last := slices[..|slices| - 1], slices[|slices| - 1];
      var n := Extent(init);
      WriteSlicesOther(store, init, data, x);
      WriteSliceByte(WriteSlices(store, init, data), last, data[n..n + last.size], x);
      InSliceExactly(last, x);
    }
  }

  lemma DistinctParts(a: seq<Spot>, b: seq<Spot>)
    requires NoDuplicates(a + b)
    ensures NoDuplicates(a) && forall x :: x in a ==> x !in b
  {
    var whole := a + b;
    assert forall i :: 0 <= i < |a| ==> whole[i] == a[i];
    assert forall j :: 0 <= j < |b| ==> whole[|a| + j] == b[j];
  }

  /** Writing slices puts byte `k` of the data at the `k`-th place they cover. */
  lemma {:induction false} WriteSlicesAt(store: Store, slices: seq<FileSlice>, data: seq<byte>, k: nat)
    requires k < Extent(slices) <= |data|
    requires NoDuplicates(Expand(slices))
    ensures ByteIn(WriteSlices(store, slices, data), Expand(slices)[k]) == data[k]
    ensures Present(WriteSlices(store, slices, data), Expand(slices)[k])
  {
    hide Present, ByteIn, WriteSlice, InSlice, NoDuplicates;
    var init, last := slices[..|slices| - 1], slices[|slices| - 1];
    var n, x := Extent(init), Expand(slices)[k];
    var before := WriteSlices(store, init, data);
    WriteSliceByte(before, last, data[n..n + last.size], x);
    InSliceExactly(last, x);
    if k < n {
      DistinctParts(Expand(init), SpotsOf(last));
      WriteSlicesAt(store, init, data, k);
    } else {
      assert SpotsOf(last)[k - n] == x;
      assert x.offset - last.fileOffset == k - n;
    }
  }

  // ---- the flat image ----

  /** The torrent's bytes as the files hold them. */
  ghost function Image(files: seq<FileEntry>, store: Store): (r: seq<byte>)
    requires Contiguous(files)
    ensures |r| == Total(files)
  {
    seq(Total(files), g requires 0 <= g < Total(files) => ByteIn(store, SpotOf(files, g)))
  }

  /** A flat array after `data` is written at `g`; what would fall past its end is dropped. */
  function Patch(image: seq<byte>, g: nat, data: seq<byte>): (r: seq<byte>)
    ensures |r| == |image|
  {
    seq(|image|, q requires 0 <= q < |image| => if g <= q < g + |data| then data[q - g] else image[q])
  }

  ghost function WriteBlock(files: seq<FileEntry>, store: Store, g: nat, data: seq<byte>): Store
    requires Contiguous(files)
  {
    MapBlockExpands(files, g, |data|);
    WriteSlices(store, MapBlock(files, g, |data|), data)
  }

  lemma RunHasNoDuplicates(files: seq<FileEntry>, g: nat, n: nat)
    requires Contiguous(files) && DistinctPaths(files) && (n > 0 ==> g + n <= Total(files))
    ensures NoDuplicates(SpotRun(files, g, n))
  {
    hide SpotOf;
    forall i, j | 0 <= i < j < n
      ensures SpotRun(files, g, n)[i] != SpotRun(files, g, n)[j]
    {
      SpotsDistinct(files, g + i, g + j);
    }
  }

  lemma MappedSlicesPositive(files: seq<FileEntry>, g: nat, length: nat)
    ensures forall i :: 0 <= i < |MapBlock(files, g, length)| ==> MapBlock(files, g, length)[i].size > 0
  {
    var at := SlicesInOrder(files, 0, g, length);
  }

  /** What a block write does to the byte at place `q`, and that it leaves every byte it covers
      readable. */
  lemma WriteBlockByte(files: seq<FileEntry>, store: Store, g: nat, data: seq<byte>, q: nat)
    requires Contiguous(files) && DistinctPaths(files) && q < Total(files)
    ensures var after, x := WriteBlock(files, store, g, data), SpotOf(files, q);
            && ByteIn(after, x) == (if g <= q < g + |data| then data[q - g] else ByteIn(store, x))
            && (g <= q < g + |data| || Present(store, x) ==> Present(after, x))
  {
    hide Present, ByteIn, SpotOf, WriteSlices, MapBlock, Expand;
    var slices, n, x := MapBlock(files, g, |data|), Mapped(files, g, |data|), SpotOf(files, q);
    MapBlockExpands(files, g, |data|);
    RunHasNoDuplicates(files, g, n);
    WriteSlicesOther(store, slices, data, x);
    if g <= q < g + |data| {
      assert SpotRun(files, g, n)[q - g] == x;
      WriteSlicesAt(store, slices, data, q - g);
    } else {
      forall k | 0 <= k < n
        ensures SpotRun(files, g, n)[k] != x
      {
        SpotsDistinct(files, g + k, q);
      }
    }
  }

  /** The multi-file store refines a flat array: a block write across any file boundaries is one
      write to the image. */
  lemma WriteRefines(files: seq<FileEntry>, store: Store, g: nat, data: seq<byte>)
    requires Contiguous(files) && DistinctPaths(files)
    ensures Image(files, WriteBlock(files, store, g, data)) == Patch(Image(files, store), g, data)
  {
    hide WriteBlock, ByteIn, Present;
    forall q: nat | q < Total(files)
      ensures Image(files, WriteBlock(files, store, g, data))[q] == Patch(Image(files, store), g, data)[q]
    {
      WriteBlockByte(files, store, g, data, q);
    }
  }

  // ---- reading ----

  /** Reading a slice fails when the file ends before the slice does. */
  function ReadSlice(store: Store, s: FileSlice): Option<seq<byte>> {
    var content := ContentOf(store, s.path);
    if s.fileOffset + s.size <= |content| then Some(content[s.fileOffset..s.fileOffset + s.size]) else None
  }

  function ReadSlices(store: Store, slices: seq<FileSlice>): Option<seq<byte>> {
    if slices == [] then Some([])
    else
      match ReadSlices(store, slices[..|slices| - 1])
      case None => None
      case Some(before) =>
        match ReadSlice(store, slices[|slices| - 1])
        case None => None
        case Some(part) => Some(before + part)
  }

  function Zeros(n: nat): seq<byte> {
    seq(n, _ => 0)
  }

  /** A block read: what lies past the end of the torrent stays zero. */
  function ReadBlock(files: seq<FileEntry>, store: Store, g: nat, length: nat): Option<seq<byte>> {
    match ReadSlices(store, MapBlock(files, g, length))
    case None => None
    case Some(data) => Some(data + Zeros(if |data| < length then length - |data| else 0))
  }

  lemma {:induction false} ReadSlicesExactly(store: Store, slices: seq<FileSlice>)
    requires forall i :: 0 <= i < |slices| ==> slices[i].size > 0
    ensures ReadSlices(store, slices).Some? <==> forall x :: x in Expand(slices) ==> Present(store, x)
    ensures ReadSlices(store, slices).Some? ==>
              && |ReadSlices(store, slices).value| == |Expand(slices)|
              && forall k :: 0 <= k < |Expand(slices)| ==>
                   ReadSlices(store, slices).value[k] == ByteIn(store, Expand(slices)[k])
  {
    if slices != [] {
      var init, last := slices[..|slices| - 1], slices[|slices| - 1];
      ReadSlicesExactly(store, init);
      var xs, ys := Expand(init), SpotsOf(last);
      assert forall x :: x in Expand(slices) <==> x in xs || x in ys;
      if ReadSlice(store, last).None? {
        assert ys[last.size - 1] in ys && !Present(store, ys[last.size - 1]);
      }
    }
  }

  /** A read succeeds exactly when every byte it covers is on disk, and then returns the image,
      padded with zeros past the end of the torrent. */
  lemma ReadExactly(files: seq<FileEntry>, store: Store, g: nat, length: nat)
    requires Contiguous(files)
    ensures ReadBlock(files, store, g, length).Some? <==>
            forall q: nat :: g <= q < g + length && q < Total(files) ==> Present(store, SpotOf(files, q))
    ensures ReadBlock(files, store, g, length).Some? ==>
              var data := ReadBlock(files, store, g, length).value;
              && |data| == length
              && forall k: nat :: k < length ==>
                   data[k] == if g + k < Total(files) then Image(files, store)[g + k] else 0
  {
    hide SpotOf, Present, ByteIn, MapBlock, Expand, ReadSlices;
    var slices, n := MapBlock(files, g, length), Mapped(files, g, length);
    MapBlockExpands(files, g, length);
    MappedSlicesPositive(files, g, length);
    ReadSlicesExactly(store, slices);
    var run := SpotRun(files, g, n);
    forall q: nat | g <= q < g + length && q < Total(files)
      ensures SpotOf(files, q) in run
    {
      assert run[q - g] == SpotOf(files, q);
    }
    forall x | x in run
      ensures exists q: nat :: g <= q < g + length && q < Total(files) && SpotOf(files, q) == x
    {
      var k :| 0 <= k < n && run[k] == x;
      assert x == SpotOf(files, g + k);
    }
  }

  // ---- runs of writes ----

  datatype Write = Write(at: nat, data: seq<byte>)

  predicate Covers(w: Write, q: nat) {
    w.at <= q < w.at + |w.data|
  }

  ghost function AfterWrites(files: seq<FileEntry>, store: Store, ws: seq<Write>): Store
    requires Contiguous(files)
  {
    if ws == [] then store
    else WriteBlock(files, AfterWrites(files, store, ws[..|ws| - 1]), ws[|ws| - 1].at, ws[|ws| - 1].data)
  }

  /** Write `t` is the last one to cover byte `q`. */
  predicate Latest(ws: seq<Write>, t: nat, q: nat) {
    t < |ws| && Covers(ws[t], q) && forall u :: t < u < |ws| ==> !Covers(ws[u], q)
  }

  lemma {:induction false} LatestByte(files: seq<FileEntry>, store: Store, ws: seq<Write>, q: nat)
    requires Contiguous(files) && DistinctPaths(files) && q < Total(files)
    ensures var after, x := AfterWrites(files, store, ws), SpotOf(files, q);
            && (forall t: nat :: Latest(ws, t, q) ==> Present(after, x) && ByteIn(after, x) == ws[t].data[q - ws[t].at])
            && ((forall t: nat :: !Latest(ws, t, q)) ==> ByteIn(after, x) == ByteIn(store, x))
            && (Present(store, x) ==> Present(after, x))
  {
    hide WriteBlock, ByteIn, Present, SpotOf;
    if ws != [] {
      var last := |ws| - 1;
      var before := ws[..last];
      LatestByte(files, store, before, q);
      WriteBlockByte(files, AfterWrites(files, store, before), ws[last].at, ws[last].data, q);
      LatestStep(ws, q);
      assert Latest(ws, last, q) <==> Covers(ws[last], q);
    }
  }

  lemma LatestStep(ws: seq<Write>, q: nat)
    requires ws != []
    ensures var last := |ws| - 1;
            forall t: nat :: Latest(ws, t, q) <==>
              if Covers(ws[last], q) then t == last else Latest(ws[..last], t, q)
    ensures forall t: nat :: t < |ws| - 1 ==> ws[..|ws| - 1][t] == ws[t]
  {
    hide Covers;
    var last := |ws| - 1;
    assert Covers(ws[last], q) ==> Latest(ws, last, q);
    assert forall u :: 0 <= u < last ==> ws[u] == ws[..last][u];
  }

  ghost predicate WrittenIn(ws: seq<Write>, q: nat) {
    exists t: nat :: Latest(ws, t, q)
  }

  /** After any sequence of block writes, reading a range whose bytes have all been written
      succeeds and returns at each place the byte of the last write there. */
  lemma ReadAfterWrites(files: seq<FileEntry>, store: Store, ws: seq<Write>, g: nat, length: nat)
    requires Contiguous(files) && DistinctPaths(files)
    requires g + length <= Total(files)
    requires forall q: nat :: g <= q < g + length ==> WrittenIn(ws, q)
    ensures var r := ReadBlock(files, AfterWrites(files, store, ws), g, length);
            && r.Some? && |r.value| == length
            && forall k: nat, t: nat :: k < length && Latest(ws, t, g + k) ==>
                 r.value[k] == ws[t].data[g + k - ws[t].at]
  {
    hide ReadBlock, SpotOf, Present, ByteIn, AfterWrites;
    var after := AfterWrites(files, store, ws);
    ReadExactly(files, after, g, length);
    forall q: nat | g <= q < g + length
      ensures Present(after, SpotOf(files, q))
      ensures forall t: nat :: Latest(ws, t, q) ==> Image(files, after)[q] == ws[t].data[q - ws[t].at]
    {
      LatestByte(files, store, ws, q);
      assert WrittenIn(ws, q);
    }
  }
}
