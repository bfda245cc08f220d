/** The disk manager as an object: pieces and offsets in, files out. */
module DiskManagement {
  import opened Bytes
  import opened Disks
  import opened FileMaps
  import opened Torrents
  import opened Wrappers

  /** The components of a path with slashes between them. */
  function JoinPath(path: seq<string>): string {
    if |path| == 0 then ""
    else if |path| == 1 then path[0]
    else JoinPath(path[..|path| - 1]) + "/" + path[|path| - 1]
  }

  /** The parts of a text between its slashes. */
  function Split(s: string): (r: seq<string>)
    ensures r != []
  {
    if s == "" then [""]
    else
      var rest := Split(s[1..]);
      if s[0] == '/' then [""] + rest else [[s[0]] + rest[0]] + rest[1..]
  }

  lemma {:induction false} SplitPlain(s: string)
    requires '/' !in s
    ensures Split(s) == [s]
  {
    if s != "" {
      SplitPlain(s[1..]);
      assert [s[0]] + s[1..] == s;
    }
  }

  lemma SplitFirst(s: string)
    requires s != ""
    ensures var rest := Split(s[1..]);
            Split(s) == if s[0] == '/' then [""] + rest else [[s[0]] + rest[0]] + rest[1..]
  {
  }

  lemma {:induction false} SplitLast(s: string, last: string)
    requires '/' !in last
    ensures Split(s + "/" + last) == Split(s) + [last]
  {
    hide Split;
    var whole := s + "/" + last;
    if s == "" {
      SplitPlain(last);
      SplitPlain("");
      assert whole == "/" + last && whole[1..] == last;
      SplitFirst(whole);
    } else {
      var rest := Split(s[1..]);
      SplitLast(s[1..], last);
      assert whole[1..] == s[1..] + "/" + last && whole[0] == s[0];
      SplitFirst(s);
      SplitFirst(whole);
      assert (rest + [last])[0] == rest[0] && (rest + [last])[1..] == rest[1..] + [last];
    }
  }

  /** The components of a path that hold no slash. */
  predicate Plain(path: seq<string>) {
    path != [] && forall i :: 0 <= i < |path| ==> '/' !in path[i]
  }

  /** A joined path is its components with one slash between each two: splitting gives them back. */
  lemma {:induction false} SplitJoined(path: seq<string>)
    requires Plain(path)
    ensures Split(JoinPath(path)) == path
  {
    if |path| == 1 {
      SplitPlain(path[0]);
    } else {
      var init, last := path[..|path| - 1], path[|path| - 1];
      SplitJoined(init);
      SplitLast(JoinPath(init), last);
    }
  }

  /** So different paths are joined differently. */
  lemma JoinInjective(path: seq<string>, other: seq<string>)
    requires Plain(path) && Plain(other) && JoinPath(path) == JoinPath(other)
    ensures path == other
  {
    SplitJoined(path);
    SplitJoined(other);
  }

  /** The file list after `files` have been registered in order. */
  function Registered(files: seq<FileInfo>): (r: seq<FileEntry>)
    requires forall i :: 0 <= i < |files| ==> files[i].length >= 0
    ensures |r| == |files|
  {
    if files == [] then []
    else
      var init, last := Registered(files[..|files| - 1]), files[|files| - 1];
      init + [FileEntry(JoinPath(last.path), last.length, Total(init))]
  }

  /** The files of a torrent; a single-file torrent has one, named after it. */
  function Layout(t: Torrent): seq<FileEntry>
    requires t.WellFormed()
  {
    if t.IsMultiFile() then Registered(t.files) else [FileEntry(t.name, t.length, 0)]
  }

  lemma {:induction false} RegisteredTotal(files: seq<FileInfo>)
    requires forall i :: 0 <= i < |files| ==> files[i].length >= 0
    ensures Total(Registered(files)) == SumLengths(files)
  {
    if files != [] {
      RegisteredTotal(files[..|files| - 1]);
    }
  }

  /** Each file is registered under its joined path, with its length, behind all files before it. */
  lemma {:induction false} RegisteredExactly(files: seq<FileInfo>, i: nat)
    requires (forall k :: 0 <= k < |files| ==> files[k].length >= 0) && i < |files|
    ensures var entry := Registered(files)[i];
            && entry.path == JoinPath(files[i].path)
            && entry.length == files[i].length
            && entry.globalOffset == SumLengths(files[..i])
  {
    var init := files[..|files| - 1];
    if i < |init| {
      RegisteredExactly(init, i);
      assert init[..i] == files[..i];
    } else {
      RegisteredTotal(init);
    }
  }

  /** A torrent without files is one file under its own name; otherwise its files are registered. */
  lemma LayoutExactly(t: Torrent)
    requires t.WellFormed()
    ensures t.files == [] ==> Layout(t) == [FileEntry(t.name, t.length, 0)]
    ensures t.files != [] ==> Layout(t) == Registered(t.files) && |Layout(t)| == |t.files|
  {
    hide Torrent.WellFormed;
  }

  /** The file map and the piece layout agree on the torrent's size. */
  lemma LayoutTotal(t: Torrent)
    requires t.WellFormed()
    ensures Total(Layout(t)) == t.TotalSize()
  {
    if t.IsMultiFile() {
      RegisteredTotal(t.files);
    }
  }

  class DiskManager {
    const torrent: Torrent
    const fileMap: FileMap
    const pieceLength: nat
    var store: Store

    ghost predicate Valid()
      reads this, fileMap
    {
      && torrent.WellFormed()
      && pieceLength == torrent.pieceLength
      && fileMap.Valid()
      && fileMap.files == Layout(torrent)
      && DistinctPaths(fileMap.files)
    }

    /** The torrent's bytes as the files hold them. */
    ghost function Flat(): (r: seq<byte>)
      requires Valid()
      reads this, fileMap
      ensures |r| == torrent.TotalSize()
    {
      LayoutTotal(torrent);
      Image(fileMap.files, store)
    }

    /** Registers the torrent's files over what the download directory already holds. */
    constructor (torrent: Torrent, existing: Store)
      requires torrent.WellFormed() && DistinctPaths(Layout(torrent))
      ensures Valid() && fresh(fileMap)
      ensures this.torrent == torrent && store == existing
    {
      this.torrent := torrent;
      fileMap := new FileMap();
      pieceLength := torrent.pieceLength;
      store := existing;
      new;
      if torrent.IsMultiFile() {
        var i := 0;
        while i < |torrent.files|
          invariant 0 <= i <= |torrent.files|
          invariant fileMap.Valid() && fileMap.files == Registered(torrent.files[..i])
          modifies fileMap
        {
          var joined := Joined(torrent.files[i].path);
          assert torrent.files[..i + 1][..i] == torrent.files[..i];
          fileMap.AddFile(joined, torrent.files[i].length);
          i := i + 1;
        }
        assert torrent.files[..i] == torrent.files;
      } else {
        fileMap.AddFile(torrent.name, torrent.length);
      }
    }

    static method Joined(path: seq<string>) returns (joined: string)
      ensures joined == JoinPath(path)
    {
      joined := "";
      for i := 0 to |path|
        invariant joined == JoinPath(path[..i]) + (if 0 < i < |path| then "/" else "")
      {
        assert path[..i + 1][..i] == path[..i];
        joined := joined + path[i];
        if i < |path| - 1 {
          joined := joined + "/";
        }
      }
      assert path[..|path|] == path;
    }

    /** The slice loop of a block write. */
    method WriteParts(slices: seq<FileSlice>, data: seq<byte>)
      requires Extent(slices) <= |data|
      modifies this`store
      ensures store == WriteSlices(old(store), slices, data)
    {
      hide WriteAt;
      ghost var before := store;
      var dataOffset := 0;
      var i := 0;
      while i < |slices|
        invariant 0 <= i <= |slices|
        invariant dataOffset == Extent(slices[..i]) <= |data|
        invariant store == WriteSlices(before, slices[..i], data)
      {
        var slice := slices[i];
        assert slices[..i + 1][..i] == slices[..i];
        ExtentMonotone(slices, i + 1);
        var content := ContentOf(store, slice.path);
        store := store[slice.path := WriteAt(content, slice.fileOffset, data[dataOffset..dataOffset + slice.size])];
        dataOffset := dataOffset + slice.size;
        i := i + 1;
      }
      assert slices[..i] == slices;
    }

    method WriteBlock(pieceIndex: nat, blockOffset: nat, data: seq<byte>)
      requires Valid()
      modifies this`store
      ensures Valid()
      ensures Flat() == Patch(old(Flat()), pieceIndex * pieceLength + blockOffset, data)
      ensures store == Disks.WriteBlock(fileMap.files, old(store), pieceIndex * pieceLength + blockOffset, data)
    {
      hide Torrent.WellFormed, WriteSlices, Image, Patch, MapBlock;
      var globalOffset: nat := pieceIndex * pieceLength + blockOffset;
      WriteRefines(fileMap.files, store, globalOffset, data);
      MapBlockExpands(fileMap.files, globalOffset, |data|);
      var slices := fileMap.Map(globalOffset, |data|);
      if slices == [] {
        NothingWritten(store, data);
        return;
      }
      WriteParts(slices, data);
    }

    static lemma NothingWritten(store: Store, data: seq<byte>)
      ensures WriteSlices(store, [], data) == store
    {
    }

    static lemma {:induction false} ExtentMonotone(slices: seq<FileSlice>, n: nat)
      requires n <= |slices|
      ensures Extent(slices[..n]) <= Extent(slices)
    {
      if n < |slices| {
        var init := slices[..|slices| - 1];
        assert init[..n] == slices[..n];
        ExtentMonotone(init, n);
      } else {
        assert slices[..n] == slices;
      }
    }

    /** Opening creates a file that is absent. */
    method OpenFile(path: string)
      modifies this`store
      ensures path in store
      ensures forall other :: ContentOf(store, other) == ContentOf(old(store), other)
    {
      if path !in store {
        store := store[path := []];
      }
    }

    /** Reads one slice, if its file reaches that far. */
    method ReadPart(s: FileSlice) returns (r: Option<seq<byte>>)
      requires s.path in store
      ensures r == ReadSlice(store, s)
    {
      var content := store[s.path];
      if s.fileOffset + s.size > |content| {
        return None;
      }
      return Some(content[s.fileOffset..s.fileOffset + s.size]);
    }

    lemma SameSlice(before: Store, after: Store, s: FileSlice)
      requires forall path :: ContentOf(after, path) == ContentOf(before, path)
      ensures ReadSlice(after, s) == ReadSlice(before, s)
    {
    }

    static lemma OneMorePart(store: Store, slices: seq<FileSlice>, i: nat, data: seq<byte>, part: seq<byte>)
      requires i < |slices| && ReadSlices(store, slices[..i]) == Some(data)
      requires ReadSlice(store, slices[i]) == Some(part)
      ensures ReadSlices(store, slices[..i + 1]) == Some(data + part)
    {
      hide ReadSlice;
      assert slices[..i + 1][..i] == slices[..i];
    }

    /** The slice loop of a block read. */
    method ReadParts(slices: seq<FileSlice>) returns (r: Option<seq<byte>>)
      modifies this`store
      ensures forall path :: ContentOf(store, path) == ContentOf(old(store), path)
      ensures r == ReadSlices(old(store), slices)
    {
      hide ContentOf, ReadSlice;
      ghost var before := store;
      NothingRead(before);
      var data: seq<byte> := [];
      var i := 0;
      while i < |slices|
        invariant 0 <= i <= |slices|
        invariant forall path :: ContentOf(store, path) == ContentOf(before, path)
        invariant ReadSlices(before, slices[..i]) == Some(data)
      {
        OpenFile(slices[i].path);
        var part := ReadPart(slices[i]);
        SameSlice(before, store, slices[i]);
        if part.None? {
          ReadFailure(before, slices, i);
          return None;
        }
        OneMorePart(before, slices, i, data, part.value);
        data := data + part.value;
        i := i + 1;
      }
      assert slices[..i] == slices;
      r := Some(data);
    }

    /** Reads a block back; the image is unchanged. */
    method ReadBlock(pieceIndex: nat, blockOffset: nat, length: nat) returns (r: Option<seq<byte>>)
      requires Valid()
      modifies this`store
      ensures Valid() && Flat() == old(Flat())
      ensures forall path :: ContentOf(store, path) == ContentOf(old(store), path)
      ensures r == Disks.ReadBlock(fileMap.files, old(store), pieceIndex * pieceLength + blockOffset, length)
    {
      hide Torrent.WellFormed, ReadSlices, Image, MapBlock, ContentOf;
      ghost var before := store;
      var globalOffset: nat := pieceIndex * pieceLength + blockOffset;
      var slices := fileMap.Map(globalOffset, length);
      var parts := ReadParts(slices);
      SameImage(before);
      match parts
      case None => r := None;
      case Some(data) => r := Some(data + Zeros(if |data| < length then length - |data| else 0));
    }

    lemma SameImage(before: Store)
      requires Valid()
      requires forall path :: ContentOf(store, path) == ContentOf(before, path)
      ensures Image(fileMap.files, store) == Image(fileMap.files, before)
    {
    }

    static lemma NothingRead(store: Store)
      ensures ReadSlices(store, []) == Some([])
    {
    }

    static lemma {:induction false} ReadFailure(store: Store, slices: seq<FileSlice>, i: nat)
      requires i < |slices| && ReadSlice(store, slices[i]).None?
      ensures ReadSlices(store, slices).None?
    {
      if i < |slices| - 1 {
        ReadFailure(store, slices[..|slices| - 1], i);
      }
    }
  }
}
