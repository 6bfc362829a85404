/** filelist.c: two walks over the same tree, the first to size, the second to fill, a packed
    arena of path strings and its NULL-terminated pointer table. */
module FileList {
  import opened Text
  import opened Memory
  import opened FileTree
  import opened Packing

  const PATH_MAX: nat := 4096

  /** A size_t reached through a pointer. */
  class SizeT {
    var value: nat

    constructor (value: nat)
      ensures this.value == value
    {
      this.value := value;
    }
  }

  /** A char pointer into a block. */
  datatype CharPtr = Null | At(block: array<char>, offset: nat)

  /** Every path printed into a char[PATH_MAX] fits, those of skipped entries included. */
  predicate Fits(dir: string, es: seq<Entry>)
    decreases es
  {
    forall i | 0 <= i < |es| ::
      && |FullPath(dir, es[i].name)| < PATH_MAX
      && (es[i].Dir? && !IsDots(es[i].name) && es[i].listing.Opened? ==>
            Fits(FullPath(dir, es[i].name), es[i].listing.entries))
  }

  predicate ListingFits(dir: string, listing: Listing) {
    |dir| < PATH_MAX && (listing.Opened? ==> Fits(dir, listing.entries))
  }

  /** Which trees fit: every name that is printed behind a directory leaves room for the NUL. */
  lemma FitsExact(dir: string, es: seq<Entry>)
    ensures ListingFits(dir, Denied) <==> |dir| < 4096
    ensures ListingFits(dir, Opened(es)) <==>
            && |dir| < 4096
            && forall i | 0 <= i < |es| ::
                 && |dir| + 1 + |es[i].name| < 4096
                 && (es[i].Dir? && es[i].name != "." && es[i].name != ".." ==>
                       ListingFits(dir + "/" + es[i].name, es[i].listing))
  {
  }

  lemma PathsStep(dir: string, es: seq<Entry>, i: nat)
    requires i < |es|
    ensures PathsIn(dir, es[i..]) == PathsOf(dir, es[i]) + PathsIn(dir, es[i + 1..])
    ensures Packed(PathsIn(dir, es[i..])) == Packed(PathsOf(dir, es[i])) + Packed(PathsIn(dir, es[i + 1..]))
  {
    hide PathsOf;
    assert es[i..][1..] == es[i + 1..];
    PackedConcat(PathsOf(dir, es[i]), PathsIn(dir, es[i + 1..]));
  }

  /** getFileCount: adds the number of files and the bytes their paths need. */
  method GetFileCount(dirPath: string, listing: Listing, fileCount: SizeT, reqMem: SizeT) returns (r: int)
    requires fileCount != reqMem
    requires ListingFits(dirPath, listing)
    modifies fileCount, reqMem
    ensures r == if listing.Denied? then -1 else 0
    ensures fileCount.value == old(fileCount.value) + |Paths(dirPath, listing)|
    ensures reqMem.value == old(reqMem.value) + |Packed(Paths(dirPath, listing))|
    decreases listing
  {
    if listing.Denied? {
      return -1;
    }
    hide PathsIn, Packed;
    var es := listing.entries;
    assert es[0..] == es;
    for i := 0 to |es|
      invariant fileCount.value + |PathsIn(dirPath, es[i..])| == old(fileCount.value) + |PathsIn(dirPath, es)|
      invariant reqMem.value + |Packed(PathsIn(dirPath, es[i..]))| ==
                old(reqMem.value) + |Packed(PathsIn(dirPath, es))|
    {
      PathsStep(dirPath, es, i);
      NothingPacked();
      var fullpath := FullPath(dirPath, es[i].name);
      if es[i].Broken? {
        continue;
      }
      if es[i].Dir? {
        if IsDots(es[i].name) {
          continue;
        }
        var ignored := GetFileCount(fullpath, es[i].listing, fileCount, reqMem);
      } else {
        PackedOne(fullpath);
        fileCount.value := fileCount.value + 1;
        reqMem.value := reqMem.value + |fullpath| + 1;
      }
    }
    assert es[|es|..] == [];
    NoPaths(dirPath);
    return 0;
  }

  lemma NothingPacked()
    ensures Packed([]) == ""
  {
  }

  lemma NoPaths(dir: string)
    ensures PathsIn(dir, []) == [] && Packed([]) == ""
  {
  }

  /** The table and the arena after the paths in `done` have been stored. */
  ghost predicate Filled(files: array<CharPtr>, arena: array<char>, count: nat, offset: nat, done: seq<string>)
    reads files, arena
  {
    && count == |done| < files.Length
    && offset == |Packed(done)| <= arena.Length
    && arena[..offset] == Packed(done)
    && files[0] == At(arena, 0)
    && forall i | 0 <= i < count :: files[i] == At(arena, Start(done, i))
  }

  /** The file branch of setFiles. */
  method StoreFile(fullpath: string, files: array<CharPtr>, fileCount: SizeT, offset: SizeT,
                   ghost arena: array<char>, ghost done: seq<string>)
    requires fileCount != offset
    requires Filled(files, arena, fileCount.value, offset.value, done)
    requires fileCount.value + 1 < files.Length && offset.value + |fullpath| + 1 <= arena.Length
    modifies files, arena, fileCount, offset
    ensures Filled(files, arena, fileCount.value, offset.value, done + [fullpath])
    ensures forall k | fileCount.value <= k < files.Length :: files[k] == old(files[k])
    ensures forall k | offset.value <= k < arena.Length :: arena[k] == old(arena[k])
  {
    files[fileCount.value] := files[0].(offset := files[0].offset + offset.value);
    StrCpy(files[fileCount.value], fullpath);
    offset.value := offset.value + |fullpath| + 1;
    fileCount.value := fileCount.value + 1;
    StoredPath(done, fullpath);
  }

  lemma StoredPath(done: seq<string>, path: string)
    ensures Packed(done + [path]) == Packed(done) + (path + [NUL])
    ensures Start(done + [path], |done|) == |Packed(done)|
    ensures forall i | 0 <= i <= |done| :: Start(done + [path], i) == Start(done, i)
  {
    PackedConcat(done, [path]);
    PackedOne(path);
    StartOfEnd(done);
    forall i | 0 <= i <= |done|
      ensures Start(done + [path], i) == Start(done, i)
    {
      StartConcat(done, [path], i);
    }
  }

  /** strcpy */
  method StrCpy(p: CharPtr, s: string)
    requires p.At? && p.offset + |s| + 1 <= p.block.Length
    modifies if p.At? then {p.block} else {}
    ensures p.block[..p.offset + |s| + 1] == old(p.block[..p.offset]) + (s + [NUL])
    ensures forall k | p.offset + |s| + 1 <= k < p.block.Length :: p.block[k] == old(p.block[k])
  {
    var a, at := p.block, p.offset;
    for i := 0 to |s|
      invariant a[..at] == old(a[..at]) && a[at..at + i] == s[..i]
      invariant forall k | at + i <= k < a.Length :: a[k] == old(a[k])
    {
      a[at + i] := s[i];
    }
    a[at + |s|] := NUL;
    assert a[..at + |s| + 1] == a[..at] + (a[at..at + |s|] + [NUL]);
  }

  /** Table (with its terminator) and arena are large enough for the paths. */
  ghost predicate Room(files: array<CharPtr>, arena: array<char>, paths: seq<string>) {
    |paths| < files.Length && |Packed(paths)| <= arena.Length
  }

  lemma RoomForStart(files: array<CharPtr>, arena: array<char>, a: seq<string>, b: seq<string>)
    requires Room(files, arena, a + b)
    ensures Room(files, arena, a)
  {
    PackedConcat(a, b);
  }

  /** setFiles: stores the paths behind those in `done`, and touches nothing else. */
  method SetFiles(dirPath: string, listing: Listing, files: array<CharPtr>, fileCount: SizeT, offset: SizeT,
                  ghost arena: array<char>, ghost done: seq<string>) returns (r: int)
    requires fileCount != offset && ListingFits(dirPath, listing)
    requires Filled(files, arena, fileCount.value, offset.value, done)
    requires Room(files, arena, done + Paths(dirPath, listing))
    modifies files, arena, fileCount, offset
    ensures r == if listing.Denied? then -1 else 0
    ensures Filled(files, arena, fileCount.value, offset.value, done + Paths(dirPath, listing))
    ensures forall k | |done + Paths(dirPath, listing)| <= k < files.Length :: files[k] == old(files[k])
    ensures forall k | |Packed(done + Paths(dirPath, listing))| <= k < arena.Length :: arena[k] == old(arena[k])
    decreases listing, 2
  {
    if listing.Denied? {
      assert done + [] == done;
      return -1;
    }
    SetEntries(dirPath, listing.entries, files, fileCount, offset, arena, done);
    return 0;
  }

  /** The readdir loop of setFiles. */
  method SetEntries(dirPath: string, es: seq<Entry>, files: array<CharPtr>, fileCount: SizeT, offset: SizeT,
                    ghost arena: array<char>, ghost done: seq<string>)
    requires fileCount != offset && Fits(dirPath, es)
    requires Filled(files, arena, fileCount.value, offset.value, done)
    requires Room(files, arena, done + PathsIn(dirPath, es))
    modifies files, arena, fileCount, offset
    ensures Filled(files, arena, fileCount.value, offset.value, done + PathsIn(dirPath, es))
    ensures forall k | |done + PathsIn(dirPath, es)| <= k < files.Length :: files[k] == old(files[k])
    ensures forall k | |Packed(done + PathsIn(dirPath, es))| <= k < arena.Length :: arena[k] == old(arena[k])
    decreases es, 1
  {
    hide PathsIn, PathsOf, Packed, Filled, Room;
    ghost var now, all := done, done + PathsIn(dirPath, es);
    assert es[0..] == es;
    for i := 0 to |es|
      invariant Filled(files, arena, fileCount.value, offset.value, now)
      invariant now + PathsIn(dirPath, es[i..]) == all
      invariant forall k | |all| <= k < files.Length :: files[k] == old(files[k])
      invariant forall k | |Packed(all)| <= k < arena.Length :: arena[k] == old(arena[k])
    {
      ghost var here, later := PathsOf(dirPath, es[i]), PathsIn(dirPath, es[i + 1..]);
      PathsStep(dirPath, es, i);
      Regroup(now, here, later);
      RoomForStart(files, arena, now + here, later);
      PackedConcat(now + here, later);
      SetEntry(dirPath, es[i], files, fileCount, offset, arena, now);
      now := now + here;
    }
    assert es[|es|..] == [];
    NoPaths(dirPath);
    assert now + [] == now;
  }

  lemma Regroup(a: seq<string>, b: seq<string>, c: seq<string>)
    ensures a + (b + c) == a + b + c
  {
  }

  /** One round of that loop. */
  method SetEntry(dirPath: string, e: Entry, files: array<CharPtr>, fileCount: SizeT, offset: SizeT,
                  ghost arena: array<char>, ghost done: seq<string>)
    requires fileCount != offset && Fits(dirPath, [e])
    requires Filled(files, arena, fileCount.value, offset.value, done)
    requires Room(files, arena, done + PathsOf(dirPath, e))
    modifies files, arena, fileCount, offset
    ensures Filled(files, arena, fileCount.value, offset.value, done + PathsOf(dirPath, e))
    ensures forall k | |done + PathsOf(dirPath, e)| <= k < files.Length :: files[k] == old(files[k])
    ensures forall k | |Packed(done + PathsOf(dirPath, e))| <= k < arena.Length :: arena[k] == old(arena[k])
    decreases e, 0
  {
    assert done + [] == done;
    var fullpath := FullPath(dirPath, e.name);
    if e.Broken? {
      return;
    }
    if e.Dir? {
      if IsDots(e.name) {
        return;
      }
      assert ListingFits(fullpath, e.listing) by {
        assert [e][0] == e;
      }
      var ignored := SetFiles(fullpath, e.listing, files, fileCount, offset, arena, done);
    } else {
      StoredPath(done, fullpath);
      StoreFile(fullpath, files, fileCount, offset, arena, done);
    }
  }

  /** The finished index: the arena is exactly the packed paths, entry i points at path i, and
      a NULL ends the table unless there is no path, when the arena pointer has replaced it. */
  ghost predicate Indexed(files: array<CharPtr>, paths: seq<string>)
    reads files, if files.Length > 0 && files[0].At? then {files[0].block} else {}
  {
    && files.Length == |paths| + 1
    && files[0].At? && files[0].offset == 0
    && files[0].block[..] == Packed(paths)
    && (forall i | 0 <= i < |paths| :: files[i] == At(files[0].block, Start(paths, i)))
    && (paths != [] ==> files[|paths|] == Null)
  }

  /** The two allocations behind an index. */
  ghost function IndexBlocks(files: array?<CharPtr>): set<object>
    reads files
  {
    if files == null || files.Length == 0 || files[0].Null? then {} else
      var table: array<CharPtr> := files;
      {table, table[0].block}
  }

  /** retrieveFiles. The tree is the same in both walks; the count must start at zero, or the
      result is -6. */
  method RetrieveFiles(heap: Heap, fileCount: SizeT, dir: string, root: Listing)
    returns (files: array?<CharPtr>, r: int)
    requires ListingFits(dir, root)
    modifies heap, fileCount
    ensures r == if root.Denied? then -2 else if old(fileCount.value) != 0 then -6 else 0
    ensures r == -2 ==> files == null && heap.live == old(heap.live) && fileCount.value == old(fileCount.value)
    ensures r != -2 ==> fileCount.value == |Paths(dir, root)|
    ensures r != -2 ==>
              && files != null && files.Length > 0 && files[0].At?
              && fresh(IndexBlocks(files)) && IndexBlocks(files) !! old(heap.live)
              && heap.live == old(heap.live) + IndexBlocks(files)
    ensures r == 0 ==> Indexed(files, Paths(dir, root))
  {
    var reqmem := new SizeT(0);
    var offset := new SizeT(0);
    files := null;
    r := GetFileCount(dir, root, fileCount, reqmem);
    if r < 0 {
      return null, -2;
    }
    var table := new CharPtr[fileCount.value + 1];
    table[fileCount.value] := Null;
    var arena := new char[reqmem.value];
    table[0] := At(arena, 0);
    heap.live := heap.live + {table, arena};
    files := table;
    reqmem.value := fileCount.value;
    fileCount.value := 0;
    ghost var paths := Paths(dir, root);
    NothingFilled(table, arena);
    assert [] + paths == paths;
    hide Paths, Packed, Start;
    r := SetFiles(dir, root, table, fileCount, offset, arena, []);
    if r < 0 {
      return files, -5;
    }
    if fileCount.value != reqmem.value {
      return files, -6;
    }
    assert arena[..] == arena[..offset.value];
    return files, 0;
  }

  lemma NothingFilled(files: array<CharPtr>, arena: array<char>)
    requires files.Length > 0 && files[0] == At(arena, 0)
    ensures Filled(files, arena, 0, 0, [])
  {
    assert arena[..0] == [];
  }

  /** What the index promises its readers: entry i, read to its NUL, is path i. */
  lemma IndexReads(files: array<CharPtr>, paths: seq<string>, i: nat)
    requires Indexed(files, paths) && i < |paths| && forall p | p in paths :: NulFree(p)
    ensures files[i].At? && files[i].offset <= files[i].block.Length
    ensures CString(files[i].block[files[i].offset..]) == paths[i]
  {
    ReadPacked(paths, i);
    assert files[i].block[files[i].offset..] == files[0].block[..][files[i].offset..];
  }

  /** The table ends with NULL exactly when some file was indexed. */
  lemma TerminatorSurvives(files: array<CharPtr>, paths: seq<string>)
    requires Indexed(files, paths)
    ensures files[files.Length - 1] == Null <==> paths != []
  {
  }
}
