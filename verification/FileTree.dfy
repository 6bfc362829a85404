/** A directory tree as readdir, stat and opendir show it, and the paths indexed from it. */
module FileTree {
  import opened Dedup

  /** Broken: stat fails. Everything that is neither broken nor a directory counts as a file. */
  datatype Entry =
    | File(name: string)
    | Broken(name: string)
    | Dir(name: string, listing: Listing)

  /** Denied: opendir fails. */
  datatype Listing = Denied | Opened(entries: seq<Entry>)

  function FullPath(dir: string, name: string): string {
    dir + "/" + name
  }

  predicate IsDots(name: string) {
    name == "." || name == ".."
  }

  /** The paths of one entry, depth first. */
  function PathsOf(dir: string, e: Entry): seq<string>
    decreases e, 0
  {
    match e
    case File(name) => [FullPath(dir, name)]
    case Broken(_) => []
    case Dir(name, listing) =>
      if IsDots(name) || listing.Denied? then [] else PathsIn(FullPath(dir, name), listing.entries)
  }

  function PathsIn(dir: string, es: seq<Entry>): seq<string>
    decreases es, 0
  {
    if es == [] then [] else PathsOf(dir, es[0]) + PathsIn(dir, es[1..])
  }

  function Paths(dir: string, listing: Listing): seq<string> {
    if listing.Denied? then [] else PathsIn(dir, listing.entries)
  }

  // ---------------------------------------------------------------- membership

  /** The names lead from the entries to a file, through directories that open and are not
      "." or "..". */
  predicate Reaches(es: seq<Entry>, names: seq<string>)
    decreases |names|
  {
    names != [] && exists i | 0 <= i < |es| :: ReachesVia(es[i], names)
  }

  predicate ReachesVia(e: Entry, names: seq<string>)
    requires names != []
    decreases |names|, 0
  {
    if |names| == 1 then e == File(names[0])
    else
      && e.Dir? && e.name == names[0] && e.name != "." && e.name != ".."
      && e.listing.Opened? && Reaches(e.listing.entries, names[1..])
  }

  /** "/" before every name. */
  function Slashed(names: seq<string>): string {
    if names == [] then "" else "/" + names[0] + Slashed(names[1..])
  }

  lemma {:induction false} SlashedConcat(a: seq<string>, b: seq<string>)
    ensures Slashed(a + b) == Slashed(a) + Slashed(b)
    ensures |b| == 1 ==> Slashed(b) == "/" + b[0]
  {
    if a == [] {
      assert a + b == b;
    } else {
      assert (a + b)[1..] == a[1..] + b;
      SlashedConcat(a[1..], b);
    }
  }

  lemma {:induction false} IndexedIsReached(dir: string, es: seq<Entry>, p: string) returns (names: seq<string>)
    requires p in PathsIn(dir, es)
    ensures Reaches(es, names) && p == dir + Slashed(names)
    decreases es, 0
  {
    if p in PathsOf(dir, es[0]) {
      names := EntryIsReached(dir, es[0], p);
    } else {
      names := IndexedIsReached(dir, es[1..], p);
      var i :| 0 <= i < |es[1..]| && ReachesVia(es[1..][i], names);
      assert ReachesVia(es[i + 1], names);
    }
  }

  lemma {:induction false} EntryIsReached(dir: string, e: Entry, p: string) returns (names: seq<string>)
    requires p in PathsOf(dir, e)
    ensures names != [] && ReachesVia(e, names) && p == dir + Slashed(names)
    decreases e, 0
  {
    SlashedOne(e.name);
    if e.File? {
      names := [e.name];
    } else {
      var inner := IndexedIsReached(FullPath(dir, e.name), e.listing.entries, p);
      names := [e.name] + inner;
      assert names[1..] == inner;
      assert p == dir + ("/" + e.name + Slashed(inner));
    }
  }

  lemma SlashedOne(name: string)
    ensures forall dir :: dir + Slashed([name]) == FullPath(dir, name)
  {
    assert [name][1..] == [];
    forall dir: string
      ensures dir + Slashed([name]) == FullPath(dir, name)
    {
      assert dir + ("/" + name + "") == dir + "/" + name;
    }
  }

  lemma {:induction false} ReachedIsIndexed(dir: string, es: seq<Entry>, names: seq<string>)
    requires Reaches(es, names)
    ensures dir + Slashed(names) in PathsIn(dir, es)
    decreases |names|, 1
  {
    var i :| 0 <= i < |es| && ReachesVia(es[i], names);
    ReachedIsInEntry(dir, es[i], names);
    EntryPaths(dir, es, i, dir + Slashed(names));
  }

  lemma {:induction false} ReachedIsInEntry(dir: string, e: Entry, names: seq<string>)
    requires names != [] && ReachesVia(e, names)
    ensures dir + Slashed(names) in PathsOf(dir, e)
    decreases |names|, 0
  {
    if |names| == 1 {
      SlashedOne(e.name);
      assert names == [e.name];
    } else {
      ReachedIsIndexed(FullPath(dir, e.name), e.listing.entries, names[1..]);
      SlashedStep(dir, names);
    }
  }

  lemma SlashedStep(dir: string, names: seq<string>)
    requires names != []
    ensures dir + Slashed(names) == FullPath(dir, names[0]) + Slashed(names[1..])
  {
  }

  lemma {:induction false} EntryPaths(dir: string, es: seq<Entry>, i: nat, p: string)
    requires i < |es| && p in PathsOf(dir, es[i])
    ensures p in PathsIn(dir, es)
  {
    if i > 0 {
      EntryPaths(dir, es[1..], i - 1, p);
    }
  }

  /** The text spells names that lead to a file of the tree. */
  ghost predicate LeadsToFile(listing: Listing, uri: string) {
    listing.Opened? && exists names :: Reaches(listing.entries, names) && uri == Slashed(names)
  }

  /** The index holds a path exactly when the names behind the directory lead to a file. */
  lemma PathsExact(dir: string, listing: Listing, uri: string)
    ensures dir + uri in Paths(dir, listing) <==> LeadsToFile(listing, uri)
  {
    if dir + uri in Paths(dir, listing) {
      var names := IndexedIsReached(dir, listing.entries, dir + uri);
      assert (dir + uri)[|dir|..] == uri && (dir + Slashed(names))[|dir|..] == Slashed(names);
    }
    if LeadsToFile(listing, uri) {
      var names :| Reaches(listing.entries, names) && uri == Slashed(names);
      ReachedIsIndexed(dir, listing.entries, names);
    }
  }

  lemma {:induction false} PathsInConcat(dir: string, a: seq<Entry>, b: seq<Entry>)
    ensures PathsIn(dir, a + b) == PathsIn(dir, a) + PathsIn(dir, b)
  {
    hide PathsOf;
    if a == [] {
      assert a + b == b;
    } else {
      assert (a + b)[1..] == a[1..] + b;
      PathsInConcat(dir, a[1..], b);
    }
  }

  /** What every entry contributes, at its place: a file its own path, the two dot directories
      and whatever fails to stat or to open nothing, any other directory all of its paths. */
  lemma EntryContributes(dir: string, a: seq<Entry>, name: string, inner: seq<Entry>, b: seq<Entry>)
    ensures PathsIn(dir, a + [File(name)] + b) == PathsIn(dir, a) + [dir + "/" + name] + PathsIn(dir, b)
    ensures PathsIn(dir, a + [Broken(name)] + b) == PathsIn(dir, a) + PathsIn(dir, b)
    ensures PathsIn(dir, a + [Dir(name, Denied)] + b) == PathsIn(dir, a) + PathsIn(dir, b)
    ensures name == "." || name == ".." ==>
              PathsIn(dir, a + [Dir(name, Opened(inner))] + b) == PathsIn(dir, a) + PathsIn(dir, b)
    ensures name != "." && name != ".." ==>
              PathsIn(dir, a + [Dir(name, Opened(inner))] + b) ==
              PathsIn(dir, a) + PathsIn(dir + "/" + name, inner) + PathsIn(dir, b)
  {
    OneAmong(dir, a, File(name), b);
    OneAmong(dir, a, Broken(name), b);
    OneAmong(dir, a, Dir(name, Denied), b);
    OneAmong(dir, a, Dir(name, Opened(inner)), b);
    var front := PathsIn(dir, a);
    assert front + [] == front;
    hide PathsIn;
  }

  lemma OneAmong(dir: string, a: seq<Entry>, e: Entry, b: seq<Entry>)
    ensures PathsIn(dir, a + [e] + b) == PathsIn(dir, a) + PathsOf(dir, e) + PathsIn(dir, b)
  {
    PathsInConcat(dir, a + [e], b);
    PathsInConcat(dir, a, [e]);
    assert [e][1..] == [];
    assert PathsOf(dir, e) + [] == PathsOf(dir, e);
  }

  // ---------------------------------------------------------------- distinct paths

  /** Names as a file system guarantees them: without slashes, and different among siblings. */
  predicate Tidy(es: seq<Entry>) {
    && (forall i | 0 <= i < |es| :: '/' !in es[i].name)
    && (forall i, j | 0 <= i < j < |es| :: es[i].name != es[j].name)
    && (forall i | 0 <= i < |es| :: es[i].Dir? && es[i].listing.Opened? ==> Tidy(es[i].listing.entries))
  }

  /** The length of the slash-free start. */
  function FirstSlash(s: string): (n: nat)
    ensures n <= |s|
  {
    if s == "" || s[0] == '/' then 0 else 1 + FirstSlash(s[1..])
  }

  lemma {:induction false} FirstSlashOf(a: string, s: string)
    requires '/' !in a
    requires s == "" || s[0] == '/'
    ensures FirstSlash(a + s) == |a|
  {
    if a == "" {
      assert a + s == s;
    } else {
      assert (a + s)[1..] == a[1..] + s;
      FirstSlashOf(a[1..], s);
    }
  }

  /** Slash-free names can be read off their concatenation. */
  lemma SegmentsAgree(a: string, s: string, b: string, t: string)
    requires '/' !in a && '/' !in b
    requires s == "" || s[0] == '/'
    requires t == "" || t[0] == '/'
    requires a + s == b + t
    ensures a == b
  {
    FirstSlashOf(a, s);
    FirstSlashOf(b, t);
    assert a == (a + s)[..|a|] && b == (b + t)[..|b|];
  }

  lemma FirstNamesAgree(dir: string, m: seq<string>, n: seq<string>)
    requires m != [] && n != [] && '/' !in m[0] && '/' !in n[0]
    requires dir + Slashed(m) == dir + Slashed(n)
    ensures m[0] == n[0]
  {
    var a, b := Slashed(m), Slashed(n);
    assert (dir + a)[|dir|..] == a && (dir + b)[|dir|..] == b;
    assert a == "/" + (m[0] + Slashed(m[1..])) && b == "/" + (n[0] + Slashed(n[1..]));
    assert a[1..] == m[0] + Slashed(m[1..]) && b[1..] == n[0] + Slashed(n[1..]);
    SegmentsAgree(m[0], Slashed(m[1..]), n[0], Slashed(n[1..]));
  }

  /** In a tidy tree no path is indexed twice, so the match for a request is unique. */
  lemma {:induction false} PathsDistinct(dir: string, es: seq<Entry>)
    requires Tidy(es)
    ensures Distinct(PathsIn(dir, es))
    decreases es, 1
  {
    if es != [] {
      var first, rest := PathsOf(dir, es[0]), PathsIn(dir, es[1..]);
      PathsDistinct(dir, es[1..]);
      EntryPathsDistinct(dir, es[0]);
      forall i, j | 0 <= i < |first| && 0 <= j < |rest|
        ensures first[i] != rest[j]
      {
        SiblingsApart(dir, es, first[i]);
      }
    }
  }

  lemma {:induction false} EntryPathsDistinct(dir: string, e: Entry)
    requires Tidy([e])
    ensures Distinct(PathsOf(dir, e))
    decreases e, 1
  {
    if e.Dir? && !IsDots(e.name) && e.listing.Opened? {
      assert Tidy([e][0].listing.entries);
      PathsDistinct(FullPath(dir, e.name), e.listing.entries);
    }
  }

  lemma SiblingsApart(dir: string, es: seq<Entry>, p: string)
    requires es != [] && Tidy(es)
    requires p in PathsOf(dir, es[0])
    ensures p !in PathsIn(dir, es[1..])
  {
    if p in PathsIn(dir, es[1..]) {
      var m := EntryIsReached(dir, es[0], p);
      var n := IndexedIsReached(dir, es[1..], p);
      var i :| 0 <= i < |es[1..]| && ReachesVia(es[1..][i], n);
      assert es[1..][i] == es[i + 1];
      FirstNamesAgree(dir, m, n);
    }
  }

  /** A directory that opens and still has nothing to index. */
  lemma EmptyDirectoryHasNoPaths(dir: string)
    ensures Paths(dir, Opened([])) == []
  {
  }
}
