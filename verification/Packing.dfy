/** Strings packed one behind the other, each with its NUL, and where they start. */
module Packing {
  import opened Text

  function Packed(paths: seq<string>): string {
    if paths == [] then "" else paths[0] + [NUL] + Packed(paths[1..])
  }

  /** The offset of string i: the lengths of the earlier strings, plus one each. */
  function Start(paths: seq<string>, i: nat): nat
    requires i <= |paths|
  {
    if i == 0 then 0 else |paths[0]| + 1 + Start(paths[1..], i - 1)
  }

  lemma {:induction false} PackedConcat(a: seq<string>, b: seq<string>)
    ensures Packed(a + b) == Packed(a) + Packed(b)
  {
    if a == [] {
      assert a + b == b;
    } else {
      assert (a + b)[1..] == a[1..] + b;
      PackedConcat(a[1..], b);
    }
  }

  lemma PackedOne(path: string)
    ensures Packed([path]) == path + [NUL]
  {
    assert [path][1..] == [];
    assert path + [NUL] + "" == path + [NUL];
  }

  lemma {:induction false} StartConcat(a: seq<string>, b: seq<string>, i: nat)
    requires i <= |a|
    ensures Start(a + b, i) == Start(a, i)
  {
    if i > 0 {
      assert (a + b)[1..] == a[1..] + b;
      StartConcat(a[1..], b, i - 1);
    }
  }

  /** The last offset is the size of the whole arena. */
  lemma {:induction false} StartOfEnd(paths: seq<string>)
    ensures Start(paths, |paths|) == |Packed(paths)|
  {
    if paths != [] {
      StartOfEnd(paths[1..]);
    }
  }

  /** Without gaps: every string starts one NUL behind the one before it. */
  lemma {:induction false} StartStep(paths: seq<string>, i: nat)
    requires i < |paths|
    ensures Start(paths, 0) == 0
    ensures Start(paths, i + 1) == Start(paths, i) + |paths[i]| + 1
  {
    if i > 0 {
      StartStep(paths[1..], i - 1);
    }
  }

  /** Different strings occupy disjoint ranges, in order, inside the arena. */
  lemma {:induction false} RangesApart(paths: seq<string>, i: nat, j: nat)
    requires i < j <= |paths|
    ensures Start(paths, i) + |paths[i]| + 1 <= Start(paths, j) <= |Packed(paths)|
  {
    if i == 0 && j < |paths| {
      if j > 1 {
        RangesApart(paths[1..], 0, j - 1);
      } else {
        StartOfEnd(paths[1..]);
      }
    } else if i == 0 {
      StartOfEnd(paths[1..]);
    } else {
      RangesApart(paths[1..], i - 1, j - 1);
    }
  }

  /** Reading from offset i to the next NUL yields string i. */
  lemma {:induction false} ReadPacked(paths: seq<string>, i: nat)
    requires i < |paths| && forall p | p in paths :: NulFree(p)
    ensures Start(paths, i) <= |Packed(paths)|
    ensures CString(Packed(paths)[Start(paths, i)..]) == paths[i]
  {
    hide CString, NulFree;
    var arena, rest := Packed(paths), Packed(paths[1..]);
    assert paths[0] in paths;
    if i == 0 {
      CStringOf(paths[0], [NUL] + rest);
      assert arena == paths[0] + ([NUL] + rest);
      assert arena[0..] == arena;
    } else {
      ReadPacked(paths[1..], i - 1);
      assert arena == (paths[0] + [NUL]) + rest;
      var k := Start(paths[1..], i - 1);
      assert arena[|paths[0]| + 1 + k..] == rest[k..];
      assert paths[i] == paths[1..][i - 1];
    }
  }
}
