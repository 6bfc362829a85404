/** The path table of sensors_temperatures.c: rows of a flat character array, truncated and
    de-duplicated in place. */
module Sensors {
  import opened Text
  import opened Dedup

  const PATHLEN: nat := 128
  const NPATHS: nat := 32
  const PATHS_BLOCK: nat := NPATHS * PATHLEN

  /** The string at an offset of the table. */
  function RowAt(block: seq<char>, at: nat): string
    requires at + PATHLEN <= |block|
  {
    CString(block[at..at + PATHLEN])
  }

  /** The first n rows as strings. */
  function Rows(block: seq<char>, n: nat): (rows: seq<string>)
    requires n * PATHLEN <= |block|
    ensures |rows| == n
    ensures forall i | 0 <= i < n :: rows[i] == RowAt(block, i * PATHLEN)
  {
    seq(n, i requires 0 <= i < n => RowAt(block, i * PATHLEN))
  }

  /** Row i fills the characters from 128 * i on, up to the first NUL among them. */
  lemma RowsExact(block: seq<char>, n: nat, i: nat)
    requires n * 128 <= |block| && i < n
    ensures PATHLEN == 128 && Rows(block, n)[i] == CString(block[128 * i..128 * i + 128])
  {
    hide Text.CString;
    assert i * PATHLEN == 128 * i;
  }

  /** Every row ends with a NUL inside its 128 characters. */
  predicate Terminated(rows: seq<string>) {
    forall i | 0 <= i < |rows| :: |rows[i]| < PATHLEN
  }

  // ---------------------------------------------------------------- rm_latter

  lemma OccursShift(s: string, sub: string, k: nat)
    requires 0 < k <= |s|
    ensures OccursAt(s, sub, k) == OccursAt(s[1..], sub, k - 1)
  {
    if k + |sub| <= |s| {
      assert s[k..k + |sub|] == s[1..][k - 1..k - 1 + |sub|];
    }
  }

  /** strstr(s, sub) as an offset; |s| + 1 stands for NULL. */
  function FindSub(s: string, sub: string): (p: nat)
    ensures p <= |s| ==> OccursAt(s, sub, p)
    ensures forall k: nat | k < p && k <= |s| :: !OccursAt(s, sub, k)
    ensures p <= |s| + 1
  {
    if OccursAt(s, sub, 0) then 0
    else if s == "" then 1
    else
      var p := FindSub(s[1..], sub);
      assert forall k: nat :: 0 < k <= |s| ==> OccursAt(s, sub, k) == OccursAt(s[1..], sub, k - 1) by {
        forall k: nat | 0 < k <= |s|
          ensures OccursAt(s, sub, k) == OccursAt(s[1..], sub, k - 1)
        {
          OccursShift(s, sub, k);
        }
      }
      1 + p
  }

  /** The part of s before the first occurrence of the delimiter; all of s without one. */
  function Before(s: string, delim: string): string {
    if FindSub(s, delim) <= |s| then s[..FindSub(s, delim)] else s
  }

  lemma RowCells(block: seq<char>, at: nat)
    requires at + PATHLEN <= |block|
    ensures var row := RowAt(block, at);
            && |row| <= PATHLEN
            && (forall i | 0 <= i < |row| :: block[at + i] == row[i])
            && (|row| < PATHLEN ==> block[at + |row|] == NUL)
  {
    var cell := block[at..at + PATHLEN];
    var row := CString(cell);
    assert forall i | 0 <= i < |row| :: block[at + i] == cell[i] == row[i];
  }

  lemma RowIs(block: seq<char>, at: nat, row: string)
    requires at + PATHLEN <= |block| && |row| < PATHLEN && NulFree(row)
    requires forall i | 0 <= i < |row| :: block[at + i] == row[i]
    requires block[at + |row|] == NUL
    ensures RowAt(block, at) == row
  {
    var cell := block[at..at + PATHLEN];
    CStringOf(row, cell[|row|..]);
    assert cell == row + cell[|row|..];
  }

  /** One round of rm_latter: zero the row from the delimiter to its end. */
  method CutRow(paths: array<char>, at: nat, delim: string)
    requires at + PATHLEN <= paths.Length && |RowAt(paths[..], at)| < PATHLEN
    modifies paths
    ensures RowAt(paths[..], at) == Before(old(RowAt(paths[..], at)), delim)
    ensures forall k | 0 <= k < paths.Length && !(at <= k < at + PATHLEN) :: paths[k] == old(paths[k])
  {
    var row := RowAt(paths[..], at);
    if |row| == 0 {
      return;
    }
    var latter := FindSub(row, delim);
    if latter <= |row| {
      RowCells(paths[..], at);
      hide FindSub, Text.CString, OccursAt;
      for k := latter to |row|
        invariant forall i | 0 <= i < latter :: paths[at + i] == row[i]
        invariant k > latter || latter == |row| ==> paths[at + latter] == NUL
        invariant forall k | 0 <= k < paths.Length && !(at <= k < at + PATHLEN) :: paths[k] == old(paths[k])
      {
        paths[at + k] := NUL;
      }
      RowIs(paths[..], at, row[..latter]);
    }
  }

  /** rm_latter. */
  method RmLatter(paths: array<char>, n: nat, delim: string)
    requires n * PATHLEN <= paths.Length && Terminated(Rows(paths[..], n))
    modifies paths
    ensures Rows(paths[..], n) == BeforeAll(old(Rows(paths[..], n)), delim)
    ensures forall k | n * PATHLEN <= k < paths.Length :: paths[k] == old(paths[k])
  {
    hide RowAt, Before;
    ghost var block := paths[..];
    for i := 0 to n
      invariant forall k | i * PATHLEN <= k < paths.Length :: paths[k] == block[k]
      invariant forall j | 0 <= j < i :: RowAt(paths[..], j * PATHLEN) == Before(Rows(block, n)[j], delim)
    {
      ghost var before := paths[..];
      SameRow(block, before, i * PATHLEN);
      assert RowAt(before, i * PATHLEN) == Rows(block, n)[i];
      CutRow(paths, i * PATHLEN, delim);
      OtherRows(before, paths[..], i);
    }
  }

  /** Writing inside row i leaves the rows before it alone. */
  lemma OtherRows(a: seq<char>, b: seq<char>, i: nat)
    requires (i + 1) * PATHLEN <= |a| == |b|
    requires forall k | 0 <= k < |a| && !(i * PATHLEN <= k < i * PATHLEN + PATHLEN) :: b[k] == a[k]
    ensures forall j | 0 <= j < i :: RowAt(b, j * PATHLEN) == RowAt(a, j * PATHLEN)
  {
    hide RowAt;
    forall j | 0 <= j < i
      ensures RowAt(b, j * PATHLEN) == RowAt(a, j * PATHLEN)
    {
      SameRow(a, b, j * PATHLEN);
    }
  }

  function BeforeAll(rows: seq<string>, delim: string): (r: seq<string>)
    ensures |r| == |rows| && forall i | 0 <= i < |r| :: r[i] == Before(rows[i], delim)
  {
    seq(|rows|, i requires 0 <= i < |rows| => Before(rows[i], delim))
  }

  lemma SameRow(a: seq<char>, b: seq<char>, at: nat)
    requires at + PATHLEN <= |a| == |b|
    requires forall k | at <= k < at + PATHLEN :: a[k] == b[k]
    ensures RowAt(a, at) == RowAt(b, at)
  {
    assert a[at..at + PATHLEN] == b[at..at + PATHLEN];
  }

  // ---------------------------------------------------------------- rm_dup

  predicate InBlock(block: seq<char>, ptrs: seq<nat>) {
    forall i | 0 <= i < |ptrs| :: ptrs[i] + PATHLEN <= |block|
  }

  /** The strings behind the row pointers. */
  function Pointed(block: seq<char>, ptrs: seq<nat>): (rows: seq<string>)
    requires InBlock(block, ptrs)
    ensures |rows| == |ptrs|
    ensures forall i | 0 <= i < |ptrs| :: rows[i] == RowAt(block, ptrs[i])
  {
    seq(|ptrs|, i requires 0 <= i < |ptrs| => RowAt(block, ptrs[i]))
  }

  lemma PointedSnoc(block: seq<char>, ptrs: seq<nat>, p: nat)
    requires InBlock(block, ptrs) && p + PATHLEN <= |block|
    ensures InBlock(block, ptrs + [p])
    ensures Pointed(block, ptrs + [p]) == Pointed(block, ptrs) + [RowAt(block, p)]
  {
    hide RowAt;
  }

  /** The rows up to i, and those between i and j that differ from row i. */
  function Kept(w: seq<string>, i: nat, j: nat): seq<string>
    requires i < j <= |w|
  {
    w[..i + 1] + Without(w[i + 1..j], w[i])
  }

  lemma KeptStart(w: seq<string>, i: nat)
    requires i < |w|
    ensures Kept(w, i, i + 1) == w[..i + 1]
  {
    assert w[i + 1..i + 1] == [];
  }

  lemma KeptStep(w: seq<string>, i: nat, j: nat)
    requires i < j < |w|
    ensures Kept(w, i, j + 1) == Kept(w, i, j) + if w[j] == w[i] then [] else [w[j]]
  {
    WithoutSnoc(w[i + 1..j], w[j], w[i]);
    assert w[i + 1..j + 1] == w[i + 1..j] + [w[j]];
  }

  /** The inner loop of rm_dup: behind row i, keep what differs from it. The kept pointers end
      at the result; what lies behind is left over from the compaction. */
  method DropRepetitions(block: seq<char>, ptrs: array<nat>, i: nat, n: nat) returns (k: nat)
    requires i < n <= ptrs.Length && InBlock(block, ptrs[..n])
    modifies ptrs
    ensures i < k <= n && InBlock(block, ptrs[..k])
    ensures Pointed(block, ptrs[..k]) == Kept(Pointed(block, old(ptrs[..n])), i, n)
  {
    hide RowAt, Kept;
    ghost var all := ptrs[..n];
    ghost var w, kept := Pointed(block, all), all[..i + 1];
    k := i + 1;
    var j := i + 1;
    KeptStart(w, i);
    while j < n
      invariant i < k <= j <= n && |kept| == k
      invariant forall m | 0 <= m < k :: ptrs[m] == kept[m]
      invariant forall m | j <= m < n :: ptrs[m] == all[m]
      invariant kept[i] == all[i] && InBlock(block, kept)
      invariant Pointed(block, kept) == Kept(w, i, j)
    {
      KeptStep(w, i, j);
      assert RowAt(block, ptrs[i]) == w[i] && RowAt(block, ptrs[j]) == w[j];
      if RowAt(block, ptrs[i]) != RowAt(block, ptrs[j]) {
        PointedSnoc(block, kept, ptrs[j]);
        ptrs[k] := ptrs[j];
        kept := kept + [ptrs[k]];
        k := k + 1;
      }
      j := j + 1;
    }
    assert ptrs[..k] == kept;
  }

  lemma KeptSieved(w: seq<string>, i: nat)
    requires i < |w|
    ensures var v := Kept(w, i, |w|);
            |v| > i && v[..i + 1] + Sieve(v[i + 1..]) == w[..i] + Sieve(w[i..])
  {
    var rest := w[i + 1..|w|];
    assert w[i..][1..] == rest;
    var v := Kept(w, i, |w|);
    assert v[..i + 1] == w[..i + 1] == w[..i] + [w[i]];
    assert v[i + 1..] == Without(rest, w[i]);
  }

  /** The two loops of rm_dup over the pointers. The outer bound shrinks with every round. */
  method Compact(block: seq<char>, ptrs: array<nat>, count: nat) returns (n: nat)
    requires count <= ptrs.Length && InBlock(block, ptrs[..count])
    modifies ptrs
    ensures n <= count && InBlock(block, ptrs[..n])
    ensures Pointed(block, ptrs[..n]) == FirstOccurrences(Pointed(block, old(ptrs[..count])))
  {
    hide RowAt, Pointed, Kept, Sieve;
    ghost var w0 := Pointed(block, ptrs[..count]);
    n := count;
    var i := 0;
    assert w0[..0] + Sieve(w0[0..]) == Sieve(w0);
    while i < n
      invariant i <= n <= count && InBlock(block, ptrs[..n])
      invariant Sieved(Pointed(block, ptrs[..n]), i) == Sieve(w0)
      decreases n - i
    {
      KeptSieved(Pointed(block, ptrs[..n]), i);
      n := DropRepetitions(block, ptrs, i, n);
      i := i + 1;
    }
    AllSieved(Pointed(block, ptrs[..n]), i);
    SieveIsFirstOccurrences(w0);
  }

  /** i rows done, the rest still to be sieved. */
  function Sieved(w: seq<string>, i: nat): seq<string>
    requires i <= |w|
  {
    w[..i] + Sieve(w[i..])
  }

  lemma AllSieved(w: seq<string>, i: nat)
    requires i == |w|
    ensures Sieved(w, i) == w
  {
    assert w[i..] == [];
  }

  /** strcpy into a row. */
  method CopyRow(buffer: array<char>, at: nat, row: string)
    requires at + PATHLEN <= buffer.Length && |row| < PATHLEN && NulFree(row)
    modifies buffer
    ensures RowAt(buffer[..], at) == row
    ensures forall k | 0 <= k < buffer.Length && !(at <= k < at + PATHLEN) :: buffer[k] == old(buffer[k])
  {
    hide Text.CString;
    for i := 0 to |row|
      invariant forall k | 0 <= k < i :: buffer[at + k] == row[k]
      invariant forall k | 0 <= k < buffer.Length && !(at <= k < at + PATHLEN) :: buffer[k] == old(buffer[k])
    {
      buffer[at + i] := row[i];
    }
    buffer[at + |row|] := NUL;
    RowIs(buffer[..], at, row);
  }

  /** The copy loop of rm_dup: the rows the pointers lead to, packed into a buffer. */
  method CopyRows(block: seq<char>, ptrs: array<nat>, n: nat, buffer: array<char>)
    requires n <= ptrs.Length && InBlock(block, ptrs[..n]) && n * PATHLEN <= buffer.Length
    requires Terminated(Pointed(block, ptrs[..n]))
    modifies buffer
    ensures Rows(buffer[..], n) == Pointed(block, ptrs[..n])
  {
    hide RowAt;
    for i := 0 to n
      invariant forall j | 0 <= j < i :: RowAt(buffer[..], j * PATHLEN) == Pointed(block, ptrs[..n])[j]
    {
      ghost var before := buffer[..];
      var row := RowAt(block, ptrs[..n][i]);
      assert row == Pointed(block, ptrs[..n])[i];
      RowPlain(block, ptrs[i]);
      CopyRow(buffer, i * PATHLEN, row);
      OtherRows(before, buffer[..], i);
    }
  }

  lemma RowPlain(block: seq<char>, at: nat)
    requires at + PATHLEN <= |block|
    ensures NulFree(RowAt(block, at))
  {
  }

  /** memset and memcpy: the first n rows of the table become those of the buffer. */
  method CopyBack(paths: array<char>, buffer: array<char>, n: nat)
    requires paths != buffer && n * PATHLEN <= buffer.Length && n * PATHLEN <= paths.Length
    modifies paths
    ensures Rows(paths[..], n) == Rows(buffer[..], n)
    ensures forall k | n * PATHLEN <= k < paths.Length :: paths[k] == old(paths[k])
  {
    for k := 0 to n * PATHLEN
      invariant forall j | 0 <= j < k :: paths[j] == buffer[j]
      invariant forall j | n * PATHLEN <= j < paths.Length :: paths[j] == old(paths[j])
    {
      paths[k] := buffer[k];
    }
    forall i | 0 <= i < n
      ensures Rows(paths[..], n)[i] == Rows(buffer[..], n)[i]
    {
      assert paths[..][i * PATHLEN..i * PATHLEN + PATHLEN] == buffer[..][i * PATHLEN..i * PATHLEN + PATHLEN];
    }
  }

  /** rm_dup: the table's first rows become its distinct strings in order of first occurrence,
      and the result counts them. */
  method RmDup(paths: array<char>, count: nat) returns (n: nat)
    requires paths.Length == 4096 && count <= 32
    requires forall i | 0 <= i < count :: |Rows(paths[..], count)[i]| < 128
    modifies paths
    ensures n <= count
    ensures Rows(paths[..], n) == FirstOccurrences(old(Rows(paths[..], count)))
    ensures n == |FirstOccurrences(old(Rows(paths[..], count)))|
    ensures forall k | n * PATHLEN <= k < paths.Length :: paths[k] == old(paths[k])
  {
    hide RowAt, Pointed, FirstOccurrences;
    var ptrs := new nat[NPATHS];
    var buffer := new char[PATHS_BLOCK];
    var block := paths[..];
    for i := 0 to count
      invariant paths[..] == block
      invariant forall j | 0 <= j < i :: ptrs[j] == j * PATHLEN
    {
      ptrs[i] := i * PATHLEN;
    }
    ghost var rows := Rows(block, count);
    assert InBlock(block, ptrs[..count]);
    assert Pointed(block, ptrs[..count]) == rows;
    n := Compact(block, ptrs, count);
    assert Pointed(block, ptrs[..n]) == FirstOccurrences(rows);
    StillTerminated(rows);
    CopyRows(block, ptrs, n, buffer);
    CopyBack(paths, buffer, n);
  }

  lemma StillTerminated(rows: seq<string>)
    requires Terminated(rows)
    ensures Terminated(FirstOccurrences(rows))
  {
    FirstOccurrencesExact(rows);
    forall i | 0 <= i < |FirstOccurrences(rows)|
      ensures |FirstOccurrences(rows)[i]| < PATHLEN
    {
      assert FirstOccurrences(rows)[i] in rows;
    }
  }

  // ---------------------------------------------------------------- one row per sensor

  const DELIM := "_"

  /** Before cuts at the first delimiter, and not at all if there is none. */
  lemma BeforeExact(s: string, delim: string)
    ensures Before(s, delim) <= s
    ensures Before(s, delim) == s || OccursAt(s, delim, |Before(s, delim)|)
    ensures forall k: nat | k < |Before(s, delim)| :: !OccursAt(s, delim, k)
  {
  }

  lemma BeforeUnderscore(s: string)
    ensures '_' !in Before(s, DELIM)
  {
    BeforeExact(s, DELIM);
    forall k | 0 <= k < |Before(s, DELIM)|
      ensures Before(s, DELIM)[k] != '_'
    {
      assert !OccursAt(s, DELIM, k);
      assert s[k..k + 1] == [s[k]];
    }
  }

  /** The sensors behind a list of attribute paths. */
  function SensorNames(rows: seq<string>): set<string> {
    set row | row in rows :: Before(row, DELIM)
  }

  /** Truncation and de-duplication leave one underscore-free row per sensor, however many
      attribute files each has. */
  lemma OneRowPerSensor(rows: seq<string>)
    ensures var kept := FirstOccurrences(BeforeAll(rows, DELIM));
            && |kept| == |SensorNames(rows)|
            && (set row | row in kept) == SensorNames(rows)
            && Distinct(kept)
            && forall row | row in kept :: '_' !in row
  {
    hide Before;
    var cut := BeforeAll(rows, DELIM);
    FirstOccurrencesExact(cut);
    FirstOccurrencesCount(cut);
    hide FirstOccurrences;
    assert (set row | row in cut) == SensorNames(rows) by {
      forall row | row in rows
        ensures Before(row, DELIM) in cut
      {
        var i :| 0 <= i < |rows| && rows[i] == row;
        assert cut[i] == Before(row, DELIM);
      }
    }
    forall row | row in cut
      ensures '_' !in row
    {
      var i :| 0 <= i < |cut| && cut[i] == row;
      BeforeUnderscore(rows[i]);
    }
  }

  /** sensors_temperatures up to the reading of the temperatures: -1 without sensors, -2 if
      there are more than the caller has room for. */
  method SensorsTemperatures(paths: array<char>, count: int, sensorsCount: int) returns (r: int, n: nat)
    requires paths.Length == 4096 && 0 <= count <= 32
    requires forall i | 0 <= i < count :: |Rows(paths[..], count)[i]| < 128
    modifies paths
    ensures n == |SensorNames(old(Rows(paths[..], count)))| <= count
    ensures Rows(paths[..], n) == FirstOccurrences(BeforeAll(old(Rows(paths[..], count)), DELIM))
    ensures r == if n == 0 then -1 else if n > sensorsCount then -2 else 0
  {
    hide RowAt, FirstOccurrences;
    ghost var rows := Rows(paths[..], count);
    RmLatter(paths, count, DELIM);
    BeforeTerminated(rows, DELIM);
    n := RmDup(paths, count);
    OneRowPerSensor(rows);
    if n <= 0 {
      r := -1;
    } else if n > sensorsCount {
      r := -2;
    } else {
      r := 0;
    }
  }

  lemma BeforeTerminated(rows: seq<string>, delim: string)
    requires Terminated(rows)
    ensures Terminated(BeforeAll(rows, delim))
  {
  }

  /** The size that memset and memcpy at the end of rm_dup receive for n rows: an int turned
      into a size_t. */
  function CopySize(n: int): nat {
    n * PATHLEN % 0x1_0000_0000_0000_0000
  }

  /** temp_filepaths hands on -1 after an error of glob, and rm_dup has no test for it: the
      size stays inside the table exactly if the count is not negative. */
  lemma CopySizeExact(n: int)
    requires -1 <= n <= NPATHS
    ensures CopySize(n) <= PATHS_BLOCK <==> n >= 0
    ensures n >= 0 ==> CopySize(n) == n * PATHLEN
    ensures CopySize(-1) == 0x1_0000_0000_0000_0000 - 128
  {
  }
}
