/** Stable de-duplication of a sequence, and the sieve that rm_dup performs. */
module Dedup {

  /** Every element that did not occur before, in order. */
  function FirstOccurrences<T(==)>(s: seq<T>): seq<T> {
    if s == [] then []
    else
      var x, front := s[|s| - 1], s[..|s| - 1];
      FirstOccurrences(front) + if x in front then [] else [x]
  }

  function Without<T(==)>(s: seq<T>, x: T): (r: seq<T>)
    ensures |r| <= |s|
  {
    if s == [] then [] else (if s[0] == x then [] else [s[0]]) + Without(s[1..], x)
  }

  /** Keep the first element, drop its repetitions, go on behind it. */
  function Sieve<T(==)>(s: seq<T>): seq<T>
    decreases |s|
  {
    if s == [] then [] else [s[0]] + Sieve(Without(s[1..], s[0]))
  }

  lemma {:induction false} WithoutSnoc<T>(s: seq<T>, y: T, x: T)
    ensures Without(s + [y], x) == Without(s, x) + if y == x then [] else [y]
  {
    if s == [] {
      assert s + [y] == [y];
      assert [y][1..] == [];
    } else {
      assert (s + [y])[1..] == s[1..] + [y];
      WithoutSnoc(s[1..], y, x);
    }
  }

  lemma {:induction false} WithoutMembers<T>(s: seq<T>, x: T)
    ensures forall y :: y in Without(s, x) <==> y in s && y != x
  {
    if s != [] {
      WithoutMembers(s[1..], x);
      assert forall y :: y in s <==> y == s[0] || y in s[1..];
    }
  }

  lemma {:induction false} SieveSnoc<T>(s: seq<T>, y: T)
    ensures Sieve(s + [y]) == Sieve(s) + if y in s then [] else [y]
    decreases |s|
  {
    if s == [] {
      assert s + [y] == [y];
      assert [y][1..] == [];
    } else {
      var rest := Without(s[1..], s[0]);
      assert (s + [y])[1..] == s[1..] + [y];
      WithoutSnoc(s[1..], y, s[0]);
      WithoutMembers(s[1..], s[0]);
      assert y in s <==> y == s[0] || y in s[1..];
      if y != s[0] {
        SieveSnoc(rest, y);
      } else {
        assert rest + [] == rest;
      }
    }
  }

  /** The sieve computes the stable de-duplication. */
  lemma {:induction false} SieveIsFirstOccurrences<T>(s: seq<T>)
    ensures Sieve(s) == FirstOccurrences(s)
  {
    if s != [] {
      var front := s[..|s| - 1];
      SieveIsFirstOccurrences(front);
      SieveSnoc(front, s[|s| - 1]);
      assert s == front + [s[|s| - 1]];
    }
  }

  // ---------------------------------------------------------------- what de-duplication means

  predicate Distinct<T(==)>(s: seq<T>) {
    forall i, j | 0 <= i < j < |s| :: s[i] != s[j]
  }

  /** Same elements, none twice ... */
  lemma {:induction false} FirstOccurrencesExact<T>(s: seq<T>)
    ensures Distinct(FirstOccurrences(s))
    ensures forall x :: x in FirstOccurrences(s) <==> x in s
  {
    if s != [] {
      var front := s[..|s| - 1];
      FirstOccurrencesExact(front);
      assert forall x :: x in s <==> x in front || x == s[|s| - 1];
    }
  }

  /** ... in the order of first occurrence: de-duplicating a longer sequence extends the result. */
  lemma {:induction false} FirstOccurrencesStable<T>(s: seq<T>, k: nat)
    requires k <= |s|
    ensures FirstOccurrences(s[..k]) <= FirstOccurrences(s)
  {
    if k == |s| {
      assert s[..k] == s;
    } else {
      var front := s[..|s| - 1];
      FirstOccurrencesStable(front, k);
      assert front[..k] == s[..k];
    }
  }

  /** There are as many as there are distinct elements. */
  lemma {:induction false} FirstOccurrencesCount<T>(s: seq<T>)
    ensures |FirstOccurrences(s)| == |set x | x in s|
  {
    if s != [] {
      var x, front := s[|s| - 1], s[..|s| - 1];
      FirstOccurrencesCount(front);
      var all, most := set y | y in s, set y | y in front;
      assert forall y :: y in s <==> y in front || y == x;
      assert all == most + {x};
      assert FirstOccurrences(s) == FirstOccurrences(front) + if x in front then [] else [x];
      if x in front {
        assert all == most;
      } else {
        assert x !in most;
      }
    }
  }

  /** A second run changes nothing. */
  lemma {:induction false} DistinctUnchanged<T>(s: seq<T>)
    requires Distinct(s)
    ensures FirstOccurrences(s) == s
  {
    if s != [] {
      var front := s[..|s| - 1];
      forall i, j | 0 <= i < j < |s|
        ensures s[..|s| - 1][i] == s[i] && s[i] != s[j]
      {
      }
      DistinctUnchanged(front);
      assert s == front + [s[|s| - 1]];
      assert s[|s| - 1] !in front;
    }
  }

  lemma FirstOccurrencesIdempotent<T>(s: seq<T>)
    ensures FirstOccurrences(FirstOccurrences(s)) == FirstOccurrences(s)
  {
    FirstOccurrencesExact(s);
    DistinctUnchanged(FirstOccurrences(s));
  }
}
