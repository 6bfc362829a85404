/** The eight unsigned 64-bit counters of a counter structure, and the unbounded sums they
    stand for. */
module Words64 {
  const TWO64: nat := 0x1_0000_0000_0000_0000

  type u64 = n: nat | n < TWO64

  type Counts = c: seq<nat> | |c| == 8 witness [0, 0, 0, 0, 0, 0, 0, 0]

  const ZEROS: Counts := [0, 0, 0, 0, 0, 0, 0, 0]

  function Plus(a: Counts, b: Counts): (r: Counts)
    ensures forall i | 0 <= i < 8 :: r[i] == a[i] + b[i]
  {
    seq(8, i requires 0 <= i < 8 => a[i] + b[i])
  }

  /** Every counter modulo 2^64. */
  function Wrapped(a: Counts): (r: Counts)
    ensures forall i | 0 <= i < 8 :: r[i] == a[i] % TWO64
  {
    seq(8, i requires 0 <= i < 8 => a[i] % TWO64)
  }

  /** The sum counter by counter, without any bound. */
  function Sum(all: seq<Counts>): Counts {
    if all == [] then ZEROS else Plus(Sum(all[..|all| - 1]), all[|all| - 1])
  }

  function WrapAll(all: seq<Counts>): (wrapped: seq<Counts>)
    ensures |wrapped| == |all| && forall i | 0 <= i < |all| :: wrapped[i] == Wrapped(all[i])
  {
    seq(|all|, i requires 0 <= i < |all| => Wrapped(all[i]))
  }

  /** Wrapping an addend or the sum makes no difference to the wrapped result. */
  lemma ModPlus(x: nat, y: nat)
    ensures (x % TWO64 + y) % TWO64 == (x + y) % TWO64
    ensures (x + y % TWO64) % TWO64 == (x + y) % TWO64
  {
  }

  lemma WrapPlus(a: Counts, b: Counts)
    ensures Wrapped(Plus(Wrapped(a), b)) == Wrapped(Plus(a, b))
    ensures Wrapped(Plus(a, Wrapped(b))) == Wrapped(Plus(a, b))
  {
    var sum, left, right := Wrapped(Plus(a, b)), Wrapped(Plus(Wrapped(a), b)), Wrapped(Plus(a, Wrapped(b)));
    forall i | 0 <= i < 8
      ensures sum[i] == left[i] == right[i]
    {
      ModPlus(a[i], b[i]);
    }
  }

  /** Adding to the wrapped sum gives the wrapped longer sum. */
  lemma SumStep(all: seq<Counts>, c: Counts)
    ensures Wrapped(Sum(all + [c])) == Wrapped(Plus(Wrapped(Sum(all)), c))
  {
    hide Plus, Wrapped;
    assert (all + [c])[..|all|] == all;
    WrapPlus(Sum(all), c);
  }

  lemma {:induction false} SumCons(c: Counts, all: seq<Counts>, i: nat)
    requires i < 8
    ensures Sum([c] + all)[i] == c[i] + Sum(all)[i]
  {
    if all == [] {
      assert [c] + all == [c] && [c][..0] == [];
    } else {
      var front, last := all[..|all| - 1], all[|all| - 1];
      assert ([c] + all)[..|all|] == [c] + front;
      SumCons(c, front, i);
    }
  }

  /** Sum is additive, and of one it is that one. */
  lemma {:induction false} SumConcat(a: seq<Counts>, b: seq<Counts>)
    ensures Sum(a + b) == Plus(Sum(a), Sum(b))
    ensures |b| == 1 ==> Sum(b) == b[0]
  {
    if b == [] {
      assert a + b == a;
      assert Plus(Sum(a), ZEROS) == Sum(a);
    } else {
      var front, last := b[..|b| - 1], b[|b| - 1];
      SumConcat(a, front);
      assert (a + b)[..|a + b| - 1] == a + front;
      assert Plus(Plus(Sum(a), Sum(front)), last) == Plus(Sum(a), Plus(Sum(front), last));
      assert |b| == 1 ==> Plus(ZEROS, last) == last;
    }
  }

  lemma ModApart(x: nat, y: nat)
    requires x < y < x + TWO64
    ensures x % TWO64 != y % TWO64
  {
  }

  /** Adding up stored, wrapped counters gives the same wrapped sum. */
  lemma {:induction false} SumOfWrapped(all: seq<Counts>)
    ensures Wrapped(Sum(WrapAll(all))) == Wrapped(Sum(all))
  {
    hide Plus, Wrapped;
    if all != [] {
      var front, last := all[..|all| - 1], all[|all| - 1];
      SumOfWrapped(front);
      assert WrapAll(all) == WrapAll(front) + [Wrapped(last)];
      assert all == front + [last];
      SumStep(WrapAll(front), Wrapped(last));
      SumStep(front, last);
      WrapPlus(Wrapped(Sum(front)), last);
    } else {
      assert WrapAll(all) == all;
    }
  }
}
