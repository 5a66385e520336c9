/** Sums of a per-element quantity over a sequence, and the fact that such a
    sum depends only on the multiset of elements, not on their order. */
module Sums {

  function SumBy<T>(xs: seq<T>, f: T -> int): int
    decreases |xs|
  {
    if xs == [] then 0 else f(xs[0]) + SumBy(xs[1..], f)
  }

  lemma {:induction false} SumByAppend<T>(xs: seq<T>, ys: seq<T>, f: T -> int)
    ensures SumBy(xs + ys, f) == SumBy(xs, f) + SumBy(ys, f)
    decreases |xs|
  {
    if xs == [] {
      assert xs + ys == ys;
    } else {
      assert (xs + ys)[1..] == xs[1..] + ys;
      SumByAppend(xs[1..], ys, f);
    }
  }

  /** Reordering the elements does not change the sum. */
  lemma {:induction false} SumByPermutation<T>(xs: seq<T>, ys: seq<T>, f: T -> int)
    requires multiset(xs) == multiset(ys)
    ensures SumBy(xs, f) == SumBy(ys, f)
    decreases |xs|
  {
    if xs == [] {
      assert |ys| == |multiset(ys)| == 0;
    } else {
      var x := xs[0];
      assert x in multiset(xs);
      assert x in multiset(ys);
      var k :| 0 <= k < |ys| && ys[k] == x;
      var rest := ys[..k] + ys[k + 1..];
      assert ys == ys[..k] + ([x] + ys[k + 1..]);
      assert xs == [x] + xs[1..];
      calc {
        multiset(ys);
        multiset(ys[..k]) + multiset([x] + ys[k + 1..]);
        multiset(ys[..k]) + multiset{x} + multiset(ys[k + 1..]);
        multiset(ys[..k]) + multiset(ys[k + 1..]) + multiset{x};
        multiset(rest) + multiset{x};
      }
      assert multiset(xs) == multiset{x} + multiset(xs[1..]);
      assert multiset(xs[1..]) == multiset(xs) - multiset{x};
      assert multiset(rest) == multiset(ys) - multiset{x};
      SumByPermutation(xs[1..], rest, f);
      SumByAppend(ys[..k], [x] + ys[k + 1..], f);
      SumByAppend(ys[..k], ys[k + 1..], f);
      assert SumBy([x] + ys[k + 1..], f) == f(x) + SumBy(ys[k + 1..], f) by {
        assert ([x] + ys[k + 1..])[1..] == ys[k + 1..];
      }
    }
  }
}
