/** `Array.prototype.filter` over immutable sequences, with the facts about it
    that the cart, the shop filter and `classNames` rely on. */
module Seqs {

  /** The elements of `xs` that satisfy `keep`, in their original order. */
  function Filter<T>(xs: seq<T>, keep: T -> bool): (r: seq<T>)
    ensures |r| <= |xs|
    ensures forall i :: 0 <= i < |r| ==> keep(r[i])
  {
    if |xs| == 0 then []
    else
      (if keep(xs[0]) then [xs[0]] else []) + Filter(xs[1..], keep)
  }

  /** The result holds exactly the kept elements of the input. */
  lemma {:induction false} FilterMembers<T>(xs: seq<T>, keep: T -> bool, x: T)
    ensures x in Filter(xs, keep) <==> x in xs && keep(x)
  {
    if |xs| > 0 {
      FilterMembers(xs[1..], keep, x);
      assert xs == [xs[0]] + xs[1..];
    }
  }

  /** One step of the filter. */
  lemma FilterCons<T>(x: T, xs: seq<T>, keep: T -> bool)
    ensures Filter([x] + xs, keep) == (if keep(x) then [x] else []) + Filter(xs, keep)
  {
    assert ([x] + xs)[1..] == xs;
  }

  /** When exactly one element passes, the filter yields just that element. */
  lemma {:induction false} FilterSingle<T>(xs: seq<T>, keep: T -> bool, k: int)
    requires 0 <= k < |xs| && keep(xs[k])
    requires forall i :: 0 <= i < |xs| && i != k ==> !keep(xs[i])
    ensures Filter(xs, keep) == [xs[k]]
    decreases |xs|
  {
    FilterCons(xs[0], xs[1..], keep);
    assert xs == [xs[0]] + xs[1..];
    if k == 0 {
      var rest := Filter(xs[1..], keep);
      if |rest| > 0 {
        FilterMembers(xs[1..], keep, rest[0]);
      }
    } else {
      FilterSingle(xs[1..], keep, k - 1);
      assert xs[1..][k - 1] == xs[k];
    }
  }

  lemma {:induction false} FilterConcat<T>(a: seq<T>, b: seq<T>, keep: T -> bool)
    ensures Filter(a + b, keep) == Filter(a, keep) + Filter(b, keep)
  {
    if |a| == 0 {
      assert a + b == b;
    } else {
      assert (a + b)[1..] == a[1..] + b;
      FilterConcat(a[1..], b, keep);
    }
  }

  /** Keeping everything is the identity. */
  lemma {:induction false} FilterKeepsAll<T>(xs: seq<T>, keep: T -> bool)
    requires forall i :: 0 <= i < |xs| ==> keep(xs[i])
    ensures Filter(xs, keep) == xs
  {
    if |xs| > 0 {
      FilterKeepsAll(xs[1..], keep);
    }
  }

  /** Two successive filters are one filter by the conjunction. */
  lemma {:induction false} FilterFusion<T>(xs: seq<T>, first: T -> bool, second: T -> bool, both: T -> bool)
    requires forall x :: both(x) == (first(x) && second(x))
    ensures Filter(Filter(xs, first), second) == Filter(xs, both)
  {
    if |xs| > 0 {
      var tail := Filter(xs[1..], first);
      FilterFusion(xs[1..], first, second, both);
      assert Filter(tail, second) == Filter(xs[1..], both);
      if first(xs[0]) {
        assert Filter(xs, first) == [xs[0]] + tail;
        FilterConcat([xs[0]], tail, second);
      } else {
        assert Filter(xs, first) == tail;
      }
    }
  }

  /** Filters by pointwise-equal predicates agree. */
  lemma {:induction false} FilterCongruent<T>(xs: seq<T>, p: T -> bool, q: T -> bool)
    requires forall i :: 0 <= i < |xs| ==> p(xs[i]) == q(xs[i])
    ensures Filter(xs, p) == Filter(xs, q)
  {
    if |xs| > 0 {
      FilterCongruent(xs[1..], p, q);
    }
  }
}
