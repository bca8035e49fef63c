/**
 * Sequence filtering, as done by Array.prototype.filter and by the
 * include/exclude stages of gulp-ignore: keep the elements that satisfy a
 * predicate, in their original order.
 */
module Seqs {

  /** The elements of `xs` that satisfy `p`, in the order they appear in `xs`. */
  function Filter<T(==, !new)>(p: T -> bool, xs: seq<T>): (r: seq<T>)
    ensures |r| <= |xs|
    ensures forall x :: x in r <==> x in xs && p(x)
    ensures forall i :: 0 <= i < |r| ==> p(r[i])
  {
    if xs == [] then []
    else if p(xs[0]) then [xs[0]] + Filter(p, xs[1..])
    else Filter(p, xs[1..])
  }

  /**
   * `xs` is an interleaving of `a` and `b`: walking `xs` from the front, each
   * element is the next element of `a` or the next element of `b`, and both
   * are used up at the end. So `a` and `b` each keep the order they have in
   * `xs`, and together they account for every element of `xs` exactly once.
   */
  ghost predicate Interleaving<T>(xs: seq<T>, a: seq<T>, b: seq<T>)
    decreases |xs|
  {
    if xs == [] then a == [] && b == []
    else
      || (a != [] && a[0] == xs[0] && Interleaving(xs[1..], a[1..], b))
      || (b != [] && b[0] == xs[0] && Interleaving(xs[1..], a, b[1..]))
  }

  /** Filtering by a predicate and by its negation splits a sequence into an interleaving. */
  lemma {:induction false} FilterComplementInterleaves<T(!new)>(p: T -> bool, q: T -> bool, xs: seq<T>)
    requires forall x :: q(x) == !p(x)
    ensures Interleaving(xs, Filter(p, xs), Filter(q, xs))
  {
    if xs != [] {
      FilterComplementInterleaves(p, q, xs[1..]);
    }
  }

  /** An interleaving neither loses nor duplicates elements. */
  lemma {:induction false} InterleavingMultiset<T(!new)>(xs: seq<T>, a: seq<T>, b: seq<T>)
    requires Interleaving(xs, a, b)
    ensures multiset(xs) == multiset(a) + multiset(b)
    ensures |xs| == |a| + |b|
    decreases |xs|
  {
    if xs != [] {
      assert xs == [xs[0]] + xs[1..];
      if a != [] && a[0] == xs[0] && Interleaving(xs[1..], a[1..], b) {
        InterleavingMultiset(xs[1..], a[1..], b);
        assert a == [a[0]] + a[1..];
      } else {
        InterleavingMultiset(xs[1..], a, b[1..]);
        assert b == [b[0]] + b[1..];
      }
    }
  }

  /**
   * Whatever order `xs` mixes `a` and `b` in, filtering it by a predicate
   * that holds on every element of `a` and on none of `b` gives back `a`,
   * and filtering it by the negation gives back `b`.
   */
  lemma {:induction false} FilterSeparatesInterleaving<T(!new)>(p: T -> bool, q: T -> bool, xs: seq<T>, a: seq<T>, b: seq<T>)
    requires forall x :: q(x) == !p(x)
    requires Interleaving(xs, a, b)
    requires forall i :: 0 <= i < |a| ==> p(a[i])
    requires forall i :: 0 <= i < |b| ==> !p(b[i])
    ensures Filter(p, xs) == a && Filter(q, xs) == b
    decreases |xs|
  {
    if xs != [] {
      if a != [] && a[0] == xs[0] && Interleaving(xs[1..], a[1..], b) {
        FilterSeparatesInterleaving(p, q, xs[1..], a[1..], b);
        assert a == [a[0]] + a[1..];
      } else {
        FilterSeparatesInterleaving(p, q, xs[1..], a, b[1..]);
        assert b == [b[0]] + b[1..];
      }
    }
  }

  /** Filtering distributes over concatenation. */
  lemma {:induction false} FilterAppend<T(!new)>(p: T -> bool, xs: seq<T>, ys: seq<T>)
    ensures Filter(p, xs + ys) == Filter(p, xs) + Filter(p, ys)
  {
    if xs != [] {
      var zs := xs + ys;
      assert zs[0] == xs[0] && zs[1..] == xs[1..] + ys;
      FilterAppend(p, xs[1..], ys);
      if p(xs[0]) {
        assert Filter(p, zs) == [xs[0]] + Filter(p, xs[1..] + ys);
        assert Filter(p, xs) == [xs[0]] + Filter(p, xs[1..]);
      } else {
        assert Filter(p, zs) == Filter(p, xs[1..] + ys);
        assert Filter(p, xs) == Filter(p, xs[1..]);
      }
    } else {
      assert xs + ys == ys;
    }
  }
}
