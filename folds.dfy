/**
 * Order-preserving folds over sequences: a map-and-concatenate, a filter
 * and a count. The builder's answers and events are such folds over the
 * request's questions, and the facts here are what the proofs about them
 * rest on.
 */
module Folds {

  /** `f` applied to every element of `xs`, the results concatenated in order. */
  function FlatMap<T, U>(xs: seq<T>, f: T -> seq<U>): seq<U>
    decreases |xs|
  {
    if xs == [] then [] else FlatMap(xs[..|xs| - 1], f) + f(xs[|xs| - 1])
  }

  /** The elements of `xs` that satisfy `p`, in order. */
  function Filter<T>(xs: seq<T>, p: T -> bool): (r: seq<T>)
    ensures |r| <= |xs|
    decreases |xs|
  {
    if xs == [] then []
    else Filter(xs[..|xs| - 1], p) + (if p(xs[|xs| - 1]) then [xs[|xs| - 1]] else [])
  }

  /** The number of elements of `us` that satisfy `p`. */
  function CountWhere<U>(us: seq<U>, p: U -> bool): (n: nat)
    ensures n <= |us|
    decreases |us|
  {
    if us == [] then 0 else CountWhere(us[..|us| - 1], p) + (if p(us[|us| - 1]) then 1 else 0)
  }

  lemma {:induction false} FilterAll<T>(xs: seq<T>, p: T -> bool)
    requires forall i :: 0 <= i < |xs| ==> p(xs[i])
    ensures Filter(xs, p) == xs
    decreases |xs|
  {
    if xs != [] {
      var init := xs[..|xs| - 1];
      assert forall i :: 0 <= i < |init| ==> init[i] == xs[i];
      FilterAll(init, p);
      assert init + [xs[|xs| - 1]] == xs;
    }
  }

  lemma {:induction false} FilterNone<T>(xs: seq<T>, p: T -> bool)
    requires forall i :: 0 <= i < |xs| ==> !p(xs[i])
    ensures Filter(xs, p) == []
    decreases |xs|
  {
    if xs != [] {
      var init := xs[..|xs| - 1];
      assert forall i :: 0 <= i < |init| ==> init[i] == xs[i];
      FilterNone(init, p);
    }
  }

  /** Whatever one element contributes appears in the concatenation. */
  lemma {:induction false} FlatMapContains<T, U>(xs: seq<T>, f: T -> seq<U>, x: T, u: U)
    requires x in xs && u in f(x)
    ensures u in FlatMap(xs, f)
    decreases |xs|
  {
    var init, last := xs[..|xs| - 1], xs[|xs| - 1];
    assert xs == init + [last];
    if x != last {
      assert x in init;
      FlatMapContains(init, f, x, u);
    }
  }

  lemma FlatMapStep<T, U>(xs: seq<T>, i: nat, f: T -> seq<U>)
    requires i < |xs|
    ensures FlatMap(xs[..i + 1], f) == FlatMap(xs[..i], f) + f(xs[i])
  {
    assert xs[..i + 1][..i] == xs[..i];
  }

  lemma {:induction false} FlatMapAppend<T, U>(a: seq<T>, b: seq<T>, f: T -> seq<U>)
    ensures FlatMap(a + b, f) == FlatMap(a, f) + FlatMap(b, f)
    decreases |b|
  {
    if b == [] {
      assert a + b == a;
    } else {
      assert (a + b)[..|a + b| - 1] == a + b[..|b| - 1];
      FlatMapAppend(a, b[..|b| - 1], f);
    }
  }

  lemma {:induction false} FlatMapLength<T, U>(xs: seq<T>, f: T -> seq<U>, k: nat)
    requires forall x :: x in xs ==> |f(x)| <= k
    ensures |FlatMap(xs, f)| <= k * |xs|
    decreases |xs|
  {
    if xs != [] {
      assert xs[|xs| - 1] in xs;
      assert forall x :: x in xs[..|xs| - 1] ==> x in xs;
      FlatMapLength(xs[..|xs| - 1], f, k);
      assert k * |xs| == k * (|xs| - 1) + k;
    }
  }

  lemma {:induction false} FlatMapMember<T, U>(xs: seq<T>, f: T -> seq<U>, u: U)
    requires u in FlatMap(xs, f)
    ensures exists x :: x in xs && u in f(x)
    decreases |xs|
  {
    var init, last := xs[..|xs| - 1], xs[|xs| - 1];
    assert last in xs;
    if u in FlatMap(init, f) {
      FlatMapMember(init, f, u);
      var x :| x in init && u in f(x);
      assert x in xs;
    }
  }

  /** Dropping elements that `f` maps to nothing leaves the concatenation unchanged. */
  lemma {:induction false} FlatMapFilter<T, U>(xs: seq<T>, f: T -> seq<U>, p: T -> bool)
    requires forall x :: x in xs && !p(x) ==> f(x) == []
    ensures FlatMap(xs, f) == FlatMap(Filter(xs, p), f)
    decreases |xs|
  {
    if xs != [] {
      var init, last := xs[..|xs| - 1], xs[|xs| - 1];
      assert last in xs;
      assert forall x :: x in init ==> x in xs;
      FlatMapFilter(init, f, p);
      var tail := if p(last) then [last] else [];
      FlatMapAppend(Filter(init, p), tail, f);
    }
  }

  lemma {:induction false} CountWhereAppend<U>(a: seq<U>, b: seq<U>, p: U -> bool)
    ensures CountWhere(a + b, p) == CountWhere(a, p) + CountWhere(b, p)
    decreases |b|
  {
    if b == [] {
      assert a + b == a;
    } else {
      assert (a + b)[..|a + b| - 1] == a + b[..|b| - 1];
      CountWhereAppend(a, b[..|b| - 1], p);
    }
  }

  /**
   * When each element contributes one `p`-element exactly when it satisfies
   * `q` (and none otherwise), the concatenation holds as many `p`-elements as
   * `xs` holds `q`-elements.
   */
  lemma {:induction false} CountFlatMap<T, U>(xs: seq<T>, f: T -> seq<U>, p: U -> bool, q: T -> bool)
    requires forall x :: x in xs ==> CountWhere(f(x), p) == (if q(x) then 1 else 0)
    ensures CountWhere(FlatMap(xs, f), p) == |Filter(xs, q)|
    decreases |xs|
  {
    if xs != [] {
      var init, last := xs[..|xs| - 1], xs[|xs| - 1];
      assert last in xs;
      assert forall x :: x in init ==> x in xs;
      CountFlatMap(init, f, p, q);
      CountWhereAppend(FlatMap(init, f), f(last), p);
    }
  }
}
