/** Optional values, the counterpart of Rust's `Option`, and helpers for loops over sequences. */
module Wrappers {

  datatype Option<+T> = None | Some(value: T) {

    /** The contained value, or `default` when there is none (`unwrap_or`). */
    function GetOr(default: T): T {
      match this
      case Some(v) => v
      case None => default
    }
  }

  /** The prefix of length `n + 1` is the prefix of length `n` and the next element. */
  lemma PrefixStep<T>(s: seq<T>, n: nat)
    requires n < |s|
    ensures s[..n + 1] == s[..n] + [s[n]]
  {
  }

  /** Appending keeps the first element and appends to the rest. */
  lemma AppendTail<T>(s: seq<T>, x: T)
    requires s != []
    ensures (s + [x])[0] == s[0] && (s + [x])[1..] == s[1..] + [x]
  {
  }

  /** A prefix of `a` is the same prefix of `a + b`. */
  lemma AppendPrefix<T>(a: seq<T>, b: seq<T>, n: nat)
    requires n <= |a|
    ensures (a + b)[..n] == a[..n]
  {
  }

  /** Past `a`, `a + b` is `b`. */
  lemma AppendSuffix<T>(a: seq<T>, b: seq<T>)
    ensures (a + b)[|a|..] == b
  {
  }

  lemma ConcatAssoc<T>(a: seq<T>, b: seq<T>, c: seq<T>)
    ensures (a + b) + c == a + (b + c)
  {
  }

  /** `f` applied to every element, in order. */
  function Map<A, B>(f: A -> B, xs: seq<A>): (r: seq<B>)
    ensures |r| == |xs|
  {
    if xs == [] then [] else Map(f, xs[..|xs| - 1]) + [f(xs[|xs| - 1])]
  }

  lemma MapStep<A, B>(f: A -> B, xs: seq<A>, n: nat)
    requires n < |xs|
    ensures Map(f, xs[..n + 1]) == Map(f, xs[..n]) + [f(xs[n])]
  {
    assert xs[..n + 1][..n] == xs[..n];
  }

  lemma {:induction false} MapAt<A, B>(f: A -> B, xs: seq<A>)
    ensures forall m :: 0 <= m < |xs| ==> Map(f, xs)[m] == f(xs[m])
  {
    if xs != [] {
      var init := xs[..|xs| - 1];
      MapAt(f, init);
      assert forall m :: 0 <= m < |init| ==> init[m] == xs[m];
    }
  }

  /** `p` holds of every element. */
  predicate All<A>(p: A -> bool, xs: seq<A>) {
    xs == [] || (All(p, xs[..|xs| - 1]) && p(xs[|xs| - 1]))
  }

  lemma AllStep<A>(p: A -> bool, xs: seq<A>, n: nat)
    requires n < |xs|
    ensures All(p, xs[..n + 1]) <==> All(p, xs[..n]) && p(xs[n])
  {
    assert xs[..n + 1][..n] == xs[..n];
  }

  lemma {:induction false} AllAt<A>(p: A -> bool, xs: seq<A>)
    ensures All(p, xs) <==> forall m :: 0 <= m < |xs| ==> p(xs[m])
  {
    if xs != [] {
      var init := xs[..|xs| - 1];
      AllAt(p, init);
      assert forall m :: 0 <= m < |init| ==> init[m] == xs[m];
    }
  }

  /** The index of the first element `p` does not hold of, if any. */
  function FirstFailing<A>(p: A -> bool, xs: seq<A>): (r: Option<nat>)
    ensures r.Some? ==> r.value < |xs|
  {
    if xs == [] then None
    else if !p(xs[0]) then Some(0)
    else
      match FirstFailing(p, xs[1..])
      case None => None
      case Some(i) => Some(i + 1)
  }

  /** None exactly when `p` holds throughout; otherwise `p` fails there and holds before. */
  lemma {:induction false} FirstFailingSpec<A>(p: A -> bool, xs: seq<A>)
    ensures FirstFailing(p, xs).None? <==> forall m :: 0 <= m < |xs| ==> p(xs[m])
    ensures FirstFailing(p, xs).Some? ==>
      (!p(xs[FirstFailing(p, xs).value]) && forall l :: 0 <= l < FirstFailing(p, xs).value ==> p(xs[l]))
  {
    if xs != [] && p(xs[0]) {
      FirstFailingSpec(p, xs[1..]);
      assert forall m :: 1 <= m < |xs| ==> xs[m] == xs[1..][m - 1];
    }
  }

  lemma FirstFailingAt<A>(p: A -> bool, xs: seq<A>, n: nat)
    requires n < |xs| && All(p, xs[..n]) && !p(xs[n])
    ensures FirstFailing(p, xs) == Some(n)
  {
    AllAt(p, xs[..n]);
    assert forall l :: 0 <= l < n ==> xs[..n][l] == xs[l];
    FirstFailingSpec(p, xs);
  }

  lemma FirstFailingNone<A>(p: A -> bool, xs: seq<A>)
    requires All(p, xs)
    ensures FirstFailing(p, xs) == None
  {
    AllAt(p, xs);
    FirstFailingSpec(p, xs);
  }
}
