/**
 * The JavaScript array built-ins that the collections rely on
 * (`Array.prototype.find`, `filter` and `map`), stated over sequences,
 * with the facts about duplicate-free sequences that the set- and
 * map-backed collections need.
 */
module Sequences {
  import opened Wrappers

  /** No element occurs twice. */
  ghost predicate Distinct<T>(s: seq<T>) {
    forall i, j | 0 <= i < j < |s| :: s[i] != s[j]
  }

  /** `i` is the position of the first element of `xs` that satisfies `p`. */
  ghost predicate FirstMatchAt<T>(xs: seq<T>, p: T -> bool, i: int) {
    0 <= i < |xs| && p(xs[i]) && forall j | 0 <= j < i :: !p(xs[j])
  }

  /**
   * `Array.prototype.find`: the first element satisfying `p`, or `None`
   * (JavaScript's `undefined`) when no element does.
   */
  function Find<T>(xs: seq<T>, p: T -> bool): (r: Option<T>)
    ensures r.None? <==> forall i | 0 <= i < |xs| :: !p(xs[i])
    ensures r.Some? ==> exists i :: FirstMatchAt(xs, p, i) && xs[i] == r.value
  {
    if xs == [] then None
    else if p(xs[0]) then
      assert FirstMatchAt(xs, p, 0);
      Some(xs[0])
    else
      var r := Find(xs[1..], p);
      assert r.Some? ==> exists i :: FirstMatchAt(xs, p, i) && xs[i] == r.value by {
        if r.Some? {
          var i :| FirstMatchAt(xs[1..], p, i) && xs[1..][i] == r.value;
          assert FirstMatchAt(xs, p, i + 1);
        }
      }
      r
  }

  /** `ys` can be obtained from `xs` by deleting elements, keeping the order of the rest. */
  ghost predicate IsSubsequence<T>(ys: seq<T>, xs: seq<T>)
    decreases |xs|
  {
    if ys == [] then true
    else if xs == [] then false
    else (ys[0] == xs[0] && IsSubsequence(ys[1..], xs[1..])) || IsSubsequence(ys, xs[1..])
  }

  /** The number of elements of `xs` that satisfy `p`. */
  function CountWhere<T>(xs: seq<T>, p: T -> bool): (n: nat)
    ensures n <= |xs|
  {
    if xs == [] then 0 else (if p(xs[0]) then 1 else 0) + CountWhere(xs[1..], p)
  }

  /**
   * `Array.prototype.filter`: the elements satisfying `p`, in their
   * original order, each as often as it occurs in `xs`.
   */
  function Filter<T>(xs: seq<T>, p: T -> bool): (r: seq<T>)
    ensures |r| == CountWhere(xs, p) <= |xs|
    ensures forall i | 0 <= i < |r| :: p(r[i])
    ensures IsSubsequence(r, xs)
  {
    if xs == [] then []
    else if p(xs[0]) then [xs[0]] + Filter(xs[1..], p)
    else Filter(xs[1..], p)
  }

  /**
   * The three facts `Filter` promises determine its result: a subsequence of
   * `xs` made of elements satisfying `p`, as long as the number of such
   * elements, can only be `Filter(xs, p)`.
   */
  lemma {:induction false} FilterIsUnique<T>(xs: seq<T>, p: T -> bool, ys: seq<T>)
    requires IsSubsequence(ys, xs)
    requires forall i | 0 <= i < |ys| :: p(ys[i])
    requires |ys| == CountWhere(xs, p)
    ensures ys == Filter(xs, p)
    decreases |xs|
  {
    if xs == [] {
    } else if ys == [] {
    } else if ys[0] == xs[0] && IsSubsequence(ys[1..], xs[1..]) {
      FilterIsUnique(xs[1..], p, ys[1..]);
    } else {
      assert IsSubsequence(ys, xs[1..]);
      SubsequenceCount(ys, xs[1..], p);
      AllSatisfyCount(ys, p);
      assert !p(xs[0]);
      FilterIsUnique(xs[1..], p, ys);
    }
  }

  /** A subsequence has no more `p`-elements than the sequence it comes from. */
  lemma {:induction false} SubsequenceCount<T>(ys: seq<T>, xs: seq<T>, p: T -> bool)
    requires IsSubsequence(ys, xs)
    ensures CountWhere(ys, p) <= CountWhere(xs, p)
    decreases |xs|
  {
    if ys == [] {
    } else if ys[0] == xs[0] && IsSubsequence(ys[1..], xs[1..]) {
      SubsequenceCount(ys[1..], xs[1..], p);
    } else {
      SubsequenceCount(ys, xs[1..], p);
    }
  }

  /** When every element satisfies `p`, all of them are counted. */
  lemma {:induction false} AllSatisfyCount<T>(ys: seq<T>, p: T -> bool)
    requires forall i | 0 <= i < |ys| :: p(ys[i])
    ensures CountWhere(ys, p) == |ys|
  {
    if ys != [] {
      AllSatisfyCount(ys[1..], p);
    }
  }

  /** Filtering a concatenation filters each part. */
  lemma {:induction false} FilterAppend<T>(xs: seq<T>, ys: seq<T>, p: T -> bool)
    ensures Filter(xs + ys, p) == Filter(xs, p) + Filter(ys, p)
  {
    if xs == [] {
      assert xs + ys == ys;
    } else {
      assert (xs + ys)[0] == xs[0] && (xs + ys)[1..] == xs[1..] + ys;
      FilterAppend(xs[1..], ys, p);
    }
  }

  /** Filtering keeps a sequence whose every element passes. */
  lemma {:induction false} FilterAll<T>(xs: seq<T>, p: T -> bool)
    requires forall i | 0 <= i < |xs| :: p(xs[i])
    ensures Filter(xs, p) == xs
  {
    if xs != [] {
      FilterAll(xs[1..], p);
    }
  }

  /** Filtering empties a sequence no element of which passes. */
  lemma {:induction false} FilterNone<T>(xs: seq<T>, p: T -> bool)
    requires forall i | 0 <= i < |xs| :: !p(xs[i])
    ensures Filter(xs, p) == []
  {
    if xs != [] {
      FilterNone(xs[1..], p);
    }
  }

  /** `Array.prototype.map`: the image of every element, position by position. */
  function Map<T, U>(xs: seq<T>, f: T -> U): (ys: seq<U>)
    ensures |ys| == |xs|
    ensures forall i | 0 <= i < |xs| :: ys[i] == f(xs[i])
  {
    if xs == [] then [] else [f(xs[0])] + Map(xs[1..], f)
  }

  /** A duplicate-free sequence has as many elements as the set of its elements. */
  lemma {:induction false} DistinctCardinality<T>(s: seq<T>)
    requires Distinct(s)
    ensures |set i | 0 <= i < |s| :: s[i]| == |s|
  {
    if s != [] {
      var last := |s| - 1;
      DistinctCardinality(s[..last]);
      var front := set i | 0 <= i < last :: s[..last][i];
      assert (set i | 0 <= i < |s| :: s[i]) == front + {s[last]};
      assert s[last] !in front;
    }
  }
}
