/** The interpolated percentile over exact reals (src/statistics.cpp:51-78). */
module Percentiles {

  ghost predicate AtMostAll(x: nat, s: seq<nat>) {
    forall i :: 0 <= i < |s| ==> x <= s[i]
  }

  ghost predicate Ascending(s: seq<nat>)
    decreases |s|
  {
    s == [] || (AtMostAll(s[0], s[1..]) && Ascending(s[1..]))
  }

  lemma {:induction false} AscendingPair(s: seq<nat>, i: nat, j: nat)
    requires Ascending(s) && i <= j < |s|
    ensures s[i] <= s[j]
    decreases |s|
  {
    if i > 0 {
      AscendingPair(s[1..], i - 1, j - 1);
    } else if j > 0 {
      assert s[1..][j - 1] == s[j];
    }
  }

  function Insert(x: nat, s: seq<nat>): (r: seq<nat>)
    ensures |r| == |s| + 1
    decreases |s|
  {
    if s == [] || x <= s[0] then [x] + s else [s[0]] + Insert(x, s[1..])
  }

  lemma {:induction false} InsertKeepsBound(x: nat, s: seq<nat>, m: nat)
    requires m <= x && AtMostAll(m, s)
    ensures AtMostAll(m, Insert(x, s))
    decreases |s|
  {
    if s != [] && x > s[0] {
      assert AtMostAll(m, s[1..]);
      InsertKeepsBound(x, s[1..], m);
    }
  }

  lemma {:induction false} InsertAdds(x: nat, s: seq<nat>)
    ensures multiset(Insert(x, s)) == multiset(s) + multiset{x}
    decreases |s|
  {
    if s != [] && x > s[0] {
      InsertAdds(x, s[1..]);
      assert s == [s[0]] + s[1..];
    }
  }

  lemma {:induction false} InsertKeepsOrder(x: nat, s: seq<nat>)
    requires Ascending(s)
    ensures Ascending(Insert(x, s))
    decreases |s|
  {
    if s == [] || x <= s[0] {
      assert Insert(x, s)[1..] == s;
      forall i | 0 <= i < |s|
        ensures x <= s[i]
      {
        AscendingPair(s, 0, i);
      }
    } else {
      var rest := Insert(x, s[1..]);
      InsertKeepsOrder(x, s[1..]);
      assert Insert(x, s)[1..] == rest;
      InsertKeepsBound(x, s[1..], s[0]);
    }
  }

  /** The samples in ascending order; sorting is a library call in the source. */
  function Sort(s: seq<nat>): (r: seq<nat>)
    ensures |r| == |s|
    decreases |s|
  {
    if s == [] then [] else Insert(s[0], Sort(s[1..]))
  }

  lemma {:induction false} SortSorts(s: seq<nat>)
    ensures Ascending(Sort(s)) && multiset(Sort(s)) == multiset(s)
    decreases |s|
  {
    if s != [] {
      SortSorts(s[1..]);
      InsertKeepsOrder(s[0], Sort(s[1..]));
      InsertAdds(s[0], Sort(s[1..]));
      assert s == [s[0]] + s[1..];
    }
  }

  lemma LeastInMultiset(a: seq<nat>, x: nat)
    requires Ascending(a) && a != [] && x in multiset(a)
    ensures a[0] <= x
  {
    assert x in a;
    var i :| 0 <= i < |a| && a[i] == x;
    AscendingPair(a, 0, i);
  }

  /** There is only one way to put samples in ascending order. */
  lemma {:induction false} AscendingIsUnique(a: seq<nat>, b: seq<nat>)
    requires Ascending(a) && Ascending(b) && multiset(a) == multiset(b)
    ensures a == b
    decreases |a|
  {
    SameSize(a, b);
    if a != [] {
      LeastInMultiset(a, b[0]);
      LeastInMultiset(b, a[0]);
      DropFirst(a);
      DropFirst(b);
      AscendingIsUnique(a[1..], b[1..]);
    }
  }

  lemma SameSize(a: seq<nat>, b: seq<nat>)
    requires multiset(a) == multiset(b)
    ensures |a| == |b|
  {
    assert |multiset(a)| == |a| && |multiset(b)| == |b|;
  }

  lemma DropFirst(a: seq<nat>)
    requires a != []
    ensures multiset(a[1..]) == multiset(a) - multiset{a[0]}
  {
    assert a == [a[0]] + a[1..];
  }

  // ---------------------------------------------------------------- interpolation

  /** The weighted mean that get_percentile computes. */
  function Blend(a: real, b: real, f: real): real {
    a * (1.0 - f) + b * f
  }

  /** Linear interpolation between neighbouring samples at position x. */
  function At(s: seq<nat>, x: real): real
    requires s != [] && 0.0 <= x <= (|s| - 1) as real
  {
    var lower := x.Floor;
    if lower + 1 >= |s| then s[lower] as real
    else Blend(s[lower] as real, s[lower + 1] as real, x - lower as real)
  }

  /** The position that p picks among n samples. */
  function Position(p: real, n: nat): real {
    (p / 100.0) * (n - 1) as real
  }

  lemma ScaleMono(a: real, b: real, c: real)
    requires a <= b && c >= 0.0
    ensures a * c <= b * c
  {
  }

  lemma PositionMonotone(p: real, q: real, n: nat)
    requires p <= q && n > 0
    ensures Position(p, n) <= Position(q, n)
  {
    ScaleMono(p / 100.0, q / 100.0, (n - 1) as real);
  }

  lemma PositionInRange(p: real, n: nat)
    requires 0.0 <= p <= 100.0 && n > 0
    ensures 0.0 <= Position(p, n) <= (n - 1) as real
    ensures Position(0.0, n) == 0.0 && Position(100.0, n) == (n - 1) as real
  {
    PositionMonotone(0.0, p, n);
    PositionMonotone(p, 100.0, n);
  }

  /** get_percentile on ascending samples. */
  function OfSorted(s: seq<nat>, p: real): real
    requires s != []
  {
    if p <= 0.0 then s[0] as real
    else if p >= 100.0 then s[|s| - 1] as real
    else
      PositionInRange(p, |s|);
      At(s, Position(p, |s|))
  }

  function Percentile(samples: seq<nat>, p: real): real {
    if samples == [] then 0.0 else OfSorted(Sort(samples), p)
  }

  lemma BlendMonotone(a: real, b: real, f: real, g: real)
    requires a <= b && f <= g
    ensures Blend(a, b, f) <= Blend(a, b, g)
  {
    ScaleMono(f, g, b - a);
    assert Blend(a, b, f) == a + f * (b - a);
    assert Blend(a, b, g) == a + g * (b - a);
  }

  /** The value at x lies between the samples on either side of it. */
  lemma AtBetweenNeighbours(s: seq<nat>, x: real)
    requires s != [] && Ascending(s) && 0.0 <= x <= (|s| - 1) as real
    ensures s[x.Floor] as real <= At(s, x)
    ensures At(s, x) <= s[if x.Floor + 1 < |s| then x.Floor + 1 else x.Floor] as real
  {
    var lower := x.Floor;
    if lower + 1 < |s| {
      AscendingPair(s, lower, lower + 1);
      var a, b := s[lower] as real, s[lower + 1] as real;
      BlendMonotone(a, b, 0.0, x - lower as real);
      BlendMonotone(a, b, x - lower as real, 1.0);
    }
  }

  lemma AtMonotone(s: seq<nat>, x: real, y: real)
    requires s != [] && Ascending(s) && 0.0 <= x <= y <= (|s| - 1) as real
    ensures At(s, x) <= At(s, y)
  {
    var l, m := x.Floor, y.Floor;
    if l == m {
      if l + 1 < |s| {
        AscendingPair(s, l, l + 1);
        BlendMonotone(s[l] as real, s[l + 1] as real, x - l as real, y - l as real);
      }
    } else {
      AtBetweenNeighbours(s, x);
      AtBetweenNeighbours(s, y);
      AscendingPair(s, l + 1, m);
    }
  }

  function Clamp(p: real): real {
    if p <= 0.0 then 0.0 else if p >= 100.0 then 100.0 else p
  }

  /** With p clamped to [0, 100] the percentile is one interpolation, special cases included. */
  lemma OfSortedIsInterpolation(s: seq<nat>, p: real)
    requires s != []
    ensures 0.0 <= Position(Clamp(p), |s|) <= (|s| - 1) as real
    ensures OfSorted(s, p) == At(s, Position(Clamp(p), |s|))
  {
    PositionInRange(Clamp(p), |s|);
  }

  // ---------------------------------------------------------------- main results

  /** Only the multiset of samples matters, not their order. */
  lemma PercentileIgnoresOrder(a: seq<nat>, b: seq<nat>, p: real)
    requires multiset(a) == multiset(b)
    ensures Percentile(a, p) == Percentile(b, p)
  {
    SameSize(a, b);
    SortSorts(a);
    SortSorts(b);
    AscendingIsUnique(Sort(a), Sort(b));
  }

  /** The percentile never decreases as p grows. */
  lemma PercentileMonotone(samples: seq<nat>, p: real, q: real)
    requires p <= q
    ensures Percentile(samples, p) <= Percentile(samples, q)
  {
    if samples != [] {
      var s := Sort(samples);
      SortSorts(samples);
      OfSortedIsInterpolation(s, p);
      OfSortedIsInterpolation(s, q);
      PositionMonotone(Clamp(p), Clamp(q), |s|);
      AtMonotone(s, Position(Clamp(p), |s|), Position(Clamp(q), |s|));
    }
  }

  /** Interpolation. At a position k + f between two sorted samples the percentile is the point a
      fraction f of the way from the k-th to the next, the samples themselves at both ends included. */
  lemma PercentileInterpolates(samples: seq<nat>, p: real, k: nat, f: real)
    requires 0.0 <= p <= 100.0 && 0.0 <= f <= 1.0 && k + 1 < |samples|
    requires Position(p, |samples|) == k as real + f
    ensures |Sort(samples)| == |samples|
    ensures Percentile(samples, p) == Toward(Sort(samples)[k], Sort(samples)[k + 1], f)
  {
    SortedInterpolates(Sort(samples), p, k as real + f);
    AtBetween(Sort(samples), k, f);
  }

  lemma SortedInterpolates(s: seq<nat>, p: real, x: real)
    requires s != [] && 0.0 <= p <= 100.0 && Position(p, |s|) == x
    ensures 0.0 <= x <= (|s| - 1) as real && OfSorted(s, p) == At(s, x)
  {
    OfSortedIsInterpolation(s, p);
    assert Clamp(p) == p;
  }

  /** A fraction f of the way from a to b. */
  function Toward(a: nat, b: nat, f: real): real {
    a as real + f * (b as real - a as real)
  }

  lemma AtBetween(s: seq<nat>, k: nat, f: real)
    requires 0.0 <= f <= 1.0 && k + 1 < |s|
    ensures At(s, k as real + f) == Toward(s[k], s[k + 1], f)
  {
    var x := k as real + f;
    if f == 1.0 {
      assert x.Floor == k + 1;
      if k + 2 < |s| {
        BlendForm(s[k + 1] as real, s[k + 2] as real, 0.0);
      }
    } else {
      assert x.Floor == k;
      BlendForm(s[k] as real, s[k + 1] as real, f);
    }
  }

  lemma BlendForm(a: real, b: real, f: real)
    ensures Blend(a, b, f) == a + f * (b - a)
  {
  }

  ghost predicate IsMin(s: seq<nat>, m: nat) {
    m in s && forall x :: x in s ==> m <= x
  }

  ghost predicate IsMax(s: seq<nat>, m: nat) {
    m in s && forall x :: x in s ==> x <= m
  }

  lemma SameMembers(a: seq<nat>, b: seq<nat>, x: nat)
    requires multiset(a) == multiset(b) && x in a
    ensures x in b
  {
    assert x in multiset(b);
  }

  lemma EndsOfSorted(samples: seq<nat>, min: nat, max: nat)
    requires IsMin(samples, min) && IsMax(samples, max)
    ensures |Sort(samples)| > 0 && Sort(samples)[0] == min && Sort(samples)[|samples| - 1] == max
  {
    var s := Sort(samples);
    SortSorts(samples);
    SameMembers(s, samples, s[0]);
    SameMembers(s, samples, s[|s| - 1]);
    SameMembers(samples, s, min);
    SameMembers(samples, s, max);
    LeastInMultiset(s, min);
    var i :| 0 <= i < |s| && s[i] == max;
    AscendingPair(s, i, |s| - 1);
  }

  /** It runs from the least sample, reached at p <= 0, to the greatest, reached at p >= 100. */
  lemma PercentileBetweenExtremes(samples: seq<nat>, min: nat, max: nat, p: real)
    requires IsMin(samples, min) && IsMax(samples, max)
    ensures min as real <= Percentile(samples, p) <= max as real
    ensures p <= 0.0 ==> Percentile(samples, p) == min as real
    ensures p >= 100.0 ==> Percentile(samples, p) == max as real
  {
    EndsOfSorted(samples, min, max);
    PercentileMonotone(samples, if p < 0.0 then p else 0.0, p);
    PercentileMonotone(samples, p, if p > 100.0 then p else 100.0);
  }

  /** The reported tail percentiles are in order. */
  lemma TailPercentilesInOrder(samples: seq<nat>)
    ensures Percentile(samples, 99.0) <= Percentile(samples, 99.9) <= Percentile(samples, 99.99)
  {
    PercentileMonotone(samples, 99.0, 99.9);
    PercentileMonotone(samples, 99.9, 99.99);
  }
}
