/** Linear percentiles of latency samples, over the reals. */
module LatencyPercentile {
  import opened Sorting

  type Samples = seq<real>

  predicate AtMost(x: real, y: real) { x <= y }

  function Sorted(s: Samples): (r: Samples)
    ensures |r| == |s|
  {
    Sort(s, AtMost)
  }

  lemma SortedIsSorted(s: Samples)
    ensures multiset(Sorted(s)) == multiset(s) && InOrder(Sorted(s), AtMost)
  {
    SortContents(s, AtMost);
    SortInOrder(s, AtMost);
  }

  // ---- Interpolation ----

  /** The value between two samples. */
  function Mix(a: real, b: real, weight: real): real {
    a * (1.0 - weight) + b * weight
  }

  lemma Scaled(x: real, w: real, v: real)
    requires x >= 0.0 && w <= v
    ensures x * w <= x * v
  {
  }

  lemma MixIsBetween(a: real, b: real, w: real)
    requires 0.0 <= w <= 1.0 && a <= b
    ensures Mix(a, b, w) == a + (b - a) * w && a <= Mix(a, b, w) <= b
  {
    Scaled(b - a, 0.0, w);
    Scaled(b - a, w, 1.0);
  }

  lemma MixMonotone(a: real, b: real, w: real, c: real, d: real, v: real)
    requires 0.0 <= w <= v <= 1.0 && a <= b && a <= c && b <= d
    ensures Mix(a, b, w) <= Mix(c, d, v)
  {
    hide Mix;
    MixIsBetween(a, b, w);
    MixIsBetween(a, b, v);
    assert Mix(a, b, w) <= Mix(a, b, v) by {
      Scaled(b - a, w, v);
    }
    assert Mix(c, d, v) - Mix(a, b, v) >= 0.0 by {
      MixDifference(a, b, c, d, v);
      Product(c - a, 1.0 - v);
      Product(d - b, v);
    }
  }

  lemma Product(x: real, y: real)
    requires x >= 0.0 && y >= 0.0
    ensures x * y >= 0.0
  {
  }

  lemma MixDifference(a: real, b: real, c: real, d: real, v: real)
    ensures Mix(c, d, v) - Mix(a, b, v) == (c - a) * (1.0 - v) + (d - b) * v
  {
  }

  /** The sorted samples as a function of a position between them. */
  function At(s: Samples, position: real): real
    requires s != [] && 0.0 <= position <= (|s| - 1) as real
  {
    var lower := position.Floor;
    var upper := if lower + 1 < |s| - 1 then lower + 1 else |s| - 1;
    Mix(s[lower], s[upper], position - lower as real)
  }

  lemma AtBetween(s: Samples, position: real)
    requires s != [] && InOrder(s, AtMost) && 0.0 <= position <= (|s| - 1) as real
    ensures var lower := position.Floor;
      var upper := if lower + 1 < |s| - 1 then lower + 1 else |s| - 1;
      s[0] <= s[lower] <= At(s, position) <= s[upper] <= s[|s| - 1]
  {
    var lower := position.Floor;
    var upper := if lower + 1 < |s| - 1 then lower + 1 else |s| - 1;
    var w := position - lower as real;
    MixIsBetween(s[lower], s[upper], w);
  }

  lemma AtMonotone(s: Samples, p: real, q: real)
    requires s != [] && InOrder(s, AtMost) && 0.0 <= p <= q <= (|s| - 1) as real
    ensures At(s, p) <= At(s, q)
  {
    AtBetween(s, p);
    AtBetween(s, q);
    if p.Floor == q.Floor {
      var lower := p.Floor;
      var upper := if lower + 1 < |s| - 1 then lower + 1 else |s| - 1;
      MixMonotone(s[lower], s[upper], p - lower as real, s[lower], s[upper], q - lower as real);
    }
  }

  /** Every sample of `a` is at most the one of `b` at the same place. */
  ghost predicate Pointwise(a: Samples, b: Samples) {
    |a| == |b| && forall i | 0 <= i < |a| :: a[i] <= b[i]
  }

  lemma AtPointwise(a: Samples, b: Samples, p: real)
    requires a != [] && InOrder(a, AtMost) && Pointwise(a, b) && 0.0 <= p <= (|a| - 1) as real
    ensures At(a, p) <= At(b, p)
  {
    var lower := p.Floor;
    var upper := if lower + 1 < |a| - 1 then lower + 1 else |a| - 1;
    var w := p - lower as real;
    MixMonotone(a[lower], a[upper], w, b[lower], b[upper], w);
  }

  lemma SortedHead(s: Samples)
    requires InOrder(s, AtMost) && s != []
    ensures Insert(s[0], s[1..], AtMost) == s && InOrder(s[1..], AtMost)
  {
    assert s == [s[0]] + s[1..];
  }

  lemma PointwiseTail(a: Samples, b: Samples)
    requires Pointwise(a, b) && a != []
    ensures Pointwise(a[1..], b[1..]) && a[0] <= b[0]
  {
  }

  /** The smaller of the two comes first, the other goes into the rest. */
  lemma FirstInserted(x: real, s: Samples)
    requires s != [] && InOrder(s, AtMost)
    ensures Insert(x, s, AtMost)
      == [if x <= s[0] then x else s[0]] + Insert(if x <= s[0] then s[0] else x, s[1..], AtMost)
  {
    SortedHead(s);
  }

  lemma PointwiseCons(x: real, y: real, a: Samples, b: Samples)
    requires x <= y && Pointwise(a, b)
    ensures Pointwise([x] + a, [y] + b)
  {
  }

  lemma {:induction false} InsertPointwise(x: real, y: real, a: Samples, b: Samples)
    requires x <= y && InOrder(a, AtMost) && InOrder(b, AtMost) && Pointwise(a, b)
    ensures Pointwise(Insert(x, a, AtMost), Insert(y, b, AtMost))
    decreases |a|
  {
    if a != [] {
      PointwiseTail(a, b);
      SortedHead(a);
      SortedHead(b);
      FirstInserted(x, a);
      FirstInserted(y, b);
      hide Pointwise, Insert, InOrder;
      var u, v := if x <= a[0] then a[0] else x, if y <= b[0] then b[0] else y;
      var low, high := if x <= a[0] then x else a[0], if y <= b[0] then y else b[0];
      InsertPointwise(u, v, a[1..], b[1..]);
      PointwiseCons(low, high, Insert(u, a[1..], AtMost), Insert(v, b[1..], AtMost));
    }
  }

  lemma {:induction false} SortedPointwise(a: Samples, b: Samples)
    requires Pointwise(a, b)
    ensures Pointwise(Sorted(a), Sorted(b))
  {
    if a != [] {
      SortedPointwise(a[1..], b[1..]);
      SortedIsSorted(a[1..]);
      SortedIsSorted(b[1..]);
      InsertPointwise(a[0], b[0], Sorted(a[1..]), Sorted(b[1..]));
    }
  }

  // ---- The percentile ----

  function Times(x: real, y: real): real {
    x * y
  }

  lemma TimesMonotone(x: real, v: real, w: real)
    requires x >= 0.0 && v <= w
    ensures Times(x, v) <= Times(x, w)
  {
    Product(x, w - v);
    assert x * w - x * v == x * (w - v);
  }

  lemma TimesEnds(x: real)
    ensures Times(x, 0.0) == 0.0 && Times(x, 1.0) == x
  {
  }

  function Position(n: nat, fraction: real): (p: real)
    requires n >= 1 && 0.0 <= fraction <= 1.0
    ensures 0.0 <= p <= (n - 1) as real
  {
    var last := (n - 1) as real;
    TimesEnds(last);
    TimesMonotone(last, 0.0, fraction);
    TimesMonotone(last, fraction, 1.0);
    Times(last, fraction)
  }

  lemma PositionMonotone(n: nat, f: real, g: real)
    requires n >= 1 && 0.0 <= f <= g <= 1.0
    ensures Position(n, f) <= Position(n, g)
  {
    hide Times;
    TimesMonotone((n - 1) as real, f, g);
  }

  datatype Percentile = NoSamples | Value(value: real)

  /** `percentile`; without samples it is an error. */
  function Of(values: Samples, fraction: real): Percentile
    requires 0.0 <= fraction <= 1.0
  {
    if values == [] then NoSamples else Value(At(Sorted(values), Position(|values|, fraction)))
  }

  /** The fact benchmark's version: without samples it is zero. */
  function OfFacts(values: Samples, fraction: real): real
    requires 0.0 <= fraction <= 1.0
  {
    var ordered := Sorted(values);
    if ordered == [] then 0.0
    else
      var position := Position(|ordered|, fraction);
      var lower := position.Floor;
      var upper := if lower + 1 < |ordered| - 1 then lower + 1 else |ordered| - 1;
      Mix(ordered[lower], ordered[upper], position - lower as real)
  }

  lemma VersionsAgreeExactly(values: Samples, fraction: real)
    requires 0.0 <= fraction <= 1.0
    ensures Of(values, fraction) == Value(OfFacts(values, fraction)) <==> values != []
    ensures values == [] ==> Of(values, fraction) == NoSamples && OfFacts(values, fraction) == 0.0
  {
  }

  /** A percentile lies between two samples, and so between the least and the greatest. */
  lemma BetweenSamples(values: Samples, fraction: real)
    requires 0.0 <= fraction <= 1.0 && values != []
    ensures exists low, high :: low in values && high in values && low <= Of(values, fraction).value <= high
  {
    var s := Sorted(values);
    SortedIsSorted(values);
    AtBetween(s, Position(|values|, fraction));
    var low, high := s[0], s[|s| - 1];
    assert low in multiset(s) && high in multiset(s);
    assert low in values && high in values;
  }

  lemma MixEnds(a: real, b: real)
    ensures Mix(a, b, 0.0) == a && Mix(a, b, 1.0) == b
  {
  }

  lemma AtEnds(s: Samples)
    requires s != []
    ensures At(s, 0.0) == s[0] && At(s, (|s| - 1) as real) == s[|s| - 1]
  {
    hide Mix;
    MixEnds(s[0], s[if 1 < |s| - 1 then 1 else |s| - 1]);
    MixEnds(s[|s| - 1], s[|s| - 1]);
  }

  lemma PositionEnds(n: nat)
    requires n >= 1
    ensures Position(n, 0.0) == 0.0 && Position(n, 1.0) == (n - 1) as real
  {
    hide Times;
    TimesEnds((n - 1) as real);
  }

  /** The ends of the scale are the least and the greatest sample. */
  lemma EndsAreExtremes(values: Samples, x: real)
    requires x in values
    ensures Of(values, 0.0).value <= x <= Of(values, 1.0).value
  {
    hide At, Mix, Times, Position, Sorted;
    var s := Sorted(values);
    SortedIsSorted(values);
    assert x in multiset(s);
    var i :| 0 <= i < |s| && s[i] == x;
    AtEnds(s);
    PositionEnds(|s|);
  }

  /** Only which samples there are matters, not their order. */
  lemma OrderIsIrrelevant(a: Samples, b: Samples, fraction: real)
    requires 0.0 <= fraction <= 1.0 && multiset(a) == multiset(b)
    ensures Of(a, fraction) == Of(b, fraction)
  {
    SortedIsSorted(a);
    SortedIsSorted(b);
    SortUnique(Sorted(a), Sorted(b), AtMost);
    assert |multiset(a)| == |multiset(b)|;
  }

  /** Between its ends a segment of the scale is straight. */
  lemma AtSegment(s: Samples, i: nat, w: real)
    requires i + 1 < |s| && 0.0 <= w <= 1.0
    ensures At(s, i as real + w) == Mix(s[i], s[i + 1], w)
  {
    hide Mix;
    MixEnds(s[i], s[i + 1]);
    if w < 1.0 {
      assert (i as real + w).Floor == i;
    } else {
      assert (i as real + w).Floor == i + 1;
      MixEnds(s[i + 1], s[if i + 2 < |s| - 1 then i + 2 else |s| - 1]);
    }
  }

  /** The scale is divided evenly: fraction `i` of `n - 1` is the `i`-th smallest of `n` samples, and
      a fraction `w` further on lies that far on the way to the next, whatever the sorting. */
  lemma LinearBetweenSamples(values: Samples, sorted: Samples, fraction: real, i: nat, w: real)
    requires InOrder(sorted, AtMost) && multiset(sorted) == multiset(values)
    requires i + 1 < |sorted| && 0.0 <= w <= 1.0 && 0.0 <= fraction <= 1.0
    requires (|sorted| - 1) as real * fraction == i as real + w
    ensures Of(values, fraction) == Value(sorted[i] * (1.0 - w) + sorted[i + 1] * w)
    ensures w == 0.0 ==> Of(values, fraction) == Value(sorted[i])
  {
    hide At;
    SortedIsSorted(values);
    SortUnique(sorted, Sorted(values), AtMost);
    assert |multiset(sorted)| == |multiset(values)|;
    assert Position(|values|, fraction) == i as real + w;
    AtSegment(sorted, i, w);
    MixEnds(sorted[i], sorted[i + 1]);
    hide Position;
  }

  /** One sample alone is every percentile. */
  lemma SingleSample(x: real, fraction: real)
    requires 0.0 <= fraction <= 1.0
    ensures Of([x], fraction) == Value(x)
  {
    hide Mix;
    assert Sorted([x]) == [x];
    assert Position(1, fraction) == 0.0;
    AtEnds([x]);
  }

  /** A higher fraction never gives less, across segment boundaries too. */
  lemma MonotoneInFraction(values: Samples, f: real, g: real)
    requires 0.0 <= f <= g <= 1.0 && values != []
    ensures Of(values, f).value <= Of(values, g).value
  {
    SortedIsSorted(values);
    PositionMonotone(|values|, f, g);
    AtMonotone(Sorted(values), Position(|values|, f), Position(|values|, g));
  }

  /** Slower samples never give a lower percentile. */
  lemma MonotoneInSamples(a: Samples, b: Samples, fraction: real)
    requires 0.0 <= fraction <= 1.0 && a != [] && Pointwise(a, b)
    ensures Of(a, fraction).value <= Of(b, fraction).value
  {
    SortedPointwise(a, b);
    SortedIsSorted(a);
    AtPointwise(Sorted(a), Sorted(b), Position(|a|, fraction));
  }
}
