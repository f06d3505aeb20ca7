/** The adaptive sample sequence of a biarc (`OnGetDeltas` and its helper
    `GetDeltas`): curve fractions in [0, 1] at which the track mesh is
    built. Each arc gets samples spaced by arc length; a curved arc's
    spacing is chosen from the angle step and clamped to the allowed
    distance range, a straight piece uses the maximum distance. */
module BiarcSampling {
  import opened Base
  import opened Geometry
  import opened Biarc

  /** The caller's sampling parameters are usable. */
  predicate ValidParams(deltaAngle: real, minDist: real, maxDist: real) {
    0.0 < deltaAngle && 0.0 < minDist <= maxDist
  }

  /** `MathF.FloorToInt(x + 1)` for `x >= 0`: at least one. */
  function StepCount(x: real): (n: int)
    requires x >= 0.0
    ensures n >= 1
    ensures (n - 1) as real <= x < n as real
  {
    (x + 1.0).Floor
  }

  /** The arc-length spacing of an arc's samples. A curved arc is split
      into one more than `angle / deltaAngle` pieces (rounded down) and the
      piece length is clamped to [minDist, maxDist]; a straight piece uses
      `maxDist`. */
  function SampleSpacing(a: Arc, deltaAngle: real, minDist: real, maxDist: real): (dist: real)
    requires ValidParams(deltaAngle, minDist, maxDist)
    requires WellFormed(a)
    ensures 0.0 < dist <= maxDist
    ensures a.radius > 0.0 ==> minDist <= dist
    ensures a.radius <= 0.0 ==> dist == maxDist
  {
    if a.radius <= 0.0 then maxDist
    else
      var angle := a.arcLength / a.radius;
      QuotientNonNegative(a.arcLength, a.radius);
      QuotientNonNegative(angle, deltaAngle);
      var count := StepCount(angle / deltaAngle);
      Clamp(a.arcLength / count as real, minDist, maxDist)
  }

  lemma QuotientNonNegative(a: real, b: real)
    requires a >= 0.0 && b > 0.0
    ensures a / b >= 0.0
  {
  }

  /** The number of samples an arc gets: `FloorToInt(arcLength / dist + 1)`,
      the fewest equal steps none of which is `dist` or longer. */
  function SampleCount(a: Arc, dist: real): (count: int)
    requires a.arcLength >= 0.0 && dist > 0.0
    ensures count >= 1
    ensures a.arcLength / count as real < dist
    ensures (count - 1) as real * dist <= a.arcLength
  {
    QuotientNonNegative(a.arcLength, dist);
    var n := StepCount(a.arcLength / dist);
    StepBounds(a.arcLength, dist, n);
    n
  }

  /** From `n - 1 <= l / d < n` to `l / n < d` and `(n - 1) d <= l`. */
  lemma StepBounds(l: real, d: real, n: int)
    requires l >= 0.0 && d > 0.0 && n >= 1
    requires (n - 1) as real <= l / d < n as real
    ensures l / n as real < d
    ensures (n - 1) as real * d <= l
  {
    var q := l / d;
    var nr := n as real;
    assert l == q * d;
    MultiplyMonotone(nr, q, d);
    assert l < nr * d;
    MultiplyMonotone(q, (n - 1) as real, d);
    assert l / nr * nr == l;
    if l / nr >= d {
      MultiplyMonotone(l / nr, d, nr);
      assert false;
    }
  }

  lemma MultiplyMonotone(a: real, b: real, c: real)
    requires a >= b && c > 0.0
    ensures a * c >= b * c
    ensures a > b ==> a * c > b * c
  {
    ProductNonNegative(a - b, c);
    if a > b {
      ProductPositive(a - b, c);
    }
  }

  /** `GetDeltas`: the samples of one arc, `offset + i * scale / count` for
      `i < count`, followed by `offset + scale` for the second arc. An arc
      with no share of the curve emits nothing, or just `offset` when it is
      the second arc. */
  function ArcDeltas(first: bool, a: Arc, deltaAngle: real, minDist: real, maxDist: real, offset: real, scale: real): (r: seq<real>)
    requires ValidParams(deltaAngle, minDist, maxDist)
    requires WellFormed(a)
    ensures StrictlyAscending(r)
    ensures scale <= 0.0 ==> |r| == (if first then 0 else 1)
    ensures scale > 0.0 ==> |r| == SampleCount(a, SampleSpacing(a, deltaAngle, minDist, maxDist)) + (if first then 0 else 1)
    ensures |r| > 0 ==> r[0] == offset
    ensures first && scale > 0.0 ==> forall i :: 0 <= i < |r| ==> offset <= r[i] < offset + scale
    ensures !first ==> forall i :: 0 <= i < |r| ==> offset <= r[i] <= offset + Max(scale, 0.0)
    ensures !first ==> |r| > 0 && r[|r| - 1] == offset + Max(scale, 0.0)
  {
    if scale <= 0.0 then
      if first then [] else [offset]
    else
      var dist := SampleSpacing(a, deltaAngle, minDist, maxDist);
      var count := SampleCount(a, dist);
      var body := Samples(offset, scale, count, count);
      SamplesValues(offset, scale, count, count);
      EvenSamples(offset, scale, count, body);
      if first then body
      else
        var r := body + [offset + scale];
        assert forall i :: 0 <= i < |body| ==> r[i] == body[i];
        r
  }

  /** The `i`-th of `count` equal steps through `scale` from `offset`. */
  function Sample(offset: real, scale: real, count: int, i: int): real
    requires count >= 1
  {
    offset + scale / count as real * i as real
  }

  /** The first `n` of the samples `Sample(offset, scale, count, i)`. */
  function Samples(offset: real, scale: real, count: int, n: nat): (r: seq<real>)
    requires count >= 1
    ensures |r| == n
  {
    if n == 0 then [] else Samples(offset, scale, count, n - 1) + [Sample(offset, scale, count, n - 1)]
  }

  lemma {:induction false} SamplesValues(offset: real, scale: real, count: int, n: nat)
    requires count >= 1
    ensures EvenSteps(Samples(offset, scale, count, n), offset, scale, count)
  {
    if n > 0 {
      SamplesValues(offset, scale, count, n - 1);
      var p := Samples(offset, scale, count, n - 1);
      var r := Samples(offset, scale, count, n);
      assert forall i :: 0 <= i < n - 1 ==> r[i] == p[i];
    }
  }

  /** The samples are `offset`, then `scale / count` further each time. */
  predicate EvenSteps(r: seq<real>, offset: real, scale: real, count: int)
    requires count >= 1
  {
    forall i :: 0 <= i < |r| ==> r[i] == Sample(offset, scale, count, i)
  }

  lemma StepOn(r: seq<real>, offset: real, scale: real, count: int)
    requires count >= 1 && |r| == count && EvenSteps(r, offset, scale, count)
    requires Sample(offset, scale, count, count) == offset + scale
    ensures EvenSteps(r + [offset + scale], offset, scale, count)
  {
    var u := r + [offset + scale];
    forall i | 0 <= i < |u| ensures u[i] == Sample(offset, scale, count, i) {
      if i < |r| { assert u[i] == r[i]; }
    }
  }

  /** `count` steps of `scale / count` make up `scale`. */
  lemma WholeSteps(offset: real, scale: real, count: int)
    requires count >= 1
    ensures Sample(offset, scale, count, count) == offset + scale
  {
    assert scale / count as real * count as real == scale;
  }

  /** Consecutive samples are one step, `scale / count`, apart. */
  lemma NextStep(offset: real, scale: real, count: int, i: int)
    requires count >= 1
    ensures Sample(offset, scale, count, i + 1) - Sample(offset, scale, count, i) == scale / count as real
  {
    var d := scale / count as real;
    assert d * (i + 1) as real == d * i as real + d;
  }

  /** When `scale` of `length` is `l`, each of `count` equal parts of
      `scale` is `l / count` of `length`. */
  lemma ScaledPart(scale: real, length: real, l: real, count: int)
    requires count >= 1 && scale * length == l
    ensures scale / count as real * length == l / count as real
  {
    var c := count as real;
    var d := scale / c;
    assert d * c == scale;
    assert (d * length) * c == l;
  }

  /** A gap of one step, when a step is a part of the length below `dist`,
      is below `dist`. */
  lemma GapBelow(x: real, y: real, step: real, length: real, part: real, dist: real)
    requires y - x == step && step * length == part && part < dist
    ensures (y - x) * length < dist
  {
  }

  /** Two consecutive even samples through `scale`, where `scale` of
      `length` is `l` and `l / count` is below `dist`, are less than
      `dist` apart along `length`. */
  lemma StepGap(r: seq<real>, offset: real, scale: real, count: int, length: real, l: real, dist: real, i: int)
    requires count >= 1 && EvenSteps(r, offset, scale, count) && 0 <= i < |r| - 1
    requires scale * length == l && l / count as real < dist
    ensures (r[i + 1] - r[i]) * length < dist
  {
    ScaledPart(scale, length, l, count);
    NextStep(offset, scale, count, i);
    GapBelow(r[i], r[i + 1], scale / count as real, length, l / count as real, dist);
  }

  /** Consecutive samples of `r` lie less than `dist` apart along a
      curve of length `length`. */
  predicate GapsBelow(r: seq<real>, length: real, dist: real) {
    forall i :: 0 <= i < |r| - 1 ==> (r[i + 1] - r[i]) * length < dist
  }

  /** Every two consecutive even samples are less than `dist` apart. */
  lemma EvenGaps(r: seq<real>, offset: real, scale: real, count: int, length: real, l: real, dist: real)
    requires count >= 1 && EvenSteps(r, offset, scale, count)
    requires scale * length == l && l / count as real < dist
    ensures GapsBelow(r, length, dist)
  {
    forall i | 0 <= i < |r| - 1
      ensures (r[i + 1] - r[i]) * length < dist
    {
      StepGap(r, offset, scale, count, length, l, dist, i);
    }
  }

  /** The last of `count` even samples is one step short of
      `offset + scale`. */
  lemma LastGap(r: seq<real>, offset: real, scale: real, count: int, length: real, l: real, dist: real)
    requires count >= 1 && |r| == count && EvenSteps(r, offset, scale, count)
    requires scale * length == l && l / count as real < dist
    ensures (offset + scale - r[|r| - 1]) * length < dist
  {
    ScaledPart(scale, length, l, count);
    WholeSteps(offset, scale, count);
    NextStep(offset, scale, count, count - 1);
    GapBelow(r[|r| - 1], offset + scale, scale / count as real, length, l / count as real, dist);
  }

  /** With a positive share, the arc's samples are `count` equal steps of
      `scale / count` from `offset` (for the second arc, one more, which
      lands on `offset + scale`), `count` being the arc's sample count. */
  lemma ArcDeltasValues(first: bool, a: Arc, deltaAngle: real, minDist: real, maxDist: real, offset: real, scale: real)
    requires ValidParams(deltaAngle, minDist, maxDist) && WellFormed(a) && scale > 0.0
    ensures EvenSteps(ArcDeltas(first, a, deltaAngle, minDist, maxDist, offset, scale), offset, scale,
                      SampleCount(a, SampleSpacing(a, deltaAngle, minDist, maxDist)))
  {
    var count := SampleCount(a, SampleSpacing(a, deltaAngle, minDist, maxDist));
    var body := Samples(offset, scale, count, count);
    SamplesValues(offset, scale, count, count);
    if !first {
      WholeSteps(offset, scale, count);
      StepOn(body, offset, scale, count);
    }
  }

  /** The samples of one arc in order. */
  predicate StrictlyAscending(r: seq<real>) {
    forall i, j :: 0 <= i < j < |r| ==> r[i] < r[j]
  }

  /** `count` equal steps of `scale / count` starting at `offset` are
      strictly ascending and stay in [offset, offset + scale). */
  lemma EvenSamples(offset: real, scale: real, count: int, body: seq<real>)
    requires scale > 0.0 && count >= 1
    requires |body| == count
    requires EvenSteps(body, offset, scale, count)
    ensures StrictlyAscending(body)
    ensures body[0] == offset
    ensures forall i :: 0 <= i < count ==> offset <= body[i] < offset + scale
  {
    var delta := scale / count as real;
    assert delta > 0.0;
    assert delta * count as real == scale;
    forall i, j | 0 <= i < j < count
      ensures body[i] < body[j]
    {
      StepsBelow(delta, i, j);
    }
    forall i | 0 <= i < count
      ensures offset <= body[i] < offset + scale
    {
      ProductNonNegative(delta, i as real);
      StepsBelow(delta, i, count);
    }
  }

  /** Fewer positive steps cover less. */
  lemma StepsBelow(delta: real, i: int, j: int)
    requires delta > 0.0 && 0 <= i < j
    ensures delta * i as real < delta * j as real
  {
    assert delta * j as real - delta * i as real == delta * (j - i) as real;
    ProductPositive(delta, (j - i) as real);
  }

  /** Where the second arc's samples begin: the first arc's share of the
      total arc length. */
  function SplitFraction(g: Geom): (mid: real)
    requires g.arc1.arcLength >= 0.0 && g.arc2.arcLength >= 0.0
    requires g.arc1.arcLength + g.arc2.arcLength > 0.0
    ensures 0.0 <= mid <= 1.0
    ensures mid == 0.0 <==> g.arc1.arcLength == 0.0
    ensures mid == 1.0 <==> g.arc2.arcLength == 0.0
    ensures mid * (g.arc1.arcLength + g.arc2.arcLength) == g.arc1.arcLength
  {
    var l1, l2 := g.arc1.arcLength, g.arc2.arcLength;
    var mid := l1 / (l1 + l2);
    assert mid * (l1 + l2) == l1;
    mid
  }

  /** The arcs the sampler works on. */
  predicate Sampleable(g: Geom) {
    WellFormed(g.arc1) && WellFormed(g.arc2) && g.arc1.arcLength + g.arc2.arcLength > 0.0
  }

  /** `OnGetDeltas`: the first arc's samples from 0 up to the split, then
      the second arc's from the split up to and including 1. */
  function OnGetDeltas(g: Geom, deltaAngle: real, minDist: real, maxDist: real): (r: seq<real>)
    requires ValidParams(deltaAngle, minDist, maxDist)
    requires Sampleable(g)
    ensures |r| >= 1
    ensures StrictlyAscending(r)
    ensures r[0] == 0.0 && r[|r| - 1] == 1.0
    ensures forall i :: 0 <= i < |r| ==> 0.0 <= r[i] <= 1.0
  {
    var mid := SplitFraction(g);
    var d1 := ArcDeltas(true, g.arc1, deltaAngle, minDist, maxDist, 0.0, mid);
    var d2 := ArcDeltas(false, g.arc2, deltaAngle, minDist, maxDist, mid, 1.0 - mid);
    AscendingConcat(d1, d2, mid);
    d1 + d2
  }

  /** Two ascending runs separated by `mid` concatenate to an ascending
      run. */
  lemma AscendingConcat(a: seq<real>, b: seq<real>, mid: real)
    requires StrictlyAscending(a) && StrictlyAscending(b)
    requires forall i :: 0 <= i < |a| ==> a[i] < mid
    requires forall j :: 0 <= j < |b| ==> mid <= b[j]
    ensures StrictlyAscending(a + b)
  {
    var r := a + b;
    forall i, j | 0 <= i < j < |r|
      ensures r[i] < r[j]
    {
      if j < |a| {
        assert r[i] == a[i] && r[j] == a[j];
      } else if i >= |a| {
        assert r[i] == b[i - |a|] && r[j] == b[j - |a|];
      } else {
        assert r[i] == a[i] && r[j] == b[j - |a|];
      }
    }
  }

  /** The first arc's samples lie in [0, mid) and the second's in
      [mid, 1]; an arc with a positive share of the length gets at least
      one sample of its own. */
  lemma DeltasSplitAtMid(g: Geom, deltaAngle: real, minDist: real, maxDist: real)
    requires ValidParams(deltaAngle, minDist, maxDist)
    requires Sampleable(g)
    ensures var mid := SplitFraction(g);
            var d1 := ArcDeltas(true, g.arc1, deltaAngle, minDist, maxDist, 0.0, mid);
            var d2 := ArcDeltas(false, g.arc2, deltaAngle, minDist, maxDist, mid, 1.0 - mid);
            && OnGetDeltas(g, deltaAngle, minDist, maxDist) == d1 + d2
            && (forall i :: 0 <= i < |d1| ==> 0.0 <= d1[i] < mid)
            && (forall j :: 0 <= j < |d2| ==> mid <= d2[j] <= 1.0)
            && (g.arc1.arcLength > 0.0 ==> |d1| >= 1)
            && (g.arc2.arcLength > 0.0 ==> |d2| >= 2)
  {
  }

  /** One arc's samples, when its share `scale` of the curve is its arc
      length over the total `length`: consecutive samples are less than
      the arc's spacing apart along the curve. */
  lemma RunGaps(first: bool, a: Arc, deltaAngle: real, minDist: real, maxDist: real,
                offset: real, scale: real, length: real)
    requires ValidParams(deltaAngle, minDist, maxDist) && WellFormed(a)
    requires length > 0.0 && scale * length == a.arcLength
    ensures GapsBelow(ArcDeltas(first, a, deltaAngle, minDist, maxDist, offset, scale), length,
                      SampleSpacing(a, deltaAngle, minDist, maxDist))
  {
    var r := ArcDeltas(first, a, deltaAngle, minDist, maxDist, offset, scale);
    if scale > 0.0 {
      var dist := SampleSpacing(a, deltaAngle, minDist, maxDist);
      ArcDeltasValues(first, a, deltaAngle, minDist, maxDist, offset, scale);
      EvenGaps(r, offset, scale, SampleCount(a, dist), length, a.arcLength, dist);
    }
  }

  /** The first arc's samples, when its share `scale` of the curve is its
      arc length over the total `length`, form a lead run up to `scale`. */
  lemma LeadArcRun(a: Arc, deltaAngle: real, minDist: real, maxDist: real, scale: real, length: real)
    requires ValidParams(deltaAngle, minDist, maxDist) && WellFormed(a)
    requires length > 0.0 && scale * length == a.arcLength
    ensures LeadRun(ArcDeltas(true, a, deltaAngle, minDist, maxDist, 0.0, scale), scale, length,
                    SampleSpacing(a, deltaAngle, minDist, maxDist), maxDist)
  {
    var r := ArcDeltas(true, a, deltaAngle, minDist, maxDist, 0.0, scale);
    var dist := SampleSpacing(a, deltaAngle, minDist, maxDist);
    if scale > 0.0 {
      ArcDeltasValues(true, a, deltaAngle, minDist, maxDist, 0.0, scale);
      LastGap(r, 0.0, scale, SampleCount(a, dist), length, a.arcLength, dist);
      EvenGaps(r, 0.0, scale, SampleCount(a, dist), length, a.arcLength, dist);
    }
  }

  /** The first arc's run: its gaps are below `dist`, as is the step from
      its last sample to the split `mid`, and every sample lies before the
      split. */
  predicate LeadRun(d: seq<real>, mid: real, length: real, dist: real, maxDist: real) {
    && dist <= maxDist
    && GapsBelow(d, length, dist)
    && (|d| > 0 ==> (mid - d[|d| - 1]) * length < dist)
    && (forall i :: 0 <= i < |d| ==> d[i] < mid)
  }

  /** The second arc's run: it starts at the split `mid`, ascends, and its
      gaps are below `dist`. */
  predicate TailRun(d: seq<real>, mid: real, length: real, dist: real, maxDist: real) {
    && dist <= maxDist
    && GapsBelow(d, length, dist)
    && |d| > 0 && d[0] == mid
    && StrictlyAscending(d)
  }

  /** A lead run up to `mid` followed by a tail run from `mid`: every gap
      of the whole is below the distance of its side, and so below
      `maxDist`. */
  lemma ConcatGaps(r: seq<real>, d1: seq<real>, d2: seq<real>, mid: real, length: real, dist1: real, dist2: real, maxDist: real)
    requires r == d1 + d2
    requires LeadRun(d1, mid, length, dist1, maxDist) && TailRun(d2, mid, length, dist2, maxDist)
    ensures SplitGaps(r, mid, length, dist1, dist2, maxDist)
  {
    forall i | 0 <= i < |r| - 1
      ensures (r[i + 1] - r[i]) * length < maxDist
      ensures r[i + 1] <= mid ==> (r[i + 1] - r[i]) * length < dist1
      ensures mid <= r[i] ==> (r[i + 1] - r[i]) * length < dist2
    {
      if i + 1 < |d1| {
        assert r[i] == d1[i] && r[i + 1] == d1[i + 1];
      } else if i + 1 == |d1| {
        assert r[i] == d1[|d1| - 1] && r[i + 1] == d2[0];
      } else {
        var j := i - |d1|;
        assert r[i] == d2[j] && r[i + 1] == d2[j + 1];
        assert d2[0] <= d2[j] < d2[j + 1];
      }
    }
  }

  /** Consecutive samples of `r` lie less than `maxDist` apart along a
      curve of length `length`; a gap ending at or before `mid` is below
      `dist1`, and one starting at or after `mid` below `dist2`. */
  predicate SplitGaps(r: seq<real>, mid: real, length: real, dist1: real, dist2: real, maxDist: real) {
    forall i :: 0 <= i < |r| - 1 ==>
      && (r[i + 1] - r[i]) * length < maxDist
      && (r[i + 1] <= mid ==> (r[i + 1] - r[i]) * length < dist1)
      && (mid <= r[i] ==> (r[i + 1] - r[i]) * length < dist2)
  }

  /** The samples are the first arc's run followed by the second's. */
  lemma DeltasConcat(g: Geom, deltaAngle: real, minDist: real, maxDist: real)
    requires ValidParams(deltaAngle, minDist, maxDist)
    requires Sampleable(g)
    ensures OnGetDeltas(g, deltaAngle, minDist, maxDist)
            == ArcDeltas(true, g.arc1, deltaAngle, minDist, maxDist, 0.0, SplitFraction(g))
               + ArcDeltas(false, g.arc2, deltaAngle, minDist, maxDist, SplitFraction(g), 1.0 - SplitFraction(g))
  {
  }

  /** The first arc's samples form a lead run up to the split. */
  lemma LeadRunGaps(g: Geom, deltaAngle: real, minDist: real, maxDist: real)
    requires ValidParams(deltaAngle, minDist, maxDist)
    requires Sampleable(g)
    ensures LeadRun(ArcDeltas(true, g.arc1, deltaAngle, minDist, maxDist, 0.0, SplitFraction(g)), SplitFraction(g),
                    g.arc1.arcLength + g.arc2.arcLength, SampleSpacing(g.arc1, deltaAngle, minDist, maxDist), maxDist)
  {
    var mid := SplitFraction(g);
    var length := g.arc1.arcLength + g.arc2.arcLength;
    assert length > 0.0 && mid * length == g.arc1.arcLength;
    LeadArcRun(g.arc1, deltaAngle, minDist, maxDist, mid, length);
  }

  /** The second arc's samples form a tail run from the split. */
  lemma TailRunGaps(g: Geom, deltaAngle: real, minDist: real, maxDist: real)
    requires ValidParams(deltaAngle, minDist, maxDist)
    requires Sampleable(g)
    ensures TailRun(ArcDeltas(false, g.arc2, deltaAngle, minDist, maxDist, SplitFraction(g), 1.0 - SplitFraction(g)),
                    SplitFraction(g), g.arc1.arcLength + g.arc2.arcLength,
                    SampleSpacing(g.arc2, deltaAngle, minDist, maxDist), maxDist)
  {
    var mid := SplitFraction(g);
    var length := g.arc1.arcLength + g.arc2.arcLength;
    RestShare(g.arc1.arcLength, g.arc2.arcLength, mid);
    assert length > 0.0 && (1.0 - mid) * length == g.arc2.arcLength;
    RunGaps(false, g.arc2, deltaAngle, minDist, maxDist, mid, 1.0 - mid, length);
  }

  /** When `mid` is the first of two lengths' share of their sum, the
      rest is the second's share. */
  lemma RestShare(l1: real, l2: real, mid: real)
    requires mid * (l1 + l2) == l1
    ensures (1.0 - mid) * (l1 + l2) == l2
  {
  }

  /** Consecutive samples of `OnGetDeltas` are less than `maxDist` apart
      along the curve: a gap up to the split is below the first arc's
      spacing, one from the split on below the second arc's. */
  lemma DeltasSpacing(g: Geom, deltaAngle: real, minDist: real, maxDist: real)
    requires ValidParams(deltaAngle, minDist, maxDist)
    requires Sampleable(g)
    ensures SplitGaps(OnGetDeltas(g, deltaAngle, minDist, maxDist), SplitFraction(g),
                      g.arc1.arcLength + g.arc2.arcLength,
                      SampleSpacing(g.arc1, deltaAngle, minDist, maxDist),
                      SampleSpacing(g.arc2, deltaAngle, minDist, maxDist), maxDist)
  {
    LeadRunGaps(g, deltaAngle, minDist, maxDist);
    TailRunGaps(g, deltaAngle, minDist, maxDist);
    DeltasConcat(g, deltaAngle, minDist, maxDist);
    ConcatGaps(OnGetDeltas(g, deltaAngle, minDist, maxDist),
               ArcDeltas(true, g.arc1, deltaAngle, minDist, maxDist, 0.0, SplitFraction(g)),
               ArcDeltas(false, g.arc2, deltaAngle, minDist, maxDist, SplitFraction(g), 1.0 - SplitFraction(g)),
               SplitFraction(g), g.arc1.arcLength + g.arc2.arcLength,
               SampleSpacing(g.arc1, deltaAngle, minDist, maxDist),
               SampleSpacing(g.arc2, deltaAngle, minDist, maxDist), maxDist);
  }
}
