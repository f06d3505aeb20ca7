/** `BiarcBezierComposite`: a biarc whose two arcs are refitted as cubic
    Bezier curves meeting at the biarc's joint. The biarc is solved as
    usual (and its length kept); the curve is split at the first arc's share
    of the length and each half is a Bezier between the end keypoint and the
    joint, with handles along the tangents. */
module BezierComposite {
  import opened Base
  import opened Geometry
  import opened KeypointCurve
  import opened Biarc

  /** A cubic Bezier curve by its four control points. */
  datatype Bezier = Bezier(p0: Vec, p1: Vec, p2: Vec, p3: Vec)

  /** The quadratic `a s^2 + b s + c` whose roots the handle length is
      chosen from. */
  datatype Quadratic = Quadratic(a: real, b: real, c: real) {
    function Discriminant(): real { b * b - 4.0 * a * c }
    predicate IsRoot(r: real) { a * r * r + b * r + c == 0.0 }
  }

  /** The quadratic of `SetKeyPoints`: `a = |d0 + d3|^2 - 1`,
      `b = 2 (p3 - p0).(d0 + d3)`, `c = |p3 - p0|^2`. */
  function HandleQuadratic(p0: Vec, d0: Vec, p3: Vec, d3: Vec): Quadratic {
    var dp := p3.Sub(p0);
    var dt := d3.Add(d0);
    Quadratic(dt.LengthSquared() - 1.0, dp.Dot(dt) * 2.0, dp.LengthSquared())
  }

  /** The root `s` of the handle quadratic is exactly a length for which
      the chord, moved by `s` along the summed tangents, has length `|s|`. */
  lemma {:induction false} HandleQuadraticMeaning(p0: Vec, d0: Vec, p3: Vec, d3: Vec, s: real)
    ensures HandleQuadratic(p0, d0, p3, d3).IsRoot(s)
            <==> p3.Sub(p0).Add(d3.Add(d0).Scale(s)).LengthSquared() == s * s
  {
    var dp, dt := p3.Sub(p0), d3.Add(d0);
    AddScaleLengthSquared(dp, dt, s);
    QuadraticRearranged(dp.LengthSquared(), dp.Dot(dt), dt.LengthSquared(), s);
  }

  /** `a s^2 + b s + c = 0` with the handle coefficients is
      `|dp|^2 + 2 s (dp.dt) + s^2 |dt|^2 = s^2`. */
  lemma QuadraticRearranged(pp: real, pt: real, tt: real, s: real)
    ensures (tt - 1.0) * s * s + pt * 2.0 * s + pp == 0.0 <==> pp + 2.0 * s * pt + s * s * tt == s * s
  {
    assert (tt - 1.0) * s * s + pt * 2.0 * s + pp == pp + 2.0 * s * pt + s * s * tt - s * s;
  }

  /** `SetKeyPoints` divides by `2a` only when the discriminant is
      non-negative. */
  predicate HandleDefined(q: Quadratic) {
    q.Discriminant() < 0.0 || q.a != 0.0
  }

  /** The handle length: 1 when the quadratic has no real root, otherwise
      the smaller magnitude of its two roots. */
  function HandleScale(m: Numerics, q: Quadratic): (s: real)
    requires HandleDefined(q)
    ensures s >= 0.0
    ensures q.Discriminant() < 0.0 ==> s == 1.0
  {
    var root := q.Discriminant();
    if root >= 0.0 then
      var solution1 := Abs((-q.b + m.sqrt(root)) / (2.0 * q.a));
      var solution2 := Abs((-q.b - m.sqrt(root)) / (2.0 * q.a));
      Min(solution1, solution2)
    else 1.0
  }

  /** With a real root, the handle length is the magnitude of a root, and
      no root has a smaller magnitude. */
  lemma {:induction false} HandleScaleIsSmallestRoot(m: Numerics, q: Quadratic)
    requires Valid(m)
    requires q.a != 0.0 && q.Discriminant() >= 0.0
    ensures exists r :: q.IsRoot(r) && Abs(r) == HandleScale(m, q)
    ensures forall r :: q.IsRoot(r) ==> HandleScale(m, q) <= Abs(r)
  {
    var sq := m.sqrt(q.Discriminant());
    assert sq * sq == q.Discriminant();
    SmallerRoot(q, sq);
  }

  /** The smaller magnitude of the two quadratic-formula roots is the
      magnitude of a root, and no root has a smaller one. */
  lemma {:induction false} SmallerRoot(q: Quadratic, sq: real)
    requires q.a != 0.0 && sq * sq == q.Discriminant()
    ensures var s := Min(Abs((-q.b + sq) / (2.0 * q.a)), Abs((-q.b - sq) / (2.0 * q.a)));
            && (exists r :: q.IsRoot(r) && Abs(r) == s)
            && (forall r :: q.IsRoot(r) ==> s <= Abs(r))
  {
    var r1 := (-q.b + sq) / (2.0 * q.a);
    var r2 := (-q.b - sq) / (2.0 * q.a);
    QuadraticFactors(q, sq, r1, r2);
    if Abs(r1) <= Abs(r2) {
      assert q.IsRoot(r1) && Abs(r1) == Min(Abs(r1), Abs(r2));
    } else {
      assert q.IsRoot(r2) && Abs(r2) == Min(Abs(r1), Abs(r2));
    }
  }

  /** The two roots of the quadratic formula are roots, and the only ones. */
  lemma {:induction false} QuadraticFactors(q: Quadratic, sq: real, r1: real, r2: real)
    requires q.a != 0.0 && sq * sq == q.Discriminant()
    requires r1 == (-q.b + sq) / (2.0 * q.a) && r2 == (-q.b - sq) / (2.0 * q.a)
    ensures q.IsRoot(r1) && q.IsRoot(r2)
    ensures forall r :: q.IsRoot(r) ==> r == r1 || r == r2
  {
    var a, b, c := q.a, q.b, q.c;
    assert r1 * (2.0 * a) == -b + sq;
    assert r2 * (2.0 * a) == -b - sq;
    assert (r1 + r2) * a == -b;
    assert (r1 * r2) * (4.0 * a * a) == (-b + sq) * (-b - sq);
    assert (r1 * r2) * (4.0 * a * a) == 4.0 * a * c;
    assert (r1 * r2) * a == c by {
      assert (r1 * r2 * a - c) * (4.0 * a) == 0.0;
    }
    Factored(a, b, c, r1, r2, r1);
    Factored(a, b, c, r1, r2, r2);
    forall r | q.IsRoot(r)
      ensures r == r1 || r == r2
    {
      Factored(a, b, c, r1, r2, r);
      ZeroProduct(a, (r - r1) * (r - r2));
      ZeroProduct(r - r1, r - r2);
    }
  }

  /** A product is zero only when a factor is. */
  lemma ZeroProduct(x: real, y: real)
    requires x * y == 0.0
    ensures x == 0.0 || y == 0.0
  {
  }

  /** Vieta's formulas give the factored form. */
  lemma Factored(a: real, b: real, c: real, r1: real, r2: real, r: real)
    requires (r1 + r2) * a == -b && (r1 * r2) * a == c
    ensures a * r * r + b * r + c == a * ((r - r1) * (r - r2))
  {
    assert a * ((r - r1) * (r - r2)) == a * r * r - (r1 + r2) * a * r + (r1 * r2) * a;
  }

  /** `Bezier.SetKeyPoints`: the curve runs from `p0` to `p3` and its
      handles lie along `d0` out of `p0` and along `d3` into `p3`, both of
      the same length. */
  function SetKeyPoints(m: Numerics, p0: Vec, d0: Vec, p3: Vec, d3: Vec): (z: Bezier)
    requires HandleDefined(HandleQuadratic(p0, d0, p3, d3))
    ensures z.p0 == p0 && z.p3 == p3
    ensures var s := HandleScale(m, HandleQuadratic(p0, d0, p3, d3));
            z.p1.Sub(z.p0) == d0.Scale(s) && z.p3.Sub(z.p2) == d3.Scale(s)
  {
    var s := HandleScale(m, HandleQuadratic(p0, d0, p3, d3));
    var z := Bezier(p0, p0.Add(d0.Scale(s)), p3.Sub(d3.Scale(s)), p3);
    assert z.p1.Sub(z.p0) == d0.Scale(s);
    assert z.p3.Sub(z.p2) == d3.Scale(s);
    z
  }

  /** `Bezier.GetPosition`: the Bernstein form at `t`. */
  function BezierPoint(z: Bezier, t: real): Vec {
    var s := 1.0 - t;
    z.p0.Scale(Power(s, 3)).Add(z.p1.Scale(3.0 * Power(s, 2) * t)).Add(z.p2.Scale(3.0 * s * Power(t, 2))).Add(z.p3.Scale(Power(t, 3)))
  }

  /** `x^n`: `Power(s, 3)` is the source's `s * s * s`. */
  function Power(x: real, n: nat): real
    decreases n
  {
    if n == 0 then 1.0 else x * Power(x, n - 1)
  }

  /** The curve starts at its first control point. */
  lemma BezierAtZero(z: Bezier)
    ensures BezierPoint(z, 0.0) == z.p0
  {
  }

  /** The curve ends at its last control point. */
  lemma BezierAtOne(z: Bezier)
    ensures BezierPoint(z, 1.0) == z.p3
  {
  }

  /** The geometry a composite caches: the biarc's arcs, the split point
      and its two inverses (`None` where the C# division gives an
      infinity), and the two Bezier halves. */
  datatype CompositeGeom = CompositeGeom(
    biarc: Geom,
    splitT: real,
    invSplitT: Option<real>,
    invNegSplitT: Option<real>,
    bezier1: Bezier,
    bezier2: Bezier)

  /** `1 / x`, or `None` for the infinity that `1f / 0f` gives. */
  function Inverse(x: real): (r: Option<real>)
    ensures r.Some? <==> x != 0.0
    ensures r.Some? ==> r.value * x == 1.0
  {
    if x == 0.0 then None else Some(1.0 / x)
  }

  /** The forward vector of the biarc's own rotation at a fraction of the
      curve (`base.OnGetRotation(t) * Vector.UnitZ`); quaternions are not
      part of this model, so it is supplied by the caller as a function of
      the arcs, the length and the fraction. */
  type Heading = (Geom, real, real) -> Vec

  /** The solved biarcs the composite can split: lengths non-negative and
      summing to a positive total. */
  predicate Splittable(b: Solved<Geom>) {
    && b.geom.arc1.arcLength >= 0.0 && b.geom.arc2.arcLength >= 0.0
    && b.length == b.geom.arc1.arcLength + b.geom.arc2.arcLength && b.length > 0.0
  }

  /** The split point is the first arc's share of the length. */
  function SplitPoint(b: Solved<Geom>): (splitT: real)
    requires Splittable(b)
    ensures 0.0 <= splitT <= 1.0
    ensures splitT * b.length == b.geom.arc1.arcLength
    ensures splitT == 0.0 <==> b.geom.arc1.arcLength == 0.0
    ensures splitT == 1.0 <==> b.geom.arc2.arcLength == 0.0
  {
    var splitT := b.geom.arc1.arcLength / b.length;
    assert splitT * b.length == b.geom.arc1.arcLength;
    splitT
  }

  /** Where the two halves meet: the biarc's point at the split. */
  function MidPosition(m: Numerics, b: Solved<Geom>): Vec
    requires Splittable(b)
  {
    OnGetPosition(m, b.geom, b.length, SplitPoint(b))
  }

  /** The biarc's heading at the split. */
  function MidTangent(heading: Heading, b: Solved<Geom>): Vec
    requires Splittable(b)
  {
    heading(b.geom, b.length, SplitPoint(b))
  }

  /** Both halves' handle quadratics can be solved. */
  predicate Fittable(m: Numerics, heading: Heading, b: Solved<Geom>, start: Keypoint, end: Keypoint) {
    && Splittable(b)
    && HandleDefined(HandleQuadratic(start.position, start.tangent, MidPosition(m, b), MidTangent(heading, b)))
    && HandleDefined(HandleQuadratic(MidPosition(m, b), MidTangent(heading, b), end.position, end.tangent))
  }

  /** The second half of the composite's `OnUpdateCurve`: split the solved
      biarc at the first arc's share and fit one Bezier from the start
      keypoint to the joint and one from the joint to the end keypoint. */
  function Fit(m: Numerics, heading: Heading, b: Solved<Geom>, start: Keypoint, end: Keypoint): (g: CompositeGeom)
    requires Fittable(m, heading, b, start, end)
    ensures g.biarc == b.geom && g.splitT == SplitPoint(b)
    ensures InversesCached(g)
    ensures g.bezier1.p0 == start.position && g.bezier2.p3 == end.position
    ensures g.bezier1.p3 == g.bezier2.p0 == MidPosition(m, b)
  {
    var splitT := SplitPoint(b);
    var midPos := MidPosition(m, b);
    var midTan := MidTangent(heading, b);
    CompositeGeom(b.geom, splitT, Inverse(splitT), Inverse(1.0 - splitT),
                  SetKeyPoints(m, start.position, start.tangent, midPos, midTan),
                  SetKeyPoints(m, midPos, midTan, end.position, end.tangent))
  }

  /** `OnUpdateCurve` is defined: the biarc's is, and the fit is. */
  ghost predicate CompositeSolvable(m: Numerics, twist: Twist, heading: Heading, start: Keypoint, end: Keypoint) {
    Solvable(m, start, end) && Fittable(m, heading, OnUpdateCurve(m, twist, start, end), start, end)
  }

  /** `OnUpdateCurve` of the composite: the biarc's own update, whose
      length the composite keeps, followed by the fit. */
  function CompositeUpdate(m: Numerics, twist: Twist, heading: Heading, start: Keypoint, end: Keypoint): (r: Solved<CompositeGeom>)
    requires CompositeSolvable(m, twist, heading, start, end)
    ensures var b := OnUpdateCurve(m, twist, start, end);
            && r.length == b.length
            && r.geom.biarc == b.geom
            && r.geom == Fit(m, heading, b, start, end)
  {
    var b := OnUpdateCurve(m, twist, start, end);
    Solved(Fit(m, heading, b, start, end), b.length)
  }

  /** Which half a curve fraction falls in and the parameter along that
      half. */
  datatype Local = Local(second: bool, u: real)

  /** The half and parameter `OnGetPosition` evaluates: the first half
      before the split, rescaled by `1 / splitT`, and the second from the
      split on, rescaled by `1 / (1 - splitT)`. `None` where the C# code
      would multiply by an infinite inverse. */
  function LocalParameter(g: CompositeGeom, t: real): (l: Option<Local>)
    ensures t < g.splitT ==> (l.Some? <==> g.invSplitT.Some?)
    ensures t >= g.splitT ==> (l.Some? <==> g.invNegSplitT.Some?)
    ensures l.Some? ==> (l.value.second <==> t >= g.splitT)
  {
    if t < g.splitT then
      if g.invSplitT.None? then None else Some(Local(false, Rescale(t, 0.0, g.invSplitT.value)))
    else
      if g.invNegSplitT.None? then None else Some(Local(true, Rescale(t, g.splitT, g.invNegSplitT.value)))
  }

  /** The parameter along a half: the distance from the half's start
      fraction `origin`, times the cached inverse of the half's share. */
  function Rescale(t: real, origin: real, inverse: real): real {
    (t - origin) * inverse
  }

  /** `OnGetPosition` of the composite: the chosen half at its
      parameter. */
  function CompositePosition(g: CompositeGeom, t: real): (p: Option<Vec>)
    ensures p.Some? <==> LocalParameter(g, t).Some?
  {
    match LocalParameter(g, t)
    case None => None
    case Some(l) => Some(BezierPoint(if l.second then g.bezier2 else g.bezier1, l.u))
  }

  /** The split-point inverses are the ones `OnUpdateCurve` caches:
      `1 / splitT` and `1 / (1 - splitT)`, each missing exactly when its
      divisor is zero. */
  predicate InversesCached(g: CompositeGeom) {
    && (g.invSplitT.Some? <==> g.splitT != 0.0)
    && (g.invSplitT.Some? ==> g.invSplitT.value * g.splitT == 1.0)
    && (g.invNegSplitT.Some? <==> g.splitT != 1.0)
    && (g.invNegSplitT.Some? ==> g.invNegSplitT.value * (1.0 - g.splitT) == 1.0)
  }

  /** A fraction whose half and parameter are known is that half's point
      at that parameter. */
  lemma PositionFromLocal(g: CompositeGeom, t: real, second: bool, u: real)
    requires LocalParameter(g, t) == Some(Local(second, u))
    ensures CompositePosition(g, t) == Some(BezierPoint(if second then g.bezier2 else g.bezier1, u))
  {
  }

  /** Fraction 0 is the first half at parameter 0 when the split is past
      0; fraction 1 and the split itself are the second half at 1 and at 0
      when the split is before 1. */
  lemma LocalAtZero(g: CompositeGeom)
    requires g.invSplitT.Some? && g.splitT > 0.0
    ensures LocalParameter(g, 0.0) == Some(Local(false, 0.0))
  {
    FirstHalfLocal(g, 0.0);
    RescaleAtOrigin(0.0, g.invSplitT.value);
  }

  lemma LocalAtOne(g: CompositeGeom)
    requires g.invNegSplitT.Some? && g.splitT < 1.0
    requires g.invNegSplitT.value * (1.0 - g.splitT) == 1.0
    ensures LocalParameter(g, 1.0) == Some(Local(true, 1.0))
  {
    SecondHalfLocal(g, 1.0);
    RescaleAtEnd(g.splitT, g.invNegSplitT.value);
  }

  lemma LocalAtSplit(g: CompositeGeom)
    requires g.invNegSplitT.Some?
    ensures LocalParameter(g, g.splitT) == Some(Local(true, 0.0))
  {
    SecondHalfLocal(g, g.splitT);
    RescaleAtOrigin(g.splitT, g.invNegSplitT.value);
  }

  lemma FirstHalfLocal(g: CompositeGeom, t: real)
    requires t < g.splitT && g.invSplitT.Some?
    ensures LocalParameter(g, t) == Some(Local(false, Rescale(t, 0.0, g.invSplitT.value)))
  {
  }

  lemma SecondHalfLocal(g: CompositeGeom, t: real)
    requires t >= g.splitT && g.invNegSplitT.Some?
    ensures LocalParameter(g, t) == Some(Local(true, Rescale(t, g.splitT, g.invNegSplitT.value)))
  {
  }

  /** A half's parameter is 0 at the half's start and 1 at the end of a
      share whose inverse is cached. */
  lemma RescaleAtOrigin(origin: real, inverse: real)
    ensures Rescale(origin, origin, inverse) == 0.0
  {
  }

  lemma RescaleAtEnd(origin: real, inverse: real)
    requires inverse * (1.0 - origin) == 1.0
    ensures Rescale(1.0, origin, inverse) == 1.0
  {
  }

  /** Fraction 0 is the first half's start when the split is past 0. */
  lemma PositionAtZero(g: CompositeGeom)
    requires InversesCached(g) && g.splitT > 0.0
    ensures CompositePosition(g, 0.0) == Some(g.bezier1.p0)
  {
    LocalAtZero(g);
    PositionFromLocal(g, 0.0, false, 0.0);
    BezierAtZero(g.bezier1);
  }

  /** Fraction 1 is the second half's end when the split is before 1. */
  lemma PositionAtOne(g: CompositeGeom)
    requires InversesCached(g) && g.splitT < 1.0
    ensures CompositePosition(g, 1.0) == Some(g.bezier2.p3)
  {
    LocalAtOne(g);
    PositionFromLocal(g, 1.0, true, 1.0);
    BezierAtOne(g.bezier2);
  }

  /** The split is the second half's start when the split is before 1. */
  lemma PositionAtSplit(g: CompositeGeom)
    requires InversesCached(g) && g.splitT < 1.0
    ensures CompositePosition(g, g.splitT) == Some(g.bezier2.p0)
  {
    LocalAtSplit(g);
    PositionFromLocal(g, g.splitT, true, 0.0);
    BezierAtZero(g.bezier2);
  }

  /** Approaching the split from below, the first half's parameter tends to
      1, where the first half ends. */
  lemma FirstHalfAtSplit(g: CompositeGeom)
    requires InversesCached(g) && g.splitT > 0.0
    ensures g.invSplitT.Some? && g.splitT * g.invSplitT.value == 1.0
    ensures BezierPoint(g.bezier1, 1.0) == g.bezier1.p3
  {
    BezierAtOne(g.bezier1);
  }

  /** The composite starts at the start keypoint when the first arc has a
      share of the curve. */
  lemma CompositeAtStart(m: Numerics, heading: Heading, b: Solved<Geom>, start: Keypoint, end: Keypoint)
    requires Fittable(m, heading, b, start, end)
    requires b.geom.arc1.arcLength > 0.0
    ensures CompositePosition(Fit(m, heading, b, start, end), 0.0) == Some(start.position)
  {
    PositionAtZero(Fit(m, heading, b, start, end));
  }

  /** The composite ends at the end keypoint when the second arc has a
      share of the curve. */
  lemma CompositeAtEnd(m: Numerics, heading: Heading, b: Solved<Geom>, start: Keypoint, end: Keypoint)
    requires Fittable(m, heading, b, start, end)
    requires b.geom.arc2.arcLength > 0.0
    ensures CompositePosition(Fit(m, heading, b, start, end), 1.0) == Some(end.position)
  {
    PositionAtOne(Fit(m, heading, b, start, end));
  }

  /** At the split the composite is at the joint: the second half starts
      there. */
  lemma CompositeAtSplit(m: Numerics, heading: Heading, b: Solved<Geom>, start: Keypoint, end: Keypoint)
    requires Fittable(m, heading, b, start, end)
    requires b.geom.arc2.arcLength > 0.0
    ensures var g := Fit(m, heading, b, start, end);
            CompositePosition(g, g.splitT) == Some(MidPosition(m, b))
  {
    PositionAtSplit(Fit(m, heading, b, start, end));
  }

  /** Approaching the split from below the composite reaches the joint too:
      the first half, followed up to the split, ends there. */
  lemma FirstHalfEndsAtSplit(m: Numerics, heading: Heading, b: Solved<Geom>, start: Keypoint, end: Keypoint)
    requires Fittable(m, heading, b, start, end)
    requires b.geom.arc1.arcLength > 0.0
    ensures var g := Fit(m, heading, b, start, end);
            && g.invSplitT.Some? && g.splitT * g.invSplitT.value == 1.0
            && BezierPoint(g.bezier1, 1.0) == MidPosition(m, b)
  {
    FirstHalfAtSplit(Fit(m, heading, b, start, end));
  }

  /** The step of the finite difference `OnGetRotation` takes. */
  const RotationDelta: real := 1.0 / 128.0

  /** The two fractions `OnGetRotation` samples positions at: one step
      either side of `t`, clamped to the curve. */
  function RotationSamples(t: real): (r: (real, real))
    ensures r.0 >= 0.0 && r.1 <= 1.0
    ensures 0.0 <= t <= 1.0 ==> 0.0 <= r.0 <= t <= r.1 <= 1.0
    ensures RotationDelta <= t <= 1.0 - RotationDelta ==> r.1 - r.0 == 2.0 * RotationDelta
  {
    (Max(0.0, t - RotationDelta), Min(1.0, t + RotationDelta))
  }
}
