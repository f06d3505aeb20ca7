/** The biarc solver: two circular arcs joined at one interior point that
    leave the start keypoint along its tangent and reach the end keypoint
    along its tangent (`FindParameters`, `ComputeArcs`, `OnUpdateCurve`),
    and the length-parametrised position on the result (`OnGetPosition`). */
module Biarc {
  import opened Base
  import opened Geometry
  import opened KeypointCurve

  /** One arc. `axis1` runs from the centre to the arc's outer endpoint and
      `axis2` along the tangent there, both scaled by the radius, so the
      point at local angle a is `center + axis1 cos a + axis2 sin a`. A zero
      radius marks a straight piece. The start and delta rotations of the
      C# struct are quaternions and are not modelled. */
  datatype Arc = Arc(
    center: Vec,
    radius: real,
    axis1: Vec,
    axis2: Vec,
    axis3: Vec,
    angle: real,
    arcLength: real,
    rollDelta: real)

  /** The two solved arcs; the cache keeps their total length beside them. */
  datatype Geom = Geom(arc1: Arc, arc2: Arc)

  /** The circle part that `ComputeArcs` fills in. */
  datatype Shape = Shape(center: Vec, radius: real, angle: real)

  /** The in-plane direction perpendicular to `tangent`, towards
      `pointToMid`: `tangent x (pointToMid x tangent)`. */
  function Perp(tangent: Vec, pointToMid: Vec): Vec {
    tangent.Cross(pointToMid.Cross(tangent))
  }

  /** `ComputeArcs` takes its curved branch. */
  predicate Curved(tangent: Vec, pointToMid: Vec) {
    Abs(2.0 * Perp(tangent, pointToMid).Dot(pointToMid)) >= Epsilon
  }

  /** `ComputeArcs`: the circle through `point`, tangent to `tangent` there,
      that also passes through `point + pointToMid`, and the angle swept
      between the two. A near-zero denominator gives a straight piece
      centred half way to the midpoint. */
  function ComputeArcs(m: Numerics, point: Vec, tangent: Vec, pointToMid: Vec): (s: Shape)
    requires Valid(m)
    ensures s.radius >= 0.0
    ensures 0.0 <= s.angle <= Pi
    ensures s.radius < Epsilon ==> s.angle == 0.0
    ensures s.radius == 0.0 <==> !Curved(tangent, pointToMid)
    ensures s.radius == 0.0 ==> s.center == point.Add(pointToMid.Scale(0.5))
    ensures Curved(tangent, pointToMid) ==>
              && s.center.Sub(point).Dot(tangent) == 0.0
              && point.Sub(s.center).LengthSquared() == s.radius * s.radius
              && point.Add(pointToMid).Sub(s.center).LengthSquared() == s.radius * s.radius
  {
    var perp := Perp(tangent, pointToMid);
    var denom := 2.0 * perp.Dot(pointToMid);
    if Abs(denom) < Epsilon then
      Shape(point.Add(pointToMid.Scale(0.5)), 0.0, 0.0)
    else
      var centerDist := pointToMid.LengthSquared() / denom;
      var center := point.Add(perp.Scale(centerDist));
      var radius := Abs(centerDist * Length(m, perp));
      NonDegenerateRadius(m, perp, pointToMid);
      CircleThroughBothPoints(m, point, tangent, pointToMid);
      if radius < Epsilon then
        Shape(center, radius, 0.0)
      else
        var invRad := 1.0 / radius;
        var centreToMid := point.Sub(center);
        var centreToEndDir := centreToMid.Scale(invRad);
        var centerToMidDir := centreToMid.Add(pointToMid).Scale(invRad);
        var twist := perp.Dot(pointToMid);
        TripleProductIsSquare(pointToMid, tangent);
        Shape(center, radius, m.acos(centreToEndDir.Dot(centerToMidDir)) * Sign(twist))
  }

  /** The curved branch's centre lies on the normal through `point`, and
      the circle about it passes through `point` and through
      `point + pointToMid`. */
  lemma CircleThroughBothPoints(m: Numerics, point: Vec, tangent: Vec, pointToMid: Vec)
    requires Valid(m)
    requires Perp(tangent, pointToMid).Dot(pointToMid) != 0.0
    ensures var perp := Perp(tangent, pointToMid);
            var cd := pointToMid.LengthSquared() / (2.0 * perp.Dot(pointToMid));
            var center := point.Add(perp.Scale(cd));
            var radius := Abs(cd * Length(m, perp));
            && center.Sub(point).Dot(tangent) == 0.0
            && point.Sub(center).LengthSquared() == radius * radius
            && point.Add(pointToMid).Sub(center).LengthSquared() == radius * radius
  {
    var perp := Perp(tangent, pointToMid);
    var dn := perp.Dot(pointToMid);
    var cd := pointToMid.LengthSquared() / (2.0 * dn);
    DivideBack(pointToMid.LengthSquared(), 2.0 * dn);
    CenterOnNormal(point, tangent, pointToMid, cd);
    RadiusSquare(m, perp, cd);
    DistanceToPoint(point, perp, cd);
    DistanceToMid(point, pointToMid, perp, cd);
  }

  lemma DivideBack(a: real, b: real)
    requires b != 0.0
    ensures (a / b) * b == a
  {
  }

  /** A centre reached from `point` along `Perp` is on the normal there. */
  lemma CenterOnNormal(point: Vec, tangent: Vec, pointToMid: Vec, cd: real)
    ensures point.Add(Perp(tangent, pointToMid).Scale(cd)).Sub(point).Dot(tangent) == 0.0
  {
    var perp := Perp(tangent, pointToMid);
    var offset := perp.Scale(cd);
    CrossOrthogonal(tangent, pointToMid.Cross(tangent));
    assert point.Add(offset).Sub(point) == offset;
    DotScale(perp, tangent, cd);
    assert perp.Dot(tangent) == tangent.Dot(perp);
  }

  /** The radius squared is `cd^2 |perp|^2`. */
  lemma RadiusSquare(m: Numerics, perp: Vec, cd: real)
    requires Valid(m)
    ensures Abs(cd * Length(m, perp)) * Abs(cd * Length(m, perp)) == cd * cd * perp.LengthSquared()
  {
    var l := Length(m, perp);
    LengthNonNegative(m, perp);
    AbsSquare(cd * l);
    calc {
      Abs(cd * l) * Abs(cd * l);
      (cd * l) * (cd * l);
      cd * cd * (l * l);
      cd * cd * perp.LengthSquared();
    }
  }

  /** From the centre back to `point` is `cd^2 |perp|^2` squared. */
  lemma DistanceToPoint(point: Vec, perp: Vec, cd: real)
    ensures point.Sub(point.Add(perp.Scale(cd))).LengthSquared() == cd * cd * perp.LengthSquared()
  {
    var offset := perp.Scale(cd);
    assert point.Sub(point.Add(offset)) == offset.Neg();
    assert offset.Neg().LengthSquared() == offset.LengthSquared();
    ScaleLengthSquared(perp, cd);
  }

  /** When `2 cd (perp . pointToMid) = |pointToMid|^2`, the midpoint is as far
      from the centre as `point`. */
  lemma DistanceToMid(point: Vec, pointToMid: Vec, perp: Vec, cd: real)
    requires cd * (2.0 * perp.Dot(pointToMid)) == pointToMid.LengthSquared()
    ensures point.Add(pointToMid).Sub(point.Add(perp.Scale(cd))).LengthSquared() == cd * cd * perp.LengthSquared()
  {
    var offset := perp.Scale(cd);
    assert point.Add(pointToMid).Sub(point.Add(offset)) == pointToMid.Sub(offset);
    SubLengthSquared(pointToMid, offset);
    DotScale(pointToMid, perp, cd);
    assert pointToMid.Dot(perp) == perp.Dot(pointToMid);
    ScaleLengthSquared(perp, cd);
    calc {
      pointToMid.Sub(offset).LengthSquared();
      pointToMid.LengthSquared() - 2.0 * pointToMid.Dot(offset) + offset.LengthSquared();
      pointToMid.LengthSquared() - 2.0 * (cd * perp.Dot(pointToMid)) + cd * cd * perp.LengthSquared();
      cd * cd * perp.LengthSquared();
    }
  }

  /** Away from the degenerate branch both the perpendicular and the
      chord to the midpoint are non-zero, so the radius is positive. */
  lemma NonDegenerateRadius(m: Numerics, perp: Vec, pointToMid: Vec)
    requires Valid(m)
    requires perp.Dot(pointToMid) != 0.0
    ensures Abs(pointToMid.LengthSquared() / (2.0 * perp.Dot(pointToMid)) * Length(m, perp)) > 0.0
  {
    assert perp != Zero && pointToMid != Zero;
    LengthSquaredPositive(perp);
    LengthSquaredPositive(pointToMid);
    var l := Length(m, perp);
    LengthNonNegative(m, perp);
    assert l != 0.0;
    var cd := pointToMid.LengthSquared() / (2.0 * perp.Dot(pointToMid));
    assert cd != 0.0;
    SquarePositive(cd * l);
  }

  /** `2 (1 - t1.t2)`, the leading coefficient of the joint equation. */
  function Denom(t1: Vec, t2: Vec): real {
    2.0 * (1.0 - t1.Dot(t2))
  }

  function Chord(start: Keypoint, end: Keypoint): Vec {
    end.position.Sub(start.position)
  }

  /** The closed-form branch: the tangents agree up to Epsilon and the
      chord is perpendicular to them, so the curve is two semicircles. */
  predicate IsSemicircleCase(start: Keypoint, end: Keypoint) {
    Denom(start.tangent, end.tangent) < Epsilon && Abs(Chord(start, end).Dot(end.tangent)) < Epsilon
  }

  /** The joint equation `denom d^2 + 2 (v.t) d - |v|^2 = 0` with
      `v = p2 - p1` and `t = t1 + t2`. */
  predicate SolvesJointEquation(start: Keypoint, end: Keypoint, d: real) {
    var v := Chord(start, end);
    var t := start.tangent.Add(end.tangent);
    Denom(start.tangent, end.tangent) * d * d + 2.0 * v.Dot(t) * d - v.LengthSquared() == 0.0
  }

  /** The distance `d` the joint sits along the tangents. With a positive
      leading coefficient it is the larger root of the joint equation;
      otherwise the degenerate linear formula `|v|^2 / (4 v.t2)` is used. */
  function JointParameter(m: Numerics, start: Keypoint, end: Keypoint): (d: real)
    requires Valid(m)
    requires !IsSemicircleCase(start, end)
    ensures Denom(start.tangent, end.tangent) >= Epsilon ==> d >= 0.0 && SolvesJointEquation(start, end, d)
    ensures d < 0.0 ==> Denom(start.tangent, end.tangent) < Epsilon
  {
    var v := Chord(start, end);
    var t := start.tangent.Add(end.tangent);
    var vMag2 := v.LengthSquared();
    var vDotT := v.Dot(t);
    var denom := Denom(start.tangent, end.tangent);
    if denom < Epsilon then
      vMag2 / (4.0 * v.Dot(end.tangent))
    else
      var discrim := vDotT * vDotT + denom * vMag2;
      QuadraticRoot(m, denom, vDotT, vMag2);
      (-vDotT + m.sqrt(discrim)) / denom
  }

  /** The root `(-b + sqrt(b^2 + a c)) / a` of `a d^2 + 2 b d - c = 0`,
      for `a > 0` and `c >= 0`, exists and is non-negative. */
  lemma QuadraticRoot(m: Numerics, a: real, b: real, c: real)
    requires Valid(m)
    requires a > 0.0 && c >= 0.0
    ensures b * b + a * c >= 0.0
    ensures var d := (-b + m.sqrt(b * b + a * c)) / a;
            d >= 0.0 && a * d * d + 2.0 * b * d - c == 0.0
  {
    var disc := b * b + a * c;
    SquareNonNegative(b);
    ProductNonNegative(a, c);
    var s := m.sqrt(disc);
    assert s >= 0.0 && s * s == disc;
    assert s * s >= b * b;
    RootDominates(s, b);
    var d := (-b + s) / a;
    assert d >= 0.0;
    assert a * d == s - b;
    calc {
      a * d * d + 2.0 * b * d - c;
      (s - b) * d + 2.0 * b * d - c;
      (s + b) * d - c;
      { assert (s + b) * (s - b) == a * c; }
      ((s + b) * (s - b)) / a - c;
      0.0;
    }
  }

  /** The degenerate linear formula solves the joint equation exactly when
      the tangents are equal unit vectors. */
  lemma LinearBranchSolvesJointEquation(m: Numerics, start: Keypoint, end: Keypoint)
    requires Valid(m)
    requires start.tangent == end.tangent && end.tangent.LengthSquared() == 1.0
    requires !IsSemicircleCase(start, end)
    ensures SolvesJointEquation(start, end, JointParameter(m, start, end))
  {
    var t2 := end.tangent;
    var v := Chord(start, end);
    assert Denom(start.tangent, t2) == 0.0;
    var k := v.Dot(t2);
    assert k != 0.0;
    assert v.Dot(start.tangent.Add(t2)) == 2.0 * k;
    var d := JointParameter(m, start, end);
    assert d == v.LengthSquared() / (4.0 * k);
    assert 2.0 * (2.0 * k) * d == v.LengthSquared();
  }

  /** Opposite unit tangents never take the degenerate branches: their
      leading coefficient is 4. */
  lemma OppositeTangentsTakeQuadraticBranch(start: Keypoint, end: Keypoint)
    requires end.tangent == start.tangent.Neg() && start.tangent.LengthSquared() == 1.0
    ensures Denom(start.tangent, end.tangent) == 4.0
    ensures !IsSemicircleCase(start, end)
  {
    var t1 := start.tangent;
    assert t1.Dot(t1.Neg()) == -t1.LengthSquared();
  }

  /** `FindParameters` is defined: the semicircle branch divides by |v|^2. */
  predicate FindDefined(start: Keypoint, end: Keypoint) {
    IsSemicircleCase(start, end) ==> start.position != end.position
  }

  /** The arc facts every later operation relies on. */
  predicate WellFormed(a: Arc) {
    && a.radius >= 0.0
    && a.arcLength >= 0.0
    && a.angle >= 0.0
    && (a.radius == 0.0 ==> a.angle == 0.0)
    && (a.radius > 0.0 ==> a.arcLength == a.radius * a.angle)
  }

  /** The arc's far end is `joint`: a straight piece runs from
      `center + axis1` through its centre to `center - axis1`, and a curved
      arc's circle passes through it. */
  predicate ReachesJoint(a: Arc, joint: Vec) {
    && (a.radius == 0.0 ==> a.center.Sub(a.axis1) == joint)
    && (a.radius > 0.0 ==> joint.Sub(a.center).LengthSquared() == a.radius * a.radius)
  }

  /** The arc's local frame: `axis1` has the radius as its length and
      `axis2` is perpendicular to it. */
  predicate Orthogonal(a: Arc) {
    && a.axis1.Dot(a.axis2) == 0.0
    && a.axis1.LengthSquared() == a.radius * a.radius
  }

  /** One arc of the general branch: `ComputeArcs`, the long-way-round
      correction when `d < 0`, the axes and the arc length. `flip` is set
      for the end arc, whose `axis2` points back along its tangent. */
  function GeneralArc(m: Numerics, point: Vec, tangent: Vec, pointToMid: Vec, d: real, flip: bool): (a: Arc)
    requires Valid(m)
    ensures a.center.Add(a.axis1) == point
    ensures WellFormed(a)
    ensures a.radius > 0.0 <==> Curved(tangent, pointToMid)
    ensures ReachesJoint(a, point.Add(pointToMid))
    ensures a.radius > 0.0 ==> Orthogonal(a)
    ensures a.radius == 0.0 ==> a.arcLength == Length(m, pointToMid)
  {
    LengthNonNegative(m, pointToMid);
    ShapeArc(ComputeArcs(m, point, tangent, pointToMid), point, tangent, pointToMid, d, flip, Length(m, pointToMid))
  }

  /** The arc built from `ComputeArcs`'s circle: the angle corrected the
      long way round, the axes, and the arc length (the chord's length
      `chord` for a straight piece). */
  function ShapeArc(s: Shape, point: Vec, tangent: Vec, pointToMid: Vec, d: real, flip: bool, chord: real): (a: Arc)
    requires s.radius >= 0.0 && 0.0 <= s.angle <= Pi && chord >= 0.0
    requires s.radius < Epsilon ==> s.angle == 0.0
    requires s.radius == 0.0 ==> s.center == point.Add(pointToMid.Scale(0.5))
    requires s.radius > 0.0 ==>
               && s.center.Sub(point).Dot(tangent) == 0.0
               && point.Sub(s.center).LengthSquared() == s.radius * s.radius
               && point.Add(pointToMid).Sub(s.center).LengthSquared() == s.radius * s.radius
    ensures a.center.Add(a.axis1) == point
    ensures a.radius == s.radius
    ensures WellFormed(a)
    ensures ReachesJoint(a, point.Add(pointToMid))
    ensures a.radius > 0.0 ==> Orthogonal(a)
    ensures a.radius == 0.0 ==> a.arcLength == chord
  {
    var angle := LongWay(s.angle, d);
    ProductNonNegative(s.radius, angle);
    var arcLength := if s.radius == 0.0 then chord else Abs(s.radius * angle);
    var axis2 := if flip then tangent.Scale(-s.radius) else tangent.Scale(s.radius);
    var a := Arc(s.center, s.radius, point.Sub(s.center), axis2, Zero, angle, arcLength, 0.0);
    assert s.radius > 0.0 ==> Orthogonal(a) by {
      if s.radius > 0.0 {
        ArcFrame(a, point, tangent, if flip then -s.radius else s.radius);
      }
    }
    assert s.radius == 0.0 ==> a.center.Sub(a.axis1) == point.Add(pointToMid) by {
      if s.radius == 0.0 {
        var h := pointToMid.Scale(0.5);
        assert a.axis1 == h.Neg();
        assert s.center.Sub(h.Neg()) == point.Add(pointToMid);
      }
    }
    a
  }

  /** The swept angle after the long-way-round correction: for a
      negative `d` the arc goes the other way round the circle, sweeping
      2 pi less the angle (a zero angle stays zero). */
  function LongWay(angle: real, d: real): (r: real)
    requires 0.0 <= angle <= Pi
    ensures r >= 0.0
    ensures d < 0.0 && angle > 0.0 ==> r == 2.0 * Pi - angle
    ensures d >= 0.0 || angle == 0.0 ==> r == angle
  {
    if d < 0.0 then Sign(angle) * Pi * 2.0 - angle else angle
  }

  /** A radius of the right length that is perpendicular to the tangent
      makes an orthogonal frame with any multiple of the tangent. */
  lemma ArcFrame(a: Arc, point: Vec, tangent: Vec, k: real)
    requires a.axis1 == point.Sub(a.center) && a.axis2 == tangent.Scale(k)
    requires a.center.Sub(point).Dot(tangent) == 0.0
    requires point.Sub(a.center).LengthSquared() == a.radius * a.radius
    ensures Orthogonal(a)
  {
    assert point.Sub(a.center).Dot(tangent) == -a.center.Sub(point).Dot(tangent);
    DotScale(point.Sub(a.center), tangent, k);
  }

  /** The joint of the general branch,
      `pm = (p1 + p2 + (t1 - t2) d) / 2`. */
  function Joint(start: Keypoint, end: Keypoint, d: real): Vec {
    start.position.Add(end.position).Add(start.tangent.Sub(end.tangent).Scale(d)).Scale(0.5)
  }

  /** `FindParameters`: the two arcs of the biarc. `axis3` and `rollDelta`
      are filled in later by `OnUpdateCurve`. */
  function FindParameters(m: Numerics, start: Keypoint, end: Keypoint): (g: Geom)
    requires Valid(m)
    requires FindDefined(start, end)
    ensures g.arc1.center.Add(g.arc1.axis1) == start.position
    ensures g.arc2.center.Add(g.arc2.axis1) == end.position
    ensures WellFormed(g.arc1) && WellFormed(g.arc2)
    ensures g.arc1.radius > 0.0 ==> Orthogonal(g.arc1)
    ensures g.arc2.radius > 0.0 ==> Orthogonal(g.arc2)
    ensures !IsSemicircleCase(start, end) ==>
              var joint := Joint(start, end, JointParameter(m, start, end));
              ReachesJoint(g.arc1, joint) && ReachesJoint(g.arc2, joint)
  {
    if IsSemicircleCase(start, end) then
      Semicircles(m, start, end)
    else
      var d := JointParameter(m, start, end);
      var pm := Joint(start, end, d);
      assert start.position.Add(pm.Sub(start.position)) == pm;
      assert end.position.Add(pm.Sub(end.position)) == pm;
      Geom(GeneralArc(m, start.position, start.tangent, pm.Sub(start.position), d, false),
           GeneralArc(m, end.position, end.tangent, pm.Sub(end.position), d, true))
  }

  function Midpoint(a: Vec, b: Vec): Vec {
    a.Add(b).Scale(0.5)
  }

  /** The closed-form branch of `FindParameters`: two semicircles of
      radius |v|/4 whose centres sit a quarter of the chord in from each
      end, so that the two points opposite the endpoints meet at the
      chord's midpoint. */
  function Semicircles(m: Numerics, start: Keypoint, end: Keypoint): (g: Geom)
    requires Valid(m)
    requires start.position != end.position
    ensures g.arc1.center.Add(g.arc1.axis1) == start.position
    ensures g.arc2.center.Add(g.arc2.axis1) == end.position
    ensures WellFormed(g.arc1) && WellFormed(g.arc2)
    ensures g.arc1.radius > 0.0 && g.arc1.radius == g.arc2.radius
    ensures 4.0 * g.arc1.radius == Length(m, Chord(start, end))
    ensures g.arc1.angle == Pi && g.arc2.angle == Pi
    ensures g.arc1.arcLength == Pi * g.arc1.radius && g.arc2.arcLength == Pi * g.arc2.radius
    ensures Orthogonal(g.arc1) && Orthogonal(g.arc2)
    ensures g.arc1.center.Sub(g.arc1.axis1) == Midpoint(start.position, end.position)
    ensures g.arc2.center.Sub(g.arc2.axis1) == Midpoint(start.position, end.position)
  {
    var p1, p2 := start.position, end.position;
    var t2 := end.tangent;
    var v := p2.Sub(p1);
    var vMag2 := v.LengthSquared();
    assert v != Zero;
    LengthSquaredPositive(v);
    var mag := m.sqrt(vMag2);
    assert mag > 0.0 by {
      assert mag >= 0.0 && mag * mag == vMag2;
    }
    var invMag2 := 1.0 / vMag2;
    var planeNormal := v.Cross(t2);
    var perpAxis := planeNormal.Cross(v);
    var rad := mag * 0.25;
    var centreToP1 := v.Scale(-0.25);
    var arc1 := Arc(p1.Sub(centreToP1), rad, centreToP1, perpAxis.Scale(rad).Scale(invMag2), Zero, Pi, Pi * rad, 0.0);
    var arc2 := Arc(p2.Add(centreToP1), rad, centreToP1.Scale(-1.0), perpAxis.Scale(-rad).Scale(invMag2), Zero, Pi, Pi * rad, 0.0);
    CrossOrthogonal(planeNormal, v);
    SemicircleFrame(m, v, perpAxis, -0.25, rad, invMag2);
    SemicircleFrame(m, v, perpAxis, 0.25, -rad, invMag2);
    assert centreToP1.Scale(-1.0) == v.Scale(0.25);
    Geom(arc1, arc2)
  }

  /** A quarter of the chord, either way round, has length |v|/4 and is
      perpendicular to any multiple of a vector perpendicular to the chord. */
  lemma SemicircleFrame(m: Numerics, v: Vec, perp: Vec, j: real, k: real, l: real)
    requires Valid(m)
    requires perp.Dot(v) == 0.0
    requires j * j == 0.0625
    ensures v.Scale(j).Dot(perp.Scale(k).Scale(l)) == 0.0
    ensures v.Scale(j).LengthSquared() == (Length(m, v) * 0.25) * (Length(m, v) * 0.25)
  {
    var a := v.Scale(j);
    assert v.Dot(perp) == perp.Dot(v);
    DotScale(v, perp, j);
    assert a.Dot(perp) == 0.0;
    DotScale(a, perp, k);
    DotScale(a, perp.Scale(k), l);
    ScaleLengthSquared(v, j);
    var len := Length(m, v);
    LengthNonNegative(m, v);
    assert (len * 0.25) * (len * 0.25) == (len * len) * 0.0625;
  }

  /** The roll, in degrees, between the frames the two arcs reach at the
      joint. It is computed from quaternions (`FindRotation`,
      `LookRotation`, `AxisAngle`) and `Atan2`, and is supplied by the
      caller as a function of the keypoints and the solved arcs. */
  type Twist = (Keypoint, Keypoint, Geom) -> real

  /** `OnUpdateCurve` is defined: `FindParameters` is, and the total arc
      length whose inverse is taken is non-zero. */
  ghost predicate Solvable(m: Numerics, start: Keypoint, end: Keypoint) {
    && Valid(m)
    && FindDefined(start, end)
    && var g := FindParameters(m, start, end);
       g.arc1.arcLength + g.arc2.arcLength != 0.0
  }

  /** `a` is `b` with only `axis3` and `rollDelta` filled in. */
  predicate SameShape(a: Arc, b: Arc) {
    a.(axis3 := b.axis3, rollDelta := b.rollDelta) == b
  }

  /** The arcs with their plane normals `axis3` set. */
  function WithNormals(m: Numerics, g: Geom): (r: Geom)
    ensures SameShape(r.arc1, g.arc1) && SameShape(r.arc2, g.arc2)
    ensures r.arc1.axis3 == m.normalizedSafe(g.arc1.axis1.Cross(g.arc1.axis2))
    ensures r.arc2.axis3 == m.normalizedSafe(g.arc2.axis1.Cross(g.arc2.axis2))
  {
    Geom(g.arc1.(axis3 := m.normalizedSafe(g.arc1.axis1.Cross(g.arc1.axis2))),
         g.arc2.(axis3 := m.normalizedSafe(g.arc2.axis1.Cross(g.arc2.axis2))))
  }

  /** `OnUpdateCurve`: solve the arcs, set their plane normals, report the
      summed arc length and split the joint twist between the two arcs in
      proportion to their lengths. */
  function OnUpdateCurve(m: Numerics, twist: Twist, start: Keypoint, end: Keypoint): (r: Solved<Geom>)
    requires Solvable(m, start, end)
    ensures var f := FindParameters(m, start, end);
            SameShape(r.geom.arc1, f.arc1) && SameShape(r.geom.arc2, f.arc2)
    ensures r.length == r.geom.arc1.arcLength + r.geom.arc2.arcLength
    ensures r.length > 0.0
    ensures r.geom.arc1.rollDelta - r.geom.arc2.rollDelta == JointTwist(m, twist, start, end)
    ensures ProportionalShare(r.geom.arc1.rollDelta, JointTwist(m, twist, start, end), r.geom.arc1.arcLength, r.length)
    ensures ProportionalShare(r.geom.arc2.rollDelta, -JointTwist(m, twist, start, end), r.geom.arc2.arcLength, r.length)
  {
    SplitRoll(WithNormals(m, FindParameters(m, start, end)), JointTwist(m, twist, start, end))
  }

  /** The twist between the arcs' frames at the joint. */
  function JointTwist(m: Numerics, twist: Twist, start: Keypoint, end: Keypoint): real
    requires Valid(m) && FindDefined(start, end)
  {
    twist(start, end, WithNormals(m, FindParameters(m, start, end)))
  }

  /** `share` is the part of `whole` that `part` is of `total`. */
  predicate ProportionalShare(share: real, whole: real, part: real, total: real) {
    share * total == whole * part
  }

  /** The total length and the roll shares `delta L1 / L` and
      `-delta L2 / L`. */
  function SplitRoll(g: Geom, delta: real): (r: Solved<Geom>)
    requires g.arc1.arcLength >= 0.0 && g.arc2.arcLength >= 0.0
    requires g.arc1.arcLength + g.arc2.arcLength != 0.0
    ensures SameShape(r.geom.arc1, g.arc1) && SameShape(r.geom.arc2, g.arc2)
    ensures r.geom.arc1.axis3 == g.arc1.axis3 && r.geom.arc2.axis3 == g.arc2.axis3
    ensures r.length == r.geom.arc1.arcLength + r.geom.arc2.arcLength
    ensures r.length > 0.0
    ensures r.geom.arc1.rollDelta - r.geom.arc2.rollDelta == delta
    ensures ProportionalShare(r.geom.arc1.rollDelta, delta, r.geom.arc1.arcLength, r.length)
    ensures ProportionalShare(r.geom.arc2.rollDelta, -delta, r.geom.arc2.arcLength, r.length)
  {
    var l1, l2 := g.arc1.arcLength, g.arc2.arcLength;
    var length := l1 + l2;
    var invLength := 1.0 / length;
    RollSplit(delta, l1, l2, invLength);
    Solved(Geom(g.arc1.(rollDelta := delta * l1 * invLength), g.arc2.(rollDelta := -delta * l2 * invLength)), length)
  }

  /** The two roll shares add back up to the whole twist, each in
      proportion to its arc's length. */
  lemma RollSplit(delta: real, l1: real, l2: real, inv: real)
    requires (l1 + l2) * inv == 1.0
    ensures delta * l1 * inv - -delta * l2 * inv == delta
    ensures delta * l1 * inv * (l1 + l2) == delta * l1
    ensures -delta * l2 * inv * (l1 + l2) == -delta * l2
  {
    assert delta * l1 * inv - -delta * l2 * inv == delta * ((l1 + l2) * inv);
    assert delta * l1 * inv * (l1 + l2) == delta * l1 * ((l1 + l2) * inv);
    assert -delta * l2 * inv * (l1 + l2) == -delta * l2 * ((l1 + l2) * inv);
  }

  /** The solver the curve cache runs for a biarc. */
  function Solver(m: Numerics, twist: Twist): (Keypoint, Keypoint) --> Solved<Geom> {
    (s: Keypoint, e: Keypoint) requires Solvable(m, s, e) => OnUpdateCurve(m, twist, s, e)
  }

  /** The cache may run the solver on solvable keypoints, and it then
      gets `OnUpdateCurve`'s answer. */
  lemma SolverIsOnUpdateCurve(m: Numerics, twist: Twist, s: Keypoint, e: Keypoint)
    requires Solvable(m, s, e)
    ensures Solver(m, twist).requires(s, e)
    ensures Solver(m, twist)(s, e) == OnUpdateCurve(m, twist, s, e)
  {
  }

  /** The point at local angle `angle` on a curved arc. */
  function ArcPoint(m: Numerics, a: Arc, angle: real): Vec {
    a.center.Add(a.axis1.Scale(m.cos(angle))).Add(a.axis2.Scale(m.sin(angle)))
  }

  /** `OnGetPosition`: the point a fraction `t` of the way along the
      biarc by arc length. Arc 1 is walked from its start keypoint, arc 2
      backwards from the joint towards its end keypoint; a straight piece
      is walked linearly from `center + axis1` to `center - axis1`. */
  function OnGetPosition(m: Numerics, g: Geom, length: real, t: real): (p: Vec)
    ensures var delta := t * length;
            && (delta < g.arc1.arcLength && g.arc1.radius != 0.0 && g.arc1.arcLength >= Epsilon ==>
                  exists angle :: p == ArcPoint(m, g.arc1, angle))
            && (delta >= g.arc1.arcLength && g.arc2.radius != 0.0 && g.arc2.arcLength >= Epsilon ==>
                  exists angle :: p == ArcPoint(m, g.arc2, angle))
  {
    var delta := t * length;
    if delta < g.arc1.arcLength then
      var a := g.arc1;
      if a.arcLength < Epsilon then a.center.Add(a.axis1)
      else
        var arcFrac := delta / a.arcLength;
        if a.radius == 0.0 then a.center.Add(a.axis1.Scale(1.0 - arcFrac * 2.0))
        else ArcPoint(m, a, a.angle * arcFrac)
    else
      var a := g.arc2;
      if a.arcLength < Epsilon then a.center.Add(a.axis2)
      else
        var arcFrac := (delta - g.arc1.arcLength) / a.arcLength;
        if a.radius == 0.0 then a.center.Add(a.axis1.Scale(arcFrac * 2.0 - 1.0))
        else ArcPoint(m, a, a.angle * (1.0 - arcFrac))
  }

  /** The arc's frame spans a circle: `axis1` and `axis2` are perpendicular
      and both have the radius as their length. */
  predicate Circular(a: Arc) {
    Orthogonal(a) && a.axis2.LengthSquared() == a.radius * a.radius
  }

  /** Every point the cos/sin parametrisation produces on a circular arc is
      at distance `radius` from the centre. */
  lemma ArcPointOnCircle(m: Numerics, a: Arc, angle: real)
    requires Valid(m)
    requires Circular(a)
    ensures ArcPoint(m, a, angle).Sub(a.center).LengthSquared() == a.radius * a.radius
  {
    var c, s := m.cos(angle), m.sin(angle);
    assert s * s + c * c == 1.0;
    assert ArcPoint(m, a, angle).Sub(a.center) == a.axis1.Scale(c).Add(a.axis2.Scale(s));
    UnitCombination(a.axis1, a.axis2, c, s, a.radius * a.radius);
  }

  lemma MulLeft(k: real, a: real, b: real)
    requires a == b
    ensures k * a == k * b
  {
  }

  /** `c u + s w` for perpendicular `u`, `w` of squared length `rr` and
      `c^2 + s^2 = 1` has squared length `rr`. */
  lemma UnitCombination(v1: Vec, v2: Vec, c: real, s: real, rr: real)
    requires v1.Dot(v2) == 0.0
    requires v1.LengthSquared() == rr && v2.LengthSquared() == rr
    requires s * s + c * c == 1.0
    ensures v1.Scale(c).Add(v2.Scale(s)).LengthSquared() == rr
  {
    var u, w := v1.Scale(c), v2.Scale(s);
    DotScale(v1, v2, s);
    assert v1.Dot(w) == 0.0;
    DotScale(v1, w, c);
    assert u.Dot(w) == c * v1.Dot(w) == 0.0;
    calc {
      u.Add(w).LengthSquared();
      { PerpendicularSum(u, w); }
      u.LengthSquared() + w.LengthSquared();
      { ScaleLengthSquared(v1, c); ScaleLengthSquared(v2, s); }
      c * c * v1.LengthSquared() + s * s * v2.LengthSquared();
      { MulLeft(c * c, v1.LengthSquared(), rr); MulLeft(s * s, v2.LengthSquared(), rr); }
      c * c * rr + s * s * rr;
      { UnitSplit(c, s, rr); }
      rr;
    }
  }

  /** Pythagoras: perpendicular vectors' squared lengths add up. */
  lemma PerpendicularSum(u: Vec, w: Vec)
    requires u.Dot(w) == 0.0
    ensures u.Add(w).LengthSquared() == u.LengthSquared() + w.LengthSquared()
  {
    assert u.Add(w) == u.Sub(w.Neg());
    SubLengthSquared(u, w.Neg());
    assert u.Dot(w.Neg()) == -u.Dot(w);
    assert w.Neg().LengthSquared() == w.LengthSquared();
  }

  lemma UnitSplit(c: real, s: real, rr: real)
    requires s * s + c * c == 1.0
    ensures c * c * rr + s * s * rr == rr
  {
    calc {
      c * c * rr + s * s * rr;
      (c * c + s * s) * rr;
      1.0 * rr;
    }
  }

  /** A curved arc of the general branch is circular when its keypoint's
      tangent is a unit vector. */
  lemma GeneralArcIsCircular(m: Numerics, point: Vec, tangent: Vec, pointToMid: Vec, d: real, flip: bool)
    requires Valid(m)
    requires tangent.LengthSquared() == 1.0
    requires Curved(tangent, pointToMid)
    ensures Circular(GeneralArc(m, point, tangent, pointToMid, d, flip))
  {
    var a := GeneralArc(m, point, tangent, pointToMid, d, flip);
    var k := if flip then -a.radius else a.radius;
    assert a.axis2 == tangent.Scale(k);
    ScaleLengthSquared(tangent, k);
  }

  /** With `sin 0 = 0` and `cos 0 = 1`, the zero angle is the arc's outer
      endpoint. */
  lemma ArcPointAtZero(m: Numerics, a: Arc)
    requires Valid(m)
    ensures ArcPoint(m, a, 0.0) == a.center.Add(a.axis1)
  {
  }

  /** On any pair of arcs, fraction 0 is the first arc's outer endpoint
      when that arc has positive length. */
  lemma {:induction false} FractionZeroIsArc1Start(m: Numerics, g: Geom, length: real)
    requires Valid(m)
    requires g.arc1.arcLength > 0.0
    ensures OnGetPosition(m, g, length, 0.0) == g.arc1.center.Add(g.arc1.axis1)
  {
    var a := g.arc1;
    assert 0.0 * length == 0.0;
    ArcPointAtZero(m, a);
    assert a.angle * (0.0 / a.arcLength) == 0.0;
    assert a.axis1.Scale(1.0 - 0.0 / a.arcLength * 2.0) == a.axis1;
  }

  /** On any pair of arcs whose lengths add up to `length`, fraction 1 is
      the second arc's outer endpoint when that arc is at least `Epsilon`
      long. */
  lemma {:induction false} FractionOneIsArc2End(m: Numerics, g: Geom, length: real)
    requires Valid(m)
    requires length == g.arc1.arcLength + g.arc2.arcLength
    requires g.arc2.arcLength >= Epsilon
    ensures OnGetPosition(m, g, length, 1.0) == g.arc2.center.Add(g.arc2.axis1)
  {
    var a := g.arc2;
    var l1 := g.arc1.arcLength;
    assert 1.0 * length == l1 + a.arcLength;
    assert (l1 + a.arcLength - l1) / a.arcLength == 1.0;
    ArcPointAtZero(m, a);
    assert a.angle * (1.0 - 1.0) == 0.0;
    assert a.axis1.Scale(1.0 * 2.0 - 1.0) == a.axis1;
  }

  /** `GetPosition(0)` is the start keypoint's position whenever the first
      arc has positive length. */
  lemma {:induction false} PositionAtStart(m: Numerics, twist: Twist, start: Keypoint, end: Keypoint)
    requires Solvable(m, start, end)
    requires OnUpdateCurve(m, twist, start, end).geom.arc1.arcLength > 0.0
    ensures var r := OnUpdateCurve(m, twist, start, end);
            OnGetPosition(m, r.geom, r.length, 0.0) == start.position
  {
    var r := OnUpdateCurve(m, twist, start, end);
    FractionZeroIsArc1Start(m, r.geom, r.length);
  }

  /** `GetPosition(1)` is the end keypoint's position whenever the second
      arc is at least `Epsilon` long. A shorter second arc takes the
      `center + axis2` shortcut instead. */
  lemma {:induction false} PositionAtEnd(m: Numerics, twist: Twist, start: Keypoint, end: Keypoint)
    requires Solvable(m, start, end)
    requires OnUpdateCurve(m, twist, start, end).geom.arc2.arcLength >= Epsilon
    ensures var r := OnUpdateCurve(m, twist, start, end);
            OnGetPosition(m, r.geom, r.length, 1.0) == end.position
  {
    var r := OnUpdateCurve(m, twist, start, end);
    FractionOneIsArc2End(m, r.geom, r.length);
  }

  /** Wherever `GetPosition` lands on a curved arc whose frame is circular,
      it lies on that arc's circle. */
  lemma {:induction false} PositionOnCircle(m: Numerics, g: Geom, length: real, t: real)
    requires Valid(m)
    requires Circular(g.arc1) && Circular(g.arc2)
    ensures var p := OnGetPosition(m, g, length, t);
            var delta := t * length;
            && (delta < g.arc1.arcLength && g.arc1.radius != 0.0 && g.arc1.arcLength >= Epsilon ==>
                  p.Sub(g.arc1.center).LengthSquared() == g.arc1.radius * g.arc1.radius)
            && (delta >= g.arc1.arcLength && g.arc2.radius != 0.0 && g.arc2.arcLength >= Epsilon ==>
                  p.Sub(g.arc2.center).LengthSquared() == g.arc2.radius * g.arc2.radius)
  {
    var p := OnGetPosition(m, g, length, t);
    var delta := t * length;
    if delta < g.arc1.arcLength {
      if g.arc1.radius != 0.0 && g.arc1.arcLength >= Epsilon {
        var angle :| p == ArcPoint(m, g.arc1, angle);
        ArcPointOnCircle(m, g.arc1, angle);
      }
    } else if g.arc2.radius != 0.0 && g.arc2.arcLength >= Epsilon {
      var angle :| p == ArcPoint(m, g.arc2, angle);
      ArcPointOnCircle(m, g.arc2, angle);
      assert p.Sub(g.arc2.center).LengthSquared() == g.arc2.radius * g.arc2.radius;
    }
  }

  /** A worked instance of the closed-form branch: equal tangents (1,0,0)
      and a chord (0,0,4) perpendicular to them give two semicircles of
      radius 1 and a total length of 2 pi, whose far points meet at the
      chord's midpoint (0,0,2). */
  lemma SemicircleExample(m: Numerics, twist: Twist)
    requires Valid(m)
    ensures var start := Keypoint(Zero, Vec(1.0, 0.0, 0.0), UnitY);
            var end := Keypoint(Vec(0.0, 0.0, 4.0), Vec(1.0, 0.0, 0.0), UnitY);
            && IsSemicircleCase(start, end)
            && Solvable(m, start, end)
            && var r := OnUpdateCurve(m, twist, start, end);
               && r.geom.arc1.radius == 1.0 && r.geom.arc2.radius == 1.0
               && r.length == 2.0 * Pi
               && r.geom.arc1.center.Sub(r.geom.arc1.axis1) == Midpoint(start.position, end.position)
               && r.geom.arc2.center.Sub(r.geom.arc2.axis1) == Midpoint(start.position, end.position)
  {
    var start := Keypoint(Zero, Vec(1.0, 0.0, 0.0), UnitY);
    var end := Keypoint(Vec(0.0, 0.0, 4.0), Vec(1.0, 0.0, 0.0), UnitY);
    ExampleChord(start, end);
    SemicircleArcs(m, twist, start, end, 4.0);
  }

  /** The closed-form branch through the solver: for a chord of length `k`
      both radii are `k / 4` and the total length is `pi k / 2`. */
  lemma SemicircleArcs(m: Numerics, twist: Twist, start: Keypoint, end: Keypoint, k: real)
    requires Valid(m)
    requires IsSemicircleCase(start, end) && start.position != end.position
    requires k >= 0.0 && Chord(start, end).LengthSquared() == k * k
    ensures Solvable(m, start, end)
    ensures var r := OnUpdateCurve(m, twist, start, end);
            && 4.0 * r.geom.arc1.radius == k && 4.0 * r.geom.arc2.radius == k
            && 2.0 * r.length == Pi * k
            && r.geom.arc1.center.Sub(r.geom.arc1.axis1) == Midpoint(start.position, end.position)
            && r.geom.arc2.center.Sub(r.geom.arc2.axis1) == Midpoint(start.position, end.position)
  {
    LengthFromSquare(m, Chord(start, end), k);
    var g := FindParameters(m, start, end);
    assert g == Semicircles(m, start, end);
    assert g.arc1.radius > 0.0;
    assert Solvable(m, start, end);
    var r := OnUpdateCurve(m, twist, start, end);
    assert r.geom.arc1.center.Sub(r.geom.arc1.axis1) == g.arc1.center.Sub(g.arc1.axis1);
    assert r.geom.arc2.center.Sub(r.geom.arc2.axis1) == g.arc2.center.Sub(g.arc2.axis1);
    assert r.length == Pi * g.arc1.radius + Pi * g.arc2.radius;
  }

  lemma LengthFromSquare(m: Numerics, v: Vec, k: real)
    requires Valid(m)
    requires k >= 0.0 && v.LengthSquared() == k * k
    ensures Length(m, v) == k
  {
    RootOfSquare(m, k);
  }

  /** The literal facts of the worked instance. */
  lemma ExampleChord(start: Keypoint, end: Keypoint)
    requires start == Keypoint(Zero, Vec(1.0, 0.0, 0.0), UnitY)
    requires end == Keypoint(Vec(0.0, 0.0, 4.0), Vec(1.0, 0.0, 0.0), UnitY)
    ensures IsSemicircleCase(start, end) && start.position != end.position
    ensures Chord(start, end).LengthSquared() == 4.0 * 4.0
    ensures Midpoint(start.position, end.position) == Vec(0.0, 0.0, 2.0)
  {
    assert Denom(start.tangent, end.tangent) == 0.0;
    assert Chord(start, end) == Vec(0.0, 0.0, 4.0);
  }

  /** Through the curve cache: whenever `Length` is read from a biarc
      whose keypoints (refreshed ones, if the cache is dirty) are solvable,
      it is the sum of the two cached arc lengths and positive. */
  lemma CachedLengthIsArcSum(c: Curve<Geom>, own: Pose, next: Option<Pose>, m: Numerics, twist: Twist)
    requires c.invalidated ==> Solvable(m, RefreshedStart(c, own), RefreshedEnd(c, own, next))
    requires !c.invalidated ==> Solvable(m, c.start, c.end) && Consistent(c, Solver(m, twist))
    ensures c.invalidated ==> CanUpdate(c, own, next, Solver(m, twist))
    ensures var r := GetLength(c, own, next, Solver(m, twist));
            && Consistent(r.0, Solver(m, twist))
            && r.1 == r.0.geom.arc1.arcLength + r.0.geom.arc2.arcLength
            && r.1 > 0.0
  {
    var solve := Solver(m, twist);
    if c.invalidated {
      var s, e := RefreshedStart(c, own), RefreshedEnd(c, own, next);
      SolverIsOnUpdateCurve(m, twist, s, e);
      assert CanUpdate(c, own, next, solve);
      var r := GetLength(c, own, next, solve);
      assert r.0.start == s && r.0.end == e;
    } else {
      SolverIsOnUpdateCurve(m, twist, c.start, c.end);
    }
  }
}
