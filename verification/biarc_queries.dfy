/** The proximity queries of a biarc: the nearest-point test against a
    position (`IsWithinRange`, `OnIsWithinRange`), the approximate test
    against a line segment (`ArcLineProximityTest`,
    `OnIsApproxWithinLineRange`) and the rough horizontal overlap test
    between two biarcs (`IsApproxOverlapping`, `OnIsApproxOverlapping`).
    Each answers from per-arc candidates and picks between them. */
module BiarcQueries {
  import opened Base
  import opened Geometry
  import opened KeypointCurve
  import opened Biarc

  /** `float.MaxValue`, the distance reported when nothing is in range. */
  const FloatMax: real := 340282350000000000000000000000000000000.0

  /** The outcome of one arc's range test: no candidate, or the curve
      fraction of the candidate and its distance from the probe. */
  datatype Probe = Miss | Hit(t: real, dist: real)

  /** The queries divide by `|axis1|^2` of a straight piece and by the
      curve's length. */
  predicate Queryable(g: Geom, length: real) {
    && length > 0.0
    && (g.arc1.radius == 0.0 ==> g.arc1.axis1 != Zero)
    && (g.arc2.radius == 0.0 ==> g.arc2.axis1 != Zero)
    && WellFormed(g.arc1) && WellFormed(g.arc2)
    && length == g.arc1.arcLength + g.arc2.arcLength
  }

  /** A curved arc's quick rejections: the probe is farther than
      `maxDist` from the arc's plane, outside the circle of radius
      `radius + maxDist`, or inside the circle of radius `radius - maxDist`
      when that radius is positive. */
  predicate OffPlane(a: Arc, pos: Vec, maxDist: real) {
    Abs(pos.Sub(a.center).Dot(a.axis3)) > maxDist
  }

  predicate OutsideBand(a: Arc, pos: Vec, maxDist: real) {
    pos.Sub(a.center).LengthSquared() > (a.radius + maxDist) * (a.radius + maxDist)
  }

  predicate InsideBand(a: Arc, pos: Vec, maxDist: real) {
    a.radius - maxDist > 0.0 && pos.Sub(a.center).LengthSquared() < (a.radius - maxDist) * (a.radius - maxDist)
  }

  /** A straight piece projects the probe onto its axis: the clamped
      fraction from `center + axis1` (0) to `center - axis1` (1), scaled by
      the piece's share of the curve. */
  function StraightFraction(a: Arc, tScale: real, pos: Vec): (t: real)
    requires a.axis1 != Zero
    requires a.arcLength >= 0.0 && tScale >= 0.0
    ensures 0.0 <= t <= a.arcLength * tScale
    ensures pos.Sub(a.center).Dot(a.axis1) >= a.axis1.LengthSquared() ==> t == 0.0
  {
    LengthSquaredPositive(a.axis1);
    var dot := Clamp01((1.0 - pos.Sub(a.center).Dot(a.axis1) / a.axis1.LengthSquared()) * 0.5);
    ScaledFraction(dot, a.arcLength, tScale);
    QuotientAtLeastOne(pos.Sub(a.center).Dot(a.axis1), a.axis1.LengthSquared());
    dot * a.arcLength * tScale
  }

  lemma QuotientAtLeastOne(a: real, b: real)
    requires b > 0.0
    ensures a >= b ==> a / b >= 1.0
  {
    if a >= b {
      ProductNonNegative(a - b, 1.0 / b);
      assert (a - b) * (1.0 / b) == a / b - 1.0;
    }
  }

  /** A curved arc that passes the quick rejections takes the probe's
      angle about the centre, measured in the arc's plane from `axis1`
      towards `axis2` and clamped to the arc, and turns it into a share of
      the curve. */
  function CurvedFraction(m: Numerics, a: Arc, tScale: real, pos: Vec, maxDist: real): (t: Option<real>)
    requires WellFormed(a) && a.radius != 0.0 && tScale >= 0.0
    ensures t.Some? <==> !OffPlane(a, pos, maxDist) && !OutsideBand(a, pos, maxDist) && !InsideBand(a, pos, maxDist)
    ensures t.Some? ==> 0.0 <= t.value <= a.arcLength * tScale
  {
    if OffPlane(a, pos, maxDist) || OutsideBand(a, pos, maxDist) || InsideBand(a, pos, maxDist) then None
    else
      var planeDist := pos.Sub(a.center).Dot(a.axis3);
      var planePos := m.normalized(pos.Sub(a.axis3.Scale(planeDist)).Sub(a.center)).Scale(a.radius);
      var ang := Clamp(m.atan2(a.axis2.Dot(planePos), a.axis1.Dot(planePos)), 0.0, a.angle);
      AngleFraction(ang, a, tScale);
      Some(ang * a.radius * tScale)
  }

  /** The fraction of the curve that the arc's own nearest point sits at,
      measured from the arc's outer endpoint: a straight piece always has
      one, a curved arc only when the probe passes its quick rejections. */
  function LocalFraction(m: Numerics, a: Arc, tScale: real, pos: Vec, maxDist: real): (t: Option<real>)
    requires a.radius == 0.0 ==> a.axis1 != Zero
    requires WellFormed(a) && tScale >= 0.0
    ensures t.Some? ==> 0.0 <= t.value <= a.arcLength * tScale
    ensures a.radius == 0.0 ==> t.Some?
    ensures a.radius != 0.0 ==>
              (t.Some? <==> !OffPlane(a, pos, maxDist) && !OutsideBand(a, pos, maxDist) && !InsideBand(a, pos, maxDist))
  {
    if a.radius == 0.0 then Some(StraightFraction(a, tScale, pos))
    else CurvedFraction(m, a, tScale, pos, maxDist)
  }

  /** `dot L s` lies in [0, L s] for `dot` in [0, 1]. */
  lemma ScaledFraction(dot: real, l: real, s: real)
    requires 0.0 <= dot <= 1.0 && l >= 0.0 && s >= 0.0
    ensures 0.0 <= dot * l * s <= l * s
  {
    ProductNonNegative(l, s);
    ProductNonNegative(dot, l * s);
    ProductNonNegative(1.0 - dot, l * s);
    assert dot * l * s == dot * (l * s);
  }

  /** `ang R s` lies in [0, L s] for `ang` in [0, angle] on a curved arc. */
  lemma AngleFraction(ang: real, a: Arc, s: real)
    requires WellFormed(a) && a.radius != 0.0
    requires 0.0 <= ang <= a.angle && s >= 0.0
    ensures 0.0 <= ang * a.radius * s <= a.arcLength * s
  {
    ProductNonNegative(ang, a.radius);
    ProductNonNegative(a.angle - ang, a.radius);
    assert ang * a.radius <= a.angle * a.radius;
    assert a.arcLength == a.angle * a.radius;
    ProductNonNegative(ang * a.radius, s);
    ProductNonNegative(a.arcLength - ang * a.radius, s);
  }

  /** The first or the second arc. */
  function Piece(g: Geom, second: bool): Arc {
    if second then g.arc2 else g.arc1
  }

  /** The candidate curve fraction of one arc: its local fraction, turned
      round (`1 - t`) for the second arc, which is measured from the end
      keypoint. It lies in the arc's own share of the curve. */
  function CandidateFraction(m: Numerics, g: Geom, length: real, second: bool, pos: Vec, maxDist: real): (t: Option<real>)
    requires Queryable(g, length)
    ensures t.Some? <==> LocalFraction(m, Piece(g, second), 1.0 / length, pos, maxDist).Some?
    ensures t.Some? ==> InShare(t.value, g.arc1.arcLength, length, second)
  {
    PieceShare(m, g, length, second, pos, maxDist);
    var local := LocalFraction(m, Piece(g, second), 1.0 / length, pos, maxDist);
    if local.None? then None else Some(if second then 1.0 - local.value else local.value)
  }

  /** A local fraction of one arc, turned round for the second, lands in
      that arc's share of the curve. */
  lemma PieceShare(m: Numerics, g: Geom, length: real, second: bool, pos: Vec, maxDist: real)
    requires Queryable(g, length)
    ensures 1.0 / length > 0.0
    ensures var local := LocalFraction(m, Piece(g, second), 1.0 / length, pos, maxDist);
            local.Some? ==> InShare(if second then 1.0 - local.value else local.value, g.arc1.arcLength, length, second)
  {
    var scale := 1.0 / length;
    assert scale > 0.0;
    var local := LocalFraction(m, Piece(g, second), scale, pos, maxDist);
    if local.Some? {
      var l1, l2 := g.arc1.arcLength, g.arc2.arcLength;
      LocalBound(m, Piece(g, second), scale, pos, maxDist);
      if second {
        FractionInShare(local.value, l2, l1, l2, length, true, 1.0 - local.value);
      } else {
        FractionInShare(local.value, l1, l1, l2, length, false, local.value);
      }
    }
  }

  lemma LocalBound(m: Numerics, a: Arc, scale: real, pos: Vec, maxDist: real)
    requires a.radius == 0.0 ==> a.axis1 != Zero
    requires WellFormed(a) && scale >= 0.0
    ensures var local := LocalFraction(m, a, scale, pos, maxDist);
            local.Some? ==> 0.0 <= local.value <= a.arcLength * scale
  {
  }

  /** The curve fraction `t` lies in the first arc's share [0, l1] of the
      length, or in the second arc's share [l1, length]. */
  predicate InShare(t: real, l1: real, length: real, second: bool) {
    if second then l1 <= t * length <= length else 0.0 <= t * length <= l1
  }

  /** Either share lies within the whole curve. */
  lemma ShareWithinCurve(t: real, l1: real, length: real, second: bool)
    requires 0.0 <= l1 <= length
    requires InShare(t, l1, length, second)
    ensures 0.0 <= t * length <= length
  {
  }

  /** A local fraction covering at most its arc's length, turned round for
      the second arc, lands in that arc's share of the curve. */
  lemma FractionInShare(local: real, l: real, l1: real, l2: real, length: real, second: bool, t: real)
    requires l1 >= 0.0 && l2 >= 0.0 && length == l1 + l2 && length > 0.0
    requires l == (if second then l2 else l1)
    requires 0.0 <= local <= l * (1.0 / length)
    requires t == (if second then 1.0 - local else local)
    ensures InShare(t, l1, length, second)
  {
    FractionOfLength(local, l, length);
    if second {
      TurnedFraction(local, l1, l2, length);
    }
  }

  /** The private `IsWithinRange` of one arc: the distance from the probe
      to the curve's position at the arc's candidate fraction, accepted when
      within `maxDist`. */
  function ArcWithinRange(m: Numerics, g: Geom, length: real, second: bool, pos: Vec, maxDist: real): (p: Probe)
    requires Queryable(g, length)
    ensures p.Hit? ==> p.dist <= maxDist
    ensures p.Hit? ==> CandidateFraction(m, g, length, second, pos, maxDist) == Some(p.t)
    ensures p.Hit? ==> p.dist == Length(m, OnGetPosition(m, g, length, p.t).Sub(pos))
    ensures CandidateFraction(m, g, length, second, pos, maxDist).None? ==> p.Miss?
    ensures p.Hit? ==> InShare(p.t, g.arc1.arcLength, length, second)
    ensures p.Hit? ==> 0.0 <= p.t * length <= length
  {
    match CandidateFraction(m, g, length, second, pos, maxDist)
    case None => Miss
    case Some(t) =>
      ShareWithinCurve(t, g.arc1.arcLength, length, second);
      var dist := Length(m, OnGetPosition(m, g, length, t).Sub(pos));
      if dist <= maxDist then Hit(t, dist) else Miss
  }

  /** A fraction of at most `L / length` covers at most `L` of the
      length. */
  lemma FractionOfLength(local: real, l: real, length: real)
    requires length > 0.0 && 0.0 <= local <= l * (1.0 / length)
    ensures 0.0 <= local * length <= l
  {
    ProductNonNegative(local, length);
    MultiplyMonotoneRight(l * (1.0 / length), local, length);
    assert l * (1.0 / length) * length == l;
  }

  /** Turned round, a fraction covering at most the second arc's length
      lands in the second arc's share. */
  lemma TurnedFraction(local: real, l1: real, l2: real, length: real)
    requires length == l1 + l2
    requires 0.0 <= local * length <= l2
    ensures l1 <= (1.0 - local) * length <= length
  {
    assert (1.0 - local) * length == length - local * length;
  }

  lemma MultiplyMonotoneRight(a: real, b: real, c: real)
    requires a >= b && c >= 0.0
    ensures a * c >= b * c
  {
    ProductNonNegative(a - b, c);
  }

  /** What `OnIsWithinRange` reports: whether a candidate was found, its
      curve fraction and its distance (0 and `float.MaxValue` when none
      was). */
  datatype RangeResult = RangeResult(found: bool, t: real, dist: real)

  /** `r` reports the nearer of two candidates: nothing (0 and
      `float.MaxValue`) when both miss, otherwise one of them, no farther
      than either, and the first on a tie. */
  predicate Nearer(p1: Probe, p2: Probe, r: RangeResult) {
    && (r.found <==> p1.Hit? || p2.Hit?)
    && (!r.found ==> r.t == 0.0 && r.dist == FloatMax)
    && (r.found ==> Hit(r.t, r.dist) in {p1, p2})
    && (r.found && p1.Hit? ==> r.dist <= p1.dist)
    && (r.found && p2.Hit? ==> r.dist <= p2.dist)
    && (p1.Hit? && p2.Hit? && p1.dist == p2.dist ==> r.t == p1.t)
  }

  /** `OnIsWithinRange`: test both arcs; report nothing when both miss,
      otherwise the candidate with the smaller distance, the first arc's on
      a tie. */
  function OnIsWithinRange(m: Numerics, g: Geom, length: real, pos: Vec, maxDist: real): (r: RangeResult)
    requires Queryable(g, length)
    ensures Nearer(ArcWithinRange(m, g, length, false, pos, maxDist), ArcWithinRange(m, g, length, true, pos, maxDist), r)
    ensures r.found ==> r.dist <= maxDist && 0.0 <= r.t * length <= length
  {
    var p1 := ArcWithinRange(m, g, length, false, pos, maxDist);
    var p2 := ArcWithinRange(m, g, length, true, pos, maxDist);
    if p1.Miss? && p2.Miss? then RangeResult(false, 0.0, FloatMax)
    else if p1.Miss? || (p2.Hit? && p2.dist < p1.dist) then RangeResult(true, p2.t, p2.dist)
    else RangeResult(true, p1.t, p1.dist)
  }

  /** `GeometryHelper.ApproxWithinLineRange`, which is not part of this
      model: given an arc's centre, first axis, plane normal and radius,
      the segment's endpoints and the distance bound, it reports the
      fraction along the segment of an approximately closest point, or
      nothing. */
  type LineOracle = (Vec, Vec, Vec, real, Vec, Vec, real) -> Option<real>

  /** A line hit: fraction along the segment, fraction along the curve and
      the distance between the two points. */
  datatype LineHit = LineHit(tLine: real, tArc: real, dist: real)

  /** `ArcLineProximityTest`: a straight piece never reports; otherwise the
      oracle's point on the segment must also pass the whole curve's
      `IsWithinRange` with the bound widened by `sqrt 2`. The C# result
      `+Infinity` is `None` here. */
  function ArcLineProximityTest(m: Numerics, oracle: LineOracle, g: Geom, length: real, second: bool,
                                start: Vec, end: Vec, maxDist: real): (h: Option<LineHit>)
    requires Queryable(g, length)
    ensures Piece(g, second).radius == 0.0 ==> h.None?
    ensures h.Some? ==> h.value.dist <= maxDist * Sqrt2
    ensures h.Some? ==> var a := Piece(g, second);
                        oracle(a.center, a.axis1, a.axis3, a.radius, start, end, maxDist) == Some(h.value.tLine)
    ensures h.Some? ==> OnIsWithinRange(m, g, length, start.Add(end.Sub(start).Scale(h.value.tLine)), maxDist * Sqrt2).found
  {
    var a := Piece(g, second);
    if a.radius == 0.0 then None
    else
      match oracle(a.center, a.axis1, a.axis3, a.radius, start, end, maxDist)
      case None => None
      case Some(lineDelta) =>
        var probe := OnIsWithinRange(m, g, length, start.Add(end.Sub(start).Scale(lineDelta)), maxDist * Sqrt2);
        if !probe.found then None else Some(LineHit(lineDelta, probe.t, probe.dist))
  }

  /** `OnIsApproxWithinLineRange`: nothing without a next curve; otherwise
      the arc whose hit lies earlier along the segment, the first arc on a
      tie. */
  function OnIsApproxWithinLineRange(m: Numerics, oracle: LineOracle, g: Geom, length: real, hasNext: bool,
                                     start: Vec, end: Vec, maxDist: real): (h: Option<LineHit>)
    requires Queryable(g, length)
    ensures !hasNext ==> h.None?
    ensures var h1 := ArcLineProximityTest(m, oracle, g, length, false, start, end, maxDist);
            var h2 := ArcLineProximityTest(m, oracle, g, length, true, start, end, maxDist);
            && (hasNext ==> (h.Some? <==> h1.Some? || h2.Some?))
            && (h.Some? ==> h in {h1, h2})
            && (h.Some? && h1.Some? ==> h.value.tLine <= h1.value.tLine)
            && (h.Some? && h2.Some? ==> h.value.tLine <= h2.value.tLine)
            && (hasNext && h1.Some? && h2.Some? && h1.value.tLine == h2.value.tLine ==> h == h1)
    ensures g.arc1.radius == 0.0 && g.arc2.radius == 0.0 ==> h.None?
  {
    if !hasNext then None
    else
      var h1 := ArcLineProximityTest(m, oracle, g, length, false, start, end, maxDist);
      var h2 := ArcLineProximityTest(m, oracle, g, length, true, start, end, maxDist);
      if h1.Some? && (h2.None? || h1.value.tLine <= h2.value.tLine) then h1
      else if h2.Some? then h2
      else None
  }

  /** The private `IsApproxOverlapping` of two arcs: their bounding circles,
      widened by `range`, overlap when seen from above. */
  predicate ArcsOverlap(a: Arc, b: Arc, range: real) {
    var dx := a.center.x - b.center.x;
    var dz := a.center.z - b.center.z;
    var dist := a.radius + b.radius + range;
    dx * dx + dz * dz <= dist * dist
  }

  /** `OnIsApproxOverlapping`: any of the four arc pairs overlaps. The
      other curve is `None` when it is not a biarc; its arcs are read as
      they are cached, without being brought up to date. */
  function OnIsApproxOverlapping(g: Geom, other: Option<Geom>, range: real): (r: bool)
    ensures other.None? ==> !r
    ensures other.Some? ==>
              (r <==> exists a, b :: a in {g.arc1, g.arc2} && b in {other.value.arc1, other.value.arc2} && ArcsOverlap(a, b, range))
  {
    match other
    case None => false
    case Some(h) =>
      ArcsOverlap(g.arc1, h.arc1, range) || ArcsOverlap(g.arc2, h.arc1, range)
      || ArcsOverlap(g.arc1, h.arc2, range) || ArcsOverlap(g.arc2, h.arc2, range)
  }

  /** The pair test does not depend on the order of the two arcs. */
  lemma ArcsOverlapSymmetric(a: Arc, b: Arc, range: real)
    ensures ArcsOverlap(a, b, range) <==> ArcsOverlap(b, a, range)
  {
    var dx, dz := a.center.x - b.center.x, a.center.z - b.center.z;
    assert (-dx) * (-dx) == dx * dx;
    assert (-dz) * (-dz) == dz * dz;
    assert a.radius + b.radius + range == b.radius + a.radius + range;
  }

  /** The overlap test between two biarcs is symmetric. */
  lemma OverlapSymmetric(g: Geom, h: Geom, range: real)
    ensures OnIsApproxOverlapping(g, Some(h), range) == OnIsApproxOverlapping(h, Some(g), range)
  {
    ArcsOverlapSymmetric(g.arc1, h.arc1, range);
    ArcsOverlapSymmetric(g.arc1, h.arc2, range);
    ArcsOverlapSymmetric(g.arc2, h.arc1, range);
    ArcsOverlapSymmetric(g.arc2, h.arc2, range);
  }

  /** Moving an arc's centre vertically. */
  function Lift(a: Arc, dy: real): Arc {
    a.(center := Vec(a.center.x, a.center.y + dy, a.center.z))
  }

  /** The pair test ignores heights: lifting either arc by any amount
      does not change it. */
  lemma ArcsOverlapIgnoresHeight(a: Arc, b: Arc, range: real, dya: real, dyb: real)
    ensures ArcsOverlap(Lift(a, dya), Lift(b, dyb), range) == ArcsOverlap(a, b, range)
  {
  }

  /** The overlap test between two biarcs ignores heights: lifting any of
      the four arcs by any amount does not change it. */
  lemma OverlapIgnoresHeight(g: Geom, h: Geom, range: real, dy1: real, dy2: real, dy3: real, dy4: real)
    ensures OnIsApproxOverlapping(Geom(Lift(g.arc1, dy1), Lift(g.arc2, dy2)), Some(Geom(Lift(h.arc1, dy3), Lift(h.arc2, dy4))), range)
            == OnIsApproxOverlapping(g, Some(h), range)
  {
    ArcsOverlapIgnoresHeight(g.arc1, h.arc1, range, dy1, dy3);
    ArcsOverlapIgnoresHeight(g.arc2, h.arc1, range, dy2, dy3);
    ArcsOverlapIgnoresHeight(g.arc1, h.arc2, range, dy1, dy4);
    ArcsOverlapIgnoresHeight(g.arc2, h.arc2, range, dy2, dy4);
  }
}
