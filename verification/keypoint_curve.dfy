/** The lazily recomputed curve cache shared by every curve variant.

    A curve caches its two boundary keypoints, the variant's solved geometry
    `G`, the total length and its inverse, and a dirty flag. `Invalidate`
    only raises the flag; every public query first recomputes when the flag
    is up and then answers from the cache. The variant's solver is passed
    in as a function of the two keypoints. */
module KeypointCurve {
  import opened Base
  import opened Geometry

  /** `KeypointCurve.Epsilon`, shared by the whole curve engine. */
  const Epsilon: real := 0.0001

  datatype Keypoint = Keypoint(position: Vec, tangent: Vec, normal: Vec)

  /** What a keypoint is refreshed from: an engine transform's position,
      forward and up vectors. */
  datatype Pose = Pose(position: Vec, forward: Vec, up: Vec)

  /** `Vector.Equals(other, Epsilon)`, taken to compare component-wise. */
  predicate ApproxEqual(a: Vec, b: Vec) {
    Abs(a.x - b.x) <= Epsilon && Abs(a.y - b.y) <= Epsilon && Abs(a.z - b.z) <= Epsilon
  }

  /** The keypoint matches the pose up to Epsilon in every field. */
  predicate Matches(k: Keypoint, p: Pose) {
    ApproxEqual(p.position, k.position) && ApproxEqual(p.forward, k.tangent) && ApproxEqual(p.up, k.normal)
  }

  datatype Refresh = Refresh(keypoint: Keypoint, changed: bool)

  /** `UpdateKeypoint`: a cached field is overwritten with the pose's value
      only when the two are not Epsilon-equal. */
  function UpdateKeypoint(k: Keypoint, p: Pose): (r: Refresh)
    ensures r.changed <==> r.keypoint != k
    ensures Matches(r.keypoint, p)
    ensures Matches(k, p) <==> r.keypoint == k
    ensures r.keypoint.position in {k.position, p.position}
    ensures r.keypoint.tangent in {k.tangent, p.forward}
    ensures r.keypoint.normal in {k.normal, p.up}
  {
    var pos := if ApproxEqual(p.position, k.position) then k.position else p.position;
    var tan := if ApproxEqual(p.forward, k.tangent) then k.tangent else p.forward;
    var nrm := if ApproxEqual(p.up, k.normal) then k.normal else p.up;
    var changed := !ApproxEqual(p.position, k.position) || !ApproxEqual(p.forward, k.tangent) || !ApproxEqual(p.up, k.normal);
    Refresh(Keypoint(pos, tan, nrm), changed)
  }

  /** What a variant's solver returns: its geometry and the total length. */
  datatype Solved<G> = Solved(geom: G, length: real)

  datatype Curve<G> = Curve(
    start: Keypoint,
    end: Keypoint,
    geom: G,
    length: real,
    invLength: real,
    invalidated: bool)

  /** `Invalidate`: raise the dirty flag and nothing else. */
  function Invalidate<G>(c: Curve<G>): (r: Curve<G>)
    ensures r.invalidated
    ensures r.start == c.start && r.end == c.end && r.geom == c.geom
    ensures r.length == c.length && r.invLength == c.invLength
  {
    c.(invalidated := true)
  }

  /** The pose the end keypoint is refreshed from: the next curve's
      transform when there is a next curve, otherwise the curve's own. */
  function EndPose(own: Pose, next: Option<Pose>): Pose {
    match next
    case Some(p) => p
    case None => own
  }

  function RefreshedStart<G>(c: Curve<G>, own: Pose): Keypoint {
    UpdateKeypoint(c.start, own).keypoint
  }

  function RefreshedEnd<G>(c: Curve<G>, own: Pose, next: Option<Pose>): Keypoint {
    UpdateKeypoint(c.end, EndPose(own, next)).keypoint
  }

  /** The recompute is defined: the solver accepts the refreshed keypoints
      and reports a non-zero length (its inverse is taken). */
  ghost predicate CanUpdate<G>(c: Curve<G>, own: Pose, next: Option<Pose>, solve: (Keypoint, Keypoint) --> Solved<G>) {
    var s, e := RefreshedStart(c, own), RefreshedEnd(c, own, next);
    solve.requires(s, e) && solve(s, e).length != 0.0
  }

  /** The cache is clean and agrees with the solver on its own keypoints. */
  ghost predicate Consistent<G>(c: Curve<G>, solve: (Keypoint, Keypoint) --> Solved<G>) {
    && !c.invalidated
    && solve.requires(c.start, c.end)
    && solve(c.start, c.end) == Solved(c.geom, c.length)
    && c.length * c.invLength == 1.0
  }

  /** `UpdateCurve`: clear the flag, refresh the start keypoint from the
      curve's own pose and the end keypoint from exactly one pose, run the
      solver unconditionally, and cache the inverse length. */
  function UpdateCurve<G>(c: Curve<G>, own: Pose, next: Option<Pose>, solve: (Keypoint, Keypoint) --> Solved<G>): (r: Curve<G>)
    requires CanUpdate(c, own, next, solve)
    ensures Consistent(r, solve)
    ensures Matches(r.start, own)
    ensures next.Some? ==> Matches(r.end, next.value)
    ensures next.None? ==> Matches(r.end, own)
    ensures Matches(c.start, own) ==> r.start == c.start
    ensures Matches(c.end, EndPose(own, next)) ==> r.end == c.end
  {
    var s := UpdateKeypoint(c.start, own).keypoint;
    var e := UpdateKeypoint(c.end, EndPose(own, next)).keypoint;
    var solved := solve(s, e);
    Curve(s, e, solved.geom, solved.length, 1.0 / solved.length, false)
  }

  /** The common prologue of every public query: recompute when dirty. */
  function Prepare<G>(c: Curve<G>, own: Pose, next: Option<Pose>, solve: (Keypoint, Keypoint) --> Solved<G>): (r: Curve<G>)
    requires c.invalidated ==> CanUpdate(c, own, next, solve)
    ensures !r.invalidated
    ensures !c.invalidated ==> r == c
    ensures c.invalidated ==> Consistent(r, solve) && Matches(r.start, own) && Matches(r.end, EndPose(own, next))
  {
    if c.invalidated then UpdateCurve(c, own, next, solve) else c
  }

  /** `Length`. */
  function GetLength<G>(c: Curve<G>, own: Pose, next: Option<Pose>, solve: (Keypoint, Keypoint) --> Solved<G>): (r: (Curve<G>, real))
    requires c.invalidated ==> CanUpdate(c, own, next, solve)
    ensures !r.0.invalidated && r.1 == r.0.length
    ensures c.invalidated ==> Consistent(r.0, solve) && solve(r.0.start, r.0.end).length == r.1
  {
    var p := Prepare(c, own, next, solve);
    (p, p.length)
  }

  /** `InverseLength`. */
  function GetInverseLength<G>(c: Curve<G>, own: Pose, next: Option<Pose>, solve: (Keypoint, Keypoint) --> Solved<G>): (r: (Curve<G>, real))
    requires c.invalidated ==> CanUpdate(c, own, next, solve)
    ensures !r.0.invalidated && r.1 == r.0.invLength
    ensures c.invalidated ==> r.1 * r.0.length == 1.0
  {
    var p := Prepare(c, own, next, solve);
    (p, p.invLength)
  }

  /** `GetPosition`, `GetRotation`, `GetDeltas`, `IsWithinRange`,
      `IsApproxWithinLineRange` and `IsApproxOverlapping`: recompute when
      dirty, then hand the cached geometry and length to the variant's
      operation `op`. */
  function Query<G, R>(c: Curve<G>, own: Pose, next: Option<Pose>, solve: (Keypoint, Keypoint) --> Solved<G>, op: (G, real) -> R): (r: (Curve<G>, R))
    requires c.invalidated ==> CanUpdate(c, own, next, solve)
    ensures !r.0.invalidated
    ensures !c.invalidated ==> r.0 == c
    ensures r.1 == op(r.0.geom, r.0.length)
  {
    var p := Prepare(c, own, next, solve);
    (p, op(p.geom, p.length))
  }

  /** Two queries with no `Invalidate` between them see the same cache: the
      second one does not recompute, whatever the poses are by then. */
  lemma SecondQueryReadsCache<G, R>(c: Curve<G>, own1: Pose, next1: Option<Pose>, own2: Pose, next2: Option<Pose>,
                                   solve: (Keypoint, Keypoint) --> Solved<G>, op1: (G, real) -> R, op2: (G, real) -> R)
    requires c.invalidated ==> CanUpdate(c, own1, next1, solve)
    ensures var first := Query(c, own1, next1, solve, op1);
            var second := Query(first.0, own2, next2, solve, op2);
            second.0 == first.0 && second.1 == op2(first.0.geom, first.0.length)
  {
  }

  /** Invalidating a consistent cache and querying again with poses that
      still match the cached keypoints reproduces the cache exactly. */
  lemma InvalidateThenQueryIsIdentity<G>(c: Curve<G>, own: Pose, next: Option<Pose>, solve: (Keypoint, Keypoint) --> Solved<G>)
    requires Consistent(c, solve)
    requires Matches(c.start, own) && Matches(c.end, EndPose(own, next))
    ensures CanUpdate(Invalidate(c), own, next, solve)
    ensures Prepare(Invalidate(c), own, next, solve) == c
  {
    var d := Invalidate(c);
    assert RefreshedStart(d, own) == c.start;
    assert RefreshedEnd(d, own, next) == c.end;
    var r := UpdateCurve(d, own, next, solve);
    assert r.invLength == 1.0 / c.length;
    assert c.invLength == 1.0 / c.length by {
      assert c.length != 0.0;
    }
  }
}
