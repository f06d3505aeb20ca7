/** A car's bookkeeping on the track: moving it from segment to segment,
    finding its neighbours in the car chain, counting the cars of its
    train and finding the train's head, and its distance to a point. */
module Cars {
  import opened Base
  import opened Geometry
  import opened TrackWorld
  import opened TrackSearch
  import opened CarMotion

  // ------------------------------------------------------ adjacent cars

  /** The neighbours `UpdateAdjacentCars` looks up: the nearest cars ahead
      and behind on the track, or none for a car off the track. */
  function Neighbours(w: World, c: CarId): (r: (Option<CarId>, Option<CarId>))
    requires c in w.cars && WellLinked(w) && CarsClosed(w)
    ensures w.cars[c].segment.None? ==> r == (None, None)
    ensures r.0.Some? ==> r.0.value in w.cars
    ensures r.1.Some? ==> r.1.value in w.cars
  {
    var st := w.cars[c];
    if st.segment.None? then (None, None)
    else
      var s := st.segment.value;
      var nx := FindNextCar(w, s, Some(st.progress));
      var pv := FindPrevCar(w, s, Some(st.progress));
      FindCarFound(w, s, Some(st.progress), true);
      FindCarFound(w, s, Some(st.progress), false);
      (nx, pv)
  }

  lemma FindCarFound(w: World, s: SegId, from: Option<real>, forward: bool)
    requires s in w.segs && WellLinked(w) && CarsClosed(w)
    ensures FindCar(w, s, from, forward).Some? ==> FindCar(w, s, from, forward).value in w.cars
  {
  }

  /** Whether `d` is one of the two cars `a` and `b` name. */
  predicate Named(d: CarId, a: Option<CarId>, b: Option<CarId>) {
    a == Some(d) || b == Some(d)
  }

  /** Car `d`'s record after `UpdateAdjacentCars` gives car `c` the
      neighbours `nx` and `pv`, the assignments taken in the source's
      order: `c` takes its neighbours; a new car ahead takes `c` as its
      `PrevCar`; a new car behind takes `c` as its `NextCar`; and `c` stays
      attached only if its `NextCar` is the one it had. */
  function RelinkOne(cars: map<CarId, CarState>, c: CarId, nx: Option<CarId>, pv: Option<CarId>, d: CarId): (r: CarState)
    requires c in cars && d in cars
    ensures r.segment == cars[d].segment && r.progress == cars[d].progress
  {
    var was := cars[c];
    var own := if d == c then was.(nextCar := nx, prevCar := pv) else cars[d];
    var ahead := if nx != was.nextCar && nx == Some(d) then own.(prevCar := Some(c)) else own;
    var behind := if pv != was.prevCar && pv == Some(d) then ahead.(nextCar := Some(c)) else ahead;
    if d == c then behind.(attached := behind.attached && was.nextCar == behind.nextCar) else behind
  }

  /** The whole car map after `UpdateAdjacentCars` relinks car `c`. */
  function Relink(cars: map<CarId, CarState>, c: CarId, nx: Option<CarId>, pv: Option<CarId>): (r: map<CarId, CarState>)
    requires c in cars
    ensures r.Keys == cars.Keys
    ensures forall d :: d in cars ==> r[d] == RelinkOne(cars, c, nx, pv, d)
    ensures forall d :: d in cars && d != c && !Named(d, nx, pv) ==> r[d] == cars[d]
  {
    map d | d in cars :: RelinkOne(cars, c, nx, pv, d)
  }

  /** The car and its new neighbours point at each other, and the car
      stays attached exactly when its `NextCar` did not change. */
  lemma RelinkNeighbours(cars: map<CarId, CarState>, c: CarId, nx: Option<CarId>, pv: Option<CarId>)
    requires c in cars
    requires nx.Some? ==> nx.value in cars
    requires pv.Some? ==> pv.value in cars
    ensures var r := Relink(cars, c, nx, pv);
            && (r[c].attached <==> cars[c].attached && r[c].nextCar == cars[c].nextCar)
            && (nx.Some? && nx != cars[c].nextCar ==> r[nx.value].prevCar == Some(c))
            && (pv.Some? && pv != cars[c].prevCar ==> r[pv.value].nextCar == Some(c))
            && (pv != Some(c) ==> r[c].nextCar == nx)
            && (nx != Some(c) ==> r[c].prevCar == pv)
  {
  }

  /** Every chain link after relinking is an old link, a new neighbour or
      the car itself. */
  lemma RelinkTargets(cars: map<CarId, CarState>, c: CarId, nx: Option<CarId>, pv: Option<CarId>)
    requires c in cars
    requires nx.Some? ==> nx.value in cars
    requires pv.Some? ==> pv.value in cars
    ensures var r := Relink(cars, c, nx, pv);
            forall d :: d in cars ==>
              && (r[d].nextCar == cars[d].nextCar || r[d].nextCar == nx || r[d].nextCar == Some(c))
              && (r[d].prevCar == cars[d].prevCar || r[d].prevCar == pv || r[d].prevCar == Some(c))
  {
  }

  /** Relinking to existing cars keeps every reference closed. */
  lemma RelinkClosed(segs: set<SegId>, cars: map<CarId, CarState>, c: CarId, nx: Option<CarId>, pv: Option<CarId>)
    requires c in cars && CarLinksClosed(segs, cars)
    requires nx.Some? ==> nx.value in cars
    requires pv.Some? ==> pv.value in cars
    ensures CarLinksClosed(segs, Relink(cars, c, nx, pv))
  {
    var r := Relink(cars, c, nx, pv);
    RelinkTargets(cars, c, nx, pv);
    forall d | d in r
      ensures CarClosed(segs, r, r[d])
    {
      assert CarClosed(segs, cars, cars[d]);
    }
  }

  /** `UpdateAdjacentCars`: the car's neighbours are looked up again and the
      chain relinked around it. */
  function UpdateAdjacentCars(w: World, c: CarId): (r: World)
    requires c in w.cars && WellLinked(w) && CarsClosed(w)
    ensures ListsAndCarsOnly(w, r) && r.lists == w.lists
    ensures r.cars == Relink(w.cars, c, Neighbours(w, c).0, Neighbours(w, c).1)
    ensures CarsClosed(r)
  {
    var (nx, pv) := Neighbours(w, c);
    RelinkClosed(w.segs.Keys, w.cars, c, nx, pv);
    w.(cars := Relink(w.cars, c, nx, pv))
  }

  // ----------------------------------------------- changing segments

  /** The `CurrentTrackSegment` setter run for each segment of `path` in
      turn: the car ends on the last one, and nothing else about the cars
      changes. */
  function Travel(w: World, c: CarId, path: seq<SegId>): (r: World)
    requires c in w.cars
    ensures ListsAndCarsOnly(w, r)
    ensures r.cars == w.cars[c := w.cars[c].(segment := if path == [] then w.cars[c].segment else Some(path[|path| - 1]))]
    decreases |path|
  {
    if path == [] then w
    else
      var v := Travel(w, c, path[..|path| - 1]);
      SetCurrentSegment(v, c, Some(path[|path| - 1]))
  }

  /** Moving through existing segments keeps every car reference closed
      and every segment's car list in step with the cars. */
  lemma {:induction false} TravelKeeps(w: World, c: CarId, path: seq<SegId>)
    requires c in w.cars && CarsClosed(w) && CarsListed(w)
    requires forall i :: 0 <= i < |path| ==> path[i] in w.segs
    ensures CarsClosed(Travel(w, c, path)) && CarsListed(Travel(w, c, path))
    decreases |path|
  {
    if path != [] {
      var v := Travel(w, c, path[..|path| - 1]);
      TravelKeeps(w, c, path[..|path| - 1]);
      SetCurrentKeepsListing(v, c, Some(path[|path| - 1]));
    }
  }

  /** The car's progress set to `p`; nothing else changes. */
  function SetProgress(w: World, c: CarId, p: real): (r: World)
    requires c in w.cars && CarsClosed(w) && CarsListed(w)
    ensures ListsAndCarsOnly(w, r) && r.lists == w.lists && CarsClosed(r) && CarsListed(r)
    ensures r.cars[c].progress == p && r.cars[c].segment == w.cars[c].segment
    ensures forall d :: d in w.cars && d != c ==> r.cars[d] == w.cars[d]
  {
    var r := w.(cars := w.cars[c := w.cars[c].(progress := p)]);
    ListingReadsSegmentsOnly(w.lists, w.cars, r.cars);
    assert CarClosed(w.segs.Keys, w.cars, w.cars[c]);
    r
  }

  /** The end of `UpdateCurrentTrackSegment`, once the car is on its last
      segment with its last progress: at an open end the car leaves the
      track; otherwise, when it changed segment, it looks up its
      neighbours again. */
  function Land(w: World, c: CarId, off: bool, moved: bool): (r: World)
    requires c in w.cars && WellLinked(w) && CarsClosed(w) && CarsListed(w)
    ensures ListsAndCarsOnly(w, r) && CarsClosed(r) && CarsListed(r)
    ensures r.cars[c].progress == w.cars[c].progress
    ensures r.cars[c].segment == if off then None else w.cars[c].segment
    ensures !off && !moved ==> r == w
    ensures !off && moved ==> r.cars == Relink(w.cars, c, Neighbours(w, c).0, Neighbours(w, c).1)
  {
    if off then
      DetachKeepsClosed(w, c);
      DetachKeepsListing(w, c);
      assert CarClosed(w.segs.Keys, w.cars, w.cars[c]);
      SpliceOutLinks(w.cars, c);
      DetachFromTrack(w, c)
    else if moved then
      var r := UpdateAdjacentCars(w, c);
      ListingReadsSegmentsOnly(w.lists, w.cars, r.cars);
      r
    else w
  }

  /** The segments the car enters: those the forward walk moves on to,
      then those the backward walk moves back to. */
  lemma PathSegments(links: map<SegId, Link>, ahead: seq<SegId>, behind: seq<SegId>, path: seq<SegId>)
    requires Trail(links, ahead, true) && Trail(links, behind, false)
    requires behind[0] == ahead[|ahead| - 1]
    requires path == ahead[1..] + behind[1..]
    ensures forall i :: 0 <= i < |path| ==> path[i] in links
    ensures path == [] <==> |ahead| == 1 && |behind| == 1
    ensures (if path == [] then ahead[0] else path[|path| - 1]) == behind[|behind| - 1]
  {
    forall i | 0 <= i < |path| ensures path[i] in links {
      if i < |ahead| - 1 { assert path[i] == ahead[i + 1]; } else { assert path[i] == behind[i - |ahead| + 2]; }
    }
    if path != [] {
      if |behind| > 1 { assert path[|path| - 1] == behind[|behind| - 1]; }
      else { assert path[|path| - 1] == ahead[|ahead| - 1]; }
    }
  }

  /** The car's changes once the walk is done: it enters each segment of
      `path` in turn, takes the landing's progress, and then leaves the
      track at an open end or, when it changed segment, relinks. */
  function Advance(w: World, c: CarId, path: seq<SegId>, landing: Landing): (r: World)
    requires c in w.cars && WellLinked(w) && CarsClosed(w) && CarsListed(w)
    requires forall i :: 0 <= i < |path| ==> path[i] in w.links
    requires (if path == [] then w.cars[c].segment else Some(path[|path| - 1])) == Some(landing.seg)
    ensures ListsAndCarsOnly(w, r) && CarsClosed(r) && CarsListed(r)
    ensures r.cars[c].progress == landing.progress
    ensures r.cars[c].segment == if landing.OffEnd? then None else Some(landing.seg)
    ensures landing.OnTrack? && path == [] ==> r.cars == w.cars[c := w.cars[c].(progress := landing.progress)]
  {
    assert forall i :: 0 <= i < |path| ==> path[i] in w.segs;
    var w1 := Travel(w, c, path);
    TravelKeeps(w, c, path);
    var w2 := SetProgress(w1, c, landing.progress);
    Land(w2, c, landing.OffEnd?, path != [])
  }

  /** `UpdateCurrentTrackSegment` on a car on the track: the walk runs
      over the segments' `Length`s, given as `len` (the curve lengths
      `KeypointCurve.GetLength` computes from poses the world does not
      hold), the setter runs for every segment it enters, and then the car
      leaves the track at an open end, or, when it changed segment, looks
      up its neighbours again. No `Next` read here has a saved id left to
      resolve. */
  method UpdateCurrentTrackSegment(w: World, c: CarId, len: map<SegId, real>)
    returns (r: World, landing: Landing, ahead: seq<SegId>, behind: seq<SegId>)
    requires c in w.cars && w.cars[c].segment.Some?
    requires WellLinked(w) && CarsClosed(w) && CarsListed(w) && NonePending(w)
    requires Lengths(w.links, len)
    ensures Walked(w.links, len, w.cars[c].segment.value, w.cars[c].progress, landing, ahead, behind)
    ensures ListsAndCarsOnly(w, r) && CarsClosed(r) && CarsListed(r)
    ensures r.cars[c].progress == landing.progress
    ensures r.cars[c].segment == if landing.OffEnd? then None else Some(landing.seg)
    ensures landing.OnTrack? && |ahead| == 1 && |behind| == 1 ==>
              r.cars == w.cars[c := w.cars[c].(progress := landing.progress)]
  {
    assert CarClosed(w.segs.Keys, w.cars, w.cars[c]);
    landing, ahead, behind := Settle(w.links, len, w.cars[c].segment.value, w.cars[c].progress);
    var path := ahead[1..] + behind[1..];
    PathSegments(w.links, ahead, behind, path);
    r := Advance(w, c, path, landing);
  }

  // ------------------------------------------------------------ trains

  /** The errors the train walks throw: the walk came back to the car it
      started from, or ran past the step limit. */
  datatype TrainError = NoHead | EndlessLoop

  /** The longest walk a train count or head search makes. */
  const WalkLimit: nat := 512

  /** `NextCar` going forward, `PrevCar` going backward. */
  function Along(cars: map<CarId, CarState>, d: CarId, forward: bool): Option<CarId>
    requires d in cars
  {
    if forward then cars[d].nextCar else cars[d].prevCar
  }

  /** Every chain link names a car; stated on `Along` so that walks do not
      chain through the map. */
  predicate ChainClosed(cars: map<CarId, CarState>) {
    forall d, forward {:trigger Along(cars, d, forward)} ::
      d in cars && Along(cars, d, forward).Some? ==> Along(cars, d, forward).value in cars
  }

  lemma CarsChainClosed(w: World)
    requires CarsClosed(w)
    ensures ChainClosed(w.cars)
  {
    forall d, forward | d in w.cars && Along(w.cars, d, forward).Some?
      ensures Along(w.cars, d, forward).value in w.cars
    {
      assert CarClosed(w.segs.Keys, w.cars, w.cars[d]);
    }
  }

  /** The car `n` chain links from `c`, if the chain is that long. */
  function Hop(cars: map<CarId, CarState>, c: CarId, n: nat, forward: bool): (r: Option<CarId>)
    requires c in cars && ChainClosed(cars)
    ensures r.Some? ==> r.value in cars
  {
    if n == 0 then Some(c)
    else
      var h := Hop(cars, c, n - 1, forward);
      if h.None? then None else Along(cars, h.value, forward)
  }

  /** The `n` cars from `c` on (going forward) or behind it (going
      backward, `c` itself not included) are all attached to the car
      ahead. */
  predicate AttachedRun(cars: map<CarId, CarState>, c: CarId, n: nat, forward: bool)
    requires c in cars && ChainClosed(cars)
  {
    var first := if forward then 0 else 1;
    forall i :: first <= i < first + n ==>
      Hop(cars, c, i, forward).Some? && cars[Hop(cars, c, i, forward).value].attached
  }

  /** A walk stops at a missing car or at one not attached to the car
      ahead. */
  predicate Stops(cars: map<CarId, CarState>, h: Option<CarId>)
    requires h.Some? ==> h.value in cars
  {
    h.None? || !cars[h.value].attached
  }

  lemma AttachedRunExtend(cars: map<CarId, CarState>, c: CarId, n: nat, forward: bool)
    requires c in cars && ChainClosed(cars) && AttachedRun(cars, c, n, forward)
    requires var i := if forward then n else n + 1;
             Hop(cars, c, i, forward).Some? && cars[Hop(cars, c, i, forward).value].attached
    ensures AttachedRun(cars, c, n + 1, forward)
  {
  }

  /** `GetAttachedCarCount`: one for the car, one more for every attached
      car walking forward (each counting the car it is attached to), then
      one more for every attached car walking backward from `PrevCar`.
      The forward walk throws when it comes back to the car, either walk
      when the count passes the limit. `ahead` and `behind` are the
      lengths of the two runs. */
  method GetAttachedCarCount(cars: map<CarId, CarState>, c: CarId) returns (r: Result<int, TrainError>, ahead: nat, behind: nat)
    requires c in cars && ChainClosed(cars)
    ensures r.Ok? ==> r.value == 1 + ahead + behind && 1 <= r.value <= WalkLimit
    ensures r.Ok? || r == Err(NoHead) ==> AttachedRun(cars, c, ahead, true)
    ensures r.Ok? ==>
              && Stops(cars, Hop(cars, c, ahead, true))
              && (forall i :: 1 <= i <= ahead ==> Hop(cars, c, i, true) != Some(c))
              && AttachedRun(cars, c, behind, false)
              && Stops(cars, Hop(cars, c, behind + 1, false))
    ensures r == Err(NoHead) ==> ahead >= 1 && Hop(cars, c, ahead, true) == Some(c)
    ensures r == Err(EndlessLoop) ==> 1 + ahead + behind > WalkLimit
  {
    var count := 1;
    var cur := Some(c);
    ahead, behind := 0, 0;
    while cur.Some? && cars[cur.value].attached
      invariant count == 1 + ahead && count <= WalkLimit
      invariant cur == Hop(cars, c, ahead, true)
      invariant AttachedRun(cars, c, ahead, true)
      invariant forall i :: 1 <= i <= ahead ==> Hop(cars, c, i, true) != Some(c)
      decreases WalkLimit - count
    {
      AttachedRunExtend(cars, c, ahead, true);
      count := count + 1;
      ahead := ahead + 1;
      cur := Along(cars, cur.value, true);
      if cur == Some(c) {
        r := Err(NoHead);
        return;
      }
      if count > WalkLimit {
        r := Err(EndlessLoop);
        return;
      }
    }
    cur := cars[c].prevCar;
    assert cur == Hop(cars, c, 1, false);
    while cur.Some? && cars[cur.value].attached
      invariant count == 1 + ahead + behind && count <= WalkLimit
      invariant cur == Hop(cars, c, behind + 1, false)
      invariant AttachedRun(cars, c, behind, false)
      decreases WalkLimit - count
    {
      AttachedRunExtend(cars, c, behind, false);
      count := count + 1;
      behind := behind + 1;
      cur := Along(cars, cur.value, false);
      if count > WalkLimit {
        r := Err(EndlessLoop);
        return;
      }
    }
    r := Ok(count);
  }

  /** `GetTrainHead`: follow `NextCar` while the car is attached and has
      one; throw when the walk comes back to the car or passes the limit.
      `steps` counts the links followed. */
  method GetTrainHead(cars: map<CarId, CarState>, c: CarId) returns (r: Result<CarId, TrainError>, steps: nat)
    requires c in cars && ChainClosed(cars)
    ensures r.Ok? ==>
              && Hop(cars, c, steps, true) == Some(r.value) && steps <= WalkLimit
              && !(cars[r.value].attached && cars[r.value].nextCar.Some?)
              && AttachedRun(cars, c, steps, true)
              && (forall i :: 1 <= i <= steps ==> Hop(cars, c, i, true) != Some(c))
    ensures r == Err(NoHead) ==> steps >= 1 && Hop(cars, c, steps, true) == Some(c)
    ensures r == Err(EndlessLoop) ==> steps > WalkLimit
  {
    var cur := c;
    steps := 0;
    while cars[cur].attached && cars[cur].nextCar.Some?
      invariant cur in cars && steps <= WalkLimit
      invariant Hop(cars, c, steps, true) == Some(cur)
      invariant AttachedRun(cars, c, steps, true)
      invariant forall i :: 1 <= i <= steps ==> Hop(cars, c, i, true) != Some(c)
      decreases WalkLimit - steps
    {
      AttachedRunExtend(cars, c, steps, true);
      cur := Along(cars, cur, true).value;
      steps := steps + 1;
      if cur == c {
        r := Err(NoHead);
        return;
      }
      if steps > WalkLimit {
        r := Err(EndlessLoop);
        return;
      }
    }
    r := Ok(cur);
  }

  // ---------------------------------------------------------- distance

  function Gap(x: real, y: real): real {
    Abs(x - y)
  }

  /** The gap along one axis from `x` to the interval [lo, hi]: zero
      inside, otherwise the distance to the nearer end. */
  function AxisGap(x: real, lo: real, hi: real): (r: real)
    requires lo <= hi
    ensures r >= 0.0
    ensures r == 0.0 <==> lo <= x <= hi
    ensures r == Gap(x, Clamp(x, lo, hi))
    ensures forall y :: lo <= y <= hi ==> r <= Gap(x, y)
  {
    if x < lo then lo - x else if x > hi then x - hi else 0.0
  }

  /** The car's box in its mesh's local space. */
  const BoxMin: Vec := Vec(-0.5, 0.0, -0.5)
  const BoxMax: Vec := Vec(0.5, 0.5, 0.5)

  /** The local offset from the box to the point, one axis at a time. */
  function BoxGap(p: Vec): (r: Vec)
    ensures r == Zero <==> (BoxMin.x <= p.x <= BoxMax.x && BoxMin.y <= p.y <= BoxMax.y && BoxMin.z <= p.z <= BoxMax.z)
    ensures r.x >= 0.0 && r.y >= 0.0 && r.z >= 0.0
  {
    Vec(AxisGap(p.x, BoxMin.x, BoxMax.x), AxisGap(p.y, BoxMin.y, BoxMax.y), AxisGap(p.z, BoxMin.z, BoxMax.z))
  }

  /** `GetDistanceSquared` on the point already in the mesh's local space:
      the squared length of the gap after the mesh's uniform scale. */
  function GetDistanceSquared(local: Vec, scale: real): (r: real)
    ensures r >= 0.0
    ensures r == 0.0 <==> (scale == 0.0 || BoxGap(local) == Zero)
  {
    var g := BoxGap(local);
    ScaledGap(g, scale);
    g.Scale(scale).LengthSquared()
  }

  /** A scaled vector has squared length zero exactly when the scale or
      the vector is zero. */
  lemma ScaledGap(g: Vec, k: real)
    ensures g.Scale(k).LengthSquared() >= 0.0
    ensures g.Scale(k).LengthSquared() == 0.0 <==> (k == 0.0 || g == Zero)
  {
    var l := g.LengthSquared();
    ScaleLengthSquared(g, k);
    LengthSquaredNonNegative(g.Scale(k));
    if k == 0.0 {
      calc {
        g.Scale(k).LengthSquared();
        k * k * l;
        0.0 * 0.0 * l;
        0.0;
      }
    } else if g == Zero {
      calc {
        g.Scale(k).LengthSquared();
        k * k * l;
        k * k * 0.0;
        0.0;
      }
    } else {
      LengthSquaredPositive(g);
      calc {
        g.Scale(k).LengthSquared();
        k * k * l;
        (k * k) * l;
      >  { SquarePositive(k); ProductPositive(k * k, l); }
        0.0;
      }
    }
  }
}
