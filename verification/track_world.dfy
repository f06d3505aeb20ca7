/** The state the track code shares between segments and cars: the
    segments with their `Next`/`Prev` links, car lists and dirty flags, the
    cars with their current segment, progress and `NextCar`/`PrevCar`
    links, and the static id registry. Object references become keys of
    finite maps; `None` is the C# `null`. A segment's fields are kept in
    four maps by what changes them: its saved data, its links, its car
    list and its dirty flags.

    The car operations that the segment setter calls (`RemoveCar`,
    `AddCar`, the `CurrentTrackSegment` setter and `DetachFromTrack`) live
    here because segments and cars call each other. */
module TrackWorld {
  import opened Base

  type SegId = nat
  type CarId = nat

  /** `TrackType`, kept as the byte it is saved as: `Default`, `Brake`,
      `ChainLift`, `Booster`. */
  const DefaultTrack: byte := 0
  const BrakeTrack: byte := 1
  const ChainLiftTrack: byte := 2
  const BoosterTrack: byte := 3

  /** The 16 bytes the engine writes for a quaternion; their layout is the
      engine's. */
  type RotationBytes = r: seq<byte> | |r| == 16
    witness [0, 0, 0, 0, 0, 0, 0, 0, 0, 0, 0, 0, 0, 0, 0, 0]

  /** A C# `int`. */
  type Int32 = x: int | -0x8000_0000 <= x <= 0x7FFF_FFFF

  /** A segment's own data: `_uniqueId` and `_nextId` (-1 for "none"),
      `_trackType` and the guide's local rotation. The curve's length is
      not part of it: it is computed from the keypoint poses, which the
      world does not hold, and the operations that read it take it as an
      input. */
  datatype Segment = Segment(
    uniqueId: Int32,
    nextId: Int32,
    trackType: byte,
    rotation: RotationBytes)

  /** `_next` (which `_curve.Next` follows) and `Prev`. */
  datatype Link = Link(next: Option<SegId>, prev: Option<SegId>)

  /** The mesh and transform dirty flags. The curve's own cache flag is
      the `dirty` field of `KeypointCurve.Curve`, not part of the world. */
  datatype Flags = Flags(trackInvalid: bool, transformInvalid: bool)

  /** One car: its `CurrentTrackSegment`, `TrackSegmentProgress`,
      `NextCar`, `PrevCar` and `AttachedToNextCar`. */
  datatype CarState = CarState(
    segment: Option<SegId>,
    progress: real,
    nextCar: Option<CarId>,
    prevCar: Option<CarId>,
    attached: bool)

  /** All segments (their data, links, car lists and flags), all cars, the
      static `_sSegments` registry from unique id to segment, and
      `_sNextUniqueId`. */
  datatype World = World(
    segs: map<SegId, Segment>,
    links: map<SegId, Link>,
    lists: map<SegId, seq<CarId>>,
    flags: map<SegId, Flags>,
    cars: map<CarId, CarState>,
    registry: map<int, SegId>,
    nextUniqueId: int)

  /** A segment added by `AddComponent<TrackSegment>`: no id, default
      type, no links, no cars, clean mesh and transform flags. */
  function AddSegment(w: World, s: SegId, rotation: RotationBytes): (r: World)
    requires s !in w.segs
    ensures r.segs == w.segs[s := Segment(-1, -1, DefaultTrack, rotation)]
    ensures r.links == w.links[s := Link(None, None)] && r.lists == w.lists[s := []]
    ensures r.flags == w.flags[s := Flags(false, false)]
    ensures r.cars == w.cars && r.registry == w.registry && r.nextUniqueId == w.nextUniqueId
  {
    w.(segs := w.segs[s := Segment(-1, -1, DefaultTrack, rotation)],
       links := w.links[s := Link(None, None)],
       lists := w.lists[s := []],
       flags := w.flags[s := Flags(false, false)])
  }

  /** No segment holds a saved successor id that its `Next` getter has yet
      to resolve. */
  predicate NonePending(w: World) {
    forall x :: x in w.segs ==> w.segs[x].nextId == -1
  }

  /** Every segment has links, a car list and flags. */
  predicate Shaped(w: World) {
    && w.links.Keys == w.segs.Keys
    && w.lists.Keys == w.segs.Keys
    && w.flags.Keys == w.segs.Keys
  }

  /** Every segment link points at a segment. */
  predicate LinksClosed(w: World) {
    Shaped(w) && ClosedLinks(w.links)
  }

  /** Every link in the map points at a key of the map. */
  predicate ClosedLinks(links: map<SegId, Link>) {
    forall s {:trigger links[s]} :: s in links ==>
      && (links[s].next.Some? ==> links[s].next.value in links)
      && (links[s].prev.Some? ==> links[s].prev.value in links)
  }

  /** The doubly linked list invariant: `a.Next == b` exactly when
      `b.Prev == a`. */
  predicate LinksAgree(w: World) {
    Agree(w.links)
  }

  predicate Agree(links: map<SegId, Link>) {
    forall a, b {:trigger links[a], links[b]} :: a in links && b in links ==>
      (links[a].next == Some(b) <==> links[b].prev == Some(a))
  }

  predicate WellLinked(w: World) {
    LinksClosed(w) && LinksAgree(w)
  }

  /** Every car reference points at an existing car or segment, and every
      car in a segment's list exists. */
  predicate CarsClosed(w: World) {
    Shaped(w) && CarRefsClosed(w.segs.Keys, w.lists, w.cars)
  }

  predicate CarRefsClosed(segs: set<SegId>, lists: map<SegId, seq<CarId>>, cars: map<CarId, CarState>) {
    && CarLinksClosed(segs, cars)
    && (forall s, i :: s in lists && 0 <= i < |lists[s]| ==> lists[s][i] in cars)
  }

  predicate CarLinksClosed(segs: set<SegId>, cars: map<CarId, CarState>) {
    forall c {:trigger cars[c]} :: c in cars ==> CarClosed(segs, cars, cars[c])
  }

  predicate CarClosed(segs: set<SegId>, cars: map<CarId, CarState>, st: CarState) {
    && (st.segment.Some? ==> st.segment.value in segs)
    && (st.nextCar.Some? ==> st.nextCar.value in cars)
    && (st.prevCar.Some? ==> st.prevCar.value in cars)
  }

  /** A car is listed by a segment exactly when that segment is its current
      one, and no list holds a car twice. */
  predicate CarsListed(w: World) {
    Listed(w.lists, w.cars)
  }

  predicate Listed(lists: map<SegId, seq<CarId>>, cars: map<CarId, CarState>) {
    && (forall s, i :: s in lists && 0 <= i < |lists[s]| ==>
          lists[s][i] in cars && cars[lists[s][i]].segment == Some(s))
    && (forall s, i, j :: s in lists && 0 <= i < j < |lists[s]| ==> lists[s][i] != lists[s][j])
    && (forall c :: c in cars && cars[c].segment.Some? && cars[c].segment.value in lists ==>
          c in lists[cars[c].segment.value])
  }

  /** Only car lists and car records may differ between the two worlds. */
  predicate ListsAndCarsOnly(w: World, r: World) {
    && r.segs == w.segs
    && r.links == w.links
    && r.flags == w.flags
    && r.lists.Keys == w.lists.Keys
    && r.cars.Keys == w.cars.Keys
    && r.registry == w.registry
    && r.nextUniqueId == w.nextUniqueId
  }

  /** Only the dirty flags may differ between the two worlds. */
  predicate FlagsOnly(w: World, r: World) {
    && r.segs == w.segs
    && r.links == w.links
    && r.lists == w.lists
    && r.flags.Keys == w.flags.Keys
    && r.cars == w.cars
    && r.registry == w.registry
    && r.nextUniqueId == w.nextUniqueId
  }

  /** `List.Remove`: the first occurrence of `c` is dropped, if any. */
  function RemoveFirst(xs: seq<CarId>, c: CarId): (r: seq<CarId>)
    ensures multiset(r) == multiset(xs) - multiset{c}
    ensures c !in xs ==> r == xs
    ensures forall x :: x in r ==> x in xs
  {
    if |xs| == 0 then []
    else if xs[0] == c then
      assert xs == [xs[0]] + xs[1..];
      xs[1..]
    else
      assert xs == [xs[0]] + xs[1..];
      [xs[0]] + RemoveFirst(xs[1..], c)
  }

  predicate Distinct(xs: seq<CarId>) {
    forall i, j :: 0 <= i < j < |xs| ==> xs[i] != xs[j]
  }

  /** Removing from a list without repeats drops every occurrence of `c`,
      keeps every other element and adds no repeat. */
  lemma RemoveOnly(xs: seq<CarId>, c: CarId)
    requires Distinct(xs)
    ensures c !in RemoveFirst(xs, c)
    ensures forall x :: x in xs && x != c ==> x in RemoveFirst(xs, c)
    ensures Distinct(RemoveFirst(xs, c))
  {
    var r := RemoveFirst(xs, c);
    var mr: multiset<CarId>, mx: multiset<CarId> := multiset(r), multiset(xs);
    DistinctCountsOne(xs);
    assert mr[c] == 0;
    forall x | x in xs && x != c
      ensures x in r
    {
      assert mx[x] >= 1;
      assert mr[x] == mx[x];
    }
    assert forall x: CarId :: mr[x] <= 1;
    CountsOneDistinct(r);
  }

  /** A list without repeats holds each element once. */
  lemma {:induction false} DistinctCountsOne(xs: seq<CarId>)
    requires Distinct(xs)
    ensures forall x: CarId :: multiset(xs)[x] <= 1
    decreases |xs|
  {
    if |xs| > 0 {
      DistinctCountsOne(xs[1..]);
      assert xs == [xs[0]] + xs[1..];
      assert xs[0] !in xs[1..];
    }
  }

  /** ... and a list holding each element at most once has no repeat. */
  lemma CountsOneDistinct(xs: seq<CarId>)
    requires forall x: CarId :: multiset(xs)[x] <= 1
    ensures Distinct(xs)
  {
    forall i, j | 0 <= i < j < |xs|
      ensures xs[i] != xs[j]
    {
      EqualEntriesCountTwice(xs, i, j);
    }
  }

  lemma EqualEntriesCountTwice(xs: seq<CarId>, i: int, j: int)
    requires 0 <= i < j < |xs|
    ensures xs[i] == xs[j] ==> multiset(xs)[xs[i]] >= 2
  {
    assert xs == xs[..j] + [xs[j]] + xs[j + 1..];
    assert xs[i] in xs[..j];
    assert multiset(xs) == multiset(xs[..j]) + multiset{xs[j]} + multiset(xs[j + 1..]);
  }

  /** `InvalidateTrackMesh`: the segment's mesh is marked dirty; no other
      flag and nothing else changes. The curve's own `Invalidate` is
      `KeypointCurve.Invalidate`. */
  function InvalidateTrackMesh(w: World, s: SegId): (r: World)
    requires s in w.flags
    ensures FlagsOnly(w, r)
    ensures r.flags[s] == w.flags[s].(trackInvalid := true)
    ensures forall x :: x in w.flags && x != s ==> r.flags[x] == w.flags[x]
  {
    w.(flags := w.flags[s := w.flags[s].(trackInvalid := true)])
  }

  /** `InvalidateTrackMesh` on a segment that may be `null`. */
  function InvalidateIf(w: World, s: Option<SegId>): (r: World)
    requires s.Some? ==> s.value in w.flags
    ensures FlagsOnly(w, r)
    ensures s.Some? ==> r.flags[s.value].trackInvalid
  {
    if s.None? then w else InvalidateTrackMesh(w, s.value)
  }

  /** The car's list as the `CurrentTrackSegment` setter leaves segment
      `x`'s: without the car if it was the old segment, with the car
      appended if it is the new one. */
  function ListAfterMove(xs: seq<CarId>, c: CarId, wasHere: bool, isHere: bool): seq<CarId> {
    var base := if wasHere then RemoveFirst(xs, c) else xs;
    if isHere then base + [c] else base
  }

  /** Every segment's list after car `c` moves from `from` to `to`. */
  function MoveCar(lists: map<SegId, seq<CarId>>, c: CarId, from: Option<SegId>, to: Option<SegId>): (r: map<SegId, seq<CarId>>)
    ensures r.Keys == lists.Keys
    ensures forall x :: x in lists ==> r[x] == ListAfterMove(lists[x], c, from == Some(x), to == Some(x))
  {
    map x | x in lists :: ListAfterMove(lists[x], c, from == Some(x), to == Some(x))
  }

  /** The `CurrentTrackSegment` setter: the car leaves its old segment's
      list (`RemoveCar`), takes the new segment, and is appended to the new
      segment's list (`AddCar`). */
  function SetCurrentSegment(w: World, c: CarId, s: Option<SegId>): (r: World)
    requires c in w.cars
    ensures ListsAndCarsOnly(w, r)
    ensures r.cars == w.cars[c := w.cars[c].(segment := s)]
    ensures r.lists == MoveCar(w.lists, c, w.cars[c].segment, s)
  {
    w.(lists := MoveCar(w.lists, c, w.cars[c].segment, s), cars := w.cars[c := w.cars[c].(segment := s)])
  }

  /** Under the listing invariant, the setter leaves the car in exactly the
      new segment's list and keeps both invariants. */
  lemma SetCurrentKeepsListing(w: World, c: CarId, s: Option<SegId>)
    requires c in w.cars
    requires CarsClosed(w) && CarsListed(w)
    requires s.Some? ==> s.value in w.segs
    ensures CarsListed(SetCurrentSegment(w, c, s))
    ensures CarsClosed(SetCurrentSegment(w, c, s))
    ensures forall x :: x in w.lists ==> (c in SetCurrentSegment(w, c, s).lists[x] <==> s == Some(x))
  {
    var r := SetCurrentSegment(w, c, s);
    forall x | x in w.lists
      ensures c in r.lists[x] <==> s == Some(x)
      ensures Distinct(r.lists[x])
      ensures forall i :: 0 <= i < |r.lists[x]| ==> r.lists[x][i] in r.cars && r.cars[r.lists[x][i]].segment == Some(x)
    {
      ListAfterSetCurrent(w, c, s, x);
    }
    forall d | d in r.cars && r.cars[d].segment.Some? && r.cars[d].segment.value in r.lists
      ensures d in r.lists[r.cars[d].segment.value]
    {
      if d != c {
        var x := w.cars[d].segment.value;
        assert d in w.lists[x];
        ListKeepsOthers(w.lists[x], c, d, w.cars[c].segment == Some(x), s == Some(x));
      }
    }
  }

  lemma ListKeepsOthers(xs: seq<CarId>, c: CarId, d: CarId, wasHere: bool, isHere: bool)
    requires d in xs && d != c
    ensures d in ListAfterMove(xs, c, wasHere, isHere)
  {
    if wasHere {
      var mx: multiset<CarId>, mr: multiset<CarId> := multiset(xs), multiset(RemoveFirst(xs, c));
      assert mx[d] >= 1;
      assert mr[d] == mx[d];
    }
  }

  /** One list after the setter, from the facts the listing invariant
      gives about it: it holds the car exactly when it is the new segment's
      and has no repeat, and everything in it was there before or is the
      car. */
  lemma ListAfterMoveFacts(xs: seq<CarId>, c: CarId, wasHere: bool, isHere: bool)
    requires Distinct(xs)
    requires !wasHere ==> c !in xs
    ensures c in ListAfterMove(xs, c, wasHere, isHere) <==> isHere
    ensures Distinct(ListAfterMove(xs, c, wasHere, isHere))
    ensures forall y :: y in ListAfterMove(xs, c, wasHere, isHere) ==> y in xs || y == c
  {
    var base := if wasHere then RemoveFirst(xs, c) else xs;
    if wasHere {
      RemoveOnly(xs, c);
    }
    var r := ListAfterMove(xs, c, wasHere, isHere);
    if isHere {
      assert r == base + [c];
      assert r[|base|] == c;
      forall i, j | 0 <= i < j < |r|
        ensures r[i] != r[j]
      {
        if j == |base| {
          assert r[i] == base[i];
          assert base[i] in base;
        } else {
          assert r[i] == base[i] && r[j] == base[j];
        }
      }
    }
  }

  /** A car in a segment's list is on that segment. */
  lemma ListedCarIsHere(w: World, x: SegId, c: CarId)
    requires CarsListed(w) && x in w.lists && c in w.lists[x]
    ensures c in w.cars && w.cars[c].segment == Some(x)
  {
    var i :| 0 <= i < |w.lists[x]| && w.lists[x][i] == c;
  }

  /** One segment's list after the setter: it holds the car exactly when
      it is the new segment, has no repeat, and lists only its own cars. */
  lemma ListAfterSetCurrent(w: World, c: CarId, s: Option<SegId>, x: SegId)
    requires c in w.cars
    requires CarsClosed(w) && CarsListed(w)
    requires s.Some? ==> s.value in w.segs
    requires x in w.lists
    ensures var r := SetCurrentSegment(w, c, s);
            && (c in r.lists[x] <==> s == Some(x))
            && Distinct(r.lists[x])
            && (forall i :: 0 <= i < |r.lists[x]| ==> r.lists[x][i] in r.cars && r.cars[r.lists[x][i]].segment == Some(x))
  {
    var r := SetCurrentSegment(w, c, s);
    var xs := w.lists[x];
    var wasHere := w.cars[c].segment == Some(x);
    assert Distinct(xs);
    if c in xs {
      ListedCarIsHere(w, x, c);
    }
    ListAfterMoveFacts(xs, c, wasHere, s == Some(x));
    var ys := r.lists[x];
    assert ys == ListAfterMove(xs, c, wasHere, s == Some(x));
    forall i | 0 <= i < |ys|
      ensures ys[i] in r.cars && r.cars[ys[i]].segment == Some(x)
    {
      assert ys[i] in ys;
      if ys[i] != c {
        assert ys[i] in xs;
        var k :| 0 <= k < |xs| && xs[k] == ys[i];
        assert w.cars[xs[k]].segment == Some(x);
      }
    }
  }

  /** The car map after `DetachFromTrack` of car `c` with neighbours `n`
      and `p`: `n.PrevCar = p`, then `p.NextCar = n`, then the car's own
      segment and links are cleared. */
  function SpliceOut(cars: map<CarId, CarState>, c: CarId): (r: map<CarId, CarState>)
    requires c in cars
    requires cars[c].nextCar.Some? ==> cars[c].nextCar.value in cars
    requires cars[c].prevCar.Some? ==> cars[c].prevCar.value in cars
    ensures r.Keys == cars.Keys
  {
    var n, p := cars[c].nextCar, cars[c].prevCar;
    var m1 := if n.None? then cars else cars[n.value := cars[n.value].(prevCar := p)];
    var m2 := if p.None? then m1 else m1[p.value := m1[p.value].(nextCar := n)];
    m2[c := m2[c].(segment := None, nextCar := None, prevCar := None)]
  }

  /** `DetachFromTrack`: a car on a track leaves its segment, its
      neighbours are linked to each other and its own links are cleared. A
      car off the track is left alone. */
  function DetachFromTrack(w: World, c: CarId): (r: World)
    requires c in w.cars
    requires CarsClosed(w)
    ensures ListsAndCarsOnly(w, r)
    ensures w.cars[c].segment.None? ==> r == w
    ensures w.cars[c].segment.Some? ==>
              r.lists == MoveCar(w.lists, c, w.cars[c].segment, None) && r.cars == SpliceOut(w.cars, c)
  {
    if w.cars[c].segment.None? then w
    else w.(lists := MoveCar(w.lists, c, w.cars[c].segment, None), cars := SpliceOut(w.cars, c))
  }

  /** Splicing out: the old neighbours now point at each other, the car's
      own segment and links are cleared, and no car other than the three
      is touched. */
  lemma SpliceOutLinks(cars: map<CarId, CarState>, c: CarId)
    requires c in cars
    requires cars[c].nextCar.Some? ==> cars[c].nextCar.value in cars
    requires cars[c].prevCar.Some? ==> cars[c].prevCar.value in cars
    ensures var r := SpliceOut(cars, c);
            var n, p := cars[c].nextCar, cars[c].prevCar;
            && r[c] == cars[c].(segment := None, nextCar := None, prevCar := None)
            && (n.Some? && n.value != c ==> r[n.value].prevCar == p)
            && (p.Some? && p.value != c ==> r[p.value].nextCar == n)
            && (forall d :: d in cars && d != c ==> r[d].segment == cars[d].segment && r[d].progress == cars[d].progress)
            && (forall d :: d in cars && Some(d) != n && Some(d) != p && d != c ==> r[d] == cars[d])
  {
  }

  /** Splicing out changes no car's segment but the spliced car's. */
  lemma SpliceOutSegments(cars: map<CarId, CarState>, c: CarId)
    requires c in cars
    requires cars[c].nextCar.Some? ==> cars[c].nextCar.value in cars
    requires cars[c].prevCar.Some? ==> cars[c].prevCar.value in cars
    ensures forall d :: d in cars ==> SpliceOut(cars, c)[d].segment == (if d == c then None else cars[d].segment)
  {
  }

  /** Detaching keeps every reference closed. */
  lemma DetachKeepsClosed(w: World, c: CarId)
    requires c in w.cars && CarsClosed(w)
    ensures CarsClosed(DetachFromTrack(w, c))
    ensures forall d :: d in w.cars ==> DetachFromTrack(w, c).cars[d].segment == (if d == c then None else w.cars[d].segment)
  {
    if w.cars[c].segment.Some? {
      var r := DetachFromTrack(w, c);
      SpliceOutLinks(w.cars, c);
      SpliceOutClosed(w, c);
      DetachShrinksLists(w, c);
      forall x, i | x in r.lists && 0 <= i < |r.lists[x]|
        ensures r.lists[x][i] in r.cars
      {
        assert r.lists[x][i] in multiset(r.lists[x]);
        assert r.lists[x][i] in multiset(w.lists[x]);
      }
    }
  }

  /** The spliced car map refers only to cars and segments it did before. */
  lemma SpliceOutClosed(w: World, c: CarId)
    requires c in w.cars && CarsClosed(w)
    ensures CarLinksClosed(w.segs.Keys, SpliceOut(w.cars, c))
  {
    var cars := w.cars;
    var r := SpliceOut(cars, c);
    forall d | d in r
      ensures CarClosed(w.segs.Keys, r, r[d])
    {
      assert CarClosed(w.segs.Keys, cars, cars[d]);
      assert CarClosed(w.segs.Keys, cars, cars[c]);
    }
  }

  /** The listing invariant reads only the car lists and the cars'
      segments. */
  lemma ListingReadsSegmentsOnly(lists: map<SegId, seq<CarId>>, a: map<CarId, CarState>, b: map<CarId, CarState>)
    requires Listed(lists, a)
    requires b.Keys == a.Keys
    requires forall d :: d in a ==> b[d].segment == a[d].segment
    ensures Listed(lists, b)
  {
  }

  /** Detaching keeps the listing invariant. */
  lemma DetachKeepsListing(w: World, c: CarId)
    requires c in w.cars && CarsClosed(w) && CarsListed(w)
    ensures CarsListed(DetachFromTrack(w, c))
  {
    if w.cars[c].segment.Some? {
      var w1 := SetCurrentSegment(w, c, None);
      SetCurrentKeepsListing(w, c, None);
      SpliceOutSegments(w.cars, c);
      ListingReadsSegmentsOnly(w1.lists, w1.cars, DetachFromTrack(w, c).cars);
    }
  }

  /** ... and takes the car out of its segment's list. */
  lemma DetachRemovesFromList(w: World, c: CarId)
    requires c in w.cars && CarsClosed(w)
    requires w.cars[c].segment.Some?
    ensures DetachFromTrack(w, c).lists[w.cars[c].segment.value] == RemoveFirst(w.lists[w.cars[c].segment.value], c)
  {
  }

  /** Exactly the cars `cs` went off the track; no other car's segment
      changed. */
  predicate Detached(was: map<CarId, CarState>, now: map<CarId, CarState>, cs: seq<CarId>)
    requires now.Keys == was.Keys
  {
    forall d :: d in was ==> now[d].segment == (if d in cs then None else was[d].segment)
  }

  /** No car list gained a car. */
  predicate ListsShrink(was: map<SegId, seq<CarId>>, now: map<SegId, seq<CarId>>)
    requires now.Keys == was.Keys
  {
    forall x :: x in was ==> multiset(now[x]) <= multiset(was[x])
  }

  /** Detaching only takes cars out of lists. */
  lemma DetachShrinksLists(w: World, c: CarId)
    requires c in w.cars && CarsClosed(w)
    ensures ListsShrink(w.lists, DetachFromTrack(w, c).lists)
  {
    if w.cars[c].segment.Some? {
      forall x | x in w.lists
        ensures multiset(DetachFromTrack(w, c).lists[x]) <= multiset(w.lists[x])
      {
        assert DetachFromTrack(w, c).lists[x] == ListAfterMove(w.lists[x], c, w.cars[c].segment == Some(x), false);
      }
    }
  }

  /** Detaching the given cars one after another (`_cars.ToArray()` is
      taken before the loop). */
  function DetachAll(w: World, cs: seq<CarId>): (r: World)
    requires CarsClosed(w)
    requires forall i :: 0 <= i < |cs| ==> cs[i] in w.cars
    ensures ListsAndCarsOnly(w, r) && CarsClosed(r)
    ensures Detached(w.cars, r.cars, cs) && ListsShrink(w.lists, r.lists)
    decreases |cs|
  {
    if |cs| == 0 then w
    else
      var w1 := DetachFromTrack(w, cs[0]);
      DetachKeepsClosed(w, cs[0]);
      DetachShrinksLists(w, cs[0]);
      DetachAll(w1, cs[1..])
  }

  /** Detaching every car of a segment's list empties that list and keeps
      the listing invariant. */
  lemma {:induction false} DetachAllEmpties(w: World, s: SegId, cs: seq<CarId>)
    requires CarsClosed(w) && CarsListed(w)
    requires s in w.lists && w.lists[s] == cs
    ensures DetachAll(w, cs).lists[s] == []
    ensures CarsListed(DetachAll(w, cs))
    decreases |cs|
  {
    if |cs| > 0 {
      var c := cs[0];
      assert w.cars[c].segment == Some(s);
      var w1 := DetachFromTrack(w, c);
      DetachKeepsClosed(w, c);
      DetachKeepsListing(w, c);
      DetachRemovesFromList(w, c);
      assert cs == [c] + cs[1..];
      assert w1.lists[s] == cs[1..];
      DetachAllEmpties(w1, s, cs[1..]);
    }
  }
}
