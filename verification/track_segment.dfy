/** `TrackSegment`'s link logic on the whole world: the `Next` setter with
    its car detaching and mesh invalidation, the lazily resolved `Next`
    getter, the unique id registry, `OnDestroy`, `CreateFromEnd` and the
    car searches along the chain.

    A segment's curve follows the segment's `Next` (`_curve.Next =
    value?._curve`), so one `next` field stands for both links here. */
module TrackSegments {
  import opened Base
  import opened Selection
  import opened TrackWorld
  import opened SegmentLinks

  /** Every segment and car reference points at something that exists. */
  predicate Closed(w: World) {
    LinksClosed(w) && CarsClosed(w)
  }

  /** The segments' saved data, the registry and the id counter are
      untouched, and no segment or car appears or disappears. */
  predicate SegmentsKept(w: World, r: World) {
    && r.segs == w.segs
    && r.registry == w.registry
    && r.nextUniqueId == w.nextUniqueId
    && r.links.Keys == w.links.Keys
    && r.lists.Keys == w.lists.Keys
    && r.flags.Keys == w.flags.Keys
    && r.cars.Keys == w.cars.Keys
  }

  /** Cars only leave the track: a car keeps its segment or has none. */
  predicate OnlyDetaches(was: map<CarId, CarState>, now: map<CarId, CarState>)
    requires now.Keys == was.Keys
  {
    forall d :: d in was ==> now[d].segment == was[d].segment || now[d].segment.None?
  }

  /** `if (_next != null) _next.Prev = null`. */
  function ReleaseNext(w: World, a: SegId): (r: World)
    requires a in w.segs && Closed(w)
    ensures SegmentsKept(w, r) && Closed(r)
    ensures r.links == Release(w.links, a)
    ensures r.flags == w.flags && r.lists == w.lists && r.cars == w.cars
  {
    StoresClosed(w.links, a, None);
    w.(links := Release(w.links, a))
  }

  /** `foreach (var car in _cars.ToArray()) car.DetachFromTrack()`. */
  function DetachCars(w: World, a: SegId): (r: World)
    requires a in w.segs && Closed(w)
    ensures SegmentsKept(w, r) && Closed(r)
    ensures r.links == w.links && r.flags == w.flags
    ensures Detached(w.cars, r.cars, w.lists[a]) && ListsShrink(w.lists, r.lists)
  {
    DetachAll(w, w.lists[a])
  }

  /** `_next = value`. */
  function StoreNext(w: World, a: SegId, value: Option<SegId>): (r: World)
    requires a in w.segs && Closed(w)
    requires value.Some? ==> value.value in w.segs
    ensures SegmentsKept(w, r) && Closed(r)
    ensures r.links == WithNext(w.links, a, value)
    ensures r.flags == w.flags && r.lists == w.lists && r.cars == w.cars
  {
    StoresClosed(w.links, a, value);
    w.(links := WithNext(w.links, a, value))
  }

  /** The first three steps of `a.Next = value`: `a`'s old successor
      loses its `Prev`, every car on `a` is detached, and `a` stores the
      new successor. */
  function Relink(w: World, a: SegId, value: Option<SegId>): (r: World)
    requires a in w.segs && Closed(w)
    requires value.Some? ==> value.value in w.segs
    ensures SegmentsKept(w, r) && Closed(r) && r.flags == w.flags
    ensures r.links == WithNext(Release(w.links, a), a, value)
    ensures Detached(w.cars, r.cars, w.lists[a]) && ListsShrink(w.lists, r.lists)
  {
    StoreNext(DetachCars(ReleaseNext(w, a), a), a, value)
  }

  /** Under the listing invariant the first steps keep it and leave `a`
      with no cars. */
  lemma RelinkListed(w: World, a: SegId, value: Option<SegId>)
    requires a in w.segs && Closed(w) && CarsListed(w)
    requires value.Some? ==> value.value in w.segs
    ensures CarsListed(Relink(w, a, value)) && Relink(w, a, value).lists[a] == []
  {
    var w1 := ReleaseNext(w, a);
    DetachAllEmpties(w1, a, w1.lists[a]);
  }

  /** The last step of the setter: `InvalidateTrackMesh()` on `a` and
      `Prev?.InvalidateTrackMesh()`. */
  function InvalidateAround(w: World, a: SegId): (r: World)
    requires a in w.segs && LinksClosed(w)
    ensures FlagsOnly(w, r)
    ensures r.flags[a].trackInvalid
  {
    var w1 := InvalidateTrackMesh(w, a);
    InvalidateIf(w1, w1.links[a].prev)
  }

  /** The `Next` setter on segment `a`. Nothing happens when `value` is
      already `a`'s `_next`. Otherwise `a`'s old successor loses its
      `Prev`, every car on `a` is detached, `a` stores `value`, and when
      `value` is a segment `b`: `b`'s old predecessor gets `Next = null`
      (the setter calling itself), `b.Prev` becomes `a` and `b`'s mesh is
      invalidated. Finally `a`'s and its predecessor's meshes are
      invalidated. */
  function SetNext(w: World, a: SegId, value: Option<SegId>): (r: World)
    requires a in w.segs && Closed(w)
    requires value.Some? ==> value.value in w.segs
    ensures SegmentsKept(w, r) && Closed(r)
    ensures ListsShrink(w.lists, r.lists) && OnlyDetaches(w.cars, r.cars)
    ensures w.links[a].next == value ==> r == w
    ensures w.links[a].next != value ==> Effect(w, a, value, r)
    ensures value.None? ==> r.links == AfterSetNext(w.links, a, None)
    decreases value.Some?, 4
  {
    if w.links[a].next == value then
      ClearNextSteps(w.links, a);
      w
    else
      RestructureDetaches(w, a, value);
      Changed(w, a, value)
  }

  /** What the setter does to `a` when `value` is new: `a`'s and its
      predecessor's meshes are invalidated, every car that was on `a` is
      off the track, and for a segment `value` the links are those of the
      setter's steps. */
  predicate Effect(w: World, a: SegId, value: Option<SegId>, r: World)
    requires a in w.segs && Closed(w)
    requires value.Some? ==> value.value in w.segs
    requires SegmentsKept(w, r)
  {
    && r.flags[a].trackInvalid
    && (forall d :: d in w.lists[a] ==> d in r.cars && r.cars[d].segment.None?)
    && (value.Some? ==> r.links == SetNextSteps(w.links, a, value.value))
  }

  /** The setter when `value` is not already `a`'s successor. */
  function Changed(w: World, a: SegId, value: Option<SegId>): (r: World)
    requires a in w.segs && Closed(w)
    requires value.Some? ==> value.value in w.segs
    ensures FlagsOnly(Restructure(w, a, value), r)
    ensures a in r.flags && r.flags[a].trackInvalid
    decreases value.Some?, 3
  {
    InvalidateAround(Restructure(w, a, value), a)
  }

  /** Everything the setter does before its final invalidation. */
  function Restructure(w: World, a: SegId, value: Option<SegId>): (r: World)
    requires a in w.segs && Closed(w)
    requires value.Some? ==> value.value in w.segs
    ensures SegmentsKept(w, r) && Closed(r)
    ensures ListsShrink(w.lists, r.lists) && OnlyDetaches(w.cars, r.cars)
    ensures value.None? ==> r.links == AfterSetNext(w.links, a, None)
    ensures value.Some? ==> r.links == SetNextSteps(w.links, a, value.value)
    decreases value.Some?, 2
  {
    var w3 := Relink(w, a, value);
    var w5 := Attach(w3, a, value);
    ClearNextSteps(w.links, a);
    DetachedThenOnly(w.cars, w3.cars, w5.cars, w.lists[a]);
    ShrinkTransitive(w.lists, w3.lists, w5.lists);
    w5
  }

  /** The cars that were on `a` are off the track afterwards. */
  lemma RestructureDetaches(w: World, a: SegId, value: Option<SegId>)
    requires a in w.segs && Closed(w)
    requires value.Some? ==> value.value in w.segs
    ensures forall d :: d in w.lists[a] ==> d in w.cars && Restructure(w, a, value).cars[d].segment.None?
    decreases value.Some?, 3
  {
    var w3 := Relink(w, a, value);
    DetachedThenOnly(w.cars, w3.cars, Attach(w3, a, value).cars, w.lists[a]);
  }

  /** `if (value != null) { ... }` of the setter. */
  function Attach(w: World, a: SegId, value: Option<SegId>): (r: World)
    requires a in w.segs && Closed(w)
    requires value.Some? ==> value.value in w.segs
    ensures SegmentsKept(w, r) && Closed(r)
    ensures ListsShrink(w.lists, r.lists) && OnlyDetaches(w.cars, r.cars)
    ensures value.None? ==> r == w
    ensures value.Some? ==> r.links == Adopted(w.links, a, value.value)
    decreases value.Some?, 1
  {
    if value.None? then w else Adopt(w, a, value.value)
  }

  /** Cars the first steps detached stay detached. */
  lemma DetachedThenOnly(u: map<CarId, CarState>, v: map<CarId, CarState>, w: map<CarId, CarState>, cs: seq<CarId>)
    requires v.Keys == u.Keys && w.Keys == u.Keys
    requires Detached(u, v, cs) && OnlyDetaches(v, w)
    ensures OnlyDetaches(u, w)
    ensures forall d :: d in cs && d in u ==> w[d].segment.None?
  {
  }

  lemma ShrinkTransitive(u: map<SegId, seq<CarId>>, v: map<SegId, seq<CarId>>, w: map<SegId, seq<CarId>>)
    requires v.Keys == u.Keys && w.Keys == u.Keys
    requires ListsShrink(u, v) && ListsShrink(v, w)
    ensures ListsShrink(u, w)
  {
  }

  /** `value.Prev.Next = null` when `value` has a predecessor, then
      `value.Prev = this` and `value.InvalidateTrackMesh()`. */
  function Adopt(w: World, a: SegId, b: SegId): (r: World)
    requires a in w.segs && b in w.segs && Closed(w)
    ensures SegmentsKept(w, r) && Closed(r)
    ensures ListsShrink(w.lists, r.lists) && OnlyDetaches(w.cars, r.cars)
    ensures r.links == Adopted(w.links, a, b)
    decreases true, 0, 1
  {
    ShrinkTransitive(w.lists, ClearPredecessor(w, b).lists, TakePrev(ClearPredecessor(w, b), a, b).lists);
    TakePrev(ClearPredecessor(w, b), a, b)
  }

  /** `if (value.Prev != null) value.Prev.Next = null`. */
  function ClearPredecessor(w: World, b: SegId): (r: World)
    requires b in w.segs && Closed(w)
    ensures SegmentsKept(w, r) && Closed(r)
    ensures ListsShrink(w.lists, r.lists) && OnlyDetaches(w.cars, r.cars)
    ensures r.links == (var p := w.links[b].prev;
                        if p.None? || p.value !in w.links then w.links else AfterSetNext(w.links, p.value, None))
    decreases true, 0, 0
  {
    var p := w.links[b].prev;
    if p.None? then w else SetNext(w, p.value, None)
  }

  /** `value.Prev = this; value.InvalidateTrackMesh()`. */
  function TakePrev(w: World, a: SegId, b: SegId): (r: World)
    requires a in w.segs && b in w.segs && Closed(w)
    ensures SegmentsKept(w, r) && Closed(r)
    ensures r.links == WithPrev(w.links, b, Some(a))
    ensures r.lists == w.lists && r.cars == w.cars
  {
    StoresClosed(w.links, b, Some(a));
    var w1 := w.(links := WithPrev(w.links, b, Some(a)));
    InvalidateTrackMesh(w1, b)
  }

  /** On a consistent list the setter's links are the closed form
      `AfterSetNext`, and the list stays consistent. */
  lemma SetNextLinks(w: World, a: SegId, value: Option<SegId>)
    requires a in w.segs && Closed(w) && LinksAgree(w)
    requires value.Some? ==> value.value in w.segs
    ensures SetNext(w, a, value).links == AfterSetNext(w.links, a, value)
    ensures WellLinked(SetNext(w, a, value))
  {
    if w.links[a].next == value {
      AfterSetNextSame(w.links, a);
    } else if value.Some? {
      SetNextStepsCorrect(w.links, a, value.value);
    }
    AfterSetNextAgrees(w.links, a, value);
  }

  /** The setter keeps the listing invariant; when it changes anything,
      `a` is left with no cars. */
  lemma SetNextListed(w: World, a: SegId, value: Option<SegId>)
    requires a in w.segs && Closed(w) && CarsListed(w)
    requires value.Some? ==> value.value in w.segs
    ensures CarsListed(SetNext(w, a, value))
    ensures w.links[a].next != value ==> SetNext(w, a, value).lists[a] == []
    decreases value.Some?, 1
  {
    if w.links[a].next != value {
      var w3 := Relink(w, a, value);
      RelinkListed(w, a, value);
      var w5 := Attach(w3, a, value);
      if value.Some? {
        AdoptListed(w3, a, value.value);
      }
      EmptyStaysEmpty(w3.lists, w5.lists, a);
    }
  }

  lemma AdoptListed(w: World, a: SegId, b: SegId)
    requires a in w.segs && b in w.segs && Closed(w) && CarsListed(w)
    ensures CarsListed(Adopt(w, a, b))
    decreases true, 0
  {
    var p := w.links[b].prev;
    if p.Some? {
      SetNextListed(w, p.value, None);
    }
  }

  lemma EmptyStaysEmpty(u: map<SegId, seq<CarId>>, v: map<SegId, seq<CarId>>, a: SegId)
    requires v.Keys == u.Keys && a in u && u[a] == []
    requires ListsShrink(u, v)
    ensures v[a] == []
  {
    assert |multiset(v[a])| == 0;
  }
}
