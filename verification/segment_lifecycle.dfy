/** The segment operations built on the `Next` setter: the lazily assigned
    `UniqueId` and its registry, the lazily resolved `Next` getter, the
    `Type` setter, `UpdateTransform`, `OnDestroy` and `CreateFromEnd`. */
module SegmentLifecycle {
  import opened Base
  import opened TrackWorld
  import opened SegmentLinks
  import opened TrackSegments

  /** `Dictionary.Add` throws on a key that is already present. */
  datatype SegmentError = DuplicateKey(id: int)

  const Int32Max: int := 0x7FFF_FFFF
  const Int32Min: int := -0x8000_0000

  /** `x + 1` on a C# `int`, which wraps past `int.MaxValue`. */
  function Int32Increment(x: int): (r: int)
    requires Int32Min <= x <= Int32Max
    ensures Int32Min <= r <= Int32Max
    ensures x < Int32Max ==> r == x + 1
    ensures x == Int32Max ==> r == Int32Min
  {
    if x == Int32Max then Int32Min else x + 1
  }

  /** Every registered id names a segment. */
  predicate RegistryClosed(w: World) {
    forall id :: id in w.registry ==> w.registry[id] in w.segs
  }

  /** The counter is a C# `int` and every registered id is below it, so
      the next id handed out is free. */
  predicate RegistryBelow(w: World) {
    && Int32Min <= w.nextUniqueId <= Int32Max
    && (forall id :: id in w.registry ==> id < w.nextUniqueId)
  }

  /** A segment with an id is the registry's entry for that id. */
  predicate IdsRegistered(w: World) {
    forall s :: s in w.segs && w.segs[s].uniqueId != -1 ==>
      w.segs[s].uniqueId in w.registry && w.registry[w.segs[s].uniqueId] == s
  }

  // ---------------------------------------------------------------- UniqueId

  /** The `UniqueId` getter: an assigned id is returned as it is;
      otherwise the counter's value becomes the id, the counter moves on
      and the segment is registered under the id, which throws when the id
      is taken. */
  function UniqueId(w: World, s: SegId): (r: Result<(World, int), SegmentError>)
    requires s in w.segs
    requires Int32Min <= w.nextUniqueId <= Int32Max
    ensures w.segs[s].uniqueId != -1 ==> r == Ok((w, w.segs[s].uniqueId))
    ensures w.segs[s].uniqueId == -1 ==> (r.Err? <==> w.nextUniqueId in w.registry)
    ensures r.Ok? ==> SameButIds(w, r.value.0) && r.value.0.segs[s].uniqueId == r.value.1
    ensures w.segs[s].uniqueId == -1 && r.Ok? ==>
              && r.value.1 == w.nextUniqueId
              && r.value.0.registry.Keys == w.registry.Keys + {r.value.1}
              && r.value.0.registry[r.value.1] == s
    ensures r.Ok? ==> Int32Min <= r.value.0.nextUniqueId <= Int32Max
  {
    var id := w.segs[s].uniqueId;
    if id != -1 then Ok((w, id))
    else
      var given := w.nextUniqueId;
      if given in w.registry then Err(DuplicateKey(given)) else Ok((Assign(w, s, given), given))
  }

  /** `_uniqueId = _nextUniqueId++; _segments.Add(_uniqueId, this)` once
      the id is known to be free. */
  function Assign(w: World, s: SegId, given: int): (r: World)
    requires s in w.segs && Int32Min <= given <= Int32Max && given !in w.registry
    ensures SameButIds(w, r) && r.segs[s].uniqueId == given
    ensures r.registry.Keys == w.registry.Keys + {given} && r.registry[given] == s
    ensures r.nextUniqueId == Int32Increment(given)
  {
    w.(segs := w.segs[s := w.segs[s].(uniqueId := given)],
       nextUniqueId := Int32Increment(given),
       registry := w.registry[given := s])
  }

  /** Links, cars, flags and every segment field other than the id are
      the same, and no registered id changes its segment. */
  predicate SameButIds(w: World, r: World) {
    && r.segs.Keys == w.segs.Keys
    && (forall x :: x in w.segs ==> r.segs[x] == w.segs[x].(uniqueId := r.segs[x].uniqueId))
    && r.links == w.links && r.lists == w.lists && r.flags == w.flags && r.cars == w.cars
    && (forall id :: id in w.registry ==> id in r.registry && r.registry[id] == w.registry[id])
  }

  /** Asking again returns the same id and changes nothing, unless the
      counter had wrapped round to -1, the value that means "no id". */
  lemma UniqueIdStable(w: World, s: SegId)
    requires s in w.segs && Int32Min <= w.nextUniqueId <= Int32Max
    requires UniqueId(w, s).Ok? && w.nextUniqueId != -1
    ensures UniqueId(UniqueId(w, s).value.0, s) == UniqueId(w, s)
  {
  }

  /** While the counter stays below `int.MaxValue` the registry invariants
      hold on: the getter never throws, the new id is free, every segment
      with an id is the registry's entry for it, and the counter stays
      above every id. */
  lemma UniqueIdKeepsRegistry(w: World, s: SegId)
    requires s in w.segs && RegistryBelow(w) && RegistryClosed(w) && IdsRegistered(w)
    ensures UniqueId(w, s).Ok?
    ensures RegistryClosed(UniqueId(w, s).value.0) && IdsRegistered(UniqueId(w, s).value.0)
    ensures w.nextUniqueId < Int32Max ==> RegistryBelow(UniqueId(w, s).value.0)
  {
    if w.segs[s].uniqueId == -1 {
      var r := UniqueId(w, s).value.0;
      var given := w.nextUniqueId;
      forall x | x in r.segs && r.segs[x].uniqueId != -1
        ensures r.segs[x].uniqueId in r.registry && r.registry[r.segs[x].uniqueId] == x
      {
        if x != s {
          assert w.segs[x].uniqueId in w.registry;
        }
      }
    }
  }

  /** Assigning an id changes no link, car or list, and registers the
      segment itself, so references and the registry stay closed. */
  lemma UniqueIdKeepsClosed(w: World, s: SegId)
    requires s in w.segs && Closed(w) && Int32Min <= w.nextUniqueId <= Int32Max
    requires UniqueId(w, s).Ok?
    ensures Closed(UniqueId(w, s).value.0)
    ensures RegistryClosed(w) ==> RegistryClosed(UniqueId(w, s).value.0)
  {
  }

  /** Past `int.MaxValue` the counter wraps to `int.MinValue`, so "every
      id is below the counter" no longer holds. */
  lemma UniqueIdCounterWraps(w: World, s: SegId)
    requires s in w.segs && RegistryBelow(w) && w.segs[s].uniqueId == -1
    requires w.nextUniqueId == Int32Max
    ensures UniqueId(w, s).Ok? && !RegistryBelow(UniqueId(w, s).value.0)
  {
    var r := UniqueId(w, s).value.0;
    assert Int32Max in r.registry;
  }

  // ------------------------------------------------------------ Next getter

  /** `_nextId = -1`. */
  function ConsumeNextId(w: World, a: SegId): (r: World)
    requires a in w.segs && Closed(w)
    ensures r.segs == w.segs[a := w.segs[a].(nextId := -1)]
    ensures r.links == w.links && r.lists == w.lists && r.flags == w.flags && r.cars == w.cars
    ensures r.registry == w.registry && r.nextUniqueId == w.nextUniqueId
    ensures Closed(r)
  {
    w.(segs := w.segs[a := w.segs[a].(nextId := -1)])
  }

  /** `if (_sSegments.TryGetValue(_nextId, out next)) Next = next`. */
  function LinkPending(w: World, a: SegId): (r: World)
    requires a in w.segs && Closed(w) && RegistryClosed(w)
    ensures SegmentsKept(w, r) && Closed(r)
    ensures w.segs[a].nextId !in w.registry ==> r == w
    ensures w.segs[a].nextId in w.registry ==> r == SetNext(w, a, Some(w.registry[w.segs[a].nextId]))
  {
    var id := w.segs[a].nextId;
    if id in w.registry then SetNext(w, a, Some(w.registry[id])) else w
  }

  /** The `Next` getter: a segment loaded with a successor id looks the id
      up in the registry on first use, links to that segment through the
      setter when it is registered, and forgets the id either way. The
      result is the successor afterwards. */
  function GetNext(w: World, a: SegId): (r: (World, Option<SegId>))
    requires a in w.segs && Closed(w) && RegistryClosed(w)
    ensures r.0.segs == w.segs[a := w.segs[a].(nextId := -1)]
    ensures r.0.registry == w.registry && r.0.nextUniqueId == w.nextUniqueId
    ensures r.0.links.Keys == w.links.Keys && r.0.lists.Keys == w.lists.Keys
    ensures r.0.flags.Keys == w.flags.Keys && r.0.cars.Keys == w.cars.Keys
    ensures Closed(r.0) && RegistryClosed(r.0)
    ensures r.1 == r.0.links[a].next
    ensures w.segs[a].nextId == -1 ==> r == (w, w.links[a].next)
    ensures w.segs[a].nextId !in w.registry ==> r.0.links == w.links
  {
    if w.segs[a].nextId == -1 then (w, w.links[a].next)
    else
      var w2 := ConsumeNextId(LinkPending(w, a), a);
      (w2, w2.links[a].next)
  }

  /** On a consistent list a registered pending id becomes the successor
      exactly as the setter would link it, and the list stays
      consistent. */
  lemma GetNextLinks(w: World, a: SegId)
    requires a in w.segs && WellLinked(w) && CarsClosed(w) && RegistryClosed(w)
    ensures WellLinked(GetNext(w, a).0)
    ensures var id := w.segs[a].nextId;
            id != -1 && id in w.registry ==>
              && GetNext(w, a).0.links == AfterSetNext(w.links, a, Some(w.registry[id]))
              && GetNext(w, a).1 == Some(w.registry[id])
  {
    var id := w.segs[a].nextId;
    if id != -1 && id in w.registry {
      SetNextLinks(w, a, Some(w.registry[id]));
      AfterSetNextFrame(w.links, a, Some(w.registry[id]));
    }
  }

  /** The getter resolves at most once: reading `Next` again changes
      nothing and gives the same segment. */
  lemma GetNextIdempotent(w: World, a: SegId)
    requires a in w.segs && Closed(w) && RegistryClosed(w)
    ensures GetNext(GetNext(w, a).0, a) == GetNext(w, a)
  {
  }

  // ------------------------------------------------------------ Type setter

  /** The `Type` setter: a new track type is stored and the mesh is
      invalidated; storing the current type does nothing. */
  function SetTrackType(w: World, s: SegId, t: byte): (r: World)
    requires s in w.segs && Shaped(w)
    ensures r.segs.Keys == w.segs.Keys && r.segs[s].trackType == t
    ensures forall x :: x in w.segs ==> r.segs[x] == w.segs[x].(trackType := r.segs[x].trackType)
    ensures forall x :: x in w.segs && x != s ==> r.segs[x] == w.segs[x]
    ensures r.links == w.links && r.lists == w.lists && r.cars == w.cars && r.flags.Keys == w.flags.Keys
    ensures w.segs[s].trackType == t ==> r == w
    ensures w.segs[s].trackType != t ==> r.flags[s].trackInvalid
    ensures forall x :: x in w.flags && x != s ==> r.flags[x] == w.flags[x]
  {
    if w.segs[s].trackType == t then w
    else InvalidateTrackMesh(w.(segs := w.segs[s := w.segs[s].(trackType := t)]), s)
  }

  /** Setting the same type twice is setting it once. */
  lemma SetTrackTypeIdempotent(w: World, s: SegId, t: byte)
    requires s in w.segs && Shaped(w)
    ensures SetTrackType(SetTrackType(w, s, t), s, t) == SetTrackType(w, s, t)
  {
  }

  // -------------------------------------------------------- UpdateTransform

  /** `_transformInvalid = false`. */
  function MarkTransformed(w: World, s: SegId): (r: World)
    requires s in w.segs && Closed(w)
    ensures FlagsOnly(w, r) && Closed(r)
    ensures r.flags[s] == w.flags[s].(transformInvalid := false)
    ensures forall x :: x in w.flags && x != s ==> r.flags[x] == w.flags[x]
  {
    w.(flags := w.flags[s := w.flags[s].(transformInvalid := false)])
  }

  /** `UpdateTransform`: force the id, clear the transform flag, and
      invalidate the meshes of the segment and its predecessor. */
  function UpdateTransform(w: World, s: SegId): (r: Result<World, SegmentError>)
    requires s in w.segs && Closed(w)
    requires Int32Min <= w.nextUniqueId <= Int32Max
    ensures r.Ok? <==> UniqueId(w, s).Ok?
    ensures r.Ok? ==> var u := r.value;
              && u.segs.Keys == w.segs.Keys && u.segs[s].uniqueId == UniqueId(w, s).value.1
              && u.links == w.links && u.lists == w.lists && u.cars == w.cars
              && (forall x :: x in w.segs ==> u.segs[x] == w.segs[x].(uniqueId := u.segs[x].uniqueId))
              && Closed(u)
              && u.flags[s] == Flags(true, false)
              && (w.links[s].prev.Some? ==> var p := w.links[s].prev.value;
                    u.flags[p].trackInvalid)
              && Int32Min <= u.nextUniqueId <= Int32Max
  {
    match UniqueId(w, s)
    case Err(e) => Err(e)
    case Ok((w1, _)) =>
      var w2 := MarkTransformed(w1, s);
      Ok(InvalidateAround(w2, s))
  }

  /** `UpdateTransform` keeps the registry invariants and, on a consistent
      list, changes no link. */
  lemma UpdateTransformKeepsRegistry(w: World, s: SegId)
    requires s in w.segs && Closed(w)
    requires RegistryBelow(w) && RegistryClosed(w) && IdsRegistered(w) && w.nextUniqueId < Int32Max
    ensures UpdateTransform(w, s).Ok?
    ensures var u := UpdateTransform(w, s).value;
            RegistryBelow(u) && RegistryClosed(u) && IdsRegistered(u) && u.segs.Keys == w.segs.Keys
  {
    UniqueIdKeepsRegistry(w, s);
  }

  // ---------------------------------------------------------------- OnDestroy

  /** `if (Prev != null) Prev.Next = null`. */
  function CutPrev(w: World, a: SegId): (r: World)
    requires a in w.segs && Closed(w)
    ensures SegmentsKept(w, r) && Closed(r)
    ensures w.links[a].prev.None? ==> r == w
    ensures w.links[a].prev.Some? ==> r == SetNext(w, w.links[a].prev.value, None)
  {
    var p := w.links[a].prev;
    if p.None? then w else SetNext(w, p.value, None)
  }

  /** `_sSegments.Remove(_uniqueId)` unless the segment never had an id. */
  function Unregister(w: World, a: SegId): (r: World)
    requires a in w.segs
    ensures r.registry == if w.segs[a].uniqueId == -1 then w.registry else w.registry - {w.segs[a].uniqueId}
    ensures r.segs == w.segs && r.links == w.links && r.lists == w.lists
    ensures r.flags == w.flags && r.cars == w.cars && r.nextUniqueId == w.nextUniqueId
  {
    var id := w.segs[a].uniqueId;
    if id == -1 then w else w.(registry := w.registry - {id})
  }

  /** `OnDestroy`: the segment lets go of its successor, then its
      predecessor lets go of it, then its id leaves the registry. The
      segment's own record stays in the maps, unlinked. */
  function OnDestroy(w: World, a: SegId): (r: World)
    requires a in w.segs && Closed(w)
    ensures Closed(r) && r.segs == w.segs && r.nextUniqueId == w.nextUniqueId
    ensures r.registry == if w.segs[a].uniqueId == -1 then w.registry else w.registry - {w.segs[a].uniqueId}
    ensures RegistryClosed(w) ==> RegistryClosed(r)
    ensures r.links.Keys == w.links.Keys && r.lists.Keys == w.lists.Keys
    ensures r.flags.Keys == w.flags.Keys && r.cars.Keys == w.cars.Keys
  {
    Unregister(CutPrev(SetNext(w, a, None), a), a)
  }

  /** On a consistent list the destroyed segment ends up with no links and
      no segment refers to it; its old successor loses its predecessor,
      its old predecessor loses its successor, every other link is as it
      was, and the list stays consistent. */
  lemma OnDestroyUnlinks(w: World, a: SegId)
    requires a in w.segs && WellLinked(w) && CarsClosed(w)
    ensures WellLinked(OnDestroy(w, a))
    ensures Unlinked(w.links, OnDestroy(w, a).links, a)
  {
    var w1 := SetNext(w, a, None);
    SetNextLinks(w, a, None);
    var p := w1.links[a].prev;
    if p.Some? {
      SetNextLinks(w1, p.value, None);
    }
    var r := OnDestroy(w, a);
    assert r.links == CutPrev(w1, a).links;
    OnDestroyFinal(w.links, w1.links, r.links, a);
  }

  /** `a` was taken out of the list `l0`, giving `l2`: it has no links and
      nothing points at it, its old neighbours lost their link to it, and
      every other segment's links are unchanged. */
  predicate Unlinked(l0: map<SegId, Link>, l2: map<SegId, Link>, a: SegId)
    requires a in l0 && l2.Keys == l0.Keys && ClosedLinks(l0)
  {
    && l2[a] == Link(None, None)
    && (forall s :: s in l2 ==> l2[s].next != Some(a) && l2[s].prev != Some(a))
    && (l0[a].next.Some? ==> l2[l0[a].next.value].prev == None)
    && (l0[a].prev.Some? ==> l2[l0[a].prev.value].next == None)
    && (forall s :: s in l0 && s != a && Some(s) != l0[a].next && Some(s) != l0[a].prev ==> l2[s] == l0[s])
  }

  /** The last step of the argument above, on the link maps alone. */
  lemma OnDestroyFinal(l0: map<SegId, Link>, l1: map<SegId, Link>, l2: map<SegId, Link>, a: SegId)
    requires a in l0 && l1.Keys == l0.Keys && l2.Keys == l0.Keys
    requires ClosedLinks(l0) && Agree(l0) && Agree(l2)
    requires l1 == AfterSetNext(l0, a, None)
    requires l1[a].prev.None? ==> l2 == l1
    requires l1[a].prev.Some? ==> l2 == AfterSetNext(l1, l1[a].prev.value, None)
    ensures Unlinked(l0, l2, a)
  {
    AfterSetNextFrame(l0, a, None);
    if l1[a].prev.Some? {
      AfterSetNextClosed(l0, a, None);
      AfterSetNextFrame(l1, l1[a].prev.value, None);
      assert l1[l1[a].prev.value].next == Some(a);
    }
    if l0[a].prev.Some? {
      var p := l0[a].prev.value;
      assert l0[p].next == Some(a);
    }
    if l0[a].next.Some? {
      var n := l0[a].next.value;
      assert l0[n].prev == Some(a);
    }
    forall s | s in l2
      ensures l2[s].next != Some(a) && l2[s].prev != Some(a)
    {
      assert l2[s].next == Some(a) <==> l2[a].prev == Some(s);
      assert l2[a].next == Some(s) <==> l2[s].prev == Some(a);
    }
  }

  // ---------------------------------------------------------- CreateFromEnd

  /** A new segment has no links and no cars, so adding it keeps every
      invariant, and nothing refers to it yet. */
  lemma AddSegmentKeeps(w: World, s: SegId, rotation: RotationBytes)
    requires s !in w.segs && Closed(w)
    ensures var r := AddSegment(w, s, rotation);
            && Closed(r)
            && (LinksAgree(w) ==> LinksAgree(r))
            && (CarsListed(w) ==> CarsListed(r))
            && (RegistryClosed(w) ==> RegistryClosed(r))
            && (forall x :: x in r.links ==> r.links[x].next != Some(s) && r.links[x].prev != Some(s))
  {
    AddSegmentClosed(w, s, rotation);
    if LinksAgree(w) {
      AddedLinks(w.links, s);
    }
    if CarsListed(w) {
      AddedList(w.lists, w.cars, s);
    }
  }

  lemma AddSegmentClosed(w: World, s: SegId, rotation: RotationBytes)
    requires s !in w.segs && Closed(w)
    ensures Closed(AddSegment(w, s, rotation))
    ensures var l := AddSegment(w, s, rotation).links;
            forall x :: x in l ==> l[x].next != Some(s) && l[x].prev != Some(s)
  {
    var r := AddSegment(w, s, rotation);
    AddedLinks(w.links, s);
    forall x | x in r.links
      ensures r.links[x].next != Some(s) && r.links[x].prev != Some(s)
    {
      if x != s {
        assert r.links[x] == w.links[x];
      }
    }
    assert Shaped(r) && LinksClosed(r);
    assert r.segs.Keys == w.segs.Keys + {s};
    AddedRefs(w.segs.Keys, w.lists, w.cars, s, r.lists);
  }

  /** A fresh unlinked key keeps a link map closed and consistent, and no
      link points at it. */
  lemma AddedLinks(links: map<SegId, Link>, s: SegId)
    requires s !in links && ClosedLinks(links)
    ensures ClosedLinks(links[s := Link(None, None)])
    ensures Agree(links) ==> Agree(links[s := Link(None, None)])
    ensures forall x :: x in links ==> links[x].next != Some(s) && links[x].prev != Some(s)
  {
  }

  /** Car references stay closed when a segment is added. */
  lemma AddedCars(segs: set<SegId>, cars: map<CarId, CarState>, s: SegId)
    requires CarLinksClosed(segs, cars)
    ensures CarLinksClosed(segs + {s}, cars)
  {
    forall c | c in cars
      ensures CarClosed(segs + {s}, cars, cars[c])
    {
      assert CarClosed(segs, cars, cars[c]);
    }
  }

  /** Car references stay closed when a segment with an empty list is
      added. */
  lemma AddedRefs(segs: set<SegId>, lists: map<SegId, seq<CarId>>, cars: map<CarId, CarState>, s: SegId,
                  lists2: map<SegId, seq<CarId>>)
    requires CarRefsClosed(segs, lists, cars) && lists2 == lists[s := []]
    ensures CarRefsClosed(segs + {s}, lists2, cars)
  {
    AddedCars(segs, cars, s);
  }

  /** An empty list for a segment no car is on keeps the listing. */
  lemma AddedList(lists: map<SegId, seq<CarId>>, cars: map<CarId, CarState>, s: SegId)
    requires Listed(lists, cars) && s !in lists && CarLinksClosed(lists.Keys, cars)
    ensures Listed(lists[s := []], cars)
  {
    forall c | c in cars && cars[c].segment.Some?
      ensures cars[c].segment.value != s
    {
      assert CarClosed(lists.Keys, cars, cars[c]);
    }
  }

  /** The new segment's `Next` or the old one's, whichever end is free. */
  function LinkNewSegment(w: World, a: SegId, s: SegId): (r: World)
    requires a in w.segs && s in w.segs && Closed(w)
    ensures SegmentsKept(w, r) && Closed(r)
    ensures w.links[a].next.None? ==> r == SetNext(w, a, Some(s))
    ensures w.links[a].next.Some? ==> r == SetNext(w, s, Some(a))
  {
    if w.links[a].next.None? then SetNext(w, a, Some(s)) else SetNext(w, s, Some(a))
  }

  /** `CreateFromEnd`: a segment whose ends are both linked makes nothing.
      Otherwise a new segment `s` is created and attached at a free end,
      see `Extend`. */
  function CreateFromEnd(w: World, a: SegId, s: SegId): (r: Result<(World, Option<SegId>), SegmentError>)
    requires a in w.segs && s !in w.segs && Closed(w) && RegistryClosed(w)
    requires Int32Min <= w.nextUniqueId <= Int32Max
    ensures var (w1, n) := GetNext(w, a);
            n.Some? && w1.links[a].prev.Some? ==> r == Ok((w1, None))
    ensures var (w1, n) := GetNext(w, a);
            !(n.Some? && w1.links[a].prev.Some?) ==>
              && (r.Err? <==> w.nextUniqueId in w.registry)
              && (r.Ok? ==> r.value.1 == Some(s) && s in r.value.0.segs && Closed(r.value.0))
  {
    var (w1, n) := GetNext(w, a);
    if n.Some? && w1.links[a].prev.Some? then Ok((w1, None))
    else Extend(w1, a, s)
  }

  /** The creating branch of `CreateFromEnd` once `a`'s successor id is
      resolved: a new segment `s` copying the guide's rotation is attached
      after `a` when `a` has no successor and before it otherwise, and its
      transform is updated, which gives it an id. Positions are not
      modelled. */
  function Extend(w: World, a: SegId, s: SegId): (r: Result<(World, Option<SegId>), SegmentError>)
    requires a in w.segs && s !in w.segs && Closed(w) && RegistryClosed(w)
    requires w.segs[a].nextId == -1
    requires Int32Min <= w.nextUniqueId <= Int32Max
    ensures r.Err? <==> w.nextUniqueId in w.registry
    ensures r.Ok? ==> r.value.1 == Some(s) && s in r.value.0.segs && Closed(r.value.0)
  {
    var w2 := AddSegment(w, s, w.segs[a].rotation);
    AddSegmentKeeps(w, s, w.segs[a].rotation);
    // The second `Next` read finds the id already consumed.
    assert GetNext(w2, a) == (w2, w.links[a].next);
    var w3 := LinkNewSegment(w2, a, s);
    match UpdateTransform(w3, s)
    case Err(e) => Err(e)
    case Ok(w4) => Ok((w4, Some(s)))
  }

  /** `s` sits right after `a` when `a` had no successor (`oldNext`),
      and right before it, between nothing and `a`, otherwise. */
  predicate AttachedAt(u: World, a: SegId, s: SegId, oldNext: Option<SegId>) {
    && a in u.links && s in u.links
    && (oldNext.None? ==> u.links[a].next == Some(s) && u.links[s] == Link(None, Some(a)))
    && (oldNext.Some? ==> u.links[a] == Link(oldNext, Some(s)) && u.links[s] == Link(Some(a), None))
  }

  /** `s` carries the id `id` and the registry maps `id` to `s`. */
  predicate Registered(u: World, s: SegId, id: int) {
    s in u.segs && u.segs[s].uniqueId == id && id in u.registry && u.registry[id] == s
  }

  /** Attaching an unlinked segment `s` at `a`'s free end. */
  lemma LinkNewSegmentLinks(w: World, a: SegId, s: SegId)
    requires a in w.segs && s in w.segs && a != s && WellLinked(w) && CarsClosed(w)
    requires w.links[s] == Link(None, None)
    requires w.links[a].next.Some? ==> w.links[a].prev.None?
    ensures WellLinked(LinkNewSegment(w, a, s))
    ensures AttachedAt(LinkNewSegment(w, a, s), a, s, w.links[a].next)
  {
    if w.links[a].next.None? {
      SetNextLinks(w, a, Some(s));
      AfterSetNextFrame(w.links, a, Some(s));
    } else {
      SetNextLinks(w, s, Some(a));
      AfterSetNextFrame(w.links, s, Some(a));
    }
  }

  /** On a consistent list with a fresh counter the creating branch
      never throws, places the new segment at `a`'s free end, gives it the
      counter's id and keeps the list consistent. */
  lemma ExtendLinks(w: World, a: SegId, s: SegId)
    requires a in w.segs && s !in w.segs && WellLinked(w) && CarsClosed(w)
    requires RegistryClosed(w) && RegistryBelow(w) && w.segs[a].nextId == -1
    requires w.links[a].next.Some? ==> w.links[a].prev.None?
    ensures Extend(w, a, s).Ok?
    ensures WellLinked(Extend(w, a, s).value.0)
    ensures Registered(Extend(w, a, s).value.0, s, w.nextUniqueId)
    ensures AttachedAt(Extend(w, a, s).value.0, a, s, w.links[a].next)
  {
    var rot := w.segs[a].rotation;
    var w2 := AddSegment(w, s, rot);
    AddSegmentKeeps(w, s, rot);
    LinkNewSegmentLinks(w2, a, s);
    var w3 := LinkNewSegment(w2, a, s);
    assert w3.segs[s].uniqueId == -1;
    assert w.nextUniqueId !in w3.registry;
  }

  /** On a consistent list with a fresh counter, `CreateFromEnd` never
      throws; the new segment sits after `a` when `a` had no successor and
      before it otherwise, takes the counter's id, and the list stays
      consistent. */
  lemma CreateFromEndLinks(w: World, a: SegId, s: SegId)
    requires a in w.segs && s !in w.segs && WellLinked(w) && CarsClosed(w)
    requires RegistryClosed(w) && RegistryBelow(w)
    ensures CreateFromEnd(w, a, s).Ok?
    ensures var (w1, n) := GetNext(w, a);
            var (u, made) := CreateFromEnd(w, a, s).value;
            !(n.Some? && w1.links[a].prev.Some?) ==>
              WellLinked(u) && Registered(u, s, w.nextUniqueId) && AttachedAt(u, a, s, n)
  {
    var (w1, n) := GetNext(w, a);
    GetNextLinks(w, a);
    if !(n.Some? && w1.links[a].prev.Some?) {
      ExtendLinks(w1, a, s);
    }
  }
}
