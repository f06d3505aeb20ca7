/** `FindNextCar` and `FindPrevCar`: the nearest car ahead of (or behind) a
    position on a segment, looked for first on the segment itself and then
    segment by segment along the chain until the chain ends or comes back
    to the start. The walk terminates because, with the list consistent,
    a chain that comes back to a segment it has passed can only come back
    to the start. */
module TrackSearch {
  import opened Base
  import opened Selection
  import opened TrackWorld

  /** One step along the chain: `Next` going forward, `Prev` going back. */
  function Step(links: map<SegId, Link>, s: SegId, forward: bool): Option<SegId>
    requires s in links
  {
    if forward then links[s].next else links[s].prev
  }

  /** On a consistent list a forward step is a backward step reversed. */
  lemma StepReverses(links: map<SegId, Link>, x: SegId, y: SegId, forward: bool)
    requires Agree(links) && x in links && y in links
    ensures Step(links, x, forward) == Some(y) <==> Step(links, y, !forward) == Some(x)
  {
  }

  /** What the search orders cars by: `OrderBy(progress)` going forward,
      `OrderByDescending(progress)` going back. */
  function SearchKey(w: World, c: CarId, forward: bool): real
    requires c in w.cars
  {
    if forward then w.cars[c].progress else -w.cars[c].progress
  }

  /** The `FirstOrDefault` filter: progress beyond `from` in the search's
      direction; `None` stands for the default infinite `from`, which
      admits every car. */
  predicate Eligible(w: World, c: CarId, from: Option<real>, forward: bool)
    requires c in w.cars
  {
    from.None? || (if forward then w.cars[c].progress > from.value else w.cars[c].progress < from.value)
  }

  /** Every car in a segment's list exists. */
  predicate ListHasCars(w: World, s: SegId)
    requires s in w.lists
  {
    forall i :: 0 <= i < |w.lists[s]| ==> w.lists[s][i] in w.cars
  }

  /** The position in segment `s`'s list of the car the per-segment query
      picks: the eligible car with the smallest key, the earliest of those
      since the sort is stable. */
  function PickIndex(w: World, s: SegId, from: Option<real>, forward: bool): (r: Option<nat>)
    requires s in w.lists && ListHasCars(w, s)
    ensures var xs := w.lists[s];
            r.None? <==> forall i :: 0 <= i < |xs| ==> !Eligible(w, xs[i], from, forward)
    ensures var xs := w.lists[s];
            r.Some? ==> && r.value < |xs| && Eligible(w, xs[r.value], from, forward)
                        && (forall i :: 0 <= i < |xs| && Eligible(w, xs[i], from, forward) ==>
                              SearchKey(w, xs[r.value], forward) <= SearchKey(w, xs[i], forward))
                        && (forall i :: 0 <= i < r.value && Eligible(w, xs[i], from, forward) ==>
                              SearchKey(w, xs[r.value], forward) < SearchKey(w, xs[i], forward))
  {
    var xs := w.lists[s];
    var keys := seq(|xs|, i requires 0 <= i < |xs| => SearchKey(w, xs[i], forward));
    var ok := seq(|xs|, i requires 0 <= i < |xs| => Eligible(w, xs[i], from, forward));
    assert forall i :: 0 <= i < |xs| ==> keys[i] == SearchKey(w, xs[i], forward) && ok[i] == Eligible(w, xs[i], from, forward);
    FirstMin(keys, ok)
  }

  /** `_cars.OrderBy(x => x.TrackSegmentProgress).FirstOrDefault(x =>
      x.TrackSegmentProgress > from)` (or its descending mirror). */
  function Pick(w: World, s: SegId, from: Option<real>, forward: bool): (r: Option<CarId>)
    requires s in w.lists && ListHasCars(w, s)
    ensures r.None? <==> forall c :: c in w.lists[s] ==> !Eligible(w, c, from, forward)
    ensures r.Some? ==> && r.value in w.lists[s] && Eligible(w, r.value, from, forward)
                        && (forall c :: c in w.lists[s] && Eligible(w, c, from, forward) ==>
                              SearchKey(w, r.value, forward) <= SearchKey(w, c, forward))
  {
    var k := PickIndex(w, s, from, forward);
    if k.None? then None else Some(w.lists[s][k.value])
  }

  /** With no bound the query finds a car exactly when the list has one. */
  lemma PickUnbounded(w: World, s: SegId, forward: bool)
    requires s in w.lists && ListHasCars(w, s)
    ensures Pick(w, s, None, forward).None? <==> w.lists[s] == []
  {
    if w.lists[s] != [] {
      assert w.lists[s][0] in w.lists[s];
    }
  }

  /** One step against the search's direction. */
  function Back(links: map<SegId, Link>, s: SegId, forward: bool): Option<SegId>
    requires s in links
  {
    Step(links, s, !forward)
  }

  /** Stepping forward and then back returns to where the step began:
      what a consistent list gives the walk. */
  predicate Reversible(links: map<SegId, Link>, forward: bool) {
    forall x {:trigger Step(links, x, forward)} ::
      x in links && Step(links, x, forward).Some? && Step(links, x, forward).value in links ==>
        Back(links, Step(links, x, forward).value, forward) == Some(x)
  }

  lemma AgreeReversible(links: map<SegId, Link>, forward: bool)
    requires Agree(links)
    ensures Reversible(links, forward)
  {
    forall x | x in links && Step(links, x, forward).Some? && Step(links, x, forward).value in links
      ensures Back(links, Step(links, x, forward).value, forward) == Some(x)
    {
      StepReverses(links, x, Step(links, x, forward).value, forward);
    }
  }

  /** The walk's invariant: `visited` holds the start and the segments
      already passed, `cur` is new, and every visited segment other than
      the start, and `cur` itself, was reached from a visited segment. */
  predicate WalkState(links: map<SegId, Link>, first: SegId, cur: SegId, visited: set<SegId>, forward: bool)
  {
    && first in visited && visited <= links.Keys
    && cur in links && cur !in visited
    && (forall y {:trigger Back(links, y, forward)} :: y in visited && y != first ==>
          Back(links, y, forward).Some? && Back(links, y, forward).value in visited)
    && Back(links, cur, forward).Some? && Back(links, cur, forward).value in visited
  }

  /** A step from `cur` that does not return to the start reaches a
      segment the walk has not visited: on a consistent list a segment has
      one predecessor, and every visited one but the start already has its
      predecessor among the visited. */
  lemma WalkAdvances(links: map<SegId, Link>, first: SegId, cur: SegId, visited: set<SegId>, forward: bool, n: SegId)
    requires Reversible(links, forward) && WalkState(links, first, cur, visited, forward)
    requires Step(links, cur, forward) == Some(n) && n != first && n in links
    ensures WalkState(links, first, n, visited + {cur}, forward)
    ensures |links.Keys - (visited + {cur})| < |links.Keys - visited|
  {
    assert Back(links, n, forward) == Some(cur);
    assert n != cur;
    assert n !in visited;
    var v := visited + {cur};
    forall y | y in v && y != first
      ensures Back(links, y, forward).Some? && Back(links, y, forward).value in v
    {
      if y != cur {
        assert y in visited;
      }
    }
    assert cur in links.Keys - visited;
    assert links.Keys - (visited + {cur}) == (links.Keys - visited) - {cur};
  }

  /** The segment the default-`from` recursion `Next?.FindNextCar(first)`
      stops at: the first segment from `cur` on that holds a car, `None`
      when the chain ends or returns to `first` before one is found. An
      empty segment's query finds nothing and passes on, so the car found
      is that segment's first one. */
  function FirstOccupied(links: map<SegId, Link>, occupied: set<SegId>, first: SegId, cur: SegId,
                         visited: set<SegId>, forward: bool): (r: Option<SegId>)
    requires Reversible(links, forward) && WalkState(links, first, cur, visited, forward)
    ensures r.Some? ==> r.value in links && r.value in occupied
    decreases |links.Keys - visited|
  {
    if cur in occupied then Some(cur)
    else
      match Step(links, cur, forward)
      case None => None
      case Some(n) =>
        if n == first || n !in links then None
        else
          WalkAdvances(links, first, cur, visited, forward, n);
          FirstOccupied(links, occupied, first, n, visited + {cur}, forward)
  }

  /** The segment `k` steps from `cur` in the search's direction, `None`
      once the chain ends or returns to `first`. */
  function After(links: map<SegId, Link>, first: SegId, cur: SegId, k: nat, forward: bool): (r: Option<SegId>)
    requires cur in links
    ensures r.Some? ==> r.value in links
    decreases k
  {
    if k == 0 then Some(cur)
    else
      match Step(links, cur, forward)
      case None => None
      case Some(n) => if n == first || n !in links then None else After(links, first, n, k - 1, forward)
  }

  /** No segment reachable from `cur` before the chain ends or returns to
      `first` is occupied. */
  ghost predicate NoneOccupied(links: map<SegId, Link>, occupied: set<SegId>, first: SegId, cur: SegId, forward: bool)
    requires cur in links
  {
    forall k: nat :: After(links, first, cur, k, forward).Some? ==>
      After(links, first, cur, k, forward).value !in occupied
  }

  /** None of the first `k` segments reachable from `cur` is occupied. */
  predicate ClearBefore(links: map<SegId, Link>, occupied: set<SegId>, first: SegId, cur: SegId, k: nat, forward: bool)
    requires cur in links
  {
    forall j: nat :: j < k && After(links, first, cur, j, forward).Some? ==>
      After(links, first, cur, j, forward).value !in occupied
  }

  /** From an unoccupied `cur` whose step leads to `n`, the reachable
      segments are `cur` and those reachable from `n`. */
  lemma ShiftNoneOccupied(links: map<SegId, Link>, occupied: set<SegId>, first: SegId, cur: SegId, n: SegId, forward: bool)
    requires cur in links && cur !in occupied
    requires Step(links, cur, forward) == Some(n) && n != first && n in links
    ensures NoneOccupied(links, occupied, first, cur, forward) <==> NoneOccupied(links, occupied, first, n, forward)
  {
    if NoneOccupied(links, occupied, first, n, forward) {
      forall k: nat | After(links, first, cur, k, forward).Some?
        ensures After(links, first, cur, k, forward).value !in occupied
      {
        if k > 0 {
          assert After(links, first, cur, k, forward) == After(links, first, n, k - 1, forward);
        }
      }
    } else {
      var k: nat :| After(links, first, n, k, forward).Some? && After(links, first, n, k, forward).value in occupied;
      assert After(links, first, cur, k + 1, forward) == After(links, first, n, k, forward);
    }
  }

  /** ... and the first `k` of them are clear when `cur` and the first
      `k - 1` from `n` are. */
  lemma ShiftClearBefore(links: map<SegId, Link>, occupied: set<SegId>, first: SegId, cur: SegId, n: SegId, k: nat, forward: bool)
    requires cur in links && k > 0
    requires Step(links, cur, forward) == Some(n) && n != first && n in links
    requires ClearBefore(links, occupied, first, cur, k, forward)
    ensures cur !in occupied && ClearBefore(links, occupied, first, n, k - 1, forward)
    ensures After(links, first, cur, k, forward) == After(links, first, n, k - 1, forward)
  {
    assert After(links, first, cur, 0, forward) == Some(cur);
    forall j: nat | j < k - 1 && After(links, first, n, j, forward).Some?
      ensures After(links, first, n, j, forward).value !in occupied
    {
      assert After(links, first, cur, j + 1, forward) == After(links, first, n, j, forward);
    }
  }

  /** The walk stops at nothing exactly when no segment it can reach is
      occupied. */
  lemma {:induction false} FirstOccupiedNone(links: map<SegId, Link>, occupied: set<SegId>, first: SegId, cur: SegId,
                                             visited: set<SegId>, forward: bool)
    requires Reversible(links, forward) && WalkState(links, first, cur, visited, forward)
    ensures FirstOccupied(links, occupied, first, cur, visited, forward).None? <==>
              NoneOccupied(links, occupied, first, cur, forward)
    decreases |links.Keys - visited|
  {
    assert After(links, first, cur, 0, forward) == Some(cur);
    if cur !in occupied {
      match Step(links, cur, forward)
      case None =>
        assert forall k: nat :: k > 0 ==> After(links, first, cur, k, forward).None?;
      case Some(n) =>
        if n != first && n in links {
          WalkAdvances(links, first, cur, visited, forward, n);
          FirstOccupiedNone(links, occupied, first, n, visited + {cur}, forward);
          ShiftNoneOccupied(links, occupied, first, cur, n, forward);
        } else {
          assert forall k: nat :: k > 0 ==> After(links, first, cur, k, forward).None?;
        }
    }
  }

  /** When the first occupied segment is `k` steps away, the walk stops
      there. */
  lemma {:induction false} FirstOccupiedAt(links: map<SegId, Link>, occupied: set<SegId>, first: SegId, cur: SegId,
                                           visited: set<SegId>, forward: bool, k: nat)
    requires Reversible(links, forward) && WalkState(links, first, cur, visited, forward)
    requires After(links, first, cur, k, forward).Some? && After(links, first, cur, k, forward).value in occupied
    requires ClearBefore(links, occupied, first, cur, k, forward)
    ensures FirstOccupied(links, occupied, first, cur, visited, forward) == After(links, first, cur, k, forward)
    decreases k
  {
    if k == 0 {
      assert cur in occupied;
      assert FirstOccupied(links, occupied, first, cur, visited, forward) == Some(cur);
    } else {
      assert Step(links, cur, forward).Some?;
      var n := Step(links, cur, forward).value;
      assert n != first && n in links;
      WalkAdvances(links, first, cur, visited, forward, n);
      ShiftClearBefore(links, occupied, first, cur, n, k, forward);
      FirstOccupiedAt(links, occupied, first, n, visited + {cur}, forward, k - 1);
      assert FirstOccupied(links, occupied, first, cur, visited, forward) == FirstOccupied(links, occupied, first, n, visited + {cur}, forward);
      assert After(links, first, cur, k, forward) == After(links, first, n, k - 1, forward);
    }
  }

  /** The segments holding a car. */
  function Occupied(w: World): (r: set<SegId>)
    ensures forall s :: s in r <==> s in w.lists && w.lists[s] != []
  {
    set s | s in w.lists && w.lists[s] != []
  }

  /** The nearest occupied segment after `s` along the chain, before
      the chain ends or comes back to `s`: where `Next?.FindNextCar(first)`
      finds its car when `s` itself has none to offer. */
  function Downstream(links: map<SegId, Link>, occupied: set<SegId>, s: SegId, forward: bool): (r: Option<SegId>)
    requires s in links && Reversible(links, forward)
    ensures r.Some? ==> r.value in links && r.value in occupied
  {
    match Step(links, s, forward)
    case None => None
    case Some(n) =>
      if n == s || n !in links then None
      else FirstOccupied(links, occupied, s, n, {s}, forward)
  }

  /** `Downstream` finds nothing exactly when no segment after `s` is
      occupied ... */
  lemma DownstreamNoneIff(links: map<SegId, Link>, occupied: set<SegId>, s: SegId, forward: bool)
    requires s in links && Reversible(links, forward)
    ensures Downstream(links, occupied, s, forward).None? <==>
              forall k: nat :: 0 < k && After(links, s, s, k, forward).Some? ==>
                After(links, s, s, k, forward).value !in occupied
  {
    match Step(links, s, forward)
    case None =>
      assert forall k: nat :: k > 0 ==> After(links, s, s, k, forward).None?;
    case Some(n) =>
      if n != s && n in links {
        FirstOccupiedNone(links, occupied, s, n, {s}, forward);
        DownstreamNone(links, occupied, s, n, forward);
      } else {
        assert forall k: nat :: k > 0 ==> After(links, s, s, k, forward).None?;
      }
  }

  /** `x`, `k` steps after `s`, is the first occupied segment after `s`. */
  ghost predicate Nearest(links: map<SegId, Link>, occupied: set<SegId>, s: SegId, k: nat, x: SegId, forward: bool)
    requires s in links
  {
    && 0 < k && After(links, s, s, k, forward) == Some(x) && x in occupied
    && (forall j: nat :: 0 < j < k && After(links, s, s, j, forward).Some? ==>
          After(links, s, s, j, forward).value !in occupied)
  }

  /** ... and otherwise finds the nearest occupied one. */
  lemma DownstreamNearest(links: map<SegId, Link>, occupied: set<SegId>, s: SegId, forward: bool, k: nat, x: SegId)
    requires s in links && Reversible(links, forward)
    requires Nearest(links, occupied, s, k, x, forward)
    ensures Downstream(links, occupied, s, forward) == Some(x)
  {
    var n := Step(links, s, forward).value;
    DownstreamClear(links, occupied, s, n, k, forward);
    FirstOccupiedAt(links, occupied, s, n, {s}, forward, k - 1);
  }

  /** `FindNextCar(from)` (forward) and `FindPrevCar(from)` (backward) on
      segment `s`: the default infinite `from` at the start finds nothing;
      otherwise the segment's own first eligible car, else the first car
      of the nearest occupied segment along the chain, stopping when the
      chain ends or comes back to `s`. */
  function FindCar(w: World, s: SegId, from: Option<real>, forward: bool): (r: Option<CarId>)
    requires s in w.segs && WellLinked(w) && CarsClosed(w)
    ensures from.None? ==> r.None?
    ensures from.Some? && Pick(w, s, from, forward).Some? ==> r == Pick(w, s, from, forward)
    ensures r.Some? ==> r.value in w.cars
  {
    if from.None? then None
    else
      var here := Pick(w, s, from, forward);
      if here.Some? then here
      else
        AgreeReversible(w.links, forward);
        match Downstream(w.links, Occupied(w), s, forward)
        case None => None
        case Some(x) => Pick(w, x, None, forward)
  }

  /** When `s` has no eligible car the search goes downstream: it finds
      nothing exactly when no segment reachable before the chain ends or
      comes back to `s` has a car, and otherwise returns the first car (in
      the search's order) of the nearest such segment. */
  lemma FindCarDownstream(w: World, s: SegId, from: real, forward: bool)
    requires s in w.segs && WellLinked(w) && CarsClosed(w)
    requires Pick(w, s, Some(from), forward).None?
    ensures FindCar(w, s, Some(from), forward).None? <==>
              forall k: nat :: 0 < k && After(w.links, s, s, k, forward).Some? ==>
                After(w.links, s, s, k, forward).value !in Occupied(w)
    ensures forall k: nat, x: SegId ::
              Nearest(w.links, Occupied(w), s, k, x, forward) ==> FindCar(w, s, Some(from), forward) == Pick(w, x, None, forward)
  {
    AgreeReversible(w.links, forward);
    DownstreamNoneIff(w.links, Occupied(w), s, forward);
    var found := Downstream(w.links, Occupied(w), s, forward);
    if found.Some? {
      PickUnbounded(w, found.value, forward);
    }
    forall k: nat, x: SegId | Nearest(w.links, Occupied(w), s, k, x, forward)
      ensures FindCar(w, s, Some(from), forward) == Pick(w, x, None, forward)
    {
      DownstreamNearest(w.links, Occupied(w), s, forward, k, x);
    }
  }

  /** The segments downstream of `s` are those reachable from its
      successor `n`. */
  lemma DownstreamNone(links: map<SegId, Link>, occupied: set<SegId>, s: SegId, n: SegId, forward: bool)
    requires s in links && n in links
    requires Step(links, s, forward) == Some(n) && n != s
    ensures NoneOccupied(links, occupied, s, n, forward) <==>
              forall k: nat :: 0 < k && After(links, s, s, k, forward).Some? ==>
                After(links, s, s, k, forward).value !in occupied
  {
    if NoneOccupied(links, occupied, s, n, forward) {
      forall k: nat | 0 < k && After(links, s, s, k, forward).Some?
        ensures After(links, s, s, k, forward).value !in occupied
      {
        assert After(links, s, s, k, forward) == After(links, s, n, k - 1, forward);
      }
    } else {
      var k: nat :| After(links, s, n, k, forward).Some? && After(links, s, n, k, forward).value in occupied;
      var m: nat := k + 1;
      assert After(links, s, s, m, forward) == After(links, s, n, k, forward);
      assert 0 < m && After(links, s, s, m, forward).Some? && After(links, s, s, m, forward).value in occupied;
    }
  }

  lemma DownstreamClear(links: map<SegId, Link>, occupied: set<SegId>, s: SegId, n: SegId, k: nat, forward: bool)
    requires s in links && n in links && k > 0
    requires Step(links, s, forward) == Some(n) && n != s
    requires forall j: nat :: 0 < j < k && After(links, s, s, j, forward).Some? ==>
               After(links, s, s, j, forward).value !in occupied
    ensures ClearBefore(links, occupied, s, n, k - 1, forward)
    ensures After(links, s, s, k, forward) == After(links, s, n, k - 1, forward)
  {
    forall j: nat | j < k - 1 && After(links, s, n, j, forward).Some?
      ensures After(links, s, n, j, forward).value !in occupied
    {
      assert After(links, s, s, j + 1, forward) == After(links, s, n, j, forward);
    }
  }

  /** `FindNextCar(from)`. */
  function FindNextCar(w: World, s: SegId, from: Option<real>): (r: Option<CarId>)
    requires s in w.segs && WellLinked(w) && CarsClosed(w)
    ensures from.None? ==> r.None?
    ensures from.Some? && Pick(w, s, from, true).Some? ==>
              r == Pick(w, s, from, true) && w.cars[r.value].progress > from.value
  {
    FindCar(w, s, from, true)
  }

  /** `FindPrevCar(from)`. */
  function FindPrevCar(w: World, s: SegId, from: Option<real>): (r: Option<CarId>)
    requires s in w.segs && WellLinked(w) && CarsClosed(w)
    ensures from.None? ==> r.None?
    ensures from.Some? && Pick(w, s, from, false).Some? ==>
              r == Pick(w, s, from, false) && w.cars[r.value].progress < from.value
  {
    FindCar(w, s, from, false)
  }
}
