/** The segment picking of the VR tools (`RoadTool`): the selection
    range, which grows with the wand's scale but never drops below half a
    chunk unit, and `FindClosest`, the nearest segment within a distance
    that satisfies a condition, taken from the segments in their
    enumeration order. */
module CoasterTool {
  import opened Base
  import opened Geometry
  import opened Selection
  import opened TrackWorld

  /** `SelectionRange`: `Max(2 * scale, 0.5) / ChunkSize`, where `scale`
      is the x component of the wand's lossy scale. */
  function SelectionRange(wandScale: real, chunkSize: real): (r: real)
    requires chunkSize > 0.0
    ensures r >= 0.5 / chunkSize
    ensures r >= 2.0 * wandScale / chunkSize
    ensures r == 0.5 / chunkSize || r == 2.0 * wandScale / chunkSize
  {
    Max(2.0 * wandScale, 0.5) / chunkSize
  }

  /** The scene the tool looks at: each segment's `Transform.Position`
      and whether it `IsManipulating`. */
  datatype Segments = Segments(all: seq<SegId>, position: SegId -> Vec, manipulating: SegId -> bool)

  /** The squared distance from a segment's position to the cursor. */
  function DistanceSquared(sc: Segments, x: SegId, pos: Vec): real {
    sc.position(x).Sub(pos).LengthSquared()
  }

  /** The `Where` filter: the condition holds and the squared distance is
      at most `maxDist * maxDist`. */
  predicate Qualifies(sc: Segments, x: SegId, pos: Vec, maxDist: real, condition: SegId -> bool) {
    condition(x) && DistanceSquared(sc, x, pos) <= maxDist * maxDist
  }

  /** The position in the enumeration of the segment `FindClosest` picks. */
  function ClosestIndex(sc: Segments, pos: Vec, maxDist: real, condition: SegId -> bool): (r: Option<nat>)
    ensures r.None? <==> forall i :: 0 <= i < |sc.all| ==> !Qualifies(sc, sc.all[i], pos, maxDist, condition)
    ensures r.Some? ==> && r.value < |sc.all|
                        && Qualifies(sc, sc.all[r.value], pos, maxDist, condition)
                        && (forall i :: 0 <= i < |sc.all| && Qualifies(sc, sc.all[i], pos, maxDist, condition) ==>
                              DistanceSquared(sc, sc.all[r.value], pos) <= DistanceSquared(sc, sc.all[i], pos))
                        && (forall i :: 0 <= i < r.value && Qualifies(sc, sc.all[i], pos, maxDist, condition) ==>
                              DistanceSquared(sc, sc.all[r.value], pos) < DistanceSquared(sc, sc.all[i], pos))
  {
    var keys := seq(|sc.all|, i requires 0 <= i < |sc.all| => DistanceSquared(sc, sc.all[i], pos));
    var ok := seq(|sc.all|, i requires 0 <= i < |sc.all| => Qualifies(sc, sc.all[i], pos, maxDist, condition));
    assert forall i :: 0 <= i < |sc.all| ==>
             keys[i] == DistanceSquared(sc, sc.all[i], pos) && ok[i] == Qualifies(sc, sc.all[i], pos, maxDist, condition);
    FirstMin(keys, ok)
  }

  /** `FindClosest(pos, maxDist, condition)`: the qualifying segment with
      the smallest squared distance, the earliest in the enumeration among
      equally close ones since `OrderBy` is stable; `null` when none
      qualifies. */
  function FindClosest(sc: Segments, pos: Vec, maxDist: real, condition: SegId -> bool): (r: Option<SegId>)
    ensures r.None? <==> forall x :: x in sc.all ==> !Qualifies(sc, x, pos, maxDist, condition)
    ensures r.Some? ==> && r.value in sc.all && condition(r.value)
                        && DistanceSquared(sc, r.value, pos) <= maxDist * maxDist
                        && forall x :: x in sc.all && Qualifies(sc, x, pos, maxDist, condition) ==>
                             DistanceSquared(sc, r.value, pos) <= DistanceSquared(sc, x, pos)
  {
    var k := ClosestIndex(sc, pos, maxDist, condition);
    if k.None? then None else Some(sc.all[k.value])
  }

  /** The condition of the shorter overloads: `x => !x.IsManipulating`. */
  function NotManipulating(sc: Segments): SegId -> bool {
    (x: SegId) => !sc.manipulating(x)
  }

  /** `FindClosest(pos, maxDist)`: segments being manipulated are never
      picked. */
  function FindClosestWithin(sc: Segments, pos: Vec, maxDist: real): (r: Option<SegId>)
    ensures r.Some? ==> !sc.manipulating(r.value) && DistanceSquared(sc, r.value, pos) <= maxDist * maxDist
    ensures r.None? <==> forall x :: x in sc.all && !sc.manipulating(x) ==> DistanceSquared(sc, x, pos) > maxDist * maxDist
  {
    FindClosest(sc, pos, maxDist, NotManipulating(sc))
  }

  /** `FindClosest(pos)`: within the selection range, segments being
      manipulated excluded. */
  function FindClosestInRange(sc: Segments, pos: Vec, wandScale: real, chunkSize: real): (r: Option<SegId>)
    requires chunkSize > 0.0
    ensures r.Some? ==> !sc.manipulating(r.value)
    ensures r.Some? ==> var d := SelectionRange(wandScale, chunkSize);
                        DistanceSquared(sc, r.value, pos) <= d * d
    ensures r.None? <==> var d := SelectionRange(wandScale, chunkSize);
                         forall x :: x in sc.all && !sc.manipulating(x) ==> DistanceSquared(sc, x, pos) > d * d
  {
    FindClosestWithin(sc, pos, SelectionRange(wandScale, chunkSize))
  }

  /** The pick is determined by its properties: a qualifying segment with
      no qualifying segment closer and none as close earlier in the
      enumeration is the one returned. */
  lemma ClosestIndexUnique(sc: Segments, pos: Vec, maxDist: real, condition: SegId -> bool, k: nat)
    requires k < |sc.all| && Qualifies(sc, sc.all[k], pos, maxDist, condition)
    requires forall i :: 0 <= i < |sc.all| && Qualifies(sc, sc.all[i], pos, maxDist, condition) ==>
               DistanceSquared(sc, sc.all[k], pos) <= DistanceSquared(sc, sc.all[i], pos)
    requires forall i :: 0 <= i < k && Qualifies(sc, sc.all[i], pos, maxDist, condition) ==>
               DistanceSquared(sc, sc.all[k], pos) < DistanceSquared(sc, sc.all[i], pos)
    ensures ClosestIndex(sc, pos, maxDist, condition) == Some(k)
  {
  }

  /** Narrowing the range does not change the pick as long as the picked
      segment is still within the narrower range. */
  lemma ClosestKeptWhenNarrowed(sc: Segments, pos: Vec, wide: real, narrow: real, condition: SegId -> bool)
    requires 0.0 <= narrow <= wide
    requires ClosestIndex(sc, pos, wide, condition).Some?
    requires var k := ClosestIndex(sc, pos, wide, condition).value;
             DistanceSquared(sc, sc.all[k], pos) <= narrow * narrow
    ensures ClosestIndex(sc, pos, narrow, condition) == ClosestIndex(sc, pos, wide, condition)
  {
    var k := ClosestIndex(sc, pos, wide, condition).value;
    var dk := DistanceSquared(sc, sc.all[k], pos);
    SquareMonotone(narrow, wide);
    forall i | 0 <= i < |sc.all| && Qualifies(sc, sc.all[i], pos, narrow, condition)
      ensures dk <= DistanceSquared(sc, sc.all[i], pos)
    {
      Widen(sc, sc.all[i], pos, narrow, wide, condition);
    }
    forall i | 0 <= i < k && Qualifies(sc, sc.all[i], pos, narrow, condition)
      ensures dk < DistanceSquared(sc, sc.all[i], pos)
    {
      Widen(sc, sc.all[i], pos, narrow, wide, condition);
    }
    ClosestIndexUnique(sc, pos, narrow, condition, k);
  }

  lemma SquareMonotone(a: real, b: real)
    requires 0.0 <= a <= b
    ensures a * a <= b * b
  {
    ProductNonNegative(a, b - a);
    ProductNonNegative(b, b - a);
  }

  /** A segment within the narrower range is within the wider one. */
  lemma Widen(sc: Segments, x: SegId, pos: Vec, narrow: real, wide: real, condition: SegId -> bool)
    requires narrow * narrow <= wide * wide
    requires Qualifies(sc, x, pos, narrow, condition)
    ensures Qualifies(sc, x, pos, wide, condition)
  {
  }
}
