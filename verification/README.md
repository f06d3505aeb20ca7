# Road plugin track core in Dafny

This project models the core of a VR roller-coaster track plugin, the
chunks road plugin. The track is a chain of `TrackSegment`s. Each segment
owns a biarc curve between its own pose and the pose of its successor
(`Source/TrackSegment.cs:226` adds a plain `Biarc`). The plugin also
ships `BiarcBezierComposite`, an alternative curve that approximates the
biarc by two cubic Béziers; no segment uses it, and it is modelled on its
own. Cars ride the chain. The model covers:

- the lazily recomputed keypoint curve;
- the biarc solver and its position, sampling and proximity queries;
- the alternative Bézier composite curve;
- the doubly linked segment list and its `Next` setter;
- segment ids, the registry and the save/load record;
- the car-to-segment bookkeeping and the car chain;
- the search for the next or previous car;
- the mesh emission rules;
- the VR tool's segment picking.

Everything is modelled over `real`, with the source's 32-bit and 16-bit
integers, its wrap-around and its byte layout written out explicitly.
The engine is not modelled. Its numeric primitives (`sqrt`, `sin`, `cos`,
`acos`, `atan2`, `normalized`, `normalizedSafe`) are parameters: a
`Numerics` record, constrained only by what the proofs need. These
constraints are:

- `sin 0 = 0` and `cos 0 = 1`;
- `sin² + cos² = 1`;
- `acos` lies in `[0, π]`;
- `sqrt` is the non-negative root.

The scene is also a parameter: raycasts, segment frames, the line test
between a segment's curve and a segment of line, and the `Quaternion`
arithmetic behind the roll twist. The C# `null` becomes `Option`, and a
thrown exception becomes the `Err` of a `Result`.

The modules follow the source files:

| module | file | content |
|---|---|---|
| `Base`, `Geometry` | — | `Option`/`Result`, clamps, `Vec`, the `Numerics` oracle |
| `KeypointCurve` | `KeypointCurve.cs` | the dirty-flag cache around a curve solver |
| `Biarc`, `BiarcSampling`, `BiarcQueries` | `Biarc.cs` | solving, positions, `GetDeltas`, `IsWithinRange`, line and overlap tests |
| `BezierComposite` | `BiarcBezierComposite.cs` | handle scale, the two Béziers and their parameterisation |
| `Selection` | — | stable `OrderBy(...).FirstOrDefault(...)` and `Where` |
| `SegmentLinks`, `TrackWorld`, `TrackSegments` | `TrackSegment.cs`, `Car.cs` | the world's maps, the `Next` setter, car lists |
| `SegmentLifecycle`, `TrackSearch`, `TrackRecord` | `TrackSegment.cs` | ids, `Next` getter, creation/destruction, car search, save/load |
| `CarMotion`, `Cars` | `Car.cs` | the segment walk, the car chain, the train walks, the hit box |
| `TrackMesh`, `MeshUpdate` | `TrackMeshGeneration.cs` | the emission loop and `OnPreRender` |
| `CoasterTool` | `CoasterTool.cs` | selection range and `FindClosest` |

Behaviour of the code worth noting; the model follows the code:

- `KeypointCurve.UpdateCurve` computes `endChanged` as the negation of
  "the end keypoint changed" and never uses it
  (`Source/KeypointCurve.cs:103`). Because `&&` and `||` short-circuit,
  exactly one end-keypoint update runs in every case. The model performs
  that one update.
- The biarc solver's fallback to two semicircles fires when the two end
  tangents point the same way (`Denom` below `Epsilon`). It does not fire
  when they are antiparallel: opposite tangents give `Denom == 4` and take
  the quadratic branch (`Source/Biarc.cs:127-131`). This is stated by
  `Biarc.OppositeTangentsTakeQuadraticBranch`.
- `BiarcBezierComposite.SetKeyPoints` builds the handle quadratic from
  `d3 + d0` (`Source/BiarcBezierComposite.cs:23`). `BezierComposite.HandleQuadraticMeaning`
  states the condition that quadratic encodes.
- Reading `Next` through its getter can resolve a pending saved successor
  id. That runs the setter, which marks the mesh dirty again
  (`Source/TrackSegment.cs:139-145`). The crossover scan of
  `UpdateTrackMesh` reads `Next` of every other segment this way
  (`Source/TrackMeshGeneration.cs:67`), so a mesh update can relink other
  segments. The model runs the getter for each scanned segment, and
  `UpdateTrackMesh` only promises clean flags when no successor id is
  pending.
- A segment without a successor ends its curve at its own pose, so its
  length can be 0. On such a segment the forward loop of
  `UpdateCurrentTrackSegment` detaches a car whose progress is positive or
  reaches the length (`Source/Car.cs:216-221`).

## Model

| member | source | states |
|---|---|---|
| KeypointCurve.UpdateKeypoint | Source/KeypointCurve.cs:69-96 | the refreshed keypoint matches the pose; it is reported changed exactly when it differs; it stays the same exactly when the old one already matched; each field is either the old value or the pose's |
| KeypointCurve.Invalidate | Source/KeypointCurve.cs:56-59 | invalidating only sets the dirty flag; keypoints, geometry and cached lengths are kept |
| KeypointCurve.UpdateCurve | Source/KeypointCurve.cs:98-107 | after an update the cache agrees with the solver on the stored keypoints; the start matches the segment's pose and the end matches the successor's pose, or the segment's own pose without one; keypoints that already matched are kept |
| KeypointCurve.Prepare | Source/KeypointCurve.cs:111-115 | after a query the curve is clean; a clean curve is returned unchanged; a dirty one is recomputed consistently from the current poses |
| KeypointCurve.GetLength | Source/KeypointCurve.cs:35-42 | the returned length is the cached one and, after a recompute, the solver's length for the stored keypoints |
| KeypointCurve.GetInverseLength | Source/KeypointCurve.cs:47-54 | the returned value is the cached inverse, whose product with the length is 1 after a recompute |
| KeypointCurve.Query | Source/KeypointCurve.cs:127-131 | every query wrapper answers from a clean curve, leaves a clean curve untouched and applies the operation to the cached geometry and length |
| KeypointCurve.SecondQueryReadsCache | Source/KeypointCurve.cs:111-115 | a second query after a first does not recompute: it reads the state the first left |
| KeypointCurve.InvalidateThenQueryIsIdentity | Source/KeypointCurve.cs:98-107 | recomputing a consistent curve whose keypoints match the poses gives the same curve back |
| Biarc.ComputeArcs | Source/Biarc.cs:79-113 | radius is non-negative and angle in [0, π]; radius is 0 exactly when the doubled twist is below Epsilon, and the centre is then the chord's midpoint; otherwise the centre lies on the normal through the point and the circle passes through both the point and the joint |
| Biarc.CircleThroughBothPoints | Source/Biarc.cs:94-98 | the centre offset along the perpendicular makes both the point and the joint lie on the circle, with the centre on the point's normal |
| Biarc.NonDegenerateRadius | Source/Biarc.cs:94-98 | a curved arc has a strictly positive radius |
| Biarc.JointParameter | Source/Biarc.cs:127-170 | when the tangent denominator is at least Epsilon the joint parameter is non-negative and solves the joint equation; a negative result only occurs in the semicircle case |
| Biarc.QuadraticRoot | Source/Biarc.cs:168-169 | the discriminant is non-negative and the chosen root is a non-negative solution of the joint quadratic |
| Biarc.LinearBranchSolvesJointEquation | Source/Biarc.cs:131-164 | with equal unit tangents and a chord not perpendicular to them, the linear fallback `d = (v·v)/(4 v·t2)` solves the joint equation |
| Biarc.OppositeTangentsTakeQuadraticBranch | Source/Biarc.cs:128-131 | antiparallel end tangents give denominator 4, so they never take the semicircle fallback |
| Biarc.GeneralArc | Source/Biarc.cs:172-192 | each arc starts at its keypoint, reaches the joint, is well formed (radius times angle is its length), has orthogonal frame axes when curved, and is a straight piece of the chord's length otherwise |
| Biarc.ShapeArc | Source/Biarc.cs:180-192 | an arc built from a circle through the point and the joint keeps that radius, starts at the point and reaches the joint |
| Biarc.LongWay | Source/Biarc.cs:180-184 | a joint behind the start (negative parameter) makes a curved arc take the long way round, 2π minus the angle; otherwise the angle is kept |
| Biarc.ArcFrame | Source/Biarc.cs:186-191 | the arc's two frame axes are orthogonal |
| Biarc.FindParameters | Source/Biarc.cs:115-193 | both arcs start at their keypoints, are well formed and have orthogonal frames; outside the semicircle case both arcs meet at the same joint |
| Biarc.Semicircles | Source/Biarc.cs:131-161 | the fallback gives two half circles of radius a quarter of the chord, angle π and length π·r, meeting at the chord's midpoint |
| Biarc.SemicircleFrame | Source/Biarc.cs:140-157 | the semicircles' offset and perpendicular axes are orthogonal and the offset is a quarter of the chord |
| Biarc.WithNormals | Source/Biarc.cs:217-218 | the normal axes are the normalised cross product of each arc's frame; the arcs' shapes are unchanged |
| Biarc.OnUpdateCurve | Source/Biarc.cs:210-240 | the curve length is the sum of the arc lengths and positive; the roll twist between the ends is split between the arcs in proportion to their lengths and the two shares differ by the whole twist |
| Biarc.SplitRoll | Source/Biarc.cs:233-239 | splitting a roll delta across the arcs keeps the shapes and normals and divides the delta in proportion to the arc lengths |
| Biarc.RollSplit | Source/Biarc.cs:235-239 | the two proportional shares add back up to the whole delta |
| Biarc.SolverIsOnUpdateCurve | Source/Biarc.cs:210-240 | the solver handed to the keypoint curve is the biarc update |
| Biarc.OnGetPosition | Source/Biarc.cs:242-273 | a position on a proper curved arc is a point of that arc's circle parameterisation |
| Biarc.ArcPointOnCircle | Source/Biarc.cs:254-258 | every point of the parameterisation lies at the arc's radius from its centre |
| Biarc.GeneralArcIsCircular | Source/Biarc.cs:186-187 | a solved arc's frame axes both have the arc's radius as length and are orthogonal |
| Biarc.ArcPointAtZero | Source/Biarc.cs:254-258 | angle 0 of the parameterisation is the arc's start point |
| Biarc.FractionZeroIsArc1Start | Source/Biarc.cs:247-258 | fraction 0 is the first arc's start point, whether it is curved, straight or tiny |
| Biarc.FractionOneIsArc2End | Source/Biarc.cs:260-271 | fraction 1 is the second arc's end point |
| Biarc.PositionAtStart | Source/Biarc.cs:242-258 | the solved curve starts at the start keypoint's position |
| Biarc.PositionAtEnd | Source/Biarc.cs:260-271 | the solved curve ends at the end keypoint's position |
| Biarc.PositionOnCircle | Source/Biarc.cs:242-273 | every position on a proper curved arc is at that arc's radius from its centre |
| Biarc.SemicircleExample | Source/Biarc.cs:131-161 | a concrete case: two parallel tangents 4 apart give two unit half circles of total length 2π meeting at the chord's midpoint |
| Biarc.SemicircleArcs | Source/Biarc.cs:131-161 | in every semicircle case the solved radii are a quarter of the chord, the length is π·chord/2 and both arcs meet at the midpoint |
| Biarc.CachedLengthIsArcSum | Source/Biarc.cs:235 | the length the keypoint curve caches for a biarc is the positive sum of its arc lengths |
| BiarcSampling.StepCount | Source/Biarc.cs:64 | the number of steps is the ceiling of the ratio, at least 1 |
| BiarcSampling.SampleSpacing | Source/Biarc.cs:57-66 | the spacing is positive and at most the maximum; a curved arc's is at least the minimum, a straight one's is the maximum |
| BiarcSampling.SampleCount | Source/Biarc.cs:68 | the count is at least 1 and just enough for each step to be shorter than the spacing |
| BiarcSampling.ArcDeltas | Source/Biarc.cs:43-77 | one arc's fractions are strictly ascending from its offset, with the count given by the spacing; the first arc stays below its end, the second ends exactly at its end |
| BiarcSampling.ArcDeltasValues | Source/Biarc.cs:68-76 | with a positive share, the `i`-th fraction is `offset + i·scale/count`, `count` being the arc's sample count; the second arc's extra last one is `offset + scale` |
| BiarcSampling.SamplesValues | Source/Biarc.cs:71-74 | the loop's `i`-th fraction is `offset + i·scale/count` |
| BiarcSampling.EvenGaps | Source/Biarc.cs:68-74 | when the share times the curve length is the arc length and the arc length over the count is below the spacing, consecutive fractions are less than the spacing apart along the curve |
| BiarcSampling.LastGap | Source/Biarc.cs:68-76 | the last of the loop's fractions is less than the spacing short of `offset + scale` along the curve |
| BiarcSampling.RunGaps | Source/Biarc.cs:43-77 | one arc's consecutive fractions are less than the arc's spacing apart along the curve |
| BiarcSampling.LeadArcRun | Source/Biarc.cs:43-74 | the first arc's fractions lie below its share, are less than its spacing apart along the curve, and so is the step from the last of them to the share |
| BiarcSampling.EvenSamples | Source/Biarc.cs:69-74 | evenly spaced samples start at the offset, ascend strictly and stay inside the arc's share |
| BiarcSampling.SplitFraction | Source/Biarc.cs:37 | the split lies in [0, 1], is 0 or 1 exactly when one arc has no length, and times the total arc length gives the first arc's length |
| BiarcSampling.OnGetDeltas | Source/Biarc.cs:35-41 | the sample fractions are non-empty, strictly ascending, from exactly 0 to exactly 1 |
| BiarcSampling.DeltasSplitAtMid | Source/Biarc.cs:35-77 | the samples are the first arc's fractions below the split followed by the second's from the split to 1, each non-empty when its arc has length |
| BiarcSampling.LeadRunGaps | Source/Biarc.cs:37-39 | the first arc's fractions lie below the split and are less than its spacing apart along the curve, the step onto the split included |
| BiarcSampling.TailRunGaps | Source/Biarc.cs:37-40 | the second arc's fractions start at the split, ascend, and are less than its spacing apart along the curve |
| BiarcSampling.ConcatGaps | Source/Biarc.cs:39-40 | a run up to the split followed by a run from it has every gap below the spacing of its side, and so below the maximum |
| BiarcSampling.DeltasSpacing | Source/Biarc.cs:35-77 | consecutive sample fractions are less than `maxDist` apart along the curve; a gap ending at or before the split is below the first arc's spacing and one starting at or after it below the second's |
| BiarcQueries.StraightFraction | Source/Biarc.cs:300-306 | a straight piece's fraction is the clamped projection, within the piece, and 0 before its start |
| BiarcQueries.CurvedFraction | Source/Biarc.cs:307-327 | a curved piece answers exactly when the point is near its plane and within its radial band, with a fraction inside the piece |
| BiarcQueries.LocalFraction | Source/Biarc.cs:296-327 | a straight piece always answers; a curved one answers under the plane and band tests; the fraction stays within the piece |
| BiarcQueries.CandidateFraction | Source/Biarc.cs:296-329 | the curve fraction of a candidate lies in the piece's share of the curve, the second piece counted back from the end |
| BiarcQueries.PieceShare | Source/Biarc.cs:326-329 | converting a piece's local fraction lands in that piece's share |
| BiarcQueries.FractionInShare | Source/Biarc.cs:326-329 | a fraction scaled by a piece's length lies in that piece's share of the curve |
| BiarcQueries.ArcWithinRange | Source/Biarc.cs:296-336 | a hit is within the distance, at the candidate fraction, at the true distance from the curve's position there, and inside the piece's share |
| BiarcQueries.OnIsWithinRange | Source/Biarc.cs:338-361 | nothing is found when both arcs miss; otherwise the nearer arc's hit wins, the first on a tie, within the distance and at a fraction in [0, 1] |
| BiarcQueries.ArcLineProximityTest | Source/Biarc.cs:363-373 | a straight piece never hits; a hit is the line oracle's answer, within √2 times the range, and its point on the line is within range of the curve |
| BiarcQueries.OnIsApproxWithinLineRange | Source/Biarc.cs:386-415 | without a successor nothing is found; otherwise there is a hit exactly when one arc hits, the earlier along the line wins and the first on a tie; two straight pieces never hit |
| BiarcQueries.OnIsApproxOverlapping | Source/Biarc.cs:432-441 | no other curve means no overlap; otherwise they overlap exactly when some arc pair overlaps |
| BiarcQueries.ArcsOverlapSymmetric | Source/Biarc.cs:417-425 | the arc overlap test does not depend on the order of the two arcs |
| BiarcQueries.OverlapSymmetric | Source/Biarc.cs:432-441 | two curves overlap one way round exactly when they overlap the other way round |
| BiarcQueries.ArcsOverlapIgnoresHeight | Source/Biarc.cs:417-425 | the arc overlap test only looks at the horizontal plane |
| BiarcQueries.OverlapIgnoresHeight | Source/Biarc.cs:432-441 | raising or lowering any of the arcs does not change whether two curves overlap |
| BezierComposite.HandleQuadraticMeaning | Source/BiarcBezierComposite.cs:22-27 | `s` is a root of the handle quadratic exactly when the chord `p3 - p0` moved by `s` along the summed tangents `d0 + d3` has squared length `s²` |
| BezierComposite.HandleScale | Source/BiarcBezierComposite.cs:29-38 | the handle scale is non-negative and 1 when the quadratic has no real root |
| BezierComposite.HandleScaleIsSmallestRoot | Source/BiarcBezierComposite.cs:29-38 | with real roots the scale is the smallest magnitude of any root |
| BezierComposite.SmallerRoot | Source/BiarcBezierComposite.cs:34-37 | the smaller of the two formula roots in magnitude is a root and no root is smaller |
| BezierComposite.QuadraticFactors | Source/BiarcBezierComposite.cs:34-35 | both formula roots are roots and every root is one of them |
| BezierComposite.SetKeyPoints | Source/BiarcBezierComposite.cs:17-42 | the Bézier runs from the first to the last point and its handles are the tangents scaled by the handle scale |
| BezierComposite.BezierAtZero | Source/BiarcBezierComposite.cs:44-48 | the cubic starts at its first control point |
| BezierComposite.BezierAtOne | Source/BiarcBezierComposite.cs:44-48 | the cubic ends at its last control point |
| BezierComposite.Inverse | Source/BiarcBezierComposite.cs:69-70 | an inverse exists exactly for a non-zero value and multiplies it to 1 |
| BezierComposite.SplitPoint | Source/BiarcBezierComposite.cs:68 | the split is the first arc's share of the length, in [0, 1], and 0 or 1 exactly when an arc has no length |
| BezierComposite.Fit | Source/BiarcBezierComposite.cs:64-77 | the two Béziers run from the start keypoint through the biarc's point at the split to the end keypoint, with the inverses cached |
| BezierComposite.CompositeUpdate | Source/BiarcBezierComposite.cs:64-77 | the composite keeps the biarc's geometry and length and fits the two Béziers to it |
| BezierComposite.LocalParameter | Source/BiarcBezierComposite.cs:81 | fractions before the split go to the first Bézier and the rest to the second, defined when that half's inverse exists |
| BezierComposite.CompositePosition | Source/BiarcBezierComposite.cs:79-82 | a position exists exactly when the fraction maps to a local parameter |
| BezierComposite.PositionFromLocal | Source/BiarcBezierComposite.cs:79-82 | the position is the chosen Bézier evaluated at the local parameter |
| BezierComposite.LocalAtZero | Source/BiarcBezierComposite.cs:81 | fraction 0 is the first Bézier's parameter 0 |
| BezierComposite.LocalAtOne | Source/BiarcBezierComposite.cs:81 | fraction 1 is the second Bézier's parameter 1 |
| BezierComposite.LocalAtSplit | Source/BiarcBezierComposite.cs:81 | the split fraction is the second Bézier's parameter 0 |
| BezierComposite.PositionAtZero | Source/BiarcBezierComposite.cs:81 | the composite starts at the first Bézier's first point |
| BezierComposite.PositionAtOne | Source/BiarcBezierComposite.cs:81 | the composite ends at the second Bézier's last point |
| BezierComposite.PositionAtSplit | Source/BiarcBezierComposite.cs:81 | at the split the composite is at the second Bézier's first point |
| BezierComposite.FirstHalfAtSplit | Source/BiarcBezierComposite.cs:81 | approaching the split, the first Bézier reaches its last point |
| BezierComposite.CompositeAtStart | Source/BiarcBezierComposite.cs:72-81 | the fitted composite starts at the start keypoint |
| BezierComposite.CompositeAtEnd | Source/BiarcBezierComposite.cs:76-81 | the fitted composite ends at the end keypoint |
| BezierComposite.CompositeAtSplit | Source/BiarcBezierComposite.cs:72-81 | at the split the fitted composite is at the biarc's point there |
| BezierComposite.FirstHalfEndsAtSplit | Source/BiarcBezierComposite.cs:72-81 | the first Bézier also ends at the biarc's point at the split, so the two halves join |
| BezierComposite.RotationSamples | Source/BiarcBezierComposite.cs:90-91 | the two fractions the rotation compares are clamped to [0, 1] |
| Selection.FirstMin | Source/CoasterTool.cs:33-36 | none is found exactly when no element qualifies; otherwise the pick qualifies, no qualifying element has a smaller key and none before it has an equal one |
| Selection.FirstMinUnique | Source/CoasterTool.cs:35-36 | a qualifying position with the least key and no earlier equal is the pick |
| Selection.Filter | Source/TrackMeshGeneration.cs:64-73 | the filtered sequence holds exactly the elements that satisfy the condition, in their order |
| Selection.FilterIdempotent | Source/TrackMeshGeneration.cs:64-73 | filtering twice by the same condition is filtering once |
| SegmentLinks.Release | Source/TrackSegment.cs:150 | the old successor loses its predecessor; no successor and no other predecessor changes |
| SegmentLinks.WithNext | Source/TrackSegment.cs:157 | only the segment's successor changes |
| SegmentLinks.WithPrev | Source/TrackSegment.cs:164 | only the segment's predecessor changes |
| SegmentLinks.StoresClosed | Source/TrackSegment.cs:147-170 | storing an existing segment as a link keeps every link pointing at a segment |
| SegmentLinks.AfterSetNext | Source/TrackSegment.cs:147-170 | the links after setting `Next` are given segment by segment by the closed form |
| SegmentLinks.ClearNextSteps | Source/TrackSegment.cs:149-157 | setting `Next` to null is releasing the old successor then storing null |
| SegmentLinks.SetNextStepsCorrect | Source/TrackSegment.cs:147-170 | on a consistent list the setter's individual stores, including the nested one on the new successor's old predecessor, give the closed form |
| SegmentLinks.AfterSetNextClosed | Source/TrackSegment.cs:147-170 | setting `Next` keeps every link pointing at a segment |
| SegmentLinks.AfterSetNextAgrees | Source/TrackSegment.cs:147-170 | setting `Next` keeps the list consistent: `x.Next == y` exactly when `y.Prev == x` |
| SegmentLinks.AfterSetNextSame | Source/TrackSegment.cs:149 | setting the successor a segment already has changes nothing |
| SegmentLinks.AfterSetNextFrame | Source/TrackSegment.cs:149-164 | the segment and its new successor point at each other; the old successor loses its predecessor, the new one's old predecessor loses its successor, and every other link is unchanged |
| TrackWorld.AddSegment | Source/TrackSegment.cs:57-70 | a new segment has no id, the default type, no links, no cars, and clean mesh and transform flags (the fields' defaults); nothing else changes |
| TrackWorld.RemoveFirst | Source/TrackSegment.cs:178-181 | removing a car from a list drops one occurrence if there is one and keeps everything else |
| TrackWorld.RemoveOnly | Source/TrackSegment.cs:178-181 | from a list without repeats the car is gone, every other car stays and no repeat appears |
| TrackWorld.InvalidateTrackMesh | Source/TrackMeshGeneration.cs:209-213 | the segment's mesh is marked dirty; no other flag and nothing else changes (the curve's own invalidation is `KeypointCurve.Invalidate`) |
| TrackWorld.InvalidateIf | Source/TrackSegment.cs:169 | invalidating a possibly missing segment only touches flags and marks an existing one dirty |
| TrackWorld.MoveCar | Source/Car.cs:36-41 | every segment's car list loses the car if it was the old segment and gains it if it is the new one |
| TrackWorld.SetCurrentSegment | Source/Car.cs:36-41 | the setter changes only the car's segment and the two affected lists |
| TrackWorld.SetCurrentKeepsListing | Source/Car.cs:36-41 | the setter keeps every reference closed and the lists in step with the cars; afterwards exactly the new segment lists the car |
| TrackWorld.ListAfterMoveFacts | Source/Car.cs:36-41 | one list after a move holds the car exactly when it is the new segment's, has no repeat and gains nothing else |
| TrackWorld.ListAfterSetCurrent | Source/Car.cs:36-41 | after the setter every list holds the car exactly when it is the new segment's, has no repeat and lists only its own cars |
| TrackWorld.DetachFromTrack | Source/Car.cs:154-165 | a car off the track is left alone; otherwise it leaves its segment's list and is spliced out of the car chain |
| TrackWorld.SpliceOutLinks | Source/Car.cs:161-165 | the car's old neighbours now point at each other, its own segment and links are cleared, and no other car changes |
| TrackWorld.SpliceOutSegments | Source/Car.cs:159-165 | splicing out changes no car's segment but the spliced car's |
| TrackWorld.DetachKeepsClosed | Source/Car.cs:154-165 | detaching keeps every reference closed and changes no other car's segment |
| TrackWorld.DetachKeepsListing | Source/Car.cs:154-165 | detaching keeps the lists in step with the cars |
| TrackWorld.DetachRemovesFromList | Source/Car.cs:159 | detaching takes the car out of its segment's list |
| TrackWorld.DetachShrinksLists | Source/Car.cs:154-165 | detaching only takes cars out of lists |
| TrackWorld.DetachAll | Source/TrackSegment.cs:152-155 | detaching a snapshot of cars takes exactly those cars off the track and only shrinks lists |
| TrackWorld.DetachAllEmpties | Source/TrackSegment.cs:152-155 | detaching every car of a segment empties its list and keeps the listing invariant |
| TrackSegments.ReleaseNext | Source/TrackSegment.cs:150 | releasing the successor keeps all references closed and changes only that link |
| TrackSegments.DetachCars | Source/TrackSegment.cs:152-155 | the segment's cars go off the track; links and flags are kept |
| TrackSegments.StoreNext | Source/TrackSegment.cs:157 | storing the successor changes only that link |
| TrackSegments.Relink | Source/TrackSegment.cs:150-157 | the setter's first steps release the old successor, detach the cars and store the new successor |
| TrackSegments.RelinkListed | Source/TrackSegment.cs:150-157 | those steps keep the listing invariant and leave the segment with no cars |
| TrackSegments.InvalidateAround | Source/TrackSegment.cs:168-169 | the segment's mesh and its predecessor's are marked dirty; only flags change |
| TrackSegments.SetNext | Source/TrackSegment.cs:147-170 | setting the current successor changes nothing; otherwise the setter's effect: meshes invalidated, cars detached, links restructured; no segment data, registry or counter changes |
| TrackSegments.Changed | Source/TrackSegment.cs:149-170 | a real change ends with the segment's mesh dirty, on top of the restructured links |
| TrackSegments.Restructure | Source/TrackSegment.cs:149-166 | before the final invalidation the links are those of the setter's steps and cars only leave the track |
| TrackSegments.RestructureDetaches | Source/TrackSegment.cs:152-155 | every car that was on the segment is off the track afterwards |
| TrackSegments.Attach | Source/TrackSegment.cs:160-166 | a null successor adds nothing; a segment is adopted |
| TrackSegments.Adopt | Source/TrackSegment.cs:160-166 | the new successor's old predecessor lets go of it and the segment becomes its predecessor |
| TrackSegments.ClearPredecessor | Source/TrackSegment.cs:161-162 | the new successor's old predecessor gets a null `Next`, itself the setter |
| TrackSegments.TakePrev | Source/TrackSegment.cs:163-164 | the new successor's predecessor becomes the segment; no car changes |
| TrackSegments.SetNextLinks | Source/TrackSegment.cs:147-170 | on a consistent list the setter's links are the closed form and the list stays consistent |
| TrackSegments.SetNextListed | Source/TrackSegment.cs:152-155 | the setter keeps the listing invariant and, when it changes anything, leaves the segment with no cars |
| SegmentLifecycle.Int32Increment | Source/TrackSegment.cs:127 | the id counter's increment is a C# `int` increment that wraps from the maximum to the minimum |
| SegmentLifecycle.UniqueId | Source/TrackSegment.cs:122-131 | an assigned id is returned unchanged; otherwise the counter's value is assigned and registered, and the getter throws exactly when that id is taken |
| SegmentLifecycle.Assign | Source/TrackSegment.cs:127-128 | the segment takes the id, the registry gains exactly that id for it and the counter moves on |
| SegmentLifecycle.UniqueIdStable | Source/TrackSegment.cs:124 | asking for the id again returns the same id and changes nothing |
| SegmentLifecycle.UniqueIdKeepsRegistry | Source/TrackSegment.cs:122-131 | while the counter stays above every id, the getter never throws and the registry invariants hold on |
| SegmentLifecycle.UniqueIdCounterWraps | Source/TrackSegment.cs:127 | at `int.MaxValue` the counter wraps below the ids, breaking the "counter above every id" invariant |
| SegmentLifecycle.ConsumeNextId | Source/TrackSegment.cs:144 | forgetting the pending id changes nothing else |
| SegmentLifecycle.LinkPending | Source/TrackSegment.cs:143 | a registered pending id links its segment through the setter; an unknown one changes nothing |
| SegmentLifecycle.GetNext | Source/TrackSegment.cs:139-145 | the getter forgets the pending id, keeps the registry, counter and every reference closed, and returns the successor it leaves |
| SegmentLifecycle.GetNextLinks | Source/TrackSegment.cs:139-145 | on a consistent list a registered pending id becomes the successor exactly as the setter would link it, and the list stays consistent |
| SegmentLifecycle.GetNextIdempotent | Source/TrackSegment.cs:139-145 | reading `Next` again changes nothing and gives the same segment |
| SegmentLifecycle.SetTrackType | Source/TrackSegment.cs:79-90 | a new type is stored and the mesh and curve invalidated; the same type changes nothing; no other segment changes |
| SegmentLifecycle.SetTrackTypeIdempotent | Source/TrackSegment.cs:79-90 | setting a type twice is setting it once |
| SegmentLifecycle.MarkTransformed | Source/TrackSegment.cs:282 | clearing the transform flag touches no other flag |
| SegmentLifecycle.UpdateTransform | Source/TrackSegment.cs:276-300 | the update succeeds exactly when the id can be had; afterwards the transform is clean, the segment's and its predecessor's meshes are dirty, no link or car changes, and no segment data other than ids changes |
| SegmentLifecycle.UpdateTransformKeepsRegistry | Source/TrackSegment.cs:276-300 | with a fresh counter the update never throws and keeps the registry invariants |
| SegmentLifecycle.CutPrev | Source/TrackSegment.cs:245 | the predecessor, if any, gets a null `Next` |
| SegmentLifecycle.Unregister | Source/TrackSegment.cs:247-251 | the segment's id leaves the registry unless it never had one; nothing else changes |
| SegmentLifecycle.OnDestroy | Source/TrackSegment.cs:244-251 | destruction keeps every reference closed and the segment data, and removes only the segment's id from the registry |
| SegmentLifecycle.OnDestroyUnlinks | Source/TrackSegment.cs:244-245 | on a consistent list the destroyed segment ends up with no links, nothing refers to it, its neighbours lose their links to it and the list stays consistent |
| SegmentLifecycle.AddSegmentKeeps | Source/TrackSegment.cs:57-70 | adding a segment keeps every invariant and nothing refers to the new segment |
| SegmentLifecycle.LinkNewSegment | Source/TrackSegment.cs:263-264 | the new segment goes after a segment with no successor and before one with a successor, through the setter |
| SegmentLifecycle.CreateFromEnd | Source/TrackSegment.cs:254-269 | a segment linked at both ends creates nothing; otherwise creation throws exactly when the counter's id is taken and yields the new segment |
| SegmentLifecycle.Extend | Source/TrackSegment.cs:258-268 | the creating branch throws exactly when the counter's id is taken and otherwise yields the new segment |
| SegmentLifecycle.LinkNewSegmentLinks | Source/TrackSegment.cs:263-264 | attaching an unlinked segment at the free end keeps the list consistent and places it there |
| SegmentLifecycle.ExtendLinks | Source/TrackSegment.cs:258-268 | with a fresh counter the branch never throws, places the new segment at the free end, gives it the counter's id and keeps the list consistent |
| SegmentLifecycle.CreateFromEndLinks | Source/TrackSegment.cs:254-269 | with a fresh counter `CreateFromEnd` never throws and the new segment sits after or before the old one as its free end dictates, with the counter's id |
| TrackSearch.StepReverses | Source/TrackSegment.cs:147-170 | on a consistent list a forward step reversed is a backward step |
| TrackSearch.PickIndex | Source/TrackSegment.cs:192-193 | the per-segment query finds nothing exactly when no car is beyond the bound; otherwise the eligible car with the least progress in the search's order, the earliest among equals |
| TrackSearch.Pick | Source/TrackSegment.cs:192-193 | the picked car is in the list, beyond the bound and first in the search's order |
| TrackSearch.PickUnbounded | Source/TrackSegment.cs:190-194 | without a bound the query finds a car exactly when the segment has one |
| TrackSearch.WalkAdvances | Source/TrackSegment.cs:194 | on a consistent list each step of the recursive search reaches a segment not yet visited, so the search ends |
| TrackSearch.FirstOccupiedNone | Source/TrackSegment.cs:188-195 | the walk finds nothing exactly when no reachable segment before the chain ends or loops has a car |
| TrackSearch.FirstOccupiedAt | Source/TrackSegment.cs:188-195 | the walk stops at the first occupied segment along the chain |
| TrackSearch.Occupied | Source/TrackSegment.cs:188-195 | the occupied segments are exactly those whose list is non-empty |
| TrackSearch.DownstreamNoneIff | Source/TrackSegment.cs:194 | the downstream search finds nothing exactly when no segment after the start is occupied |
| TrackSearch.DownstreamNearest | Source/TrackSegment.cs:194 | otherwise it finds the nearest occupied segment |
| TrackSearch.FindCar | Source/TrackSegment.cs:183-209 | the infinite default bound finds nothing; a car on the segment itself beyond the bound wins; any result is an existing car |
| TrackSearch.FindCarDownstream | Source/TrackSegment.cs:188-195 | with no eligible car on the segment the search finds nothing exactly when nothing downstream is occupied, and otherwise returns the first car of the nearest occupied segment |
| TrackSearch.FindNextCar | Source/TrackSegment.cs:183-195 | the next car on the segment has progress strictly beyond the bound |
| TrackSearch.FindPrevCar | Source/TrackSegment.cs:197-209 | the previous car on the segment has progress strictly before the bound |
| TrackRecord.Int32Bytes | Source/TrackSegment.cs:373 | an `int` is written as four bytes |
| TrackRecord.Int32Of | Source/TrackSegment.cs:386 | four bytes read back as a C# `int` |
| TrackRecord.Int32RoundTrip | Source/TrackSegment.cs:373-386 | reading back a written `int` gives the value |
| TrackRecord.Int32BytesRoundTrip | Source/TrackSegment.cs:373-386 | writing back a read `int` gives the bytes |
| TrackRecord.Int16Bytes | Source/TrackSegment.cs:381 | a `short` is written as two bytes |
| TrackRecord.Int16Of | Source/TrackSegment.cs:398 | two bytes read back as a C# `short` |
| TrackRecord.Int16RoundTrip | Source/TrackSegment.cs:381-398 | reading back a written `short` gives the value |
| TrackRecord.Encode | Source/TrackSegment.cs:371-382 | a record is 28 bytes with the rotation at 8, the type at 24 and three reserved zero bytes |
| TrackRecord.Decode | Source/TrackSegment.cs:384-398 | a stream shorter than a record fails and every decoded record is valid |
| TrackRecord.DecodeEncode | Source/TrackSegment.cs:371-398 | loading a saved record gives back its fields, whatever follows it |
| TrackRecord.EncodeDecode | Source/TrackSegment.cs:371-398 | a 28-byte stream with zero reserved bytes is exactly the record it decodes to |
| TrackRecord.NextIdOf | Source/TrackSegment.cs:374 | no successor saves -1; a successor saves its id, assigned now if needed |
| TrackRecord.SavedRecord | Source/TrackSegment.cs:371-382 | the saved record is valid |
| TrackRecord.SavedRecordFields | Source/TrackSegment.cs:373-377 | the record holds the segment's id, its rotation and type, and the successor's id or -1 |
| SegmentLifecycle.UniqueIdKeepsClosed | Source/TrackSegment.cs:122-131 | assigning an id keeps references closed, and keeps the registry closed when it was |
| TrackRecord.OnSave | Source/TrackSegment.cs:371-382 | saving succeeds exactly when the record can be formed, and writes 28 bytes that decode to it |
| TrackRecord.Install | Source/TrackSegment.cs:386-395 | loading stores the fields, registers the id and bumps the counter past it, wrapping like a C# `int` |
| TrackRecord.OnLoad | Source/TrackSegment.cs:384-401 | a stream ending before the ids or before the record's end fails with end-of-stream and a taken id fails with a duplicate key; otherwise links are unchanged |
| TrackRecord.SaveLoadRoundTrip | Source/TrackSegment.cs:371-401 | saving and loading into a segment of another world restores the id, successor id, rotation and type and registers the id |
| TrackRecord.OnLoadKeepsRegistry | Source/TrackSegment.cs:389-391 | loading keeps every registered id below the counter and naming a segment |
| CarMotion.Budget | Source/Car.cs:216-240 | a finite number of steps of the shortest length uses up any distance, which bounds the walk |
| CarMotion.Shortest | Source/Car.cs:216-240 | a non-empty set of positive lengths has a positive shortest one |
| CarMotion.StepBound | Source/Car.cs:216-240 | some positive amount is at most the length of every segment with a `Next`, so each step of either loop uses up at least that much progress |
| CarMotion.RunAhead | Source/Car.cs:216-227 | the forward loop follows `Next` steps, subtracting each length passed; it leaves the track only at a segment without `Next` whose length the progress reaches or whose start it is past; otherwise it stops with progress below the length, and positive only where there is a `Next` |
| CarMotion.RunBehind | Source/Car.cs:229-240 | the backward loop follows `Prev` steps while the progress is negative, adding the length of each segment entered; it leaves before a segment without `Prev`, and otherwise stops with progress in [0, length) |
| CarMotion.Settle | Source/Car.cs:212-243 | the car ends where the two loops stop, the progress conserved across the lengths passed; it leaves the track exactly when it stands at an open end it must leave (reaching or past the start of a segment without `Next`, before the start of one without `Prev`); otherwise its progress lies in [0, length), and is 0 on a segment without `Next` |
| Cars.Neighbours | Source/Car.cs:103-112 | a car off the track has no neighbours; found neighbours are existing cars |
| Cars.Relink | Source/Car.cs:114-134 | relinking changes only the car and its two new neighbours |
| Cars.RelinkNeighbours | Source/Car.cs:114-134 | the car and its new neighbours point at each other, and it stays attached exactly when its `NextCar` did not change |
| Cars.RelinkTargets | Source/Car.cs:114-134 | every link after relinking is an old link, a new neighbour or the car |
| Cars.RelinkClosed | Source/Car.cs:114-134 | relinking to existing cars keeps references closed |
| Cars.UpdateAdjacentCars | Source/Car.cs:98-135 | only the car chain changes, relinked around the car's found neighbours, with references closed |
| Cars.Travel | Source/Car.cs:225-237 | passing through segments leaves the car on the last one and changes nothing else about the cars |
| Cars.TravelKeeps | Source/Car.cs:225-237 | passing through existing segments keeps references closed and lists in step with the cars |
| Cars.SetProgress | Source/Car.cs:224-238 | only the car's progress changes |
| Cars.Land | Source/Car.cs:218-242 | at an open end the car leaves the track; otherwise a car that changed segment relinks its neighbours and one that did not is unchanged |
| Cars.PathSegments | Source/Car.cs:212-243 | the segments entered are existing ones, none exactly when the car stays, and the last is where the walks end |
| Cars.Advance | Source/Car.cs:212-243 | the car's final progress and segment are the landing's, the invariants hold, and a car that stays put only changes its progress |
| Cars.UpdateCurrentTrackSegment | Source/Car.cs:212-243 | with the segments' lengths as input, the car ends where the two loops stop and leaves the track exactly at an open end it must leave, keeping every invariant |
| Cars.GetAttachedCarCount | Source/Car.cs:301-322 | the count is 1 plus the attached runs ahead and behind, at most the limit; it throws when the forward walk returns to the car or the count passes the limit |
| Cars.GetTrainHead | Source/Car.cs:324-336 | the head is reached by following attached `NextCar` links and has none further; it throws when the walk returns to the car or passes the limit |
| Cars.AxisGap | Source/Car.cs:194-196 | the gap to the box along an axis is non-negative, zero exactly inside, and at most the distance to any point of the interval |
| Cars.BoxGap | Source/Car.cs:191-196 | the gap vector is zero exactly inside the box |
| Cars.GetDistanceSquared | Source/Car.cs:187-199 | the squared distance is non-negative and zero exactly inside the box or at zero scale |
| Cars.ScaledGap | Source/Car.cs:198 | a scaled gap is zero exactly when the scale or the gap is zero |
| TrackMesh.Ceiling | Source/TrackMeshGeneration.cs:75 | the ceiling is the least integer at or above its argument |
| TrackMesh.SampleParams | Source/TrackMeshGeneration.cs:78-81 | the sampling angle and spacings are positive, with the maximum spacing 16 times the minimum |
| TrackMesh.GroundPos | Source/TrackMeshGeneration.cs:92 | the ground point is the sample dropped to height zero |
| TrackMesh.HitStart | Source/TrackMeshGeneration.cs:129 | the test line starts 1.5 hit ranges below the track |
| TrackMesh.Blocked | Source/TrackMeshGeneration.cs:131-139 | a support is blocked exactly when some crossover candidate reports the line |
| TrackMesh.Supported | Source/TrackMeshGeneration.cs:116-140 | a support needs the track level enough and upright; without candidates that is also sufficient |
| TrackMesh.SupportFlags | Source/TrackMeshGeneration.cs:81-140 | one support flag per sample, from the support test at that sample |
| TrackMesh.SupportQuads | Source/TrackMeshGeneration.cs:163-185 | side quads between supported samples, an opening cap at a run's start and a closing cap at its end |
| TrackMesh.CloseQuad | Source/TrackMeshGeneration.cs:182 | the quad closing a run is a closing cap |
| TrackMesh.TrackQuads | Source/TrackMeshGeneration.cs:187-192 | a top and a bottom quad join each sample to the one before, none for the first |
| TrackMesh.Step | Source/TrackMeshGeneration.cs:81-198 | one sample adds four track vertices, four more when supported, its recorded sample and its quads |
| TrackMesh.Run | Source/TrackMeshGeneration.cs:81-198 | the loop records one sample per input |
| TrackMesh.Finish | Source/TrackMeshGeneration.cs:200-203 | an open support run gets its closing cap after the loop |
| TrackMesh.Generate | Source/TrackMeshGeneration.cs:47-203 | a mesh records one sample per curve sample |
| TrackMesh.CountAppend | Source/TrackMeshGeneration.cs:163-203 | counts of a quad kind add over concatenation |
| TrackMesh.RisesFalls | Source/TrackMeshGeneration.cs:163-203 | support runs begun and ended differ only by the runs open at each end |
| TrackMesh.RunCounts | Source/TrackMeshGeneration.cs:81-198 | the loop adds, per kind, the quads the support flags dictate |
| TrackMesh.GenerateTrackCounts | Source/TrackMeshGeneration.cs:187-192 | a mesh has one top and one bottom quad per pair of consecutive samples |
| TrackMesh.GenerateCapCounts | Source/TrackMeshGeneration.cs:163-203 | a mesh has one opening and one closing cap per maximal run of supported samples |
| TrackMesh.GenerateSideCounts | Source/TrackMeshGeneration.cs:163-167 | a mesh has a left and a right side quad per pair of consecutive supported samples |
| TrackMesh.RunCaps | Source/TrackMeshGeneration.cs:163-198 | the loop keeps a run open exactly while the last sample is supported and never caps out of turn |
| TrackMesh.GenerateCapsAlternate | Source/TrackMeshGeneration.cs:163-203 | opening and closing caps alternate, starting with an opening one, and no run is left open |
| TrackMesh.GenerateSamples | Source/TrackMeshGeneration.cs:81-83 | each recorded sample is the curve's fraction clamped to [0, 1], supported exactly when the support test passes there |
| TrackMesh.GenerateTexAscending | Source/TrackMeshGeneration.cs:94-100 | the support texture coordinate never decreases along the samples |
| TrackMesh.GenerateVertices | Source/TrackMeshGeneration.cs:107-161 | a mesh has four vertices per sample and four more per supported sample |
| TrackMesh.GenerateIndices | Source/TrackMeshGeneration.cs:107-192 | every quad refers only to vertices the mesh has |
| TrackMesh.GenerateFollowsRules | Source/TrackMeshGeneration.cs:81-203 | every generated mesh obeys all the emission rules at once |
| MeshUpdate.Crossovers | Source/TrackMeshGeneration.cs:63-73 | with every successor already resolved, the candidates are exactly the other enumerated segments that have a successor and could cross over, in enumeration order |
| MeshUpdate.Visit | Source/TrackMeshGeneration.cs:64-72 | a scanned entry that is the segment itself is skipped and changes nothing; any other segment has its pending successor id resolved, no other segment data changes, and it is kept only when it could cross over; with nothing pending the world is unchanged and the entry is kept exactly when it is a candidate |
| MeshUpdate.Scan | Source/TrackMeshGeneration.cs:63-73 | the scan keeps the world ready and changes segment data only in pending successor ids; with nothing pending it changes nothing and keeps exactly the candidates |
| MeshUpdate.ScanKeeps | Source/TrackMeshGeneration.cs:64-72 | every kept segment is an enumerated one other than the segment itself that could cross over |
| MeshUpdate.ScanResolves | Source/TrackMeshGeneration.cs:64-67 | every scanned segment other than the segment itself ends with its pending successor id resolved; the segment itself and unscanned segments keep their data |
| MeshUpdate.MarkMeshBuilt | Source/TrackMeshGeneration.cs:33 | clearing the mesh flag touches no other flag |
| MeshUpdate.MeshSetting | Source/TrackMeshGeneration.cs:59-81 | the loop gets the candidates, a hit range of two chunk units, and a `tScale` that is the curve length in chunk units rounded up to a whole number |
| MeshUpdate.MeshSamples | Source/TrackMeshGeneration.cs:78-83 | the fractions a biarc returns for the mesh's sampling parameters run from 0 up to exactly 1 in strictly ascending order, so the clamp leaves each unchanged, and consecutive ones are less than four chunk units apart along the curve |
| MeshUpdate.UpdateTrackMesh | Source/TrackMeshGeneration.cs:31-73 | the update throws exactly when the segment has no id and the counter's id is taken; otherwise the world stays ready with the same segments and the segment's own pending successor id is resolved |
| MeshUpdate.UpdateTrackMeshResolves | Source/TrackMeshGeneration.cs:45-73 | when the segment has a successor, every enumerated segment's pending successor id is resolved as well |
| MeshUpdate.UpdateTrackMeshSettled | Source/TrackMeshGeneration.cs:31-207 | with nothing pending, links, cars and car lists are unchanged, only the segment's mesh flag changes (to clean), nothing becomes pending, and the mesh is empty without a successor and otherwise the emission loop over exactly the candidates |
| MeshUpdate.UpdateTrackMeshEmits | Source/TrackMeshGeneration.cs:43-203 | a rebuilt mesh is the cleared generator or follows the emission rules |
| MeshUpdate.UpdateTrackMeshEmpty | Source/TrackMeshGeneration.cs:43-203 | with nothing pending, the mesh is empty for a segment without a successor and follows the emission rules otherwise |
| MeshUpdate.SettingsFollowRules | Source/TrackMeshGeneration.cs:75-203 | the emission loop follows the rules whatever the crossover candidates |
| MeshUpdate.CrossoverBlocksSupport | Source/TrackMeshGeneration.cs:129-139 | a candidate crossing the vertical line below a sample removes that sample's support |
| MeshUpdate.UpdateTransformReady | Source/TrackSegment.cs:276-300 | updating the transform keeps the world ready and, when nothing is pending, leaves nothing pending |
| MeshUpdate.RebuildCleans | Source/TrackMeshGeneration.cs:33 | with nothing pending, a rebuild leaves the mesh flag clean and the transform flag as it was |
| MeshUpdate.OnPreRender | Source/TrackMeshGeneration.cs:215-219 | a clean segment renders nothing new; a mesh is rebuilt exactly when either flag was dirty; with nothing pending both flags end clean |
| MeshUpdate.OnPreRenderSettles | Source/TrackMeshGeneration.cs:215-219 | with nothing pending, a second render right after one has nothing to rebuild |
| CoasterTool.SelectionRange | Source/CoasterTool.cs:13 | the selection range is twice the wand scale or half a unit, whichever is larger, in chunk units |
| CoasterTool.ClosestIndex | Source/CoasterTool.cs:30-37 | none is found exactly when no segment qualifies; otherwise the pick qualifies and is nearest, the earliest among equally near |
| CoasterTool.FindClosest | Source/CoasterTool.cs:30-37 | the found segment satisfies the condition, is within range and is no farther than any other qualifying segment |
| CoasterTool.FindClosestWithin | Source/CoasterTool.cs:25-28 | a segment being manipulated is never picked, and nothing is found exactly when every other segment is out of range |
| CoasterTool.FindClosestInRange | Source/CoasterTool.cs:20-23 | the same within the wand's selection range |
| CoasterTool.ClosestIndexUnique | Source/CoasterTool.cs:35-36 | a qualifying, nearest and earliest segment is the pick |
| CoasterTool.ClosestKeptWhenNarrowed | Source/CoasterTool.cs:30-37 | narrowing the range keeps the pick while the pick is still within it |

## Left out

- Engine calls: raycasts, transforms, `Quaternion` arithmetic and the curve-versus-line test are parameters (oracles), not computations.
- `RoadTool.OnUpdate`, `CanRideCar` and `TryRideClosestCar` (`Source/CoasterTool.cs:15-18`, `39-75`): they are input handling and camera riding.
- `TrackTool` and `CoasterCarTool`: they are VR input handling.
- Car physics, audio and riding (`Source/Car.cs:266-294`, `338-462`): these are engine physics.
- The explosion and sound effects of `DetachFromTrack` (`Source/Car.cs:167-184`): they are engine effects.
- `Car.UpdatePositionFinal` and `GetTrackTransform`: the position and rotation they give the car come from the curve through engine math. What they read is covered by the lines `SegmentLifecycle.GetNext:` (the `Next` getter, `Source/TrackSegment.cs:350`) and `TrackWorld.Flags:` (the curve's `InverseLength`, `Source/TrackSegment.cs:363`).
- `OnGetRotation`, `FindRotation` and the quaternion blending of `BiarcBezierComposite` (`Source/BiarcBezierComposite.cs:84-94`): only the clamped sample fractions are modelled.
- Debug drawing (`Source/BiarcBezierComposite.cs:96-104`).
- `Debug.Assert` (`Source/TrackSegment.cs:249`).
- Manipulation and guide-transform handling: `IsManipulating`, `StartManipulating`, `StopManipulating`, `Source/TrackSegment.cs:239-242` and `284-291`. The flag is kept only as the filter of `FindClosest`.
- Highlighting, `GuidesVisible` and `InvalidateTransform`: they only drive rendering state.
- Vertex positions, UVs and submeshes of the generated mesh: the mesh is modelled as counts, quad kinds, sample records and indices.
- IEEE float behaviour: rounding, NaN and infinities. Divisions the source may take by zero are guarded by preconditions instead.
- The partial state a thrown exception leaves behind: an `Err` result carries no world.
- Dictionary enumeration order: it is a parameter (`all`).
- Affine invariance of the Bézier evaluation is not stated.
- Biarc.OnGetPosition: states the circle the point lies on, not the angle along it, because the angle goes through the `acos`/`atan2` oracle.
- Biarc.PositionAtEnd: requires the second arc to be at least Epsilon long. For a shorter arc the source returns `Center + Axis2` (`Source/Biarc.cs:262`), which is not the end keypoint in general.
- TrackMesh.GenerateTexAscending: states the monotonicity of the support texture coordinate only. The track texture coordinate is `t·tScale` over clamped fractions and is not stated.
- TrackSearch.FindCar: walks the resolved links. The lazy `_nextId` resolution a walk may trigger through the `Next` getter is not modelled.
- MeshUpdate.UpdateTrackMesh: promises clean flags only when no successor id is pending, because resolving a pending id runs the setter, which marks the mesh dirty again. The candidates' own curve recomputation, a side effect of their `CouldCrossOver` query, is not modelled; their answers are the input `couldCross`.
- MeshUpdate.OnPreRender: promises clean flags only when no successor id is pending, for the same reason as `UpdateTrackMesh`.
- MeshUpdate.MeshSetting: the curve length is an input (`KeypointCurve.GetLength` of the segment's curve), not recomputed from the poses here.
- Cars.UpdateCurrentTrackSegment: requires that no segment has a pending saved successor id. The C# loops read `Next` through the getter, which could resolve such an id mid-walk; the model walks the resolved links. Segment lengths are an input (`KeypointCurve.GetLength` of each segment's curve).
- CarMotion.Settle: requires a positive length on every segment with a successor. A zero-length segment is allowed only at an open end; a loop of zero-length segments would make the C# loops run forever.
- TrackWorld.Flags: the world holds only the mesh and transform flags. The curve's `_invalidated` cache flag is left out of the world: every curve read (`Length`, `InverseLength`, `GetDeltas`, `GetPosition` and the queries, `Source/KeypointCurve.cs:39`, `51`, `63`, `113`) refreshes it, and such reads happen in the car walk (`Source/Car.cs:216`, `224`, `238`), in `DetachFromTrack` through `UpdatePositionFinal` (`Source/TrackSegment.cs:363`) and in the mesh rebuild (`Source/TrackMeshGeneration.cs:75`). That cache is modelled on its own by `KeypointCurve.Invalidate`, `Prepare` and `Query`; the world operations say nothing about whether a segment's curve is clean.
- SegmentLifecycle.GetNext: models the getter's resolution of a pending id as one run of the setter. In the source, when the segment carries cars and the registered id names a segment other than its current successor, the setter detaches each car (`Source/TrackSegment.cs:152-155`). `DetachFromTrack` calls `UpdatePositionFinal` (`Source/Car.cs:158`, `206`), which reaches `GetTrackTransform` (`Source/TrackSegment.cs:363`). That reads the `Next` getter again (`Source/TrackSegment.cs:350`) while `_nextId` is still pending (it is reset only at line 143), `_next` is not yet stored (line 157) and the car is still listed (`Source/Car.cs:159` has not run). The recursion never ends. For that input the model returns the relinked world, and `LinkPending`, `Visit` and `Scan` inherit this.
- KeypointCurve.UpdateCurve: a segment without a successor ends its curve at its own pose, so the chord is zero and the tangents are equal. The source's semicircle branch then divides by the zero chord (`Source/Biarc.cs:138`), giving length 0 and non-finite axes. The solver's precondition (`FindDefined`, through `CanUpdate`) excludes that case, so the model says nothing about such a curve.
- Cars.GetDistanceSquared: takes the point already in the car mesh's local space, and a uniform scale. The rotation in `InverseTransformPosition` and `TransformVector` is engine math.
- SegmentLifecycle.CreateFromEnd: the new segment's position is not modelled; its rotation is copied from the segment (`Extend`), and its links, id and registration are modelled.
- TrackRecord.SaveLoadRoundTrip: requires the saved id to be free in the target world, because the source throws otherwise. It also requires the id not to be -1, which a segment reads as "no id".
