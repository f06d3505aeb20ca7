/** The segment's side of the track mesh: `UpdateTrackMesh` on the world
    (clear the mesh flag, force the id, read `Next`, pick the crossover
    candidates and run the emission loop) and `OnPreRender`, which
    brings the transform and then the mesh up to date when they are
    dirty. */
module MeshUpdate {
  import opened Base
  import opened Geometry
  import opened Selection
  import opened TrackWorld
  import opened TrackSegments
  import opened SegmentLifecycle
  import opened TrackMesh
  import Biarc
  import BiarcSampling

  /** What one mesh update reads besides the world: the numeric
      primitives, the scene, the registered segments in the registry's
      enumeration order (`GetAll`), each segment's `CouldCrossOver(this,
      hitRange)` answer, `World.ChunkSize`, the curve's `Length` and the
      raw fractions the curve's `GetDeltas` returns. */
  datatype MeshInputs = MeshInputs(
    m: Numerics,
    scene: Scene,
    all: seq<SegId>,
    couldCross: SegId -> bool,
    chunkSize: real,
    length: real,
    raw: seq<real>)

  /** The invariants a mesh update relies on: references are closed,
      registered ids name segments and the id counter is a C# `int`. */
  predicate Ready(w: World) {
    Closed(w) && RegistryClosed(w) && Int32Min <= w.nextUniqueId <= Int32Max
  }

  /** Whether segment `x` is kept as a crossover candidate of `s` when its
      successor is already resolved. */
  predicate Candidate(links: map<SegId, Link>, s: SegId, couldCross: SegId -> bool, x: SegId) {
    x != s && x in links && links[x].next.Some? && couldCross(x)
  }

  /** The candidates when no `Next` read has a saved id to resolve: the
      other segments that have a successor and could cross over, in
      enumeration order. */
  function Crossovers(links: map<SegId, Link>, s: SegId, all: seq<SegId>, couldCross: SegId -> bool): (r: seq<SegId>)
    ensures forall x :: x in r <==> x in all && Candidate(links, s, couldCross, x)
    ensures s !in r
    ensures |r| <= |all|
  {
    Filter(all, x => Candidate(links, s, couldCross, x))
  }

  /** Segment data that differs at most in the pending successor ids. */
  predicate SameButNextIds(w: World, r: World) {
    && r.segs.Keys == w.segs.Keys
    && forall x :: x in w.segs ==> r.segs[x] == w.segs[x].(nextId := r.segs[x].nextId)
  }

  /** One entry `x` of the crossover scan for `s`: skipped when it is `s`
      itself or not a segment of the world; otherwise its `Next` is read
      through the getter, and it is kept when it then has a successor and
      could cross over. */
  function Visit(w: World, s: SegId, couldCross: SegId -> bool, x: SegId): (r: (World, bool))
    requires Ready(w)
    ensures Ready(r.0) && r.0.registry == w.registry && r.0.nextUniqueId == w.nextUniqueId
    ensures SameButNextIds(w, r.0)
    ensures forall y :: y in w.segs && y != x ==> r.0.segs[y] == w.segs[y]
    ensures x in w.segs && x != s ==> r.0.segs[x].nextId == -1
    ensures x == s ==> r.0 == w
    ensures r.1 ==> x != s && couldCross(x)
    ensures NonePending(w) ==> r == (w, Candidate(w.links, s, couldCross, x))
  {
    if x == s || x !in w.segs then (w, false)
    else
      var (w1, next) := GetNext(w, x);
      (w1, next.Some? && couldCross(x))
  }

  /** The scan for `_potentialCrossovers`: every enumerated segment other
      than `s` has its `Next` read through the getter, which resolves a
      pending successor id through the setter (relinking segments,
      detaching cars and dirtying meshes); the segments that then have a
      successor and could cross over are kept, in enumeration order. */
  function Scan(w: World, s: SegId, all: seq<SegId>, couldCross: SegId -> bool): (r: (World, seq<SegId>))
    requires Ready(w)
    ensures Ready(r.0) && r.0.registry == w.registry && r.0.nextUniqueId == w.nextUniqueId
    ensures SameButNextIds(w, r.0)
    ensures NonePending(w) ==> r == (w, Crossovers(w.links, s, all, couldCross))
    decreases |all|
  {
    if all == [] then (w, [])
    else
      var (w1, keep) := Visit(w, s, couldCross, all[0]);
      var (u, rest) := Scan(w1, s, all[1..], couldCross);
      (u, if keep then [all[0]] + rest else rest)
  }

  /** The scan keeps only other enumerated segments that could cross
      over. */
  lemma {:induction false} ScanKeeps(w: World, s: SegId, all: seq<SegId>, couldCross: SegId -> bool)
    requires Ready(w)
    ensures forall x :: x in Scan(w, s, all, couldCross).1 ==> x in all && x != s && couldCross(x)
    decreases |all|
  {
    if all != [] {
      var (w1, keep) := Visit(w, s, couldCross, all[0]);
      var kept := Scan(w, s, all, couldCross).1;
      var rest := Scan(w1, s, all[1..], couldCross).1;
      ScanKeeps(w1, s, all[1..], couldCross);
      assert kept == if keep then [all[0]] + rest else rest;
      KeptFrom(all, kept, rest, keep, s, couldCross);
    }
  }

  /** One step of `ScanKeeps`: the head, when kept, and everything kept
      from the tail are other enumerated segments that could cross over. */
  lemma KeptFrom(all: seq<SegId>, kept: seq<SegId>, rest: seq<SegId>, keep: bool, s: SegId, couldCross: SegId -> bool)
    requires all != [] && kept == (if keep then [all[0]] + rest else rest)
    requires keep ==> all[0] != s && couldCross(all[0])
    requires forall x :: x in rest ==> x in all[1..] && x != s && couldCross(x)
    ensures forall x :: x in kept ==> x in all && x != s && couldCross(x)
  {
    forall x | x in kept ensures x in all && x != s && couldCross(x) {
      if x != all[0] || !keep {
        assert x in rest;
        assert x in all[1..];
      }
    }
  }

  /** The scan resolves the pending successor id of every scanned segment
      and leaves the segment data of `s` and of unscanned segments alone. */
  lemma {:induction false} ScanResolves(w: World, s: SegId, all: seq<SegId>, couldCross: SegId -> bool)
    requires Ready(w)
    ensures var u := Scan(w, s, all, couldCross).0;
            && (forall x :: x in w.segs && (x == s || x !in all) ==> u.segs[x] == w.segs[x])
            && (forall x :: x in all && x in w.segs && x != s ==> u.segs[x].nextId == -1)
    decreases |all|
  {
    if all != [] {
      var w1 := Visit(w, s, couldCross, all[0]).0;
      var u := Scan(w, s, all, couldCross).0;
      ScanResolves(w1, s, all[1..], couldCross);
      assert u == Scan(w1, s, all[1..], couldCross).0;
      forall x | x in w.segs && (x == s || x !in all) ensures u.segs[x] == w.segs[x] {
        assert x in w1.segs && (x == s || x !in all[1..]);
        assert x == s || x != all[0];
      }
      forall x | x in all && x in w.segs && x != s ensures u.segs[x].nextId == -1 {
        assert x in w1.segs;
        if x !in all[1..] {
          assert x == all[0];
        }
      }
    }
  }

  /** `_trackInvalid = false`. */
  function MarkMeshBuilt(w: World, s: SegId): (r: World)
    requires s in w.segs && Closed(w)
    ensures FlagsOnly(w, r) && Closed(r)
    ensures r.flags[s] == w.flags[s].(trackInvalid := false)
    ensures forall x :: x in w.flags && x != s ==> r.flags[x] == w.flags[x]
  {
    w.(flags := w.flags[s := w.flags[s].(trackInvalid := false)])
  }

  /** The loop's fixed inputs: the crossover candidates, `hitRange = 2 /
      ChunkSize` and `tScale = Ceiling(Length * ChunkSize)`, the number of
      chunk units along the curve rounded up. */
  function MeshSetting(crossovers: seq<SegId>, inputs: MeshInputs): (st: Setting)
    requires inputs.chunkSize > 0.0
    ensures st.crossovers == crossovers && st.scene == inputs.scene
    ensures st.hitRange * inputs.chunkSize == 2.0
    ensures inputs.length * inputs.chunkSize <= st.tScale < inputs.length * inputs.chunkSize + 1.0
    ensures st.tScale == st.tScale.Floor as real
  {
    Setting(inputs.m, inputs.scene, crossovers, 2.0 / inputs.chunkSize, inputs.chunkSize,
            Ceiling(inputs.length * inputs.chunkSize) as real)
  }

  /** The raw fractions a biarc curve hands the rebuild when asked with
      the mesh's sampling parameters: they run from 0 up to exactly 1, so
      the clamp of each changes nothing, and two consecutive ones are less
      than four chunk units apart along the curve. */
  lemma MeshSamples(g: Biarc.Geom, chunkSize: real)
    requires chunkSize > 0.0 && BiarcSampling.Sampleable(g)
    ensures var p := SampleParams(chunkSize);
            var raw := BiarcSampling.OnGetDeltas(g, p.0, p.1, p.2);
            && raw[0] == 0.0 && raw[|raw| - 1] == 1.0
            && BiarcSampling.StrictlyAscending(raw)
            && (forall i :: 0 <= i < |raw| ==> Clamp01(raw[i]) == raw[i])
            && BiarcSampling.GapsBelow(raw, g.arc1.arcLength + g.arc2.arcLength, 4.0 / chunkSize)
  {
    var p := SampleParams(chunkSize);
    BiarcSampling.DeltasSpacing(g, p.0, p.1, p.2);
    SplitGapsBelow(BiarcSampling.OnGetDeltas(g, p.0, p.1, p.2), BiarcSampling.SplitFraction(g),
                   g.arc1.arcLength + g.arc2.arcLength,
                   BiarcSampling.SampleSpacing(g.arc1, p.0, p.1, p.2),
                   BiarcSampling.SampleSpacing(g.arc2, p.0, p.1, p.2), 4.0 / chunkSize);
  }

  /** Gaps below their arc's spacing and below the maximum are below the
      maximum. */
  lemma SplitGapsBelow(r: seq<real>, mid: real, length: real, dist1: real, dist2: real, maxDist: real)
    requires BiarcSampling.SplitGaps(r, mid, length, dist1, dist2, maxDist)
    ensures BiarcSampling.GapsBelow(r, length, maxDist)
  {
  }

  /** `UpdateTrackMesh`: the mesh flag is cleared first, the id is forced
      (which throws when the counter's id is taken), and `Next` is read
      through its getter. Without a successor the mesh is the cleared
      generator; otherwise the other segments are scanned for crossover
      candidates and the mesh is the emission loop over the curve's
      samples. */
  function UpdateTrackMesh(w: World, s: SegId, inputs: MeshInputs): (r: Result<(World, Mesh), SegmentError>)
    requires s in w.segs && Ready(w) && inputs.chunkSize > 0.0
    ensures w.segs[s].uniqueId != -1 ==> r.Ok?
    ensures r.Err? <==> w.segs[s].uniqueId == -1 && w.nextUniqueId in w.registry
    ensures r.Ok? ==> Ready(r.value.0) && r.value.0.segs.Keys == w.segs.Keys
    ensures r.Ok? ==> r.value.0.segs[s].nextId == -1
  {
    var w1 := MarkMeshBuilt(w, s);
    match UniqueId(w1, s)
    case Err(e) => Err(e)
    case Ok((w2, _)) =>
      UniqueIdKeepsClosed(w1, s);
      var (w3, next) := GetNext(w2, s);
      if next.None? then Ok((w3, EmptyMesh))
      else
        var (w4, crossovers) := Scan(w3, s, inputs.all, inputs.couldCross);
        ScanResolves(w3, s, inputs.all, inputs.couldCross);
        Ok((w4, Generate(MeshSetting(crossovers, inputs), inputs.raw)))
  }

  /** After the update the segment's own saved successor id is resolved,
      and so, when it has a successor, is that of every scanned segment. */
  lemma UpdateTrackMeshResolves(w: World, s: SegId, inputs: MeshInputs)
    requires s in w.segs && Ready(w) && inputs.chunkSize > 0.0
    requires UpdateTrackMesh(w, s, inputs).Ok?
    ensures var u := UpdateTrackMesh(w, s, inputs).value.0;
            || u.links[s].next.None?
            || forall x :: x in inputs.all && x in w.segs ==> u.segs[x].nextId == -1
  {
    var w1 := MarkMeshBuilt(w, s);
    var w2 := UniqueId(w1, s).value.0;
    UniqueIdKeepsClosed(w1, s);
    var (w3, next) := GetNext(w2, s);
    if next.Some? {
      ScanResolves(w3, s, inputs.all, inputs.couldCross);
    }
  }

  /** With no saved successor id pending anywhere, the update changes only
      the segment's mesh flag (and possibly its id), and the mesh is empty
      without a successor and otherwise the emission loop over the other
      segments that have a successor and could cross over. */
  lemma UpdateTrackMeshSettled(w: World, s: SegId, inputs: MeshInputs)
    requires s in w.segs && Ready(w) && inputs.chunkSize > 0.0 && NonePending(w)
    requires UpdateTrackMesh(w, s, inputs).Ok?
    ensures var (u, mesh) := UpdateTrackMesh(w, s, inputs).value;
            && u.links == w.links && u.cars == w.cars && u.lists == w.lists
            && u.flags == w.flags[s := w.flags[s].(trackInvalid := false)]
            && NonePending(u)
            && mesh == if w.links[s].next.None? then EmptyMesh
                       else Generate(MeshSetting(Crossovers(w.links, s, inputs.all, inputs.couldCross), inputs), inputs.raw)
  {
    var w1 := MarkMeshBuilt(w, s);
    var w2 := UniqueId(w1, s).value.0;
    UniqueIdKeepsClosed(w1, s);
    assert NonePending(w2);
    var (w3, next) := GetNext(w2, s);
    assert w3 == w2;
  }

  /** A rebuilt mesh is empty or follows the emission rules over the
      curve's samples. */
  lemma UpdateTrackMeshEmits(w: World, s: SegId, inputs: MeshInputs)
    requires s in w.segs && Ready(w) && inputs.chunkSize > 0.0
    requires UpdateTrackMesh(w, s, inputs).Ok?
    ensures var mesh := UpdateTrackMesh(w, s, inputs).value.1;
            mesh == EmptyMesh || FollowsRules(inputs.scene, inputs.raw, mesh)
  {
    UniqueIdKeepsClosed(MarkMeshBuilt(w, s), s);
    SettingsFollowRules(inputs);
  }

  /** The emission loop follows the rules whatever the candidates. */
  lemma SettingsFollowRules(inputs: MeshInputs)
    requires inputs.chunkSize > 0.0
    ensures forall cr :: FollowsRules(inputs.scene, inputs.raw, Generate(MeshSetting(cr, inputs), inputs.raw))
  {
    forall cr ensures FollowsRules(inputs.scene, inputs.raw, Generate(MeshSetting(cr, inputs), inputs.raw)) {
      GenerateFollowsRules(MeshSetting(cr, inputs), inputs.raw);
    }
  }

  /** With nothing pending, the rebuilt mesh is empty exactly for a
      segment without a successor, and follows the emission rules
      otherwise. */
  lemma UpdateTrackMeshEmpty(w: World, s: SegId, inputs: MeshInputs)
    requires s in w.segs && Ready(w) && inputs.chunkSize > 0.0 && NonePending(w)
    requires UpdateTrackMesh(w, s, inputs).Ok?
    ensures var mesh := UpdateTrackMesh(w, s, inputs).value.1;
            && (w.links[s].next.None? ==> mesh.quads == [] && mesh.vertices == 0)
            && (w.links[s].next.Some? ==> FollowsRules(inputs.scene, inputs.raw, mesh))
  {
    UpdateTrackMeshSettled(w, s, inputs);
    if w.links[s].next.Some? {
      GenerateFollowsRules(MeshSetting(Crossovers(w.links, s, inputs.all, inputs.couldCross), inputs), inputs.raw);
    }
  }

  /** A sample is left without a support when some crossover candidate
      reports the vertical line below it. */
  lemma CrossoverBlocksSupport(crossovers: seq<SegId>, inputs: MeshInputs, x: SegId, t: real)
    requires inputs.chunkSize > 0.0 && x in crossovers
    requires var st := MeshSetting(crossovers, inputs);
             var f := inputs.scene.frameAt(t);
             var start := HitStart(f.position, st.hitRange);
             inputs.scene.lineHit(x, start, Vec(start.x, inputs.scene.groundAt(f.position).GetOr(0.0), start.z))
    ensures !Supported(MeshSetting(crossovers, inputs), inputs.scene.frameAt(t))
  {
    var i :| 0 <= i < |crossovers| && crossovers[i] == x;
  }

  // ----------------------------------------------------------- OnPreRender

  /** `UpdateTransform` keeps the registry closed and leaves every pending
      successor id alone. */
  lemma UpdateTransformReady(w: World, s: SegId)
    requires s in w.segs && Ready(w)
    ensures UpdateTransform(w, s).Ok? ==>
              && Ready(UpdateTransform(w, s).value)
              && (NonePending(w) ==> NonePending(UpdateTransform(w, s).value))
  {
    if UpdateTransform(w, s).Ok? {
      UniqueIdKeepsClosed(w, s);
    }
  }

  /** `OnPreRender`: a dirty transform is updated first, which also dirties
      the mesh; a dirty mesh is then rebuilt. The mesh is `None` when it
      was not rebuilt. */
  function OnPreRender(w: World, s: SegId, inputs: MeshInputs): (r: Result<(World, Option<Mesh>), SegmentError>)
    requires s in w.segs && Ready(w) && inputs.chunkSize > 0.0
    ensures !w.flags[s].transformInvalid && !w.flags[s].trackInvalid ==> r == Ok((w, None))
    ensures r.Ok? ==> (r.value.1.Some? <==> w.flags[s].transformInvalid || w.flags[s].trackInvalid)
    ensures r.Ok? ==> Ready(r.value.0) && r.value.0.segs.Keys == w.segs.Keys
    ensures r.Ok? && NonePending(w) ==>
              !r.value.0.flags[s].transformInvalid && !r.value.0.flags[s].trackInvalid
  {
    UpdateTransformReady(w, s);
    var w1 := if w.flags[s].transformInvalid then UpdateTransform(w, s) else Ok(w);
    match w1
    case Err(e) => Err(e)
    case Ok(w1) =>
      if w1.flags[s].trackInvalid then
        RebuildCleans(w1, s, inputs);
        match UpdateTrackMesh(w1, s, inputs)
        case Err(e) => Err(e)
        case Ok((w2, mesh)) => Ok((w2, Some(mesh)))
      else Ok((w1, None))
  }

  /** With nothing pending, a rebuild leaves the segment's mesh flag clean
      and its transform flag as it was. */
  lemma RebuildCleans(w: World, s: SegId, inputs: MeshInputs)
    requires s in w.segs && Ready(w) && inputs.chunkSize > 0.0
    ensures NonePending(w) && UpdateTrackMesh(w, s, inputs).Ok? ==>
              var f := UpdateTrackMesh(w, s, inputs).value.0.flags;
              s in f && !f[s].trackInvalid && f[s].transformInvalid == w.flags[s].transformInvalid
  {
    if NonePending(w) && UpdateTrackMesh(w, s, inputs).Ok? {
      UpdateTrackMeshSettled(w, s, inputs);
    }
  }

  /** Right after a render with no saved successor id pending anywhere, a
      second render has nothing to rebuild. */
  lemma OnPreRenderSettles(w: World, s: SegId, inputs: MeshInputs)
    requires s in w.segs && Ready(w) && inputs.chunkSize > 0.0
    requires NonePending(w) && OnPreRender(w, s, inputs).Ok?
    ensures var u := OnPreRender(w, s, inputs).value.0;
            OnPreRender(u, s, inputs) == Ok((u, None))
  {
  }
}
