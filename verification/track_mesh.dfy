/** The bookkeeping of `UpdateTrackMesh`: for every sample of the curve the
    loop adds four track vertices and, where the track can stand on a
    support, four support vertices, and it joins them into quads. Track
    quads join each sample to the one before it; a run of supported
    samples gets an opening cap, side quads between consecutive supported
    samples, and a closing cap when the run ends or the samples do.

    Vertex positions, normals, UVs and surfaces are rendering data and are
    not modelled: a vertex is its index in the generator, which is the
    number of vertices added before it. What the loop reads from the
    engine (the track frame at a curve fraction, the downward raycast and
    the crossover candidates' line tests) is supplied as a `Scene`. */
module TrackMesh {
  import opened Base
  import opened Geometry
  import opened TrackWorld

  /** A sample is not supported once `|right . Y|` reaches this, about
      the cosine of 30 degrees. */
  const MaxBank: real := 0.866

  /** `GetTrackTransform` at a curve fraction: the position and the
      rotated `UnitX` and `UnitY`. */
  datatype Frame = Frame(position: Vec, right: Vec, up: Vec)

  /** What the loop asks the engine: the track frame at a fraction, the
      height of the ground hit by `RaycastWorld` from a point (nothing on a
      miss), and whether crossover candidate `c`'s
      `IsApproximatelyInLineRange` reports the vertical line from one point
      to another. */
  datatype Scene = Scene(
    frameAt: real -> Frame,
    groundAt: Vec -> Option<real>,
    lineHit: (SegId, Vec, Vec) -> bool)

  /** The inputs that stay fixed through one mesh update: the numeric
      primitives, the scene, the crossover candidates, `hitRange`,
      `World.ChunkSize` and `tScale`. */
  datatype Setting = Setting(
    m: Numerics,
    scene: Scene,
    crossovers: seq<SegId>,
    hitRange: real,
    chunkSize: real,
    tScale: real)

  /** Which of the `AddQuadIndices` calls a quad comes from. */
  datatype QuadKind = TrackTop | TrackBottom | OpenCap | LeftSide | RightSide | CloseCap

  datatype Quad = Quad(kind: QuadKind, a: nat, b: nat, c: nat, d: nat)

  /** The indices of one sample's four track vertices (`ttl`, `ttr`,
      `tbl`, `tbr`) or four support vertices (`stl`, `str`, `sbl`,
      `sbr`). */
  datatype Corners = Corners(tl: nat, tr: nat, bl: nat, br: nat)

  /** The loop's values at one sample, as its vertices carry them: the
      clamped fraction, whether it is supported, and the two texture
      coordinates. */
  datatype SampleOut = SampleOut(t: real, supported: bool, trackTex: real, supportTex: real)

  /** The loop's state: `first`, `prevSupported`, `trackTex`,
      `supportTex`, `prevGroundPos`, the previous sample's track and
      support corners, the number of vertices in the generator, the quads
      so far, and what each sample recorded. */
  datatype Emitter = Emitter(
    first: bool,
    prevSupported: bool,
    trackTex: real,
    supportTex: real,
    prevGround: Vec,
    track: Corners,
    support: Corners,
    vertices: nat,
    quads: seq<Quad>,
    samples: seq<SampleOut>)

  /** The generator right after `Clear()`, before the first sample. */
  const Start: Emitter := Emitter(true, false, 0.0, 0.0, Zero, Corners(0, 0, 0, 0), Corners(0, 0, 0, 0), 0, [], [])

  /** `MathF.Ceiling`. */
  function Ceiling(x: real): (r: int)
    ensures x <= r as real < x + 1.0
  {
    -((-x).Floor)
  }

  /** The sampling parameters the mesh asks `GetDeltas` for: an angle step
      of pi/32 and arc-length spacing between a quarter and four chunk
      units. */
  function SampleParams(chunkSize: real): (p: (real, real, real))
    requires chunkSize > 0.0
    ensures 0.0 < p.0 && 0.0 < p.1 <= p.2
    ensures p.2 == 16.0 * p.1
  {
    (Pi / 32.0, (1.0 / 4.0) / chunkSize, 4.0 / chunkSize)
  }

  // ------------------------------------------------------------- support test

  /** `pos * (1, 0, 1)`: a point dropped to height zero. */
  function GroundPos(p: Vec): (r: Vec)
    ensures r.y == 0.0 && r.x == p.x && r.z == p.z
  {
    Vec(p.x, 0.0, p.z)
  }

  /** The top of the vertical test line: `hitRange * 1.5` below the
      track. */
  function HitStart(pos: Vec, hitRange: real): (r: Vec)
    ensures r.x == pos.x && r.z == pos.z && r.y == pos.y - hitRange * 1.5
  {
    pos.Sub(UnitY.Scale(hitRange).Scale(1.5))
  }

  /** The loop over the crossover candidates that stops at the first one
      reporting the line from `start` to `end`. */
  function Blocked(sc: Scene, cands: seq<SegId>, start: Vec, end: Vec): (r: bool)
    ensures r <==> exists i :: 0 <= i < |cands| && sc.lineHit(cands[i], start, end)
    decreases |cands|
  {
    if |cands| == 0 then false
    else if sc.lineHit(cands[0], start, end) then true
    else
      var rest := Blocked(sc, cands[1..], start, end);
      assert forall i :: 1 <= i < |cands| ==> cands[i] == cands[1..][i - 1];
      rest
  }

  /** Whether the track at frame `f` gets a support: it is not banked too
      far, not upside down, and no crossover candidate passes through the
      vertical line from below the track down to the ground (height 0 when
      the raycast misses). */
  function Supported(st: Setting, f: Frame): (r: bool)
    ensures r ==> Abs(f.right.y) < MaxBank && f.up.y > 0.0
    ensures st.crossovers == [] ==> (r <==> Abs(f.right.y) < MaxBank && f.up.y > 0.0)
  {
    if Abs(f.right.y) < MaxBank && f.up.y > 0.0 then
      var ground := st.scene.groundAt(f.position).GetOr(0.0);
      var start := HitStart(f.position, st.hitRange);
      !Blocked(st.scene, st.crossovers, start, Vec(start.x, ground, start.z))
    else false
  }

  /** Whether the sample at raw fraction `tRaw` is supported, read from
      the frame at the clamped fraction. */
  function SupportedAt(st: Setting, tRaw: real): bool {
    Supported(st, st.scene.frameAt(Clamp01(tRaw)))
  }

  /** The support flags of a whole sample sequence, one per sample. */
  function SupportFlags(st: Setting, raw: seq<real>): (r: seq<bool>)
    ensures |r| == |raw|
    ensures forall i :: 0 <= i < |raw| ==> r[i] == SupportedAt(st, raw[i])
    decreases |raw|
  {
    if |raw| == 0 then [] else [SupportedAt(st, raw[0])] + SupportFlags(st, raw[1..])
  }

  lemma FlagsTail(st: Setting, raw: seq<real>)
    requires |raw| > 0
    ensures SupportFlags(st, raw)[1..] == SupportFlags(st, raw[1..])
    ensures SupportFlags(st, raw)[0] == SupportedAt(st, raw[0])
  {
  }

  // ------------------------------------------------------------ one sample

  /** The support quads of a sample: side quads when the previous sample
      was supported too, an opening cap when it was not, the closing cap
      of the previous run when this sample is unsupported. */
  function SupportQuads(prev: bool, sup: bool, p: Corners, s: Corners): (r: seq<Quad>)
    ensures sup && prev ==> |r| == 2 && r[0].kind == LeftSide && r[1].kind == RightSide
    ensures sup && !prev ==> |r| == 1 && r[0].kind == OpenCap
    ensures !sup && prev ==> |r| == 1 && r[0].kind == CloseCap
    ensures !sup && !prev ==> r == []
  {
    if sup then
      if prev then [Quad(LeftSide, s.tl, p.tl, p.bl, s.bl), Quad(RightSide, s.br, p.br, p.tr, s.tr)]
      else [Quad(OpenCap, s.tl, s.tr, s.br, s.bl)]
    else if prev then [CloseQuad(p)]
    else []
  }

  /** The closing cap over the previous supported sample's corners. */
  function CloseQuad(p: Corners): (q: Quad)
    ensures q.kind == CloseCap
  {
    Quad(CloseCap, p.tr, p.tl, p.bl, p.br)
  }

  /** The top and bottom track quads joining a sample to the one before
      it; none for the first sample. */
  function TrackQuads(first: bool, p: Corners, t: Corners): (r: seq<Quad>)
    ensures first ==> r == []
    ensures !first ==> |r| == 2 && r[0].kind == TrackTop && r[1].kind == TrackBottom
  {
    if first then []
    else [Quad(TrackTop, t.tr, p.tr, p.tl, t.tl), Quad(TrackBottom, t.bl, p.bl, p.br, t.br)]
  }

  /** The support texture coordinate after moving to `ground`: it grows by
      the horizontal distance travelled, in chunk units, from the second
      sample on. */
  function NextSupportTex(st: Setting, e: Emitter, ground: Vec): real {
    if e.first then e.supportTex else e.supportTex + Length(st.m, ground.Sub(e.prevGround)) * st.chunkSize
  }

  /** One pass of the sample loop. */
  function Step(st: Setting, e: Emitter, tRaw: real): (r: Emitter)
    ensures !r.first && r.prevSupported == SupportedAt(st, tRaw)
    ensures r.vertices == e.vertices + (if r.prevSupported then 8 else 4)
    ensures r.samples == e.samples + [SampleOut(Clamp01(tRaw), r.prevSupported, r.trackTex, r.supportTex)]
    ensures r.quads == e.quads + SupportQuads(e.prevSupported, r.prevSupported, e.support, r.support)
                               + TrackQuads(e.first, e.track, r.track)
  {
    var t := Clamp01(tRaw);
    var f := st.scene.frameAt(t);
    var ground := GroundPos(f.position);
    var supportTex := NextSupportTex(st, e, ground);
    var trackTex := if e.first then e.trackTex else t * st.tScale;
    var v := e.vertices;
    var tc := Corners(v, v + 1, v + 2, v + 3);
    var sup := Supported(st, f);
    var sc := Corners(v + 4, v + 5, v + 6, v + 7);
    Emitter(
      first := false,
      prevSupported := sup,
      trackTex := trackTex,
      supportTex := supportTex,
      prevGround := ground,
      track := tc,
      support := if sup then sc else e.support,
      vertices := v + (if sup then 8 else 4),
      quads := e.quads + SupportQuads(e.prevSupported, sup, e.support, sc) + TrackQuads(e.first, e.track, tc),
      samples := e.samples + [SampleOut(t, sup, trackTex, supportTex)])
  }

  /** The sample loop over the rest of the samples. */
  function Run(st: Setting, e: Emitter, raw: seq<real>): (r: Emitter)
    ensures |r.samples| == |e.samples| + |raw|
    decreases |raw|
  {
    if |raw| == 0 then e else Run(st, Step(st, e, raw[0]), raw[1..])
  }

  /** After the loop: the last run of supports gets its closing cap. */
  function Finish(e: Emitter): (r: seq<Quad>)
    ensures e.prevSupported ==> r == e.quads + [CloseQuad(e.support)]
    ensures !e.prevSupported ==> r == e.quads
  {
    if e.prevSupported then e.quads + [CloseQuad(e.support)] else e.quads
  }

  /** What `_trackRenderer.Model.Update` receives: the number of vertices
      and the quads, plus the per-sample values. */
  datatype Mesh = Mesh(vertices: nat, quads: seq<Quad>, samples: seq<SampleOut>)

  /** The cleared generator. */
  const EmptyMesh: Mesh := Mesh(0, [], [])

  /** The mesh of a segment with a successor, built from the curve's
      samples. */
  function Generate(st: Setting, raw: seq<real>): (r: Mesh)
    ensures |r.samples| == |raw|
  {
    var e := Run(st, Start, raw);
    Mesh(e.vertices, Finish(e), e.samples)
  }

  // ---------------------------------------------------------------- counting

  /** The number of quads of one kind. */
  function Count(qs: seq<Quad>, k: QuadKind): nat
    decreases |qs|
  {
    if |qs| == 0 then 0 else (if qs[0].kind == k then 1 else 0) + Count(qs[1..], k)
  }

  lemma {:induction false} CountAppend(a: seq<Quad>, b: seq<Quad>, k: QuadKind)
    ensures Count(a + b, k) == Count(a, k) + Count(b, k)
    decreases |a|
  {
    if |a| == 0 {
      assert a + b == b;
    } else {
      assert (a + b)[1..] == a[1..] + b;
      CountAppend(a[1..], b, k);
    }
  }

  /** The number of maximal runs of supported samples: a run begins at
      every supported sample whose predecessor (`prev` for the first) is
      unsupported. */
  function Rises(prev: bool, f: seq<bool>): nat
    decreases |f|
  {
    if |f| == 0 then 0 else (if f[0] && !prev then 1 else 0) + Rises(f[0], f[1..])
  }

  /** The number of runs that end inside the sequence: an unsupported
      sample after a supported one. */
  function Falls(prev: bool, f: seq<bool>): nat
    decreases |f|
  {
    if |f| == 0 then 0 else (if !f[0] && prev then 1 else 0) + Falls(f[0], f[1..])
  }

  /** The number of adjacent pairs of supported samples. */
  function Continues(prev: bool, f: seq<bool>): nat
    decreases |f|
  {
    if |f| == 0 then 0 else (if f[0] && prev then 1 else 0) + Continues(f[0], f[1..])
  }

  /** Whether the last sample (or `prev` when there is none) is
      supported. */
  function LastOr(prev: bool, f: seq<bool>): bool {
    if |f| == 0 then prev else f[|f| - 1]
  }

  lemma LastOrTail(prev: bool, f: seq<bool>)
    requires |f| > 0
    ensures LastOr(f[0], f[1..]) == LastOr(prev, f)
  {
  }

  /** Every run that begins is either still open at the end or has
      ended: begun runs and ended runs differ by whether one is open at
      each end. */
  lemma {:induction false} RisesFalls(prev: bool, f: seq<bool>)
    ensures Rises(prev, f) + (if prev then 1 else 0) == Falls(prev, f) + (if LastOr(prev, f) then 1 else 0)
    decreases |f|
  {
    if |f| > 0 {
      RisesFalls(f[0], f[1..]);
      LastOrTail(prev, f);
    }
  }

  /** How many quads of kind `k` the loop adds over `n` samples with
      support flags `f`, starting from `first` and `prev`: two track quads
      per sample except a first one, an opening cap per run begun, two
      side quads per supported pair and a closing cap per run ended. */
  function Added(k: QuadKind, first: bool, prev: bool, f: seq<bool>): nat {
    match k
    case TrackTop => Joins(first, |f|)
    case TrackBottom => Joins(first, |f|)
    case OpenCap => Rises(prev, f)
    case CloseCap => Falls(prev, f)
    case LeftSide => Continues(prev, f)
    case RightSide => Continues(prev, f)
  }

  /** The number of sample pairs the track quads join. */
  function Joins(first: bool, n: nat): nat {
    if n == 0 then 0 else if first then n - 1 else n
  }

  /** How many quads of kind `k` one sample adds. */
  function AddedByStep(k: QuadKind, first: bool, prev: bool, sup: bool): nat {
    match k
    case TrackTop => if first then 0 else 1
    case TrackBottom => if first then 0 else 1
    case OpenCap => if sup && !prev then 1 else 0
    case CloseCap => if !sup && prev then 1 else 0
    case LeftSide => if sup && prev then 1 else 0
    case RightSide => if sup && prev then 1 else 0
  }

  lemma AddedUnfolds(k: QuadKind, first: bool, prev: bool, f: seq<bool>)
    requires |f| > 0
    ensures Added(k, first, prev, f) == AddedByStep(k, first, prev, f[0]) + Added(k, false, f[0], f[1..])
  {
  }

  /** The quad counts the loop adds over the samples `raw`, from any
      state. */
  lemma {:induction false} RunCounts(st: Setting, e: Emitter, raw: seq<real>, k: QuadKind)
    ensures Count(Run(st, e, raw).quads, k) == Count(e.quads, k) + Added(k, e.first, e.prevSupported, SupportFlags(st, raw))
    decreases |raw|
  {
    if |raw| > 0 {
      var e1 := Step(st, e, raw[0]);
      StepCounts(st, e, raw[0], k);
      RunCounts(st, e1, raw[1..], k);
      FlagsTail(st, raw);
      AddedUnfolds(k, e.first, e.prevSupported, SupportFlags(st, raw));
    }
  }

  /** After the loop a run is open exactly when the last sample is
      supported. */
  lemma {:induction false} RunLast(st: Setting, e: Emitter, raw: seq<real>)
    ensures Run(st, e, raw).prevSupported == LastOr(e.prevSupported, SupportFlags(st, raw))
    decreases |raw|
  {
    if |raw| > 0 {
      RunLast(st, Step(st, e, raw[0]), raw[1..]);
      FlagsTail(st, raw);
      LastOrTail(e.prevSupported, SupportFlags(st, raw));
    }
  }

  /** The count of kind `k` in at most two quads. */
  lemma CountSmall(qs: seq<Quad>, k: QuadKind)
    requires |qs| <= 2
    ensures Count(qs, k) == (if |qs| > 0 && qs[0].kind == k then 1 else 0) + (if |qs| > 1 && qs[1].kind == k then 1 else 0)
  {
    if |qs| > 0 {
      assert |qs| > 1 ==> qs[1..][0] == qs[1];
      assert |qs| > 1 ==> |qs[1..][1..]| == 0;
    }
  }

  lemma StepCounts(st: Setting, e: Emitter, tRaw: real, k: QuadKind)
    ensures var r := Step(st, e, tRaw);
            Count(r.quads, k) == Count(e.quads, k) + AddedByStep(k, e.first, e.prevSupported, r.prevSupported)
  {
    var r := Step(st, e, tRaw);
    var sq := SupportQuads(e.prevSupported, r.prevSupported, e.support, r.support);
    var tq := TrackQuads(e.first, e.track, r.track);
    CountAppend(e.quads + sq, tq, k);
    CountAppend(e.quads, sq, k);
    CountSmall(sq, k);
    CountSmall(tq, k);
  }

  /** The closing cap after the loop adds one `CloseCap` when a run is
      still open, and nothing else. */
  lemma FinishCount(e: Emitter, k: QuadKind)
    ensures Count(Finish(e), k) == Count(e.quads, k) + (if e.prevSupported && k == CloseCap then 1 else 0)
  {
    if e.prevSupported {
      CountAppend(e.quads, [CloseQuad(e.support)], k);
    }
  }

  /** The quads of a whole mesh of kind `k`: what the loop adds from the
      start, plus the final closing cap. */
  lemma GenerateCount(st: Setting, raw: seq<real>, k: QuadKind)
    ensures var e := Run(st, Start, raw);
            Count(Generate(st, raw).quads, k) == Added(k, true, false, SupportFlags(st, raw))
                                                 + (if e.prevSupported && k == CloseCap then 1 else 0)
  {
    RunCounts(st, Start, raw, k);
    FinishCount(Run(st, Start, raw), k);
  }

  /** Two track quads per pair of consecutive samples. */
  lemma GenerateTrackCounts(st: Setting, raw: seq<real>)
    ensures var q := Generate(st, raw).quads;
            Count(q, TrackTop) == Count(q, TrackBottom) == (if |raw| == 0 then 0 else |raw| - 1)
  {
    GenerateCount(st, raw, TrackTop);
    GenerateCount(st, raw, TrackBottom);
  }

  /** One opening and one closing cap per maximal run of supported
      samples. */
  lemma GenerateCapCounts(st: Setting, raw: seq<real>)
    ensures var q := Generate(st, raw).quads;
            Count(q, OpenCap) == Count(q, CloseCap) == Rises(false, SupportFlags(st, raw))
  {
    GenerateCount(st, raw, OpenCap);
    GenerateCount(st, raw, CloseCap);
    RunLast(st, Start, raw);
    RisesFalls(false, SupportFlags(st, raw));
  }

  /** Two side quads per pair of consecutive supported samples. */
  lemma GenerateSideCounts(st: Setting, raw: seq<real>)
    ensures var q := Generate(st, raw).quads;
            Count(q, LeftSide) == Count(q, RightSide) == Continues(false, SupportFlags(st, raw))
  {
    GenerateCount(st, raw, LeftSide);
    GenerateCount(st, raw, RightSide);
  }

  // -------------------------------------------------------- caps alternate

  /** One quad read in cap state `open`: an opening cap needs no run to
      be open and opens one, a closing cap needs one and closes it, any
      other quad leaves the state; `None` for a cap out of turn. */
  function CapStep(q: Quad, open: bool): Option<bool> {
    if q.kind == OpenCap then (if open then None else Some(true))
    else if q.kind == CloseCap then (if open then Some(false) else None)
    else Some(open)
  }

  /** Reading the quads in order, opening and closing caps alternate:
      `Some(open)` says whether a support run is open after the quads
      when they start in state `open`, `None` when a cap comes out of
      turn. */
  function CapState(qs: seq<Quad>, open: bool): Option<bool>
    decreases |qs|
  {
    if |qs| == 0 then Some(open)
    else
      match CapStep(qs[0], open)
      case None => None
      case Some(o) => CapState(qs[1..], o)
  }

  lemma CapStateSmall(qs: seq<Quad>, open: bool)
    requires |qs| <= 2
    ensures CapState(qs, open) ==
              if |qs| == 0 then Some(open)
              else match CapStep(qs[0], open)
                   case None => None
                   case Some(o) => if |qs| == 1 then Some(o) else CapStep(qs[1], o)
  {
    if |qs| > 0 {
      assert |qs| > 1 ==> qs[1..][0] == qs[1];
      assert |qs| > 1 ==> |qs[1..][1..]| == 0;
    }
  }

  lemma {:induction false} CapStateAppend(a: seq<Quad>, b: seq<Quad>, open: bool)
    requires CapState(a, open).Some?
    ensures CapState(a + b, open) == CapState(b, CapState(a, open).value)
    decreases |a|
  {
    if |a| == 0 {
      assert a + b == b;
    } else {
      assert (a + b)[1..] == a[1..] + b;
      CapStateAppend(a[1..], b, CapStep(a[0], open).value);
    }
  }

  /** The loop keeps a support run open exactly while the last sample
      was supported, and never opens or closes one out of turn. */
  lemma {:induction false} RunCaps(st: Setting, e: Emitter, raw: seq<real>)
    requires CapState(e.quads, false) == Some(e.prevSupported)
    ensures CapState(Run(st, e, raw).quads, false) == Some(Run(st, e, raw).prevSupported)
    decreases |raw|
  {
    if |raw| > 0 {
      var r := Step(st, e, raw[0]);
      var sq := SupportQuads(e.prevSupported, r.prevSupported, e.support, r.support);
      var tq := TrackQuads(e.first, e.track, r.track);
      CapStateAppend(e.quads, sq, false);
      CapStateSmall(sq, e.prevSupported);
      CapStateAppend(e.quads + sq, tq, false);
      CapStateSmall(tq, r.prevSupported);
      assert r.quads == e.quads + sq + tq;
      RunCaps(st, r, raw[1..]);
    }
  }

  /** In a finished mesh opening and closing caps alternate, starting
      with an opening cap, and no run is left open. */
  lemma GenerateCapsAlternate(st: Setting, raw: seq<real>)
    ensures CapState(Generate(st, raw).quads, false) == Some(false)
  {
    var e := Run(st, Start, raw);
    RunCaps(st, Start, raw);
    if e.prevSupported {
      CapStateAppend(e.quads, [CloseQuad(e.support)], false);
    }
  }

  // --------------------------------------------------------------- samples

  /** What every sample records: its fraction is the raw one clamped to
      [0, 1], and it is supported exactly when the support test passes at
      that fraction. */
  lemma {:induction false} RunSamples(st: Setting, e: Emitter, raw: seq<real>)
    ensures var s := Run(st, e, raw).samples;
            && s[..|e.samples|] == e.samples
            && forall i :: 0 <= i < |raw| ==>
                 && s[|e.samples| + i].t == Clamp01(raw[i])
                 && 0.0 <= s[|e.samples| + i].t <= 1.0
                 && s[|e.samples| + i].supported == SupportedAt(st, raw[i])
    decreases |raw|
  {
    if |raw| > 0 {
      var r := Step(st, e, raw[0]);
      RunSamples(st, r, raw[1..]);
      var s := Run(st, e, raw).samples;
      assert s[..|r.samples|] == r.samples;
      assert s[..|e.samples|] == r.samples[..|e.samples|];
      forall i | 0 <= i < |raw|
        ensures s[|e.samples| + i].t == Clamp01(raw[i])
        ensures s[|e.samples| + i].supported == SupportedAt(st, raw[i])
      {
        if i > 0 {
          assert raw[i] == raw[1..][i - 1];
          assert |e.samples| + i == |r.samples| + (i - 1);
        } else {
          assert s[|e.samples|] == r.samples[|e.samples|];
        }
      }
    }
  }

  /** A mesh has one recorded sample per raw sample, at the clamped
      fraction, supported exactly when the support test passes there. */
  lemma GenerateSamples(st: Setting, raw: seq<real>)
    ensures var s := Generate(st, raw).samples;
            && |s| == |raw|
            && forall i :: 0 <= i < |raw| ==>
                 && s[i].t == Clamp01(raw[i]) && 0.0 <= s[i].t <= 1.0
                 && s[i].supported == SupportedAt(st, raw[i])
  {
    RunSamples(st, Start, raw);
  }

  // ------------------------------------------------------- support texture

  /** `supportTex` never decreases: each sample's value is at least every
      earlier one's, and the loop's current value bounds them all. */
  predicate TexOrdered(e: Emitter) {
    && (forall i, j :: 0 <= i < j < |e.samples| ==> e.samples[i].supportTex <= e.samples[j].supportTex)
    && (forall i :: 0 <= i < |e.samples| ==> e.samples[i].supportTex <= e.supportTex)
  }

  lemma StepTex(st: Setting, e: Emitter, tRaw: real)
    requires Valid(st.m) && st.chunkSize >= 0.0
    requires TexOrdered(e)
    ensures TexOrdered(Step(st, e, tRaw))
  {
    var r := Step(st, e, tRaw);
    if !e.first {
      var ground := GroundPos(st.scene.frameAt(Clamp01(tRaw)).position);
      LengthNonNegative(st.m, ground.Sub(e.prevGround));
      ProductNonNegative(Length(st.m, ground.Sub(e.prevGround)), st.chunkSize);
    }
    assert e.supportTex <= r.supportTex;
    assert r.samples[|e.samples|].supportTex == r.supportTex;
  }

  lemma {:induction false} RunTex(st: Setting, e: Emitter, raw: seq<real>)
    requires Valid(st.m) && st.chunkSize >= 0.0
    requires TexOrdered(e)
    ensures TexOrdered(Run(st, e, raw))
    decreases |raw|
  {
    if |raw| > 0 {
      StepTex(st, e, raw[0]);
      RunTex(st, Step(st, e, raw[0]), raw[1..]);
    }
  }

  /** The support texture coordinate is non-decreasing along the
      samples. */
  lemma GenerateTexAscending(st: Setting, raw: seq<real>)
    requires Valid(st.m) && st.chunkSize >= 0.0
    ensures var s := Generate(st, raw).samples;
            forall i, j :: 0 <= i < j < |s| ==> s[i].supportTex <= s[j].supportTex
  {
    RunTex(st, Start, raw);
  }

  // ------------------------------------------------------------- vertices

  /** The number of supported samples. */
  function CountTrue(f: seq<bool>): nat
    decreases |f|
  {
    if |f| == 0 then 0 else (if f[0] then 1 else 0) + CountTrue(f[1..])
  }

  lemma {:induction false} RunVertices(st: Setting, e: Emitter, raw: seq<real>)
    ensures Run(st, e, raw).vertices == e.vertices + 4 * |raw| + 4 * CountTrue(SupportFlags(st, raw))
    decreases |raw|
  {
    if |raw| > 0 {
      RunVertices(st, Step(st, e, raw[0]), raw[1..]);
      FlagsTail(st, raw);
    }
  }

  /** A mesh has four track vertices per sample and four support vertices
      per supported sample. */
  lemma GenerateVertices(st: Setting, raw: seq<real>)
    ensures Generate(st, raw).vertices == 4 * |raw| + 4 * CountTrue(SupportFlags(st, raw))
  {
    RunVertices(st, Start, raw);
  }

  // ------------------------------------------------------------- indices

  /** Every quad joins vertices already in the generator, and the
      corners remembered for the next sample are vertices too. */
  predicate IndicesValid(e: Emitter) {
    && (forall i :: 0 <= i < |e.quads| ==> QuadIn(e.quads[i], e.vertices))
    && (!e.first ==> CornersIn(e.track, e.vertices))
    && (e.prevSupported ==> CornersIn(e.support, e.vertices))
  }

  predicate QuadIn(q: Quad, n: nat) {
    q.a < n && q.b < n && q.c < n && q.d < n
  }

  predicate CornersIn(c: Corners, n: nat) {
    c.tl < n && c.tr < n && c.bl < n && c.br < n
  }

  lemma StepIndices(st: Setting, e: Emitter, tRaw: real)
    requires IndicesValid(e)
    ensures IndicesValid(Step(st, e, tRaw))
  {
    var r := Step(st, e, tRaw);
    var sq := SupportQuads(e.prevSupported, r.prevSupported, e.support, r.support);
    var tq := TrackQuads(e.first, e.track, r.track);
    assert forall i :: 0 <= i < |sq| ==> QuadIn(sq[i], r.vertices);
    assert forall i :: 0 <= i < |tq| ==> QuadIn(tq[i], r.vertices);
    assert r.quads == e.quads + sq + tq;
    forall i | 0 <= i < |r.quads|
      ensures QuadIn(r.quads[i], r.vertices)
    {
      if i < |e.quads| {
        assert r.quads[i] == e.quads[i];
      } else if i < |e.quads| + |sq| {
        assert r.quads[i] == sq[i - |e.quads|];
      } else {
        assert r.quads[i] == tq[i - |e.quads| - |sq|];
      }
    }
  }

  lemma {:induction false} RunIndices(st: Setting, e: Emitter, raw: seq<real>)
    requires IndicesValid(e)
    ensures IndicesValid(Run(st, e, raw))
    decreases |raw|
  {
    if |raw| > 0 {
      StepIndices(st, e, raw[0]);
      RunIndices(st, Step(st, e, raw[0]), raw[1..]);
    }
  }

  /** Every quad of a mesh refers to vertices the mesh has: four per
      sample, four more per supported sample. */
  lemma GenerateIndices(st: Setting, raw: seq<real>)
    ensures var g := Generate(st, raw);
            forall i :: 0 <= i < |g.quads| ==> QuadIn(g.quads[i], g.vertices)
  {
    RunIndices(st, Start, raw);
    var e := Run(st, Start, raw);
    var q := Finish(e);
    forall i | 0 <= i < |q|
      ensures QuadIn(q[i], e.vertices)
    {
      if i < |e.quads| {
        assert q[i] == e.quads[i];
      }
    }
  }

  // ------------------------------------------------------------- summary

  /** The emission rules a mesh built from the samples `raw` follows: one
      recorded sample per raw sample, clamped to [0, 1]; two track quads
      per pair of consecutive samples; opening and closing caps equal in
      number and alternating; every supported sample level enough and
      upright. */
  predicate FollowsRules(sc: Scene, raw: seq<real>, mesh: Mesh) {
    var n := |raw|;
    && |mesh.samples| == n
    && (forall i :: 0 <= i < n ==> 0.0 <= mesh.samples[i].t <= 1.0)
    && Count(mesh.quads, TrackTop) == Count(mesh.quads, TrackBottom) == (if n == 0 then 0 else n - 1)
    && Count(mesh.quads, OpenCap) == Count(mesh.quads, CloseCap)
    && CapState(mesh.quads, false) == Some(false)
    && (forall i :: 0 <= i < n && mesh.samples[i].supported ==>
          var f := sc.frameAt(mesh.samples[i].t);
          Abs(f.right.y) < MaxBank && f.up.y > 0.0)
  }

  lemma GenerateFollowsRules(st: Setting, raw: seq<real>)
    ensures FollowsRules(st.scene, raw, Generate(st, raw))
  {
    GenerateTrackCounts(st, raw);
    GenerateCapCounts(st, raw);
    GenerateCapsAlternate(st, raw);
    GenerateSamples(st, raw);
  }
}
