/** How a car moves along the track: `UpdateCurrentTrackSegment` carries a
    progress that has run past either end of its segment onto the
    neighbouring segments, or takes the car off the track at an open end. */
module CarMotion {
  import opened Base
  import opened TrackWorld
  import opened TrackSearch

  /** Where the walk leaves the car: on a segment with its progress, or at
      an open end it had to run past (where `DetachFromTrack` is called). */
  datatype Landing = OnTrack(seg: SegId, progress: real) | OffEnd(seg: SegId, progress: real)

  /** Every step from a segment lands on a segment. The same fact as
      `ClosedLinks`, stated on `Step` so that the walk's quantifiers do not
      chain through the map. */
  predicate StepsClosed(links: map<SegId, Link>) {
    forall x, forward {:trigger Step(links, x, forward)} ::
      x in links && Step(links, x, forward).Some? ==> Step(links, x, forward).value in links
  }

  lemma ClosedStepsClosed(links: map<SegId, Link>)
    requires ClosedLinks(links)
    ensures StepsClosed(links)
  {
    forall x, forward | x in links && Step(links, x, forward).Some?
      ensures Step(links, x, forward).value in links
    {
    }
  }

  /** Segment lengths on exactly the linked segments: never negative, and
      positive on every segment with a `Next`. A segment without one ends
      its curve at its own pose and may have length 0. */
  predicate Lengths(links: map<SegId, Link>, len: map<SegId, real>) {
    && len.Keys == links.Keys
    && (forall x :: x in len ==> len[x] >= 0.0)
    && (forall x :: x in len && links[x].next.Some? ==> len[x] > 0.0)
  }

  /** A positive bound below the length of every segment with a `Next`:
      every step of the walk moves the progress by at least this much. */
  lemma StepBound(links: map<SegId, Link>, len: map<SegId, real>) returns (m: real)
    requires Lengths(links, len)
    ensures m > 0.0 && forall x :: x in len && links[x].next.Some? ==> m <= len[x]
  {
    var stepping := map x | x in len && links[x].next.Some? :: len[x];
    assert forall x :: x in len && links[x].next.Some? ==> x in stepping;
    if stepping == map[] {
      m := 1.0;
    } else {
      m := Shortest(stepping);
      forall x | x in len && links[x].next.Some? ensures m <= len[x] {
        assert x in stepping;
      }
    }
  }

  /** The shortest segment: every step of the walk moves the progress by
      at least this much. */
  lemma {:induction false} Shortest(len: map<SegId, real>) returns (m: real)
    requires len != map[] && forall x :: x in len ==> len[x] > 0.0
    ensures m > 0.0 && forall x :: x in len ==> m <= len[x]
    decreases len.Keys
  {
    var x :| x in len;
    var rest := len - {x};
    if rest == map[] {
      assert forall y :: y in len ==> y == x || y in rest;
      m := len[x];
    } else {
      var k := Shortest(rest);
      assert forall y :: y in len && y != x ==> y in rest;
      m := Min(len[x], k);
    }
  }

  /** The distance `d` is used up by `n` steps of `m` each. */
  predicate Covered(d: real, n: nat, m: real)
    decreases n
  {
    d <= 0.0 || (n > 0 && Covered(d - m, n - 1, m))
  }

  /** A number of steps of `m` that uses up the distance `d`: the walk
      makes at most this many. */
  lemma Budget(d: real, m: real) returns (n: nat)
    requires m > 0.0
    ensures Covered(d, n, m)
  {
    if d <= 0.0 {
      n := 0;
    } else {
      var k := (d / m).Floor;
      var q := d / m;
      assert q > 0.0 && q < (k + 1) as real;
      n := k + 1;
      calc {
        d;
        q * m;
      <  { ScaleLess(q, n as real, m); }
        n as real * m;
      }
      CoveredBelow(d, n, m);
    }
  }

  lemma ScaleLess(a: real, b: real, m: real)
    requires a < b && m > 0.0
    ensures a * m < b * m
  {
  }

  lemma {:induction false} CoveredBelow(d: real, n: nat, m: real)
    requires m > 0.0 && d < n as real * m
    ensures Covered(d, n, m)
    decreases n
  {
    if d > 0.0 {
      assert n > 0;
      assert (n - 1) as real * m == n as real * m - m;
      CoveredBelow(d - m, n - 1, m);
    }
  }

  lemma {:induction false} CoveredMonotone(d: real, e: real, n: nat, m: real)
    requires m > 0.0 && e <= d && Covered(d, n, m)
    ensures Covered(e, n, m)
    decreases n
  {
    if e > 0.0 {
      CoveredMonotone(d - m, e - m, n - 1, m);
    }
  }

  /** One step of at least `m` uses up one step of the budget. */
  lemma Spend(d: real, e: real, m: real, n: nat)
    requires m > 0.0 && e >= m && d > 0.0 && Covered(d, n, m)
    ensures n > 0 && Covered(d - e, n - 1, m)
  {
    CoveredMonotone(d - m, d - e, n - 1, m);
  }

  /** A sequence of segments each reached from the one before by a `Next`
      step (going forward) or a `Prev` step (going backward). */
  predicate Trail(links: map<SegId, Link>, t: seq<SegId>, forward: bool) {
    && |t| > 0
    && (forall i :: 0 <= i < |t| ==> t[i] in links)
    && (forall i {:trigger Step(links, t[i], forward)} :: 0 <= i < |t| - 1 ==> Step(links, t[i], forward) == Some(t[i + 1]))
  }

  lemma TrailExtend(links: map<SegId, Link>, t: seq<SegId>, x: SegId, forward: bool)
    requires Trail(links, t, forward) && x in links
    requires Step(links, t[|t| - 1], forward) == Some(x)
    ensures Trail(links, t + [x], forward)
  {
    var u := t + [x];
    forall i | 0 <= i < |u| - 1
      ensures Step(links, u[i], forward) == Some(u[i + 1])
    {
      if i < |t| - 1 {
        assert u[i] == t[i] && u[i + 1] == t[i + 1];
      }
    }
  }

  /** The total length of the segments in `xs`. */
  function Total(len: map<SegId, real>, xs: seq<SegId>): real
    requires forall i :: 0 <= i < |xs| ==> xs[i] in len
  {
    if xs == [] then 0.0 else Total(len, xs[..|xs| - 1]) + len[xs[|xs| - 1]]
  }

  lemma TotalAppend(len: map<SegId, real>, xs: seq<SegId>, x: SegId)
    requires forall i :: 0 <= i < |xs| ==> xs[i] in len
    requires x in len
    ensures Total(len, xs + [x]) == Total(len, xs) + len[x]
  {
    assert (xs + [x])[..|xs|] == xs;
  }

  /** The car must leave its segment at an open end: on a segment without
      `Next` its progress has reached the length or is past the start, or
      on a segment without `Prev` it is before the start. */
  predicate MustLeave(links: map<SegId, Link>, len: map<SegId, real>, s: SegId, p: real)
    requires s in links && s in len
  {
    || (links[s].next.None? && (p >= len[s] || p > 0.0))
    || (links[s].prev.None? && p < 0.0)
  }

  /** The forward loop: from `s`, move to `Next` while the progress is at
      least the segment's length, subtracting the length; stop at an open
      end the progress has reached or is past (`off`). */
  method RunAhead(links: map<SegId, Link>, len: map<SegId, real>, s: SegId, p: real)
    returns (cur: SegId, q: real, ahead: seq<SegId>, off: bool)
    requires StepsClosed(links) && Lengths(links, len) && s in links
    ensures Trail(links, ahead, true) && ahead[0] == s && ahead[|ahead| - 1] == cur
    ensures p == q + Total(len, ahead[..|ahead| - 1])
    ensures off ==> links[cur].next.None? && (q >= len[cur] || q > 0.0)
    ensures !off ==> q < len[cur] && (q <= 0.0 || links[cur].next.Some?)
  {
    ghost var m := StepBound(links, len);
    ghost var budget := Budget(p, m);
    cur, q, off := s, p, false;
    ahead := [s];
    while q >= len[cur] || (q > 0.0 && links[cur].next.None?)
      invariant cur in links && Trail(links, ahead, true)
      invariant ahead[0] == s && ahead[|ahead| - 1] == cur
      invariant p == q + Total(len, ahead[..|ahead| - 1])
      invariant Covered(q, budget, m)
      decreases budget
    {
      if links[cur].next.None? {
        off := true;
        return;
      }
      var nxt := Step(links, cur, true).value;
      AheadStep(links, len, ahead, nxt, p, q, m, budget);
      q := q - len[cur];
      ahead := ahead + [nxt];
      cur := nxt;
      budget := budget - 1;
    }
  }

  /** The backward loop: from `start`, move to `Prev` while the progress
      is negative, adding the length of the segment entered; stop at an
      open start (`off`). A `Prev` has this segment as its `Next`, so its
      length is positive and the loop ends. */
  method RunBehind(links: map<SegId, Link>, len: map<SegId, real>, start: SegId, q0: real)
    returns (cur: SegId, q: real, behind: seq<SegId>, off: bool)
    requires StepsClosed(links) && Agree(links) && Lengths(links, len) && start in links
    requires q0 < len[start] && (q0 <= 0.0 || links[start].next.Some?)
    ensures Trail(links, behind, false) && behind[0] == start && behind[|behind| - 1] == cur
    ensures q0 == q - Total(len, behind[1..])
    ensures off ==> q < 0.0 && links[cur].prev.None?
    ensures !off ==> 0.0 <= q < len[cur]
    ensures !off && |behind| == 1 ==> q <= 0.0 || links[cur].next.Some?
    ensures !off && |behind| > 1 ==> links[behind[|behind| - 2]].prev == Some(cur)
  {
    ghost var m := StepBound(links, len);
    ghost var budget := Budget(-q0, m);
    cur, q, off := start, q0, false;
    behind := [start];
    while q < 0.0
      invariant cur in links && Trail(links, behind, false)
      invariant behind[0] == start && behind[|behind| - 1] == cur
      invariant q0 == q - Total(len, behind[1..])
      invariant q < len[cur]
      invariant |behind| == 1 ==> q <= 0.0 || links[cur].next.Some?
      invariant |behind| > 1 ==> links[behind[|behind| - 2]].prev == Some(cur)
      invariant Covered(-q, budget, m)
      decreases budget
    {
      if links[cur].prev.None? {
        off := true;
        return;
      }
      var prv := Step(links, cur, false).value;
      assert links[prv].next == Some(cur);
      BehindStep(links, len, behind, prv, q0, q, m, budget);
      q := q + len[prv];
      behind := behind + [prv];
      cur := prv;
      budget := budget - 1;
    }
  }

  /** One step of the forward loop keeps its invariants. */
  lemma AheadStep(links: map<SegId, Link>, len: map<SegId, real>, ahead: seq<SegId>, nxt: SegId,
                  p: real, q: real, m: real, budget: nat)
    requires Lengths(links, len) && Trail(links, ahead, true) && nxt in links
    requires Step(links, ahead[|ahead| - 1], true) == Some(nxt)
    requires p == q + Total(len, ahead[..|ahead| - 1])
    requires m > 0.0 && m <= len[ahead[|ahead| - 1]] && q >= m && Covered(q, budget, m)
    ensures Trail(links, ahead + [nxt], true)
    ensures p == (q - len[ahead[|ahead| - 1]]) + Total(len, (ahead + [nxt])[..|ahead|])
    ensures budget > 0 && Covered(q - len[ahead[|ahead| - 1]], budget - 1, m)
  {
    var cur := ahead[|ahead| - 1];
    Spend(q, len[cur], m, budget);
    TrailExtend(links, ahead, nxt, true);
    TotalAppend(len, ahead[..|ahead| - 1], cur);
    assert ahead[..|ahead| - 1] + [cur] == ahead;
    assert (ahead + [nxt])[..|ahead|] == ahead;
  }

  /** One step of the backward loop keeps its invariants. */
  lemma BehindStep(links: map<SegId, Link>, len: map<SegId, real>, behind: seq<SegId>, prv: SegId,
                   q0: real, q: real, m: real, budget: nat)
    requires Lengths(links, len) && Trail(links, behind, false) && prv in links
    requires Step(links, behind[|behind| - 1], false) == Some(prv)
    requires q0 == q - Total(len, behind[1..])
    requires m > 0.0 && m <= len[prv] && q < 0.0 && Covered(-q, budget, m)
    ensures Trail(links, behind + [prv], false)
    ensures q0 == (q + len[prv]) - Total(len, (behind + [prv])[1..])
    ensures budget > 0 && Covered(-(q + len[prv]), budget - 1, m)
  {
    Spend(-q, len[prv], m, budget);
    assert -q - len[prv] == -(q + len[prv]);
    TrailExtend(links, behind, prv, false);
    TotalAppend(len, behind[1..], prv);
    assert behind[1..] + [prv] == (behind + [prv])[1..];
  }

  /** What a walk from segment `s` at progress `p` ending at `r` promises:
      `ahead` is the forward trail from `s`, `behind` the backward trail
      from where it stopped, to `r`'s segment; the progress is conserved
      (the lengths of the segments left forward are subtracted, those
      entered backward added); the car leaves exactly when it must leave
      where it stopped; and it stays only inside a segment of positive
      length, at the very start when that segment has no `Next`. */
  predicate Walked(links: map<SegId, Link>, len: map<SegId, real>, s: SegId, p: real,
                   r: Landing, ahead: seq<SegId>, behind: seq<SegId>)
    requires Lengths(links, len)
  {
    && Trail(links, ahead, true) && ahead[0] == s
    && Trail(links, behind, false) && behind[0] == ahead[|ahead| - 1]
    && r.seg == behind[|behind| - 1]
    && p == r.progress + Total(len, ahead[..|ahead| - 1]) - Total(len, behind[1..])
    && (r.OffEnd? <==> MustLeave(links, len, r.seg, r.progress))
    && (r.OnTrack? ==> 0.0 <= r.progress < len[r.seg])
    && (r.OnTrack? && links[r.seg].next.None? ==> r.progress == 0.0)
  }

  /** `UpdateCurrentTrackSegment`'s two loops, on the segment `s` and the
      progress `p`: the forward loop, then the backward loop; either may
      end at an open end, where the car leaves the track. `ahead` lists
      the segments the forward loop ran from and on to, `behind` those the
      backward loop ran through. */
  method Settle(links: map<SegId, Link>, len: map<SegId, real>, s: SegId, p: real)
    returns (r: Landing, ahead: seq<SegId>, behind: seq<SegId>)
    requires ClosedLinks(links) && Agree(links) && Lengths(links, len) && s in links
    ensures Walked(links, len, s, p, r, ahead, behind)
  {
    ClosedStepsClosed(links);
    var cur, q, off;
    cur, q, ahead, off := RunAhead(links, len, s, p);
    if off {
      r, behind := OffEnd(cur, q), [cur];
      return;
    }
    var q1 := q;
    cur, q, behind, off := RunBehind(links, len, cur, q1);
    if off {
      r := OffEnd(cur, q);
      return;
    }
    r := OnTrack(cur, q);
    if |behind| > 1 {
      assert links[behind[|behind| - 2]].prev == Some(cur);
      assert links[cur].next == Some(behind[|behind| - 2]);
    }
  }
}
