/** The `Next` setter's effect on the link map alone. `AfterSetNext` is
    the closed form of `a.Next = value`; the lemmas show that the setter's
    steps produce it, that it keeps the doubly linked list consistent, and
    what it means for the segments around `a`. */
module SegmentLinks {
  import opened Base
  import opened TrackWorld

  /** `if (_next != null) _next.Prev = null` on segment `a`. */
  function Release(links: map<SegId, Link>, a: SegId): (r: map<SegId, Link>)
    requires a in links
    ensures r.Keys == links.Keys
    ensures forall s :: s in links ==> r[s].next == links[s].next
    ensures forall s :: s in links ==> r[s].prev == (if Some(s) == links[a].next then None else links[s].prev)
  {
    var n := links[a].next;
    if n.Some? && n.value in links then links[n.value := links[n.value].(prev := None)] else links
  }

  /** `x._next = n`. */
  function WithNext(links: map<SegId, Link>, x: SegId, n: Option<SegId>): (r: map<SegId, Link>)
    requires x in links
    ensures r.Keys == links.Keys
    ensures forall s :: s in links ==> r[s].prev == links[s].prev
    ensures forall s :: s in links ==> r[s].next == (if s == x then n else links[s].next)
  {
    links[x := links[x].(next := n)]
  }

  /** `x.Prev = p`. */
  function WithPrev(links: map<SegId, Link>, x: SegId, p: Option<SegId>): (r: map<SegId, Link>)
    requires x in links
    ensures r.Keys == links.Keys
    ensures forall s :: s in links ==> r[s].next == links[s].next
    ensures forall s :: s in links ==> r[s].prev == (if s == x then p else links[s].prev)
  {
    links[x := links[x].(prev := p)]
  }

  /** The single-field stores keep every link pointing at a segment when
      the stored value is one. */
  lemma StoresClosed(links: map<SegId, Link>, x: SegId, v: Option<SegId>)
    requires x in links && ClosedLinks(links)
    requires v.Some? ==> v.value in links
    ensures ClosedLinks(Release(links, x))
    ensures ClosedLinks(WithNext(links, x, v))
    ensures ClosedLinks(WithPrev(links, x, v))
  {
  }

  /** Segment `s`'s `Next` after `a.Next = value`: `a` takes `value`, and
      the segment that was `value`'s predecessor loses its successor. */
  function NextAfter(links: map<SegId, Link>, a: SegId, value: Option<SegId>, s: SegId): Option<SegId>
    requires s in links
    requires value.Some? ==> value.value in links
  {
    if s == a then value
    else if value.Some? && links[value.value].prev == Some(s) then None
    else links[s].next
  }

  /** Segment `s`'s `Prev` after `a.Next = value`: `value` takes `a`, and
      `a`'s old successor loses its predecessor. */
  function PrevAfter(links: map<SegId, Link>, a: SegId, value: Option<SegId>, s: SegId): Option<SegId>
    requires a in links && s in links
  {
    if value == Some(s) then Some(a)
    else if links[a].next == Some(s) then None
    else links[s].prev
  }

  /** All links after `a.Next = value`. */
  function AfterSetNext(links: map<SegId, Link>, a: SegId, value: Option<SegId>): (r: map<SegId, Link>)
    requires a in links
    requires value.Some? ==> value.value in links
    ensures r.Keys == links.Keys
    ensures forall s :: s in links ==> r[s] == Link(NextAfter(links, a, value, s), PrevAfter(links, a, value, s))
  {
    map s | s in links :: Link(NextAfter(links, a, value, s), PrevAfter(links, a, value, s))
  }

  /** `a.Next = null` is the release followed by the store; it needs no
      invariant, since no other setter runs. */
  lemma ClearNextSteps(links: map<SegId, Link>, a: SegId)
    requires a in links
    ensures WithNext(Release(links, a), a, None) == AfterSetNext(links, a, None)
  {
  }

  /** The setter's steps for `a.Next = Some(b)`: release `a`'s old
      successor, store `b`, clear the `Next` of `b`'s old predecessor
      (itself a `Next = null` on that segment), then set `b.Prev`. */
  function SetNextSteps(links: map<SegId, Link>, a: SegId, b: SegId): (r: map<SegId, Link>)
    requires a in links && b in links
    ensures r.Keys == links.Keys
  {
    Adopted(WithNext(Release(links, a), a, Some(b)), a, b)
  }

  /** The last two steps: `b`'s old predecessor gets `Next = null` and
      `b.Prev` becomes `a`. */
  function Adopted(links: map<SegId, Link>, a: SegId, b: SegId): (r: map<SegId, Link>)
    requires b in links
    ensures r.Keys == links.Keys
  {
    var p := links[b].prev;
    var l3 := if p.None? || p.value !in links then links else AfterSetNext(links, p.value, None);
    WithPrev(l3, b, Some(a))
  }

  /** With a consistent list the steps produce the closed form. */
  lemma SetNextStepsCorrect(links: map<SegId, Link>, a: SegId, b: SegId)
    requires a in links && b in links
    requires Agree(links) && ClosedLinks(links)
    requires links[a].next != Some(b)
    ensures SetNextSteps(links, a, b) == AfterSetNext(links, a, Some(b))
  {
    var r := SetNextSteps(links, a, b);
    var e := AfterSetNext(links, a, Some(b));
    assert r.Keys == e.Keys;
    forall s | s in links
      ensures r[s] == e[s]
    {
      StepsAt(links, a, b, s);
    }
  }

  lemma StepsAt(links: map<SegId, Link>, a: SegId, b: SegId, s: SegId)
    requires a in links && b in links && s in links
    requires Agree(links) && ClosedLinks(links)
    requires links[a].next != Some(b)
    ensures SetNextSteps(links, a, b)[s] == Link(NextAfter(links, a, Some(b), s), PrevAfter(links, a, Some(b), s))
  {
    var l1 := Release(links, a);
    var l2 := WithNext(l1, a, Some(b));
    var p := l2[b].prev;
    assert p == links[b].prev;
    if p.Some? {
      assert links[p.value].next == Some(b);
      assert p.value != a;
      assert l2[p.value].next == Some(b);
      var l3 := AfterSetNext(l2, p.value, None);
      assert l3[s].next == (if s == p.value then None else l2[s].next);
      assert l3[s].prev == (if Some(s) == l2[p.value].next then None else l2[s].prev);
    }
  }

  /** The closed form keeps every link pointing at a segment. */
  lemma AfterSetNextClosed(links: map<SegId, Link>, a: SegId, value: Option<SegId>)
    requires a in links && ClosedLinks(links)
    requires value.Some? ==> value.value in links
    ensures ClosedLinks(AfterSetNext(links, a, value))
  {
  }

  /** The setter keeps the list consistent: afterwards `x.Next == y`
      exactly when `y.Prev == x`, so no segment has two predecessors. */
  lemma AfterSetNextAgrees(links: map<SegId, Link>, a: SegId, value: Option<SegId>)
    requires a in links && Agree(links) && ClosedLinks(links)
    requires value.Some? ==> value.value in links
    ensures Agree(AfterSetNext(links, a, value))
  {
    var r := AfterSetNext(links, a, value);
    forall x, y | x in r && y in r
      ensures r[x].next == Some(y) <==> r[y].prev == Some(x)
    {
      AgreesAt(links, a, value, x, y);
    }
  }

  lemma AgreesAt(links: map<SegId, Link>, a: SegId, value: Option<SegId>, x: SegId, y: SegId)
    requires a in links && Agree(links) && ClosedLinks(links)
    requires value.Some? ==> value.value in links
    requires x in links && y in links
    ensures NextAfter(links, a, value, x) == Some(y) <==> PrevAfter(links, a, value, y) == Some(x)
  {
    assert links[x].next == Some(y) <==> links[y].prev == Some(x);
    if links[a].next.Some? {
      var n := links[a].next.value;
      assert links[n].prev == Some(a);
    }
    if value.Some? && links[value.value].prev.Some? {
      var p := links[value.value].prev.value;
      assert links[p].next == value;
    }
  }

  /** Setting the successor a segment already has changes nothing. */
  lemma AfterSetNextSame(links: map<SegId, Link>, a: SegId)
    requires a in links && Agree(links) && ClosedLinks(links)
    ensures AfterSetNext(links, a, links[a].next) == links
  {
    var value := links[a].next;
    var r := AfterSetNext(links, a, value);
    forall s | s in links
      ensures r[s] == links[s]
    {
      if value.Some? {
        assert links[value.value].prev == Some(a);
      }
      if links[s].prev.Some? {
        assert links[links[s].prev.value].next == Some(s);
      }
    }
  }

  /** After `a.Next = value`: `a`'s successor is `value` and `value`'s
      predecessor is `a`; `a`'s old successor (when it is not `value`) has
      no predecessor and `value`'s old predecessor (when it is not `a`) has
      no successor; every other link is unchanged. */
  lemma AfterSetNextFrame(links: map<SegId, Link>, a: SegId, value: Option<SegId>)
    requires a in links && ClosedLinks(links)
    requires value.Some? ==> value.value in links
    ensures var r := AfterSetNext(links, a, value);
            && r[a].next == value
            && (value.Some? ==> r[value.value].prev == Some(a))
            && (links[a].next.Some? && links[a].next != value ==> r[links[a].next.value].prev == None)
            && (value.Some? && links[value.value].prev.Some? && links[value.value].prev != Some(a) ==>
                  r[links[value.value].prev.value].next == None)
            && (forall s :: s in links && s != a && (value.None? || links[value.value].prev != Some(s)) ==> r[s].next == links[s].next)
            && (forall s :: s in links && value != Some(s) && links[a].next != Some(s) ==> r[s].prev == links[s].prev)
  {
  }
}
