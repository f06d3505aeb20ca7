/** The two LINQ idioms the track code selects with: a stable
    `OrderBy(key).FirstOrDefault(...)`, which is the first of the smallest
    eligible keys, and `Where`, an order-keeping filter. */
module Selection {
  import opened Base

  /** The position `OrderBy(key).FirstOrDefault(eligible)` picks: an
      eligible position whose key is the smallest among the eligible ones
      and, because `OrderBy` is stable, the earliest among equal keys.
      `None` when nothing is eligible. */
  function FirstMin(keys: seq<real>, ok: seq<bool>): (r: Option<nat>)
    requires |keys| == |ok|
    ensures r.None? <==> forall i :: 0 <= i < |ok| ==> !ok[i]
    ensures r.Some? ==> r.value < |keys| && ok[r.value]
    ensures r.Some? ==> forall i :: 0 <= i < |keys| && ok[i] ==> keys[r.value] <= keys[i]
    ensures r.Some? ==> forall i :: 0 <= i < r.value && ok[i] ==> keys[r.value] < keys[i]
    decreases |keys|
  {
    if |keys| == 0 then None
    else
      var n := |keys| - 1;
      var r := FirstMin(keys[..n], ok[..n]);
      if !ok[n] then r
      else if r.None? || keys[n] < keys[r.value] then Some(n)
      else r
  }

  /** The contract above pins the choice down: any eligible position with
      the smallest key and no earlier equal key is the one picked. */
  lemma FirstMinUnique(keys: seq<real>, ok: seq<bool>, i: nat)
    requires |keys| == |ok| && i < |ok| && ok[i]
    requires forall j :: 0 <= j < |keys| && ok[j] ==> keys[i] <= keys[j]
    requires forall j :: 0 <= j < i && ok[j] ==> keys[i] < keys[j]
    ensures FirstMin(keys, ok) == Some(i)
  {
  }

  /** `Where(p)`: the elements satisfying `p`, in their original order. */
  function Filter<T(!new)>(xs: seq<T>, p: T -> bool): (r: seq<T>)
    ensures |r| <= |xs|
    ensures forall x :: x in r <==> x in xs && p(x)
    decreases |xs|
  {
    if |xs| == 0 then []
    else if p(xs[0]) then [xs[0]] + Filter(xs[1..], p)
    else Filter(xs[1..], p)
  }

  /** A filter keeps every element it accepts, in order: the result is the
      input with the rejected elements dropped, so filtering twice changes
      nothing. */
  lemma {:induction false} FilterIdempotent<T(!new)>(xs: seq<T>, p: T -> bool)
    ensures Filter(Filter(xs, p), p) == Filter(xs, p)
    decreases |xs|
  {
    if |xs| > 0 {
      FilterIdempotent(xs[1..], p);
      if p(xs[0]) {
        var r := Filter(xs[1..], p);
        assert ([xs[0]] + r)[0] == xs[0];
        assert ([xs[0]] + r)[1..] == r;
      }
    }
  }
}
