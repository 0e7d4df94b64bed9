/** The two ways a JavaScript regex chooses among several viable matches, stated once:
    `String.prototype.match` returns the match with the LEFTMOST start (and a lazy `*?`
    takes the SHORTEST viable gap), while a greedy quantifier that has to give characters
    back keeps the LONGEST viable length. */
module Search {
  import opened Wrappers

  /** The smallest position in `[from, n)` at which `at` succeeds, with what it produced. */
  function FindFirst<T>(n: nat, at: nat -> Option<T>, from: nat): (r: Option<(nat, T)>)
    ensures r.Some? ==> from <= r.value.0 < n && at(r.value.0) == Some(r.value.1)
    ensures r.Some? ==> forall j :: from <= j < r.value.0 ==> at(j).None?
    ensures r.None? ==> forall j :: from <= j < n ==> at(j).None?
    decreases n - from
  {
    if from >= n then None
    else match at(from)
      case Some(v) => Some((from, v))
      case None => FindFirst(n, at, from + 1)
  }

  /** The search finds `i` when `at` succeeds there and nowhere before it. */
  lemma FindFirstAt<T>(n: nat, at: nat -> Option<T>, from: nat, i: nat)
    requires from <= i < n && at(i).Some?
    requires forall j :: from <= j < i ==> at(j).None?
    ensures FindFirst(n, at, from) == Some((i, at(i).value))
  {
    var r := FindFirst(n, at, from);
    assert r.Some?;
    assert r.value.0 == i;
  }

  /** A global (`g` flag) scan from `p`: find the leftmost match at or after `p`, keep its
      value, and resume where that match ended. `at(q)` is the attempt at `q`: the value and
      the end of the match, which lies past `q`. */
  function ScanAll<T>(n: nat, at: nat -> Option<(T, nat)>, p: nat): (r: seq<T>)
    requires p <= n
    requires forall q: nat :: p <= q < n && at(q).Some? ==> q < at(q).value.1 <= n
    ensures r == [] <==> forall q :: p <= q < n ==> at(q).None?
    ensures forall x :: x in r ==> exists q :: p <= q < n && at(q).Some? && at(q).value.0 == x
    decreases n - p
  {
    match FindFirst(n, at, p)
    case None => []
    case Some((q, (v, e))) => [v] + ScanAll(n, at, e)
  }

  /** The scan takes the leftmost match `q` at or after `p` first, then scans on from where
      that match ended. */
  lemma ScanAllStep<T>(n: nat, at: nat -> Option<(T, nat)>, p: nat, q: nat)
    requires p <= q < n
    requires forall q: nat :: p <= q < n && at(q).Some? ==> q < at(q).value.1 <= n
    requires at(q).Some? && forall q' :: p <= q' < q ==> at(q').None?
    ensures ScanAll(n, at, p) == [at(q).value.0] + ScanAll(n, at, at(q).value.1)
  {
    var f := FindFirst(n, at, p);
    assert f.Some?;
    assert f.value.0 == q;
  }

  /** The largest position in `[lo, hi]` satisfying `ok`. */
  function LastWhere(lo: nat, hi: nat, ok: nat -> bool): (r: Option<nat>)
    ensures r.Some? ==> lo <= r.value <= hi && ok(r.value)
    ensures r.Some? ==> forall q :: r.value < q <= hi ==> !ok(q)
    ensures r.None? ==> forall q :: lo <= q <= hi ==> !ok(q)
    decreases hi
  {
    if hi < lo then None
    else if ok(hi) then Some(hi)
    else if hi == lo then None
    else LastWhere(lo, hi - 1, ok)
  }
}
