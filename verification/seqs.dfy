/** List operations the source builds from arrays and sets: `slice(0, n)`, `Set` insertion,
    the `filter((x, i, self) => self.indexOf(x) === i)` idiom and `filter(x => x !== v)`. */
module Seqs {

  predicate NoDup<T(==)>(xs: seq<T>) {
    forall i, j :: 0 <= i < j < |xs| ==> xs[i] != xs[j]
  }

  /** `xs.slice(0, n)` */
  function Take<T>(xs: seq<T>, n: nat): (r: seq<T>)
    ensures |r| == if |xs| <= n then |xs| else n
    ensures r == xs[..|r|]
  {
    if |xs| <= n then xs else xs[..n]
  }

  /** A prefix of a duplicate-free list is duplicate-free. */
  lemma TakeNoDup<T>(xs: seq<T>, n: nat)
    requires NoDup(xs)
    ensures NoDup(Take(xs, n))
  {
  }

  function Last<T>(xs: seq<T>): T
    requires |xs| > 0
  {
    xs[|xs| - 1]
  }

  function DropLast<T>(xs: seq<T>): seq<T>
    requires |xs| > 0
  {
    xs[..|xs| - 1]
  }

  /** Insert into an insertion-ordered set (`Set.add`, or `if (!xs.includes(x)) xs.push(x)`):
      present elements leave the list alone, new ones go to the end. */
  function AddUnique<T(==,!new)>(xs: seq<T>, x: T): (r: seq<T>)
    ensures x in r
    ensures forall y :: y in r <==> y in xs || y == x
    ensures |xs| <= |r| && r[..|xs|] == xs
    ensures NoDup(xs) ==> NoDup(r)
    ensures |r| <= |xs| + 1
    ensures |r| == |xs| + 1 ==> x !in xs
  {
    if x in xs then xs else xs + [x]
  }

  /** Insert every element of `xs`, in order, into the insertion-ordered set `acc`. */
  function AddAllUnique<T(==,!new)>(acc: seq<T>, xs: seq<T>): (r: seq<T>)
    ensures forall y :: y in r <==> y in acc || y in xs
    ensures |acc| <= |r| && r[..|acc|] == acc
    ensures NoDup(acc) ==> NoDup(r)
    ensures |r| <= |acc| + |xs|
    ensures forall i, j :: 0 <= i < j < |r| && |acc| <= j ==> r[i] != r[j]
    decreases |xs|
  {
    if |xs| == 0 then acc else AddUnique(AddAllUnique(acc, DropLast(xs)), Last(xs))
  }

  /** A capped insertion keeps the start list, capped, as its prefix; every later element is new. */
  lemma TakeAddAllUnique<T(!new)>(acc: seq<T>, xs: seq<T>, n: nat)
    ensures var r := Take(AddAllUnique(acc, xs), n);
            Take(acc, n) == r[..if |acc| <= n then |acc| else n]
            && forall i, j :: 0 <= i < j < |r| && |acc| <= j ==> r[i] != r[j]
  {
    var all := AddAllUnique(acc, xs);
    var r := Take(all, n);
    assert all[..|acc|] == acc;
    assert forall i :: 0 <= i < |r| ==> r[i] == all[i];
  }

  /** The test `!acc.includes(y)`, as a predicate on `y`. */
  function NotIn<T(==,!new)>(acc: seq<T>): (P: T -> bool)
    ensures forall y :: P(y) <==> y !in acc
  {
    y => y !in acc
  }

  /** Inserting `xs` into `acc` appends the distinct elements of `xs` that `acc` lacks, in
      order of first appearance. */
  lemma {:induction false} AddAllUniqueIsFilter<T(!new)>(acc: seq<T>, xs: seq<T>)
    ensures AddAllUnique(acc, xs) == acc + Filter(Dedup(xs), NotIn(acc))
    decreases |xs|
  {
    var P := NotIn(acc);
    if |xs| == 0 {
      assert Dedup(xs) == [];
    } else {
      var xs', x := DropLast(xs), Last(xs);
      AddAllUniqueIsFilter(acc, xs');
      var d' := Dedup(xs');
      var f' := Filter(d', P);
      assert AddAllUnique(acc, xs) == AddUnique(acc + f', x);
      assert Dedup(xs) == AddUnique(d', x);
      if x in d' {
        assert x in acc + f' by {
          if x !in acc {
            assert x in f';
          }
        }
        assert Dedup(xs) == d';
        assert AddAllUnique(acc, xs) == acc + f';
      } else {
        var d := d' + [x];
        assert Dedup(xs) == d;
        FilterSnoc(d', x, P);
        if x in acc {
          assert Filter(d, P) == f';
          assert AddAllUnique(acc, xs) == acc + f';
        } else {
          assert Filter(d, P) == f' + [x];
          assert x !in acc + f';
          assert AddAllUnique(acc, xs) == acc + f' + [x];
          ConcatAssoc(acc, f', [x]);
        }
      }
    }
  }

  /** `Array.from(new Set(xs))`: the distinct elements of `xs` in order of first appearance. */
  function Dedup<T(==,!new)>(xs: seq<T>): (r: seq<T>)
    ensures NoDup(r)
    ensures forall y :: y in r <==> y in xs
    ensures |r| <= |xs|
  {
    AddAllUnique([], xs)
  }

  /** The first `n` distinct elements: no repetitions, all from `xs`, and all of `xs` when
      fewer than `n` are distinct. */
  lemma TakeDedup<T(!new)>(xs: seq<T>, n: nat)
    ensures NoDup(Take(Dedup(xs), n)) && |Take(Dedup(xs), n)| <= n
    ensures forall y :: y in Take(Dedup(xs), n) ==> y in xs
    ensures |Take(Dedup(xs), n)| < n ==> forall y :: y in xs ==> y in Take(Dedup(xs), n)
  {
    var d := Dedup(xs);
    TakeNoDup(d, n);
    assert forall y :: y in Take(d, n) ==> y in d;
  }

  /** Index of the first occurrence of `x` (`xs.indexOf(x)` for a present `x`). */
  function IndexOf<T(==,!new)>(xs: seq<T>, x: T): (i: nat)
    requires x in xs
    ensures i < |xs| && xs[i] == x
    ensures forall j :: 0 <= j < i ==> xs[j] != x
  {
    if xs[0] == x then 0 else 1 + IndexOf(xs[1..], x)
  }

  /** From position `from` on, `xs` lists elements of `src` in the order they first appear
      there. */
  predicate InFirstAppearanceOrder<T(==,!new)>(xs: seq<T>, from: nat, src: seq<T>) {
    && (forall i :: from <= i < |xs| ==> xs[i] in src)
    && (forall i, j :: from <= i < j < |xs| ==> IndexOf(src, xs[i]) < IndexOf(src, xs[j]))
  }

  /** Looking an element up in a longer list that starts with `xs` finds the same index. */
  lemma {:induction false} IndexOfPrefix<T(!new)>(xs: seq<T>, ys: seq<T>, y: T)
    requires y in xs
    ensures IndexOf(xs + ys, y) == IndexOf(xs, y)
  {
    if xs[0] != y {
      assert (xs + ys)[1..] == xs[1..] + ys;
      IndexOfPrefix(xs[1..], ys, y);
    }
  }

  /** Deduplication keeps the order of first appearance: an element listed earlier in the
      result first appears earlier in the input. */
  lemma {:induction false} DedupOrder<T(!new)>(xs: seq<T>)
    ensures forall i, j :: 0 <= i < j < |Dedup(xs)| ==> IndexOf(xs, Dedup(xs)[i]) < IndexOf(xs, Dedup(xs)[j])
    decreases |xs|
  {
    if |xs| > 0 {
      var xs', x := DropLast(xs), Last(xs);
      assert xs == xs' + [x];
      DedupOrder(xs');
      var d', d := Dedup(xs'), Dedup(xs);
      assert d == AddUnique(d', x);
      forall y | y in xs' ensures IndexOf(xs, y) == IndexOf(xs', y) {
        IndexOfPrefix(xs', [x], y);
      }
      if x !in xs' {
        assert IndexOf(xs, x) == |xs'|;
      }
    }
  }

  /** A capped deduplication keeps the order of first appearance too. */
  lemma TakeDedupOrder<T(!new)>(xs: seq<T>, n: nat)
    ensures var r := Take(Dedup(xs), n);
            forall i, j :: 0 <= i < j < |r| ==> IndexOf(xs, r[i]) < IndexOf(xs, r[j])
  {
    DedupOrder(xs);
    var d := Dedup(xs);
    var r := Take(d, n);
    assert forall i :: 0 <= i < |r| ==> r[i] == d[i];
  }

  /** The first `n` distinct elements are a prefix in first-appearance order: an element left
      out appears first after every element kept, and only when the cap is reached. */
  lemma TakeDedupFirst<T(!new)>(xs: seq<T>, n: nat)
    ensures forall t :: t in xs && t !in Take(Dedup(xs), n)
                        ==> |Take(Dedup(xs), n)| == n
                            && forall u :: u in Take(Dedup(xs), n) ==> IndexOf(xs, u) < IndexOf(xs, t)
  {
    DedupOrder(xs);
    var d := Dedup(xs);
    var r := Take(d, n);
    forall t | t in xs && t !in r
      ensures |r| == n && forall u :: u in r ==> IndexOf(xs, u) < IndexOf(xs, t)
    {
      var p :| 0 <= p < |d| && d[p] == t;
      assert p >= |r|;
      forall u | u in r ensures IndexOf(xs, u) < IndexOf(xs, t) {
        var i :| 0 <= i < |r| && r[i] == u;
        assert r[i] == d[i];
      }
    }
  }

  /** `xs.slice(0, n).filter((x, i, self) => self.indexOf(x) === i)`, read against the whole of
      `xs`: the elements among the first `n` that are first occurrences. */
  function FirstOccurrences<T(==,!new)>(xs: seq<T>, n: nat): seq<T>
    requires n <= |xs|
  {
    if n == 0 then []
    else FirstOccurrences(xs, n - 1) + (if IndexOf(xs, xs[n - 1]) == n - 1 then [xs[n - 1]] else [])
  }

  /** The indexOf-filter idiom and set insertion compute the same list, so one definition of
      first-occurrence deduplication serves both. */
  lemma {:induction false} FirstOccurrencesIsDedup<T(!new)>(xs: seq<T>, n: nat)
    requires n <= |xs|
    ensures FirstOccurrences(xs, n) == Dedup(xs[..n])
  {
    if n > 0 {
      FirstOccurrencesIsDedup(xs, n - 1);
      var x := xs[n - 1];
      var d := Dedup(xs[..n - 1]);
      DedupSnoc(xs, n);
      if x in xs[..n - 1] {
        var j :| 0 <= j < n - 1 && xs[j] == x;
        assert IndexOf(xs, x) <= j;
        assert AddUnique(d, x) == d;
      } else {
        assert IndexOf(xs, x) == n - 1;
        assert AddUnique(d, x) == d + [x];
      }
    }
  }

  /** Deduplicating one more element inserts it into the deduplicated prefix. */
  lemma DedupSnoc<T(!new)>(xs: seq<T>, n: nat)
    requires 0 < n <= |xs|
    ensures Dedup(xs[..n]) == AddUnique(Dedup(xs[..n - 1]), xs[n - 1])
  {
    var p := xs[..n];
    assert DropLast(p) == xs[..n - 1];
    assert Last(p) == xs[n - 1];
  }

  /** `xs.filter(P)` */
  function Filter<T(!new)>(xs: seq<T>, P: T -> bool): (r: seq<T>)
    ensures |r| <= |xs|
    ensures forall y :: y in r <==> y in xs && P(y)
    ensures forall k :: 0 <= k < |r| ==> P(r[k])
    ensures forall y :: multiset(r)[y] == if P(y) then multiset(xs)[y] else 0
  {
    if |xs| == 0 then []
    else
      assert xs == DropLast(xs) + [Last(xs)];
      Filter(DropLast(xs), P) + (if P(Last(xs)) then [Last(xs)] else [])
  }

  /** Filtering one more element keeps it exactly when it passes. */
  lemma FilterSnoc<T(!new)>(xs: seq<T>, x: T, P: T -> bool)
    ensures Filter(xs + [x], P) == Filter(xs, P) + (if P(x) then [x] else [])
  {
    assert DropLast(xs + [x]) == xs;
  }

  /** Filtering keeps the order of first appearance: what is kept keeps its relative order. */
  lemma {:induction false} FilterInOrder<T(!new)>(xs: seq<T>, P: T -> bool, src: seq<T>)
    requires InFirstAppearanceOrder(xs, 0, src)
    ensures InFirstAppearanceOrder(Filter(xs, P), 0, src)
    decreases |xs|
  {
    if |xs| > 0 {
      var xs', x := DropLast(xs), Last(xs);
      InOrderDropLast(xs, src);
      FilterInOrder(xs', P, src);
      if P(x) {
        var f' := Filter(xs', P);
        InOrderLast(xs, src);
        assert forall y :: y in f' ==> y in xs';
        InOrderSnoc(f', x, src);
      }
    }
  }

  /** An ordered list stays ordered without its last element. */
  lemma InOrderDropLast<T(!new)>(xs: seq<T>, src: seq<T>)
    requires |xs| > 0 && InFirstAppearanceOrder(xs, 0, src)
    ensures InFirstAppearanceOrder(DropLast(xs), 0, src)
  {
    var xs' := DropLast(xs);
    assert forall k :: 0 <= k < |xs'| ==> xs'[k] == xs[k];
  }

  /** In an ordered list, the last element first appears after all the others. */
  lemma InOrderLast<T(!new)>(xs: seq<T>, src: seq<T>)
    requires |xs| > 0 && InFirstAppearanceOrder(xs, 0, src)
    ensures Last(xs) in src
    ensures forall y :: y in DropLast(xs) ==> y in src && IndexOf(src, y) < IndexOf(src, Last(xs))
  {
    var xs' := DropLast(xs);
    forall y | y in xs' ensures y in src && IndexOf(src, y) < IndexOf(src, Last(xs)) {
      var k :| 0 <= k < |xs'| && xs'[k] == y;
      assert xs[k] == y;
    }
  }

  /** Appending an element that first appears after every listed one keeps the order. */
  lemma InOrderSnoc<T(!new)>(xs: seq<T>, x: T, src: seq<T>)
    requires InFirstAppearanceOrder(xs, 0, src) && x in src
    requires forall y :: y in xs ==> y in src && IndexOf(src, y) < IndexOf(src, x)
    ensures InFirstAppearanceOrder(xs + [x], 0, src)
  {
    var r := xs + [x];
    assert forall i :: 0 <= i < |xs| ==> r[i] == xs[i];
    forall i, j | 0 <= i < j < |r| ensures IndexOf(src, r[i]) < IndexOf(src, r[j]) {
      assert r[i] == xs[i];
      if j < |xs| {
        assert r[j] == xs[j];
      }
    }
  }

  /** The kept elements `r` of a deduplicated list come in order of first appearance. */
  lemma FilterDedupOrder<T(!new)>(xs: seq<T>, P: T -> bool, r: seq<T>)
    requires r == Filter(Dedup(xs), P)
    ensures InFirstAppearanceOrder(r, 0, xs)
  {
    DedupOrder(xs);
    FilterInOrder(Dedup(xs), P, xs);
  }

  /** Filtering works piecewise, so the kept elements keep their order. */
  lemma {:induction false} FilterAppend<T(!new)>(xs: seq<T>, ys: seq<T>, P: T -> bool)
    ensures Filter(xs + ys, P) == Filter(xs, P) + Filter(ys, P)
    decreases |ys|
  {
    if |ys| > 0 {
      var t := if P(Last(ys)) then [Last(ys)] else [];
      assert DropLast(xs + ys) == xs + DropLast(ys);
      assert Last(xs + ys) == Last(ys);
      var a, b := Filter(xs, P), Filter(DropLast(ys), P);
      FilterAppend(xs, DropLast(ys), P);
      assert Filter(xs + ys, P) == a + b + t;
      assert Filter(ys, P) == b + t;
      ConcatAssoc(a, b, t);
    } else {
      assert xs + ys == xs;
    }
  }

  lemma ConcatAssoc<T>(a: seq<T>, b: seq<T>, c: seq<T>)
    ensures a + b + c == a + (b + c)
  {
  }

  /** `xs.filter(y => y !== x)` */
  function RemoveAll<T(==,!new)>(xs: seq<T>, x: T): (r: seq<T>)
    ensures x !in r
    ensures forall y :: y != x ==> (y in r <==> y in xs)
    ensures multiset(r)[x] == 0
    ensures forall y :: y != x ==> multiset(r)[y] == multiset(xs)[y]
    ensures x !in xs ==> r == xs
    ensures NoDup(xs) ==> NoDup(r)
  {
    if |xs| == 0 then []
    else
      assert xs == DropLast(xs) + [Last(xs)];
      var r := RemoveAll(DropLast(xs), x);
      if Last(xs) == x then r
      else
        SplitNoDup(xs);
        SnocNoDup(r, Last(xs));
        r + [Last(xs)]
  }

  /** Without repetitions, the last element is not among the others. */
  lemma SplitNoDup<T>(xs: seq<T>)
    requires |xs| > 0
    ensures NoDup(xs) ==> NoDup(DropLast(xs)) && Last(xs) !in DropLast(xs)
  {
  }

  /** Appending a new element keeps a list free of repetitions. */
  lemma SnocNoDup<T>(xs: seq<T>, v: T)
    ensures NoDup(xs) && v !in xs ==> NoDup(xs + [v])
  {
  }

  /** Removal works piecewise: the kept elements of a concatenation are the kept elements of
      each part, in the original order. */
  lemma {:induction false} RemoveAllAppend<T(!new)>(xs: seq<T>, ys: seq<T>, x: T)
    ensures RemoveAll(xs + ys, x) == RemoveAll(xs, x) + RemoveAll(ys, x)
    decreases |ys|
  {
    if |ys| > 0 {
      assert DropLast(xs + ys) == xs + DropLast(ys);
      assert Last(xs + ys) == Last(ys);
      RemoveAllAppend(xs, DropLast(ys), x);
    } else {
      assert xs + ys == xs;
    }
  }
}
