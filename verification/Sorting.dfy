/** Sorting by an arbitrary total preorder. `Sort` is stable, as Rust's `sort_by` is. */
module Sorting {
  ghost predicate Distinct<T>(s: seq<T>) {
    forall i, j :: 0 <= i < j < |s| ==> s[i] != s[j]
  }

  type Order<!T> = (T, T) -> bool

  ghost predicate TotalPreorder<T(!new)>(leq: Order<T>) {
    && (forall a, b :: leq(a, b) || leq(b, a))
    && (forall a, b, c :: leq(a, b) && leq(b, c) ==> leq(a, c))
  }

  ghost predicate Sorted<T>(s: seq<T>, leq: Order<T>) {
    forall i, j :: 0 <= i < j < |s| ==> leq(s[i], s[j])
  }

  /** No two distinct elements of `s` are tied. */
  ghost predicate TieFree<T>(s: seq<T>, leq: Order<T>) {
    forall a, b :: a in s && b in s && leq(a, b) && leq(b, a) ==> a == b
  }

  function Insert<T>(x: T, s: seq<T>, leq: Order<T>): (r: seq<T>)
    ensures multiset(r) == multiset([x]) + multiset(s)
    ensures |r| == |s| + 1
  {
    if s == [] then [x]
    else if leq(x, s[0]) then [x] + s
    else
      assert s == [s[0]] + s[1..];
      [s[0]] + Insert(x, s[1..], leq)
  }

  function Sort<T>(s: seq<T>, leq: Order<T>): (r: seq<T>)
    ensures multiset(r) == multiset(s)
    ensures |r| == |s|
  {
    if s == [] then []
    else
      assert s == [s[0]] + s[1..];
      Insert(s[0], Sort(s[1..], leq), leq)
  }

  lemma {:induction false} InsertSorted<T(!new)>(x: T, s: seq<T>, leq: Order<T>)
    requires TotalPreorder(leq) && Sorted(s, leq)
    ensures Sorted(Insert(x, s, leq), leq)
  {
    if s != [] && !leq(x, s[0]) {
      var rest := Insert(x, s[1..], leq);
      InsertSorted(x, s[1..], leq);
      forall y | y in rest ensures leq(s[0], y) {
        assert y in multiset(rest);
      }
    }
  }

  lemma {:induction false} SortSorted<T(!new)>(s: seq<T>, leq: Order<T>)
    requires TotalPreorder(leq)
    ensures Sorted(Sort(s, leq), leq)
  {
    if s != [] {
      SortSorted(s[1..], leq);
      InsertSorted(s[0], Sort(s[1..], leq), leq);
    }
  }

  lemma {:induction false} SameElements<T>(a: seq<T>, b: seq<T>)
    requires multiset(a) == multiset(b)
    ensures |a| == |b| && forall x :: x in a <==> x in b
  {
    assert |multiset(a)| == |a| && |multiset(b)| == |b|;
    forall x ensures x in a <==> x in b {
      assert x in a <==> x in multiset(a);
      assert x in b <==> x in multiset(b);
    }
  }

  lemma {:induction false} SortedHeadLeast<T>(s: seq<T>, x: T, leq: Order<T>)
    requires Sorted(s, leq) && x in s
    ensures x == s[0] || leq(s[0], x)
  {
  }

  lemma {:induction false} TailMultiset<T>(a: seq<T>, b: seq<T>)
    requires a != [] && b != [] && a[0] == b[0] && multiset(a) == multiset(b)
    ensures multiset(a[1..]) == multiset(b[1..])
  {
    assert a == [a[0]] + a[1..] && b == [b[0]] + b[1..];
    assert multiset(a[1..]) == multiset(a) - multiset([a[0]]);
    assert multiset(b[1..]) == multiset(b) - multiset([b[0]]);
  }

  /** Without ties there is only one sorted arrangement. */
  lemma {:induction false} SortedUnique<T>(a: seq<T>, b: seq<T>, leq: Order<T>)
    requires Sorted(a, leq) && Sorted(b, leq) && multiset(a) == multiset(b) && TieFree(a, leq)
    ensures a == b
  {
    SameElements(a, b);
    if a != [] {
      assert a[0] == b[0] by {
        SortedHeadLeast(a, b[0], leq);
        SortedHeadLeast(b, a[0], leq);
      }
      TailMultiset(a, b);
      assert TieFree(a[1..], leq);
      hide TieFree;
      SortedUnique(a[1..], b[1..], leq);
    }
  }

  /** Sorting forgets the input order when there are no ties. */
  lemma {:induction false} SortCanonical<T(!new)>(a: seq<T>, b: seq<T>, leq: Order<T>)
    requires TotalPreorder(leq) && multiset(a) == multiset(b) && TieFree(a, leq)
    ensures Sort(a, leq) == Sort(b, leq)
  {
    SortSorted(a, leq);
    SortSorted(b, leq);
    SameElements(a, Sort(a, leq));
    SortedUnique(Sort(a, leq), Sort(b, leq), leq);
  }

  /** The elements tied with `x`, in order. */
  function Ties<T>(s: seq<T>, x: T, leq: Order<T>): seq<T> {
    if s == [] then [] else (if TiedTo(s[0], x, leq) then [s[0]] else []) + Ties(s[1..], x, leq)
  }

  predicate TiedTo<T>(a: T, x: T, leq: Order<T>) { leq(a, x) && leq(x, a) }

  lemma {:induction false} NotBothTied<T(!new)>(y: T, e: T, x: T, leq: Order<T>)
    requires TotalPreorder(leq) && !leq(y, e)
    ensures !(TiedTo(y, x, leq) && TiedTo(e, x, leq))
  {
  }

  lemma {:induction false} InsertStable<T(!new)>(y: T, s: seq<T>, x: T, leq: Order<T>)
    requires TotalPreorder(leq)
    ensures Ties(Insert(y, s, leq), x, leq) == (if TiedTo(y, x, leq) then [y] else []) + Ties(s, x, leq)
  {
    hide TotalPreorder, TiedTo;
    var r := Insert(y, s, leq);
    if s == [] || leq(y, s[0]) {
      assert r == [y] + s && r[1..] == s;
    } else {
      InsertStable(y, s[1..], x, leq);
      NotBothTied(y, s[0], x, leq);
      assert r[0] == s[0] && r[1..] == Insert(y, s[1..], leq);
      if !TiedTo(y, x, leq) {
        assert [] + Ties(s[1..], x, leq) == Ties(s[1..], x, leq);
      }
    }
  }

  /** Tied elements keep their order. */
  lemma {:induction false} SortStable<T(!new)>(s: seq<T>, x: T, leq: Order<T>)
    requires TotalPreorder(leq)
    ensures Ties(Sort(s, leq), x, leq) == Ties(s, x, leq)
  {
    if s != [] {
      SortStable(s[1..], x, leq);
      InsertStable(s[0], Sort(s[1..], leq), x, leq);
    }
  }

  lemma {:induction false} SortIdempotent<T(!new)>(s: seq<T>, leq: Order<T>)
    requires TotalPreorder(leq) && Sorted(s, leq)
    ensures Sort(s, leq) == s
  {
    if s != [] {
      SortIdempotent(s[1..], leq);
      assert s == [s[0]] + s[1..];
      if |s| > 1 {
        assert leq(s[0], s[1..][0]);
      }
    }
  }

  // ----- element by element

  function MapSeq<T, U>(f: T -> U, xs: seq<T>): (ys: seq<U>)
    ensures |ys| == |xs| && forall i :: 0 <= i < |xs| ==> ys[i] == f(xs[i])
  {
    if xs == [] then [] else [f(xs[0])] + MapSeq(f, xs[1..])
  }

  lemma {:induction false} MapAppend<T, U>(f: T -> U, xs: seq<T>, ys: seq<T>)
    ensures MapSeq(f, xs + ys) == MapSeq(f, xs) + MapSeq(f, ys)
  {
    hide MapSeq;
  }

  lemma {:induction false} MapSplit<T, U>(f: T -> U, before: seq<T>, x: T, after: seq<T>)
    ensures multiset(MapSeq(f, before + [x] + after)) == multiset(MapSeq(f, before + after)) + multiset{f(x)}
  {
    hide MapSeq;
    MapAppend(f, before, after);
    MapAppend(f, before + [x], after);
    MapAppend(f, before, [x]);
    assert MapSeq(f, [x]) == [f(x)];
  }

  lemma {:induction false} MapHead<T, U>(f: T -> U, xs: seq<T>)
    requires xs != []
    ensures multiset(MapSeq(f, xs)) == multiset(MapSeq(f, xs[1..])) + multiset{f(xs[0])}
  {
    hide MapSeq;
    assert MapSeq(f, xs) == [f(xs[0])] + MapSeq(f, xs[1..]);
  }

  /** Where a rearrangement put the first element. */
  lemma {:induction false} Locate<T>(xs: seq<T>, ys: seq<T>) returns (before: seq<T>, after: seq<T>)
    requires xs != [] && multiset(xs) == multiset(ys)
    ensures ys == before + [xs[0]] + after && multiset(xs[1..]) == multiset(before + after)
  {
    SameElements(xs, ys);
    assert xs[0] in ys;
    var j :| 0 <= j < |ys| && ys[j] == xs[0];
    before, after := ys[..j], ys[j + 1..];
    assert xs == [xs[0]] + xs[1..];
    assert multiset(xs[1..]) == multiset(xs) - multiset{xs[0]};
    assert ys == before + [xs[0]] + after;
    assert multiset(before + after) == multiset(ys) - multiset{xs[0]};
  }

  /** Mapping a rearrangement gives a rearrangement. */
  lemma {:induction false} MapPermutes<T, U>(f: T -> U, xs: seq<T>, ys: seq<T>)
    requires multiset(xs) == multiset(ys)
    ensures multiset(MapSeq(f, xs)) == multiset(MapSeq(f, ys))
  {
    hide MapSeq;
    if xs == [] {
      SameElements(xs, ys);
      assert ys == xs;
    } else {
      var before, after := Locate(xs, ys);
      MapPermutes(f, xs[1..], before + after);
      MapHead(f, xs);
      MapSplit(f, before, xs[0], after);
    }
  }
}
