/** Picking elements out of a list: the plain statement that a list holds exactly the wanted elements
    of another, mapped, each once and in order. */
module Selection {

  function Count<T>(xs: seq<T>, wanted: T -> bool): nat {
    if xs == [] then 0
    else Count(xs[..|xs| - 1], wanted) + if wanted(xs[|xs| - 1]) then 1 else 0
  }

  /** `ys` has one entry per wanted element, standing where the wanted ones before it leave off. */
  ghost predicate Selects<T, U>(xs: seq<T>, wanted: T -> bool, image: T -> U, ys: seq<U>) {
    && |ys| == Count(xs, wanted)
    && forall i :: 0 <= i < |xs| && wanted(xs[i]) ==> Stands(xs, wanted, i, image(xs[i]), ys)
  }

  ghost predicate Stands<T, U>(xs: seq<T>, wanted: T -> bool, i: nat, y: U, ys: seq<U>)
    requires i < |xs|
  {
    var k := Count(xs[..i], wanted);
    k < |ys| && ys[k] == y
  }

  lemma {:induction false} SelectsEmpty<T, U>(wanted: T -> bool, image: T -> U)
    ensures Selects([], wanted, image, [])
  {
  }

  lemma {:induction false} SelectsSnoc<T, U>(xs: seq<T>, wanted: T -> bool, image: T -> U, ys: seq<U>, x: T)
    requires Selects(xs, wanted, image, ys)
    ensures Selects(xs + [x], wanted, image, ys + if wanted(x) then [image(x)] else [])
  {
    var all, zs := xs + [x], ys + if wanted(x) then [image(x)] else [];
    assert all[..|xs|] == xs;
    forall i | 0 <= i < |all| && wanted(all[i]) ensures Stands(all, wanted, i, image(all[i]), zs) {
      if i < |xs| {
        assert Stands(xs, wanted, i, image(xs[i]), ys);
        assert all[..i] == xs[..i];
      }
    }
  }

  lemma {:induction false} CountCons<T>(x: T, xs: seq<T>, wanted: T -> bool)
    ensures Count([x] + xs, wanted) == Count(xs, wanted) + if wanted(x) then 1 else 0
  {
    if xs == [] {
      assert [x] + xs == [x] && [x][..0] == [];
    } else {
      assert ([x] + xs)[..|xs|] == [x] + xs[..|xs| - 1];
      CountCons(x, xs[..|xs| - 1], wanted);
    }
  }

  lemma {:induction false} SelectsCons<T, U>(xs: seq<T>, wanted: T -> bool, image: T -> U, ys: seq<U>, x: T)
    requires Selects(xs, wanted, image, ys)
    ensures Selects([x] + xs, wanted, image, (if wanted(x) then [image(x)] else []) + ys)
  {
    var all, zs := [x] + xs, (if wanted(x) then [image(x)] else []) + ys;
    CountCons(x, xs, wanted);
    forall i | 0 <= i < |all| && wanted(all[i]) ensures Stands(all, wanted, i, image(all[i]), zs) {
      if i == 0 {
        assert all[..0] == [];
      } else {
        assert Stands(xs, wanted, i - 1, image(xs[i - 1]), ys);
        assert all[..i] == [x] + xs[..i - 1];
        CountCons(x, xs[..i - 1], wanted);
      }
    }
  }

  /** Every place of the selection is some wanted element's. */
  lemma {:induction false} PlaceTaken<T>(xs: seq<T>, wanted: T -> bool, k: nat) returns (i: nat)
    requires k < Count(xs, wanted)
    ensures i < |xs| && wanted(xs[i]) && Count(xs[..i], wanted) == k
  {
    var n := |xs| - 1;
    if k < Count(xs[..n], wanted) {
      i := PlaceTaken(xs[..n], wanted, k);
      assert xs[..n][..i] == xs[..i];
    } else {
      i := n;
    }
  }

  /** There is only one such list. */
  lemma {:induction false} SelectsUnique<T, U>(xs: seq<T>, wanted: T -> bool, image: T -> U, ys: seq<U>, zs: seq<U>)
    requires Selects(xs, wanted, image, ys) && Selects(xs, wanted, image, zs)
    ensures ys == zs
  {
    forall k | 0 <= k < |ys| ensures ys[k] == zs[k] {
      var i := PlaceTaken(xs, wanted, k);
      assert Stands(xs, wanted, i, image(xs[i]), ys) && Stands(xs, wanted, i, image(xs[i]), zs);
    }
  }

  lemma {:induction false} SelectsHas<T, U>(xs: seq<T>, wanted: T -> bool, image: T -> U, ys: seq<U>, y: U)
    requires Selects(xs, wanted, image, ys)
    ensures y in ys <==> exists i :: 0 <= i < |xs| && wanted(xs[i]) && image(xs[i]) == y
  {
    if y in ys {
      var k :| 0 <= k < |ys| && ys[k] == y;
      var i := PlaceTaken(xs, wanted, k);
      assert Stands(xs, wanted, i, image(xs[i]), ys);
    }
    if i :| 0 <= i < |xs| && wanted(xs[i]) && image(xs[i]) == y {
      assert Stands(xs, wanted, i, image(xs[i]), ys);
    }
  }

  lemma {:induction false} SelectsNothing<T, U>(xs: seq<T>, wanted: T -> bool, image: T -> U, ys: seq<U>)
    requires Selects(xs, wanted, image, ys)
    ensures ys == [] <==> forall i :: 0 <= i < |xs| ==> !wanted(xs[i])
  {
    if ys != [] {
      var i := PlaceTaken(xs, wanted, 0);
    }
    if i :| 0 <= i < |xs| && wanted(xs[i]) {
      assert Stands(xs, wanted, i, image(xs[i]), ys);
    }
  }

  lemma {:induction false} CountAll<T>(xs: seq<T>, wanted: T -> bool)
    requires forall i :: 0 <= i < |xs| ==> wanted(xs[i])
    ensures Count(xs, wanted) == |xs|
  {
    if xs != [] {
      CountAll(xs[..|xs| - 1], wanted);
    }
  }

  lemma {:induction false} SelectsEverything<T>(xs: seq<T>, wanted: T -> bool, image: T -> T, ys: seq<T>)
    requires Selects(xs, wanted, image, ys)
    requires forall i :: 0 <= i < |xs| ==> wanted(xs[i]) && image(xs[i]) == xs[i]
    ensures ys == xs
  {
    CountAll(xs, wanted);
    forall i | 0 <= i < |xs| ensures ys[i] == xs[i] {
      CountAll(xs[..i], wanted);
      assert Stands(xs, wanted, i, image(xs[i]), ys);
    }
  }
}
