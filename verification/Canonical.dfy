/** What the export forgets: column declaration order, row insertion order, excluded columns and
    the sign of zero. */
module Canonical {
  import opened Bytes
  import opened Codec
  import opened Sorting
  import opened Sqlite
  import opened Export

  // ----- duplicate-free sequences

  lemma {:induction false} DistinctCounts<T>(s: seq<T>, x: T)
    requires Distinct(s)
    ensures multiset(s)[x] == if x in s then 1 else 0
  {
    if s != [] {
      assert s == [s[0]] + s[1..];
      DistinctCounts(s[1..], x);
      assert s[0] !in s[1..];
    }
  }

  lemma {:induction false} SameSetSameMultiset<T>(a: seq<T>, b: seq<T>)
    requires Distinct(a) && Distinct(b) && forall x :: x in a <==> x in b
    ensures multiset(a) == multiset(b)
  {
    forall x ensures multiset(a)[x] == multiset(b)[x] {
      DistinctCounts(a, x);
      DistinctCounts(b, x);
    }
  }

  lemma {:induction false} PermutedDistinct<T>(a: seq<T>, b: seq<T>)
    requires Distinct(a) && multiset(a) == multiset(b)
    ensures Distinct(b)
  {
    forall i, j | 0 <= i < j < |b| ensures b[i] != b[j] {
      if b[i] == b[j] {
        assert b == b[..i] + [b[i]] + b[i + 1..j] + [b[j]] + b[j + 1..];
        assert multiset(b)[b[i]] >= 2;
        DistinctCounts(a, b[i]);
      }
    }
  }

  // ----- canonical columns depend on the set of columns only

  predicate HasColumn(info: seq<Column>, name: Name, pk: bool) {
    exists i :: 0 <= i < |info| && info[i].name == name && info[i].pk == pk
  }

  /** The same columns with the same primary key, in any declaration order and with any defaults. */
  ghost predicate SameShape(a: seq<Column>, b: seq<Column>) {
    && Distinct(ColumnNames(a)) && Distinct(ColumnNames(b))
    && forall name, pk :: HasColumn(a, name, pk) <==> HasColumn(b, name, pk)
  }

  lemma {:induction false} ColumnNamesHas(info: seq<Column>, name: Name)
    ensures name in ColumnNames(info) <==> HasColumn(info, name, true) || HasColumn(info, name, false)
  {
    if name in ColumnNames(info) {
      var i :| 0 <= i < |info| && ColumnNames(info)[i] == name;
      assert HasColumn(info, name, info[i].pk);
    }
    if HasColumn(info, name, true) {
      var i :| 0 <= i < |info| && info[i].name == name && info[i].pk;
      assert ColumnNames(info)[i] == name;
    }
    if HasColumn(info, name, false) {
      var i :| 0 <= i < |info| && info[i].name == name && !info[i].pk;
      assert ColumnNames(info)[i] == name;
    }
  }

  lemma {:induction false} HasColumnTail(info: seq<Column>, name: Name, pk: bool)
    requires info != []
    ensures HasColumn(info, name, pk) <==> (info[0].name == name && info[0].pk == pk) || HasColumn(info[1..], name, pk)
  {
    if HasColumn(info[1..], name, pk) {
      var i :| 0 <= i < |info[1..]| && info[1..][i].name == name && info[1..][i].pk == pk;
      assert info[i + 1].name == name && info[i + 1].pk == pk;
    }
    if HasColumn(info, name, pk) && !(info[0].name == name && info[0].pk == pk) {
      var i :| 0 <= i < |info| && info[i].name == name && info[i].pk == pk;
      assert info[1..][i - 1].name == name && info[1..][i - 1].pk == pk;
    }
  }

  lemma {:induction false} KeptNamesHas(info: seq<Column>, excluded: seq<Name>, name: Name)
    ensures name in KeptNames(info, excluded) <==> name in ColumnNames(info) && name !in excluded
  {
    if info != [] {
      KeptNamesHas(info[1..], excluded, name);
    }
  }

  lemma {:induction false} KeyNamesHas(info: seq<Column>, name: Name)
    ensures name in KeyNames(info) <==> HasColumn(info, name, true)
  {
    hide HasColumn;
    if info != [] {
      KeyNamesHas(info[1..], name);
      HasColumnTail(info, name, true);
    } else {
      NoColumns(name);
    }
  }

  lemma {:induction false} NoColumns(name: Name)
    ensures !HasColumn([], name, true)
  {
  }

  lemma {:induction false} KeptNamesDistinct(info: seq<Column>, excluded: seq<Name>)
    requires Distinct(ColumnNames(info))
    ensures Distinct(KeptNames(info, excluded))
  {
    if info != [] {
      assert ColumnNames(info)[1..] == ColumnNames(info[1..]);
      KeptNamesDistinct(info[1..], excluded);
      KeptNamesHas(info[1..], excluded, info[0].name);
      assert info[0].name !in ColumnNames(info)[1..];
    }
  }

  lemma {:induction false} KeyNamesDistinct(info: seq<Column>)
    requires Distinct(ColumnNames(info))
    ensures Distinct(KeyNames(info))
  {
    if info != [] {
      assert ColumnNames(info)[1..] == ColumnNames(info[1..]);
      KeyNamesDistinct(info[1..]);
      KeyNamesHas(info[1..], info[0].name);
      ColumnNamesHas(info[1..], info[0].name);
      assert info[0].name !in ColumnNames(info)[1..];
    }
  }

  lemma {:induction false} FirstUnknownSame(a: seq<Column>, b: seq<Column>, excluded: seq<Name>)
    requires forall name :: name in ColumnNames(a) <==> name in ColumnNames(b)
    ensures FirstUnknown(a, excluded) == FirstUnknown(b, excluded)
  {
    if excluded != [] {
      FirstUnknownSame(a, b, excluded[1..]);
    }
  }

  lemma {:induction false} NameOrderTotal()
    ensures TotalPreorder(NameOrder)
    ensures forall names: seq<Name> :: TieFree(names, NameOrder)
  {
    hide BytesLeq;
    forall a, b ensures (NameOrder(a, b) || NameOrder(b, a)) && (NameOrder(a, b) && NameOrder(b, a) ==> a == b) {
      BytesLeqTotal(a, b);
    }
    forall a, b, c | NameOrder(a, b) && NameOrder(b, c) ensures NameOrder(a, c) {
      BytesLeqTransitive(a, b, c);
    }
  }

  /** Canonical columns are recomputable from any declaration order of the same shape. */
  lemma {:induction false} CanonicalColumnsSame(a: seq<Column>, b: seq<Column>, spec: TableSpec)
    requires SameShape(a, b)
    ensures CanonicalColumns(a, spec) == CanonicalColumns(b, spec)
  {
    hide HasColumn, Sort, NameOrder;
    forall name ensures name in ColumnNames(a) <==> name in ColumnNames(b) {
      ColumnNamesHas(a, name);
      ColumnNamesHas(b, name);
    }
    FirstUnknownSame(a, b, spec.excluded);
    forall name ensures name in KeptNames(a, spec.excluded) <==> name in KeptNames(b, spec.excluded) {
      KeptNamesHas(a, spec.excluded, name);
      KeptNamesHas(b, spec.excluded, name);
    }
    forall name ensures name in KeyNames(a) <==> name in KeyNames(b) {
      KeyNamesHas(a, name);
      KeyNamesHas(b, name);
    }
    assert KeyNames(a) == [] <==> KeyNames(b) == [] by {
      if KeyNames(a) != [] { assert KeyNames(a)[0] in KeyNames(b); }
      if KeyNames(b) != [] { assert KeyNames(b)[0] in KeyNames(a); }
    }
    SortedNamesSame(a, b, spec.excluded);
  }

  lemma {:induction false} SortedNamesSame(a: seq<Column>, b: seq<Column>, excluded: seq<Name>)
    requires Distinct(ColumnNames(a)) && Distinct(ColumnNames(b))
    requires forall name :: name in KeptNames(a, excluded) <==> name in KeptNames(b, excluded)
    requires forall name :: name in KeyNames(a) <==> name in KeyNames(b)
    ensures Sort(KeptNames(a, excluded), NameOrder) == Sort(KeptNames(b, excluded), NameOrder)
    ensures Sort(KeyNames(a), NameOrder) == Sort(KeyNames(b), NameOrder)
  {
    hide Sort, NameOrder, KeptNames, KeyNames;
    NameOrderTotal();
    KeptNamesDistinct(a, excluded);
    KeptNamesDistinct(b, excluded);
    SameSetSameMultiset(KeptNames(a, excluded), KeptNames(b, excluded));
    SortCanonical(KeptNames(a, excluded), KeptNames(b, excluded), NameOrder);
    KeyNamesDistinct(a);
    KeyNamesDistinct(b);
    SameSetSameMultiset(KeyNames(a), KeyNames(b));
    SortCanonical(KeyNames(a), KeyNames(b), NameOrder);
  }
}
