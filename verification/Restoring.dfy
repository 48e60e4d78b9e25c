/** What importing units does to a database, unit by unit: each table holds the rows its unit carries. */
module Restoring {
  import opened Codec
  import opened Artifact
  import opened Sorting
  import opened Sqlite
  import opened Export
  import opened Import
  import opened CanonicalRows

  // ----- the state an import of units leaves

  function RebuiltRows(info: seq<Column>, u: TableUnit): seq<Row> { MapSeq(Rebuilder(info, u.columns), u.rows) }

  lemma {:induction false} RebuiltLength(info: seq<Column>, u: TableUnit)
    ensures |RebuiltRows(info, u)| == |u.rows|
  {
  }

  function Restore(tables: Tables, u: TableUnit): Tables {
    if u.name in tables
    then tables[u.name := tables[u.name].(rows := RebuiltRows(tables[u.name].columns, u))]
    else tables
  }

  function RestoreAll(tables: Tables, units: seq<TableUnit>): Tables {
    if units == [] then tables else Restore(RestoreAll(tables, units[..|units| - 1]), units[|units| - 1])
  }

  lemma {:induction false} RestoreNothing(tables: Tables)
    ensures RestoreAll(tables, []) == tables
  {
  }

  lemma {:induction false} RestoreAppend(tables: Tables, a: seq<TableUnit>, b: seq<TableUnit>)
    ensures RestoreAll(RestoreAll(tables, a), b) == RestoreAll(tables, a + b)
    decreases |b|
  {
    hide Restore;
    if b == [] {
      assert a + b == a;
    } else {
      var n := |b| - 1;
      RestoreAppend(tables, a, b[..n]);
      assert (a + b)[..|a + b| - 1] == a + b[..n];
    }
  }

  function UnitNames(units: seq<TableUnit>): (names: seq<Name>)
    ensures |names| == |units| && forall i :: 0 <= i < |units| ==> names[i] == units[i].name
  {
    if units == [] then [] else [units[0].name] + UnitNames(units[1..])
  }

  lemma {:induction false} NamesOfParts(prev: seq<TableUnit>, units: seq<TableUnit>, n: nat)
    requires n <= |units|
    ensures UnitNames(prev + units[..n]) == UnitNames(prev) + UnitNames(units)[..n]
    ensures UnitNames(units[..n]) == UnitNames(units)[..n]
  {
    hide UnitNames;
  }

  lemma {:induction false} DistinctSnoc<T>(s: seq<T>, n: nat)
    requires n == |s| - 1
    ensures Distinct(s) <==> Distinct(s[..n]) && s[n] !in s[..n]
  {
  }

  function Listing(units: seq<TableUnit>): (done: seq<(Name, nat)>)
    ensures |done| == |units| && forall i :: 0 <= i < |units| ==> done[i] == (units[i].name, |units[i].rows|)
  {
    if units == [] then [] else [(units[0].name, |units[0].rows|)] + Listing(units[1..])
  }

  lemma {:induction false} RestoreKeepsSchema(tables: Tables, units: seq<TableUnit>, name: Name)
    ensures name in RestoreAll(tables, units) <==> name in tables
    ensures Info(RestoreAll(tables, units), name) == Info(tables, name)
  {
    hide RebuiltRows;
    if units != [] {
      RestoreKeepsSchema(tables, units[..|units| - 1], name);
    }
  }

  lemma {:induction false} RestoreUntouched(tables: Tables, units: seq<TableUnit>, name: Name)
    requires name !in UnitNames(units)
    ensures RowsOf(RestoreAll(tables, units), name) == RowsOf(tables, name)
  {
    hide RebuiltRows;
    if units != [] {
      var n := |units| - 1;
      NamesOfParts([], units, n);
      assert UnitNames(units)[n] == units[n].name;
      RestoreUntouched(tables, units[..n], name);
    }
  }

  lemma {:induction false} RestoreFound(tables: Tables, units: seq<TableUnit>, i: nat)
    requires Distinct(UnitNames(units)) && i < |units| && units[i].name in tables
    ensures RowsOf(RestoreAll(tables, units), units[i].name) == RebuiltRows(Info(tables, units[i].name), units[i])
  {
    hide RebuiltRows, UnitNames, Distinct;
    var n := |units| - 1;
    RestoreKeepsSchema(tables, units[..n], units[i].name);
    if i < n {
      NamesOfParts([], units, n);
      DistinctSnoc(UnitNames(units), n);
      assert UnitNames(units)[..n][i] == units[i].name;
      RestoreFound(tables, units[..n], i);
    }
  }

  // ----- the units of a tree

  function AllUnits(tree: Tree): seq<TableUnit> {
    if tree == [] then [] else AllUnits(tree[..|tree| - 1]) + tree[|tree| - 1].tables
  }

  function ImportedList(tree: Tree): (list: seq<ImportedSection>)
    ensures |list| == |tree| && forall i :: 0 <= i < |tree| ==>
            list[i] == ImportedSection(tree[i].name, Listing(tree[i].tables))
  {
    if tree == [] then [] else [ImportedSection(tree[0].name, Listing(tree[0].tables))] + ImportedList(tree[1..])
  }

  lemma {:induction false} UnitOfAll(tree: Tree, name: Name) returns (i: nat, k: nat)
    requires name in UnitNames(AllUnits(tree))
    ensures i < |tree| && k < |tree[i].tables| && tree[i].tables[k].name == name
  {
    hide UnitNames;
    var n := |tree| - 1;
    var init, last := AllUnits(tree[..n]), tree[n].tables;
    var m :| 0 <= m < |AllUnits(tree)| && UnitNames(AllUnits(tree))[m] == name;
    if m < |init| {
      assert UnitNames(init)[m] == name;
      i, k := UnitOfAll(tree[..n], name);
    } else {
      i, k := n, m - |init|;
    }
  }

  lemma {:induction false} AllUnitsContains(tree: Tree, i: nat, k: nat) returns (m: nat)
    requires i < |tree| && k < |tree[i].tables|
    ensures m < |AllUnits(tree)| && AllUnits(tree)[m] == tree[i].tables[k]
  {
    var n := |tree| - 1;
    if i < n {
      m := AllUnitsContains(tree[..n], i, k);
    } else {
      m := |AllUnits(tree[..n])| + k;
    }
  }

  // ----- units that can be imported

  /** A unit whose rows can all be inserted: right width, pairwise distinct primary keys. */
  ghost predicate RowsInsertable(info: seq<Column>, u: TableUnit) {
    && (forall i :: 0 <= i < |u.rows| ==> |u.rows[i]| == |u.columns|)
    && (forall i, j :: 0 <= i < j < |u.rows| ==>
          !SameKey(NewRow(info, u.columns, u.rows[i]), NewRow(info, u.columns, u.rows[j]), info))
  }

  lemma {:induction false} InsertRebuilds(tables: Tables, u: TableUnit, k: nat)
    requires u.name in tables && RowsInsertable(tables[u.name].columns, u) && k < |u.rows|
    requires tables[u.name].rows == RebuiltRows(tables[u.name].columns, u)[..k]
    ensures var t := tables[u.name];
            InsertNamed(tables, u.name, u.columns, u.rows[k])
            == Ok(tables[u.name := t.(rows := RebuiltRows(t.columns, u)[..k + 1])])
  {
    hide SameKey, NewRow;
    var t := tables[u.name];
    var rebuilt, row := RebuiltRows(t.columns, u), NewRow(t.columns, u.columns, u.rows[k]);
    assert rebuilt[k] == row;
    forall i | 0 <= i < k ensures !SameKey(t.rows[i], row, t.columns) {
      assert rebuilt[i] == NewRow(t.columns, u.columns, u.rows[i]);
    }
    assert rebuilt[..k + 1] == rebuilt[..k] + [row];
  }

  lemma {:induction false} InsertAllRebuilds(tables: Tables, u: TableUnit, k: nat)
    requires u.name in tables && tables[u.name].rows == [] && RowsInsertable(tables[u.name].columns, u) && k <= |u.rows|
    ensures var t := tables[u.name];
            InsertAll(tables, u.name, u.columns, u.rows[..k])
            == Ok(tables[u.name := t.(rows := RebuiltRows(t.columns, u)[..k])])
    decreases k
  {
    hide RowsInsertable, RebuiltRows, InsertNamed;
    var t := tables[u.name];
    var rebuilt := RebuiltRows(t.columns, u);
    RebuiltLength(t.columns, u);
    if k == 0 {
      assert tables[u.name := t.(rows := rebuilt[..0])] == tables;
    } else {
      InsertAllRebuilds(tables, u, k - 1);
      assert u.rows[..k][..k - 1] == u.rows[..k - 1];
      var now := tables[u.name := t.(rows := rebuilt[..k - 1])];
      InsertRebuilds(now, u, k - 1);
      assert now[u.name := t.(rows := rebuilt[..k])] == tables[u.name := t.(rows := rebuilt[..k])];
    }
  }

  lemma {:induction false} ImportRows(tables: Tables, u: TableUnit)
    requires u.name in tables && tables[u.name].rows == [] && RowsInsertable(tables[u.name].columns, u)
    ensures InsertAll(tables, u.name, u.columns, u.rows) == Ok(Restore(tables, u))
  {
    hide InsertAll, RowsInsertable;
    InsertAllRebuilds(tables, u, |u.rows|);
    assert u.rows[..|u.rows|] == u.rows;
    var rebuilt := RebuiltRows(tables[u.name].columns, u);
    assert rebuilt[..|u.rows|] == rebuilt;
  }

  /** The registry exports the unit, and the target has its table in the unit's shape. */
  ghost predicate UnitMatches(tables: Tables, spec: SectionSpec, u: TableUnit) {
    && u.name in tables && u.columns != []
    && FindExported(spec.tables, u.name).Some?
    && (var cc := CanonicalColumns(Info(tables, u.name), FindExported(spec.tables, u.name).value);
        cc.Ok? && cc.value.0 == u.columns)
    && RowsInsertable(Info(tables, u.name), u)
  }

  /** And the table is empty. */
  ghost predicate Importable(tables: Tables, spec: SectionSpec, u: TableUnit) {
    UnitMatches(tables, spec, u) && RowsOf(tables, u.name) == []
  }
}
