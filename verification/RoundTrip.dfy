/** Export, import, export: the second artifact is the first, byte for byte. */
module RoundTrip {
  import opened Codec
  import opened Artifact
  import opened Sorting
  import opened Sqlite
  import opened Export
  import opened Import
  import opened Canonical
  import opened CanonicalRows
  import opened States
  import opened Restoring
  import opened ImportExact

  // ----- a unit exported from one database can be imported into a fresh one of the same shape

  lemma {:induction false} SameShapeKeys(a: seq<Column>, b: seq<Column>, spec: TableSpec)
    requires SameShape(a, b)
    requires forall i :: 0 <= i < |a| && a[i].pk ==> a[i].name !in spec.excluded
    ensures forall i :: 0 <= i < |b| && b[i].pk ==> b[i].name !in spec.excluded
  {
    hide Distinct, ColumnNames;
    forall i | 0 <= i < |b| && b[i].pk ensures b[i].name !in spec.excluded {
      assert HasColumn(b, b[i].name, true);
      assert HasColumn(a, b[i].name, true);
    }
  }

  /** The columns and key the source exported with are those of any target of the same shape. */
  lemma {:induction false} TargetColumns(a: seq<Column>, b: seq<Column>, spec: TableSpec)
    requires SameShape(a, b) && CanonicalColumns(a, spec).Ok?
    requires forall i :: 0 <= i < |a| && a[i].pk ==> a[i].name !in spec.excluded
    ensures CanonicalColumns(b, spec) == CanonicalColumns(a, spec) == Ok((ColumnsOf(a, spec), KeyOf(a)))
    ensures KeyOf(b) == KeyOf(a) && ColumnsOf(b, spec) == ColumnsOf(a, spec) && b != []
    ensures Covering(b, ColumnsOf(a, spec), KeyOf(a))
  {
    CanonicalColumnsSame(a, b, spec);
    SameShapeKeys(a, b, spec);
    ColumnsCover(b, spec);
    hide SameShape, Covering, Sort, FirstUnknown;
  }

  lemma {:induction false} ExportedRowsInsertable(s: Tables, t: Tables, spec: TableSpec, u: TableUnit)
    requires WellKeyed(s, spec) && ExportTable(s, spec) == Ok(u)
    requires SameShape(Info(s, spec.name), Info(t, spec.name))
    ensures RowsInsertable(Info(t, spec.name), u)
  {
    var a, b := Info(s, spec.name), Info(t, spec.name);
    hide ExportTable, Info, SameShape, CanonicalColumns, Covering, Ordered, NewRow, Image, KeyOrder, SameKey,
         RowExporter, Traverse, KeyOf, ColumnsOf;
    ExportedShape(s, spec, u);
    TargetColumns(a, b, spec);
    WellKeyedRows(s, spec);
    var key := KeyOf(a);
    var rows := Ordered(RowsOf(s, spec.name), key);
    OrderedKeys(RowsOf(s, spec.name), key);
    forall i, j | 0 <= i < j < |u.rows|
      ensures !SameKey(NewRow(b, u.columns, u.rows[i]), NewRow(b, u.columns, u.rows[j]), b)
    {
      TieIsSameKey(b, NewRow(b, u.columns, u.rows[i]), NewRow(b, u.columns, u.rows[j]));
      RebuiltOrder(b, u.columns, key, rows[i], rows[j]);
      RebuiltOrder(b, u.columns, key, rows[j], rows[i]);
    }
  }

  // ----- and exports again to the same unit

  lemma {:induction false} ExportIdempotent(v: Value, table: Name, column: Name, out: Value)
    requires ExportValue(v, table, column) == Ok(out)
    ensures ExportValue(out, table, column) == Ok(out)
  {
  }

  /** Cells that export as they are. */
  ghost predicate SettledCells(u: TableUnit) {
    && (forall i :: 0 <= i < |u.rows| ==> |u.rows[i]| == |u.columns|)
    && (forall i, j :: 0 <= i < |u.rows| && 0 <= j < |u.rows[i]| && j < |u.columns| ==>
          ExportValue(u.rows[i][j], u.name, u.columns[j]) == Ok(u.rows[i][j]))
  }

  lemma {:induction false} ExportedCellsSettled(u: TableUnit, rows: seq<Row>)
    requires Traverse(RowExporter(u.name, u.columns), rows) == Ok(u.rows)
    ensures SettledCells(u)
  {
    hide Traverse, ExportValue, Cell, RowExporter;
    ExportedRows(u.name, u.columns, rows, u.rows);
    forall i, j | 0 <= i < |u.rows| && 0 <= j < |u.columns|
      ensures ExportValue(u.rows[i][j], u.name, u.columns[j]) == Ok(u.rows[i][j])
    {
      ExportIdempotent(Cell(rows[i], u.columns[j]), u.name, u.columns[j], u.rows[i][j]);
    }
  }

  lemma {:induction false} RebuiltExports(info: seq<Column>, u: TableUnit)
    requires Distinct(u.columns) && (forall c :: c in u.columns ==> c in ColumnNames(info)) && SettledCells(u)
    ensures Traverse(RowExporter(u.name, u.columns), RebuiltRows(info, u)) == Ok(u.rows)
  {
    hide Traverse, ExportValue, Cell, NewRow, ColumnNames;
    var rebuilt, f := RebuiltRows(info, u), RowExporter(u.name, u.columns);
    forall i | 0 <= i < |rebuilt| ensures f(rebuilt[i]) == Ok(u.rows[i]) {
      assert |u.rows[i]| == |u.columns|;
      var g := CellExporter(rebuilt[i], u.name);
      forall j | 0 <= j < |u.columns| ensures g(u.columns[j]) == Ok(u.rows[i][j]) {
        CellOfNewRow(info, u.columns, u.rows[i], j);
      }
      TraverseOk(g, u.columns, u.rows[i]);
    }
    TraverseOk(f, rebuilt, u.rows);
  }

  lemma {:induction false} RebuiltSorted(info: seq<Column>, columns: seq<Name>, key: seq<Name>, rows: seq<Row>,
      u: TableUnit)
    requires Covering(info, columns, key) && Sorted(rows, KeyOrder(key))
    requires u.columns == columns && u.rows == Images(rows, columns)
    ensures Ordered(RebuiltRows(info, u), key) == RebuiltRows(info, u)
  {
    hide Covering, KeyOrder, NewRow, Image, Sort;
    var rebuilt := RebuiltRows(info, u);
    forall i, j | 0 <= i < j < |rebuilt| ensures KeyOrder(key)(rebuilt[i], rebuilt[j]) {
      RebuiltOrder(info, columns, key, rows[i], rows[j]);
    }
    KeyOrderTotal(key);
    SortIdempotent(rebuilt, KeyOrder(key));
  }

  lemma {:induction false} RestoredExports(s: Tables, t: Tables, after: Tables, spec: TableSpec, u: TableUnit)
    requires WellKeyed(s, spec) && ExportTable(s, spec) == Ok(u)
    requires SameShape(Info(s, spec.name), Info(t, spec.name))
    requires Info(after, spec.name) == Info(t, spec.name) &&
             RowsOf(after, spec.name) == RebuiltRows(Info(t, spec.name), u)
    ensures ExportTable(after, spec) == Ok(u)
  {
    var a, b := Info(s, spec.name), Info(t, spec.name);
    ExportedShape(s, spec, u);
    hide Info, RowsOf, SameShape, CanonicalColumns, Ordered, KeyOrder, RowExporter, Traverse, KeyOf, ColumnsOf,
         RebuiltRows, Images, SettledCells;
    TargetColumns(a, b, spec);
    WellKeyedRows(s, spec);
    var key := KeyOf(a);
    var rows := Ordered(RowsOf(s, spec.name), key);
    OrderedKeys(RowsOf(s, spec.name), key);
    RebuiltSorted(b, u.columns, key, rows, u);
    ExportedCellsSettled(u, rows);
    RebuiltExports(b, u);
  }

  // ----- registries

  function TableNames(specs: seq<TableSpec>): (names: seq<Name>)
    ensures |names| == |specs| && forall i :: 0 <= i < |specs| ==> names[i] == specs[i].name
  {
    if specs == [] then [] else [specs[0].name] + TableNames(specs[1..])
  }

  /** Section names are distinct, and no two covered tables share a name. */
  ghost predicate RegistryOk(sections: seq<SectionSpec>) {
    && (forall i, j :: 0 <= i < j < |sections| ==> sections[i].name != sections[j].name)
    && (forall i :: 0 <= i < |sections| ==> Distinct(TableNames(sections[i].tables)))
    && (forall i, j, name :: 0 <= i < j < |sections| && name in TableNames(sections[i].tables) ==>
        name !in TableNames(sections[j].tables))
  }

  lemma {:induction false} FindSectionDistinct(sections: seq<SectionSpec>, i: nat)
    requires (forall a, b :: 0 <= a < b < |sections| ==> sections[a].name != sections[b].name) && i < |sections|
    ensures FindSection(sections, sections[i].name) == Some(sections[i])
  {
    if i > 0 {
      FindSectionDistinct(sections[1..], i - 1);
      assert sections[0].name != sections[i].name;
    }
  }

  lemma {:induction false} RegistryVersionOf(sections: seq<SectionSpec>, i: nat)
    requires (forall a, b :: 0 <= a < b < |sections| ==> sections[a].name != sections[b].name) && i < |sections|
    ensures sections[i].name in RegistryVersions(sections)
    ensures RegistryVersions(sections)[sections[i].name] == sections[i].formatVersion
  {
    var n := |sections| - 1;
    if i < n {
      RegistryVersionOf(sections[..n], i);
      assert sections[i].name != sections[n].name;
    }
  }

  lemma {:induction false} FindExportedDistinct(specs: seq<TableSpec>, j: nat)
    requires Distinct(TableNames(specs)) && j < |specs| && specs[j].role == Exported
    ensures FindExported(specs, specs[j].name) == Some(specs[j])
  {
    if j > 0 {
      assert TableNames(specs)[1..] == TableNames(specs[1..]);
      assert TableNames(specs)[0] != TableNames(specs)[j];
      FindExportedDistinct(specs[1..], j - 1);
    }
  }

  /** The exported units of a section, matched with their specs. */
  ghost predicate Matches(specs: seq<TableSpec>, covered: seq<Covered>) {
    |specs| == |covered| && forall j :: 0 <= j < |specs| ==>
      covered[j].spec == specs[j] && covered[j].unit.name == specs[j].name
  }

  lemma {:induction false} ExportedUnitOf(covered: seq<Covered>, j: nat) returns (k: nat)
    requires j < |covered| && covered[j].spec.role == Exported
    ensures k < |ExportedUnits(covered)| && ExportedUnits(covered)[k] == covered[j].unit
  {
    if j == 0 {
      k := 0;
    } else {
      var m := ExportedUnitOf(covered[1..], j - 1);
      k := if covered[0].spec.role == Exported then m + 1 else m;
    }
  }

  lemma {:induction false} ExportedNamesDistinct(specs: seq<TableSpec>, covered: seq<Covered>)
    requires Matches(specs, covered) && Distinct(TableNames(specs))
    ensures Distinct(UnitNames(ExportedUnits(covered)))
    decreases |specs|
  {
    if specs != [] {
      var rest := ExportedUnits(covered[1..]);
      assert TableNames(specs)[1..] == TableNames(specs[1..]);
      ExportedNamesDistinct(specs[1..], covered[1..]);
      if covered[0].spec.role == Exported {
        forall k | 0 <= k < |rest| ensures UnitNames(rest)[k] != specs[0].name {
          var j := SpecOfExportedUnit(covered[1..], k);
          assert TableNames(specs)[j + 1] != TableNames(specs)[0];
        }
        ConsDistinct(covered[0].unit, rest);
      }
    }
  }

  lemma {:induction false} DistinctCons<T>(x: T, s: seq<T>)
    requires Distinct(s) && x !in s
    ensures Distinct([x] + s)
  {
  }

  lemma {:induction false} ConsDistinct(u: TableUnit, rest: seq<TableUnit>)
    requires Distinct(UnitNames(rest)) && forall k :: 0 <= k < |rest| ==> UnitNames(rest)[k] != u.name
    ensures Distinct(UnitNames([u] + rest))
  {
    hide UnitNames, Distinct;
    assert UnitNames([u] + rest) == [u.name] + UnitNames(rest);
    DistinctCons(u.name, UnitNames(rest));
  }

  // ----- from a walk of the source to an import of the target

  /** The source is well keyed; in the target the exported tables have the same shape and are
      empty, and the DivergenceOnly tables can be read. */
  ghost predicate Ready(s: Tables, t: Tables, sections: seq<SectionSpec>) {
    forall spec :: IsCovered(sections, spec) ==>
      if spec.role == Exported
      then WellKeyed(s, spec) && SameShape(Info(s, spec.name), Info(t, spec.name)) && RowsOf(t, spec.name) == []
      else ExportTable(t, spec).Ok?
  }

  lemma {:induction false} UnitImportable(s: Tables, t: Tables, section: SectionSpec, j: nat, u: TableUnit)
    requires Distinct(TableNames(section.tables)) && j < |section.tables| && section.tables[j].role == Exported
    requires var spec := section.tables[j];
             && WellKeyed(s, spec) && ExportTable(s, spec) == Ok(u)
             && SameShape(Info(s, spec.name), Info(t, spec.name)) && RowsOf(t, spec.name) == []
    ensures Importable(t, section, u)
  {
    var spec := section.tables[j];
    FindExportedDistinct(section.tables, j);
    ExportedShape(s, spec, u);
    ExportedRowsInsertable(s, t, spec, u);
    TargetColumns(Info(s, spec.name), Info(t, spec.name), spec);
    hide ExportTable, SameShape, CanonicalColumns, RowsInsertable, FindExported, Covering, ColumnsOf, KeyOf, Traverse,
         Images, Ordered;
  }

  lemma {:induction false} SectionReady(s: Tables, t: Tables, sections: seq<SectionSpec>, ws: seq<Walked>, i: nat)
    requires RegistryOk(sections) && Walk(s, sections) == Ok(ws) && Ready(s, t, sections) && i < |ws|
    ensures |ws| == |sections| && Matches(sections[i].tables, ws[i].tables)
    ensures SectionFitting(t, sections, SectionOf(ws[i]))
    ensures Takes(sections, RegistryVersions(sections), sections[i].name, sections[i].formatVersion)
  {
    hide Walk, ExportTable, Importable, WellKeyed, SameShape, RegistryVersions, FindSection, FirstMissing,
         ExportedUnits, Listing, UnitNames, TableNames;
    WalkVisits(s, sections, ws);
    var section, covered := sections[i], ws[i].tables;
    var units := ExportedUnits(covered);
    FindSectionDistinct(sections, i);
    RegistryVersionOf(sections, i);
    forall j | 0 <= j < |covered| ensures covered[j].unit.name == section.tables[j].name {
      ExportedShape(s, section.tables[j], covered[j].unit);
    }
    ExportedNamesDistinct(section.tables, covered);
    forall k | 0 <= k < |units| ensures Importable(t, section, units[k]) {
      var j := SpecOfExportedUnit(covered, k);
      assert IsCovered(sections, section.tables[j]);
      UnitImportable(s, t, section, j, units[k]);
    }
    forall j | 0 <= j < |section.tables| && section.tables[j].role == Exported
      ensures section.tables[j].name in UnitNames(units)
    {
      var k := ExportedUnitOf(covered, j);
      assert UnitNames(units)[k] == section.tables[j].name;
    }
  }

  // ----- unit names across sections

  /** No section repeats a table of an earlier one. */
  ghost predicate TablesDisjoint(tree: Tree) {
    forall i, k :: 0 <= i < |tree| && 0 <= k < |tree[i].tables| ==>
      tree[i].tables[k].name !in UnitNames(AllUnits(tree[..i]))
  }

  lemma {:induction false} AllUnitsDistinct(tree: Tree)
    requires TablesDisjoint(tree) && forall i :: 0 <= i < |tree| ==> Distinct(UnitNames(tree[i].tables))
    ensures Distinct(UnitNames(AllUnits(tree)))
  {
    hide UnitNames;
    if tree != [] {
      var n := |tree| - 1;
      var init, last := tree[..n], tree[n].tables;
      assert TablesDisjoint(init) by {
        forall i, k | 0 <= i < |init| && 0 <= k < |init[i].tables|
          ensures init[i].tables[k].name !in UnitNames(AllUnits(init[..i]))
        {
          assert init[..i] == tree[..i];
          assert tree[i].tables[k].name !in UnitNames(AllUnits(tree[..i]));
        }
      }
      AllUnitsDistinct(init);
      DistinctConcat(AllUnits(init), last);
    }
  }

  lemma {:induction false} DistinctConcat(a: seq<TableUnit>, b: seq<TableUnit>)
    requires Distinct(UnitNames(a)) && Distinct(UnitNames(b))
    requires forall k :: 0 <= k < |b| ==> b[k].name !in UnitNames(a)
    ensures Distinct(UnitNames(a + b))
  {
    hide UnitNames;
    assert UnitNames(a + b) == UnitNames(a) + UnitNames(b);
  }

  /** A unit name of the first `n` sections is a covered table name of one of them. */
  lemma {:induction false} EarlierName(sections: seq<SectionSpec>, ws: seq<Walked>, n: nat, name: Name) returns (i: nat)
    requires n <= |ws| == |sections| && forall i :: 0 <= i < |ws| ==> Matches(sections[i].tables, ws[i].tables)
    requires name in UnitNames(AllUnits(TreeOf(ws)[..n]))
    ensures i < n && name in TableNames(sections[i].tables)
  {
    hide UnitNames, TableNames, ExportedUnits;
    var k;
    i, k := UnitOfAll(TreeOf(ws)[..n], name);
    var j := SpecOfExportedUnit(ws[i].tables, k);
    assert TableNames(sections[i].tables)[j] == name;
  }

  lemma {:induction false} UnitDisjoint(sections: seq<SectionSpec>, ws: seq<Walked>, i: nat, k: nat)
    requires RegistryOk(sections) && |ws| == |sections|
    requires forall i :: 0 <= i < |ws| ==> Matches(sections[i].tables, ws[i].tables)
    requires i < |ws| && k < |ExportedUnits(ws[i].tables)|
    ensures ExportedUnits(ws[i].tables)[k].name !in UnitNames(AllUnits(TreeOf(ws)[..i]))
  {
    hide UnitNames, TableNames, ExportedUnits, Distinct, AllUnits, TreeOf;
    var name := ExportedUnits(ws[i].tables)[k].name;
    var j := SpecOfExportedUnit(ws[i].tables, k);
    assert TableNames(sections[i].tables)[j] == name;
    if name in UnitNames(AllUnits(TreeOf(ws)[..i])) {
      var earlier := EarlierName(sections, ws, i, name);
      assert false;
    }
  }

  lemma {:induction false} TreeDisjoint(sections: seq<SectionSpec>, ws: seq<Walked>)
    requires RegistryOk(sections) && |ws| == |sections|
    requires forall i :: 0 <= i < |ws| ==> Matches(sections[i].tables, ws[i].tables)
    ensures TablesDisjoint(TreeOf(ws))
  {
    hide UnitNames, ExportedUnits, AllUnits, TreeOf, RegistryOk, Matches;
    var tree := TreeOf(ws);
    forall i, k | 0 <= i < |tree| && 0 <= k < |tree[i].tables|
      ensures tree[i].tables[k].name !in UnitNames(AllUnits(tree[..i]))
    {
      assert tree[i] == SectionOf(ws[i]);
      UnitDisjoint(sections, ws, i, k);
    }
  }

  lemma {:induction false} DisjointFits(t: Tables, sections: seq<SectionSpec>, tree: Tree)
    requires TablesDisjoint(tree) && forall i :: 0 <= i < |tree| ==> SectionFitting(t, sections, tree[i])
    ensures FitsOutright(t, sections, tree)
  {
    hide SectionFitting, AllUnits, UnitNames, NoRowsIn;
    forall j, l | 0 <= j < |tree| && 0 <= l < |tree[j].tables| ensures NoRowsIn(tree[..j], tree[j].tables[l].name) {
      var prev, name := AllUnits(tree[..j]), tree[j].tables[l].name;
      assert name !in UnitNames(prev);
      assert forall m :: 0 <= m < |prev| ==> UnitNames(prev)[m] == prev[m].name;
      NoRowsInTree(tree[..j], name);
    }
  }

  // ----- the round trip

  /** An exported table of the target exports, after the import, what the source exported. */
  lemma {:induction false} ExportedAgain(s: Tables, t: Tables, sections: seq<SectionSpec>, ws: seq<Walked>, i: nat,
      j: nat)
    requires Walk(s, sections) == Ok(ws) && Ready(s, t, sections)
    requires Distinct(UnitNames(AllUnits(TreeOf(ws))))
    requires i < |sections| && j < |sections[i].tables| && sections[i].tables[j].role == Exported
    ensures var spec := sections[i].tables[j];
            ExportTable(RestoreAll(t, AllUnits(TreeOf(ws))), spec) == ExportTable(s, spec)
  {
    hide Walk, ExportTable, WellKeyed, SameShape, RestoreAll, AllUnits, UnitNames, TreeOf, ExportedUnits, RebuiltRows,
         Distinct, Info, RowsOf;
    WalkVisits(s, sections, ws);
    var spec, u, tree := sections[i].tables[j], ws[i].tables[j].unit, TreeOf(ws);
    assert IsCovered(sections, spec);
    var k := ExportedUnitOf(ws[i].tables, j);
    assert tree[i] == SectionOf(ws[i]);
    var m := AllUnitsContains(tree, i, k);
    ExportedShape(s, spec, u);
    SharedTable(s, t, spec);
    RestoreFound(t, AllUnits(tree), m);
    RestoreKeepsSchema(t, AllUnits(tree), spec.name);
    RestoredExports(s, t, RestoreAll(t, AllUnits(tree)), spec, u);
  }

  /** A table the source can export exists in every target of the same shape. */
  lemma {:induction false} SharedTable(s: Tables, t: Tables, spec: TableSpec)
    requires ExportTable(s, spec).Ok? && WellKeyed(s, spec) && SameShape(Info(s, spec.name), Info(t, spec.name))
    ensures spec.name in t
  {
    TargetColumns(Info(s, spec.name), Info(t, spec.name), spec);
  }

  /** Covered tables of one name are one table. */
  lemma {:induction false} OneRole(sections: seq<SectionSpec>, i: nat, j: nat, i': nat, j': nat)
    requires RegistryOk(sections) && i < |sections| && j < |sections[i].tables| && i' < |sections| &&
             j' < |sections[i'].tables|
    requires sections[i].tables[j].name == sections[i'].tables[j'].name
    ensures i == i' && j == j'
  {
    hide TableNames;
    var a, b := TableNames(sections[i].tables), TableNames(sections[i'].tables);
    assert a[j] == b[j'] && a[j] in a && b[j'] in b;
  }

  /** A DivergenceOnly table is no unit of the artifact, and the import leaves it alone. */
  lemma {:induction false} DivergenceUntouched(t: Tables, sections: seq<SectionSpec>, ws: seq<Walked>, i: nat, j: nat)
    requires RegistryOk(sections) && |ws| == |sections|
    requires forall i :: 0 <= i < |ws| ==> Matches(sections[i].tables, ws[i].tables)
    requires i < |sections| && j < |sections[i].tables| && sections[i].tables[j].role == DivergenceOnly
    ensures var spec := sections[i].tables[j];
            ExportTable(RestoreAll(t, AllUnits(TreeOf(ws))), spec) == ExportTable(t, spec)
  {
    hide ExportTable, RestoreAll, AllUnits, UnitNames, TreeOf, ExportedUnits, TableNames;
    var spec, tree := sections[i].tables[j], TreeOf(ws);
    if spec.name in UnitNames(AllUnits(tree)) {
      var i', k := UnitOfAll(tree, spec.name);
      assert tree[i'] == SectionOf(ws[i']);
      var j' := SpecOfExportedUnit(ws[i'].tables, k);
      OneRole(sections, i, j, i', j');
      assert false;
    }
    RestoreUntouched(t, AllUnits(tree), spec.name);
    RestoreKeepsSchema(t, AllUnits(tree), spec.name);
    SameTableSameExport(t, RestoreAll(t, AllUnits(tree)), spec);
  }

  lemma {:induction false} SameTableSameExport(a: Tables, b: Tables, spec: TableSpec)
    requires Info(a, spec.name) == Info(b, spec.name) && RowsOf(a, spec.name) == RowsOf(b, spec.name)
    ensures ExportTable(a, spec) == ExportTable(b, spec)
  {
    hide CanonicalColumns, Traverse, Ordered, RowExporter;
  }

  lemma {:induction false} WalkOk(tables: Tables, sections: seq<SectionSpec>)
    requires forall i, j :: 0 <= i < |sections| && 0 <= j < |sections[i].tables| ==>
             ExportTable(tables, sections[i].tables[j]).Ok?
    ensures Walk(tables, sections).Ok?
  {
    hide Traverse, ExportTable;
    forall i | 0 <= i < |sections| ensures SectionWalker(tables)(sections[i]).Ok? {
      forall j | 0 <= j < |sections[i].tables| ensures TableWalker(tables)(sections[i].tables[j]).Ok? {
        assert ExportTable(tables, sections[i].tables[j]).Ok?;
      }
      TraverseAllOk(TableWalker(tables), sections[i].tables);
    }
    TraverseAllOk(SectionWalker(tables), sections);
  }

  /** After the import every covered table exports: exported ones as in the source, the others as
      in the target before. */
  lemma {:induction false} AfterExports(s: Tables, t: Tables, sections: seq<SectionSpec>, ws: seq<Walked>)
    requires RegistryOk(sections) && Walk(s, sections) == Ok(ws) && Ready(s, t, sections)
    requires |ws| == |sections| && forall i :: 0 <= i < |ws| ==> Matches(sections[i].tables, ws[i].tables)
    requires Distinct(UnitNames(AllUnits(TreeOf(ws))))
    ensures var after := RestoreAll(t, AllUnits(TreeOf(ws)));
            && (forall spec :: IsExported(sections, spec) ==> ExportTable(after, spec) == ExportTable(s, spec))
            && Walk(after, sections).Ok?
  {
    hide Walk, ExportTable, WellKeyed, SameShape, RestoreAll, AllUnits, UnitNames, TreeOf, Distinct, RegistryOk,
         Matches;
    var after := RestoreAll(t, AllUnits(TreeOf(ws)));
    WalkVisits(s, sections, ws);
    forall i, j | 0 <= i < |sections| && 0 <= j < |sections[i].tables|
      ensures ExportTable(after, sections[i].tables[j]).Ok?
      ensures sections[i].tables[j].role == Exported ==>
              ExportTable(after, sections[i].tables[j]) == ExportTable(s, sections[i].tables[j])
    {
      var spec := sections[i].tables[j];
      assert IsCovered(sections, spec);
      if spec.role == Exported {
        ExportedAgain(s, t, sections, ws, i, j);
      } else {
        DivergenceUntouched(t, sections, ws, i, j);
      }
    }
    WalkOk(after, sections);
    forall spec | IsExported(sections, spec) ensures ExportTable(after, spec) == ExportTable(s, spec) {
      var i :| 0 <= i < |sections| && spec in sections[i].tables;
      var j :| 0 <= j < |sections[i].tables| && spec == sections[i].tables[j];
    }
  }

  /** What crosses an epoch boundary is exactly what was there: importing an export into a fresh
      database of the same shape succeeds, reports every section with its row counts and skips
      none, and exporting the result gives the same bytes and the same top hash. */
  lemma {:induction false} RoundTripExact(h: Hash, s: Tables, t: Tables, sections: seq<SectionSpec>, ws: seq<Walked>)
    requires RegistryOk(sections) && Walk(s, sections) == Ok(ws) && Ready(s, t, sections)
    ensures var tree := TreeOf(ws);
            var after := RestoreAll(t, AllUnits(tree));
            && ImportTree(t, sections, RegistryVersions(sections), tree)
               == Ok((after, ImportReport(ImportedList(tree), [])))
            && ArtifactBytes(after, sections) == ArtifactBytes(s, sections)
            && Manifest(h, after, sections).Ok?
            && Manifest(h, after, sections).value.topHash == Manifest(h, s, sections).value.topHash
  {
    hide Walk, ExportTable, RestoreAll, AllUnits, UnitNames, TreeOf, Distinct, RegistryOk, Matches, Ready,
         RegistryVersions, ImportTree, ImportedList, EncodeArtifact, TopHash, IsExported;
    var tree := TreeOf(ws);
    var after := RestoreAll(t, AllUnits(tree));
    WalkVisits(s, sections, ws);
    forall i | 0 <= i < |ws|
      ensures Matches(sections[i].tables, ws[i].tables) && Distinct(UnitNames(tree[i].tables))
      ensures SectionFitting(t, sections, tree[i])
      ensures Takes(sections, RegistryVersions(sections), tree[i].name, tree[i].formatVersion)
    {
      SectionReady(s, t, sections, ws, i);
      assert tree[i] == SectionOf(ws[i]);
    }
    TreeDisjoint(sections, ws);
    DisjointFits(t, sections, tree);
    AllTaken(sections, RegistryVersions(sections), tree);
    ImportTreeExact(t, sections, RegistryVersions(sections), tree);
    AllUnitsDistinct(tree);
    AfterExports(s, t, sections, ws);
    SameExportsSameTree(s, after, sections, ws, Walk(after, sections).value);
  }
}
