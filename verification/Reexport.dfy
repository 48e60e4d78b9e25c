/** Import, then export: exactly which accepted artifacts come out again as they went in. */
module Reexport {
  import opened Bytes
  import opened Codec
  import opened Artifact
  import opened ArtifactExact
  import opened Sorting
  import opened Sqlite
  import opened Export
  import opened Import
  import opened CanonicalRows
  import opened States
  import opened ExportExact
  import opened Restoring
  import opened ImportExact
  import opened RoundTrip

  // ----- one table

  lemma {:induction false} FittingSettled(u: TableUnit)
    requires TableFits(u)
    ensures SettledCells(u)
  {
    hide TableHeaderFits;
    forall i, j | 0 <= i < |u.rows| && 0 <= j < |u.rows[i]| && j < |u.columns|
      ensures ExportValue(u.rows[i][j], u.name, u.columns[j]) == Ok(u.rows[i][j])
    {
      assert RowFits(u.rows[i], |u.columns|);
    }
  }

  ghost predicate RowsInOrder(info: seq<Column>, u: TableUnit) {
    Sorted(RebuiltRows(info, u), KeyOrder(KeyOf(info)))
  }

  /** A table that holds exactly the rows of a unit exports to that unit if and only if the unit had them
      in key order. */
  lemma {:induction false} TableReexports(after: Tables, spec: TableSpec, u: TableUnit)
    requires var info := Info(after, spec.name);
             && SchemaKeyed(info, spec) && CanonicalColumns(info, spec).Ok? &&
                 RowsOf(after, spec.name) == RebuiltRows(info, u)
             && u.name == spec.name && u.columns == ColumnsOf(info, spec) && u.columns != [] && SettledCells(u)
    ensures ExportTable(after, spec) == Ok(u) <==> RowsInOrder(Info(after, spec.name), u)
  {
    var info := Info(after, spec.name);
    hide SchemaKeyed, SettledCells, Info, RowsOf, KeyOrder, RowExporter, Traverse, RebuiltRows, Ordered, Covering, Sort;
    KeyedCover(info, spec);
    RebuiltExports(info, u);
    var key, rows := KeyOf(info), RebuiltRows(info, u);
    if RowsInOrder(info, u) {
      SortedOrdered(rows, key);
    }
    if ExportTable(after, spec) == Ok(u) {
      ExportedShape(after, spec, u);
      OrderedImagesSorted(info, u, key);
    }
  }

  lemma {:induction false} KeyedCover(info: seq<Column>, spec: TableSpec)
    requires SchemaKeyed(info, spec)
    ensures var columns := ColumnsOf(info, spec);
            && Covering(info, columns, KeyOf(info))
            && Distinct(columns) && forall c :: c in columns ==> c in ColumnNames(info)
  {
    hide ColumnsOf, KeyOf;
    ColumnsCover(info, spec);
  }

  lemma {:induction false} SortedOrdered(rows: seq<Row>, key: seq<Name>)
    requires Sorted(rows, KeyOrder(key))
    ensures Ordered(rows, key) == rows
  {
    hide KeyOrder, Sort;
    KeyOrderTotal(key);
    SortIdempotent(rows, KeyOrder(key));
  }

  lemma {:induction false} OrderedImagesSorted(info: seq<Column>, u: TableUnit, key: seq<Name>)
    requires Covering(info, u.columns, key) && u.rows == Images(Ordered(RebuiltRows(info, u), key), u.columns)
    ensures Sorted(RebuiltRows(info, u), KeyOrder(key))
  {
    hide Covering, KeyOrder, Sort, NewRow, Image;
    var rows := RebuiltRows(info, u);
    KeyOrderTotal(key);
    SortSorted(rows, KeyOrder(key));
    SortedImages(info, u.columns, key, Ordered(rows, key));
    var leq := ImageOrder(info, u.columns, key);
    forall i, j | 0 <= i < j < |rows| ensures KeyOrder(key)(rows[i], rows[j]) {
      assert leq(u.rows[i], u.rows[j]);
    }
  }

  // ----- what the import leaves can be walked

  /** Every table after the import holds what it held before, or the rows of a unit that was imported. */
  lemma {:induction false} RestoredFrom(tables: Tables, units: seq<TableUnit>, name: Name)
    ensures || RowsOf(RestoreAll(tables, units), name) == RowsOf(tables, name)
            || exists m :: 0 <= m < |units| && units[m].name == name
                 && RowsOf(RestoreAll(tables, units), name) == RebuiltRows(Info(tables, name), units[m])
  {
    hide RebuiltRows;
    if units != [] {
      var n := |units| - 1;
      RestoredFrom(tables, units[..n], name);
      RestoreKeepsSchema(tables, units[..n], name);
      if units[n].name != name && RowsOf(RestoreAll(tables, units), name) != RowsOf(tables, name) {
        var m :| 0 <= m < n && units[..n][m].name == name
          && RowsOf(RestoreAll(tables, units[..n]), name) == RebuiltRows(Info(tables, name), units[..n][m]);
        assert units[m] == units[..n][m];
      } else if units[n].name == name {
        assert units[n].name == name;
      }
    }
  }

  /** The registry, the target database and a tree it accepts whole. */
  ghost predicate Taking(t: Tables, sections: seq<SectionSpec>, tree: Tree) {
    && RegistryOk(sections) && TreeFits(tree) && FitsOutright(t, sections, tree)
    && Walk(t, sections).Ok?
    && forall spec :: IsExported(sections, spec) ==> SchemaKeyed(Info(t, spec.name), spec)
  }

  function After(t: Tables, tree: Tree): Tables { RestoreAll(t, AllUnits(tree)) }

  /** A unit of an accepted tree belongs to the one covered table of its name, and has its columns. */
  lemma {:induction false} UnitOfSpec(t: Tables, sections: seq<SectionSpec>, tree: Tree, i: nat, k: nat,
      spec: TableSpec)
    requires Taking(t, sections, tree) && i < |tree| && k < |tree[i].tables|
    requires IsCovered(sections, spec) && spec.name == tree[i].tables[k].name
    ensures spec.role == Exported && TableFits(tree[i].tables[k]) && tree[i].tables[k].columns != []
    ensures var info := Info(t, spec.name);
            && CanonicalColumns(info, spec).Ok? && tree[i].tables[k].columns == ColumnsOf(info, spec)
            && SchemaKeyed(info, spec)
  {
    hide FindSection, FindExported, CanonicalColumns, RowsInsertable, TableFits, Walk, NoRowsIn, UnitNames, SchemaKeyed,
         ColumnsOf;
    var u := tree[i].tables[k];
    assert SectionFits(tree[i]) && SectionFitting(t, sections, tree[i]);
    var si := FindSectionExact(sections, tree[i].name);
    assert Importable(t, sections[si], u);
    var j := FindExportedExact(sections[si].tables, u.name);
    var si' :| 0 <= si' < |sections| && spec in sections[si'].tables;
    var j' :| 0 <= j' < |sections[si'].tables| && sections[si'].tables[j'] == spec;
    OneRole(sections, si, j, si', j');
    assert IsExported(sections, spec);
    ColumnsAre(Info(t, spec.name), spec);
  }

  lemma {:induction false} ColumnsAre(info: seq<Column>, spec: TableSpec)
    ensures CanonicalColumns(info, spec).Ok? ==>
            CanonicalColumns(info, spec) == Ok((ColumnsOf(info, spec), KeyOf(info)))
  {
  }

  lemma {:induction false} RebuiltNumbers(info: seq<Column>, spec: TableSpec, u: TableUnit)
    requires SchemaKeyed(info, spec) && u.columns == ColumnsOf(info, spec) && SettledCells(u)
    ensures var rows := RebuiltRows(info, u);
            forall i, c :: 0 <= i < |rows| && c in ColumnNames(info) && c !in spec.excluded ==>
              !NotANumber(Cell(rows[i], c))
  {
    hide SchemaKeyed, ColumnsOf, NewRow, Cell, ColumnNames, SettledCells, NotANumber;
    KeyedCover(info, spec);
    RebuiltExports(info, u);
    var rows := RebuiltRows(info, u);
    RowsExportable(u.name, u.columns, rows);
    forall i, c | 0 <= i < |rows| && c in ColumnNames(info) && c !in spec.excluded
      ensures !NotANumber(Cell(rows[i], c))
    {
      ColumnsOfHas(info, spec, c);
    }
  }

  lemma {:induction false} AfterWalks(t: Tables, sections: seq<SectionSpec>, tree: Tree)
    requires Taking(t, sections, tree)
    ensures Walk(After(t, tree), sections).Ok?
  {
    hide Walk, RestoreAll, RebuiltRows, Taking, AllUnits, Exportable;
    var after := After(t, tree);
    TakingWalks(t, sections, tree);
    WalkExact(t, sections);
    WalkExact(after, sections);
    forall spec | IsCovered(sections, spec) ensures Exportable(after, spec) {
      AfterExportable(t, sections, tree, spec);
    }
  }

  lemma {:induction false} TakingWalks(t: Tables, sections: seq<SectionSpec>, tree: Tree)
    requires Taking(t, sections, tree)
    ensures Walk(t, sections).Ok?
  {
  }

  lemma {:induction false} AfterExportable(t: Tables, sections: seq<SectionSpec>, tree: Tree, spec: TableSpec)
    requires Taking(t, sections, tree) && IsCovered(sections, spec) && Exportable(t, spec)
    ensures Exportable(After(t, tree), spec)
  {
    hide RestoreAll, RebuiltRows, Taking, AllUnits, SchemaKeyed, ColumnsOf, CanonicalColumns, TableFits, NotANumber,
         Cell, RowsOf, Info, UnitNames;
    var units := AllUnits(tree);
    RestoreKeepsSchema(t, units, spec.name);
    RestoredFrom(t, units, spec.name);
    if RowsOf(After(t, tree), spec.name) != RowsOf(t, spec.name) {
      var m :| 0 <= m < |units| && units[m].name == spec.name
        && RowsOf(After(t, tree), spec.name) == RebuiltRows(Info(t, spec.name), units[m]);
      var i, k := UnitPlace(tree, m);
      UnitOfSpec(t, sections, tree, i, k, spec);
      FittingSettled(units[m]);
      RebuiltNumbers(Info(t, spec.name), spec, units[m]);
    }
  }

  lemma {:induction false} UnitPlace(tree: Tree, m: nat) returns (i: nat, k: nat)
    requires m < |AllUnits(tree)|
    ensures i < |tree| && k < |tree[i].tables| && tree[i].tables[k] == AllUnits(tree)[m]
  {
    var n := |tree| - 1;
    var init := AllUnits(tree[..n]);
    if m < |init| {
      i, k := UnitPlace(tree[..n], m);
    } else {
      i, k := n, m - |init|;
    }
  }

  // ----- sections and units in registry order

  function ExportedNames(specs: seq<TableSpec>): seq<Name> {
    if specs == [] then [] else (if specs[0].role == Exported then [specs[0].name] else []) + ExportedNames(specs[1..])
  }

  ghost predicate InRegistryOrder(sections: seq<SectionSpec>, tree: Tree) {
    && |tree| == |sections|
    && forall i :: 0 <= i < |tree| ==>
         && tree[i].name == sections[i].name && tree[i].formatVersion == sections[i].formatVersion
         && UnitNames(tree[i].tables) == ExportedNames(sections[i].tables)
  }

  ghost predicate AllInOrder(t: Tables, tree: Tree) {
    forall i, k :: 0 <= i < |tree| && 0 <= k < |tree[i].tables| ==>
      RowsInOrder(Info(t, tree[i].tables[k].name), tree[i].tables[k])
  }

  lemma {:induction false} NamesMatch(specs: seq<TableSpec>, covered: seq<Covered>)
    requires Matches(specs, covered)
    ensures UnitNames(ExportedUnits(covered)) == ExportedNames(specs)
    decreases |specs|
  {
    if specs != [] {
      var rest := ExportedUnits(covered[1..]);
      NamesMatch(specs[1..], covered[1..]);
      if specs[0].role == Exported {
        assert UnitNames([covered[0].unit] + rest) == [covered[0].unit.name] + UnitNames(rest);
      } else {
        assert [] + rest == rest;
      }
    }
  }

  lemma {:induction false} WalkMatches(tables: Tables, sections: seq<SectionSpec>, ws: seq<Walked>)
    requires Walk(tables, sections) == Ok(ws)
    ensures |ws| == |sections| && forall i :: 0 <= i < |ws| ==> Matches(sections[i].tables, ws[i].tables)
  {
    hide Walk, ExportTable;
    WalkVisits(tables, sections, ws);
    forall i | 0 <= i < |ws| ensures Matches(sections[i].tables, ws[i].tables) {
      forall j | 0 <= j < |ws[i].tables| ensures ws[i].tables[j].unit.name == sections[i].tables[j].name {
        ExportedShape(tables, sections[i].tables[j], ws[i].tables[j].unit);
      }
    }
  }

  lemma {:induction false} WalkInOrder(tables: Tables, sections: seq<SectionSpec>, ws: seq<Walked>)
    requires Walk(tables, sections) == Ok(ws)
    ensures InRegistryOrder(sections, TreeOf(ws))
  {
    hide Walk, ExportedUnits, UnitNames, ExportedNames, TreeOf, Matches;
    WalkMatches(tables, sections, ws);
    WalkVisits(tables, sections, ws);
    forall i | 0 <= i < |ws| ensures UnitNames(TreeOf(ws)[i].tables) == ExportedNames(sections[i].tables) {
      assert TreeOf(ws)[i] == SectionOf(ws[i]);
      NamesMatch(sections[i].tables, ws[i].tables);
    }
  }

  lemma {:induction false} WalkDistinct(tables: Tables, sections: seq<SectionSpec>, ws: seq<Walked>)
    requires RegistryOk(sections) && Walk(tables, sections) == Ok(ws)
    ensures Distinct(UnitNames(AllUnits(TreeOf(ws))))
  {
    hide Walk, ExportedUnits, UnitNames, TreeOf, Matches, AllUnits, Distinct, TableNames;
    WalkMatches(tables, sections, ws);
    TreeDisjoint(sections, ws);
    forall i | 0 <= i < |ws| ensures Distinct(UnitNames(TreeOf(ws)[i].tables)) {
      assert TreeOf(ws)[i] == SectionOf(ws[i]);
      ExportedNamesDistinct(sections[i].tables, ws[i].tables);
    }
    AllUnitsDistinct(TreeOf(ws));
  }

  lemma {:induction false} SameNamesThroughout(a: Tree, b: Tree)
    requires |a| == |b| && forall i :: 0 <= i < |a| ==> UnitNames(a[i].tables) == UnitNames(b[i].tables)
    ensures UnitNames(AllUnits(a)) == UnitNames(AllUnits(b))
  {
    hide UnitNames;
    if a != [] {
      var n := |a| - 1;
      SameNamesThroughout(a[..n], b[..n]);
      assert UnitNames(AllUnits(a)) == UnitNames(AllUnits(a[..n])) + UnitNames(a[n].tables);
      assert UnitNames(AllUnits(b)) == UnitNames(AllUnits(b[..n])) + UnitNames(b[n].tables);
    }
  }

  /** With sections and units in registry order, each table holds after the import exactly its unit. */
  lemma {:induction false} UnitReexports(t: Tables, sections: seq<SectionSpec>, tree: Tree, spec: TableSpec, i: nat,
      k: nat)
    requires Taking(t, sections, tree) && Distinct(UnitNames(AllUnits(tree)))
    requires i < |tree| && k < |tree[i].tables| && IsCovered(sections, spec) && spec.name == tree[i].tables[k].name
    ensures ExportTable(After(t, tree), spec) == Ok(tree[i].tables[k]) <==>
            RowsInOrder(Info(t, spec.name), tree[i].tables[k])
  {
    hide RestoreAll, Taking, AllUnits, UnitNames, Distinct, SchemaKeyed, ColumnsOf, CanonicalColumns, TableFits,
         ExportTable, RowsInOrder, RebuiltRows, SettledCells;
    var u := tree[i].tables[k];
    UnitOfSpec(t, sections, tree, i, k, spec);
    FittingSettled(u);
    var m := AllUnitsContains(tree, i, k);
    KeyedTableExists(t, spec);
    RestoreFound(t, AllUnits(tree), m);
    RestoreKeepsSchema(t, AllUnits(tree), spec.name);
    TableReexports(After(t, tree), spec, u);
  }

  lemma {:induction false} OrderDistinct(after: Tables, sections: seq<SectionSpec>, ws: seq<Walked>, tree: Tree)
    requires RegistryOk(sections) && Walk(after, sections) == Ok(ws) && InRegistryOrder(sections, tree)
    ensures Distinct(UnitNames(AllUnits(tree)))
  {
    hide Walk, UnitNames, AllUnits, Distinct, TreeOf, ExportedNames, RegistryOk;
    WalkInOrder(after, sections, ws);
    WalkDistinct(after, sections, ws);
    SameNamesThroughout(TreeOf(ws), tree);
  }

  /** One section comes out as it went in exactly when its units' rows are in order. */
  lemma {:induction false} SectionReexports(t: Tables, sections: seq<SectionSpec>, tree: Tree, ws: seq<Walked>, i: nat)
    requires Taking(t, sections, tree) && Walk(After(t, tree), sections) == Ok(ws) && InRegistryOrder(sections, tree)
    requires Distinct(UnitNames(AllUnits(tree))) && i < |tree|
    ensures |ws| == |sections|
    ensures SectionOf(ws[i]) == tree[i] <==>
            forall k :: 0 <= k < |tree[i].tables| ==> RowsInOrder(Info(t, tree[i].tables[k].name), tree[i].tables[k])
  {
    hide Walk, UnitNames, AllUnits, Distinct, TreeOf, ExportedNames, Taking, ExportTable, RowsInOrder, ExportedUnits,
         Matches, RestoreAll, Info;
    WalkVisits(After(t, tree), sections, ws);
    WalkMatches(After(t, tree), sections, ws);
    NamesMatch(sections[i].tables, ws[i].tables);
    var out, units := ExportedUnits(ws[i].tables), tree[i].tables;
    forall k | 0 <= k < |units| ensures out[k] == units[k] <==> RowsInOrder(Info(t, units[k].name), units[k]) {
      var j := SpecOfExportedUnit(ws[i].tables, k);
      var spec := sections[i].tables[j];
      assert UnitNames(out)[k] == UnitNames(units)[k];
      ExportedShape(After(t, tree), spec, out[k]);
      assert IsCovered(sections, spec);
      UnitReexports(t, sections, tree, spec, i, k);
    }
    assert out == units <==> forall k :: 0 <= k < |units| ==> out[k] == units[k];
  }

  /** For every artifact that an import accepts without skipping: the exported tree is again the imported
      one if and only if its sections and units stood in registry order and each unit's rows in key
      order. */
  lemma {:induction false} TreeReexports(t: Tables, sections: seq<SectionSpec>, tree: Tree, ws: seq<Walked>)
    requires Taking(t, sections, tree) && Walk(After(t, tree), sections) == Ok(ws)
    ensures TreeOf(ws) == tree <==> InRegistryOrder(sections, tree) && AllInOrder(t, tree)
  {
    hide Walk, UnitNames, AllUnits, Distinct, ExportedNames, RowsInOrder, RestoreAll, TreeFits, FitsOutright, TreeOf,
         Info;
    WalkInOrder(After(t, tree), sections, ws);
    if InRegistryOrder(sections, tree) {
      OrderDistinct(After(t, tree), sections, ws, tree);
      WalkMatches(After(t, tree), sections, ws);
      forall i | 0 <= i < |tree|
        ensures SectionOf(ws[i]) == tree[i] <==>
                forall k :: 0 <= k < |tree[i].tables| ==>
                  RowsInOrder(Info(t, tree[i].tables[k].name), tree[i].tables[k])
      {
        SectionReexports(t, sections, tree, ws, i);
      }
      assert TreeOf(ws) == tree <==> forall i :: 0 <= i < |tree| ==> TreeOf(ws)[i] == tree[i];
    }
  }

  // ----- on bytes

  /** The defaults that fill excluded columns fit a value's length field. */
  ghost predicate DefaultsSized(tables: Tables, sections: seq<SectionSpec>) {
    forall spec, i :: IsExported(sections, spec) && 0 <= i < |Info(tables, spec.name)| ==>
      |Content(Info(tables, spec.name)[i].default)| < TWO_64
  }

  lemma {:induction false} DefaultSized(info: seq<Column>, c: Name)
    requires forall i :: 0 <= i < |info| ==> |Content(info[i].default)| < TWO_64
    ensures |Content(DefaultOf(info, c))| < TWO_64
  {
    if info != [] {
      DefaultSized(info[1..], c);
    }
  }

  lemma {:induction false} CellSized(info: seq<Column>, columns: seq<Name>, values: seq<Value>, c: Name)
    requires (forall i :: 0 <= i < |info| ==> |Content(info[i].default)| < TWO_64) && RowFits(values, |columns|)
    ensures |Content(Cell(NewRow(info, columns, values), c))| < TWO_64
  {
    DefaultSized(info, c);
    hide DefaultOf, ColumnNames;
    if c in columns {
      assert ValueFits(values[IndexOf(columns, c)]);
    }
  }

  lemma {:induction false} AfterTableSized(t: Tables, sections: seq<SectionSpec>, tree: Tree, spec: TableSpec)
    requires Taking(t, sections, tree) && IsExported(sections, spec) && SizedTable(t, spec) &&
             DefaultsSized(t, sections)
    ensures SizedTable(After(t, tree), spec)
  {
    hide RestoreAll, Taking, AllUnits, SchemaKeyed, ColumnsOf, CanonicalColumns, Cell, RowsOf, Info, NewRow, Content,
         NameFits, RowFits, UnitNames;
    var units, info := AllUnits(tree), Info(t, spec.name);
    RestoreKeepsSchema(t, units, spec.name);
    RestoredFrom(t, units, spec.name);
    if RowsOf(After(t, tree), spec.name) != RowsOf(t, spec.name) {
      var m :| 0 <= m < |units| && units[m].name == spec.name
        && RowsOf(After(t, tree), spec.name) == RebuiltRows(info, units[m]);
      var i, k := UnitPlace(tree, m);
      UnitOfSpec(t, sections, tree, i, k, spec);
      var u := units[m];
      var rows := RebuiltRows(info, u);
      forall r, c | 0 <= r < |rows| ensures |Content(Cell(rows[r], c))| < TWO_64 {
        assert rows[r] == NewRow(info, u.columns, u.rows[r]) && RowFits(u.rows[r], |u.columns|);
        CellSized(info, u.columns, u.rows[r], c);
      }
    }
  }

  lemma {:induction false} AfterSized(t: Tables, sections: seq<SectionSpec>, tree: Tree)
    requires Taking(t, sections, tree) && Sized(t, sections) && DefaultsSized(t, sections)
    ensures Sized(After(t, tree), sections)
  {
    hide RestoreAll, Taking, AllUnits, SchemaKeyed, SizedTable, DefaultsSized, Info, IsExported;
    forall spec | IsExported(sections, spec)
      ensures SchemaKeyed(Info(After(t, tree), spec.name), spec) && SizedTable(After(t, tree), spec)
    {
      RestoreKeepsSchema(t, AllUnits(tree), spec.name);
      AfterTableSized(t, sections, tree, spec);
    }
  }

  lemma {:induction false} ImportTakes(t: Tables, sections: seq<SectionSpec>, expected: Expected, tree: Tree,
      after: Tables, report: ImportReport)
    requires RegistryOk(sections) && TreeFits(tree) && Walk(t, sections).Ok? && Sized(t, sections)
    requires ImportTree(t, sections, expected, tree) == Ok((after, report)) && report.skipped == []
    ensures Taking(t, sections, tree) && after == After(t, tree)
  {
    hide RegistryOk, TreeFits, Walk, ImportTree, FitsOutright, SchemaKeyed, SizedTable, RestoreAll, AllUnits, Taken,
         Passed, IsExported;
    ImportTreeExact(t, sections, expected, tree);
    AllTaken(sections, expected, tree);
  }

  /** For every artifact that an import takes whole, into any database the registry fits: exporting the
      result gives the artifact's own bytes if and only if its sections and units stood in registry order
      and each unit's rows in key order. */
  lemma {:induction false} ReexportExact(
    t: Tables, sections: seq<SectionSpec>, expected: Expected, artifact: seq<byte>, tree: Tree, after: Tables,
      report: ImportReport)
    requires RegistryOk(sections) && Walk(t, sections).Ok? && Sized(t, sections) && DefaultsSized(t, sections)
    requires ParseArtifact(artifact) == Ok(tree)
    requires ImportTree(t, sections, expected, tree) == Ok((after, report)) && report.skipped == []
    ensures ArtifactBytes(after, sections).Ok?
    ensures ArtifactBytes(after, sections) == Ok(artifact) <==> InRegistryOrder(sections, tree) && AllInOrder(t, tree)
  {
    hide RegistryOk, TreeFits, Walk, ImportTree, Sized, RestoreAll, AllUnits, Taking, TreeOf, InRegistryOrder,
         AllInOrder,
         ParseArtifact, EncodeArtifact, DefaultsSized;
    ParseArtifactExact(artifact, tree);
    ImportTakes(t, sections, expected, tree, after, report);
    AfterWalks(t, sections, tree);
    AfterSized(t, sections, tree);
    var ws := Walk(after, sections).value;
    TreeFitsExport(after, sections, ws);
    TreeReexports(t, sections, tree, ws);
    ParseArtifactExact(EncodeArtifact(TreeOf(ws)), TreeOf(ws));
    ParseArtifactExact(EncodeArtifact(TreeOf(ws)), tree);
  }

  // ----- two rows in the wrong order

  const KEY: Column := Column([107], true, Null)
  const SPEC: TableSpec := TableSpec([116], Exported, [])
  const SWAPPED: TableUnit := TableUnit([116], [[107]], [[Integer(2)], [Integer(1)]])

  lemma {:induction false} SwappedColumns()
    ensures ColumnNames([KEY]) == [[107]] && KeyNames([KEY]) == [[107]] && KeptNames([KEY], []) == [[107]]
    ensures CanonicalColumns([KEY], SPEC) == Ok(([[107]], [[107]])) && ColumnsOf([KEY], SPEC) == [[107]] &&
            KeyOf([KEY]) == [[107]]
    ensures SchemaKeyed([KEY], SPEC)
  {
    assert [KEY][1..] == [];
    assert KeyNames([]) == [] && KeptNames([], []) == [] && ColumnNames([]) == [];
    var one: seq<Name> := [[107]];
    assert one[1..] == [];
    assert Sort([[107]], NameOrder) == [[107]];
  }

  lemma {:induction false} SwappedCells()
    ensures var rows := RebuiltRows([KEY], SWAPPED);
            |rows| == 2 && Cell(rows[0], [107]) == Integer(2) && Cell(rows[1], [107]) == Integer(1)
  {
    hide ColumnNames;
    SwappedColumns();
    CellOfNewRow([KEY], [[107]], [Integer(2)], 0);
    CellOfNewRow([KEY], [[107]], [Integer(1)], 0);
  }

  lemma {:induction false} SwappedOrder()
    ensures RowsInsertable([KEY], SWAPPED) && !RowsInOrder([KEY], SWAPPED)
  {
    hide RebuiltRows, NewRow, Cell, ColumnNames, KeyOf, Sort;
    var rows := RebuiltRows([KEY], SWAPPED);
    SwappedCells();
    SwappedColumns();
    var a, b := Project(rows[0], [[107]]), Project(rows[1], [[107]]);
    assert a[0] == Integer(2) && b[0] == Integer(1);
    assert !KeyLeq(a, b);
    assert !KeyOrder([[107]])(rows[0], rows[1]);
    RebuiltAre(rows);
    assert !TiedKeys(rows[0], rows[1], [KEY]) by {
      assert [KEY][0].pk && !Tied(Integer(2), Integer(1));
    }
  }

  lemma {:induction false} RebuiltAre(rows: seq<Row>)
    requires rows == RebuiltRows([KEY], SWAPPED)
    ensures rows == [NewRow([KEY], [[107]], [Integer(2)]), NewRow([KEY], [[107]], [Integer(1)])]
  {
    hide NewRow;
  }

  lemma {:induction false} OneTaken(t: Tables, section: SectionSpec, s: SectionUnit)
    requires s.name == section.name && s.formatVersion == section.formatVersion && FitsOutright(t, [section], [s])
    ensures var sections, tree := [section], [s];
            ImportTree(t, sections, RegistryVersions(sections), tree)
            == Ok((RestoreAll(t, AllUnits(tree)), ImportReport(ImportedList(tree), [])))
  {
    hide FitsOutright, RestoreAll, AllUnits, ImportTree, ImportedList, Taken, Passed;
    var sections, tree := [section], [s];
    assert sections[..0] == [] && sections[0].name == s.name;
    assert Takes(sections, RegistryVersions(sections), s.name, s.formatVersion);
    AllTaken(sections, RegistryVersions(sections), tree);
    ImportTreeExact(t, sections, RegistryVersions(sections), tree);
  }

  /** An artifact with two rows out of key order is imported, and its table does not export to the unit it
      came from. */
  lemma {:induction false} SwappedRows()
    ensures var t: Tables := map[[116] := Table([KEY], [])];
            var sections := [SectionSpec([115], 1, [SPEC])];
            var r := ImportTree(t, sections, RegistryVersions(sections), [SectionUnit([115], 1, [SWAPPED])]);
            r.Ok? && r.value.1.skipped == [] && ExportTable(r.value.0, SPEC) != Ok(SWAPPED)
  {
    hide RebuiltRows, Sort, RowsInsertable, RowsInOrder, CanonicalColumns, ColumnsOf, KeyOf, SchemaKeyed, ExportTable,
         ImportTree,
         SettledCells, RestoreAll;
    var t: Tables := map[[116] := Table([KEY], [])];
    var sections := [SectionSpec([115], 1, [SPEC])];
    var tree := [SectionUnit([115], 1, [SWAPPED])];
    SwappedColumns();
    SwappedOrder();
    assert Importable(t, sections[0], SWAPPED);
    assert UnitNames([SWAPPED]) == [[116]];
    assert FindSection(sections, [115]) == Some(sections[0]);
    assert SectionFitting(t, sections, tree[0]);
    assert tree[..0] == [];
    assert FitsOutright(t, sections, tree);
    OneTaken(t, sections[0], tree[0]);
    var after := RestoreAll(t, AllUnits(tree));
    OneUnit(t, tree, SWAPPED);
    SwappedSettled();
    TableReexports(after, SPEC, SWAPPED);
  }

  lemma {:induction false} SwappedSettled()
    ensures SettledCells(SWAPPED)
  {
  }

  lemma {:induction false} OneUnit(t: Tables, tree: Tree, u: TableUnit)
    requires |tree| == 1 && tree[0].tables == [u] && u.name in t
    ensures var after := RestoreAll(t, AllUnits(tree));
            Info(after, u.name) == Info(t, u.name) && RowsOf(after, u.name) == RebuiltRows(Info(t, u.name), u)
  {
    hide RebuiltRows;
    assert AllUnits(tree) == [u];
    assert [u][..0] == [];
    RestoreNothing(t);
  }
}
