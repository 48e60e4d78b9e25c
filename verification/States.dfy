/** Database states and the artifacts they export: what an artifact forgets about a state, what it
    keeps, and that the top hash stands for exactly what it keeps. */
module States {
  import opened Bytes
  import opened Codec
  import opened Artifact
  import opened Sorting
  import opened Sqlite
  import opened Export
  import opened Canonical
  import opened CanonicalRows
  import opened Commitment

  /** The primary-key columns in canonical order. */
  function KeyOf(info: seq<Column>): seq<Name> { Sort(KeyNames(info), NameOrder) }

  function ColumnsOf(info: seq<Column>, spec: TableSpec): seq<Name> { Sort(KeptNames(info, spec.excluded), NameOrder) }

  /** What the schema and the registry promise about a covered table: distinct column names, and no
      primary-key column excluded. */
  ghost predicate SchemaKeyed(info: seq<Column>, spec: TableSpec) {
    Distinct(ColumnNames(info)) && forall i :: 0 <= i < |info| && info[i].pk ==> info[i].name !in spec.excluded
  }

  /** And what the data has to promise: no two rows whose keys tie. */
  ghost predicate WellKeyed(tables: Tables, spec: TableSpec) {
    var info, rows := Info(tables, spec.name), RowsOf(tables, spec.name);
    SchemaKeyed(info, spec) && forall i, j :: 0 <= i < j < |rows| ==> !TiedKeys(rows[i], rows[j], info)
  }

  // ----- ties in key order and the primary-key constraint

  lemma {:induction false} KeyOfHas(info: seq<Column>, name: Name)
    ensures name in KeyOf(info) <==> HasColumn(info, name, true)
  {
    hide HasColumn, NameOrder, Sort;
    SameElements(KeyNames(info), KeyOf(info));
    KeyNamesHas(info, name);
  }

  lemma {:induction false} TieIsSameKey(info: seq<Column>, a: Row, b: Row)
    ensures KeyOrder(KeyOf(info))(a, b) && KeyOrder(KeyOf(info))(b, a) <==> TiedKeys(a, b, info)
    ensures SameKey(a, b, info) <==> KeyOrder(KeyOf(info))(a, b) && KeyOrder(KeyOf(info))(b, a) && !NullInKey(a, info)
  {
    hide KeyLeq, ValueLeq, Cell, KeyOf, Project, NullInKey;
    var key := KeyOf(info);
    KeyTies(Project(a, key), Project(b, key));
    if TiedKeys(a, b, info) {
      forall i | 0 <= i < |key| ensures Tied(Project(a, key)[i], Project(b, key)[i]) {
        KeyOfHas(info, key[i]);
        var c :| 0 <= c < |info| && info[c].name == key[i] && info[c].pk;
      }
    }
    if forall i :: 0 <= i < |key| ==> Tied(Project(a, key)[i], Project(b, key)[i]) {
      forall c | 0 <= c < |info| && info[c].pk ensures Tied(Cell(a, info[c].name), Cell(b, info[c].name)) {
        assert HasColumn(info, info[c].name, true);
        KeyOfHas(info, info[c].name);
        var i :| 0 <= i < |key| && key[i] == info[c].name;
        assert Tied(Project(a, key)[i], Project(b, key)[i]);
      }
    }
  }

  lemma {:induction false} WellKeyedRows(tables: Tables, spec: TableSpec)
    requires WellKeyed(tables, spec)
    ensures KeysDistinct(RowsOf(tables, spec.name), KeyOf(Info(tables, spec.name)))
  {
    hide KeyOrder, SameKey, TiedKeys, KeyOf;
    var info, rows := Info(tables, spec.name), RowsOf(tables, spec.name);
    forall i, j | 0 <= i < j < |rows|
      ensures !(KeyOrder(KeyOf(info))(rows[i], rows[j]) && KeyOrder(KeyOf(info))(rows[j], rows[i]))
    {
      TieIsSameKey(info, rows[i], rows[j]);
    }
  }

  lemma {:induction false} ColumnsOfHas(info: seq<Column>, spec: TableSpec, name: Name)
    ensures name in ColumnsOf(info, spec) <==> name in ColumnNames(info) && name !in spec.excluded
  {
    hide NameOrder, Sort;
    SameElements(KeptNames(info, spec.excluded), ColumnsOf(info, spec));
    KeptNamesHas(info, spec.excluded, name);
  }

  lemma {:induction false} ColumnsOfDistinct(info: seq<Column>, spec: TableSpec)
    requires Distinct(ColumnNames(info))
    ensures Distinct(ColumnsOf(info, spec))
  {
    hide NameOrder, Sort, KeptNames, Distinct;
    KeptNamesDistinct(info, spec.excluded);
    PermutedDistinct(KeptNames(info, spec.excluded), ColumnsOf(info, spec));
  }

  lemma {:induction false} ColumnsCover(info: seq<Column>, spec: TableSpec)
    requires Distinct(ColumnNames(info))
    requires forall i :: 0 <= i < |info| && info[i].pk ==> info[i].name !in spec.excluded
    ensures Covering(info, ColumnsOf(info, spec), KeyOf(info))
  {
    hide ColumnsOf, KeyOf, Distinct, ColumnNames;
    ColumnsOfDistinct(info, spec);
    forall c | c in ColumnsOf(info, spec) ensures c in ColumnNames(info) {
      ColumnsOfHas(info, spec, c);
    }
    forall k | k in KeyOf(info) ensures k in ColumnsOf(info, spec) {
      KeyExported(info, spec, k);
    }
  }

  lemma {:induction false} KeyExported(info: seq<Column>, spec: TableSpec, k: Name)
    requires forall i :: 0 <= i < |info| && info[i].pk ==> info[i].name !in spec.excluded
    requires k in KeyOf(info)
    ensures k in ColumnsOf(info, spec)
  {
    hide ColumnsOf, KeyOf;
    KeyOfHas(info, k);
    var i :| 0 <= i < |info| && info[i].name == k && info[i].pk;
    assert ColumnNames(info)[i] == k;
    ColumnsOfHas(info, spec, k);
  }

  // ----- what an artifact forgets

  /** Two states of one table that differ only in column declaration order, column defaults, row
      insertion order, excluded cells and the sign of zero. */
  ghost predicate SameContent(a: Tables, b: Tables, spec: TableSpec) {
    && SameShape(Info(a, spec.name), Info(b, spec.name))
    && multiset(Images(RowsOf(a, spec.name), ColumnsOf(Info(a, spec.name), spec)))
       == multiset(Images(RowsOf(b, spec.name), ColumnsOf(Info(a, spec.name), spec)))
  }

  /** An instance: column order and defaults free, rows rearranged, excluded cells rewritten. */
  lemma {:induction false} ForgottenChanges(a: Tables, b: Tables, spec: TableSpec, shuffled: seq<Row>)
    requires SameShape(Info(a, spec.name), Info(b, spec.name))
    requires multiset(RowsOf(a, spec.name)) == multiset(shuffled)
    requires |shuffled| == |RowsOf(b, spec.name)|
    requires forall i, c :: 0 <= i < |shuffled| && c !in spec.excluded ==>
             Cell(RowsOf(b, spec.name)[i], c) == Cell(shuffled[i], c)
    ensures SameContent(a, b, spec)
  {
    var info, rows := Info(a, spec.name), RowsOf(b, spec.name);
    hide SameShape, Cell, ColumnsOf, Canon, Info, RowsOf;
    var columns := ColumnsOf(info, spec);
    MapPermutes(Imager(columns), RowsOf(a, spec.name), shuffled);
    forall i | 0 <= i < |rows| ensures Image(rows[i], columns) == Image(shuffled[i], columns) {
      forall j | 0 <= j < |columns| ensures Image(rows[i], columns)[j] == Image(shuffled[i], columns)[j] {
        assert columns[j] in columns;
        ColumnsOfHas(info, spec, columns[j]);
      }
    }
    assert Images(rows, columns) == Images(shuffled, columns);
  }

  lemma {:induction false} SameContentSameUnit(a: Tables, b: Tables, spec: TableSpec)
    requires WellKeyed(a, spec) && SameContent(a, b, spec)
    ensures ExportTable(a, spec) == ExportTable(b, spec)
  {
    hide SameShape, RowExporter, Traverse, FirstUnknown, Ordered, Images, Info, RowsOf, KeysDistinct, Covering, Sort;
    var ia, ib, ra, rb := Info(a, spec.name), Info(b, spec.name), RowsOf(a, spec.name), RowsOf(b, spec.name);
    CanonicalColumnsSame(ia, ib, spec);
    var columns, key := ColumnsOf(ia, spec), KeyOf(ia);
    ColumnsCover(ia, spec);
    WellKeyedRows(a, spec);
    OrderedImagesSame(ia, columns, key, ra, rb);
    ExportsOfSameImages(spec.name, columns, Ordered(ra, key), Ordered(rb, key));
  }

  // ----- walks

  ghost predicate IsCovered(sections: seq<SectionSpec>, spec: TableSpec) {
    exists i :: 0 <= i < |sections| && spec in sections[i].tables
  }

  ghost predicate IsExported(sections: seq<SectionSpec>, spec: TableSpec) {
    IsCovered(sections, spec) && spec.role == Exported
  }

  /** A walk visits the sections in order, and in each the covered tables in order. */
  lemma {:induction false} WalkVisits(tables: Tables, sections: seq<SectionSpec>, ws: seq<Walked>)
    requires Walk(tables, sections) == Ok(ws)
    ensures |ws| == |sections|
    ensures forall i :: 0 <= i < |ws| ==> ws[i].spec == sections[i] && |ws[i].tables| == |sections[i].tables|
    ensures forall i, j :: 0 <= i < |ws| && 0 <= j < |ws[i].tables| ==>
              ws[i].tables[j].spec == sections[i].tables[j] &&
                ExportTable(tables, sections[i].tables[j]) == Ok(ws[i].tables[j].unit)
  {
    hide Traverse, ExportTable;
    TraverseOk(SectionWalker(tables), sections, ws);
    forall i | 0 <= i < |ws|
      ensures ws[i].spec == sections[i] && |ws[i].tables| == |sections[i].tables|
      ensures forall j :: 0 <= j < |ws[i].tables| ==>
                ws[i].tables[j].spec == sections[i].tables[j] &&
                  ExportTable(tables, sections[i].tables[j]) == Ok(ws[i].tables[j].unit)
    {
      assert SectionWalker(tables)(sections[i]) == Ok(ws[i]);
      TraverseOk(TableWalker(tables), sections[i].tables, ws[i].tables);
      forall j | 0 <= j < |ws[i].tables|
        ensures ws[i].tables[j].spec == sections[i].tables[j] &&
                ExportTable(tables, sections[i].tables[j]) == Ok(ws[i].tables[j].unit)
      {
        assert TableWalker(tables)(sections[i].tables[j]) == Ok(ws[i].tables[j]);
      }
    }
  }

  lemma {:induction false} ExportedUnitsSame(a: seq<Covered>, b: seq<Covered>)
    requires |a| == |b|
    requires forall i :: 0 <= i < |a| ==>
             a[i].spec == b[i].spec && (a[i].spec.role == Exported ==> a[i].unit == b[i].unit)
    ensures ExportedUnits(a) == ExportedUnits(b)
  {
    if a != [] {
      ExportedUnitsSame(a[1..], b[1..]);
    }
  }

  /** Equal exported tables give equal trees, whatever the other tables hold. */
  lemma {:induction false} SameExportsSameTree(a: Tables, b: Tables, sections: seq<SectionSpec>, wa: seq<Walked>,
      wb: seq<Walked>)
    requires Walk(a, sections) == Ok(wa) && Walk(b, sections) == Ok(wb)
    requires forall spec :: IsExported(sections, spec) ==> ExportTable(a, spec) == ExportTable(b, spec)
    ensures TreeOf(wa) == TreeOf(wb)
  {
    hide Walk, ExportTable, TreeOf;
    WalkVisits(a, sections, wa);
    WalkVisits(b, sections, wb);
    forall i | 0 <= i < |sections| ensures SectionOf(wa[i]) == SectionOf(wb[i]) {
      forall j | 0 <= j < |wa[i].tables| && wa[i].tables[j].spec.role == Exported
        ensures wa[i].tables[j].unit == wb[i].tables[j].unit
      {
        assert IsExported(sections, sections[i].tables[j]);
      }
      ExportedUnitsSame(wa[i].tables, wb[i].tables);
    }
    assert TreeOf(wa) == TreeOf(wb);
  }

  /** Artifact bytes and top hash do not see declaration order, insertion order, excluded columns,
      the sign of zero or DivergenceOnly tables. */
  lemma {:induction false} ArtifactForgets(h: Hash, a: Tables, b: Tables, sections: seq<SectionSpec>)
    requires Walk(a, sections).Ok? && Walk(b, sections).Ok?
    requires forall spec :: IsExported(sections, spec) ==> WellKeyed(a, spec) && SameContent(a, b, spec)
    ensures ArtifactBytes(a, sections) == ArtifactBytes(b, sections)
    ensures Manifest(h, a, sections).value.topHash == Manifest(h, b, sections).value.topHash
  {
    hide Walk, WellKeyed, SameContent, ExportTable, TreeOf, TopHash, EncodeArtifact, IsExported;
    forall spec | IsExported(sections, spec) ensures ExportTable(a, spec) == ExportTable(b, spec) {
      SameContentSameUnit(a, b, spec);
    }
    SameExportsSameTree(a, b, sections, Walk(a, sections).value, Walk(b, sections).value);
  }

  // ----- exported trees fit the container

  /** Names are UTF-8, and every length and count fits its field. */
  ghost predicate SizedTable(tables: Tables, spec: TableSpec) {
    var info, rows := Info(tables, spec.name), RowsOf(tables, spec.name);
    && NameFits(spec.name)
    && |info| < TWO_32 && (forall i :: 0 <= i < |info| ==> NameFits(info[i].name))
    && |rows| < TWO_64
    && forall i, c :: 0 <= i < |rows| ==> |Content(Cell(rows[i], c))| < TWO_64
  }

  ghost predicate Sized(tables: Tables, sections: seq<SectionSpec>) {
    && |sections| < TWO_32
    && (forall i :: 0 <= i < |sections| ==> NameFits(sections[i].name) && |sections[i].tables| < TWO_32)
    && forall spec :: IsExported(sections, spec) ==>
        SchemaKeyed(Info(tables, spec.name), spec) && SizedTable(tables, spec)
  }

  lemma {:induction false} KeptNamesCount(info: seq<Column>, excluded: seq<Name>)
    ensures |KeptNames(info, excluded)| <= |info|
  {
    if info != [] {
      KeptNamesCount(info[1..], excluded);
    }
  }

  lemma {:induction false} ColumnsFit(info: seq<Column>, spec: TableSpec)
    requires forall i :: 0 <= i < |info| ==> NameFits(info[i].name)
    ensures |ColumnsOf(info, spec)| <= |info|
    ensures forall i :: 0 <= i < |ColumnsOf(info, spec)| ==> NameFits(ColumnsOf(info, spec)[i])
  {
    hide NameFits, NameOrder, Sort;
    KeptNamesCount(info, spec.excluded);
    forall i | 0 <= i < |ColumnsOf(info, spec)| ensures NameFits(ColumnsOf(info, spec)[i]) {
      var c := ColumnsOf(info, spec)[i];
      ColumnsOfHas(info, spec, c);
      var j :| 0 <= j < |info| && ColumnNames(info)[j] == c;
    }
  }

  lemma {:induction false} ColumnsNonEmpty(info: seq<Column>, spec: TableSpec)
    requires KeyNames(info) != []
    requires forall i :: 0 <= i < |info| && info[i].pk ==> info[i].name !in spec.excluded
    ensures ColumnsOf(info, spec) != []
  {
    hide ColumnsOf, NameOrder, Sort;
    SameElements(KeyNames(info), KeyOf(info));
    assert KeyNames(info)[0] in KeyOf(info);
    KeyExported(info, spec, KeyNames(info)[0]);
  }

  /** The exported rows are the images of the rows in key order, and carry no NaN. */
  lemma {:induction false} ExportedRows(table: Name, columns: seq<Name>, rows: seq<Row>, units: seq<seq<Value>>)
    requires Traverse(RowExporter(table, columns), rows) == Ok(units)
    ensures units == Images(rows, columns)
    ensures forall i, j :: 0 <= i < |rows| && 0 <= j < |columns| ==>
            ExportValue(Cell(rows[i], columns[j]), table, columns[j]) == Ok(units[i][j])
  {
    hide Traverse, Canon, Cell;
    var f := RowExporter(table, columns);
    TraverseOk(f, rows, units);
    forall i | 0 <= i < |rows|
      ensures units[i] == Image(rows[i], columns)
      ensures forall j :: 0 <= j < |columns| ==>
              ExportValue(Cell(rows[i], columns[j]), table, columns[j]) == Ok(units[i][j])
    {
      assert f(rows[i]) == Ok(units[i]);
      TraverseOk(CellExporter(rows[i], table), columns, units[i]);
      forall j | 0 <= j < |columns|
        ensures ExportValue(Cell(rows[i], columns[j]), table, columns[j]) == Ok(units[i][j])
      {
        assert CellExporter(rows[i], table)(columns[j]) == Ok(units[i][j]);
      }
    }
  }

  /** What an export says about its table. */
  lemma {:induction false} ExportedShape(s: Tables, spec: TableSpec, u: TableUnit)
    requires ExportTable(s, spec) == Ok(u)
    ensures var info := Info(s, spec.name);
            && CanonicalColumns(info, spec) == Ok((ColumnsOf(info, spec), KeyOf(info)))
            && u.name == spec.name && u.columns == ColumnsOf(info, spec) && u.columns != []
            && Traverse(RowExporter(spec.name, u.columns), Ordered(RowsOf(s, spec.name), KeyOf(info))) == Ok(u.rows)
            && u.rows == Images(Ordered(RowsOf(s, spec.name), KeyOf(info)), u.columns)
  {
    hide Traverse, Ordered, Sort, FirstUnknown, Images, RowExporter;
    var info := Info(s, spec.name);
    ExportedRows(spec.name, ColumnsOf(info, spec), Ordered(RowsOf(s, spec.name), KeyOf(info)), u.rows);
  }

  lemma {:induction false} ExportedValueFits(v: Value, table: Name, column: Name, out: Value)
    requires ExportValue(v, table, column) == Ok(out) && |Content(v)| < TWO_64
    ensures ValueFits(out)
  {
  }

  lemma {:induction false} RowsFit(table: Name, columns: seq<Name>, rows: seq<Row>, units: seq<seq<Value>>)
    requires Traverse(RowExporter(table, columns), rows) == Ok(units)
    requires forall i, c :: 0 <= i < |rows| ==> |Content(Cell(rows[i], c))| < TWO_64
    ensures |units| == |rows| && forall i :: 0 <= i < |units| ==> RowFits(units[i], |columns|)
  {
    hide Traverse, Cell, ExportValue, ValueFits, Content, RowExporter;
    ExportedRows(table, columns, rows, units);
    forall i | 0 <= i < |units| ensures RowFits(units[i], |columns|) {
      assert units[i] == Image(rows[i], columns);
      forall j | 0 <= j < |columns| ensures ValueFits(units[i][j]) {
        ExportedValueFits(Cell(rows[i], columns[j]), table, columns[j], units[i][j]);
      }
    }
  }

  lemma {:induction false} OrderedCells(rows: seq<Row>, key: seq<Name>)
    requires forall i, c :: 0 <= i < |rows| ==> |Content(Cell(rows[i], c))| < TWO_64
    ensures |Ordered(rows, key)| == |rows|
    ensures forall i, c :: 0 <= i < |rows| ==> |Content(Cell(Ordered(rows, key)[i], c))| < TWO_64
  {
    hide Cell, Content, Sort;
    SameElements(rows, Ordered(rows, key));
    forall i | 0 <= i < |rows| ensures forall c :: |Content(Cell(Ordered(rows, key)[i], c))| < TWO_64 {
      assert Ordered(rows, key)[i] in rows;
      var j :| 0 <= j < |rows| && rows[j] == Ordered(rows, key)[i];
    }
  }

  lemma {:induction false} UnitFits(tables: Tables, spec: TableSpec, unit: TableUnit)
    requires ExportTable(tables, spec) == Ok(unit) && SchemaKeyed(Info(tables, spec.name), spec) &&
             SizedTable(tables, spec)
    ensures TableFits(unit)
  {
    hide Traverse, RowExporter, Ordered, Info, RowsOf, NameFits, RowFits, Content, Cell, FirstUnknown, Sort;
    var info, rows := Info(tables, spec.name), RowsOf(tables, spec.name);
    var columns, key := ColumnsOf(info, spec), KeyOf(info);
    ColumnsFit(info, spec);
    ColumnsNonEmpty(info, spec);
    OrderedCells(rows, key);
    RowsFit(spec.name, columns, Ordered(rows, key), unit.rows);
  }

  /** Every exported unit is the unit of a covered table. */
  lemma {:induction false} SpecOfExportedUnit(covered: seq<Covered>, k: nat) returns (j: nat)
    requires k < |ExportedUnits(covered)|
    ensures j < |covered| && covered[j].spec.role == Exported && covered[j].unit == ExportedUnits(covered)[k]
  {
    if covered[0].spec.role == Exported && k == 0 {
      j := 0;
    } else {
      var m := SpecOfExportedUnit(covered[1..], if covered[0].spec.role == Exported then k - 1 else k);
      j := m + 1;
    }
  }

  lemma {:induction false} ExportedUnitsBound(tables: seq<Covered>)
    ensures |ExportedUnits(tables)| <= |tables|
  {
    if tables != [] {
      ExportedUnitsBound(tables[1..]);
    }
  }

  lemma {:induction false} TreeFitsExport(tables: Tables, sections: seq<SectionSpec>, ws: seq<Walked>)
    requires Sized(tables, sections) && Walk(tables, sections) == Ok(ws)
    ensures TreeFits(TreeOf(ws))
  {
    hide Walk, ExportTable, SchemaKeyed, SizedTable, TableFits, NameFits, ExportedUnits;
    WalkVisits(tables, sections, ws);
    forall i | 0 <= i < |ws| ensures SectionFits(SectionOf(ws[i])) {
      var units := ExportedUnits(ws[i].tables);
      ExportedUnitsBound(ws[i].tables);
      forall k | 0 <= k < |units| ensures TableFits(units[k]) {
        var j := SpecOfExportedUnit(ws[i].tables, k);
        assert IsExported(sections, sections[i].tables[j]);
        UnitFits(tables, sections[i].tables[j], units[k]);
      }
    }
  }

  /** The top hash stands for the exported content: for two states, whatever their registries,
      equal top hashes, equal artifacts and equal exported trees are one and the same thing, unless
      the hash collides on bytes these two snapshots hash. */
  lemma {:induction false} StatesCommit(h: Hash, a: Tables, sa: seq<SectionSpec>, wa: seq<Walked>, b: Tables,
      sb: seq<SectionSpec>, wb: seq<Walked>)
    requires Sized(a, sa) && Walk(a, sa) == Ok(wa) && Sized(b, sb) && Walk(b, sb) == Ok(wb)
    requires CollisionFree(h, TreeOf(wa), TreeOf(wb))
    ensures ManifestOf(h, wa).topHash == ManifestOf(h, wb).topHash <==> TreeOf(wa) == TreeOf(wb)
    ensures ArtifactBytes(a, sa) == ArtifactBytes(b, sb) <==> TreeOf(wa) == TreeOf(wb)
  {
    hide Sized, Walk, CollisionFree, TreeOf, TopHash, EncodeArtifact, TreeFits;
    TreeFitsExport(a, sa, wa);
    TreeFitsExport(b, sb, wb);
    TopHashCommits(h, TreeOf(wa), TreeOf(wb));
  }
}
