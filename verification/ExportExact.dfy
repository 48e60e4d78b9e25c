/** The exported content of a state, said without bytes, order or hashes: exactly when a state can be
    exported, and exactly what equal artifacts and equal top hashes say about two states. */
module ExportExact {
  import opened Codec
  import opened Artifact
  import opened Sorting
  import opened Sqlite
  import opened Export
  import opened Canonical
  import opened CanonicalRows
  import opened Commitment
  import opened States
  import opened Selection

  // ----- when a state can be exported

  ghost predicate Exportable(tables: Tables, spec: TableSpec) {
    var info, rows := Info(tables, spec.name), RowsOf(tables, spec.name);
    && (forall e :: e in spec.excluded ==> e in ColumnNames(info))
    && (exists i :: 0 <= i < |info| && info[i].pk)
    && (exists i :: 0 <= i < |info| && info[i].name !in spec.excluded)
    && forall i, c :: 0 <= i < |rows| && c in ColumnNames(info) && c !in spec.excluded ==> !NotANumber(Cell(rows[i], c))
  }

  ghost predicate NumbersOnly(rows: seq<Row>, columns: seq<Name>) {
    forall i, c :: 0 <= i < |rows| && c in columns ==> !NotANumber(Cell(rows[i], c))
  }

  predicate NotANumber(v: Value) { v.Real? && IsNaN(v.bits) }

  lemma {:induction false} ExclusionsKnown(info: seq<Column>, excluded: seq<Name>)
    ensures FirstUnknown(info, excluded) == [] <==> forall e :: e in excluded ==> e in ColumnNames(info)
  {
    hide ColumnNames;
    if excluded != [] {
      ExclusionsKnown(info, excluded[1..]);
      assert excluded[0] in excluded;
      assert forall e :: e in excluded <==> e == excluded[0] || e in excluded[1..];
    }
  }

  lemma {:induction false} HasKey(info: seq<Column>)
    ensures KeyNames(info) == [] <==> forall i :: 0 <= i < |info| ==> !info[i].pk
  {
    if info != [] {
      HasKey(info[1..]);
      assert forall i :: 0 < i < |info| ==> info[i] == info[1..][i - 1];
    }
  }

  lemma {:induction false} HasKept(info: seq<Column>, spec: TableSpec)
    ensures ColumnsOf(info, spec) == [] <==> forall i :: 0 <= i < |info| ==> info[i].name in spec.excluded
  {
    hide ColumnsOf;
    if ColumnsOf(info, spec) == [] {
      forall i | 0 <= i < |info| ensures info[i].name in spec.excluded {
        ColumnsOfHas(info, spec, info[i].name);
        assert ColumnNames(info)[i] == info[i].name;
      }
    } else {
      var c := ColumnsOf(info, spec)[0];
      ColumnsOfHas(info, spec, c);
      var i :| 0 <= i < |info| && ColumnNames(info)[i] == c;
      assert info[i].name !in spec.excluded;
    }
  }

  /** Rows export exactly when no exported cell is NaN. */
  lemma {:induction false} RowsExportable(table: Name, columns: seq<Name>, rows: seq<Row>)
    ensures Traverse(RowExporter(table, columns), rows).Ok? <==>
            NumbersOnly(rows, columns)
  {
    hide Traverse, Cell, NotANumber;
    var f := RowExporter(table, columns);
    if NumbersOnly(rows, columns) {
      forall i | 0 <= i < |rows| ensures f(rows[i]).Ok? {
        var g := CellExporter(rows[i], table);
        forall j | 0 <= j < |columns| ensures g(columns[j]).Ok? {
          assert columns[j] in columns;
          CellExports(Cell(rows[i], columns[j]), table, columns[j]);
        }
        TraverseAllOk(g, columns);
      }
      TraverseAllOk(f, rows);
    }
    if Traverse(f, rows).Ok? {
      ExportedRows(table, columns, rows, Traverse(f, rows).value);
      forall i, c | 0 <= i < |rows| && c in columns ensures !NotANumber(Cell(rows[i], c)) {
        var j :| 0 <= j < |columns| && columns[j] == c;
        CellExports(Cell(rows[i], columns[j]), table, columns[j]);
      }
    }
  }

  lemma {:induction false} CellExports(v: Value, table: Name, column: Name)
    ensures ExportValue(v, table, column).Ok? <==> !NotANumber(v)
  {
  }

  lemma {:induction false} OrderedRowsSame(rows: seq<Row>, key: seq<Name>, columns: seq<Name>)
    ensures NumbersOnly(Ordered(rows, key), columns) <==> NumbersOnly(rows, columns)
  {
    hide Sort, Cell, NotANumber;
    var sorted := Ordered(rows, key);
    SameElements(rows, sorted);
    if NumbersOnly(rows, columns) {
      forall i, c | 0 <= i < |sorted| && c in columns ensures !NotANumber(Cell(sorted[i], c)) {
        assert sorted[i] in rows;
        var k :| 0 <= k < |rows| && rows[k] == sorted[i];
      }
    }
    if NumbersOnly(sorted, columns) {
      forall i, c | 0 <= i < |rows| && c in columns ensures !NotANumber(Cell(rows[i], c)) {
        assert rows[i] in sorted;
        var k :| 0 <= k < |sorted| && sorted[k] == rows[i];
      }
    }
  }

  /** A table exports exactly when its exclusions name columns, it has a key and a kept column, and no
      kept cell is NaN. */
  lemma {:induction false} ExportTableExact(tables: Tables, spec: TableSpec)
    ensures ExportTable(tables, spec).Ok? <==> Exportable(tables, spec)
  {
    hide Traverse, RowExporter, Ordered, Info, RowsOf, FirstUnknown, KeyNames, Sort, KeptNames, NotANumber, Cell;
    var info, rows := Info(tables, spec.name), RowsOf(tables, spec.name);
    var columns, key := ColumnsOf(info, spec), KeyOf(info);
    ExclusionsKnown(info, spec.excluded);
    HasKey(info);
    HasKept(info, spec);
    RowsExportable(spec.name, columns, Ordered(rows, key));
    OrderedRowsSame(rows, key, columns);
    forall c ensures c in columns <==> c in ColumnNames(info) && c !in spec.excluded {
      ColumnsOfHas(info, spec, c);
    }
  }

  /** A walk succeeds exactly when every covered table can be exported. */
  lemma {:induction false} WalkExact(tables: Tables, sections: seq<SectionSpec>)
    ensures Walk(tables, sections).Ok? <==> forall spec :: IsCovered(sections, spec) ==> Exportable(tables, spec)
  {
    hide Traverse, ExportTable, Exportable;
    if forall spec :: IsCovered(sections, spec) ==> Exportable(tables, spec) {
      forall i | 0 <= i < |sections| ensures SectionWalker(tables)(sections[i]).Ok? {
        forall j | 0 <= j < |sections[i].tables| ensures TableWalker(tables)(sections[i].tables[j]).Ok? {
          assert IsCovered(sections, sections[i].tables[j]);
          ExportTableExact(tables, sections[i].tables[j]);
        }
        TraverseAllOk(TableWalker(tables), sections[i].tables);
      }
      TraverseAllOk(SectionWalker(tables), sections);
    }
    if Walk(tables, sections).Ok? {
      var ws := Walk(tables, sections).value;
      WalkVisits(tables, sections, ws);
      forall spec | IsCovered(sections, spec) ensures Exportable(tables, spec) {
        var i :| 0 <= i < |sections| && spec in sections[i].tables;
        var j :| 0 <= j < |sections[i].tables| && spec == sections[i].tables[j];
        assert ExportTable(tables, sections[i].tables[j]) == Ok(ws[i].tables[j].unit);
        ExportTableExact(tables, spec);
      }
    }
  }

  // ----- what is in an artifact

  lemma {:induction false} ExportedUnitsExact(tables: seq<Covered>)
    ensures Selects(tables, (c: Covered) => c.spec.role == Exported, (c: Covered) => c.unit, ExportedUnits(tables))
  {
    if tables != [] {
      ExportedUnitsExact(tables[1..]);
      SelectsCons(tables[1..], (c: Covered) => c.spec.role == Exported, (c: Covered) => c.unit,
                  ExportedUnits(tables[1..]), tables[0]);
      assert tables == [tables[0]] + tables[1..];
    }
  }

  /** An artifact has the registry's sections, in order and with their versions, and in each the units of
      exactly its exported tables, in order. */
  lemma {:induction false} ArtifactHolds(tables: Tables, sections: seq<SectionSpec>, ws: seq<Walked>)
    requires Walk(tables, sections) == Ok(ws)
    ensures |TreeOf(ws)| == |ws| == |sections|
    ensures forall i :: 0 <= i < |sections| ==>
              && TreeOf(ws)[i].name == sections[i].name && TreeOf(ws)[i].formatVersion == sections[i].formatVersion
              && Selects(ws[i].tables, (c: Covered) => c.spec.role == Exported, (c: Covered) => c.unit,
                         TreeOf(ws)[i].tables)
    ensures forall i, j :: 0 <= i < |sections| && 0 <= j < |sections[i].tables| ==>
              && |ws[i].tables| == |sections[i].tables| && ws[i].tables[j].spec == sections[i].tables[j]
              && ExportTable(tables, sections[i].tables[j]) == Ok(ws[i].tables[j].unit)
  {
    hide Walk, ExportTable, TreeOf, ExportedUnits, Selects;
    WalkVisits(tables, sections, ws);
    forall i | 0 <= i < |sections|
      ensures Selects(ws[i].tables, (c: Covered) => c.spec.role == Exported, (c: Covered) => c.unit,
                      TreeOf(ws)[i].tables)
    {
      assert TreeOf(ws)[i] == SectionOf(ws[i]);
      ExportedUnitsExact(ws[i].tables);
    }
  }

  // ----- what an artifact keeps

  /** Tables of one shape export to the same unit exactly when they have the same content. */
  lemma {:induction false} SameUnitExact(a: Tables, b: Tables, spec: TableSpec)
    requires WellKeyed(a, spec) && SameShape(Info(a, spec.name), Info(b, spec.name))
    requires ExportTable(a, spec).Ok? && ExportTable(b, spec).Ok?
    ensures ExportTable(a, spec) == ExportTable(b, spec) <==> SameContent(a, b, spec)
  {
    if SameContent(a, b, spec) {
      SameContentSameUnit(a, b, spec);
    } else {
      DifferentContent(a, b, spec);
    }
  }

  lemma {:induction false} DifferentContent(a: Tables, b: Tables, spec: TableSpec)
    requires SameShape(Info(a, spec.name), Info(b, spec.name)) && !SameContent(a, b, spec)
    requires ExportTable(a, spec).Ok? && ExportTable(b, spec).Ok?
    ensures ExportTable(a, spec) != ExportTable(b, spec)
  {
    hide SameShape, ExportTable, CanonicalColumns, Traverse, RowExporter, Ordered, Images, Info, RowsOf, KeyOf,
         ColumnsOf;
    CanonicalColumnsSame(Info(a, spec.name), Info(b, spec.name), spec);
    ExportedShape(a, spec, ExportTable(a, spec).value);
    ExportedShape(b, spec, ExportTable(b, spec).value);
    ImagesOrdered(RowsOf(a, spec.name), KeyOf(Info(a, spec.name)), ColumnsOf(Info(a, spec.name), spec));
    ImagesOrdered(RowsOf(b, spec.name), KeyOf(Info(b, spec.name)), ColumnsOf(Info(b, spec.name), spec));
  }

  lemma {:induction false} ImagesOrdered(rows: seq<Row>, key: seq<Name>, columns: seq<Name>)
    ensures multiset(Images(Ordered(rows, key), columns)) == multiset(Images(rows, columns))
  {
    hide Sort, Image;
    MapPermutes(Imager(columns), rows, Ordered(rows, key));
  }

  lemma {:induction false} UnitsDetermined(a: seq<Covered>, b: seq<Covered>, j: nat)
    requires |a| == |b| && j < |a| && ExportedUnits(a) == ExportedUnits(b) && a[j].spec.role == Exported
    requires forall i :: 0 <= i < |a| ==> a[i].spec == b[i].spec
    ensures a[j].unit == b[j].unit
  {
    var ea, eb := ExportedUnits(a[1..]), ExportedUnits(b[1..]);
    if a[0].spec.role == Exported {
      assert ExportedUnits(a)[0] == ExportedUnits(b)[0];
      assert ea == ExportedUnits(a)[1..] && eb == ExportedUnits(b)[1..];
    } else {
      assert ea == ExportedUnits(a) && eb == ExportedUnits(b);
    }
    if j > 0 {
      UnitsDetermined(a[1..], b[1..], j - 1);
    }
  }

  lemma {:induction false} SameTreeSameExports(a: Tables, b: Tables, sections: seq<SectionSpec>, wa: seq<Walked>,
      wb: seq<Walked>, spec: TableSpec)
    requires Walk(a, sections) == Ok(wa) && Walk(b, sections) == Ok(wb) && TreeOf(wa) == TreeOf(wb) &&
             IsExported(sections, spec)
    ensures ExportTable(a, spec) == ExportTable(b, spec)
  {
    hide Walk, ExportTable, TreeOf, ExportedUnits;
    WalkVisits(a, sections, wa);
    WalkVisits(b, sections, wb);
    var i :| 0 <= i < |sections| && spec in sections[i].tables;
    var j :| 0 <= j < |sections[i].tables| && spec == sections[i].tables[j];
    assert TreeOf(wa)[i] == SectionOf(wa[i]) && TreeOf(wb)[i] == SectionOf(wb[i]);
    UnitsDetermined(wa[i].tables, wb[i].tables, j);
  }

  /** Two nodes with one registry and schema have equal top hashes exactly when every exported table
      holds the same content, unless the hash collides on bytes they hash. */
  lemma {:induction false} TopHashIsContent(h: Hash, a: Tables, b: Tables, sections: seq<SectionSpec>, wa: seq<Walked>,
      wb: seq<Walked>)
    requires Sized(a, sections) && Walk(a, sections) == Ok(wa) && Sized(b, sections) && Walk(b, sections) == Ok(wb)
    requires CollisionFree(h, TreeOf(wa), TreeOf(wb))
    requires forall spec :: IsExported(sections, spec) ==>
               WellKeyed(a, spec) && SameShape(Info(a, spec.name), Info(b, spec.name))
    ensures ManifestOf(h, wa).topHash == ManifestOf(h, wb).topHash <==>
            forall spec :: IsExported(sections, spec) ==> SameContent(a, b, spec)
  {
    hide Walk, CollisionFree, TreeOf, TopHash, SameContent, SameShape, WellKeyed, SizedTable, ExportTable;
    StatesCommit(h, a, sections, wa, b, sections, wb);
    if TreeOf(wa) == TreeOf(wb) {
      forall spec | IsExported(sections, spec) ensures SameContent(a, b, spec) {
        SameTreeSameExports(a, b, sections, wa, wb, spec);
        ExportedOk(a, sections, wa, spec);
        SameUnitExact(a, b, spec);
      }
    }
    if forall spec :: IsExported(sections, spec) ==> SameContent(a, b, spec) {
      forall spec | IsExported(sections, spec) ensures ExportTable(a, spec) == ExportTable(b, spec) {
        SameContentSameUnit(a, b, spec);
      }
      SameExportsSameTree(a, b, sections, wa, wb);
    }
  }

  lemma {:induction false} ExportedOk(a: Tables, sections: seq<SectionSpec>, wa: seq<Walked>, spec: TableSpec)
    requires Walk(a, sections) == Ok(wa) && IsCovered(sections, spec)
    ensures ExportTable(a, spec).Ok?
  {
    hide Walk, ExportTable;
    WalkVisits(a, sections, wa);
    var i :| 0 <= i < |sections| && spec in sections[i].tables;
    var j :| 0 <= j < |sections[i].tables| && spec == sections[i].tables[j];
    assert ExportTable(a, sections[i].tables[j]) == Ok(wa[i].tables[j].unit);
  }
}
