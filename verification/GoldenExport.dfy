/** The fixture database behind the golden artifact, and its way through the export. */
module GoldenExport {
  import opened Bytes
  import opened Codec
  import opened Artifact
  import opened Sorting
  import opened Sqlite
  import opened Export
  import opened Canonical
  import opened ExportExact
  import opened Golden

  const ITEMS_SPEC := TableSpec(ITEMS, Exported, [LOCAL_FLAG])
  const HISTORY_SPEC := TableSpec(HISTORY, DivergenceOnly, [])
  const EMPTY_A_SPEC := TableSpec(EMPTY_A, Exported, [])
  const EMPTY_B_SPEC := TableSpec(EMPTY_B, Exported, [])

  const SECTIONS: seq<SectionSpec> :=
    [SectionSpec(MAIN, 1, [ITEMS_SPEC, HISTORY_SPEC]), SectionSpec(EMPTY, 1, [EMPTY_A_SPEC, EMPTY_B_SPEC])]

  const KEY := Column(ID, true, Null)

  const ITEMS_INFO: seq<Column> :=
    [KEY, Column(NAME, false, Null), Column(PAYLOAD, false, Null), Column(SCORE, false, Null),
     Column(HEIGHT, false, Null), Column(LOCAL_FLAG, false, Null)]

  function Item(id: Value, name: Value, payload: Value, score: Value, height: Value, flag: Value): Row {
    map[ID := id, NAME := name, PAYLOAD := payload, SCORE := score, HEIGHT := height, LOCAL_FLAG := flag]
  }

  /** Every value type, a height above 2 to the power 63, -0.0, and empty text and blob. */
  const ITEM_1: Row := Item(CELLS_1[1], CELLS_1[2], CELLS_1[3], CELLS_1[4], CELLS_1[0], Integer(1))
  const ITEM_2: Row := Item(CELLS_2[1], CELLS_2[2], CELLS_2[3], Real(NEGATIVE_ZERO), CELLS_2[0], Integer(0))
  const ITEM_3: Row := Item(CELLS_3[1], CELLS_3[2], CELLS_3[3], CELLS_3[4], CELLS_3[0], Integer(1))

  const HISTORY_INFO: seq<Column> := [Column(HEIGHT, true, Null), Column(BLOCK, false, Null)]

  const FIXTURE: Tables :=
    map[ITEMS := Table(ITEMS_INFO, [ITEM_1, ITEM_2, ITEM_3]),
        HISTORY := Table(HISTORY_INFO, [map[HEIGHT := Integer(1), BLOCK := Blob([0xAA])],
                                        map[HEIGHT := Integer(2), BLOCK := Blob([0xBB])]]),
        EMPTY_A := Table([KEY], []),
        EMPTY_B := Table([KEY], [])]

  // ----- names

  lemma {:induction false} NamesDiffer()
    ensures ITEMS != HISTORY && ITEMS != EMPTY_A && ITEMS != EMPTY_B
    ensures HISTORY != EMPTY_A && HISTORY != EMPTY_B && EMPTY_A != EMPTY_B
  {
    assert |ITEMS| == 5 && |HISTORY| == 7 && |EMPTY_A| == 7 && |EMPTY_B| == 7;
    assert HISTORY[0] == 104 && EMPTY_A[0] == 101 && EMPTY_B[0] == 101 && EMPTY_A[6] == 97 && EMPTY_B[6] == 98;
  }

  lemma {:induction false} FixtureTables()
    ensures Info(FIXTURE, ITEMS) == ITEMS_INFO && RowsOf(FIXTURE, ITEMS) == [ITEM_1, ITEM_2, ITEM_3]
    ensures Info(FIXTURE, EMPTY_A) == [KEY] && RowsOf(FIXTURE, EMPTY_A) == []
    ensures Info(FIXTURE, EMPTY_B) == [KEY] && RowsOf(FIXTURE, EMPTY_B) == []
    ensures Info(FIXTURE, HISTORY) == HISTORY_INFO
    ensures forall r, c :: r in RowsOf(FIXTURE, HISTORY) ==> !NotANumber(Cell(r, c))
  {
    NamesDiffer();
  }

  lemma {:induction false} Cells(id: Value, name: Value, payload: Value, score: Value, height: Value, flag: Value)
    ensures var row := Item(id, name, payload, score, height, flag);
            && Cell(row, HEIGHT) == height && Cell(row, ID) == id && Cell(row, NAME) == name
            && Cell(row, PAYLOAD) == payload && Cell(row, SCORE) == score
  {
    assert |ID| == 2 && |NAME| == 4 && |PAYLOAD| == 7 && |SCORE| == 5 && |HEIGHT| == 6 && |LOCAL_FLAG| == 10;
  }

  // ----- columns

  lemma {:induction false} OneName()
    ensures Sort([ID], NameOrder) == [ID]
  {
    NameOrderTotal();
    SortIdempotent([ID], NameOrder);
  }

  lemma {:induction false} ItemsKept()
    ensures KeptNames(ITEMS_INFO, [LOCAL_FLAG]) == [ID, NAME, PAYLOAD, SCORE, HEIGHT]
  {
    var ex := [LOCAL_FLAG];
    assert |ID| == 2 && |NAME| == 4 && |PAYLOAD| == 7 && |SCORE| == 5 && |HEIGHT| == 6 && |LOCAL_FLAG| == 10;
    var t1 := ITEMS_INFO[1..];
    var t2 := t1[1..];
    var t3 := t2[1..];
    var t4 := t3[1..];
    var t5 := t4[1..];
    hide LOCAL_FLAG, ID, NAME, PAYLOAD, SCORE, HEIGHT;
    assert t5 == [Column(LOCAL_FLAG, false, Null)] && t5[1..] == [];
    assert KeptNames(t5, ex) == [];
    assert KeptNames(t4, ex) == [HEIGHT];
    assert KeptNames(t3, ex) == [SCORE] + [HEIGHT];
    assert KeptNames(t2, ex) == [PAYLOAD] + ([SCORE] + [HEIGHT]);
    assert KeptNames(t1, ex) == [NAME] + ([PAYLOAD] + ([SCORE] + [HEIGHT]));
  }

  lemma {:induction false} ItemsKey()
    ensures KeyNames(ITEMS_INFO) == [ID]
    ensures FirstUnknown(ITEMS_INFO, [LOCAL_FLAG]) == []
  {
    HasKey(ITEMS_INFO[1..]);
    assert ColumnNames(ITEMS_INFO)[5] == LOCAL_FLAG;
    assert [LOCAL_FLAG][1..] == [];
  }

  lemma {:induction false} ColumnsAscend()
    ensures Sorted(ITEMS_COLUMNS, NameOrder)
  {
    assert HEIGHT[0] == 104 && ID[0] == 105 && NAME[0] == 110 && PAYLOAD[0] == 112 && SCORE[0] == 115;
    hide HEIGHT, ID, NAME, PAYLOAD, SCORE;
    var cs := ITEMS_COLUMNS;
    forall i, j | 0 <= i < j < 5 ensures BytesLeq(cs[i], cs[j]) {
      assert cs[i] != [] && cs[j] != [] && cs[i][0] < cs[j][0];
    }
  }

  lemma {:induction false} ItemsSorted()
    ensures Sort([ID, NAME, PAYLOAD, SCORE, HEIGHT], NameOrder) == ITEMS_COLUMNS
  {
    hide Sort, HEIGHT, ID, NAME, PAYLOAD, SCORE, NameOrder, Sorted;
    var kept := [ID, NAME, PAYLOAD, SCORE, HEIGHT];
    ColumnsAscend();
    var rest := [ID, NAME, PAYLOAD, SCORE];
    assert ITEMS_COLUMNS == [HEIGHT] + rest && kept == rest + [HEIGHT];
    NameOrderTotal();
    SortSorted(kept, NameOrder);
    SortedUnique(ITEMS_COLUMNS, Sort(kept, NameOrder), NameOrder);
  }

  lemma {:induction false} ItemsCanonical()
    ensures CanonicalColumns(ITEMS_INFO, ITEMS_SPEC) == Ok((ITEMS_COLUMNS, [ID]))
  {
    hide Sort, KeptNames, KeyNames, FirstUnknown, NameOrder, ITEMS_INFO;
    ItemsKept();
    ItemsKey();
    ItemsSorted();
    OneName();
  }

  lemma {:induction false} EmptyCanonical(name: Name)
    ensures CanonicalColumns([KEY], TableSpec(name, Exported, [])) == Ok(([ID], [ID]))
  {
    hide Sort, NameOrder;
    OneName();
    assert [KEY][1..] == [];
    assert KeptNames([KEY], []) == [ID] && KeyNames([KEY]) == [ID];
  }

  // ----- rows

  lemma {:induction false} InKeyOrder(a: Row, b: Row, i: int, j: int)
    requires -TWO_63 <= i <= j < TWO_63 && Cell(a, ID) == Integer(i) && Cell(b, ID) == Integer(j)
    ensures KeyOrder([ID])(a, b)
  {
    var x, y := [Integer(i)], [Integer(j)];
    assert Project(a, [ID]) == x && Project(b, [ID]) == y;
    assert x[1..] == [] && y[1..] == [];
    assert ValueLeq(x[0], y[0]);
    assert KeyLeq(x[1..], y[1..]);
    assert KeyLeq(x, y);
  }

  lemma {:induction false} ItemsOrdered()
    ensures Ordered([ITEM_1, ITEM_2, ITEM_3], [ID]) == [ITEM_1, ITEM_2, ITEM_3]
  {
    hide Sort, Cell, Item, KeyOrder;
    ItemIds();
    InKeyOrder(ITEM_1, ITEM_2, 1, 2);
    InKeyOrder(ITEM_1, ITEM_3, 1, 3);
    InKeyOrder(ITEM_2, ITEM_3, 2, 3);
    KeyOrderTotal([ID]);
    SortIdempotent([ITEM_1, ITEM_2, ITEM_3], KeyOrder([ID]));
  }

  lemma {:induction false} ItemIds()
    ensures Cell(ITEM_1, ID) == Integer(1) && Cell(ITEM_2, ID) == Integer(2) && Cell(ITEM_3, ID) == Integer(3)
  {
    hide Item, Cell;
    Cells(CELLS_1[1], CELLS_1[2], CELLS_1[3], CELLS_1[4], CELLS_1[0], Integer(1));
    Cells(CELLS_2[1], CELLS_2[2], CELLS_2[3], Real(NEGATIVE_ZERO), CELLS_2[0], Integer(0));
    Cells(CELLS_3[1], CELLS_3[2], CELLS_3[3], CELLS_3[4], CELLS_3[0], Integer(1));
  }

  lemma {:induction false} ItemExports(id: Value, name: Value, payload: Value, score: Value, height: Value,
      flag: Value, out: Value)
    requires !NotANumber(id) && !NotANumber(name) && !NotANumber(payload) && !NotANumber(score) && !NotANumber(height)
    requires Canon(id) == id && Canon(name) == name && Canon(payload) == payload && Canon(height) == height
    requires Canon(score) == out
    ensures RowExporter(ITEMS, ITEMS_COLUMNS)(Item(id, name, payload, score, height, flag))
         == Ok([height, id, name, payload, out])
  {
    hide Item, Cell, Traverse, Canon, IsNaN;
    var row := Item(id, name, payload, score, height, flag);
    Cells(id, name, payload, score, height, flag);
    TraverseOk(CellExporter(row, ITEMS), ITEMS_COLUMNS, [height, id, name, payload, out]);
  }

  lemma {:induction false} RowsExport()
    ensures Traverse(RowExporter(ITEMS, ITEMS_COLUMNS), [ITEM_1, ITEM_2, ITEM_3]) == Ok([CELLS_1, CELLS_2, CELLS_3])
  {
    hide Item, Traverse, RowExporter, ITEMS, ITEMS_COLUMNS;
    ItemExports(CELLS_1[1], CELLS_1[2], CELLS_1[3], CELLS_1[4], CELLS_1[0], Integer(1), CELLS_1[4]);
    ItemExports(CELLS_2[1], CELLS_2[2], CELLS_2[3], Real(NEGATIVE_ZERO), CELLS_2[0], Integer(0), CELLS_2[4]);
    ItemExports(CELLS_3[1], CELLS_3[2], CELLS_3[3], CELLS_3[4], CELLS_3[0], Integer(1), CELLS_3[4]);
    TraverseOk(RowExporter(ITEMS, ITEMS_COLUMNS), [ITEM_1, ITEM_2, ITEM_3], [CELLS_1, CELLS_2, CELLS_3]);
  }

  // ----- tables, sections, the artifact

  lemma {:induction false} TablesExport()
    ensures ExportTable(FIXTURE, ITEMS_SPEC) == Ok(ITEMS_UNIT)
    ensures ExportTable(FIXTURE, EMPTY_A_SPEC) == Ok(TableUnit(EMPTY_A, [ID], []))
    ensures ExportTable(FIXTURE, EMPTY_B_SPEC) == Ok(TableUnit(EMPTY_B, [ID], []))
  {
    hide FIXTURE, ITEMS_INFO, ITEM_1, ITEM_2, ITEM_3, Info, RowsOf, CanonicalColumns, RowExporter, Traverse, Sort,
         CELLS_1, CELLS_2, CELLS_3;
    FixtureTables();
    ItemsCanonical();
    ItemsOrdered();
    RowsExport();
    EmptyCanonical(EMPTY_A);
    EmptyCanonical(EMPTY_B);
    NoRowsOrdered();
    TraverseOk(RowExporter(EMPTY_A, [ID]), [], []);
    TraverseOk(RowExporter(EMPTY_B, [ID]), [], []);
  }

  lemma {:induction false} NoRowsOrdered()
    ensures Ordered([], [ID]) == []
  {
  }

  lemma {:induction false} HistoryExports()
    ensures ExportTable(FIXTURE, HISTORY_SPEC).Ok?
  {
    hide FIXTURE, ExportTable, NotANumber, Cell, Info, RowsOf;
    FixtureTables();
    assert HISTORY_INFO[0].pk && HISTORY_INFO[0].name !in HISTORY_SPEC.excluded;
    ExportTableExact(FIXTURE, HISTORY_SPEC);
  }

  lemma {:induction false} OneExported(a: Covered, b: Covered)
    requires a.spec.role == Exported && b.spec.role == DivergenceOnly
    ensures ExportedUnits([a, b]) == [a.unit]
  {
    assert [a, b][1..] == [b] && [b][1..] == [];
    assert ExportedUnits([b]) == [];
  }

  lemma {:induction false} TwoExported(a: Covered, b: Covered)
    requires a.spec.role == Exported && b.spec.role == Exported
    ensures ExportedUnits([a, b]) == [a.unit, b.unit]
  {
    assert [a, b][1..] == [b] && [b][1..] == [];
    assert ExportedUnits([b]) == [b.unit];
  }

  lemma {:induction false} MainWalk(history: TableUnit)
    requires ExportTable(FIXTURE, HISTORY_SPEC) == Ok(history)
    ensures SectionWalker(FIXTURE)(SECTIONS[0])
         == Ok(Walked(SECTIONS[0], [Covered(ITEMS_SPEC, ITEMS_UNIT), Covered(HISTORY_SPEC, history)]))
  {
    hide FIXTURE, ExportTable, Traverse, ITEMS_UNIT, ITEMS_SPEC, HISTORY_SPEC;
    TablesExport();
    TraverseOk(TableWalker(FIXTURE), SECTIONS[0].tables,
               [Covered(ITEMS_SPEC, ITEMS_UNIT), Covered(HISTORY_SPEC, history)]);
  }

  lemma {:induction false} EmptyWalk()
    ensures SectionWalker(FIXTURE)(SECTIONS[1])
         == Ok(Walked(SECTIONS[1], [Covered(EMPTY_A_SPEC, TableUnit(EMPTY_A, [ID], [])),
                                    Covered(EMPTY_B_SPEC, TableUnit(EMPTY_B, [ID], []))]))
  {
    hide FIXTURE, ExportTable, Traverse, EMPTY_A_SPEC, EMPTY_B_SPEC;
    TablesExport();
    TraverseOk(TableWalker(FIXTURE), SECTIONS[1].tables,
               [Covered(EMPTY_A_SPEC, TableUnit(EMPTY_A, [ID], [])),
                Covered(EMPTY_B_SPEC, TableUnit(EMPTY_B, [ID], []))]);
  }

  /** The fixture exports to the golden bytes: columns sorted, rows by key, -0.0 made 0.0, the excluded
      column and the divergence-only table left out. */
  lemma {:induction false} GoldenArtifact()
    ensures ArtifactBytes(FIXTURE, SECTIONS) == Ok(GOLDEN)
  {
    hide FIXTURE, SectionWalker, EncodeArtifact, GOLDEN, Traverse, ITEMS_UNIT, ExportedUnits, ID, EMPTY_A, EMPTY_B;
    HistoryExports();
    var history := ExportTable(FIXTURE, HISTORY_SPEC).value;
    MainWalk(history);
    EmptyWalk();
    var main := [Covered(ITEMS_SPEC, ITEMS_UNIT), Covered(HISTORY_SPEC, history)];
    var empty := [Covered(EMPTY_A_SPEC, TableUnit(EMPTY_A, [ID], [])),
                  Covered(EMPTY_B_SPEC, TableUnit(EMPTY_B, [ID], []))];
    var ws := [Walked(SECTIONS[0], main), Walked(SECTIONS[1], empty)];
    TraverseOk(SectionWalker(FIXTURE), SECTIONS, ws);
    OneExported(main[0], main[1]);
    TwoExported(empty[0], empty[1]);
    assert TreeOf(ws) == GOLDEN_TREE;
    GoldenBytes();
  }
}
