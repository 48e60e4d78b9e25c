/** Rows in primary-key order, seen through the exported columns. */
module CanonicalRows {
  import opened Codec
  import opened Artifact
  import opened Sorting
  import opened Sqlite
  import opened Export
  import opened Canonical

  /** What a row shows of itself: the exported cells with the sign of zero dropped. */
  function Image(row: Row, columns: seq<Name>): (cells: seq<Value>)
    ensures |cells| == |columns|
    ensures forall i :: 0 <= i < |columns| ==> cells[i] == Canon(Cell(row, columns[i]))
  {
    if columns == [] then [] else [Canon(Cell(row, columns[0]))] + Image(row, columns[1..])
  }

  function Imager(columns: seq<Name>): Row -> seq<Value> { row => Image(row, columns) }

  function Images(rows: seq<Row>, columns: seq<Name>): seq<seq<Value>> { MapSeq(Imager(columns), rows) }

  /** The row an INSERT of exported cells stores. */
  function Rebuilder(info: seq<Column>, columns: seq<Name>): seq<Value> -> Row {
    values => NewRow(info, columns, values)
  }

  /** Exported columns are distinct columns of the table and include its key. */
  ghost predicate Covering(info: seq<Column>, columns: seq<Name>, key: seq<Name>) {
    && Distinct(columns)
    && (forall c :: c in columns ==> c in ColumnNames(info))
    && (forall k :: k in key ==> k in columns)
  }

  lemma {:induction false} IndexOfDistinct(names: seq<Name>, i: nat)
    requires Distinct(names) && i < |names|
    ensures IndexOf(names, names[i]) == i
  {
    assert names[IndexOf(names, names[i])] == names[i];
  }

  lemma {:induction false} CellOfNewRow(info: seq<Column>, columns: seq<Name>, values: seq<Value>, i: nat)
    requires Distinct(columns) && |columns| == |values| && i < |columns| && columns[i] in ColumnNames(info)
    ensures Cell(NewRow(info, columns, values), columns[i]) == values[i]
  {
    hide IndexOf, ColumnNames;
    IndexOfDistinct(columns, i);
  }

  // ----- the key order survives

  lemma {:induction false} KeyLeqCanon(a: seq<Value>, a': seq<Value>, b: seq<Value>, b': seq<Value>)
    requires |a| == |a'| && forall i :: 0 <= i < |a| ==> a'[i] == Canon(a[i])
    requires |b| == |b'| && forall i :: 0 <= i < |b| ==> b'[i] == Canon(b[i])
    ensures KeyLeq(a', b') == KeyLeq(a, b)
  {
    hide ValueLeq, Canon;
    if a != [] && b != [] {
      CanonOrder(a[0], b[0]);
      CanonOrder(b[0], a[0]);
      KeyLeqCanon(a[1..], a'[1..], b[1..], b'[1..]);
    }
  }

  lemma {:induction false} KeyOfRebuilt(info: seq<Column>, columns: seq<Name>, key: seq<Name>, row: Row, i: nat)
    requires Covering(info, columns, key) && i < |key|
    ensures Project(NewRow(info, columns, Image(row, columns)), key)[i] == Canon(Project(row, key)[i])
  {
    hide NewRow, Canon, Cell;
    var c := IndexOf(columns, key[i]);
    CellOfNewRow(info, columns, Image(row, columns), c);
  }

  /** Storing the exported cells again keeps the primary-key order. */
  lemma {:induction false} RebuiltOrder(info: seq<Column>, columns: seq<Name>, key: seq<Name>, a: Row, b: Row)
    requires Covering(info, columns, key)
    ensures KeyOrder(key)(NewRow(info, columns, Image(a, columns)), NewRow(info, columns, Image(b, columns)))
         == KeyOrder(key)(a, b)
  {
    hide NewRow, Canon, Cell, Project, Image;
    var a', b' := NewRow(info, columns, Image(a, columns)), NewRow(info, columns, Image(b, columns));
    forall i | 0 <= i < |key| ensures Project(a', key)[i] == Canon(Project(a, key)[i]) {
      KeyOfRebuilt(info, columns, key, a, i);
    }
    forall i | 0 <= i < |key| ensures Project(b', key)[i] == Canon(Project(b, key)[i]) {
      KeyOfRebuilt(info, columns, key, b, i);
    }
    KeyLeqCanon(Project(a, key), Project(a', key), Project(b, key), Project(b', key));
  }

  /** The primary-key order on images. */
  function ImageOrder(info: seq<Column>, columns: seq<Name>, key: seq<Name>): Order<seq<Value>> {
    (x: seq<Value>, y: seq<Value>) => KeyOrder(key)(NewRow(info, columns, x), NewRow(info, columns, y))
  }

  /** No two positions hold rows with tied keys. */
  ghost predicate KeysDistinct(rows: seq<Row>, key: seq<Name>) {
    forall i, j :: 0 <= i < j < |rows| ==> !(KeyOrder(key)(rows[i], rows[j]) && KeyOrder(key)(rows[j], rows[i]))
  }

  lemma {:induction false} KeysDistinctElements(rows: seq<Row>, key: seq<Name>)
    requires KeysDistinct(rows, key)
    ensures Distinct(rows) && TieFree(rows, KeyOrder(key))
  {
    hide KeyLeq, Project;
    KeyOrderTotal(key);
    forall i, j | 0 <= i < j < |rows| ensures rows[i] != rows[j] {
      assert KeyOrder(key)(rows[i], rows[i]);
    }
    forall a, b | a in rows && b in rows && KeyOrder(key)(a, b) && KeyOrder(key)(b, a) ensures a == b {
      var i :| 0 <= i < |rows| && rows[i] == a;
      var j :| 0 <= j < |rows| && rows[j] == b;
      if i < j || j < i { assert false; }
    }
  }

  /** Reading in key order keeps keys distinct and sorts them. */
  lemma {:induction false} OrderedKeys(rows: seq<Row>, key: seq<Name>)
    requires KeysDistinct(rows, key)
    ensures KeysDistinct(Ordered(rows, key), key) && Sorted(Ordered(rows, key), KeyOrder(key))
  {
    hide KeyLeq, Project, Sort;
    KeyOrderTotal(key);
    KeysDistinctElements(rows, key);
    var sorted := Ordered(rows, key);
    SortSorted(rows, KeyOrder(key));
    PermutedDistinct(rows, sorted);
    SameElements(rows, sorted);
    assert TieFree(sorted, KeyOrder(key));
  }

  lemma {:induction false} SortedImages(info: seq<Column>, columns: seq<Name>, key: seq<Name>, rows: seq<Row>)
    requires Covering(info, columns, key) && Sorted(rows, KeyOrder(key))
    ensures Sorted(Images(rows, columns), ImageOrder(info, columns, key))
  {
    hide KeyOrder, NewRow, Image, Covering;
    var xs := Images(rows, columns);
    forall i, j | 0 <= i < j < |xs| ensures ImageOrder(info, columns, key)(xs[i], xs[j]) {
      RebuiltOrder(info, columns, key, rows[i], rows[j]);
    }
  }

  lemma {:induction false} TieFreeImages(info: seq<Column>, columns: seq<Name>, key: seq<Name>, rows: seq<Row>)
    requires Covering(info, columns, key) && TieFree(rows, KeyOrder(key))
    ensures TieFree(Images(rows, columns), ImageOrder(info, columns, key))
  {
    hide KeyOrder, NewRow, Image, Covering;
    var xs, leq := Images(rows, columns), ImageOrder(info, columns, key);
    forall x, y | x in xs && y in xs && leq(x, y) && leq(y, x) ensures x == y {
      var i :| 0 <= i < |xs| && xs[i] == x;
      var j :| 0 <= j < |xs| && xs[j] == y;
      RebuiltOrder(info, columns, key, rows[i], rows[j]);
      RebuiltOrder(info, columns, key, rows[j], rows[i]);
      assert rows[i] in rows && rows[j] in rows;
    }
  }

  /** Two tables that show the same images in any order show the same images in key order. */
  lemma {:induction false} OrderedImagesSame(info: seq<Column>, columns: seq<Name>, key: seq<Name>, a: seq<Row>,
      b: seq<Row>)
    requires Covering(info, columns, key) && KeysDistinct(a, key)
    requires multiset(Images(a, columns)) == multiset(Images(b, columns))
    ensures Images(Ordered(a, key), columns) == Images(Ordered(b, key), columns)
  {
    hide KeyOrder, NewRow, Image, Covering, Sort, KeysDistinct, ImageOrder;
    KeyOrderTotal(key);
    KeysDistinctElements(a, key);
    SortSorted(a, KeyOrder(key));
    SortSorted(b, KeyOrder(key));
    MapPermutes(Imager(columns), a, Ordered(a, key));
    MapPermutes(Imager(columns), b, Ordered(b, key));
    SortedImages(info, columns, key, Ordered(a, key));
    SortedImages(info, columns, key, Ordered(b, key));
    SameElements(a, Ordered(a, key));
    TieFreeImages(info, columns, key, Ordered(a, key));
    SortedUnique(Images(Ordered(a, key), columns), Images(Ordered(b, key), columns), ImageOrder(info, columns, key));
  }

  // ----- export sees images only

  lemma {:induction false} ExportImage(v: Value, w: Value, table: Name, column: Name)
    requires Canon(v) == Canon(w)
    ensures ExportValue(v, table, column) == ExportValue(w, table, column)
  {
  }

  lemma {:induction false} ExportsOfSameImages(table: Name, columns: seq<Name>, a: seq<Row>, b: seq<Row>)
    requires Images(a, columns) == Images(b, columns)
    ensures Traverse(RowExporter(table, columns), a) == Traverse(RowExporter(table, columns), b)
  {
    hide Canon, Cell, ExportValue;
    var f := RowExporter(table, columns);
    assert |Images(a, columns)| == |a| && |Images(b, columns)| == |b|;
    forall i | 0 <= i < |a| ensures f(a[i]) == f(b[i]) {
      assert Images(a, columns)[i] == Images(b, columns)[i];
      forall j | 0 <= j < |columns|
        ensures CellExporter(a[i], table)(columns[j]) == CellExporter(b[i], table)(columns[j])
      {
        assert Image(a[i], columns)[j] == Image(b[i], columns)[j];
        ExportImage(Cell(a[i], columns[j]), Cell(b[i], columns[j]), table, columns[j]);
      }
      TraverseCongruent(CellExporter(a[i], table), columns, CellExporter(b[i], table), columns);
    }
    TraverseCongruent(f, a, f, b);
  }
}
