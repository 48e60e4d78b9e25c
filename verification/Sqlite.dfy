/** The database as the snapshot code sees it: named tables with columns, a primary key and rows,
    read in primary-key order and written one row at a time. */
module Sqlite {
  import opened Bytes
  import opened Codec
  import opened Artifact
  import opened Sorting

  // ----- SQLite's order on values: NULL, then numbers, then TEXT, then BLOB

  /** `x` times 2 to the power `e`. */
  function Scale(x: real, e: int): real
    decreases if e < 0 then -e else e, x
  {
    if e == 0 then x else if e > 0 then Scale(2.0 * x, e - 1) else Scale(x / 2.0, e + 1)
  }

  /** The number a REAL bit pattern stands for (infinity as 2 to the power 1024). */
  function RealValue(bits: u64): real {
    var m := bits % TWO_63;
    var exponent, fraction := m / 0x10_0000_0000_0000, m % 0x10_0000_0000_0000;
    var magnitude :=
      if exponent == 0 then Scale(fraction as real, -1074)
      else Scale((fraction + 0x10_0000_0000_0000) as real, exponent - 1075);
    if m == 0 then 0.0 else if bits < TWO_63 then magnitude else -magnitude
  }

  function Class(v: Value): nat {
    match v
    case Null => 0
    case Integer(_) => 1
    case Real(_) => 1
    case Text(_) => 2
    case Blob(_) => 3
  }

  function Number(v: Value): real {
    match v
    case Integer(i) => i as real
    case Real(bits) => RealValue(bits)
    case _ => 0.0
  }

  function Content(v: Value): seq<byte> {
    match v
    case Text(t) => t
    case Blob(b) => b
    case _ => []
  }

  predicate ValueLeq(a: Value, b: Value) {
    || Class(a) < Class(b)
    || (Class(a) == Class(b) && (Number(a) < Number(b) || (Number(a) == Number(b) && BytesLeq(Content(a), Content(b)))))
  }

  predicate Tied(a: Value, b: Value) { ValueLeq(a, b) && ValueLeq(b, a) }

  lemma {:induction false} ValueLeqTotal(a: Value, b: Value)
    ensures ValueLeq(a, b) || ValueLeq(b, a)
  {
    BytesLeqTotal(Content(a), Content(b));
  }

  lemma {:induction false} ValueLeqTransitive(a: Value, b: Value, c: Value)
    requires ValueLeq(a, b) && ValueLeq(b, c)
    ensures ValueLeq(a, c)
  {
    if BytesLeq(Content(a), Content(b)) && BytesLeq(Content(b), Content(c)) {
      BytesLeqTransitive(Content(a), Content(b), Content(c));
    }
  }

  /** -0.0 and 0.0 are one number; every other value is its own canonical form. */
  function Canon(v: Value): Value {
    if v.Real? && v.bits == NEGATIVE_ZERO then Real(0) else v
  }

  lemma {:induction false} CanonOrder(a: Value, b: Value)
    ensures ValueLeq(Canon(a), Canon(b)) == ValueLeq(a, b)
  {
  }

  // ----- lexicographic order on key tuples

  predicate KeyLeq(a: seq<Value>, b: seq<Value>) {
    if a == [] then true
    else if b == [] then false
    else ValueLeq(a[0], b[0]) && (ValueLeq(b[0], a[0]) ==> KeyLeq(a[1..], b[1..]))
  }

  lemma {:induction false} KeyLeqTotal(a: seq<Value>, b: seq<Value>)
    ensures KeyLeq(a, b) || KeyLeq(b, a)
  {
    hide ValueLeq;
    if a != [] && b != [] {
      ValueLeqTotal(a[0], b[0]);
      KeyLeqTotal(a[1..], b[1..]);
    }
  }

  lemma {:induction false} KeyLeqTransitive(a: seq<Value>, b: seq<Value>, c: seq<Value>)
    requires KeyLeq(a, b) && KeyLeq(b, c)
    ensures KeyLeq(a, c)
  {
    hide ValueLeq;
    if a != [] && b != [] && c != [] {
      ValueLeqTransitive(a[0], b[0], c[0]);
      if ValueLeq(c[0], a[0]) {
        ValueLeqTransitive(b[0], c[0], a[0]);
        ValueLeqTransitive(c[0], a[0], b[0]);
        KeyLeqTransitive(a[1..], b[1..], c[1..]);
      }
    }
  }

  /** Two keys of one width are tied exactly when they are tied component by component. */
  lemma {:induction false} KeyTies(a: seq<Value>, b: seq<Value>)
    requires |a| == |b|
    ensures KeyLeq(a, b) && KeyLeq(b, a) <==> forall i :: 0 <= i < |a| ==> Tied(a[i], b[i])
  {
    hide ValueLeq;
    if a != [] {
      KeyTies(a[1..], b[1..]);
      var tails := forall i :: 0 <= i < |a[1..]| ==> Tied(a[1..][i], b[1..][i]);
      assert (forall i :: 0 <= i < |a| ==> Tied(a[i], b[i])) <==> Tied(a[0], b[0]) && tails by {
        if Tied(a[0], b[0]) && tails {
          forall i | 0 <= i < |a| ensures Tied(a[i], b[i]) {
            if i > 0 { assert Tied(a[1..][i - 1], b[1..][i - 1]); }
          }
        }
        if forall i :: 0 <= i < |a| ==> Tied(a[i], b[i]) {
          forall i | 0 <= i < |a[1..]| ensures Tied(a[1..][i], b[1..][i]) {
            assert Tied(a[i + 1], b[i + 1]);
          }
        }
      }
    }
  }

  // ----- tables

  datatype Column = Column(name: Name, pk: bool, default: Value)

  type Row = map<Name, Value>

  datatype Table = Table(columns: seq<Column>, rows: seq<Row>)

  type Tables = map<Name, Table>

  function Cell(row: Row, column: Name): Value {
    if column in row then row[column] else Null
  }

  /** The selected cells of a row, in the given column order. */
  function Project(row: Row, columns: seq<Name>): (cells: seq<Value>)
    ensures |cells| == |columns|
    ensures forall i :: 0 <= i < |columns| ==> cells[i] == Cell(row, columns[i])
  {
    if columns == [] then [] else [Cell(row, columns[0])] + Project(row, columns[1..])
  }

  /** ORDER BY the given key columns. */
  function KeyOrder(key: seq<Name>): Order<Row> {
    (a: Row, b: Row) => KeyLeq(Project(a, key), Project(b, key))
  }

  lemma {:induction false} KeyOrderTotal(key: seq<Name>)
    ensures TotalPreorder(KeyOrder(key))
  {
    hide KeyLeq, Project;
    forall a: Row, b: Row ensures KeyOrder(key)(a, b) || KeyOrder(key)(b, a) {
      KeyLeqTotal(Project(a, key), Project(b, key));
    }
    forall a: Row, b: Row, c: Row | KeyOrder(key)(a, b) && KeyOrder(key)(b, c) ensures KeyOrder(key)(a, c) {
      KeyLeqTransitive(Project(a, key), Project(b, key), Project(c, key));
    }
  }

  function ColumnNames(columns: seq<Column>): (names: seq<Name>)
    ensures |names| == |columns|
    ensures forall i :: 0 <= i < |columns| ==> names[i] == columns[i].name
  {
    if columns == [] then [] else [columns[0].name] + ColumnNames(columns[1..])
  }

  /** PRAGMA table_info: no rows for a table that does not exist. */
  function Info(tables: Tables, table: Name): seq<Column> {
    if table in tables then tables[table].columns else []
  }

  function RowsOf(tables: Tables, table: Name): seq<Row> {
    if table in tables then tables[table].rows else []
  }

  // ----- writing

  function IndexOf<T(==)>(s: seq<T>, x: T): (i: nat)
    requires x in s
    ensures i < |s| && s[i] == x
  {
    if s[0] == x then 0 else 1 + IndexOf(s[1..], x)
  }

  function DefaultOf(columns: seq<Column>, name: Name): Value {
    if columns == [] then Null
    else if columns[0].name == name then columns[0].default
    else DefaultOf(columns[1..], name)
  }

  /** The row a column-named INSERT stores: columns not named take their default. */
  function NewRow(columns: seq<Column>, names: seq<Name>, values: seq<Value>): Row {
    map c | c in ColumnNames(columns) ::
      if c in names && |names| == |values| then values[IndexOf(names, c)] else DefaultOf(columns, c)
  }

  /** Two rows agree on every primary-key column, as SQLite orders values. */
  predicate TiedKeys(a: Row, b: Row, columns: seq<Column>) {
    forall i :: 0 <= i < |columns| && columns[i].pk ==> Tied(Cell(a, columns[i].name), Cell(b, columns[i].name))
  }

  predicate NullInKey(a: Row, columns: seq<Column>) {
    exists i :: 0 <= i < |columns| && columns[i].pk && Cell(a, columns[i].name) == Null
  }

  /** What the primary-key constraint calls equal: a key that holds a NULL equals no other. */
  predicate SameKey(a: Row, b: Row, columns: seq<Column>) { TiedKeys(a, b, columns) && !NullInKey(a, columns) }

  /** One INSERT: refused when the parameters do not match the columns or the primary key is
      already present. */
  function InsertInto(t: Table, names: seq<Name>, values: seq<Value>): Result<Table> {
    if |names| != |values| then Err(Db) else
    var row := NewRow(t.columns, names, values);
    if exists i :: 0 <= i < |t.rows| && SameKey(t.rows[i], row, t.columns) then Err(Db)
    else Ok(t.(rows := t.rows + [row]))
  }

  function InsertNamed(tables: Tables, table: Name, names: seq<Name>, values: seq<Value>): Result<Tables> {
    if table !in tables then Err(Db) else
    var t :- InsertInto(tables[table], names, values);
    Ok(tables[table := t])
  }

  /** INSERTs one after the other, stopping at the first refusal. */
  function InsertAll(tables: Tables, table: Name, names: seq<Name>, rows: seq<seq<Value>>): Result<Tables> {
    if rows == [] then Ok(tables) else
    var before :- InsertAll(tables, table, names, rows[..|rows| - 1]);
    InsertNamed(before, table, names, rows[|rows| - 1])
  }

  /** An open transaction: reads see its own writes. */
  class Transaction {
    var tables: Tables

    constructor (initial: Tables)
      ensures tables == initial
    { tables := initial; }

    method Insert(table: Name, names: seq<Name>, values: seq<Value>) returns (r: Result<()>)
      modifies this
      ensures match InsertNamed(old(tables), table, names, values)
              case Err(e) => r == Err(e) && tables == old(tables)
              case Ok(after) => r == Ok(()) && tables == after
      ensures r.Err? ==> r.error == Db
    {
      match InsertNamed(tables, table, names, values)
      case Err(e) =>
        r := Err(e);
      case Ok(after) =>
        tables := after;
        r := Ok(());
    }
  }
}
