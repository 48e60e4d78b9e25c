/** Which error an export or an import ends with: always that of the first thing that is wrong, in the
    order in which registry and artifact list them. */
module Refusals {
  import opened Codec
  import opened Artifact
  import opened Sorting
  import opened Sqlite
  import opened Export
  import opened ExportExact
  import opened Import
  import opened Restoring
  import opened ImportExact

  // ----- export

  /** A traversal ends with the error of the first element that has one. */
  lemma {:induction false} FirstError<T, U>(f: T -> Result<U>, xs: seq<T>) returns (i: nat)
    requires Traverse(f, xs).Err?
    ensures i < |xs| && f(xs[i]).Err? && Traverse(f, xs).error == f(xs[i]).error
    ensures forall j :: 0 <= j < i ==> f(xs[j]).Ok?
  {
    var n := |xs| - 1;
    if Traverse(f, xs[..n]).Err? {
      i := FirstError(f, xs[..n]);
      assert forall j :: 0 <= j < n ==> xs[..n][j] == xs[j];
    } else {
      i := n;
      TraverseOk(f, xs[..n], Traverse(f, xs[..n]).value);
      assert forall j :: 0 <= j < n ==> xs[..n][j] == xs[j] && f(xs[..n][j]).Ok?;
    }
  }

  /** Entry `k` is the first exclusion that names no column. */
  ghost predicate UnknownAt(info: seq<Column>, excluded: seq<Name>, k: int) {
    && 0 <= k < |excluded| && excluded[k] !in ColumnNames(info)
    && forall l :: 0 <= l < k ==> excluded[l] in ColumnNames(info)
  }

  /** Columns: an exclusion that names no column is reported first, the first such; then the lack of a
      primary key. */
  lemma {:induction false} ColumnsRefused(info: seq<Column>, spec: TableSpec)
    ensures CanonicalColumns(info, spec).Ok? <==>
            (forall e :: e in spec.excluded ==> e in ColumnNames(info)) && exists i :: 0 <= i < |info| && info[i].pk
    ensures forall k :: UnknownAt(info, spec.excluded, k) ==>
              CanonicalColumns(info, spec) == Err(UnknownExcludedColumn(spec.name, spec.excluded[k]))
    ensures (forall e :: e in spec.excluded ==> e in ColumnNames(info)) && (forall i :: 0 <= i < |info| ==> !info[i].pk)
            ==> CanonicalColumns(info, spec) == Err(MissingPrimaryKey(spec.name))
  {
    hide ColumnNames, Sort, KeyNames, KeptNames;
    ExclusionsKnown(info, spec.excluded);
    HasKey(info);
    forall k | UnknownAt(info, spec.excluded, k)
      ensures FirstUnknown(info, spec.excluded) == [spec.excluded[k]]
    {
      UnknownIs(info, spec.excluded, k);
    }
  }

  lemma {:induction false} UnknownIs(info: seq<Column>, excluded: seq<Name>, k: nat)
    requires UnknownAt(info, excluded, k)
    ensures FirstUnknown(info, excluded) == [excluded[k]]
  {
    if k > 0 {
      UnknownIs(info, excluded[1..], k - 1);
    }
  }

  /** Rows: the first row in key order that holds a NaN, and in it the first such column. */
  lemma {:induction false} RowsRefused(table: Name, columns: seq<Name>, rows: seq<Row>) returns (i: nat, j: nat)
    requires Traverse(RowExporter(table, columns), rows).Err?
    ensures i < |rows| && j < |columns| && NotANumber(Cell(rows[i], columns[j]))
    ensures forall k :: 0 <= k < j ==> !NotANumber(Cell(rows[i], columns[k]))
    ensures forall l, k :: 0 <= l < i && 0 <= k < |columns| ==> !NotANumber(Cell(rows[l], columns[k]))
    ensures Traverse(RowExporter(table, columns), rows).error == NonCanonicalFloat(table, columns[j])
  {
    hide Traverse, Cell;
    var f := RowExporter(table, columns);
    i := FirstError(f, rows);
    j := FirstError(CellExporter(rows[i], table), columns);
    forall k | 0 <= k < j ensures !NotANumber(Cell(rows[i], columns[k])) {
      assert CellExporter(rows[i], table)(columns[k]).Ok?;
    }
    forall l, k | 0 <= l < i && 0 <= k < |columns| ensures !NotANumber(Cell(rows[l], columns[k])) {
      assert f(rows[l]).Ok?;
      TraverseOk(CellExporter(rows[l], table), columns, f(rows[l]).value);
      assert CellExporter(rows[l], table)(columns[k]).Ok?;
    }
  }

  /** Tables: the columns' error; else a table without kept columns is a database error; else the rows'. */
  lemma {:induction false} TableRefused(tables: Tables, spec: TableSpec)
    requires ExportTable(tables, spec).Err?
    ensures var info, e := Info(tables, spec.name), ExportTable(tables, spec).error;
            match CanonicalColumns(info, spec)
            case Err(error) => e == error
            case Ok((columns, key)) =>
              if forall i :: 0 <= i < |info| ==> info[i].name in spec.excluded then e == Db
              else
                && Traverse(RowExporter(spec.name, columns), Ordered(RowsOf(tables, spec.name), key)).Err?
                && e == Traverse(RowExporter(spec.name, columns), Ordered(RowsOf(tables, spec.name), key)).error
  {
    hide Traverse, RowExporter, Ordered, Sort, FirstUnknown, KeyNames, KeptNames;
    HasKept(Info(tables, spec.name), spec);
  }

  /** A walk ends with the error of the first covered table, in registry order, that does not export. */
  lemma {:induction false} WalkRefused(tables: Tables, sections: seq<SectionSpec>) returns (i: nat, j: nat)
    requires Walk(tables, sections).Err?
    ensures i < |sections| && j < |sections[i].tables|
    ensures ExportTable(tables, sections[i].tables[j]).Err?
    ensures Walk(tables, sections).error == ExportTable(tables, sections[i].tables[j]).error
    ensures forall l :: 0 <= l < j ==> ExportTable(tables, sections[i].tables[l]).Ok?
    ensures forall k, l :: 0 <= k < i && 0 <= l < |sections[k].tables| ==>
              ExportTable(tables, sections[k].tables[l]).Ok?
  {
    hide Traverse, ExportTable;
    var f, g := SectionWalker(tables), TableWalker(tables);
    i := FirstError(f, sections);
    j := FirstError(g, sections[i].tables);
    forall l | 0 <= l < j ensures ExportTable(tables, sections[i].tables[l]).Ok? {
      assert g(sections[i].tables[l]).Ok?;
    }
    forall k, l | 0 <= k < i && 0 <= l < |sections[k].tables| ensures ExportTable(tables, sections[k].tables[l]).Ok? {
      assert f(sections[k]).Ok?;
      TraverseOk(g, sections[k].tables, f(sections[k]).value.tables);
      assert g(sections[k].tables[l]).Ok?;
    }
  }

  // ----- import

  ghost predicate ExportsTable(spec: SectionSpec, name: Name) {
    exists j :: 0 <= j < |spec.tables| && spec.tables[j].role == Exported && spec.tables[j].name == name
  }

  /** Units, in the order of the checks: a table the section does not export, a table that came before, the
      target's own columns at fault, columns that differ, rows already there, and at last rows that the
      database refuses. */
  lemma {:induction false} UnitRefused(tables: Tables, spec: SectionSpec, done: seq<TableUnit>, u: TableUnit)
    ensures var r, info := ImportUnit(tables, spec, Listing(done), u), Info(tables, u.name);
            if !ExportsTable(spec, u.name) then r == Err(SchemaMismatch(spec.name, u.name, NotExported))
            else if u.name in UnitNames(done) then r == Err(SchemaMismatch(spec.name, u.name, DuplicateUnit))
            else
              && FindExported(spec.tables, u.name).Some?
              && match CanonicalColumns(info, FindExported(spec.tables, u.name).value)
                 case Err(e) => r == Err(e)
                 case Ok((columns, _)) =>
                   if columns != u.columns then r == Err(SchemaMismatch(spec.name, u.name, ColumnsDiffer))
                   else if RowsOf(tables, u.name) != [] then r == Err(TargetNotEmpty(u.name))
                   else if u.columns == [] || !RowsInsertable(info, u) then r == Err(Db)
                   else r == Ok(Restore(tables, u))
  {
    hide RowsInsertable, CanonicalColumns, InsertAll, Restore, FindExported, Listing, UnitNames, Listed;
    ListedNames(done, u.name);
    var at := FindExportedExact(spec.tables, u.name);
    if at < |spec.tables| {
      assert ExportsTable(spec, u.name);
      if CanonicalColumns(Info(tables, u.name), spec.tables[at]).Ok? {
        KeyedTableExists(tables, spec.tables[at]);
        if RowsOf(tables, u.name) == [] {
          RowsExact(tables, u);
          InsertsRefused(tables, u);
        }
      }
    }
  }

  /** The database has one kind of refusal. */
  lemma {:induction false} InsertsRefused(tables: Tables, u: TableUnit)
    ensures InsertAll(tables, u.name, u.columns, u.rows).Err? ==>
            InsertAll(tables, u.name, u.columns, u.rows).error == Db
    decreases |u.rows|
  {
    hide SameKey, NewRow;
    if u.rows != [] {
      InsertsRefused(tables, u.(rows := u.rows[..|u.rows| - 1]));
    }
  }

  /** Sections: the error of the first unit refused at its turn; with none refused, the first exported
      table that did not come. */
  lemma {:induction false} SectionRefused(tables: Tables, spec: SectionSpec, units: seq<TableUnit>) returns (k: nat)
    requires ImportSection(tables, spec, units).Err?
    ensures k <= |units| && UnitsAccepted(tables, spec, units[..k])
    ensures var e := ImportSection(tables, spec, units).error;
            if k < |units| then
              ImportUnit(RestoreAll(tables, units[..k]), spec, Listing(units[..k]), units[k]) == Err(e)
            else
              && FirstMissing(spec.tables, Listing(units)).Some?
              && e == SchemaMismatch(spec.name, FirstMissing(spec.tables, Listing(units)).value, MissingFromArtifact)
  {
    hide UnitsAccepted, ImportUnit, RestoreAll, Listing, FirstMissing;
    if ImportUnits(tables, spec, units).Err? {
      k := UnitsRefused(tables, spec, units);
    } else {
      k := |units|;
      assert units[..k] == units;
      UnitsExact(tables, spec, units);
    }
  }

  lemma {:induction false} UnitsRefused(tables: Tables, spec: SectionSpec, units: seq<TableUnit>) returns (k: nat)
    requires ImportUnits(tables, spec, units).Err?
    ensures k < |units| && UnitsAccepted(tables, spec, units[..k])
    ensures ImportUnit(RestoreAll(tables, units[..k]), spec, Listing(units[..k]), units[k])
         == Err(ImportUnits(tables, spec, units).error)
  {
    hide UnitsAccepted, ImportUnit, RestoreAll, Listing;
    var n := |units| - 1;
    if ImportUnits(tables, spec, units[..n]).Err? {
      k := UnitsRefused(tables, spec, units[..n]);
      assert units[..n][..k] == units[..k];
    } else {
      k := n;
      UnitsExact(tables, spec, units[..n]);
    }
  }

  /** Artifacts: the error of the first taken section that is refused at its turn. */
  lemma {:induction false} ArtifactRefused(tables: Tables, sections: seq<SectionSpec>, expected: Expected, tree: Tree)
    returns (i: nat)
    requires ImportTree(tables, sections, expected, tree).Err?
    ensures var taken := Taken(sections, expected, tree);
            && i < |taken| && ArtifactAccepted(tables, sections, taken[..i])
            && FindSection(sections, taken[i].name).Some?
            && ImportSection(RestoreAll(tables, AllUnits(taken[..i])), FindSection(sections, taken[i].name).value,
                             taken[i].tables)
               == Err(ImportTree(tables, sections, expected, tree).error)
  {
    hide ArtifactAccepted, RestoreAll, AllUnits, ImportSection, FindSection, Taken, SkipOf;
    var taken := Taken(sections, expected, tree);
    SkippingIsFiltering(tables, sections, expected, tree);
    forall k | 0 <= k < |taken| ensures SkipOf(sections, expected, taken[k].name, taken[k].formatVersion).None? {
      TakenHas(sections, expected, tree, taken[k]);
      SkipIs(sections, expected, taken[k].name, taken[k].formatVersion);
    }
    i := TakenRefused(tables, sections, expected, taken);
  }

  lemma {:induction false} TakenRefused(tables: Tables, sections: seq<SectionSpec>, expected: Expected, taken: Tree)
    returns (i: nat)
    requires forall k :: 0 <= k < |taken| ==> SkipOf(sections, expected, taken[k].name, taken[k].formatVersion).None?
    requires ImportTree(tables, sections, expected, taken).Err?
    ensures i < |taken| && ArtifactAccepted(tables, sections, taken[..i])
    ensures FindSection(sections, taken[i].name).Some?
    ensures ImportSection(RestoreAll(tables, AllUnits(taken[..i])), FindSection(sections, taken[i].name).value,
                          taken[i].tables)
         == Err(ImportTree(tables, sections, expected, taken).error)
  {
    hide ArtifactAccepted, RestoreAll, AllUnits, ImportSection, FindSection;
    var n := |taken| - 1;
    if ImportTree(tables, sections, expected, taken[..n]).Err? {
      i := TakenRefused(tables, sections, expected, taken[..n]);
      assert taken[..n][..i] == taken[..i];
    } else {
      i := n;
      TakenExact(tables, sections, expected, taken[..n]);
    }
  }
}
