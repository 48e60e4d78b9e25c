/** What an import leaves behind, cell by cell and line by line: the rows in each table, and the report. */
module Imported {
  import opened Codec
  import opened Artifact
  import opened Sorting
  import opened Sqlite
  import opened Export
  import opened Import
  import opened States
  import opened Restoring
  import opened ImportExact
  import opened Selection

  // ----- one row

  /** The default of the first column of that name, or NULL. */
  lemma {:induction false} DefaultOfExact(columns: seq<Column>, name: Name) returns (i: nat)
    ensures i <= |columns| && forall j :: 0 <= j < i ==> columns[j].name != name
    ensures i < |columns| ==> columns[i].name == name
    ensures DefaultOf(columns, name) == if i < |columns| then columns[i].default else Null
  {
    if columns == [] || columns[0].name == name {
      i := 0;
    } else {
      var k := DefaultOfExact(columns[1..], name);
      i := k + 1;
    }
  }

  /** An inserted row holds the given values under their names, and the column's default elsewhere. */
  lemma {:induction false} NewRowExact(columns: seq<Column>, names: seq<Name>, values: seq<Value>, c: nat)
    requires |names| == |values| && Distinct(names) && Distinct(ColumnNames(columns)) && c < |columns|
    ensures var cell := Cell(NewRow(columns, names, values), columns[c].name);
            && (forall j :: 0 <= j < |names| && names[j] == columns[c].name ==> cell == values[j])
            && (columns[c].name !in names ==> cell == columns[c].default)
  {
    hide ColumnNames;
    var name := columns[c].name;
    assert ColumnNames(columns)[c] == name;
    if name !in names {
      var i := DefaultOfExact(columns, name);
      assert ColumnNames(columns)[i] == name;
    }
  }

  // ----- every table after an import

  lemma {:induction false} RestoreLast(tables: Tables, units: seq<TableUnit>, m: nat)
    requires m < |units| && units[m].name in tables
    requires forall l :: m < l < |units| ==> units[l].name != units[m].name
    ensures RowsOf(RestoreAll(tables, units), units[m].name) == RebuiltRows(Info(tables, units[m].name), units[m])
  {
    hide RebuiltRows;
    var n := |units| - 1;
    RestoreKeepsSchema(tables, units[..n], units[m].name);
    if m < n {
      RestoreLast(tables, units[..n], m);
    }
  }

  lemma {:induction false} TakenRows(tables: Tables, sections: seq<SectionSpec>, taken: Tree, i: nat, k: nat)
    requires FitsOutright(tables, sections, taken) && i < |taken| && k < |taken[i].tables|
    requires taken[i].tables[k].rows != []
    ensures var u := taken[i].tables[k];
            RowsOf(RestoreAll(tables, AllUnits(taken)), u.name) == RebuiltRows(Info(tables, u.name), u)
  {
    hide FitsOutright, ArtifactAccepted, RebuiltRows, RestoreAll, AllUnits;
    AcceptedOutright(tables, sections, taken);
    var m := AllUnitsContains(taken, i, k);
    RestoreLast(tables, AllUnits(taken), m);
  }

  lemma {:induction false} FittingUnit(tables: Tables, sections: seq<SectionSpec>, taken: Tree, i: nat, k: nat)
    requires FitsOutright(tables, sections, taken) && i < |taken| && k < |taken[i].tables|
    ensures var u := taken[i].tables[k];
            && u.name in tables && RowsInsertable(Info(tables, u.name), u)
            && (Distinct(ColumnNames(Info(tables, u.name))) ==> Distinct(u.columns))
  {
    hide RowsInsertable, FindSection, FindExported, NoRowsIn, UnitNames, Distinct;
    assert SectionFitting(tables, sections, taken[i]);
    var spec, u := FindSection(sections, taken[i].name).value, taken[i].tables[k];
    assert Importable(tables, spec, u);
    var tableSpec := FindExported(spec.tables, u.name).value;
    if Distinct(ColumnNames(Info(tables, u.name))) {
      ColumnsOfDistinct(Info(tables, u.name), tableSpec);
    }
  }

  /** After an import, a table that a taken unit brought rows for holds exactly those rows in the unit's
      order: every named column the unit's cell, every other column its default. */
  lemma {:induction false} ImportFills(tables: Tables, sections: seq<SectionSpec>, expected: Expected, tree: Tree,
      i: nat, k: nat, r: nat, c: nat)
    requires ImportTree(tables, sections, expected, tree).Ok?
    requires var taken := Taken(sections, expected, tree);
             && i < |taken| && k < |taken[i].tables| && r < |taken[i].tables[k].rows|
             && (var info := Info(tables, taken[i].tables[k].name); c < |info| && Distinct(ColumnNames(info)))
    ensures var after, u := ImportTree(tables, sections, expected, tree).value.0,
                            Taken(sections, expected, tree)[i].tables[k];
            var info, rows := Info(tables, u.name), RowsOf(after, u.name);
            && Info(after, u.name) == info && |rows| == |u.rows| && |u.rows[r]| == |u.columns|
            && (forall j :: 0 <= j < |u.columns| && u.columns[j] == info[c].name ==>
                  Cell(rows[r], info[c].name) == u.rows[r][j])
            && (info[c].name !in u.columns ==> Cell(rows[r], info[c].name) == info[c].default)
  {
    hide ImportTree, Taken, FitsOutright, RestoreAll, AllUnits, Distinct, ImportedList, Passed, Cell, NewRow,
         ColumnNames;
    ImportTreeExact(tables, sections, expected, tree);
    var taken := Taken(sections, expected, tree);
    var u := taken[i].tables[k];
    TakenRows(tables, sections, taken, i, k);
    FittingUnit(tables, sections, taken, i, k);
    RestoreKeepsSchema(tables, AllUnits(taken), u.name);
    NewRowExact(Info(tables, u.name), u.columns, u.rows[r], c);
  }

  // ----- the report

  lemma {:induction false} SelectsImage<T, U, V>(xs: seq<T>, wanted: T -> bool, f: T -> U, ys: seq<U>, g: T -> V,
      zs: seq<V>)
    requires Selects(xs, wanted, f, ys) && |zs| == |ys|
    requires forall i, k :: 0 <= i < |xs| && 0 <= k < |ys| && ys[k] == f(xs[i]) ==> zs[k] == g(xs[i])
    ensures Selects(xs, wanted, g, zs)
  {
    hide Count;
    forall i | 0 <= i < |xs| && wanted(xs[i]) ensures Stands(xs, wanted, i, g(xs[i]), zs) {
      assert Stands(xs, wanted, i, f(xs[i]), ys);
    }
  }

  /** The report of a successful import lists, in artifact order, the sections of known names in the
      expected versions with their tables and row counts, and all others with their reason. */
  lemma {:induction false} ImportReports(tables: Tables, sections: seq<SectionSpec>, expected: Expected, tree: Tree)
    requires ImportTree(tables, sections, expected, tree).Ok?
    ensures var report := ImportTree(tables, sections, expected, tree).value.1;
            && Selects(tree, (s: SectionUnit) => Takes(sections, expected, s.name, s.formatVersion),
                       (s: SectionUnit) => ImportedSection(s.name, Listing(s.tables)), report.imported)
            && Selects(tree, (s: SectionUnit) => !Takes(sections, expected, s.name, s.formatVersion),
                       (s: SectionUnit) => SkipEntry(sections, expected, s.name, s.formatVersion), report.skipped)
  {
    hide ImportTree, Taken, FitsOutright, RestoreAll, AllUnits, Passed, Takes, SkipEntry, Listing, Selects,
         ImportedList;
    ImportTreeExact(tables, sections, expected, tree);
    TakenIsTaken(sections, expected, tree);
    SelectsImage(tree, (s: SectionUnit) => Takes(sections, expected, s.name, s.formatVersion), s => s,
                 Taken(sections, expected, tree), (s: SectionUnit) => ImportedSection(s.name, Listing(s.tables)),
                 ImportedList(Taken(sections, expected, tree)));
  }
}
