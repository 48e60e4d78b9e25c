/** Exactly which artifacts an import accepts, and exactly what it then leaves, for arbitrary decoded
    artifacts and arbitrary target databases. */
module ImportExact {
  import opened Bytes
  import opened Codec
  import opened Artifact
  import opened Sorting
  import opened Sqlite
  import opened Export
  import opened Import
  import opened Restoring
  import opened Selection

  // ----- rows

  lemma {:induction false} LastRow(tables: Tables, u: TableUnit)
    requires u.name in tables && u.rows != []
    requires var init := u.(rows := u.rows[..|u.rows| - 1]);
             RowsInsertable(tables[u.name].columns, init) &&
               tables[u.name].rows == RebuiltRows(tables[u.name].columns, init)
    requires InsertNamed(tables, u.name, u.columns, u.rows[|u.rows| - 1]).Ok?
    ensures RowsInsertable(tables[u.name].columns, u)
  {
    hide SameKey, NewRow;
    var n, info := |u.rows| - 1, tables[u.name].columns;
    var init := u.(rows := u.rows[..n]);
    forall i, j | 0 <= i < j < |u.rows|
      ensures !SameKey(NewRow(info, u.columns, u.rows[i]), NewRow(info, u.columns, u.rows[j]), info)
    {
      if j < n {
        assert init.rows[i] == u.rows[i] && init.rows[j] == u.rows[j];
      } else {
        assert tables[u.name].rows[i] == NewRow(info, u.columns, u.rows[i]);
      }
    }
    forall i | 0 <= i < |u.rows| ensures |u.rows[i]| == |u.columns| {
      if i < n {
        assert init.rows[i] == u.rows[i];
      }
    }
  }

  /** The rows of a unit go in exactly when they have the right width and distinct keys. */
  lemma {:induction false} RowsExact(tables: Tables, u: TableUnit)
    requires u.name in tables && tables[u.name].rows == []
    ensures InsertAll(tables, u.name, u.columns, u.rows).Ok? <==> RowsInsertable(tables[u.name].columns, u)
    ensures InsertAll(tables, u.name, u.columns, u.rows).Ok? ==>
            InsertAll(tables, u.name, u.columns, u.rows).value == Restore(tables, u)
    decreases |u.rows|
  {
    hide RowsInsertable, RebuiltRows, InsertNamed;
    if u.rows == [] {
      NoRows(tables[u.name].columns, u);
    } else {
      var n := |u.rows| - 1;
      var init := u.(rows := u.rows[..n]);
      RowsExact(tables, init);
      if InsertAll(tables, u.name, u.columns, u.rows).Ok? {
        LastRow(Restore(tables, init), u);
      }
    }
    if RowsInsertable(tables[u.name].columns, u) {
      ImportRows(tables, u);
    }
  }

  lemma {:induction false} NoRows(info: seq<Column>, u: TableUnit)
    requires u.rows == []
    ensures RowsInsertable(info, u)
  {
  }

  // ----- units

  lemma {:induction false} ListedNames(done: seq<TableUnit>, name: Name)
    ensures Listed(Listing(done), name) <==> name in UnitNames(done)
  {
    hide Listing, UnitNames;
    if Listed(Listing(done), name) {
      var i :| 0 <= i < |Listing(done)| && Listing(done)[i].0 == name;
      assert UnitNames(done)[i] == name;
    }
    if name in UnitNames(done) {
      var i :| 0 <= i < |UnitNames(done)| && UnitNames(done)[i] == name;
      assert Listing(done)[i].0 == name;
    }
  }

  lemma {:induction false} KeyedTableExists(tables: Tables, spec: TableSpec)
    requires CanonicalColumns(Info(tables, spec.name), spec).Ok?
    ensures spec.name in tables
  {
  }

  /** A unit is imported exactly when the registry exports it, the section did not carry it before,
      its columns are the target's canonical ones, the target table is empty and the rows go in. */
  lemma {:induction false} UnitExact(tables: Tables, spec: SectionSpec, done: seq<TableUnit>, u: TableUnit)
    ensures ImportUnit(tables, spec, Listing(done), u).Ok? <==>
            Importable(tables, spec, u) && u.name !in UnitNames(done)
    ensures ImportUnit(tables, spec, Listing(done), u).Ok? ==>
            ImportUnit(tables, spec, Listing(done), u).value == Restore(tables, u)
  {
    hide RowsInsertable, CanonicalColumns, InsertAll, Restore, FindExported, Listing, UnitNames, Listed;
    ListedNames(done, u.name);
    var at := FindExportedExact(spec.tables, u.name);
    if FindExported(spec.tables, u.name).Some? &&
        CanonicalColumns(Info(tables, u.name), FindExported(spec.tables, u.name).value).Ok? {
      KeyedTableExists(tables, FindExported(spec.tables, u.name).value);
      if RowsOf(tables, u.name) == [] {
        RowsExact(tables, u);
      }
    }
  }

  /** Every unit is importable at its turn, and no table comes twice. */
  ghost predicate UnitsAccepted(tables: Tables, spec: SectionSpec, units: seq<TableUnit>) {
    && Distinct(UnitNames(units))
    && forall k :: 0 <= k < |units| ==> Importable(RestoreAll(tables, units[..k]), spec, units[k])
  }

  lemma {:induction false} AcceptedStep(tables: Tables, spec: SectionSpec, units: seq<TableUnit>)
    requires units != []
    ensures var n := |units| - 1;
            UnitsAccepted(tables, spec, units) <==>
            && UnitsAccepted(tables, spec, units[..n])
            && units[n].name !in UnitNames(units[..n]) && Importable(RestoreAll(tables, units[..n]), spec, units[n])
  {
    hide UnitNames, RestoreAll, Importable;
    var n := |units| - 1;
    var init := units[..n];
    NamesOfParts([], units, n);
    assert UnitNames(units)[..n] == UnitNames(init) && UnitNames(units)[n] == units[n].name;
    assert forall k :: 0 <= k < n ==> init[..k] == units[..k] && init[k] == units[k];
    assert Distinct(UnitNames(units)) <==> Distinct(UnitNames(init)) && units[n].name !in UnitNames(init) by {
      DistinctSnoc(UnitNames(units), n);
    }
    if UnitsAccepted(tables, spec, units) {
      assert Importable(RestoreAll(tables, units[..n]), spec, units[n]);
      forall k | 0 <= k < n ensures Importable(RestoreAll(tables, init[..k]), spec, init[k]) {
        assert Importable(RestoreAll(tables, units[..k]), spec, units[k]);
      }
    }
  }

  lemma {:induction false} UnitsExact(tables: Tables, spec: SectionSpec, units: seq<TableUnit>)
    ensures ImportUnits(tables, spec, units).Ok? <==> UnitsAccepted(tables, spec, units)
    ensures ImportUnits(tables, spec, units).Ok? ==>
            ImportUnits(tables, spec, units).value == (RestoreAll(tables, units), Listing(units))
  {
    hide UnitsAccepted, Importable, ImportUnit, UnitNames, Listing, Restore;
    if units == [] {
      NothingAccepted(tables, spec);
      assert Listing(units) == [];
    } else {
      var n := |units| - 1;
      var init, u := units[..n], units[n];
      UnitsExact(tables, spec, init);
      UnitExact(RestoreAll(tables, init), spec, init, u);
      AcceptedStep(tables, spec, units);
      assert Listing(init) + [(u.name, |u.rows|)] == Listing(units);
    }
  }

  lemma {:induction false} NothingAccepted(tables: Tables, spec: SectionSpec)
    ensures UnitsAccepted(tables, spec, [])
  {
  }

  // ----- sections

  /** The section's units are accepted, and they are all of its exported tables. */
  ghost predicate SectionAccepted(tables: Tables, sections: seq<SectionSpec>, s: SectionUnit) {
    && FindSection(sections, s.name).Some?
    && (var spec := FindSection(sections, s.name).value;
        && UnitsAccepted(tables, spec, s.tables)
        && forall j :: 0 <= j < |spec.tables| && spec.tables[j].role == Exported ==>
            spec.tables[j].name in UnitNames(s.tables))
  }

  /** The completeness check passes exactly when every exported table was carried. */
  lemma {:induction false} MissingExact(specs: seq<TableSpec>, units: seq<TableUnit>)
    ensures FirstMissing(specs, Listing(units)).None?
       <==> forall j :: 0 <= j < |specs| && specs[j].role == Exported ==> specs[j].name in UnitNames(units)
  {
    hide Listing, UnitNames, Listed;
    if specs != [] {
      MissingExact(specs[1..], units);
      ListedNames(units, specs[0].name);
      assert forall j :: 0 <= j < |specs| - 1 ==> specs[1..][j] == specs[j + 1];
      if forall j :: 0 <= j < |specs| - 1 && specs[1..][j].role == Exported ==> specs[1..][j].name in UnitNames(units) {
        forall j | 0 < j < |specs| && specs[j].role == Exported ensures specs[j].name in UnitNames(units) {
          assert specs[j] == specs[1..][j - 1];
        }
      }
    }
  }

  lemma {:induction false} SectionExact(tables: Tables, sections: seq<SectionSpec>, s: SectionUnit)
    requires FindSection(sections, s.name).Some?
    ensures var r := ImportSection(tables, FindSection(sections, s.name).value, s.tables);
            && (r.Ok? <==> SectionAccepted(tables, sections, s))
            && (r.Ok? ==> r.value == (RestoreAll(tables, s.tables), ImportedSection(s.name, Listing(s.tables))))
  {
    hide UnitsAccepted, ImportUnits, RestoreAll, Listing, UnitNames, FirstMissing, FindSection;
    var spec := FindSection(sections, s.name).value;
    var at := FindSectionExact(sections, s.name);
    UnitsExact(tables, spec, s.tables);
    MissingExact(spec.tables, s.tables);
  }

  // ----- which sections are imported

  /** The sections an import takes, in artifact order. */
  function Taken(sections: seq<SectionSpec>, expected: Expected, tree: Tree): Tree {
    if tree == [] then [] else
    var n := |tree| - 1;
    Taken(sections, expected, tree[..n]) +
      (if SkipOf(sections, expected, tree[n].name, tree[n].formatVersion).None? then [tree[n]] else [])
  }

  /** The sections it passes over, with the reason, in artifact order. */
  function Passed(sections: seq<SectionSpec>, expected: Expected, tree: Tree): seq<SkippedSection> {
    if tree == [] then [] else
    var n := |tree| - 1;
    Passed(sections, expected, tree[..n])
    + match SkipOf(sections, expected, tree[n].name, tree[n].formatVersion)
      case None => []
      case Some(reason) => [SkippedSection(tree[n].name, reason)]
  }

  /** The registry knows the section, and the caller expects its very version. */
  ghost predicate Takes(sections: seq<SectionSpec>, expected: Expected, name: Name, version: u32) {
    Registered(sections, name) && name in expected && expected[name] == version
  }

  /** What a report says of a section that is not taken. */
  ghost function SkipEntry(sections: seq<SectionSpec>, expected: Expected, name: Name, version: u32): SkippedSection {
    SkippedSection(name,
      if Registered(sections, name) && name in expected then FormatVersionMismatch(version, expected[name])
      else UnknownSection)
  }

  /** Of any artifact, the sections of known names in the expected versions are taken, all others are
      passed over with their reason, both in artifact order. */
  lemma {:induction false} TakenIsTaken(sections: seq<SectionSpec>, expected: Expected, tree: Tree)
    ensures Selects(tree, (s: SectionUnit) => Takes(sections, expected, s.name, s.formatVersion), s => s,
                    Taken(sections, expected, tree))
    ensures Selects(tree, (s: SectionUnit) => !Takes(sections, expected, s.name, s.formatVersion),
                    (s: SectionUnit) => SkipEntry(sections, expected, s.name, s.formatVersion),
                    Passed(sections, expected, tree))
  {
    hide Takes, SkipEntry, SkipOf, Selects;
    var takes := (s: SectionUnit) => Takes(sections, expected, s.name, s.formatVersion);
    var skips := (s: SectionUnit) => !Takes(sections, expected, s.name, s.formatVersion);
    var entry := (s: SectionUnit) => SkipEntry(sections, expected, s.name, s.formatVersion);
    if tree == [] {
      SelectsEmpty(takes, (s: SectionUnit) => s);
      SelectsEmpty(skips, entry);
    } else {
      var n := |tree| - 1;
      TakenIsTaken(sections, expected, tree[..n]);
      SelectsSnoc(tree[..n], takes, s => s, Taken(sections, expected, tree[..n]), tree[n]);
      SelectsSnoc(tree[..n], skips, entry, Passed(sections, expected, tree[..n]), tree[n]);
      SkipIs(sections, expected, tree[n].name, tree[n].formatVersion);
      assert tree == tree[..n] + [tree[n]];
    }
  }

  lemma {:induction false} SkipIs(sections: seq<SectionSpec>, expected: Expected, name: Name, version: u32)
    ensures SkipOf(sections, expected, name, version) ==
            if Takes(sections, expected, name, version) then None
            else Some(SkipEntry(sections, expected, name, version).reason)
    ensures SkipEntry(sections, expected, name, version).name == name
  {
    hide SkipOf;
    SkipExact(sections, expected, name, version);
  }

  lemma {:induction false} TakenHas(sections: seq<SectionSpec>, expected: Expected, tree: Tree, s: SectionUnit)
    ensures s in Taken(sections, expected, tree) <==>
            s in tree && Takes(sections, expected, s.name, s.formatVersion)
  {
    hide Takes, Selects;
    TakenIsTaken(sections, expected, tree);
    SelectsHas(tree, (x: SectionUnit) => Takes(sections, expected, x.name, x.formatVersion), x => x,
               Taken(sections, expected, tree), s);
  }

  /** The section headers alone tell what an import of the artifact takes and what it reports as
      passed over. */
  lemma {:induction false} HeadersDecide(sections: seq<SectionSpec>, expected: Expected, tree: Tree)
    ensures Selects(HeaderPairs(tree), (h: (Name, u32)) => Takes(sections, expected, h.0, h.1), h => h,
                    HeaderPairs(Taken(sections, expected, tree)))
    ensures Selects(HeaderPairs(tree), (h: (Name, u32)) => !Takes(sections, expected, h.0, h.1),
                    (h: (Name, u32)) => SkipEntry(sections, expected, h.0, h.1), Passed(sections, expected, tree))
  {
    hide Takes, SkipEntry, SkipOf, HeaderPairs, Selects;
    var takes := (h: (Name, u32)) => Takes(sections, expected, h.0, h.1);
    var skips := (h: (Name, u32)) => !Takes(sections, expected, h.0, h.1);
    var entry := (h: (Name, u32)) => SkipEntry(sections, expected, h.0, h.1);
    var headers := HeaderPairs(tree);
    if tree == [] {
      assert headers == [];
      SelectsEmpty(takes, (h: (Name, u32)) => h);
      SelectsEmpty(skips, entry);
    } else {
      var n := |tree| - 1;
      var taken := Taken(sections, expected, tree[..n]);
      HeadersDecide(sections, expected, tree[..n]);
      SelectsSnoc(HeaderPairs(tree[..n]), takes, h => h, HeaderPairs(taken), headers[n]);
      SelectsSnoc(HeaderPairs(tree[..n]), skips, entry, Passed(sections, expected, tree[..n]), headers[n]);
      SkipIs(sections, expected, tree[n].name, tree[n].formatVersion);
      assert headers == HeaderPairs(tree[..n]) + [headers[n]];
      assert HeaderPairs(taken + [tree[n]]) == HeaderPairs(taken) + [headers[n]];
      assert taken + [] == taken && HeaderPairs(taken) + [] == HeaderPairs(taken);
    }
  }

  /** Nothing is reported as passed over exactly when every section is taken. */
  lemma {:induction false} AllTaken(sections: seq<SectionSpec>, expected: Expected, tree: Tree)
    ensures Passed(sections, expected, tree) == [] <==>
            forall i :: 0 <= i < |tree| ==> Takes(sections, expected, tree[i].name, tree[i].formatVersion)
    ensures Passed(sections, expected, tree) == [] ==> Taken(sections, expected, tree) == tree
  {
    hide Takes, SkipEntry, Selects, Taken, Passed;
    TakenIsTaken(sections, expected, tree);
    SelectsNothing(tree, (s: SectionUnit) => !Takes(sections, expected, s.name, s.formatVersion),
                   (s: SectionUnit) => SkipEntry(sections, expected, s.name, s.formatVersion),
                   Passed(sections, expected, tree));
    if Passed(sections, expected, tree) == [] {
      SelectsEverything(tree, (s: SectionUnit) => Takes(sections, expected, s.name, s.formatVersion), s => s,
                        Taken(sections, expected, tree));
    }
  }

  /** Skipping is filtering: an import does to the database, and reports as imported, exactly what
      importing the taken sections alone would; the skip list is the rest of the artifact. */
  lemma {:induction false} SkippingIsFiltering(tables: Tables, sections: seq<SectionSpec>, expected: Expected,
      tree: Tree)
    ensures var taken, passed := Taken(sections, expected, tree), Passed(sections, expected, tree);
            var whole := ImportTree(tables, sections, expected, tree);
            match ImportTree(tables, sections, expected, taken)
            case Err(e) => whole == Err(e)
            case Ok((after, report)) =>
              whole == Ok((after, ImportReport(report.imported, passed))) && report.skipped == []
  {
    hide SkipOf, ImportSection, FindSection;
    if tree != [] {
      var init, s := tree[..|tree| - 1], tree[|tree| - 1];
      SkippingIsFiltering(tables, sections, expected, init);
      var taken := Taken(sections, expected, init);
      if SkipOf(sections, expected, s.name, s.formatVersion).None? {
        assert (taken + [s])[..|taken + [s]| - 1] == taken;
        assert Passed(sections, expected, tree) == Passed(sections, expected, init);
      } else {
        assert Taken(sections, expected, tree) == taken;
      }
    }
  }

  // ----- the whole artifact

  /** Every taken section is accepted at its turn. */
  ghost predicate ArtifactAccepted(tables: Tables, sections: seq<SectionSpec>, taken: Tree) {
    forall i :: 0 <= i < |taken| ==> SectionAccepted(RestoreAll(tables, AllUnits(taken[..i])), sections, taken[i])
  }

  lemma {:induction false} ArtifactStep(tables: Tables, sections: seq<SectionSpec>, taken: Tree)
    requires taken != []
    ensures var n := |taken| - 1;
            ArtifactAccepted(tables, sections, taken) <==>
            ArtifactAccepted(tables, sections, taken[..n]) &&
              SectionAccepted(RestoreAll(tables, AllUnits(taken[..n])), sections, taken[n])
  {
    hide RestoreAll, AllUnits, SectionAccepted;
    var n := |taken| - 1;
    var init := taken[..n];
    assert forall i :: 0 <= i < n ==> init[..i] == taken[..i] && init[i] == taken[i];
    if ArtifactAccepted(tables, sections, taken) {
      assert SectionAccepted(RestoreAll(tables, AllUnits(taken[..n])), sections, taken[n]);
      forall i | 0 <= i < n ensures SectionAccepted(RestoreAll(tables, AllUnits(init[..i])), sections, init[i]) {
        assert SectionAccepted(RestoreAll(tables, AllUnits(taken[..i])), sections, taken[i]);
      }
    }
  }

  lemma {:induction false} TakenExact(tables: Tables, sections: seq<SectionSpec>, expected: Expected, taken: Tree)
    requires forall i :: 0 <= i < |taken| ==> SkipOf(sections, expected, taken[i].name, taken[i].formatVersion).None?
    ensures var r := ImportTree(tables, sections, expected, taken);
            && (r.Ok? <==> ArtifactAccepted(tables, sections, taken))
            && (r.Ok? ==> r.value == (RestoreAll(tables, AllUnits(taken)), ImportReport(ImportedList(taken), [])))
  {
    hide RestoreAll, SectionAccepted, ImportSection, Listing, FindSection, ImportedList, ArtifactAccepted;
    if taken == [] {
      RestoreNothing(tables);
      NoSectionAccepted(tables, sections);
      assert ImportedList(taken) == [];
    } else {
      var n := |taken| - 1;
      var init, s := taken[..n], taken[n];
      TakenExact(tables, sections, expected, init);
      var before := RestoreAll(tables, AllUnits(init));
      SectionExact(before, sections, s);
      RestoreAppend(tables, AllUnits(init), s.tables);
      ArtifactStep(tables, sections, taken);
      assert ImportedList(init) + [ImportedSection(s.name, Listing(s.tables))] == ImportedList(taken);
    }
  }

  lemma {:induction false} NoSectionAccepted(tables: Tables, sections: seq<SectionSpec>)
    ensures ArtifactAccepted(tables, sections, [])
  {
  }

  /** Success means that every taken section is accepted at its turn. */
  lemma {:induction false} ImportTreeInTurn(tables: Tables, sections: seq<SectionSpec>, expected: Expected, tree: Tree)
    ensures var r, taken := ImportTree(tables, sections, expected, tree), Taken(sections, expected, tree);
            && (r.Ok? <==> ArtifactAccepted(tables, sections, taken))
            && (r.Ok? ==>
                r.value == (RestoreAll(tables, AllUnits(taken)),
                  ImportReport(ImportedList(taken), Passed(sections, expected, tree))))
  {
    hide RestoreAll, AllUnits, ArtifactAccepted, ImportTree, ImportedList, SkipOf, Passed, Taken;
    var taken := Taken(sections, expected, tree);
    SkippingIsFiltering(tables, sections, expected, tree);
    forall i | 0 <= i < |taken| ensures SkipOf(sections, expected, taken[i].name, taken[i].formatVersion).None? {
      TakenHas(sections, expected, tree, taken[i]);
      SkipIs(sections, expected, taken[i].name, taken[i].formatVersion);
    }
    TakenExact(tables, sections, expected, taken);
  }

  // ----- the same condition on the database as it was before the import

  /** No unit of that name brings rows. */
  ghost predicate NoRowsFor(units: seq<TableUnit>, name: Name) {
    forall m :: 0 <= m < |units| && units[m].name == name ==> units[m].rows == []
  }

  /** The units' tables are there and empty, and a table that comes again came without rows. */
  ghost predicate Quiet(tables: Tables, units: seq<TableUnit>) {
    && (forall m :: 0 <= m < |units| ==> units[m].name in tables && RowsOf(tables, units[m].name) == [])
    && (forall l, m :: 0 <= l < m < |units| && units[l].name == units[m].name ==> units[l].rows == [])
  }

  lemma {:induction false} EmptyAfter(tables: Tables, units: seq<TableUnit>, name: Name)
    requires Quiet(tables, units)
    ensures RowsOf(RestoreAll(tables, units), name) == [] <==> RowsOf(tables, name) == [] && NoRowsFor(units, name)
  {
    hide RebuiltRows;
    if units != [] {
      var n := |units| - 1;
      var init, u := units[..n], units[n];
      EmptyAfter(tables, init, name);
      RestoreKeepsSchema(tables, init, u.name);
      RebuiltLength(Info(tables, u.name), u);
      assert forall m :: 0 <= m < n ==> init[m] == units[m];
      assert NoRowsFor(units, name) <==> NoRowsFor(init, name) && (u.name == name ==> u.rows == []) by {
        if NoRowsFor(init, name) && (u.name == name ==> u.rows == []) {
          forall m | 0 <= m < |units| && units[m].name == name ensures units[m].rows == [] {
            if m < n { assert init[m] == units[m]; }
          }
        }
      }
    }
  }

  lemma {:induction false} MatchesAfter(tables: Tables, prev: seq<TableUnit>, spec: SectionSpec, u: TableUnit)
    ensures UnitMatches(RestoreAll(tables, prev), spec, u) <==> UnitMatches(tables, spec, u)
  {
    hide RestoreAll, CanonicalColumns, RowsInsertable, FindExported;
    RestoreKeepsSchema(tables, prev, u.name);
  }

  /** A section's units, with distinct names, do not get in each other's way. */
  lemma {:induction false} UnitsAtOnce(tables: Tables, spec: SectionSpec, units: seq<TableUnit>)
    ensures UnitsAccepted(tables, spec, units)
       <==> Distinct(UnitNames(units)) && forall k :: 0 <= k < |units| ==> Importable(tables, spec, units[k])
  {
    hide RestoreAll, UnitMatches, UnitNames, RowsOf;
    if Distinct(UnitNames(units)) {
      forall k | 0 <= k < |units|
        ensures Importable(RestoreAll(tables, units[..k]), spec, units[k]) <==> Importable(tables, spec, units[k])
      {
        MatchesAfter(tables, units[..k], spec, units[k]);
        NamesOfParts([], units, k);
        assert units[k].name !in UnitNames(units[..k]) by {
          assert forall i :: 0 <= i < k ==> UnitNames(units)[i] != UnitNames(units)[k];
        }
        RestoreUntouched(tables, units[..k], units[k].name);
      }
    }
  }

  /** A section whose units could all go into the database as it is. */
  ghost predicate SectionFitting(tables: Tables, sections: seq<SectionSpec>, s: SectionUnit) {
    && FindSection(sections, s.name).Some?
    && (var spec := FindSection(sections, s.name).value;
        && Distinct(UnitNames(s.tables))
        && (forall k :: 0 <= k < |s.tables| ==> Importable(tables, spec, s.tables[k]))
        && forall j :: 0 <= j < |spec.tables| && spec.tables[j].role == Exported ==>
            spec.tables[j].name in UnitNames(s.tables))
  }

  lemma {:induction false} SectionAfter(tables: Tables, prev: seq<TableUnit>, sections: seq<SectionSpec>,
      s: SectionUnit)
    requires Quiet(tables, prev)
    ensures SectionAccepted(RestoreAll(tables, prev), sections, s)
       <==> SectionFitting(tables, sections, s) && forall k :: 0 <= k < |s.tables| ==> NoRowsFor(prev, s.tables[k].name)
  {
    hide RestoreAll, UnitMatches, UnitNames, Distinct, UnitsAccepted, Quiet, NoRowsFor, FindSection, RowsOf;
    if FindSection(sections, s.name).Some? {
      var spec := FindSection(sections, s.name).value;
      UnitsAtOnce(RestoreAll(tables, prev), spec, s.tables);
      forall k | 0 <= k < |s.tables|
        ensures Importable(RestoreAll(tables, prev), spec, s.tables[k])
           <==> Importable(tables, spec, s.tables[k]) && NoRowsFor(prev, s.tables[k].name)
      {
        MatchesAfter(tables, prev, spec, s.tables[k]);
        EmptyAfter(tables, prev, s.tables[k].name);
      }
    }
  }

  lemma {:induction false} QuietAppend(tables: Tables, prev: seq<TableUnit>, units: seq<TableUnit>)
    requires Quiet(tables, prev) && Distinct(UnitNames(units))
    requires forall k :: 0 <= k < |units| ==>
               units[k].name in tables && RowsOf(tables, units[k].name) == [] && NoRowsFor(prev, units[k].name)
    ensures Quiet(tables, prev + units)
  {
    hide RowsOf, UnitNames;
    var all := prev + units;
    assert forall i, j :: 0 <= i < j < |units| ==> UnitNames(units)[i] != UnitNames(units)[j];
    forall l, m | 0 <= l < m < |all| && all[l].name == all[m].name ensures all[l].rows == [] {
      if l < |prev| <= m {
        assert NoRowsFor(prev, units[m - |prev|].name);
      }
    }
  }

  /** No unit of that name in these sections brings rows. */
  ghost predicate NoRowsIn(tree: Tree, name: Name) {
    forall i, k :: 0 <= i < |tree| && 0 <= k < |tree[i].tables| ==>
      (tree[i].tables[k].name == name ==> tree[i].tables[k].rows == [])
  }

  /** On the database as it is: every taken section fits, and a table that an earlier section brought
      already came without rows. */
  ghost predicate FitsOutright(tables: Tables, sections: seq<SectionSpec>, taken: Tree) {
    && (forall i :: 0 <= i < |taken| ==> SectionFitting(tables, sections, taken[i]))
    && (forall j, l :: 0 <= j < |taken| && 0 <= l < |taken[j].tables| ==>
          NoRowsIn(taken[..j], taken[j].tables[l].name))
  }

  lemma {:induction false} NoRowsInTree(tree: Tree, name: Name)
    ensures NoRowsFor(AllUnits(tree), name) <==> NoRowsIn(tree, name)
  {
    if NoRowsFor(AllUnits(tree), name) {
      forall i, k | 0 <= i < |tree| && 0 <= k < |tree[i].tables|
        ensures tree[i].tables[k].name == name ==> tree[i].tables[k].rows == []
      {
        var m := AllUnitsContains(tree, i, k);
      }
    }
    if NoRowsIn(tree, name) {
      NoRowsFromTree(tree, name);
    }
  }

  lemma {:induction false} NoRowsFromTree(tree: Tree, name: Name)
    requires NoRowsIn(tree, name)
    ensures NoRowsFor(AllUnits(tree), name)
  {
    if tree != [] {
      var n := |tree| - 1;
      NoRowsFromTree(tree[..n], name);
      forall m | 0 <= m < |AllUnits(tree)| && AllUnits(tree)[m].name == name ensures AllUnits(tree)[m].rows == [] {
        if m >= |AllUnits(tree[..n])| {
          assert AllUnits(tree)[m] == tree[n].tables[m - |AllUnits(tree[..n])|];
        }
      }
    }
  }

  lemma {:induction false} FitsStep(tables: Tables, sections: seq<SectionSpec>, taken: Tree)
    requires taken != []
    ensures var n := |taken| - 1;
            FitsOutright(tables, sections, taken) <==>
            && FitsOutright(tables, sections, taken[..n]) && SectionFitting(tables, sections, taken[n])
            && forall l :: 0 <= l < |taken[n].tables| ==> NoRowsFor(AllUnits(taken[..n]), taken[n].tables[l].name)
  {
    hide SectionFitting, NoRowsFor, NoRowsIn, AllUnits;
    var n := |taken| - 1;
    var init, s := taken[..n], taken[n];
    assert forall i :: 0 <= i < n ==> init[i] == taken[i] && init[..i] == taken[..i];
    forall l | 0 <= l < |s.tables|
      ensures NoRowsFor(AllUnits(init), s.tables[l].name) <==> NoRowsIn(init, s.tables[l].name)
    {
      NoRowsInTree(init, s.tables[l].name);
    }
    if FitsOutright(tables, sections, taken) {
      forall j, l | 0 <= j < |init| && 0 <= l < |init[j].tables| ensures NoRowsIn(init[..j], init[j].tables[l].name) {
        assert NoRowsIn(taken[..j], taken[j].tables[l].name);
      }
    }
  }

  /** Acceptance at each section's turn is acceptance by the database as it was. */
  lemma {:induction false} AcceptedOutright(tables: Tables, sections: seq<SectionSpec>, taken: Tree)
    ensures ArtifactAccepted(tables, sections, taken) <==> FitsOutright(tables, sections, taken)
    ensures ArtifactAccepted(tables, sections, taken) ==> Quiet(tables, AllUnits(taken))
  {
    hide ArtifactAccepted, FitsOutright, SectionAccepted, Quiet, NoRowsFor, RestoreAll, UnitMatches, Distinct,
         UnitNames, RowsOf, FindSection;
    if taken == [] {
      NothingFits(tables, sections);
    } else {
      var n := |taken| - 1;
      AcceptedOutright(tables, sections, taken[..n]);
      ArtifactStep(tables, sections, taken);
      FitsStep(tables, sections, taken);
      if ArtifactAccepted(tables, sections, taken[..n]) {
        SectionAfter(tables, AllUnits(taken[..n]), sections, taken[n]);
        if SectionAccepted(RestoreAll(tables, AllUnits(taken[..n])), sections, taken[n]) {
          FittingNames(tables, sections, taken[n]);
          QuietAppend(tables, AllUnits(taken[..n]), taken[n].tables);
        }
      }
    }
  }

  lemma {:induction false} FittingNames(tables: Tables, sections: seq<SectionSpec>, s: SectionUnit)
    requires SectionFitting(tables, sections, s)
    ensures Distinct(UnitNames(s.tables))
    ensures forall k :: 0 <= k < |s.tables| ==> s.tables[k].name in tables && RowsOf(tables, s.tables[k].name) == []
  {
    hide RowsInsertable, CanonicalColumns, FindExported, FindSection, UnitNames;
    var spec := FindSection(sections, s.name).value;
    assert forall k :: 0 <= k < |s.tables| ==> Importable(tables, spec, s.tables[k]);
  }

  lemma {:induction false} NothingFits(tables: Tables, sections: seq<SectionSpec>)
    ensures ArtifactAccepted(tables, sections, []) && FitsOutright(tables, sections, []) && Quiet(tables, AllUnits([]))
  {
  }

  /** An import of any decoded artifact into any database succeeds exactly when each section it takes
      fits the database as it is, and no table that brings rows is brought again; then the database is
      the old one with the taken units' rows in their tables, and the report lists the taken sections
      with their row counts and the others with the reason, all in artifact order. */
  lemma {:induction false} ImportTreeExact(tables: Tables, sections: seq<SectionSpec>, expected: Expected, tree: Tree)
    ensures var r, taken := ImportTree(tables, sections, expected, tree), Taken(sections, expected, tree);
            && (r.Ok? <==> FitsOutright(tables, sections, taken))
            && (r.Ok? ==>
                  r.value == (RestoreAll(tables, AllUnits(taken)),
                              ImportReport(ImportedList(taken), Passed(sections, expected, tree))))
  {
    hide RestoreAll, AllUnits, ArtifactAccepted, FitsOutright, ImportTree, ImportedList, Passed, Taken;
    ImportTreeInTurn(tables, sections, expected, tree);
    AcceptedOutright(tables, sections, Taken(sections, expected, tree));
  }
}
