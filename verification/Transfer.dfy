/** The import seen from outside: what its report says about the database, and the epoch boundary end
    to end on bytes. */
module Transfer {
  import opened Bytes
  import opened Codec
  import opened Artifact
  import opened ArtifactExact
  import opened Sqlite
  import opened Export
  import opened Import
  import opened States
  import opened Restoring
  import opened RoundTrip
  import opened Reader
  import opened Serializer

  // ----- the report counts rows

  function Counted(listed: seq<(Name, nat)>, name: Name): nat {
    if listed == [] then 0
    else Counted(listed[..|listed| - 1], name) + (if listed[|listed| - 1].0 == name then listed[|listed| - 1].1 else 0)
  }

  function Reported(imported: seq<ImportedSection>, name: Name): nat {
    if imported == [] then 0
    else Reported(imported[..|imported| - 1], name) + Counted(imported[|imported| - 1].tables, name)
  }

  /** `b` is `a` with `n` more rows at the end of the named table. */
  ghost predicate Grown(a: Tables, b: Tables, name: Name, n: nat) {
    && Info(b, name) == Info(a, name) && RowsOf(a, name) <= RowsOf(b, name)
    && |RowsOf(b, name)| == |RowsOf(a, name)| + n
  }

  lemma {:induction false} GrownTwice(a: Tables, b: Tables, c: Tables, name: Name, m: nat, n: nat)
    requires Grown(a, b, name, m) && Grown(b, c, name, n)
    ensures Grown(a, c, name, m + n)
  {
    hide Info, RowsOf;
  }

  lemma {:induction false} InsertGrows(tables: Tables, table: Name, names: seq<Name>, rows: seq<seq<Value>>, name: Name)
    requires InsertAll(tables, table, names, rows).Ok?
    ensures Grown(tables, InsertAll(tables, table, names, rows).value, name, if name == table then |rows| else 0)
  {
    hide NewRow, SameKey;
    if rows != [] {
      var init := rows[..|rows| - 1];
      InsertGrows(tables, table, names, init, name);
      var before, after := InsertAll(tables, table, names, init).value, InsertAll(tables, table, names, rows).value;
      assert Grown(before, after, name, if name == table then 1 else 0);
      GrownTwice(tables, before, after, name, if name == table then |init| else 0, if name == table then 1 else 0);
    }
  }

  lemma {:induction false} UnitsGrow(tables: Tables, spec: SectionSpec, units: seq<TableUnit>, name: Name)
    requires ImportUnits(tables, spec, units).Ok?
    ensures var (after, listed) := ImportUnits(tables, spec, units).value; Grown(tables, after, name,
            Counted(listed, name))
  {
    hide Grown, AdmitUnit, InsertAll;
    if units == [] {
      Unchanged(tables, name);
    } else {
      var init, u := units[..|units| - 1], units[|units| - 1];
      UnitsGrow(tables, spec, init, name);
      var (before, done) := ImportUnits(tables, spec, init).value;
      InsertGrows(before, u.name, u.columns, u.rows, name);
      var after := ImportUnits(tables, spec, units).value.0;
      GrownTwice(tables, before, after, name, Counted(done, name), if name == u.name then |u.rows| else 0);
      assert (done + [(u.name, |u.rows|)])[..|done|] == done;
    }
  }

  lemma {:induction false} Unchanged(tables: Tables, name: Name)
    ensures Grown(tables, tables, name, 0)
  {
  }

  /** Every table grows by exactly the rows the report credits to it, keeps the rows it had and its
      columns; a table the report does not credit is untouched. */
  lemma {:induction false} ReportConserves(tables: Tables, sections: seq<SectionSpec>, expected: Expected, tree: Tree,
      name: Name)
    requires ImportTree(tables, sections, expected, tree).Ok?
    ensures var (after, report) := ImportTree(tables, sections, expected, tree).value;
            Grown(tables, after, name, Reported(report.imported, name))
  {
    hide Grown, ImportUnits, FindSection, FirstMissing, Counted;
    if tree == [] {
      Unchanged(tables, name);
    } else {
      var init, s := tree[..|tree| - 1], tree[|tree| - 1];
      ReportConserves(tables, sections, expected, init, name);
      var (before, report) := ImportTree(tables, sections, expected, init).value;
      if SkipOf(sections, expected, s.name, s.formatVersion).None? {
        SectionGrows(tables, before, report, FindSection(sections, s.name).value, s, name);
      }
    }
  }

  lemma {:induction false} SectionGrows(tables: Tables, before: Tables, report: ImportReport, spec: SectionSpec,
      s: SectionUnit, name: Name)
    requires Grown(tables, before, name, Reported(report.imported, name)) && ImportSection(before, spec, s.tables).Ok?
    ensures var (after, imported) := ImportSection(before, spec, s.tables).value;
            Grown(tables, after, name, Reported(report.imported + [imported], name))
  {
    hide Grown, ImportUnits, FirstMissing, Counted;
    UnitsGrow(before, spec, s.tables, name);
    var (after, imported) := ImportSection(before, spec, s.tables).value;
    GrownTwice(tables, before, after, name, Reported(report.imported, name), Counted(imported.tables, name));
    assert (report.imported + [imported])[..|report.imported|] == report.imported;
  }

  // ----- bytes to bytes

  lemma {:induction false} ExportParses(s: Tables, sections: seq<SectionSpec>, ws: seq<Walked>)
    requires Sized(s, sections) && Walk(s, sections) == Ok(ws)
    ensures ParseArtifact(EncodeArtifact(TreeOf(ws))) == Ok(TreeOf(ws))
  {
    hide Sized, Walk, ParseArtifact, EncodeArtifact, TreeOf, TreeFits;
    TreeFitsExport(s, sections, ws);
    ParseArtifactExact(EncodeArtifact(TreeOf(ws)), TreeOf(ws));
  }

  /** Export one database, import the bytes into a fresh one, export that: nothing fails, and the
      bytes and the top hash are the same on both sides. */
  method CrossEpoch(h: Hash, source: Tables, sections: seq<SectionSpec>, target: Transaction)
    returns (sent: seq<byte>, report: ImportReport, received: seq<byte>, before: Digest, after: Digest)
    requires RegistryOk(sections) && Walk(source, sections).Ok? && Sized(source, sections) &&
             Ready(source, target.tables, sections)
    modifies target
    ensures received == sent && after == before
    ensures report.skipped == [] && |report.imported| == |sections|
    ensures forall name :: Grown(old(target.tables), target.tables, name, Reported(report.imported, name))
  {
    hide RegistryOk, Walk, Sized, Ready, RestoreAll, AllUnits, TreeOf, ParseArtifact, EncodeArtifact, ImportTree,
         ParsePreamble, Grown, ManifestOf;
    ghost var ws, initial := Walk(source, sections).value, target.tables;
    ExportParses(source, sections, ws);
    RoundTripExact(h, source, initial, sections, ws);
    WalkVisits(source, sections, ws);
    var exported := SerializeSnapshot(h, source, sections);
    sent, before := exported.value.0, exported.value.1.topHash;
    var imported, _ := ImportSnapshotExpecting(target, sections, RegistryVersions(sections), sent);
    report := imported.value;
    var again := SerializeSnapshot(h, target.tables, sections);
    received, after := again.value.0, again.value.1.topHash;
    forall name ensures Grown(initial, target.tables, name, Reported(report.imported, name)) {
      ReportConserves(initial, sections, RegistryVersions(sections), TreeOf(ws), name);
    }
  }
}
