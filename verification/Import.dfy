/** What importing a decoded artifact does to a database: the meaning of the importer, without
    the bytes. */
module Import {
  import opened Bytes
  import opened Codec
  import opened Artifact
  import opened Sqlite
  import opened Export

  datatype ImportedSection = ImportedSection(name: Name, tables: seq<(Name, nat)>)

  datatype SkipReason = UnknownSection | FormatVersionMismatch(artifact: u32, registry: u32)

  datatype SkippedSection = SkippedSection(name: Name, reason: SkipReason)

  datatype ImportReport = ImportReport(imported: seq<ImportedSection>, skipped: seq<SkippedSection>)

  /** The section versions a caller is ready to import. */
  type Expected = map<Name, u32>

  // ----- registry lookups

  function FindSection(sections: seq<SectionSpec>, name: Name): Option<SectionSpec> {
    if sections == [] then None
    else if sections[0].name == name then Some(sections[0])
    else FindSection(sections[1..], name)
  }

  function FindExported(specs: seq<TableSpec>, name: Name): Option<TableSpec> {
    if specs == [] then None
    else if specs[0].role == Exported && specs[0].name == name then Some(specs[0])
    else FindExported(specs[1..], name)
  }

  /** Why a section is passed over rather than imported. */
  function SkipOf(sections: seq<SectionSpec>, expected: Expected, name: Name, formatVersion: u32): Option<SkipReason> {
    if FindSection(sections, name).None? || name !in expected then Some(UnknownSection)
    else if expected[name] != formatVersion then Some(FormatVersionMismatch(formatVersion, expected[name]))
    else None
  }

  predicate Listed(done: seq<(Name, nat)>, name: Name) {
    exists i :: 0 <= i < |done| && done[i].0 == name
  }

  /** The first exported table of the section that the artifact did not carry. */
  function FirstMissing(specs: seq<TableSpec>, done: seq<(Name, nat)>): Option<Name> {
    if specs == [] then None
    else if specs[0].role == Exported && !Listed(done, specs[0].name) then Some(specs[0].name)
    else FirstMissing(specs[1..], done)
  }

  // ----- import of one unit, one section, all sections

  /** Everything checked before the first row of a unit is inserted. */
  function AdmitUnit(tables: Tables, spec: SectionSpec, done: seq<(Name, nat)>, name: Name,
      columns: seq<Name>): Result<()> {
    match FindExported(spec.tables, name)
    case None => Err(SchemaMismatch(spec.name, name, NotExported))
    case Some(tableSpec) =>
      if Listed(done, name) then Err(SchemaMismatch(spec.name, name, DuplicateUnit)) else
      var (canonical, _) :- CanonicalColumns(Info(tables, name), tableSpec);
      if canonical != columns then Err(SchemaMismatch(spec.name, name, ColumnsDiffer))
      else if RowsOf(tables, name) != [] then Err(TargetNotEmpty(name))
      else if columns == [] then Err(Db)
      else Ok(())
  }

  function ImportUnit(tables: Tables, spec: SectionSpec, done: seq<(Name, nat)>, unit: TableUnit): Result<Tables> {
    var _ :- AdmitUnit(tables, spec, done, unit.name, unit.columns);
    InsertAll(tables, unit.name, unit.columns, unit.rows)
  }

  function ImportUnits(tables: Tables, spec: SectionSpec, units: seq<TableUnit>): Result<(Tables, seq<(Name, nat)>)> {
    if units == [] then Ok((tables, [])) else
    var (before, done) :- ImportUnits(tables, spec, units[..|units| - 1]);
    var unit := units[|units| - 1];
    var after :- ImportUnit(before, spec, done, unit);
    Ok((after, done + [(unit.name, |unit.rows|)]))
  }

  function ImportSection(tables: Tables, spec: SectionSpec, units: seq<TableUnit>): Result<(Tables, ImportedSection)> {
    var (after, done) :- ImportUnits(tables, spec, units);
    match FirstMissing(spec.tables, done)
    case Some(table) => Err(SchemaMismatch(spec.name, table, MissingFromArtifact))
    case None => Ok((after, ImportedSection(spec.name, done)))
  }

  /** One section of the artifact: imported, or passed over with a report. */
  function ImportOne(tables: Tables, sections: seq<SectionSpec>, expected: Expected, report: ImportReport,
      s: SectionUnit)
    : Result<(Tables, ImportReport)>
  {
    match SkipOf(sections, expected, s.name, s.formatVersion)
    case Some(reason) => Ok((tables, report.(skipped := report.skipped + [SkippedSection(s.name, reason)])))
    case None =>
      var (after, imported) :- ImportSection(tables, FindSection(sections, s.name).value, s.tables);
      Ok((after, report.(imported := report.imported + [imported])))
  }

  function ImportTree(tables: Tables, sections: seq<SectionSpec>, expected: Expected, tree: Tree)
    : Result<(Tables, ImportReport)>
  {
    if tree == [] then Ok((tables, ImportReport([], []))) else
    var (before, report) :- ImportTree(tables, sections, expected, tree[..|tree| - 1]);
    ImportOne(before, sections, expected, report, tree[|tree| - 1])
  }

  /** `import_snapshot`: the registry's own versions are the expected ones (the last entry of a
      name wins). */
  function RegistryVersions(sections: seq<SectionSpec>): Expected {
    if sections == [] then map[]
    else
      var n := |sections| - 1;
      RegistryVersions(sections[..n])[sections[n].name := sections[n].formatVersion]
  }

  /** What `read_section_headers` lists of a section. */
  function HeaderPair(s: SectionUnit): (Name, u32) { (s.name, s.formatVersion) }

  function HeaderPairs(tree: Tree): (pairs: seq<(Name, u32)>)
    ensures |pairs| == |tree| && forall i :: 0 <= i < |tree| ==> pairs[i] == HeaderPair(tree[i])
  {
    if tree == [] then [] else [HeaderPair(tree[0])] + HeaderPairs(tree[1..])
  }

  // ----- what the lookups find

  /** The first section of that name, if there is one. */
  lemma {:induction false} FindSectionExact(sections: seq<SectionSpec>, name: Name) returns (i: nat)
    ensures i <= |sections| && forall j :: 0 <= j < i ==> sections[j].name != name
    ensures i < |sections| ==> sections[i].name == name
    ensures FindSection(sections, name) == if i < |sections| then Some(sections[i]) else None
  {
    if sections == [] || sections[0].name == name {
      i := 0;
    } else {
      var k := FindSectionExact(sections[1..], name);
      i := k + 1;
    }
  }

  /** The first exported table of that name, if there is one. */
  lemma {:induction false} FindExportedExact(specs: seq<TableSpec>, name: Name) returns (i: nat)
    ensures i <= |specs| && forall j :: 0 <= j < i ==> !(specs[j].role == Exported && specs[j].name == name)
    ensures i < |specs| ==> specs[i].role == Exported && specs[i].name == name
    ensures FindExported(specs, name) == if i < |specs| then Some(specs[i]) else None
  {
    if specs == [] || (specs[0].role == Exported && specs[0].name == name) {
      i := 0;
    } else {
      var k := FindExportedExact(specs[1..], name);
      i := k + 1;
    }
  }

  /** The first exported table that is not listed, if there is one. */
  lemma {:induction false} FirstMissingExact(specs: seq<TableSpec>, done: seq<(Name, nat)>) returns (i: nat)
    ensures i <= |specs| && forall j :: 0 <= j < i && specs[j].role == Exported ==> Listed(done, specs[j].name)
    ensures i < |specs| ==> specs[i].role == Exported && !Listed(done, specs[i].name)
    ensures FirstMissing(specs, done) == if i < |specs| then Some(specs[i].name) else None
  {
    if specs == [] || (specs[0].role == Exported && !Listed(done, specs[0].name)) {
      i := 0;
    } else {
      var k := FirstMissingExact(specs[1..], done);
      i := k + 1;
    }
  }

  /** A registry expects the version of the last section of that name, and nothing of other names. */
  lemma {:induction false} RegistryVersionsExact(sections: seq<SectionSpec>, name: Name) returns (i: int)
    ensures -1 <= i < |sections| && forall j :: i < j < |sections| ==> sections[j].name != name
    ensures name in RegistryVersions(sections) <==> i >= 0
    ensures i >= 0 ==>
            sections[i].name == name && RegistryVersions(sections)[name] == sections[i].formatVersion
  {
    var n := |sections| - 1;
    if sections == [] || sections[n].name == name {
      i := n;
    } else {
      i := RegistryVersionsExact(sections[..n], name);
    }
  }

  ghost predicate Registered(sections: seq<SectionSpec>, name: Name) {
    exists i :: 0 <= i < |sections| && sections[i].name == name
  }

  /** A section is taken exactly when the registry has one of its name and the caller expects just
      its version; of the others, those of a known and expected name are reported with the artifact's
      version first. */
  lemma {:induction false} SkipExact(sections: seq<SectionSpec>, expected: Expected, name: Name, version: u32)
    ensures SkipOf(sections, expected, name, version) ==
            if !Registered(sections, name) || name !in expected then Some(UnknownSection)
            else if version == expected[name] then None
            else Some(FormatVersionMismatch(version, expected[name]))
  {
    var i := FindSectionExact(sections, name);
    if i < |sections| {
      assert Registered(sections, name);
    }
  }
}
