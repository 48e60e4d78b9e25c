/** The serializer as it runs: one walk that feeds hashers and, when asked, an artifact buffer. */
module Serializer {
  import opened Bytes
  import opened Codec
  import opened Artifact
  import opened Sqlite
  import opened Export

  class Hasher {
    var input: seq<byte>

    constructor ()
      ensures input == []
    { input := []; }

    method Update(bytes: seq<byte>)
      modifies this
      ensures input == old(input) + bytes
    { input := input + bytes; }
  }

  /** Through the hasher, and into the artifact when there is one. */
  method Write(hasher: Hasher, artifact: Buffer?, bytes: seq<byte>)
    modifies hasher, artifact
    ensures hasher.input == old(hasher.input) + bytes
    ensures artifact != null ==> artifact.bytes == old(artifact.bytes) + bytes
  {
    hasher.Update(bytes);
    if artifact != null {
      artifact.Extend(bytes);
    }
  }

  method EncodeValueInto(out: Buffer, v: Value, table: Name, column: Name) returns (r: Result<()>)
    modifies out
    ensures match ExportValue(v, table, column)
            case Err(e) => r == Err(e) && out.bytes == old(out.bytes)
            case Ok(c) => r == Ok(()) && out.bytes == old(out.bytes) + EncodeValue(c)
  {
    match v {
      case Null =>
        out.Extend([0x00]);
      case Integer(i) =>
        out.Extend([0x01] + U64Bytes(BitPattern(i)));
      case Real(bits) =>
        if IsNaN(bits) {
          return Err(NonCanonicalFloat(table, column));
        }
        var canonical := if bits == 0 || bits == NEGATIVE_ZERO then 0 else bits;
        out.Extend([0x02] + U64Bytes(canonical));
      case Text(t) =>
        out.Extend([0x03] + (U64Bytes(|t|) + t));
      case Blob(b) =>
        out.Extend([0x04] + (U64Bytes(|b|) + b));
    }
    r := Ok(());
  }

  // ----- appending piece by piece

  lemma {:induction false} Append2(p: seq<byte>, a: seq<byte>, b: seq<byte>)
    ensures p + a + b == p + (a + b)
  {
  }

  lemma {:induction false} Append4(p: seq<byte>, a: seq<byte>, b: seq<byte>, c: seq<byte>, d: seq<byte>)
    ensures p + a + b + c + d == p + (a + (b + (c + d)))
  {
    Append2(p + a + b, c, d);
    Append2(p + a, b, c + d);
    Append2(p, a, b + (c + d));
  }

  lemma {:induction false} WroteOneMore<T>(enc: T -> seq<byte>, prefix: seq<byte>, done: seq<T>, x: T)
    ensures prefix + EncodeMany(enc, done) + enc(x) == prefix + EncodeMany(enc, done + [x])
  {
    EncodeManyAppend(enc, done, [x]);
    assert EncodeMany(enc, [x]) == enc(x) + [];
  }

  lemma {:induction false} WroteNothing<T>(enc: T -> seq<byte>, prefix: seq<byte>)
    ensures prefix + EncodeMany(enc, []) == prefix
  {
  }

  /** A traversal before its first element and after its last. */
  lemma {:induction false} TraverseEnds<T, U>(f: T -> Result<U>, xs: seq<T>)
    ensures Traverse(f, xs[..0]) == Ok([]) && Traverse(f, xs[..|xs|]) == Traverse(f, xs)
  {
    assert xs[..|xs|] == xs;
  }

  method WriteName(hasher: Hasher, artifact: Buffer?, name: Name)
    modifies hasher, artifact
    ensures hasher.input == old(hasher.input) + EncodeName(name)
    ensures artifact != null ==> artifact.bytes == old(artifact.bytes) + EncodeName(name)
  {
    hide U32Bytes;
    Write(hasher, artifact, U32Bytes(|name|));
    Write(hasher, artifact, name);
    Append2(old(hasher.input), U32Bytes(|name|), name);
    if artifact != null {
      Append2(old(artifact.bytes), U32Bytes(|name|), name);
    }
  }

  /** The column names of a unit's header. */
  method WriteNames(hasher: Hasher, artifact: Buffer?, names: seq<Name>)
    modifies hasher, artifact
    ensures hasher.input == old(hasher.input) + EncodeMany(EncodeName, names)
    ensures artifact != null ==> artifact.bytes == old(artifact.bytes) + EncodeMany(EncodeName, names)
  {
    hide EncodeName;
    var i := 0;
    while i < |names|
      invariant 0 <= i <= |names|
      invariant hasher.input == old(hasher.input) + EncodeMany(EncodeName, names[..i])
      invariant artifact != null ==> artifact.bytes == old(artifact.bytes) + EncodeMany(EncodeName, names[..i])
    {
      WroteOneMore(EncodeName, old(hasher.input), names[..i], names[i]);
      if artifact != null {
        WroteOneMore(EncodeName, old(artifact.bytes), names[..i], names[i]);
      }
      assert names[..i + 1] == names[..i] + [names[i]];
      WriteName(hasher, artifact, names[i]);
      i := i + 1;
    }
    assert names[..i] == names;
  }

  method WriteTableHeader(hasher: Hasher, artifact: Buffer?, t: TableHeader)
    modifies hasher, artifact
    ensures hasher.input == old(hasher.input) + EncodeTableHeader(t)
    ensures artifact != null ==> artifact.bytes == old(artifact.bytes) + EncodeTableHeader(t)
  {
    hide EncodeName, EncodeMany, U32Bytes, U64Bytes;
    WriteName(hasher, artifact, t.name);
    Write(hasher, artifact, U32Bytes(|t.columns|));
    WriteNames(hasher, artifact, t.columns);
    Write(hasher, artifact, U64Bytes(t.rowCount));
    ghost var a, b, c, d := EncodeName(t.name), U32Bytes(|t.columns|), EncodeMany(EncodeName, t.columns),
        U64Bytes(t.rowCount);
    Append4(old(hasher.input), a, b, c, d);
    if artifact != null {
      Append4(old(artifact.bytes), a, b, c, d);
    }
  }

  method WriteRow(hasher: Hasher, artifact: Buffer?, row: Row, table: Name, columns: seq<Name>) returns (r: Result<()>)
    modifies hasher, artifact
    ensures match RowExporter(table, columns)(row)
            case Err(e) => r == Err(e)
            case Ok(cells) =>
              && r == Ok(())
              && hasher.input == old(hasher.input) + EncodeRow(cells)
              && (artifact != null ==> artifact.bytes == old(artifact.bytes) + EncodeRow(cells))
  {
    hide EncodeValue, ExportValue, Traverse, EncodeMany;
    ghost var f := CellExporter(row, table);
    ghost var done: seq<Value> := [];
    var i := 0;
    TraverseEnds(f, columns);
    WroteNothing(EncodeValue, hasher.input);
    if artifact != null {
      WroteNothing(EncodeValue, artifact.bytes);
    }
    while i < |columns|
      invariant 0 <= i <= |columns|
      invariant Traverse(f, columns[..i]) == Ok(done)
      invariant hasher.input == old(hasher.input) + EncodeRow(done)
      invariant artifact != null ==> artifact.bytes == old(artifact.bytes) + EncodeRow(done)
    {
      TraverseStep(f, columns, i, done);
      var value := new Buffer();
      var _ :- EncodeValueInto(value, Cell(row, columns[i]), table, columns[i]);
      ghost var cell := f(columns[i]).value;
      WroteOneMore(EncodeValue, old(hasher.input), done, cell);
      if artifact != null {
        WroteOneMore(EncodeValue, old(artifact.bytes), done, cell);
      }
      Write(hasher, artifact, value.bytes);
      done := done + [cell];
      i := i + 1;
    }
    r := Ok(());
  }

  method WriteRows(hasher: Hasher, artifact: Buffer?, rows: seq<Row>, table: Name, columns: seq<Name>)
    returns (r: Result<()>)
    modifies hasher, artifact
    ensures match Traverse(RowExporter(table, columns), rows)
            case Err(e) => r == Err(e)
            case Ok(units) =>
              && r == Ok(())
              && hasher.input == old(hasher.input) + EncodeMany(EncodeRow, units)
              && (artifact != null ==> artifact.bytes == old(artifact.bytes) + EncodeMany(EncodeRow, units))
  {
    hide EncodeRow, RowExporter, Traverse, EncodeMany;
    ghost var f := RowExporter(table, columns);
    ghost var done: seq<seq<Value>> := [];
    var i := 0;
    TraverseEnds(f, rows);
    WroteNothing(EncodeRow, hasher.input);
    if artifact != null {
      WroteNothing(EncodeRow, artifact.bytes);
    }
    while i < |rows|
      invariant 0 <= i <= |rows|
      invariant Traverse(f, rows[..i]) == Ok(done)
      invariant hasher.input == old(hasher.input) + EncodeMany(EncodeRow, done)
      invariant artifact != null ==> artifact.bytes == old(artifact.bytes) + EncodeMany(EncodeRow, done)
    {
      TraverseStep(f, rows, i, done);
      var _ :- WriteRow(hasher, artifact, rows[i], table, columns);
      ghost var cells := f(rows[i]).value;
      WroteOneMore(EncodeRow, old(hasher.input), done, cells);
      if artifact != null {
        WroteOneMore(EncodeRow, old(artifact.bytes), done, cells);
      }
      done := done + [cells];
      i := i + 1;
    }
    r := Ok(());
  }

  lemma {:induction false} RowCount(f: Row -> Result<seq<Value>>, rows: seq<Row>)
    ensures Traverse(f, rows).Ok? ==> |Traverse(f, rows).value| == |rows|
  {
    if Traverse(f, rows).Ok? {
      TraverseOk(f, rows, Traverse(f, rows).value);
    }
  }

  /** One table unit: header, then rows in primary-key order. */
  method WalkTable(h: Hash, tables: Tables, spec: TableSpec, artifact: Buffer?) returns (r: Result<TableManifest>)
    modifies artifact
    ensures match ExportTable(tables, spec)
            case Err(e) => r == Err(e)
            case Ok(unit) =>
              && r == Ok(TableManifestOf(h, Covered(spec, unit)))
              && (artifact != null ==> artifact.bytes == old(artifact.bytes) + EncodeTable(unit))
  {
    hide CanonicalColumns, Ordered, Traverse, EncodeMany, EncodeTableHeader;
    var hasher := new Hasher();
    hasher.Update(DOMAIN_TABLE);
    var columnsAndKey :- CanonicalColumns(Info(tables, spec.name), spec);
    var (columns, key) := columnsAndKey;
    var rowCount := |RowsOf(tables, spec.name)|;
    ghost var header := EncodeTableHeader(TableHeader(spec.name, columns, rowCount));
    WriteTableHeader(hasher, artifact, TableHeader(spec.name, columns, rowCount));
    if columns == [] {
      return Err(Db);
    }
    var rows := Ordered(RowsOf(tables, spec.name), key);
    OrderedLength(RowsOf(tables, spec.name), key);
    RowCount(RowExporter(spec.name, columns), rows);
    var _ :- WriteRows(hasher, artifact, rows, spec.name, columns);
    ghost var body := EncodeMany(EncodeRow, Traverse(RowExporter(spec.name, columns), rows).value);
    assert [] + DOMAIN_TABLE == DOMAIN_TABLE;
    Append2(DOMAIN_TABLE, header, body);
    if artifact != null {
      Append2(old(artifact.bytes), header, body);
    }
    r := Ok(TableManifest(spec.name, spec.role, rowCount, h(hasher.input), spec.excluded));
  }

  lemma {:induction false} OrderedLength(rows: seq<Row>, key: seq<Name>)
    ensures |Ordered(rows, key)| == |rows|
  {
  }

  // ----- sections and the whole walk

  lemma {:induction false} CoveredCount(tables: Tables, specs: seq<TableSpec>)
    ensures var covered := Traverse(TableWalker(tables), specs);
            covered.Ok? ==> |ExportedUnits(covered.value)| == ExportedCount(specs)
  {
    hide ExportTable, Traverse;
    var covered := Traverse(TableWalker(tables), specs);
    if covered.Ok? {
      TraverseOk(TableWalker(tables), specs, covered.value);
      forall i | 0 <= i < |specs| ensures covered.value[i].spec == specs[i] {
        assert TableWalker(tables)(specs[i]) == Ok(covered.value[i]);
      }
      ExportedUnitsCount(specs, covered.value);
    }
  }

  /** The covered tables of a section: every table is hashed, exported ones feed the section. */
  method WalkTables(h: Hash, tables: Tables, specs: seq<TableSpec>, section: Hasher, artifact: Buffer?)
    returns (r: Result<seq<TableManifest>>)
    modifies section, artifact
    ensures match Traverse(TableWalker(tables), specs)
            case Err(e) => r == Err(e)
            case Ok(covered) =>
              && r == Ok(TableManifests(h, covered))
              && section.input == old(section.input) + EncodeMany(TableHasher(h), ExportedUnits(covered))
              && (artifact != null ==>
                  artifact.bytes == old(artifact.bytes) + EncodeMany(EncodeTable, ExportedUnits(covered)))
  {
    hide ExportTable, EncodeTable, TablePreimage, TableManifests, Traverse, EncodeMany;
    ghost var f := TableWalker(tables);
    ghost var done: seq<Covered> := [];
    var manifests: seq<TableManifest>, i := [], 0;
    TraverseEnds(f, specs);
    WroteNothing(TableHasher(h), section.input);
    if artifact != null {
      WroteNothing(EncodeTable, artifact.bytes);
    }
    while i < |specs|
      invariant 0 <= i <= |specs|
      invariant Traverse(f, specs[..i]) == Ok(done)
      invariant manifests == TableManifests(h, done)
      invariant section.input == old(section.input) + EncodeMany(TableHasher(h), ExportedUnits(done))
      invariant artifact != null ==>
                  artifact.bytes == old(artifact.bytes) + EncodeMany(EncodeTable, ExportedUnits(done))
    {
      TraverseStep(f, specs, i, done);
      var exported := specs[i].role == Exported;
      var manifest :- WalkTable(h, tables, specs[i], if exported then artifact else null);
      ghost var one := f(specs[i]).value;
      ExportedUnitsAppend(done, one);
      if exported {
        section.Update(manifest.hash);
        WroteOneMore(TableHasher(h), old(section.input), ExportedUnits(done), one.unit);
        if artifact != null {
          WroteOneMore(EncodeTable, old(artifact.bytes), ExportedUnits(done), one.unit);
        }
      } else {
        assert ExportedUnits(done) + [] == ExportedUnits(done);
      }
      done := done + [one];
      manifests := manifests + [manifest];
      i := i + 1;
    }
    r := Ok(manifests);
  }

  method WalkSection(h: Hash, tables: Tables, spec: SectionSpec, artifact: Buffer?) returns (r: Result<SectionManifest>)
    modifies artifact
    ensures match SectionWalker(tables)(spec)
            case Err(e) => r == Err(e)
            case Ok(w) =>
              && r == Ok(SectionManifestOf(h, w))
              && (artifact != null ==> artifact.bytes == old(artifact.bytes) + EncodeSection(SectionOf(w)))
  {
    hide Traverse, EncodeMany, TableManifests, ExportedUnits;
    CoveredCount(tables, spec.tables);
    var header := EncodeSectionHeader(SectionHeader(spec.name, spec.formatVersion, ExportedCount(spec.tables)));
    if artifact != null {
      artifact.Extend(header);
    }
    var hasher := new Hasher();
    hasher.Update(DOMAIN_SECTION);
    hasher.Update(header);
    assert [] + DOMAIN_SECTION == DOMAIN_SECTION;
    var manifests :- WalkTables(h, tables, spec.tables, hasher, artifact);
    ghost var units := ExportedUnits(Traverse(TableWalker(tables), spec.tables).value);
    Append2(DOMAIN_SECTION, header, EncodeMany(TableHasher(h), units));
    if artifact != null {
      Append2(old(artifact.bytes), header, EncodeMany(EncodeTable, units));
    }
    r := Ok(SectionManifest(spec.name, spec.formatVersion, h(hasher.input), manifests));
  }

  /** Recompute the top hash from a manifest's own fields. */
  method ComputeTopHash(h: Hash, ms: seq<SectionManifest>) returns (top: Digest)
    ensures top == h(TopPreimage(ManifestEntries(ms)))
  {
    hide EncodeEntry, U32Bytes;
    var hasher := new Hasher();
    hasher.Update(DOMAIN_TOP);
    hasher.Update(U32Bytes(ARTIFACT_VERSION));
    hasher.Update(U32Bytes(|ms|));
    ghost var es, prefix := ManifestEntries(ms), hasher.input;
    var i := 0;
    while i < |ms|
      invariant 0 <= i <= |ms|
      invariant hasher.input == prefix + EncodeMany(EncodeEntry, es[..i])
    {
      WroteOneMore(EncodeEntry, prefix, es[..i], es[i]);
      assert es[..i + 1] == es[..i] + [es[i]];
      hasher.Update(EncodeEntry(Entry(ms[i].name, ms[i].formatVersion, ms[i].sectionHash)));
      i := i + 1;
    }
    assert es[..i] == es;
    assert hasher.input == TopPreimage(es) by {
      ghost var body := EncodeMany(EncodeEntry, es);
      Append2([] + DOMAIN_TOP + U32Bytes(ARTIFACT_VERSION), U32Bytes(|ms|), body);
      Append2([] + DOMAIN_TOP, U32Bytes(ARTIFACT_VERSION), U32Bytes(|ms|) + body);
      assert [] + DOMAIN_TOP == DOMAIN_TOP;
    }
    top := h(hasher.input);
  }

  /** A manifest built from a walk carries the top hash its own fields recompute to. */
  lemma {:induction false} TopHashRecomputable(h: Hash, ws: seq<Walked>)
    ensures ManifestOf(h, ws).topHash == h(TopPreimage(ManifestEntries(ManifestOf(h, ws).sections)))
  {
    hide SectionPreimage, TopPreimage;
    assert Entries(h, TreeOf(ws)) == ManifestEntries(SectionManifests(h, ws));
  }

  method WalkSections(h: Hash, tables: Tables, sections: seq<SectionSpec>, artifact: Buffer?)
    returns (r: Result<seq<SectionManifest>>)
    modifies artifact
    ensures match Walk(tables, sections)
            case Err(e) => r == Err(e)
            case Ok(ws) =>
              && r == Ok(SectionManifests(h, ws))
              && (artifact != null ==> artifact.bytes == old(artifact.bytes) + EncodeMany(EncodeSection, TreeOf(ws)))
  {
    hide SectionWalker, EncodeSection, SectionPreimage, SectionOf, TreeOf, SectionManifests, Traverse, EncodeMany;
    ghost var f := SectionWalker(tables);
    ghost var done: seq<Walked> := [];
    var manifests: seq<SectionManifest>, i := [], 0;
    TraverseEnds(f, sections);
    if artifact != null {
      WroteNothing(EncodeSection, artifact.bytes);
    }
    while i < |sections|
      invariant 0 <= i <= |sections|
      invariant Traverse(f, sections[..i]) == Ok(done)
      invariant manifests == SectionManifests(h, done)
      invariant artifact != null ==> artifact.bytes == old(artifact.bytes) + EncodeMany(EncodeSection, TreeOf(done))
    {
      TraverseStep(f, sections, i, done);
      var manifest :- WalkSection(h, tables, sections[i], artifact);
      ghost var one := f(sections[i]).value;
      assert TreeOf(done + [one]) == TreeOf(done) + [SectionOf(one)];
      if artifact != null {
        WroteOneMore(EncodeSection, old(artifact.bytes), TreeOf(done), SectionOf(one));
      }
      done := done + [one];
      manifests := manifests + [manifest];
      i := i + 1;
    }
    r := Ok(manifests);
  }

  method WalkAll(h: Hash, tables: Tables, sections: seq<SectionSpec>, artifact: Buffer?)
    returns (r: Result<SnapshotManifest>)
    modifies artifact
    ensures r == Manifest(h, tables, sections)
    ensures r.Ok? && artifact != null ==>
              artifact.bytes == old(artifact.bytes) + EncodeArtifact(TreeOf(Walk(tables, sections).value))
  {
    hide Walk, EncodeMany, TopHash, SectionManifests, EncodePreamble, TreeOf;
    if artifact != null {
      artifact.Extend(EncodePreamble(|sections|));
    }
    var manifests :- WalkSections(h, tables, sections, artifact);
    ghost var ws := Walk(tables, sections).value;
    WalkLength(tables, sections);
    TopHashRecomputable(h, ws);
    if artifact != null {
      Append2(old(artifact.bytes), EncodePreamble(|sections|), EncodeMany(EncodeSection, TreeOf(ws)));
    }
    var top := ComputeTopHash(h, manifests);
    r := Ok(SnapshotManifest(ARTIFACT_VERSION, top, manifests));
  }

  lemma {:induction false} WalkLength(tables: Tables, sections: seq<SectionSpec>)
    ensures var ws := Walk(tables, sections); ws.Ok? ==> |TreeOf(ws.value)| == |sections|
  {
    if Walk(tables, sections).Ok? {
      TraverseOk(SectionWalker(tables), sections, Walk(tables, sections).value);
    }
  }

  /** Hash-only walk over all covered tables. */
  method ComputeManifest(h: Hash, tables: Tables, sections: seq<SectionSpec>) returns (r: Result<SnapshotManifest>)
    ensures r == Manifest(h, tables, sections)
  {
    r := WalkAll(h, tables, sections, null);
  }

  /** Full export: the artifact bytes, and the manifest `ComputeManifest` gives for the same state. */
  method SerializeSnapshot(h: Hash, tables: Tables, sections: seq<SectionSpec>)
    returns (r: Result<(seq<byte>, SnapshotManifest)>)
    ensures match Manifest(h, tables, sections)
            case Err(e) => r == Err(e)
            case Ok(manifest) => r == Ok((ArtifactBytes(tables, sections).value, manifest))
  {
    hide Walk, EncodeArtifact, ManifestOf, TreeOf;
    var artifact := new Buffer();
    var manifest :- WalkAll(h, tables, sections, artifact);
    assert [] + ArtifactBytes(tables, sections).value == ArtifactBytes(tables, sections).value;
    r := Ok((artifact.bytes, manifest));
  }
}
