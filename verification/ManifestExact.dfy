/** What a manifest says about the state it was computed from: every covered table of either role,
    in registry order, with its row count and a hash that stands for its exported content; and the
    section and top hashes as functions of the table hashes. */
module ManifestExact {
  import opened Bytes
  import opened Codec
  import opened Artifact
  import opened Sorting
  import opened Sqlite
  import opened Export
  import opened Canonical
  import opened CanonicalRows
  import opened Commitment
  import opened States
  import opened ExportExact
  import opened Selection

  ghost predicate Describes(e: TableManifest, tables: Tables, spec: TableSpec) {
    && e.name == spec.name && e.role == spec.role && e.excluded == spec.excluded
    && e.rowCount == |RowsOf(tables, spec.name)|
  }

  lemma {:induction false} ExportedRowCount(tables: Tables, spec: TableSpec, u: TableUnit)
    requires ExportTable(tables, spec) == Ok(u)
    ensures |u.rows| == |RowsOf(tables, spec.name)|
  {
    hide ExportTable, CanonicalColumns, Traverse, RowExporter, Sort, Info, RowsOf, KeyOf, ColumnsOf, Image;
    ExportedShape(tables, spec, u);
    var rows := RowsOf(tables, spec.name);
    var sorted := Ordered(rows, KeyOf(Info(tables, spec.name)));
    assert |multiset(sorted)| == |multiset(rows)|;
  }

  /** A manifest lists the registry's sections and their tables, in the registry's order, with names,
      versions, roles, exclusions and the tables' row counts. */
  lemma {:induction false} ManifestLists(h: Hash, tables: Tables, sections: seq<SectionSpec>, m: SnapshotManifest)
    requires Manifest(h, tables, sections) == Ok(m)
    ensures m.artifactVersion == 1 && |m.sections| == |sections|
    ensures forall i :: 0 <= i < |sections| ==>
              && m.sections[i].name == sections[i].name && m.sections[i].formatVersion == sections[i].formatVersion
              && |m.sections[i].tables| == |sections[i].tables|
    ensures forall i, j :: 0 <= i < |sections| && 0 <= j < |sections[i].tables| ==>
              Describes(m.sections[i].tables[j], tables, sections[i].tables[j])
  {
    hide Walk, ExportTable, TopHash, SectionPreimage, TablePreimage, TreeOf, RowsOf;
    var ws := Walk(tables, sections).value;
    WalkVisits(tables, sections, ws);
    forall i, j | 0 <= i < |sections| && 0 <= j < |sections[i].tables|
      ensures Describes(m.sections[i].tables[j], tables, sections[i].tables[j])
    {
      assert m.sections[i] == SectionManifestOf(h, ws[i]);
      assert m.sections[i].tables[j] == TableManifestOf(h, ws[i].tables[j]);
      ExportedRowCount(tables, sections[i].tables[j], ws[i].tables[j].unit);
    }
  }

  lemma {:induction false} EntryHash(h: Hash, tables: Tables, sections: seq<SectionSpec>, m: SnapshotManifest, i: nat,
      j: nat)
    requires Manifest(h, tables, sections) == Ok(m) && i < |sections| && j < |sections[i].tables|
    ensures |m.sections| == |sections| && |m.sections[i].tables| == |sections[i].tables|
    ensures ExportTable(tables, sections[i].tables[j]).Ok?
    ensures m.sections[i].tables[j].hash == h(TablePreimage(ExportTable(tables, sections[i].tables[j]).value))
  {
    hide Walk, ExportTable, TopHash, SectionPreimage, TablePreimage, TreeOf;
    var ws := Walk(tables, sections).value;
    WalkVisits(tables, sections, ws);
    assert m.sections[i] == SectionManifestOf(h, ws[i]);
    assert m.sections[i].tables[j] == TableManifestOf(h, ws[i].tables[j]);
    assert ExportTable(tables, sections[i].tables[j]) == Ok(ws[i].tables[j].unit);
  }

  /** `h` does not collide on the bytes hashed for the two units. */
  ghost predicate Apart(h: Hash, u: TableUnit, v: TableUnit) {
    h(TablePreimage(u)) == h(TablePreimage(v)) ==> TablePreimage(u) == TablePreimage(v)
  }

  /** The table is laid out and sized as the container needs it. */
  ghost predicate Storable(tables: Tables, spec: TableSpec) {
    SchemaKeyed(Info(tables, spec.name), spec) && SizedTable(tables, spec)
  }

  lemma {:induction false} UnitHashes(h: Hash, u: TableUnit, v: TableUnit)
    requires TableFits(u) && TableFits(v) && Apart(h, u, v)
    ensures h(TablePreimage(u)) == h(TablePreimage(v)) <==> u == v
  {
    hide TableFits, EncodeTable;
    if h(TablePreimage(u)) == h(TablePreimage(v)) {
      ConcatSplit(DOMAIN_TABLE, EncodeTable(u), DOMAIN_TABLE, EncodeTable(v));
      TableInjective(u, v);
    }
  }

  /** Two table entries of any two manifests, exported or divergence-only, have equal hashes exactly
      when the tables export to equal units. */
  lemma {:induction false} EntryCommits(
    h: Hash, a: Tables, sa: seq<SectionSpec>, ma: SnapshotManifest, i: nat, j: nat,
    b: Tables, sb: seq<SectionSpec>, mb: SnapshotManifest, k: nat, l: nat)
    requires Manifest(h, a, sa) == Ok(ma) && i < |sa| && j < |sa[i].tables| && Storable(a, sa[i].tables[j])
    requires Manifest(h, b, sb) == Ok(mb) && k < |sb| && l < |sb[k].tables| && Storable(b, sb[k].tables[l])
    requires var u, v := ExportTable(a, sa[i].tables[j]), ExportTable(b, sb[k].tables[l]);
             u.Ok? && v.Ok? ==> Apart(h, u.value, v.value)
    ensures |ma.sections| == |sa| && |ma.sections[i].tables| == |sa[i].tables|
    ensures |mb.sections| == |sb| && |mb.sections[k].tables| == |sb[k].tables|
    ensures ma.sections[i].tables[j].hash == mb.sections[k].tables[l].hash <==>
            ExportTable(a, sa[i].tables[j]) == ExportTable(b, sb[k].tables[l])
  {
    hide Manifest, ExportTable, TablePreimage, SchemaKeyed, SizedTable, TableFits, Apart;
    EntryHash(h, a, sa, ma, i, j);
    EntryHash(h, b, sb, mb, k, l);
    var u, v := ExportTable(a, sa[i].tables[j]).value, ExportTable(b, sb[k].tables[l]).value;
    UnitFits(a, sa[i].tables[j], u);
    UnitFits(b, sb[k].tables[l], v);
    UnitHashes(h, u, v);
  }

  /** Two states whose table can be compared: one shape, keys that tell rows apart, sizes that fit, and
      no collision between the two exports. */
  ghost predicate Comparable(h: Hash, a: Tables, b: Tables, spec: TableSpec) {
    && WellKeyed(a, spec) && SameShape(Info(a, spec.name), Info(b, spec.name))
    && Storable(a, spec) && Storable(b, spec)
    && (var u, v := ExportTable(a, spec), ExportTable(b, spec); u.Ok? && v.Ok? ==> Apart(h, u.value, v.value))
  }

  /** For one covered table of two states of one shape: equal hashes exactly when the contents agree. */
  lemma {:induction false} EntryIsContent(h: Hash, a: Tables, b: Tables, sections: seq<SectionSpec>,
      ma: SnapshotManifest, mb: SnapshotManifest, i: nat, j: nat)
    requires Manifest(h, a, sections) == Ok(ma) && Manifest(h, b, sections) == Ok(mb)
    requires i < |sections| && j < |sections[i].tables| && Comparable(h, a, b, sections[i].tables[j])
    ensures |ma.sections| == |mb.sections| == |sections|
    ensures |ma.sections[i].tables| == |mb.sections[i].tables| == |sections[i].tables|
    ensures ma.sections[i].tables[j].hash == mb.sections[i].tables[j].hash <==>
            SameContent(a, b, sections[i].tables[j])
  {
    hide Manifest, ExportTable, WellKeyed, SameShape, SameContent, SizedTable, Apart, SchemaKeyed, Storable;
    var spec := sections[i].tables[j];
    EntryHash(h, a, sections, ma, i, j);
    EntryHash(h, b, sections, mb, i, j);
    EntryCommits(h, a, sections, ma, i, j, b, sections, mb, i, j);
    SameUnitExact(a, b, spec);
  }

  /** Two nodes with one registry report the same manifest exactly when every covered table, exported or
      divergence-only, holds the same content. */
  lemma {:induction false} ManifestIsContent(h: Hash, a: Tables, b: Tables, sections: seq<SectionSpec>,
      ma: SnapshotManifest, mb: SnapshotManifest)
    requires Manifest(h, a, sections) == Ok(ma) && Manifest(h, b, sections) == Ok(mb)
    requires forall spec :: IsCovered(sections, spec) ==> Comparable(h, a, b, spec)
    ensures ma == mb <==> forall spec :: IsCovered(sections, spec) ==> SameContent(a, b, spec)
  {
    hide Comparable, SameContent, ManifestOf, Walk, ExportTable;
    if ma == mb {
      forall spec | IsCovered(sections, spec) ensures SameContent(a, b, spec) {
        var i :| 0 <= i < |sections| && spec in sections[i].tables;
        var j :| 0 <= j < |sections[i].tables| && sections[i].tables[j] == spec;
        EntryIsContent(h, a, b, sections, ma, mb, i, j);
      }
    }
    if forall spec :: IsCovered(sections, spec) ==> SameContent(a, b, spec) {
      forall spec | IsCovered(sections, spec) ensures ExportTable(a, spec) == ExportTable(b, spec) {
        assert Comparable(h, a, b, spec);
        ContentExports(h, a, b, spec);
      }
      SameWalk(a, b, sections);
    }
  }

  lemma {:induction false} ContentExports(h: Hash, a: Tables, b: Tables, spec: TableSpec)
    requires Comparable(h, a, b, spec) && SameContent(a, b, spec)
    ensures ExportTable(a, spec) == ExportTable(b, spec)
  {
    hide WellKeyed, SameContent, ExportTable, SameShape, Storable, Apart;
    SameContentSameUnit(a, b, spec);
  }

  lemma {:induction false} SameWalk(a: Tables, b: Tables, sections: seq<SectionSpec>)
    requires forall spec :: IsCovered(sections, spec) ==> ExportTable(a, spec) == ExportTable(b, spec)
    ensures Walk(a, sections) == Walk(b, sections)
  {
    hide ExportTable, Traverse;
    forall i | 0 <= i < |sections| ensures SectionWalker(a)(sections[i]) == SectionWalker(b)(sections[i]) {
      forall j | 0 <= j < |sections[i].tables|
        ensures TableWalker(a)(sections[i].tables[j]) == TableWalker(b)(sections[i].tables[j])
      {
        assert IsCovered(sections, sections[i].tables[j]);
      }
      TraverseCongruent(TableWalker(a), sections[i].tables, TableWalker(b), sections[i].tables);
    }
    TraverseCongruent(SectionWalker(a), sections, SectionWalker(b), sections);
  }

  // ----- section and top hashes from the manifest alone

  /** The hashes of the exported tables, in order. */
  function ExportedHashes(ts: seq<TableManifest>): seq<byte> {
    if ts == [] then [] else (if ts[0].role == Exported then ts[0].hash else []) + ExportedHashes(ts[1..])
  }

  function CountExported(ts: seq<TableManifest>): nat { Count(ts, (t: TableManifest) => t.role == Exported) }

  /** What a section hash is taken over, as a reader of the manifest can rebuild it. */
  function SectionBytes(s: SectionManifest): seq<byte> {
    Ascii("hopnet/snapshot/v1/section\0")
    + (U32Bytes(|s.name|) + s.name + (U32Bytes(s.formatVersion) + U32Bytes(CountExported(s.tables)))
       + ExportedHashes(s.tables))
  }

  lemma {:induction false} ExportedHashesAre(h: Hash, tables: seq<Covered>)
    ensures ExportedHashes(TableManifests(h, tables)) == EncodeMany(TableHasher(h), ExportedUnits(tables))
    ensures CountExported(TableManifests(h, tables)) == |ExportedUnits(tables)|
  {
    hide TablePreimage;
    if tables != [] {
      var ms, rest := TableManifests(h, tables), TableManifests(h, tables[1..]);
      ExportedHashesAre(h, tables[1..]);
      assert ms == [ms[0]] + rest && ms[1..] == rest;
      CountCons(ms[0], rest, (t: TableManifest) => t.role == Exported);
      if tables[0].spec.role == Exported {
        var units := ExportedUnits(tables);
        assert units[0] == tables[0].unit && units[1..] == ExportedUnits(tables[1..]);
      } else {
        assert [] + ExportedUnits(tables[1..]) == ExportedUnits(tables[1..]);
      }
    }
  }

  /** Section hashes stand over the exported tables' hashes only, and the top hash over the sections'
      names, versions and hashes: a manifest determines both from its table entries. */
  lemma {:induction false} HashesFollow(h: Hash, tables: Tables, sections: seq<SectionSpec>, m: SnapshotManifest)
    requires Manifest(h, tables, sections) == Ok(m)
    ensures forall i :: 0 <= i < |m.sections| ==> m.sections[i].sectionHash == h(SectionBytes(m.sections[i]))
    ensures var es := ManifestEntries(m.sections);
            && m.topHash == h(VersionedTop(1, es)) && |es| == |m.sections| == |sections|
            && forall i :: 0 <= i < |es| ==>
                es[i] == Entry(sections[i].name, sections[i].formatVersion, m.sections[i].sectionHash)
  {
    hide Walk, U32Bytes, EncodeMany, ExportedUnits, ExportedHashes, CountExported, VersionedTop;
    var ws := Walk(tables, sections).value;
    WalkVisits(tables, sections, ws);
    forall i | 0 <= i < |ws| ensures m.sections[i].sectionHash == h(SectionBytes(m.sections[i])) {
      assert m.sections[i] == SectionManifestOf(h, ws[i]);
      ExportedHashesAre(h, ws[i].tables);
      assert SectionBytes(m.sections[i]) == SectionPreimage(h, SectionOf(ws[i]));
    }
    forall i | 0 <= i < |ws| ensures Entries(h, TreeOf(ws))[i] == ManifestEntries(m.sections)[i] {
      assert m.sections[i] == SectionManifestOf(h, ws[i]);
    }
    assert Entries(h, TreeOf(ws)) == ManifestEntries(m.sections);
  }

  /** Each level hashes under its own tag, so no bytes are hashed at two levels. */
  lemma {:induction false} LevelsApart(h: Hash, u: TableUnit, s: SectionUnit, version: u32, entries: seq<Entry>)
    ensures Ascii("hopnet/snapshot/v1/table\0") <= TablePreimage(u)
    ensures Ascii("hopnet/snapshot/v1/section\0") <= SectionPreimage(h, s)
    ensures Ascii("hopnet/snapshot/v1/top\0") <= VersionedTop(version, entries)
    ensures TablePreimage(u) != SectionPreimage(h, s)
    ensures TablePreimage(u) != VersionedTop(version, entries)
    ensures SectionPreimage(h, s) != VersionedTop(version, entries)
  {
    hide EncodeTable, EncodeSectionHeader, EncodeMany, U32Bytes;
    assert TablePreimage(u)[19..21] == [116, 97] by { assert DOMAIN_TABLE[19..21] == [116, 97]; }
    assert SectionPreimage(h, s)[19..21] == [115, 101] by { assert DOMAIN_SECTION[19..21] == [115, 101]; }
    assert VersionedTop(version, entries)[19..21] == [116, 111] by { assert DOMAIN_TOP[19..21] == [116, 111]; }
  }
}
