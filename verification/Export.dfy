/** The canonical export: which bytes a database state and a registry stand for, and the three
    levels of hashes over them. */
module Export {
  import opened Bytes
  import opened Codec
  import opened Artifact
  import opened Sorting
  import opened Sqlite

  datatype TableRole = Exported | DivergenceOnly

  datatype TableSpec = TableSpec(name: Name, role: TableRole, excluded: seq<Name>)

  datatype SectionSpec = SectionSpec(name: Name, formatVersion: u32, tables: seq<TableSpec>)

  // ----- canonical columns

  const NameOrder: Order<Name> := BytesLeq

  function KeptNames(info: seq<Column>, excluded: seq<Name>): seq<Name> {
    if info == [] then []
    else (if info[0].name in excluded then [] else [info[0].name]) + KeptNames(info[1..], excluded)
  }

  function KeyNames(info: seq<Column>): seq<Name> {
    if info == [] then [] else (if info[0].pk then [info[0].name] else []) + KeyNames(info[1..])
  }

  /** The first excluded entry that names no column. */
  function FirstUnknown(info: seq<Column>, excluded: seq<Name>): seq<Name> {
    if excluded == [] then []
    else if excluded[0] !in ColumnNames(info) then [excluded[0]]
    else FirstUnknown(info, excluded[1..])
  }

  /** Sorted column names with exclusions removed, and sorted primary-key column names. */
  function CanonicalColumns(info: seq<Column>, spec: TableSpec): Result<(seq<Name>, seq<Name>)> {
    var unknown := FirstUnknown(info, spec.excluded);
    if unknown != [] then Err(UnknownExcludedColumn(spec.name, unknown[0]))
    else if KeyNames(info) == [] then Err(MissingPrimaryKey(spec.name))
    else Ok((Sort(KeptNames(info, spec.excluded), NameOrder), Sort(KeyNames(info), NameOrder)))
  }

  // ----- exported values, rows, tables, sections

  function ExportValue(v: Value, table: Name, column: Name): Result<Value> {
    if v.Real? && IsNaN(v.bits) then Err(NonCanonicalFloat(table, column)) else Ok(Canon(v))
  }

  function CellExporter(row: Row, table: Name): Name -> Result<Value> {
    column => ExportValue(Cell(row, column), table, column)
  }

  function RowExporter(table: Name, columns: seq<Name>): Row -> Result<seq<Value>> {
    row => Traverse(CellExporter(row, table), columns)
  }

  /** SELECT in primary-key order. */
  function Ordered(rows: seq<Row>, key: seq<Name>): seq<Row> { Sort(rows, KeyOrder(key)) }

  /** One table as a unit; selecting no columns at all is an error of the database. */
  function ExportTable(tables: Tables, spec: TableSpec): Result<TableUnit> {
    var (columns, key) :- CanonicalColumns(Info(tables, spec.name), spec);
    if columns == [] then Err(Db) else
    var rows :- Traverse(RowExporter(spec.name, columns), Ordered(RowsOf(tables, spec.name), key));
    Ok(TableUnit(spec.name, columns, rows))
  }

  /** A covered table with its unit, and a section with all its covered tables of either role. */
  datatype Covered = Covered(spec: TableSpec, unit: TableUnit)

  datatype Walked = Walked(spec: SectionSpec, tables: seq<Covered>)

  function TableWalker(tables: Tables): TableSpec -> Result<Covered> {
    (spec: TableSpec) => (var unit :- ExportTable(tables, spec); Ok(Covered(spec, unit)))
  }

  function SectionWalker(tables: Tables): SectionSpec -> Result<Walked> {
    (spec: SectionSpec) => (var covered :- Traverse(TableWalker(tables), spec.tables); Ok(Walked(spec, covered)))
  }

  /** The single walk behind the manifest and the artifact. */
  function Walk(tables: Tables, sections: seq<SectionSpec>): Result<seq<Walked>> {
    Traverse(SectionWalker(tables), sections)
  }

  /** The units that cross an epoch boundary. */
  function ExportedUnits(tables: seq<Covered>): seq<TableUnit> {
    if tables == [] then []
    else (if tables[0].spec.role == Exported then [tables[0].unit] else []) + ExportedUnits(tables[1..])
  }

  function ExportedCount(specs: seq<TableSpec>): nat {
    if specs == [] then 0 else (if specs[0].role == Exported then 1 else 0) + ExportedCount(specs[1..])
  }

  lemma {:induction false} ExportedUnitsAppend(tables: seq<Covered>, c: Covered)
    ensures ExportedUnits(tables + [c]) == ExportedUnits(tables) + (if c.spec.role == Exported then [c.unit] else [])
  {
    if tables == [] {
      assert [] + [c] == [c];
    } else {
      assert (tables + [c])[1..] == tables[1..] + [c];
      ExportedUnitsAppend(tables[1..], c);
      var head := if tables[0].spec.role == Exported then [tables[0].unit] else [];
      var last := if c.spec.role == Exported then [c.unit] else [];
      assert head + (ExportedUnits(tables[1..]) + last) == head + ExportedUnits(tables[1..]) + last;
    }
  }

  lemma {:induction false} ExportedUnitsCount(specs: seq<TableSpec>, tables: seq<Covered>)
    requires |specs| == |tables| && forall i :: 0 <= i < |specs| ==> tables[i].spec == specs[i]
    ensures |ExportedUnits(tables)| == ExportedCount(specs)
  {
    if specs != [] {
      ExportedUnitsCount(specs[1..], tables[1..]);
    }
  }

  function SectionOf(w: Walked): SectionUnit {
    SectionUnit(w.spec.name, w.spec.formatVersion, ExportedUnits(w.tables))
  }

  function TreeOf(ws: seq<Walked>): (tree: Tree)
    ensures |tree| == |ws| && forall i :: 0 <= i < |ws| ==> tree[i] == SectionOf(ws[i])
  {
    if ws == [] then [] else [SectionOf(ws[0])] + TreeOf(ws[1..])
  }

  // ----- hashes

  /** Blake3 digests; the hash function itself is a parameter of everything below. */
  type Digest = d: seq<byte> | |d| == 32 witness seq(32, _ => 0)

  type Hash = seq<byte> -> Digest

  const DOMAIN_TABLE := Ascii("hopnet/snapshot/v1/table\0")
  const DOMAIN_SECTION := Ascii("hopnet/snapshot/v1/section\0")
  const DOMAIN_TOP := Ascii("hopnet/snapshot/v1/top\0")

  function TablePreimage(u: TableUnit): seq<byte> { DOMAIN_TABLE + EncodeTable(u) }

  function TableHasher(h: Hash): TableUnit -> seq<byte> { u => h(TablePreimage(u)) }

  function SectionPreimage(h: Hash, s: SectionUnit): seq<byte> {
    DOMAIN_SECTION + (EncodeSectionHeader(SectionHeaderOf(s)) + EncodeMany(TableHasher(h), s.tables))
  }

  /** What the top hash commits to about one section. */
  datatype Entry = Entry(name: Name, formatVersion: u32, hash: Digest)

  function EncodeEntry(e: Entry): seq<byte> { EncodeName(e.name) + (U32Bytes(e.formatVersion) + e.hash) }

  function VersionedTop(version: u32, entries: seq<Entry>): seq<byte> {
    DOMAIN_TOP + (U32Bytes(version) + (U32Bytes(|entries|) + EncodeMany(EncodeEntry, entries)))
  }

  function TopPreimage(entries: seq<Entry>): seq<byte> { VersionedTop(ARTIFACT_VERSION, entries) }

  function EntryOf(h: Hash, s: SectionUnit): Entry { Entry(s.name, s.formatVersion, h(SectionPreimage(h, s))) }

  function Entries(h: Hash, tree: Tree): (es: seq<Entry>)
    ensures |es| == |tree| && forall i :: 0 <= i < |tree| ==> es[i] == EntryOf(h, tree[i])
  {
    if tree == [] then [] else [EntryOf(h, tree[0])] + Entries(h, tree[1..])
  }

  function TopHash(h: Hash, tree: Tree): Digest { h(TopPreimage(Entries(h, tree))) }

  // ----- manifests

  datatype TableManifest = TableManifest(name: Name, role: TableRole, rowCount: nat, hash: Digest, excluded: seq<Name>)

  datatype SectionManifest =
    SectionManifest(name: Name, formatVersion: u32, sectionHash: Digest, tables: seq<TableManifest>)

  datatype SnapshotManifest = SnapshotManifest(artifactVersion: u32, topHash: Digest, sections: seq<SectionManifest>)

  function TableManifestOf(h: Hash, c: Covered): TableManifest {
    TableManifest(c.spec.name, c.spec.role, |c.unit.rows|, h(TablePreimage(c.unit)), c.spec.excluded)
  }

  function TableManifests(h: Hash, tables: seq<Covered>): (ms: seq<TableManifest>)
    ensures |ms| == |tables| && forall i :: 0 <= i < |tables| ==> ms[i] == TableManifestOf(h, tables[i])
  {
    if tables == [] then [] else [TableManifestOf(h, tables[0])] + TableManifests(h, tables[1..])
  }

  function SectionManifestOf(h: Hash, w: Walked): SectionManifest {
    SectionManifest(w.spec.name, w.spec.formatVersion, h(SectionPreimage(h, SectionOf(w))), TableManifests(h, w.tables))
  }

  function SectionManifests(h: Hash, ws: seq<Walked>): (ms: seq<SectionManifest>)
    ensures |ms| == |ws| && forall i :: 0 <= i < |ws| ==> ms[i] == SectionManifestOf(h, ws[i])
  {
    if ws == [] then [] else [SectionManifestOf(h, ws[0])] + SectionManifests(h, ws[1..])
  }

  function ManifestOf(h: Hash, ws: seq<Walked>): SnapshotManifest {
    SnapshotManifest(ARTIFACT_VERSION, TopHash(h, TreeOf(ws)), SectionManifests(h, ws))
  }

  /** What the top hash commits to, read off a manifest. */
  function ManifestEntries(ms: seq<SectionManifest>): seq<Entry> {
    seq(|ms|, i requires 0 <= i < |ms| => Entry(ms[i].name, ms[i].formatVersion, ms[i].sectionHash))
  }

  /** `compute_manifest` and `serialize_snapshot` as functions of the state. */
  function Manifest(h: Hash, tables: Tables, sections: seq<SectionSpec>): Result<SnapshotManifest> {
    var ws :- Walk(tables, sections);
    Ok(ManifestOf(h, ws))
  }

  function ArtifactBytes(tables: Tables, sections: seq<SectionSpec>): Result<seq<byte>> {
    var ws :- Walk(tables, sections);
    Ok(EncodeArtifact(TreeOf(ws)))
  }
}
