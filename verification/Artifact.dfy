/** The snapshot container: the decoded tree, the bytes it stands for, and the bounds-checked
    decoder as functions of a buffer and a position. */
module Artifact {
  import opened Bytes
  import opened Codec

  /** A SQLite value. REAL is its IEEE 754 bit pattern. */
  datatype Value =
    | Null
    | Integer(i: i64)
    | Real(bits: u64)
    | Text(text: seq<byte>)
    | Blob(blob: seq<byte>)

  const NEGATIVE_ZERO: u64 := 0x8000_0000_0000_0000

  /** All exponent bits set and a non-zero fraction, whatever the sign. */
  predicate IsNaN(bits: u64) { bits % TWO_63 > 0x7FF0_0000_0000_0000 }

  datatype TableUnit = TableUnit(name: Name, columns: seq<Name>, rows: seq<seq<Value>>)
  datatype SectionUnit = SectionUnit(name: Name, formatVersion: u32, tables: seq<TableUnit>)
  type Tree = seq<SectionUnit>

  /** What precedes a table unit's rows, and a section's tables. */
  datatype TableHeader = TableHeader(name: Name, columns: seq<Name>, rowCount: nat)
  datatype SectionHeader = SectionHeader(name: Name, formatVersion: u32, tableCount: nat)

  const ARTIFACT_VERSION: u32 := 1
  const MAGIC: seq<byte> := [0x48, 0x4F, 0x50, 0x53, 0x4E, 0x41, 0x50, 0x00]  // "HOPSNAP\0"

  // ----- encoding

  /** `n as u32` then `to_le_bytes`: the cast truncates. */
  function U32Bytes(n: nat): (s: seq<byte>)
    ensures |s| == 4
  { LE(n % TWO_32, 4) }

  function U64Bytes(n: nat): (s: seq<byte>)
    ensures |s| == 8
  { LE(n % TWO_64, 8) }

  /** The two's complement bit pattern of an i64. */
  function BitPattern(i: i64): u64 { if i < 0 then i + TWO_64 else i }

  function FromBitPattern(n: u64): i64 { if n < TWO_63 then n else n - TWO_64 }

  /** Two's complement: the pattern is the number modulo 2 to the power 64. */
  lemma {:induction false} BitPatternExact(i: i64, n: u64)
    ensures (BitPattern(i) - i) % TWO_64 == 0
    ensures BitPattern(i) == n <==> FromBitPattern(n) == i
  {
  }

  /** Exponent 2047 with a non-zero fraction; so neither infinity, nor any other number, is NaN. */
  lemma {:induction false} IsNaNExact(bits: u64)
    ensures IsNaN(bits) <==> bits / 0x10_0000_0000_0000 % 2048 == 2047 && bits % 0x10_0000_0000_0000 != 0
    ensures !IsNaN(0x7FF0_0000_0000_0000) && !IsNaN(0xFFF0_0000_0000_0000)
  {
    var fraction, high := bits % 0x10_0000_0000_0000, bits / 0x10_0000_0000_0000;
    assert bits == high * 0x10_0000_0000_0000 + fraction;
    assert high == high / 2048 * 2048 + high % 2048;
    assert bits % TWO_63 == high % 2048 * 0x10_0000_0000_0000 + fraction;
  }

  function EncodeName(name: Name): seq<byte> { U32Bytes(|name|) + name }

  function EncodeValue(v: Value): (s: seq<byte>)
    ensures |s| >= 1
  {
    match v
    case Null => [0x00]
    case Integer(i) => [0x01] + U64Bytes(BitPattern(i))
    case Real(bits) => [0x02] + U64Bytes(bits)
    case Text(t) => [0x03] + (U64Bytes(|t|) + t)
    case Blob(b) => [0x04] + (U64Bytes(|b|) + b)
  }

  function EncodeRow(row: seq<Value>): seq<byte> { EncodeMany(EncodeValue, row) }

  function EncodeTableHeader(h: TableHeader): seq<byte> {
    EncodeName(h.name) + (U32Bytes(|h.columns|) + (EncodeMany(EncodeName, h.columns) + U64Bytes(h.rowCount)))
  }

  function HeaderOf(t: TableUnit): TableHeader { TableHeader(t.name, t.columns, |t.rows|) }

  function EncodeTable(t: TableUnit): seq<byte> {
    EncodeTableHeader(HeaderOf(t)) + EncodeMany(EncodeRow, t.rows)
  }

  function EncodeSectionHeader(h: SectionHeader): seq<byte> {
    EncodeName(h.name) + (U32Bytes(h.formatVersion) + U32Bytes(h.tableCount))
  }

  function SectionHeaderOf(s: SectionUnit): SectionHeader { SectionHeader(s.name, s.formatVersion, |s.tables|) }

  function EncodeSection(s: SectionUnit): seq<byte> {
    EncodeSectionHeader(SectionHeaderOf(s)) + EncodeMany(EncodeTable, s.tables)
  }

  function EncodePreamble(sectionCount: nat): seq<byte> {
    MAGIC + (U32Bytes(ARTIFACT_VERSION) + U32Bytes(sectionCount))
  }

  function EncodeArtifact(tree: Tree): seq<byte> {
    EncodePreamble(|tree|) + EncodeMany(EncodeSection, tree)
  }

  // ----- the trees the container can carry

  predicate NameFits(name: Name) { |name| < TWO_32 && ValidUtf8(name) }

  /** Lengths fit u64, and REAL bits are neither NaN nor -0.0. */
  predicate ValueFits(v: Value) {
    match v
    case Real(bits) => !IsNaN(bits) && bits != NEGATIVE_ZERO
    case Text(t) => |t| < TWO_64
    case Blob(b) => |b| < TWO_64
    case _ => true
  }

  predicate RowFits(row: seq<Value>, width: nat) {
    |row| == width && forall i :: 0 <= i < |row| ==> ValueFits(row[i])
  }

  /** `RowFits` at one width. */
  function FitsWidth(width: nat): seq<Value> -> bool { row => RowFits(row, width) }

  predicate TableHeaderFits(h: TableHeader) {
    && NameFits(h.name)
    && |h.columns| < TWO_32 && (forall i :: 0 <= i < |h.columns| ==> NameFits(h.columns[i]))
    && h.rowCount < TWO_64
    && (h.columns == [] ==> h.rowCount == 0)
  }

  predicate TableFits(t: TableUnit) {
    && TableHeaderFits(HeaderOf(t))
    && forall i :: 0 <= i < |t.rows| ==> RowFits(t.rows[i], |t.columns|)
  }

  predicate SectionHeaderFits(h: SectionHeader) { NameFits(h.name) && h.tableCount < TWO_32 }

  predicate SectionFits(s: SectionUnit) {
    && SectionHeaderFits(SectionHeaderOf(s))
    && forall i :: 0 <= i < |s.tables| ==> TableFits(s.tables[i])
  }

  predicate TreeFits(tree: Tree) {
    |tree| < TWO_32 && forall i :: 0 <= i < |tree| ==> SectionFits(tree[i])
  }

  // ----- decoding

  function ParseBytes(buf: seq<byte>, pos: nat, n: nat): Parsed<seq<byte>> {
    if pos + n <= |buf| then Got(buf[pos..pos + n], pos + n) else Fail(Malformed(pos, PastEnd))
  }

  function ParseU32(buf: seq<byte>, pos: nat): Parsed<u32> {
    var (s, p) :- ParseBytes(buf, pos, 4);
    FromLEBound(s); Pow256Widths();
    Got(FromLE(s), p)
  }

  function ParseU64(buf: seq<byte>, pos: nat): Parsed<u64> {
    var (s, p) :- ParseBytes(buf, pos, 8);
    FromLEBound(s); Pow256Widths();
    Got(FromLE(s), p)
  }

  function ParseName(buf: seq<byte>, pos: nat): Parsed<Name> {
    var (len, p) :- ParseU32(buf, pos);
    var (name, q) :- ParseBytes(buf, p, len);
    if ValidUtf8(name) then Got(name, q) else Fail(Malformed(p, NotUtf8))
  }

  function ParseValue(buf: seq<byte>, pos: nat, table: Name, column: Name): Parsed<Value> {
    var (tag, p) :- ParseBytes(buf, pos, 1);
    match tag[0]
    case 0x00 => Got(Null, p)
    case 0x01 =>
      var (n, q) :- ParseU64(buf, p);
      Got(Integer(FromBitPattern(n)), q)
    case 0x02 =>
      var (bits, q) :- ParseU64(buf, p);
      if IsNaN(bits) || bits == NEGATIVE_ZERO then Fail(NonCanonicalFloat(table, column))
      else Got(Real(bits), q)
    case 0x03 =>
      var (len, q) :- ParseU64(buf, p);
      var (t, r) :- ParseBytes(buf, q, len);
      Got(Text(t), r)
    case 0x04 =>
      var (len, q) :- ParseU64(buf, p);
      var (b, r) :- ParseBytes(buf, q, len);
      Got(Blob(b), r)
    case _ => Fail(Malformed(pos, UnknownTag))
  }

  function ParseRow(buf: seq<byte>, pos: nat, table: Name, columns: seq<Name>): Parsed<seq<Value>>
    decreases |columns|
  {
    if columns == [] then Got([], pos) else
    var (v, p) :- ParseValue(buf, pos, table, columns[0]);
    var (row, q) :- ParseRow(buf, p, table, columns[1..]);
    Got([v] + row, q)
  }

  /** The row decoder of one table unit. */
  function RowParser(table: Name, columns: seq<Name>): Parser<seq<Value>> {
    (buf: seq<byte>, pos: nat) => ParseRow(buf, pos, table, columns)
  }

  function ParseTableHeader(buf: seq<byte>, pos: nat): Parsed<TableHeader> {
    var (name, p) :- ParseName(buf, pos);
    var (colCount, q) :- ParseU32(buf, p);
    var (columns, r) :- ParseMany(ParseName, buf, q, colCount);
    var (rowCount, s) :- ParseU64(buf, r);
    if columns == [] && rowCount != 0 then Fail(Malformed(s, RowsButNoColumns))
    else Got(TableHeader(name, columns, rowCount), s)
  }

  function ParseTable(buf: seq<byte>, pos: nat): Parsed<TableUnit> {
    var (h, p) :- ParseTableHeader(buf, pos);
    var (rows, q) :- ParseMany(RowParser(h.name, h.columns), buf, p, h.rowCount);
    Got(TableUnit(h.name, h.columns, rows), q)
  }

  function ParseSectionHeader(buf: seq<byte>, pos: nat): Parsed<SectionHeader> {
    var (name, p) :- ParseName(buf, pos);
    var (formatVersion, q) :- ParseU32(buf, p);
    var (tableCount, r) :- ParseU32(buf, q);
    Got(SectionHeader(name, formatVersion, tableCount), r)
  }

  function ParseSection(buf: seq<byte>, pos: nat): Parsed<SectionUnit> {
    var (h, p) :- ParseSectionHeader(buf, pos);
    var (tables, q) :- ParseMany(ParseTable, buf, p, h.tableCount);
    Got(SectionUnit(h.name, h.formatVersion, tables), q)
  }

  /** Magic, then version, then nothing else is trusted: yields the section count. */
  function ParsePreamble(buf: seq<byte>): Parsed<u32> {
    if |buf| < |MAGIC| || buf[..|MAGIC|] != MAGIC then Fail(BadMagic) else
    var (version, p) :- ParseU32(buf, |MAGIC|);
    if version != ARTIFACT_VERSION then Fail(UnsupportedArtifactVersion(version)) else
    ParseU32(buf, p)
  }

  /** Nothing may follow the last section. */
  function Finish<T>(buf: seq<byte>, parsed: Parsed<T>): Result<T> {
    match parsed
    case Fail(e) => Err(e)
    case Got(x, p) => if p == |buf| then Ok(x) else Err(Malformed(p, TrailingBytes))
  }

  function ParseArtifact(buf: seq<byte>): Result<Tree> {
    match ParsePreamble(buf)
    case Fail(e) => Err(e)
    case Got(sectionCount, p) => Finish(buf, ParseMany(ParseSection, buf, p, sectionCount))
  }
}
