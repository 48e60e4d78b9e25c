/** The decoder and the encoder of the snapshot container are exact inverses.

    Every lemma `XExact` has one shape: decoding an X at `pos` yields `x` and stops at `p`
    if and only if `x` fits the container and the bytes from `pos` to `p` are its encoding. */
module ArtifactExact {
  import opened Bytes
  import opened Codec
  import opened Artifact

  // ----- fixed-width fields, names, values

  lemma {:induction false} U32Exact(buf: seq<byte>, pos: nat, n: u32, p: nat)
    ensures ParseU32(buf, pos) == Got(n, p) <==> Spans(buf, pos, U32Bytes(n), p)
  {
    Pow256Widths();
    if pos + 4 <= |buf| {
      LEExact(buf[pos..pos + 4], n);
    }
  }

  lemma {:induction false} U64Exact(buf: seq<byte>, pos: nat, n: u64, p: nat)
    ensures ParseU64(buf, pos) == Got(n, p) <==> Spans(buf, pos, U64Bytes(n), p)
  {
    Pow256Widths();
    if pos + 8 <= |buf| {
      LEExact(buf[pos..pos + 8], n);
    }
  }

  lemma {:induction false} NameExact(buf: seq<byte>, pos: nat, name: Name, p: nat)
    ensures ParseName(buf, pos) == Got(name, p) <==> NameFits(name) && Spans(buf, pos, EncodeName(name), p)
  {
    AtConcat(buf, pos, U32Bytes(|name|), name);
    if |name| < TWO_32 {
      U32Exact(buf, pos, |name|, pos + 4);
    }
    match ParseU32(buf, pos)
    case Fail(_) =>
    case Got(len, q) =>
      U32Exact(buf, pos, len, q);
  }

  lemma {:induction false} LengthPrefixedExact(buf: seq<byte>, pos: nat, s: seq<byte>, p: nat)
    requires |s| < TWO_64
    ensures Spans(buf, pos, U64Bytes(|s|) + s, p)
       <==> ParseU64(buf, pos) == Got(|s|, pos + 8) && ParseBytes(buf, pos + 8, |s|) == Got(s, p)
  {
    AtConcat(buf, pos, U64Bytes(|s|), s);
    U64Exact(buf, pos, |s|, pos + 8);
  }

  /** A value's tag byte, then its payload. */
  lemma {:induction false} ValueSplit(buf: seq<byte>, pos: nat, v: Value, p: nat)
    ensures Spans(buf, pos, EncodeValue(v), p)
       <==> pos < |buf| && buf[pos] == EncodeValue(v)[0] && Spans(buf, pos + 1, EncodeValue(v)[1..], p)
  {
    var enc := EncodeValue(v);
    assert enc == [enc[0]] + enc[1..];
    AtConcat(buf, pos, [enc[0]], enc[1..]);
    assert pos < |buf| ==> buf[pos..pos + 1] == [buf[pos]];
  }

  lemma {:induction false} ValueComplete(buf: seq<byte>, pos: nat, table: Name, column: Name, v: Value, p: nat)
    requires ValueFits(v) && Spans(buf, pos, EncodeValue(v), p)
    ensures ParseValue(buf, pos, table, column) == Got(v, p)
  {
    ValueSplit(buf, pos, v, p);
    match v
    case Null =>
    case Integer(i) =>
      U64Exact(buf, pos + 1, BitPattern(i), p);
    case Real(bits) =>
      U64Exact(buf, pos + 1, bits, p);
    case Text(t) =>
      LengthPrefixedExact(buf, pos + 1, t, p);
    case Blob(b) =>
      LengthPrefixedExact(buf, pos + 1, b, p);
  }

  lemma {:induction false} ValueSound(buf: seq<byte>, pos: nat, table: Name, column: Name, v: Value, p: nat)
    requires ParseValue(buf, pos, table, column) == Got(v, p)
    ensures ValueFits(v) && Spans(buf, pos, EncodeValue(v), p)
  {
    ValueSplit(buf, pos, v, p);
    match v
    case Null =>
    case Integer(i) =>
      U64Exact(buf, pos + 1, BitPattern(i), p);
    case Real(bits) =>
      U64Exact(buf, pos + 1, bits, p);
    case Text(t) =>
      LengthPrefixedExact(buf, pos + 1, t, p);
    case Blob(b) =>
      LengthPrefixedExact(buf, pos + 1, b, p);
  }

  lemma {:induction false} ValueExact(buf: seq<byte>, pos: nat, table: Name, column: Name, v: Value, p: nat)
    ensures ParseValue(buf, pos, table, column) == Got(v, p) <==> ValueFits(v) && Spans(buf, pos, EncodeValue(v), p)
  {
    hide ParseValue, EncodeValue, ValueFits, Spans;
    if ParseValue(buf, pos, table, column) == Got(v, p) {
      ValueSound(buf, pos, table, column, v, p);
    }
    if ValueFits(v) && Spans(buf, pos, EncodeValue(v), p) {
      ValueComplete(buf, pos, table, column, v, p);
    }
  }

  // ----- rows and tables

  lemma {:induction false} RowSound(buf: seq<byte>, pos: nat, table: Name, columns: seq<Name>, row: seq<Value>, p: nat)
    requires pos <= |buf| && ParseRow(buf, pos, table, columns) == Got(row, p)
    ensures RowFits(row, |columns|) && Spans(buf, pos, EncodeRow(row), p)
    decreases |columns|
  {
    if columns != [] {
      var Got(v, q) := ParseValue(buf, pos, table, columns[0]);
      ValueExact(buf, pos, table, columns[0], v, q);
      hide ParseValue, EncodeValue, ValueFits;
      var rest := row[1..];
      assert row == [v] + rest;
      RowSound(buf, q, table, columns[1..], rest, p);
      SpansConcat(buf, pos, EncodeValue(v), q, EncodeRow(rest), p);
    }
  }

  lemma {:induction false} RowComplete(buf: seq<byte>, pos: nat, table: Name, columns: seq<Name>, row: seq<Value>,
      p: nat)
    requires RowFits(row, |columns|) && Spans(buf, pos, EncodeRow(row), p)
    ensures ParseRow(buf, pos, table, columns) == Got(row, p)
    decreases |columns|
  {
    hide ParseValue, EncodeValue, ValueFits;
    if columns != [] {
      var v, rest, q := row[0], row[1..], pos + |EncodeValue(row[0])|;
      AtConcat(buf, pos, EncodeValue(v), EncodeRow(rest));
      ValueExact(buf, pos, table, columns[0], v, q);
      RowComplete(buf, q, table, columns[1..], rest, p);
      assert row == [v] + rest;
    }
  }

  lemma {:induction false} RowExact(buf: seq<byte>, table: Name, columns: seq<Name>)
    ensures Exact(RowParser(table, columns), EncodeRow, FitsWidth(|columns|), buf)
  {
    hide ParseRow, EncodeRow, RowFits, Spans;
    forall pos: nat, row, p: nat | pos <= |buf|
      ensures ParseRow(buf, pos, table, columns) == Got(row, p)
         <==> RowFits(row, |columns|) && Spans(buf, pos, EncodeRow(row), p)
    {
      if ParseRow(buf, pos, table, columns) == Got(row, p) {
        RowSound(buf, pos, table, columns, row, p);
      }
      if RowFits(row, |columns|) && Spans(buf, pos, EncodeRow(row), p) {
        RowComplete(buf, pos, table, columns, row, p);
      }
    }
  }

  lemma {:induction false} NamesExact(buf: seq<byte>, pos: nat, count: nat, names: seq<Name>, p: nat)
    requires pos <= |buf|
    ensures ParseMany(ParseName, buf, pos, count) == Got(names, p)
       <==> |names| == count && AllFit(NameFits, names) && Spans(buf, pos, EncodeMany(EncodeName, names), p)
  {
    hide ParseName, EncodeName, NameFits, Spans;
    forall pos: nat, name, p: nat | pos <= |buf|
      ensures ParseName(buf, pos) == Got(name, p) <==> NameFits(name) && Spans(buf, pos, EncodeName(name), p)
    {
      NameExact(buf, pos, name, p);
    }
    ManyExact(ParseName, EncodeName, NameFits, buf, pos, count, names, p);
  }

  lemma {:induction false} TableHeaderComplete(buf: seq<byte>, pos: nat, h: TableHeader, p: nat)
    requires TableHeaderFits(h) && Spans(buf, pos, EncodeTableHeader(h), p)
    ensures ParseTableHeader(buf, pos) == Got(h, p)
  {
    hide EncodeName, EncodeMany, U32Bytes, U64Bytes, ParseName, ParseMany, ParseU32, ParseU64, NameFits;
    var a, b, c, d := EncodeName(h.name), U32Bytes(|h.columns|), EncodeMany(EncodeName, h.columns),
        U64Bytes(h.rowCount);
    var q := pos + |a|;
    var r := q + 4 + |c|;
    AtConcat(buf, pos, a, b + (c + d));
    AtConcat(buf, q, b, c + d);
    AtConcat(buf, q + 4, c, d);
    NameExact(buf, pos, h.name, q);
    U32Exact(buf, q, |h.columns|, q + 4);
    NamesExact(buf, q + 4, |h.columns|, h.columns, r);
    U64Exact(buf, r, h.rowCount, p);
  }

  lemma {:induction false} TableHeaderSound(buf: seq<byte>, pos: nat, h: TableHeader, p: nat)
    requires ParseTableHeader(buf, pos) == Got(h, p)
    ensures TableHeaderFits(h) && Spans(buf, pos, EncodeTableHeader(h), p)
  {
    hide EncodeName, EncodeMany, U32Bytes, U64Bytes, ParseName, ParseMany, ParseU32, ParseU64, NameFits;
    var Got(name, q) := ParseName(buf, pos);
    var Got(count, q') := ParseU32(buf, q);
    var Got(columns, r) := ParseMany(ParseName, buf, q', count);
    NameExact(buf, pos, h.name, q);
    U32Exact(buf, q, count, q');
    NamesExact(buf, q', count, h.columns, r);
    U64Exact(buf, r, h.rowCount, p);
    var a, b, c, d := EncodeName(h.name), U32Bytes(|h.columns|), EncodeMany(EncodeName, h.columns),
        U64Bytes(h.rowCount);
    SpansConcat(buf, q', c, r, d, p);
    SpansConcat(buf, q, b, q', c + d, p);
    SpansConcat(buf, pos, a, q, b + (c + d), p);
  }

  lemma {:induction false} RowsExact(buf: seq<byte>, pos: nat, h: TableHeader, rows: seq<seq<Value>>, p: nat)
    requires pos <= |buf|
    ensures ParseMany(RowParser(h.name, h.columns), buf, pos, h.rowCount) == Got(rows, p)
       <==> && |rows| == h.rowCount && AllFit(FitsWidth(|h.columns|), rows)
            && Spans(buf, pos, EncodeMany(EncodeRow, rows), p)
  {
    hide ParseMany, EncodeMany, RowFits, Spans, Exact;
    RowExact(buf, h.name, h.columns);
    ManyExact(RowParser(h.name, h.columns), EncodeRow, FitsWidth(|h.columns|), buf, pos, h.rowCount, rows, p);
  }

  lemma {:induction false} TableComplete(buf: seq<byte>, pos: nat, t: TableUnit, p: nat)
    requires TableFits(t) && Spans(buf, pos, EncodeTable(t), p)
    ensures ParseTable(buf, pos) == Got(t, p)
  {
    hide EncodeTableHeader, EncodeMany, ParseTableHeader, ParseMany, TableHeaderFits, RowFits;
    var h := HeaderOf(t);
    var q := pos + |EncodeTableHeader(h)|;
    AtConcat(buf, pos, EncodeTableHeader(h), EncodeMany(EncodeRow, t.rows));
    TableHeaderComplete(buf, pos, h, q);
    RowsExact(buf, q, h, t.rows, p);
  }

  lemma {:induction false} TableSound(buf: seq<byte>, pos: nat, t: TableUnit, p: nat)
    requires ParseTable(buf, pos) == Got(t, p)
    ensures TableFits(t) && Spans(buf, pos, EncodeTable(t), p)
  {
    hide EncodeTableHeader, EncodeMany, ParseTableHeader, ParseMany, TableHeaderFits, RowFits;
    var Got(h, q) := ParseTableHeader(buf, pos);
    TableHeaderSound(buf, pos, h, q);
    RowsExact(buf, q, h, t.rows, p);
    assert h == HeaderOf(t);
    SpansConcat(buf, pos, EncodeTableHeader(h), q, EncodeMany(EncodeRow, t.rows), p);
  }

  lemma {:induction false} TableExact(buf: seq<byte>)
    ensures Exact(ParseTable, EncodeTable, TableFits, buf)
  {
    hide ParseTable, EncodeTable, TableFits, Spans;
    forall pos: nat, t, p: nat | pos <= |buf|
      ensures ParseTable(buf, pos) == Got(t, p) <==> TableFits(t) && Spans(buf, pos, EncodeTable(t), p)
    {
      if ParseTable(buf, pos) == Got(t, p) {
        TableSound(buf, pos, t, p);
      }
      if TableFits(t) && Spans(buf, pos, EncodeTable(t), p) {
        TableComplete(buf, pos, t, p);
      }
    }
  }

  // ----- sections and the whole artifact

  lemma {:induction false} SectionHeaderComplete(buf: seq<byte>, pos: nat, h: SectionHeader, p: nat)
    requires SectionHeaderFits(h) && Spans(buf, pos, EncodeSectionHeader(h), p)
    ensures ParseSectionHeader(buf, pos) == Got(h, p)
  {
    hide EncodeName, U32Bytes, ParseName, ParseU32, NameFits;
    var a, b, c := EncodeName(h.name), U32Bytes(h.formatVersion), U32Bytes(h.tableCount);
    var q := pos + |a|;
    AtConcat(buf, pos, a, b + c);
    AtConcat(buf, q, b, c);
    NameExact(buf, pos, h.name, q);
    U32Exact(buf, q, h.formatVersion, q + 4);
    U32Exact(buf, q + 4, h.tableCount, p);
  }

  lemma {:induction false} SectionHeaderSound(buf: seq<byte>, pos: nat, h: SectionHeader, p: nat)
    requires ParseSectionHeader(buf, pos) == Got(h, p)
    ensures SectionHeaderFits(h) && Spans(buf, pos, EncodeSectionHeader(h), p)
  {
    hide EncodeName, U32Bytes, ParseName, ParseU32, NameFits;
    var Got(name, q) := ParseName(buf, pos);
    var Got(version, r) := ParseU32(buf, q);
    NameExact(buf, pos, h.name, q);
    U32Exact(buf, q, h.formatVersion, r);
    U32Exact(buf, r, h.tableCount, p);
    SpansConcat(buf, q, U32Bytes(h.formatVersion), r, U32Bytes(h.tableCount), p);
    SpansConcat(buf, pos, EncodeName(h.name), q, U32Bytes(h.formatVersion) + U32Bytes(h.tableCount), p);
  }

  lemma {:induction false} SectionComplete(buf: seq<byte>, pos: nat, s: SectionUnit, p: nat)
    requires SectionFits(s) && Spans(buf, pos, EncodeSection(s), p)
    ensures ParseSection(buf, pos) == Got(s, p)
  {
    hide EncodeSectionHeader, EncodeMany, ParseSectionHeader, ParseMany, SectionHeaderFits, TableFits;
    var h := SectionHeaderOf(s);
    var q := pos + |EncodeSectionHeader(h)|;
    AtConcat(buf, pos, EncodeSectionHeader(h), EncodeMany(EncodeTable, s.tables));
    SectionHeaderComplete(buf, pos, h, q);
    TableExact(buf);
    ManyExact(ParseTable, EncodeTable, TableFits, buf, q, h.tableCount, s.tables, p);
  }

  lemma {:induction false} SectionSound(buf: seq<byte>, pos: nat, s: SectionUnit, p: nat)
    requires ParseSection(buf, pos) == Got(s, p)
    ensures SectionFits(s) && Spans(buf, pos, EncodeSection(s), p)
  {
    hide EncodeSectionHeader, EncodeMany, ParseSectionHeader, ParseMany, SectionHeaderFits, TableFits;
    var Got(h, q) := ParseSectionHeader(buf, pos);
    SectionHeaderSound(buf, pos, h, q);
    TableExact(buf);
    ManyExact(ParseTable, EncodeTable, TableFits, buf, q, h.tableCount, s.tables, p);
    assert h == SectionHeaderOf(s);
    SpansConcat(buf, pos, EncodeSectionHeader(h), q, EncodeMany(EncodeTable, s.tables), p);
  }

  lemma {:induction false} SectionExact(buf: seq<byte>)
    ensures Exact(ParseSection, EncodeSection, SectionFits, buf)
  {
    hide ParseSection, EncodeSection, SectionFits, Spans;
    forall pos: nat, s, p: nat | pos <= |buf|
      ensures ParseSection(buf, pos) == Got(s, p) <==> SectionFits(s) && Spans(buf, pos, EncodeSection(s), p)
    {
      if ParseSection(buf, pos) == Got(s, p) {
        SectionSound(buf, pos, s, p);
      }
      if SectionFits(s) && Spans(buf, pos, EncodeSection(s), p) {
        SectionComplete(buf, pos, s, p);
      }
    }
  }

  lemma {:induction false} PreambleExact(buf: seq<byte>, count: u32, p: nat)
    ensures ParsePreamble(buf) == Got(count, p) <==> Spans(buf, 0, EncodePreamble(count), p)
  {
    hide U32Bytes, ParseU32;
    var b, c := U32Bytes(ARTIFACT_VERSION), U32Bytes(count);
    AtConcat(buf, 0, MAGIC, b + c);
    AtConcat(buf, 8, b, c);
    U32Exact(buf, 8, ARTIFACT_VERSION, 12);
    U32Exact(buf, 12, count, p);
    match ParseU32(buf, 8)
    case Fail(_) =>
    case Got(version, q) =>
      U32Exact(buf, 8, version, q);
  }

  /** Where the sections of an accepted artifact start and end. */
  lemma {:induction false} SectionsExact(buf: seq<byte>, count: nat, tree: Tree, start: nat, p: nat)
    requires start <= |buf|
    ensures ParseMany(ParseSection, buf, start, count) == Got(tree, p)
       <==> |tree| == count && AllFit(SectionFits, tree) && Spans(buf, start, EncodeMany(EncodeSection, tree), p)
  {
    hide ParseMany, EncodeMany, SectionFits, Spans, Exact;
    SectionExact(buf);
    ManyExact(ParseSection, EncodeSection, SectionFits, buf, start, count, tree, p);
  }

  /** Bytes that begin with an encoded tree decode to that tree, and the decoder stops at its end. */
  lemma {:induction false} DecodesEncodedPrefix(buf: seq<byte>, tree: Tree, p: nat)
    requires TreeFits(tree) && Spans(buf, 0, EncodeArtifact(tree), p)
    ensures ParseArtifact(buf) == Finish(buf, Got(tree, p))
  {
    hide EncodePreamble, EncodeMany, ParsePreamble, ParseMany, SectionFits;
    var head := EncodePreamble(|tree|);
    AtConcat(buf, 0, head, EncodeMany(EncodeSection, tree));
    PreambleExact(buf, |tree|, |head|);
    SectionsExact(buf, |tree|, tree, |head|, p);
  }

  lemma {:induction false} ParseArtifactSound(buf: seq<byte>, tree: Tree)
    requires ParseArtifact(buf) == Ok(tree)
    ensures TreeFits(tree) && buf == EncodeArtifact(tree)
  {
    hide EncodePreamble, EncodeMany, ParsePreamble, ParseMany, SectionFits;
    var Got(count, q) := ParsePreamble(buf);
    PreambleExact(buf, count, q);
    SectionsExact(buf, count, tree, q, |buf|);
    SpansConcat(buf, 0, EncodePreamble(count), q, EncodeMany(EncodeSection, tree), |buf|);
    assert buf[0..|buf|] == buf;
  }

  /** The container decode is an exact inverse of the encode, on every byte string. */
  lemma {:induction false} ParseArtifactExact(buf: seq<byte>, tree: Tree)
    ensures ParseArtifact(buf) == Ok(tree) <==> TreeFits(tree) && buf == EncodeArtifact(tree)
  {
    hide ParseArtifact, EncodeArtifact, TreeFits;
    if ParseArtifact(buf) == Ok(tree) {
      ParseArtifactSound(buf, tree);
    }
    if TreeFits(tree) && buf == EncodeArtifact(tree) {
      assert buf[0..|buf|] == buf;
      DecodesEncodedPrefix(buf, tree, |buf|);
    }
  }

  /** Distinct accepted artifacts decode to distinct trees. */
  lemma {:induction false} AcceptedTreesDistinguishBytes(a: seq<byte>, b: seq<byte>)
    requires ParseArtifact(a).Ok? && ParseArtifact(b).Ok?
    ensures ParseArtifact(a) == ParseArtifact(b) <==> a == b
  {
    hide ParseArtifact, EncodeArtifact, TreeFits;
    ParseArtifactSound(a, ParseArtifact(a).value);
    ParseArtifactSound(b, ParseArtifact(b).value);
  }

  /** Every strict extension of an accepted artifact is rejected, naming the offset where the
      artifact should have ended. */
  lemma {:induction false} StrictExtensionsRejected(a: seq<byte>, extra: seq<byte>)
    requires ParseArtifact(a).Ok? && extra != []
    ensures ParseArtifact(a + extra) == Err(Malformed(|a|, TrailingBytes))
  {
    hide ParseArtifact, EncodeArtifact, TreeFits;
    var tree := ParseArtifact(a).value;
    ParseArtifactSound(a, tree);
    assert (a + extra)[0..|a|] == a;
    DecodesEncodedPrefix(a + extra, tree, |a|);
  }
}
