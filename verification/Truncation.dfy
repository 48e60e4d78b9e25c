/** Cut short anywhere, an artifact is refused for its magic or for running past its end. */
module Truncation {
  import opened Bytes
  import opened Codec
  import opened Artifact

  /** Refused for bytes that are missing, at an offset between where reading began and the end. */
  ghost predicate RanOut<T>(r: Parsed<T>, pos: nat, n: nat) {
    r.Fail? && r.error.Malformed? && r.error.what == PastEnd && pos <= r.error.offset <= n
  }

  /** What `g` makes of the first `n` bytes, where it succeeds on all of them. */
  ghost predicate Cut<T>(g: Parser<T>, buf: seq<byte>, n: nat, pos: nat)
    requires n <= |buf|
  {
    g(buf, pos).Got? ==>
      && g(buf, pos).pos >= pos
      && (pos <= n ==>
            if g(buf, pos).pos <= n then g(buf[..n], pos) == g(buf, pos) else RanOut(g(buf[..n], pos), pos, n))
  }

  ghost predicate Cuts<T>(g: Parser<T>, buf: seq<byte>, n: nat)
    requires n <= |buf|
  {
    forall pos: nat :: Cut(g, buf, n, pos)
  }

  // ----- integers, names, values

  function BytesParser(k: nat): Parser<seq<byte>> { (buf: seq<byte>, pos: nat) => ParseBytes(buf, pos, k) }

  lemma {:induction false} BytesCut(buf: seq<byte>, n: nat, k: nat, pos: nat)
    requires n <= |buf|
    ensures Cut(BytesParser(k), buf, n, pos)
  {
    if pos + k <= n {
      assert buf[..n][pos..pos + k] == buf[pos..pos + k];
    }
  }

  lemma {:induction false} IntegersCut(buf: seq<byte>, n: nat, pos: nat)
    requires n <= |buf|
    ensures Cut(ParseU32, buf, n, pos) && Cut(ParseU64, buf, n, pos)
  {
    hide FromLE;
    BytesCut(buf, n, 4, pos);
    BytesCut(buf, n, 8, pos);
  }

  lemma {:induction false} NamesCut(buf: seq<byte>, n: nat)
    requires n <= |buf|
    ensures Cuts(ParseName, buf, n)
  {
    hide ValidUtf8, ParseU32, ParseBytes;
    forall pos: nat ensures Cut(ParseName, buf, n, pos) {
      IntegersCut(buf, n, pos);
      if ParseU32(buf, pos).Got? {
        BytesCut(buf, n, ParseU32(buf, pos).value, ParseU32(buf, pos).pos);
      }
    }
  }

  function ValueParser(table: Name, column: Name): Parser<Value> {
    (buf: seq<byte>, pos: nat) => ParseValue(buf, pos, table, column)
  }

  lemma {:induction false} ValueCut(buf: seq<byte>, n: nat, table: Name, column: Name, pos: nat)
    requires n <= |buf|
    ensures Cut(ValueParser(table, column), buf, n, pos)
  {
    hide ParseU64, FromBitPattern, IsNaN, ParseBytes;
    BytesCut(buf, n, 1, pos);
    IntegersCut(buf, n, pos + 1);
    TagAt(buf, pos);
    TagAt(buf[..n], pos);
    if ParseU64(buf, pos + 1).Got? {
      BytesCut(buf, n, ParseU64(buf, pos + 1).value, ParseU64(buf, pos + 1).pos);
    }
  }

  lemma {:induction false} TagAt(buf: seq<byte>, pos: nat)
    ensures ParseBytes(buf, pos, 1).Got? ==>
            |ParseBytes(buf, pos, 1).value| == 1 && ParseBytes(buf, pos, 1).pos == pos + 1
  {
  }

  // ----- rows and lists

  lemma {:induction false} RowCut(buf: seq<byte>, n: nat, table: Name, columns: seq<Name>, pos: nat)
    requires n <= |buf|
    ensures Cut(RowParser(table, columns), buf, n, pos)
    decreases |columns|
  {
    hide ParseValue;
    if columns != [] {
      ValueCut(buf, n, table, columns[0], pos);
      var g := ValueParser(table, columns[0]);
      if g(buf, pos).Got? {
        RowCut(buf, n, table, columns[1..], g(buf, pos).pos);
        var rest := RowParser(table, columns[1..]);
        assert rest(buf, g(buf, pos).pos) == ParseRow(buf, g(buf, pos).pos, table, columns[1..]);
      }
    }
  }

  function ManyParser<T>(g: Parser<T>, count: nat): Parser<seq<T>> {
    (buf: seq<byte>, pos: nat) => ParseMany(g, buf, pos, count)
  }

  lemma {:induction false} ManyCut<T>(g: Parser<T>, buf: seq<byte>, n: nat, count: nat, pos: nat)
    requires n <= |buf| && Cuts(g, buf, n)
    ensures Cut(ManyParser(g, count), buf, n, pos)
    decreases count
  {
    if count > 0 {
      assert Cut(g, buf, n, pos);
      if g(buf, pos).Got? {
        ManyCut(g, buf, n, count - 1, g(buf, pos).pos);
        var rest := ManyParser(g, count - 1);
        assert rest(buf, g(buf, pos).pos) == ParseMany(g, buf, g(buf, pos).pos, count - 1);
      }
    }
  }

  // ----- units, sections, artifacts

  lemma {:induction false} TableHeaderCut(buf: seq<byte>, n: nat, pos: nat)
    requires n <= |buf|
    ensures Cut(ParseTableHeader, buf, n, pos)
  {
    hide ParseName, ParseU32, ParseU64, ParseMany, Cuts;
    NamesCut(buf, n);
    CutAt(ParseName, buf, n, pos);
    if ParseName(buf, pos).Got? {
      var p := ParseName(buf, pos).pos;
      IntegersCut(buf, n, p);
      if ParseU32(buf, p).Got? {
        var count, q := ParseU32(buf, p).value, ParseU32(buf, p).pos;
        ManyCut(ParseName, buf, n, count, q);
        assert ManyParser(ParseName, count)(buf, q) == ParseMany(ParseName, buf, q, count);
        assert ManyParser(ParseName, count)(buf[..n], q) == ParseMany(ParseName, buf[..n], q, count);
        if ParseMany(ParseName, buf, q, count).Got? {
          IntegersCut(buf, n, ParseMany(ParseName, buf, q, count).pos);
        }
      }
    }
  }

  lemma {:induction false} CutAt<T>(g: Parser<T>, buf: seq<byte>, n: nat, pos: nat)
    requires n <= |buf| && Cuts(g, buf, n)
    ensures Cut(g, buf, n, pos)
  {
  }

  lemma {:induction false} TablesCut(buf: seq<byte>, n: nat)
    requires n <= |buf|
    ensures Cuts(ParseTable, buf, n)
  {
    hide ParseTableHeader, ParseMany, RowParser;
    forall pos: nat ensures Cut(ParseTable, buf, n, pos) {
      TableHeaderCut(buf, n, pos);
      if ParseTableHeader(buf, pos).Got? {
        var h, p := ParseTableHeader(buf, pos).value, ParseTableHeader(buf, pos).pos;
        var rows := RowParser(h.name, h.columns);
        forall at: nat ensures Cut(rows, buf, n, at) {
          RowCut(buf, n, h.name, h.columns, at);
        }
        ManyCut(rows, buf, n, h.rowCount, p);
        assert ManyParser(rows, h.rowCount)(buf, p) == ParseMany(rows, buf, p, h.rowCount);
        assert ManyParser(rows, h.rowCount)(buf[..n], p) == ParseMany(rows, buf[..n], p, h.rowCount);
      }
    }
  }

  lemma {:induction false} SectionHeaderCut(buf: seq<byte>, n: nat, pos: nat)
    requires n <= |buf|
    ensures Cut(ParseSectionHeader, buf, n, pos)
  {
    hide ParseName, ParseU32, ParseU64, Cuts;
    NamesCut(buf, n);
    CutAt(ParseName, buf, n, pos);
    if ParseName(buf, pos).Got? {
      var p := ParseName(buf, pos).pos;
      IntegersCut(buf, n, p);
      if ParseU32(buf, p).Got? {
        IntegersCut(buf, n, ParseU32(buf, p).pos);
      }
    }
  }

  lemma {:induction false} SectionsCut(buf: seq<byte>, n: nat)
    requires n <= |buf|
    ensures Cuts(ParseSection, buf, n)
  {
    hide ParseSectionHeader, ParseMany, ParseTable;
    forall pos: nat ensures Cut(ParseSection, buf, n, pos) {
      SectionHeaderCut(buf, n, pos);
      if ParseSectionHeader(buf, pos).Got? {
        var h, p := ParseSectionHeader(buf, pos).value, ParseSectionHeader(buf, pos).pos;
        TablesCut(buf, n);
        ManyCut(ParseTable, buf, n, h.tableCount, p);
        assert ManyParser(ParseTable, h.tableCount)(buf, p) == ParseMany(ParseTable, buf, p, h.tableCount);
        assert ManyParser(ParseTable, h.tableCount)(buf[..n], p) == ParseMany(ParseTable, buf[..n], p, h.tableCount);
      }
    }
  }

  lemma {:induction false} PreambleCut(buf: seq<byte>, n: nat)
    requires n <= |buf| && ParsePreamble(buf).Got?
    ensures n < 8 ==> ParsePreamble(buf[..n]) == Fail(BadMagic)
    ensures 8 <= n < 16 ==> RanOut(ParsePreamble(buf[..n]), 8, n)
    ensures 16 <= n ==> ParsePreamble(buf[..n]) == ParsePreamble(buf)
    ensures ParsePreamble(buf).pos == 16
  {
    hide FromLE;
    if 8 <= n {
      assert buf[..n][..8] == buf[..8];
      IntegersCut(buf, n, 8);
      if 12 <= n {
        IntegersCut(buf, n, 12);
      }
    }
  }

  /** Every strict prefix of a well-formed artifact is refused: for its magic, or for running past its end. */
  lemma {:induction false} StrictPrefixesRejected(artifact: seq<byte>, n: nat)
    requires ParseArtifact(artifact).Ok? && n < |artifact|
    ensures ParseArtifact(artifact[..n]).Err?
    ensures var e := ParseArtifact(artifact[..n]).error;
            if n < 8 then e == BadMagic else e.Malformed? && e.what == PastEnd && 8 <= e.offset <= n
  {
    hide ParsePreamble, ParseMany, ParseSection;
    PreambleCut(artifact, n);
    if 16 <= n {
      var Got(count, p) := ParsePreamble(artifact);
      SectionsCut(artifact, n);
      ManyCut(ParseSection, artifact, n, count, p);
      assert ManyParser(ParseSection, count)(artifact, p) == ParseMany(ParseSection, artifact, p, count);
      assert ManyParser(ParseSection, count)(artifact[..n], p) == ParseMany(ParseSection, artifact[..n], p, count);
    }
  }
}
