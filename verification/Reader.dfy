/** The importer as it runs: a bounds-checked cursor over the artifact, the structural decode of
    `read_section_headers`, and the import that inserts rows as it reads them. */
module Reader {
  import opened Bytes
  import opened Codec
  import opened Artifact
  import opened Sqlite
  import opened Export
  import opened Import
  import opened Scanning

  /** `r` and the new position are what the decoder function says. */
  ghost predicate Agrees<T>(parsed: Parsed<T>, r: Result<T>, pos: nat) {
    match parsed
    case Got(x, p) => r == Ok(x) && pos == p
    case Fail(e) => r == Err(e)
  }

  class Cursor {
    const buf: seq<byte>
    var pos: nat
    /** Loop iterations the decode has started: names, values, rows, tables, sections. */
    ghost var steps: nat

    ghost predicate Valid()
      reads this
    { pos <= |buf| }

    constructor (artifact: seq<byte>)
      ensures Valid() && buf == artifact && pos == 0 && steps == 0
    {
      buf := artifact;
      pos := 0;
      steps := 0;
    }

    method ReadBytes(n: nat) returns (r: Result<seq<byte>>)
      requires Valid()
      modifies this
      ensures Valid() && Agrees(ParseBytes(buf, old(pos), n), r, pos) && steps == old(steps)
      ensures r.Err? ==> pos == old(pos)
    {
      if pos + n > |buf| {
        return Err(Malformed(pos, PastEnd));
      }
      r := Ok(buf[pos..pos + n]);
      pos := pos + n;
    }

    method ReadU32() returns (r: Result<u32>)
      requires Valid()
      modifies this
      ensures Valid() && Agrees(ParseU32(buf, old(pos)), r, pos) && steps == old(steps)
      ensures pos >= old(pos) && (r.Ok? ==> pos == old(pos) + 4)
    {
      var s :- ReadBytes(4);
      FromLEBound(s); Pow256Widths();
      r := Ok(FromLE(s));
    }

    method ReadU64() returns (r: Result<u64>)
      requires Valid()
      modifies this
      ensures Valid() && Agrees(ParseU64(buf, old(pos)), r, pos) && steps == old(steps)
      ensures pos >= old(pos) && (r.Ok? ==> pos == old(pos) + 8)
    {
      var s :- ReadBytes(8);
      FromLEBound(s); Pow256Widths();
      r := Ok(FromLE(s));
    }

    method ReadName() returns (r: Result<Name>)
      requires Valid()
      modifies this
      ensures Valid() && Agrees(ParseName(buf, old(pos)), r, pos) && steps == old(steps)
      ensures pos >= old(pos) && (r.Ok? ==> pos >= old(pos) + 4)
    {
      var len :- ReadU32();
      var start := pos;
      var name :- ReadBytes(len);
      if ValidUtf8(name) {
        r := Ok(name);
      } else {
        r := Err(Malformed(start, NotUtf8));
      }
    }

    method DecodeValue(table: Name, column: Name) returns (r: Result<Value>)
      requires Valid()
      modifies this
      ensures Valid() && Agrees(ParseValue(buf, old(pos), table, column), r, pos) && steps == old(steps)
      ensures pos >= old(pos) && (r.Ok? ==> pos >= old(pos) + 1)
    {
      var tag :- ReadBytes(1);
      match tag[0] {
        case 0x00 =>
          r := Ok(Null);
        case 0x01 =>
          var n :- ReadU64();
          r := Ok(Integer(FromBitPattern(n)));
        case 0x02 =>
          var bits :- ReadU64();
          r := if IsNaN(bits) || bits == NEGATIVE_ZERO then Err(NonCanonicalFloat(table, column)) else Ok(Real(bits));
        case 0x03 =>
          var len :- ReadU64();
          var t :- ReadBytes(len);
          r := Ok(Text(t));
        case 0x04 =>
          var len :- ReadU64();
          var b :- ReadBytes(len);
          r := Ok(Blob(b));
        case _ =>
          r := Err(Malformed(pos - 1, UnknownTag));
      }
    }

    method ReadColumns(count: u32) returns (r: Result<seq<Name>>)
      requires Valid()
      modifies this
      ensures Valid() && Agrees(ParseMany(ParseName, buf, old(pos), count), r, pos)
      ensures pos >= old(pos) && steps - old(steps) <= pos - old(pos) + (if r.Ok? then 0 else 1)
    {
      hide ParseName;
      ghost var whole := ParseMany(ParseName, buf, pos, count);
      var columns: seq<Name>, i := [], 0;
      ResumeEnds(whole, [], 0);
      while i < count
        invariant Valid() && 0 <= i <= count && pos >= old(pos)
        invariant whole == Resume(columns, ParseMany(ParseName, buf, pos, count - i))
        invariant steps - old(steps) <= pos - old(pos)
      {
        ResumeStep(ParseName, buf, pos, count - i, columns);
        steps := steps + 1;
        var name :- ReadName();
        columns := columns + [name];
        i := i + 1;
      }
      ResumeEnds(whole, columns, pos);
      r := Ok(columns);
    }

    method ReadTableHeader() returns (r: Result<TableHeader>)
      requires Valid()
      modifies this
      ensures Valid() && Agrees(ParseTableHeader(buf, old(pos)), r, pos)
      ensures r.Ok? ==> (r.value.columns == [] ==> r.value.rowCount == 0)
      ensures pos >= old(pos) && (r.Ok? ==> pos >= old(pos) + 16)
      ensures steps - old(steps) <= pos - old(pos) + (if r.Ok? then 0 else 1)
    {
      hide ParseName, ParseMany, ParseU32, ParseU64;
      var name :- ReadName();
      var colCount :- ReadU32();
      var columns :- ReadColumns(colCount);
      var rowCount :- ReadU64();
      if columns == [] && rowCount != 0 {
        return Err(Malformed(pos, RowsButNoColumns));
      }
      r := Ok(TableHeader(name, columns, rowCount));
    }

    method ReadSectionHeader() returns (r: Result<SectionHeader>)
      requires Valid()
      modifies this
      ensures Valid() && Agrees(ParseSectionHeader(buf, old(pos)), r, pos) && steps == old(steps)
      ensures pos >= old(pos) && (r.Ok? ==> pos >= old(pos) + 12)
    {
      hide ParseName, ParseU32;
      var name :- ReadName();
      var formatVersion :- ReadU32();
      var tableCount :- ReadU32();
      r := Ok(SectionHeader(name, formatVersion, tableCount));
    }

    /** One row: the values of the unit's columns, in order. */
    method ReadRow(table: Name, columns: seq<Name>) returns (r: Result<seq<Value>>)
      requires Valid()
      modifies this
      ensures Valid() && Agrees(ParseRow(buf, old(pos), table, columns), r, pos)
      ensures pos >= old(pos) && (r.Ok? ==> pos >= old(pos) + |columns|)
      ensures steps - old(steps) <= pos - old(pos) + (if r.Ok? then 0 else 1)
    {
      hide ParseValue;
      ghost var whole := ParseRow(buf, pos, table, columns);
      var values: seq<Value>, i := [], 0;
      ResumeEnds(whole, [], 0);
      assert columns[0..] == columns;
      while i < |columns|
        invariant Valid() && 0 <= i <= |columns| && pos >= old(pos) + i
        invariant whole == Resume(values, ParseRow(buf, pos, table, columns[i..]))
        invariant steps - old(steps) <= pos - old(pos)
      {
        RowStep(buf, pos, table, columns[i..], values);
        assert columns[i..][1..] == columns[i + 1..];
        steps := steps + 1;
        var v :- DecodeValue(table, columns[i]);
        values := values + [v];
        i := i + 1;
      }
      ResumeEnds(whole, values, pos);
      r := Ok(values);
    }

    /** Magic, then version, then the section count. */
    method ReadPreamble() returns (r: Result<u32>)
      requires Valid() && pos == 0
      modifies this
      ensures Valid() && Agrees(ParsePreamble(buf), r, pos) && steps == old(steps)
    {
      if |buf| < |MAGIC| || buf[..|MAGIC|] != MAGIC {
        return Err(BadMagic);
      }
      pos := |MAGIC|;
      var version :- ReadU32();
      if version != ARTIFACT_VERSION {
        return Err(UnsupportedArtifactVersion(version));
      }
      r := ReadU32();
    }
  }

  lemma {:induction false} RowStep(buf: seq<byte>, pos: nat, table: Name, columns: seq<Name>, done: seq<Value>)
    requires columns != []
    ensures match ParseValue(buf, pos, table, columns[0])
            case Fail(e) => Resume(done, ParseRow(buf, pos, table, columns)) == Fail(e)
            case Got(v, p) =>
              Resume(done, ParseRow(buf, pos, table, columns))
              == Resume(done + [v], ParseRow(buf, p, table, columns[1..]))
  {
    hide ParseValue;
    match ParseValue(buf, pos, table, columns[0])
    case Fail(_) =>
    case Got(v, p) =>
      match ParseRow(buf, p, table, columns[1..])
      case Fail(_) =>
      case Got(row, q) =>
        hide Resume;
        ResumeCons(done, v, row, q);
  }

  // ----- the shared row walk

  function ErrorOf<T>(r: Result<T>): Option<SnapshotError> { if r.Err? then Some(r.error) else None }

  /** From `w` the scanned events lead to `now`, where they end with that error or at that position. */
  ghost predicate Did(w: Work, scan: Scan, now: Work, error: Option<SnapshotError>, pos: nat) {
    Perform(w, scan.events) == Stop(now, error) && (error.None? ==> scan.next == Some(pos))
  }

  /** From `w` the scanned events lead to `now` and go on with the rest. */
  ghost predicate Leads(w: Work, scan: Scan, now: Work, rest: Scan) {
    Perform(w, scan.events) == Perform(now, rest.events) && scan.next == rest.next
  }

  /** One more element of a counted scan, from the position where `w` stands. */
  lemma {:induction false} LeadsOn(
    w0: Work, whole: Scan, f: Scanner, buf: seq<byte>, pos: nat, count: nat, w: Work, now: Work,
      error: Option<SnapshotError>, p: nat)
    requires count > 0 && Leads(w0, whole, w, ScanMany(f, buf, pos, count)) && Did(w, f(buf, pos), now, error, p)
    ensures if error.Some? then Did(w0, whole, now, error, p) else Leads(w0, whole, now, ScanMany(f, buf, p, count - 1))
  {
    hide Perform, ScanMany;
    ScanStep(f, buf, pos, count, w);
  }

  lemma {:induction false} LeadsEnds(w0: Work, f: Scanner, buf: seq<byte>, pos: nat, whole: Scan, now: Work)
    ensures Leads(w0, whole, w0, whole)
    ensures Leads(w0, whole, now, ScanMany(f, buf, pos, 0)) ==> Did(w0, whole, now, None, pos)
  {
    PerformNone(now);
  }

  /** One row read and inserted, or not. */
  lemma {:induction false} RowDone(w: Work, table: Name, columns: seq<Name>, buf: seq<byte>, pos: nat)
    ensures match ParseRow(buf, pos, table, columns)
            case Fail(e) => Did(w, RowScan(table, columns)(buf, pos), w, Some(e), pos)
            case Got(row, p) =>
              match InsertNamed(w.tables, table, columns, row)
              case Err(e) => Did(w, RowScan(table, columns)(buf, pos), w, Some(e), p)
              case Ok(after) => Did(w, RowScan(table, columns)(buf, pos), w.(tables := after), None, p)
  {
    hide ParseRow, InsertNamed, Perform;
    match ParseRow(buf, pos, table, columns)
    case Fail(e) =>
      PerformOne(w, Bad(e));
    case Got(row, p) =>
      PerformOne(w, Row(table, columns, row));
  }

  /** Decode a unit's rows and hand each to the sink: INSERT into `tx`, or nothing when `tx` is
      null. One walk serves the import and the parse-to-skip path. */
  method WalkTableRows(cur: Cursor, h: TableHeader, tx: Transaction?, ghost w: Work) returns (r: Result<nat>)
    requires cur.Valid() && (h.columns == [] ==> h.rowCount == 0) && (tx != null ==> w.tables == tx.tables)
    modifies cur, tx
    ensures cur.Valid() && cur.pos >= old(cur.pos) && (r.Ok? ==> r.value == h.rowCount)
    ensures tx == null ==>
              match ParseMany(RowParser(h.name, h.columns), cur.buf, old(cur.pos), h.rowCount)
              case Fail(e) => r == Err(e)
              case Got(_, p) => r.Ok? && cur.pos == p
    ensures tx != null ==>
              Did(w, ScanMany(RowScan(h.name, h.columns), cur.buf, old(cur.pos), h.rowCount), w.(tables := tx.tables),
                ErrorOf(r), cur.pos)
    ensures cur.steps - old(cur.steps) <= 2 * (cur.pos - old(cur.pos)) + (if r.Ok? then 0 else 2)
  {
    hide ParseRow, InsertNamed, Did, Leads, ScanMany, RowScan;
    ghost var f, g, start := RowParser(h.name, h.columns), RowScan(h.name, h.columns), cur.pos;
    ghost var whole, scan := ParseMany(f, cur.buf, cur.pos, h.rowCount), ScanMany(g, cur.buf, cur.pos, h.rowCount);
    ghost var done: seq<seq<Value>> := [];
    var rows := 0;
    ResumeEnds(whole, done, 0);
    LeadsEnds(w, g, cur.buf, 0, scan, w);
    while rows < h.rowCount
      invariant cur.Valid() && 0 <= rows <= h.rowCount && cur.pos >= start
      invariant whole == Resume(done, ParseMany(f, cur.buf, cur.pos, h.rowCount - rows))
      invariant tx != null ==>
                  Leads(w, scan, w.(tables := tx.tables), ScanMany(g, cur.buf, cur.pos, h.rowCount - rows))
      invariant cur.steps - old(cur.steps) <= 2 * (cur.pos - start)
    {
      ghost var at, left := cur.pos, h.rowCount - rows;
      ResumeStep(f, cur.buf, at, left, done);
      cur.steps := cur.steps + 1;
      if tx == null {
        var row :- cur.ReadRow(h.name, h.columns);
        done := done + [row];
      } else {
        ghost var now := w.(tables := tx.tables);
        RowDone(now, h.name, h.columns, cur.buf, at);
        var row := cur.ReadRow(h.name, h.columns);
        if row.Err? {
          LeadsOn(w, scan, g, cur.buf, at, left, now, now, Some(row.error), at);
          EndsWhere(w, scan, now, Some(row.error), at, cur.pos);
          return Err(row.error);
        }
        var inserted := tx.Insert(h.name, h.columns, row.value);
        LeadsOn(w, scan, g, cur.buf, at, left, now, w.(tables := tx.tables), ErrorOf(inserted), cur.pos);
        if inserted.Err? {
          return Err(inserted.error);
        }
        done := done + [row.value];
      }
      rows := rows + 1;
    }
    ResumeEnds(whole, done, cur.pos);
    if tx != null {
      LeadsEnds(w, g, cur.buf, cur.pos, scan, w.(tables := tx.tables));
    }
    r := Ok(rows);
  }

  lemma {:induction false} EndsWhere(w: Work, scan: Scan, now: Work, error: Option<SnapshotError>, p: nat, q: nat)
    requires error.Some?
    ensures Did(w, scan, now, error, p) <==> Did(w, scan, now, error, q)
  {
    hide Perform;
  }

  // ----- structural decode without import

  /** Parse past `count` table units: skipping is a full structural decode. */
  method SkipTables(cur: Cursor, count: nat) returns (r: Result<()>)
    requires cur.Valid()
    modifies cur
    ensures cur.Valid() && cur.pos >= old(cur.pos)
    ensures match ParseMany(ParseTable, cur.buf, old(cur.pos), count)
            case Fail(e) => r == Err(e)
            case Got(_, p) => r == Ok(()) && cur.pos == p
    ensures cur.steps - old(cur.steps) <= 2 * (cur.pos - old(cur.pos)) + (if r.Ok? then 0 else 2)
  {
    hide ParseTableHeader, RowParser;
    ghost var start := cur.pos;
    ghost var whole := ParseMany(ParseTable, cur.buf, start, count);
    ghost var done: seq<TableUnit> := [];
    var i := 0;
    ResumeEnds(whole, done, 0);
    while i < count
      invariant cur.Valid() && 0 <= i <= count && cur.pos >= start
      invariant whole == Resume(done, ParseMany(ParseTable, cur.buf, cur.pos, count - i))
      invariant cur.steps - old(cur.steps) <= 2 * (cur.pos - start)
    {
      ResumeStep(ParseTable, cur.buf, cur.pos, count - i, done);
      ghost var unit := ParseTable(cur.buf, cur.pos);
      cur.steps := cur.steps + 1;
      var h :- cur.ReadTableHeader();
      var _ :- WalkTableRows(cur, h, null, Work(map[], [], NOTHING));
      done := done + [unit.value];
      i := i + 1;
    }
    ResumeEnds(whole, done, cur.pos);
    r := Ok(());
  }

  method ReadHeaders(cur: Cursor, count: nat) returns (r: Result<seq<(Name, u32)>>)
    requires cur.Valid()
    modifies cur
    ensures cur.Valid() && cur.pos >= old(cur.pos)
    ensures match ParseMany(ParseSection, cur.buf, old(cur.pos), count)
            case Fail(e) => r == Err(e)
            case Got(tree, p) => r == Ok(HeaderPairs(tree)) && cur.pos == p
    ensures cur.steps - old(cur.steps) <= 2 * (cur.pos - old(cur.pos)) + (if r.Ok? then 0 else 2)
  {
    hide ParseSectionHeader, ParseTable;
    ghost var start := cur.pos;
    ghost var whole := ParseMany(ParseSection, cur.buf, start, count);
    ghost var done: Tree := [];
    var headers: seq<(Name, u32)>, i := [], 0;
    ResumeEnds(whole, done, 0);
    while i < count
      invariant cur.Valid() && 0 <= i <= count && cur.pos >= start
      invariant whole == Resume(done, ParseMany(ParseSection, cur.buf, cur.pos, count - i))
      invariant headers == HeaderPairs(done)
      invariant cur.steps - old(cur.steps) <= 2 * (cur.pos - start)
    {
      ResumeStep(ParseSection, cur.buf, cur.pos, count - i, done);
      ghost var unit := ParseSection(cur.buf, cur.pos);
      cur.steps := cur.steps + 1;
      var h :- cur.ReadSectionHeader();
      var _ :- SkipTables(cur, h.tableCount);
      done := done + [unit.value];
      headers := headers + [(h.name, h.formatVersion)];
      i := i + 1;
    }
    ResumeEnds(whole, done, cur.pos);
    r := Ok(headers);
  }

  /** The per-section identity of an artifact: accepts, rejects and reports exactly as the
      container decode says, after a number of loop iterations bounded by the artifact length. */
  method ReadSectionHeaders(artifact: seq<byte>) returns (r: Result<seq<(Name, u32)>>, ghost steps: nat)
    ensures match ParseArtifact(artifact)
            case Err(e) => r == Err(e)
            case Ok(tree) => r == Ok(HeaderPairs(tree))
    ensures steps <= 2 * |artifact| + 2
  {
    hide ParsePreamble, ParseMany;
    var cur := new Cursor(artifact);
    var count := cur.ReadPreamble();
    if count.Err? {
      return Err(count.error), cur.steps;
    }
    var headers := ReadHeaders(cur, count.value);
    steps := cur.steps;
    if headers.Err? {
      return Err(headers.error), steps;
    }
    if cur.pos != |artifact| {
      return Err(Malformed(cur.pos, TrailingBytes)), steps;
    }
    r := headers;
  }

  // ----- import

  lemma {:induction false} UnitDone(w: Work, spec: SectionSpec, buf: seq<byte>, pos: nat, h: TableHeader, p: nat)
    requires ParseTableHeader(buf, pos) == Got(h, p)
    ensures var scan, rows := UnitScan(spec)(buf, pos), ScanMany(RowScan(h.name, h.columns), buf, p, h.rowCount);
            match AdmitUnit(w.tables, spec, w.listed, h.name, h.columns)
            case Err(e) => Did(w, scan, w, Some(e), p)
            case Ok(_) =>
              forall now, error, q :: Did(w, rows, now, error, q) ==>
                Did(w, scan, if error.Some? then now else now.(listed := now.listed + [(h.name, h.rowCount)]), error, q)
  {
    hide ParseTableHeader, ScanMany, RowScan, Perform, AdmitUnit;
    var rows := ScanMany(RowScan(h.name, h.columns), buf, p, h.rowCount);
    var head, end := Unit(spec, h.name, h.columns), UnitEnd(h.name, h.rowCount);
    var tail := if rows.next.Some? then [end] else [];
    PerformAppend(w, [head], rows.events + tail);
    PerformOne(w, head);
    PerformAppend(w, rows.events, tail);
    forall now ensures Perform(now, [end]) == Stop(now.(listed := now.listed + [(h.name, h.rowCount)]), None) {
      PerformOne(now, end);
    }
  }

  lemma {:induction false} BrokenDone(w: Work, e: SnapshotError, pos: nat)
    ensures Did(w, Broken(e), w, Some(e), pos)
  {
    hide Perform;
    PerformOne(w, Bad(e));
  }

  /** One table unit: admitted against the registry and the live schema, then inserted row by row. */
  method ImportTableUnit(tx: Transaction, spec: SectionSpec, imported: seq<(Name, nat)>, cur: Cursor,
      ghost report: ImportReport)
    returns (r: Result<(Name, nat)>)
    requires cur.Valid()
    modifies tx, cur
    ensures cur.Valid() && cur.pos >= old(cur.pos) && (r.Ok? ==> cur.pos >= old(cur.pos) + 16)
    ensures Did(Work(old(tx.tables), imported, report), UnitScan(spec)(cur.buf, old(cur.pos)),
                Work(tx.tables, if r.Ok? then imported + [r.value] else imported, report), ErrorOf(r), cur.pos)
    ensures cur.steps - old(cur.steps) <= 2 * (cur.pos - old(cur.pos)) + (if r.Ok? then -1 else 1)
  {
    hide ParseTableHeader, AdmitUnit, ScanMany, RowScan, Did;
    ghost var w, at := Work(tx.tables, imported, report), cur.pos;
    var h := cur.ReadTableHeader();
    if h.Err? {
      BrokenDone(w, h.error, cur.pos);
      return Err(h.error);
    }
    UnitDone(w, spec, cur.buf, at, h.value, cur.pos);
    var admitted := AdmitUnit(tx.tables, spec, imported, h.value.name, h.value.columns);
    if admitted.Err? {
      return Err(admitted.error);
    }
    var rows :- WalkTableRows(cur, h.value, tx, w);
    r := Ok((h.value.name, rows));
  }

  lemma {:induction false} SectionDone(w: Work, spec: SectionSpec, units: Scan, now: Work, pos: nat)
    requires Did(w, units, now, None, pos)
    ensures var scan := Ended(units, spec);
            match Do(now, SectionEnd(spec))
            case Err(e) => Did(w, scan, now, Some(e), pos)
            case Ok(after) => Did(w, scan, after, None, pos)
  {
    hide Perform, Do;
    PerformAppend(w, units.events, [SectionEnd(spec)]);
    PerformOne(now, SectionEnd(spec));
  }

  lemma {:induction false} SectionBroken(w: Work, spec: SectionSpec, units: Scan, now: Work,
      error: Option<SnapshotError>, pos: nat)
    requires error.Some? && Did(w, units, now, error, pos)
    ensures Did(w, Ended(units, spec), now, error, pos)
  {
    hide Perform;
    PerformAppend(w, units.events, if units.next.Some? then [SectionEnd(spec)] else []);
  }

  /** The units of a section in order, then the check that none is missing. `left` is where it ends. */
  method ImportSectionUnits(tx: Transaction, spec: SectionSpec, cur: Cursor, tableCount: nat,
      ghost report: ImportReport)
    returns (r: Result<ImportedSection>, ghost left: Work)
    requires cur.Valid()
    modifies tx, cur
    ensures cur.Valid() && cur.pos >= old(cur.pos) && left.tables == tx.tables
    ensures var units := ScanMany(UnitScan(spec), cur.buf, old(cur.pos), tableCount);
            Did(Work(old(tx.tables), [], report), Ended(units, spec), left, ErrorOf(r), cur.pos)
    ensures r.Ok? ==> left == Work(tx.tables, [], report.(imported := report.imported + [r.value]))
    ensures cur.steps - old(cur.steps) <= 2 * (cur.pos - old(cur.pos)) + (if r.Ok? then 0 else 2)
  {
    hide ScanMany, UnitScan, Did, Leads, FirstMissing;
    ghost var w, f, start := Work(tx.tables, [], report), UnitScan(spec), cur.pos;
    ghost var scan := ScanMany(f, cur.buf, start, tableCount);
    var imported: seq<(Name, nat)>, i := [], 0;
    LeadsEnds(w, f, cur.buf, 0, scan, w);
    while i < tableCount
      invariant cur.Valid() && 0 <= i <= tableCount && cur.pos >= start
      invariant Leads(w, scan, Work(tx.tables, imported, report), ScanMany(f, cur.buf, cur.pos, tableCount - i))
      invariant cur.steps - old(cur.steps) <= 2 * (cur.pos - start)
    {
      ghost var at, now := cur.pos, Work(tx.tables, imported, report);
      cur.steps := cur.steps + 1;
      var one := ImportTableUnit(tx, spec, imported, cur, report);
      left := Work(tx.tables, if one.Ok? then imported + [one.value] else imported, report);
      LeadsOn(w, scan, f, cur.buf, at, tableCount - i, now, left, ErrorOf(one), cur.pos);
      if one.Err? {
        SectionBroken(w, spec, scan, left, Some(one.error), cur.pos);
        return Err(one.error), left;
      }
      imported := imported + [one.value];
      i := i + 1;
    }
    left := Work(tx.tables, imported, report);
    LeadsEnds(w, f, cur.buf, cur.pos, scan, left);
    SectionDone(w, spec, scan, left, cur.pos);
    match FirstMissing(spec.tables, imported)
    case Some(table) =>
      r := Err(SchemaMismatch(spec.name, table, MissingFromArtifact));
    case None =>
      r := Ok(ImportedSection(spec.name, imported));
      left := Work(tx.tables, [], report.(imported := report.imported + [r.value]));
  }

  lemma {:induction false} SkipDone(w: Work, s: SkippedSection, pos: nat)
    ensures Did(w, Scan([Skipped(s)], Some(pos)), w.(report := w.report.(skipped := w.report.skipped + [s])), None, pos)
  {
    hide Perform;
    PerformOne(w, Skipped(s));
  }

  /** One section: parsed past, or imported. */
  method ImportOneSection(tx: Transaction, sections: seq<SectionSpec>, expected: Expected, report: ImportReport,
      cur: Cursor)
    returns (r: Result<ImportReport>, ghost left: Work)
    requires cur.Valid()
    modifies tx, cur
    ensures cur.Valid() && cur.pos >= old(cur.pos) && (r.Ok? ==> cur.pos >= old(cur.pos) + 12)
    ensures left.tables == tx.tables && (r.Ok? ==> left == Work(tx.tables, [], r.value))
    ensures Did(Work(old(tx.tables), [], report), SectionScan(sections, expected)(cur.buf, old(cur.pos)), left,
            ErrorOf(r), cur.pos)
    ensures cur.steps - old(cur.steps) <= 2 * (cur.pos - old(cur.pos)) + (if r.Ok? then -1 else 1)
  {
    hide ParseSectionHeader, ParseMany, ScanMany, UnitScan, Did, FindSection;
    ghost var w := Work(tx.tables, [], report);
    left := w;
    var h := cur.ReadSectionHeader();
    if h.Err? {
      BrokenDone(w, h.error, cur.pos);
      return Err(h.error), left;
    }
    match SkipOf(sections, expected, h.value.name, h.value.formatVersion)
    case Some(reason) =>
      var skipped := SkipTables(cur, h.value.tableCount);
      if skipped.Err? {
        BrokenDone(w, skipped.error, cur.pos);
        return Err(skipped.error), left;
      }
      SkipDone(w, SkippedSection(h.value.name, reason), cur.pos);
      r := Ok(report.(skipped := report.skipped + [SkippedSection(h.value.name, reason)]));
      left := Work(tx.tables, [], r.value);
    case None =>
      var imported;
      imported, left := ImportSectionUnits(tx, FindSection(sections, h.value.name).value, cur, h.value.tableCount,
        report);
      if imported.Err? {
        return Err(imported.error), left;
      }
      r := Ok(report.(imported := report.imported + [imported.value]));
  }

  method ImportSections(tx: Transaction, sections: seq<SectionSpec>, expected: Expected, cur: Cursor, count: nat)
    returns (r: Result<ImportReport>, ghost left: Work)
    requires cur.Valid()
    modifies tx, cur
    ensures cur.Valid() && cur.pos >= old(cur.pos)
    ensures left.tables == tx.tables && (r.Ok? ==> left == Work(tx.tables, [], r.value))
    ensures Did(Work(old(tx.tables), [], NOTHING),
            ScanMany(SectionScan(sections, expected), cur.buf, old(cur.pos), count),
                left, ErrorOf(r), cur.pos)
    ensures cur.steps - old(cur.steps) <= 2 * (cur.pos - old(cur.pos)) + (if r.Ok? then 0 else 2)
  {
    hide ScanMany, SectionScan, Did, Leads;
    ghost var w, f, start := Work(tx.tables, [], NOTHING), SectionScan(sections, expected), cur.pos;
    ghost var scan := ScanMany(f, cur.buf, start, count);
    var report, i := NOTHING, 0;
    LeadsEnds(w, f, cur.buf, 0, scan, w);
    while i < count
      invariant cur.Valid() && 0 <= i <= count && cur.pos >= start
      invariant Leads(w, scan, Work(tx.tables, [], report), ScanMany(f, cur.buf, cur.pos, count - i))
      invariant cur.steps - old(cur.steps) <= 2 * (cur.pos - start)
    {
      ghost var at, now := cur.pos, Work(tx.tables, [], report);
      cur.steps := cur.steps + 1;
      var one;
      one, left := ImportOneSection(tx, sections, expected, report, cur);
      LeadsOn(w, scan, f, cur.buf, at, count - i, now, left, ErrorOf(one), cur.pos);
      if one.Err? {
        return Err(one.error), left;
      }
      report := one.value;
      i := i + 1;
    }
    left := Work(tx.tables, [], report);
    LeadsEnds(w, f, cur.buf, cur.pos, scan, left);
    r := Ok(report);
  }

  lemma {:induction false} ArtifactDone(
    tables: Tables, sections: seq<SectionSpec>, expected: Expected, artifact: seq<byte>, count: u32, p: nat,
    left: Work, error: Option<SnapshotError>, pos: nat)
    requires ParsePreamble(artifact) == Got(count, p)
    requires Did(Work(tables, [], NOTHING), ScanMany(SectionScan(sections, expected), artifact, p, count), left, error,
             pos)
    ensures ImportBytes(tables, sections, expected, artifact) ==
            if error.Some? then Stop(left, error)
            else if pos != |artifact| then Stop(left, Some(Malformed(pos, TrailingBytes)))
            else Stop(left, None)
  {
    hide ParsePreamble, ScanMany, SectionScan, Perform;
    var w, all := Work(tables, [], NOTHING), ScanMany(SectionScan(sections, expected), artifact, p, count);
    var bad := Bad(Malformed(pos, TrailingBytes));
    PerformAppend(w, all.events, Trailing(all.next, |artifact|));
    PerformOne(left, bad);
    PerformNone(left);
  }

  lemma {:induction false} PreambleDone(tables: Tables, sections: seq<SectionSpec>, expected: Expected,
      artifact: seq<byte>)
    requires ParsePreamble(artifact).Fail?
    ensures ImportBytes(tables, sections, expected, artifact)
         == Stop(Work(tables, [], NOTHING), Some(ParsePreamble(artifact).error))
  {
    hide ParsePreamble, Perform;
    PerformOne(Work(tables, [], NOTHING), Bad(ParsePreamble(artifact).error));
  }

  /** The import: result and database are those of performing the artifact's events in byte order up to
      the first failure. So it succeeds exactly when the bytes decode and the decoded tree imports, with
      that database and report, and an ill-formed artifact is never accepted. */
  method ImportSnapshotExpecting(tx: Transaction, sections: seq<SectionSpec>, expected: Expected, artifact: seq<byte>)
    returns (r: Result<ImportReport>, ghost steps: nat)
    modifies tx
    ensures var stop := ImportBytes(old(tx.tables), sections, expected, artifact);
            && tx.tables == stop.work.tables
            && r == match stop.error case Some(e) => Err(e) case None => Ok(stop.work.report)
    ensures match ParseArtifact(artifact)
            case Err(_) => r.Err?
            case Ok(tree) =>
              match ImportTree(old(tx.tables), sections, expected, tree)
              case Err(e) => r == Err(e)
              case Ok((after, report)) => r == Ok(report) && tx.tables == after
    ensures steps <= 2 * |artifact| + 2
  {
    hide ParsePreamble, ScanMany, SectionScan, ImportTree, ImportBytes, ParseArtifact, Did;
    ghost var before := tx.tables;
    ImportBytesExact(before, sections, expected, artifact);
    var cur := new Cursor(artifact);
    var count := cur.ReadPreamble();
    if count.Err? {
      PreambleDone(before, sections, expected, artifact);
      return Err(count.error), cur.steps;
    }
    ghost var p := cur.pos;
    var report;
    ghost var left;
    report, left := ImportSections(tx, sections, expected, cur, count.value);
    ArtifactDone(before, sections, expected, artifact, count.value, p, left, ErrorOf(report), cur.pos);
    steps := cur.steps;
    if report.Err? {
      return Err(report.error), steps;
    }
    if cur.pos != |artifact| {
      return Err(Malformed(cur.pos, TrailingBytes)), steps;
    }
    r := report;
  }
}
