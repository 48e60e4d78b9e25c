/** An import as a list of events in byte order: what the bytes ask for, read without a database, and
    what a database makes of it, up to the first failure. */
module Scanning {
  import opened Bytes
  import opened Codec
  import opened Artifact
  import opened Sqlite
  import opened Export
  import opened Import

  /** What the bytes of an artifact ask of an importer, one thing after the other. */
  datatype Event =
    | Unit(spec: SectionSpec, name: Name, columns: seq<Name>)
    | Row(table: Name, columns: seq<Name>, values: seq<Value>)
    | UnitEnd(name: Name, rows: nat)
    | SectionEnd(spec: SectionSpec)
    | Skipped(section: SkippedSection)
    | Bad(error: SnapshotError)

  /** The open transaction, the tables of the section under way, and the report so far. */
  datatype Work = Work(tables: Tables, listed: seq<(Name, nat)>, report: ImportReport)

  function Do(w: Work, e: Event): Result<Work> {
    match e
    case Unit(spec, name, columns) =>
      var _ :- AdmitUnit(w.tables, spec, w.listed, name, columns);
      Ok(w)
    case Row(table, columns, values) =>
      var after :- InsertNamed(w.tables, table, columns, values);
      Ok(w.(tables := after))
    case UnitEnd(name, rows) => Ok(w.(listed := w.listed + [(name, rows)]))
    case SectionEnd(spec) =>
      (match FirstMissing(spec.tables, w.listed)
       case Some(table) => Err(SchemaMismatch(spec.name, table, MissingFromArtifact))
       case None =>
         Ok(Work(w.tables, [], w.report.(imported := w.report.imported + [ImportedSection(spec.name, w.listed)]))))
    case Skipped(s) => Ok(w.(report := w.report.(skipped := w.report.skipped + [s])))
    case Bad(error) => Err(error)
  }

  /** Where an import stands when it ends, and the failure that ended it. */
  datatype Stop = Stop(work: Work, error: Option<SnapshotError>)

  /** Event by event, up to the first failure, which changes nothing. */
  function Perform(w: Work, es: seq<Event>): Stop
    decreases |es|
  {
    if es == [] then Stop(w, None) else
    match Do(w, es[0])
    case Err(error) => Stop(w, Some(error))
    case Ok(next) => Perform(next, es[1..])
  }

  function Then(s: Stop, es: seq<Event>): Stop { if s.error.Some? then s else Perform(s.work, es) }

  lemma {:induction false} PerformAppend(w: Work, a: seq<Event>, b: seq<Event>)
    ensures Perform(w, a + b) == Then(Perform(w, a), b)
    decreases |a|
  {
    hide Do;
    if a == [] {
      assert a + b == b;
    } else {
      assert (a + b)[1..] == a[1..] + b;
      if Do(w, a[0]).Ok? {
        PerformAppend(Do(w, a[0]).value, a[1..], b);
      }
    }
  }

  lemma {:induction false} PerformOne(w: Work, e: Event)
    ensures Perform(w, [e]) == match Do(w, e) case Err(error) => Stop(w, Some(error)) case Ok(next) => Stop(next, None)
  {
    hide Do;
    assert [e][1..] == [];
  }

  /** The events before the first failure all took effect, and the next one is what failed. */
  lemma {:induction false} StopsAtFirst(w: Work, es: seq<Event>) returns (n: nat)
    ensures var s := Perform(w, es);
            && n <= |es| && Perform(w, es[..n]) == Stop(s.work, None)
            && (s.error.None? ==> n == |es|)
            && (s.error.Some? ==> n < |es| && Do(s.work, es[n]) == Err(s.error.value))
    decreases |es|
  {
    hide Do;
    if es == [] || Do(w, es[0]).Err? {
      n := 0;
    } else {
      var m := StopsAtFirst(Do(w, es[0]).value, es[1..]);
      n := m + 1;
      assert es[..n][1..] == es[1..][..m];
    }
  }

  /** No event takes anything away: columns stay, and rows are only added at the end. */
  ghost predicate Keeps(a: Tables, b: Tables) {
    forall name :: Info(b, name) == Info(a, name) && RowsOf(a, name) <= RowsOf(b, name)
  }

  /** However an import ends, what the database held before is still there. */
  lemma {:induction false} PerformKeeps(w: Work, es: seq<Event>)
    ensures Keeps(w.tables, Perform(w, es).work.tables)
    decreases |es|
  {
    hide AdmitUnit, FirstMissing, NewRow, SameKey;
    if es != [] && Do(w, es[0]).Ok? {
      PerformKeeps(Do(w, es[0]).value, es[1..]);
    }
  }

  // ----- reading events from bytes

  /** The events found, and where reading goes on, unless the bytes were malformed. */
  datatype Scan = Scan(events: seq<Event>, next: Option<nat>)

  type Scanner = (seq<byte>, nat) -> Scan

  function Broken(error: SnapshotError): Scan { Scan([Bad(error)], None) }

  function ScanMany(f: Scanner, buf: seq<byte>, pos: nat, count: nat): Scan
    decreases count
  {
    if count == 0 then Scan([], Some(pos)) else
    var one := f(buf, pos);
    match one.next
    case None => one
    case Some(p) =>
      var rest := ScanMany(f, buf, p, count - 1);
      Scan(one.events + rest.events, rest.next)
  }

  function RowScan(table: Name, columns: seq<Name>): Scanner {
    (buf: seq<byte>, pos: nat) =>
      match ParseRow(buf, pos, table, columns)
      case Fail(e) => Broken(e)
      case Got(values, p) => Scan([Row(table, columns, values)], Some(p))
  }

  function UnitScan(spec: SectionSpec): Scanner {
    (buf: seq<byte>, pos: nat) =>
      match ParseTableHeader(buf, pos)
      case Fail(e) => Broken(e)
      case Got(h, p) =>
        var rows := ScanMany(RowScan(h.name, h.columns), buf, p, h.rowCount);
        var end := if rows.next.Some? then [UnitEnd(h.name, h.rowCount)] else [];
        Scan([Unit(spec, h.name, h.columns)] + (rows.events + end), rows.next)
  }

  /** The end of a section, unless its units were malformed. */
  function Ended(units: Scan, spec: SectionSpec): Scan {
    Scan(units.events + (if units.next.Some? then [SectionEnd(spec)] else []), units.next)
  }

  function SectionScan(sections: seq<SectionSpec>, expected: Expected): Scanner {
    (buf: seq<byte>, pos: nat) =>
      match ParseSectionHeader(buf, pos)
      case Fail(e) => Broken(e)
      case Got(h, p) =>
        match SkipOf(sections, expected, h.name, h.formatVersion)
        case Some(reason) =>
          (match ParseMany(ParseTable, buf, p, h.tableCount)
           case Fail(e) => Broken(e)
           case Got(_, q) => Scan([Skipped(SkippedSection(h.name, reason))], Some(q)))
        case None =>
          var spec := FindSection(sections, h.name).value;
          Ended(ScanMany(UnitScan(spec), buf, p, h.tableCount), spec)
  }

  /** Bytes after the last section. */
  function Trailing(next: Option<nat>, length: nat): seq<Event> {
    if next.Some? && next.value != length then [Bad(Malformed(next.value, TrailingBytes))] else []
  }

  function ArtifactEvents(sections: seq<SectionSpec>, expected: Expected, artifact: seq<byte>): seq<Event> {
    match ParsePreamble(artifact)
    case Fail(e) => [Bad(e)]
    case Got(count, p) =>
      var all := ScanMany(SectionScan(sections, expected), artifact, p, count);
      all.events + Trailing(all.next, |artifact|)
  }

  const NOTHING: ImportReport := ImportReport([], [])

  /** What an import of these bytes does to a database, failures included. */
  function ImportBytes(tables: Tables, sections: seq<SectionSpec>, expected: Expected, artifact: seq<byte>): Stop {
    Perform(Work(tables, [], NOTHING), ArtifactEvents(sections, expected, artifact))
  }

  /** One loop iteration of a counted scan. */
  lemma {:induction false} ScanStep(f: Scanner, buf: seq<byte>, pos: nat, count: nat, w: Work)
    requires count > 0
    ensures var whole, one := ScanMany(f, buf, pos, count), f(buf, pos);
            var s := Perform(w, one.events);
            && (s.error.Some? ==> Perform(w, whole.events) == s)
            && (s.error.None? && one.next.Some? ==>
                  var rest := ScanMany(f, buf, one.next.value, count - 1);
                  Perform(w, whole.events) == Perform(s.work, rest.events) && whole.next == rest.next)
  {
    hide Perform;
    var one := f(buf, pos);
    if one.next.Some? {
      PerformAppend(w, one.events, ScanMany(f, buf, one.next.value, count - 1).events);
    }
  }

  // ----- well-formed bytes: the events are those of the decoded tree

  /** The list ends in the report of malformed bytes. */
  predicate EndsBad(es: seq<Event>, e: SnapshotError) { es != [] && es[|es| - 1] == Bad(e) }

  function Flat<T>(ev: T -> seq<Event>, xs: seq<T>): seq<Event> {
    if xs == [] then [] else ev(xs[0]) + Flat(ev, xs[1..])
  }

  lemma {:induction false} FlatAppend<T>(ev: T -> seq<Event>, xs: seq<T>, x: T)
    ensures Flat(ev, xs + [x]) == Flat(ev, xs) + ev(x)
  {
    if xs == [] {
      assert [x][1..] == [];
      assert ([] + [x]) == [x];
      assert Flat(ev, [x]) == ev(x) + [];
    } else {
      assert (xs + [x])[1..] == xs[1..] + [x];
      FlatAppend(ev, xs[1..], x);
    }
  }

  /** The scanner finds what the decoder decodes. */
  ghost predicate Reads<T(!new)>(f: Scanner, g: Parser<T>, ev: T -> seq<Event>, buf: seq<byte>) {
    forall pos: nat :: Finds(f, g, ev, buf, pos)
  }

  ghost predicate Finds<T>(f: Scanner, g: Parser<T>, ev: T -> seq<Event>, buf: seq<byte>, pos: nat) {
    match g(buf, pos)
    case Got(x, p) => f(buf, pos) == Scan(ev(x), Some(p))
    case Fail(e) => f(buf, pos).next == None && EndsBad(f(buf, pos).events, e)
  }

  lemma {:induction false} ManyFound<T(!new)>(
    f: Scanner, g: Parser<T>, ev: T -> seq<Event>, buf: seq<byte>, pos: nat, count: nat)
    requires Reads(f, g, ev, buf)
    ensures match ParseMany(g, buf, pos, count)
            case Got(xs, p) => ScanMany(f, buf, pos, count) == Scan(Flat(ev, xs), Some(p))
            case Fail(e) => ScanMany(f, buf, pos, count).next == None && EndsBad(ScanMany(f, buf, pos, count).events, e)
    decreases count
  {
    if count > 0 {
      assert Finds(f, g, ev, buf, pos);
      match g(buf, pos)
      case Fail(_) =>
      case Got(x, p) =>
        ManyFound(f, g, ev, buf, p, count - 1);
        match ParseMany(g, buf, p, count - 1)
        case Fail(_) =>
        case Got(xs, q) =>
          assert ([x] + xs)[1..] == xs;
    }
  }

  function RowEvents(table: Name, columns: seq<Name>): seq<Value> -> seq<Event> {
    (values: seq<Value>) => [Row(table, columns, values)]
  }

  function UnitEvents(spec: SectionSpec): TableUnit -> seq<Event> {
    (u: TableUnit) =>
      [Unit(spec, u.name, u.columns)] + (Flat(RowEvents(u.name, u.columns), u.rows) + [UnitEnd(u.name, |u.rows|)])
  }

  function SectionEvents(sections: seq<SectionSpec>, expected: Expected): SectionUnit -> seq<Event> {
    (s: SectionUnit) =>
      match SkipOf(sections, expected, s.name, s.formatVersion)
      case Some(reason) => [Skipped(SkippedSection(s.name, reason))]
      case None =>
        var spec := FindSection(sections, s.name).value;
        Flat(UnitEvents(spec), s.tables) + [SectionEnd(spec)]
  }

  lemma {:induction false} RowsRead(table: Name, columns: seq<Name>, buf: seq<byte>)
    ensures Reads(RowScan(table, columns), RowParser(table, columns), RowEvents(table, columns), buf)
  {
    hide ParseRow;
    forall pos: nat
      ensures Finds(RowScan(table, columns), RowParser(table, columns), RowEvents(table, columns), buf, pos)
    {
    }
  }

  lemma {:induction false} ManyCount<T>(f: Parser<T>, buf: seq<byte>, pos: nat, count: nat)
    ensures ParseMany(f, buf, pos, count).Got? ==> |ParseMany(f, buf, pos, count).value| == count
    decreases count
  {
    if count > 0 && f(buf, pos).Got? {
      ManyCount(f, buf, f(buf, pos).pos, count - 1);
    }
  }

  lemma {:induction false} UnitsRead(spec: SectionSpec, buf: seq<byte>)
    ensures Reads(UnitScan(spec), ParseTable, UnitEvents(spec), buf)
  {
    hide ParseTableHeader, ParseMany, ScanMany, RowScan, RowParser, RowEvents;
    forall pos: nat ensures Finds(UnitScan(spec), ParseTable, UnitEvents(spec), buf, pos) {
      if ParseTableHeader(buf, pos).Got? {
        var Got(h, p) := ParseTableHeader(buf, pos);
        RowsRead(h.name, h.columns, buf);
        ManyFound(RowScan(h.name, h.columns), RowParser(h.name, h.columns), RowEvents(h.name, h.columns), buf, p,
          h.rowCount);
        ManyCount(RowParser(h.name, h.columns), buf, p, h.rowCount);
      }
    }
  }

  lemma {:induction false} SectionsRead(sections: seq<SectionSpec>, expected: Expected, buf: seq<byte>)
    ensures Reads(SectionScan(sections, expected), ParseSection, SectionEvents(sections, expected), buf)
  {
    hide ParseSectionHeader, ParseMany, ScanMany, UnitScan, ParseTable, UnitEvents, FindSection;
    forall pos: nat
      ensures Finds(SectionScan(sections, expected), ParseSection, SectionEvents(sections, expected), buf, pos)
    {
      if ParseSectionHeader(buf, pos).Got? {
        var Got(h, p) := ParseSectionHeader(buf, pos);
        if SkipOf(sections, expected, h.name, h.formatVersion).None? {
          var spec := FindSection(sections, h.name).value;
          UnitsRead(spec, buf);
          ManyFound(UnitScan(spec), ParseTable, UnitEvents(spec), buf, p, h.tableCount);
        }
      }
    }
  }

  /** The events of an artifact are those of its tree, or end in the decoder's error. */
  lemma {:induction false} ArtifactRead(sections: seq<SectionSpec>, expected: Expected, artifact: seq<byte>)
    ensures match ParseArtifact(artifact)
            case Ok(tree) =>
              ArtifactEvents(sections, expected, artifact) == Flat(SectionEvents(sections, expected), tree)
            case Err(e) => EndsBad(ArtifactEvents(sections, expected, artifact), e)
  {
    hide ParsePreamble, ParseMany, ScanMany, SectionScan, ParseSection, SectionEvents;
    if ParsePreamble(artifact).Got? {
      var Got(count, p) := ParsePreamble(artifact);
      SectionsRead(sections, expected, artifact);
      ManyFound(SectionScan(sections, expected), ParseSection, SectionEvents(sections, expected), artifact, p, count);
    }
  }

  // ----- malformed bytes: the events of everything decoded before the fault, then the fault

  lemma {:induction false} ManyBroken<T(!new)>(
    f: Scanner, g: Parser<T>, ev: T -> seq<Event>, buf: seq<byte>, pos: nat, count: nat)
    returns (xs: seq<T>, q: nat)
    requires Reads(f, g, ev, buf) && ParseMany(g, buf, pos, count).Fail?
    ensures |xs| < count && ParseMany(g, buf, pos, |xs|) == Got(xs, q)
    ensures g(buf, q).Fail? && g(buf, q).error == ParseMany(g, buf, pos, count).error
    ensures ScanMany(f, buf, pos, count).events == Flat(ev, xs) + f(buf, q).events
    decreases count
  {
    assert Finds(f, g, ev, buf, pos);
    match g(buf, pos)
    case Fail(_) =>
      xs, q := [], pos;
    case Got(x, p) =>
      var rest;
      rest, q := ManyBroken(f, g, ev, buf, p, count - 1);
      xs := [x] + rest;
      assert xs[1..] == rest;
      assert ev(x) + (Flat(ev, rest) + f(buf, q).events) == ev(x) + Flat(ev, rest) + f(buf, q).events;
  }

  /** A malformed unit asks for its admission and for the rows decoded before the fault. */
  lemma {:induction false} MalformedUnit(spec: SectionSpec, buf: seq<byte>, pos: nat) returns (rows: seq<seq<Value>>)
    requires ParseTable(buf, pos).Fail?
    ensures var e, es := ParseTable(buf, pos).error, UnitScan(spec)(buf, pos).events;
            match ParseTableHeader(buf, pos)
            case Fail(_) => es == [Bad(e)]
            case Got(h, p) =>
              && |rows| < h.rowCount && ParseMany(RowParser(h.name, h.columns), buf, p, |rows|).Got?
              && ParseMany(RowParser(h.name, h.columns), buf, p, |rows|).value == rows
              && es == [Unit(spec, h.name, h.columns)] + Flat(RowEvents(h.name, h.columns), rows) + [Bad(e)]
  {
    hide ParseTableHeader, ParseRow, ParseMany, ScanMany, Flat;
    rows := [];
    match ParseTableHeader(buf, pos)
    case Fail(_) =>
    case Got(h, p) =>
      RowsRead(h.name, h.columns, buf);
      var q;
      rows, q := ManyBroken(RowScan(h.name, h.columns), RowParser(h.name, h.columns), RowEvents(h.name, h.columns), buf,
        p, h.rowCount);
      ManyFound(RowScan(h.name, h.columns), RowParser(h.name, h.columns), RowEvents(h.name, h.columns), buf, p,
        h.rowCount);
      assert RowScan(h.name, h.columns)(buf, q).events == [Bad(ParseTable(buf, pos).error)];
  }

  /** A malformed section that is passed over asks for nothing; one that is taken, for its units decoded
      before the fault and for what the malformed unit asks. */
  lemma {:induction false} MalformedSection(sections: seq<SectionSpec>, expected: Expected, buf: seq<byte>, pos: nat)
    returns (units: seq<TableUnit>, q: nat)
    requires ParseSection(buf, pos).Fail?
    ensures var e, es := ParseSection(buf, pos).error, SectionScan(sections, expected)(buf, pos).events;
            match ParseSectionHeader(buf, pos)
            case Fail(_) => es == [Bad(e)]
            case Got(h, p) =>
              if SkipOf(sections, expected, h.name, h.formatVersion).Some? then es == [Bad(e)]
              else
                && |units| < h.tableCount && ParseMany(ParseTable, buf, p, |units|) == Got(units, q)
                && ParseTable(buf, q) == Fail(e)
                && var spec := FindSection(sections, h.name).value;
                   es == Flat(UnitEvents(spec), units) + UnitScan(spec)(buf, q).events
  {
    hide ParseSectionHeader, ParseTable, ParseMany, ScanMany, Flat, UnitScan, UnitEvents, FindSection;
    units, q := [], 0;
    match ParseSectionHeader(buf, pos)
    case Fail(_) =>
    case Got(h, p) =>
      if SkipOf(sections, expected, h.name, h.formatVersion).None? {
        var spec := FindSection(sections, h.name).value;
        UnitsRead(spec, buf);
        units, q := ManyBroken(UnitScan(spec), ParseTable, UnitEvents(spec), buf, p, h.tableCount);
        ManyFound(UnitScan(spec), ParseTable, UnitEvents(spec), buf, p, h.tableCount);
      }
  }

  /** A malformed artifact asks for its sections decoded before the fault and for what the malformed
      section asks; or for all its sections, and then bytes are left over. */
  lemma {:induction false} MalformedArtifact(sections: seq<SectionSpec>, expected: Expected, artifact: seq<byte>)
    returns (done: Tree, q: nat)
    requires ParseArtifact(artifact).Err?
    ensures var e, es := ParseArtifact(artifact).error, ArtifactEvents(sections, expected, artifact);
            match ParsePreamble(artifact)
            case Fail(_) => es == [Bad(e)]
            case Got(count, p) =>
              && |done| <= count && ParseMany(ParseSection, artifact, p, |done|) == Got(done, q)
              && (if |done| < count then
                    && ParseSection(artifact, q) == Fail(e)
                    && es == Flat(SectionEvents(sections, expected), done)
                             + SectionScan(sections, expected)(artifact, q).events
                  else
                    && q != |artifact| && e == Malformed(q, TrailingBytes)
                    && es == Flat(SectionEvents(sections, expected), done) + [Bad(e)])
  {
    hide ParsePreamble, ParseSection, ParseMany, ScanMany, Flat, SectionScan, SectionEvents;
    done, q := [], 0;
    match ParsePreamble(artifact)
    case Fail(_) =>
    case Got(count, p) =>
      var f, ev := SectionScan(sections, expected), SectionEvents(sections, expected);
      SectionsRead(sections, expected, artifact);
      ManyFound(f, ParseSection, ev, artifact, p, count);
      match ParseMany(ParseSection, artifact, p, count)
      case Fail(_) =>
        done, q := ManyBroken(f, ParseSection, ev, artifact, p, count);
      case Got(tree, end) =>
        ManyCount(ParseSection, artifact, p, count);
        done, q := tree, end;
  }

  // ----- performing the events of a tree is importing it

  lemma {:induction false} RowsPerformed(w: Work, table: Name, columns: seq<Name>, rows: seq<seq<Value>>)
    ensures var s := Perform(w, Flat(RowEvents(table, columns), rows));
            match InsertAll(w.tables, table, columns, rows)
            case Ok(after) => s == Stop(w.(tables := after), None)
            case Err(e) => s.error == Some(e)
    decreases |rows|
  {
    hide InsertNamed, Perform;
    if rows == [] {
      assert Perform(w, []) == Stop(w, None) by { PerformNone(w); }
    } else {
      var n := |rows| - 1;
      var init, row := rows[..n], rows[n];
      assert rows == init + [row];
      RowsPerformed(w, table, columns, init);
      FlatAppend(RowEvents(table, columns), init, row);
      var s := Perform(w, Flat(RowEvents(table, columns), init));
      PerformAppend(w, Flat(RowEvents(table, columns), init), [Row(table, columns, row)]);
      PerformOne(s.work, Row(table, columns, row));
    }
  }

  lemma {:induction false} PerformNone(w: Work)
    ensures Perform(w, []) == Stop(w, None)
  {
  }

  lemma {:induction false} UnitPerformed(w: Work, spec: SectionSpec, u: TableUnit)
    ensures var s := Perform(w, UnitEvents(spec)(u));
            match ImportUnit(w.tables, spec, w.listed, u)
            case Ok(after) => s == Stop(w.(tables := after, listed := w.listed + [(u.name, |u.rows|)]), None)
            case Err(e) => s.error == Some(e)
  {
    hide Perform, AdmitUnit, InsertAll, RowEvents, Flat;
    var head, rows, tail := Unit(spec, u.name, u.columns), Flat(RowEvents(u.name, u.columns), u.rows),
        UnitEnd(u.name, |u.rows|);
    PerformAppend(w, [head], rows + [tail]);
    PerformOne(w, head);
    PerformAppend(w, rows, [tail]);
    RowsPerformed(w, u.name, u.columns, u.rows);
    PerformOne(Perform(w, rows).work, tail);
  }

  lemma {:induction false} UnitsPerformed(w: Work, spec: SectionSpec, units: seq<TableUnit>)
    requires w.listed == []
    ensures var s := Perform(w, Flat(UnitEvents(spec), units));
            match ImportUnits(w.tables, spec, units)
            case Ok((after, listed)) => s == Stop(w.(tables := after, listed := listed), None)
            case Err(e) => s.error == Some(e)
    decreases |units|
  {
    hide Perform, ImportUnit, UnitEvents;
    if units == [] {
      PerformNone(w);
    } else {
      var n := |units| - 1;
      var init, u := units[..n], units[n];
      assert units == init + [u];
      UnitsPerformed(w, spec, init);
      FlatAppend(UnitEvents(spec), init, u);
      PerformAppend(w, Flat(UnitEvents(spec), init), UnitEvents(spec)(u));
      UnitPerformed(Perform(w, Flat(UnitEvents(spec), init)).work, spec, u);
    }
  }

  lemma {:induction false} SectionPerformed(w: Work, sections: seq<SectionSpec>, expected: Expected, s: SectionUnit)
    requires w.listed == []
    ensures var stop := Perform(w, SectionEvents(sections, expected)(s));
            match ImportOne(w.tables, sections, expected, w.report, s)
            case Ok((after, report)) => stop == Stop(Work(after, [], report), None)
            case Err(e) => stop.error == Some(e)
  {
    hide Perform, ImportUnits, UnitEvents, Flat, FindSection, FirstMissing;
    match SkipOf(sections, expected, s.name, s.formatVersion)
    case Some(reason) =>
      PerformOne(w, Skipped(SkippedSection(s.name, reason)));
    case None =>
      var spec := FindSection(sections, s.name).value;
      var units := Flat(UnitEvents(spec), s.tables);
      UnitsPerformed(w, spec, s.tables);
      PerformAppend(w, units, [SectionEnd(spec)]);
      PerformOne(Perform(w, units).work, SectionEnd(spec));
  }

  lemma {:induction false} TreePerformed(tables: Tables, sections: seq<SectionSpec>, expected: Expected, tree: Tree)
    ensures var stop := Perform(Work(tables, [], NOTHING), Flat(SectionEvents(sections, expected), tree));
            match ImportTree(tables, sections, expected, tree)
            case Ok((after, report)) => stop == Stop(Work(after, [], report), None)
            case Err(e) => stop.error == Some(e)
    decreases |tree|
  {
    hide Perform, ImportOne, SectionEvents;
    var w, ev := Work(tables, [], NOTHING), SectionEvents(sections, expected);
    if tree == [] {
      PerformNone(w);
    } else {
      var n := |tree| - 1;
      var init, s := tree[..n], tree[n];
      assert tree == init + [s];
      TreePerformed(tables, sections, expected, init);
      FlatAppend(ev, init, s);
      PerformAppend(w, Flat(ev, init), ev(s));
      if ImportTree(tables, sections, expected, init).Ok? {
        SectionPerformed(Perform(w, Flat(ev, init)).work, sections, expected, s);
      }
    }
  }

  lemma {:induction false} BadStops(w: Work, es: seq<Event>, e: SnapshotError)
    requires EndsBad(es, e)
    ensures Perform(w, es).error.Some?
  {
    hide Perform;
    var n := |es| - 1;
    assert es == es[..n] + [es[n]];
    PerformAppend(w, es[..n], [es[n]]);
    PerformOne(Perform(w, es[..n]).work, es[n]);
  }

  /** On a well-formed artifact the first failure is that of importing the decoded tree, and without one
      the database and the report are those of the import; a malformed artifact always fails. */
  lemma {:induction false} ImportBytesExact(tables: Tables, sections: seq<SectionSpec>, expected: Expected,
      artifact: seq<byte>)
    ensures var stop := ImportBytes(tables, sections, expected, artifact);
            match ParseArtifact(artifact)
            case Err(_) => stop.error.Some?
            case Ok(tree) =>
              match ImportTree(tables, sections, expected, tree)
              case Ok((after, report)) => stop == Stop(Work(after, [], report), None)
              case Err(e) => stop.error == Some(e)
  {
    hide Perform, ArtifactEvents, ImportTree, ParseArtifact, Flat, SectionEvents;
    ArtifactRead(sections, expected, artifact);
    match ParseArtifact(artifact)
    case Ok(tree) =>
      TreePerformed(tables, sections, expected, tree);
    case Err(e) =>
      BadStops(Work(tables, [], NOTHING), ArtifactEvents(sections, expected, artifact), e);
  }
}
