/** The report over all covered tables, and its verdict. */
module Verdict {
  import opened Bytes
  import opened Codec
  import opened Sorting
  import opened Canonical
  import opened Export
  import opened Hexadecimal
  import opened Divergence

  datatype TableCluster = TableCluster(cluster: Cluster, rowCount: nat, excluded: seq<Name>)

  datatype TableReport = TableReport(section: Name, table: Name, totalNodes: nat, clusters: seq<TableCluster>)

  datatype DivergenceReport =
    DivergenceReport(meshId: nat, totalNodes: nat, minHeight: nat, maxHeight: nat, topClusters: seq<Cluster>,
      tables: seq<TableReport>)

  function ClusterOf(c: TableCluster): Cluster { c.cluster }

  function Bare(cs: seq<TableCluster>): seq<Cluster> { MapSeq(ClusterOf, cs) }

  // ----- one table

  type Info = (nat, seq<Name>)

  function InfoOf(r: NodeReport, section: Name, table: Name, hash: seq<byte>): Option<Info> {
    match Lookup(r.manifest, section, table)
    case None => None
    case Some(t) => if Hex(t.hash) == hash then Some((t.rowCount, t.excluded)) else None
  }

  /** Row count and exclusions as the first node with that hash reported them. */
  function FirstInfo(rs: seq<NodeReport>, section: Name, table: Name, hash: seq<byte>): Option<Info> {
    if rs == [] then None else
    var before := FirstInfo(rs[..|rs| - 1], section, table, hash);
    if before.Some? then before else InfoOf(rs[|rs| - 1], section, table, hash)
  }

  /** A hash is described by the first node that reports it for the table, or by none. */
  lemma {:induction false} FirstInfoExact(rs: seq<NodeReport>, section: Name, table: Name, hash: seq<byte>)
    returns (i: nat)
    ensures i <= |rs|
    ensures forall j, u :: 0 <= j < i && Reports(rs[j].manifest, section, table, u) ==> Hex(u.hash) != hash
    ensures i == |rs| ==> FirstInfo(rs, section, table, hash) == None
    ensures i < |rs| ==>
            exists t :: Reports(rs[i].manifest, section, table, t) && Hex(t.hash) == hash &&
              FirstInfo(rs, section, table, hash) == Some((t.rowCount, t.excluded))
  {
    hide Reports, Lookup, Hex;
    if rs == [] {
      i := 0;
    } else {
      var n := |rs| - 1;
      i := FirstInfoExact(rs[..n], section, table, hash);
      assert forall j :: 0 <= j < n ==> rs[..n][j] == rs[j];
      if i == n {
        forall u ensures Reports(rs[n].manifest, section, table, u) <==>
                         Lookup(rs[n].manifest, section, table) == Some(u) {
          LookupExact(rs[n].manifest, section, table, u);
        }
        if InfoOf(rs[n], section, table, hash).None? {
          i := |rs|;
        }
      }
    }
  }

  function Get(infos: map<seq<byte>, Info>, hash: seq<byte>): Option<Info> {
    if hash in infos then Some(infos[hash]) else None
  }

  method CollectInfo(rs: seq<NodeReport>, section: Name, table: Name) returns (infos: map<seq<byte>, Info>)
    ensures forall hash :: Get(infos, hash) == FirstInfo(rs, section, table, hash)
  {
    hide Lookup;
    infos := map[];
    var i := 0;
    while i < |rs|
      invariant 0 <= i <= |rs|
      invariant forall hash :: Get(infos, hash) == FirstInfo(rs[..i], section, table, hash)
    {
      assert rs[..i + 1][..i] == rs[..i];
      match Lookup(rs[i].manifest, section, table) {
        case None =>
        case Some(t) =>
          var hex := Hex(t.hash);
          if hex !in infos {
            infos := infos[hex := (t.rowCount, t.excluded)];
          }
      }
      i := i + 1;
    }
    assert rs[..i] == rs;
  }

  ghost predicate Analyzes(r: TableReport, rs: seq<NodeReport>) {
    && r.totalNodes == |rs|
    && Clusters(TableKey(r.section, r.table), rs, Bare(r.clusters)) && HighestFirst(Bare(r.clusters))
    && forall i :: 0 <= i < |r.clusters| ==>
         var c := r.clusters[i];
         match FirstInfo(rs, r.section, r.table, c.cluster.hash)
         case Some(info) => (c.rowCount, c.excluded) == info
         case None => c.rowCount == 0 && c.excluded == []
  }

  method AnalyzeTable(section: Name, table: Name, rs: seq<NodeReport>) returns (r: TableReport)
    ensures r.section == section && r.table == table && Analyzes(r, rs)
  {
    hide Clusters, FirstInfo, MapSeq, HighestFirst;
    var infos := CollectInfo(rs, section, table);
    var cs := ClusterBy(TableKey(section, table), rs);
    var out: seq<TableCluster>, i := [], 0;
    while i < |cs|
      invariant 0 <= i <= |cs| && |out| == i
      invariant forall j :: 0 <= j < i ==>
                  && out[j].cluster == cs[j]
                  && (match FirstInfo(rs, section, table, cs[j].hash)
                      case Some(info) => (out[j].rowCount, out[j].excluded) == info
                      case None => out[j].rowCount == 0 && out[j].excluded == [])
    {
      assert Get(infos, cs[i].hash) == FirstInfo(rs, section, table, cs[i].hash);
      var (rowCount, excluded) := if cs[i].hash in infos then infos[cs[i].hash] else (0, []);
      out := out + [TableCluster(cs[i], rowCount, excluded)];
      i := i + 1;
    }
    assert Bare(out) == cs;
    r := TableReport(section, table, |rs|, out);
  }

  // ----- verdicts on clusters

  function MaxHeight(cs: seq<Cluster>): nat {
    if cs == [] then 0 else
    var m, last := MaxHeight(cs[..|cs| - 1]), cs[|cs| - 1];
    if last.height > m then last.height else m
  }

  function AtHeight(cs: seq<Cluster>, h: nat): seq<Cluster> {
    if cs == [] then [] else
    AtHeight(cs[..|cs| - 1], h) + (if cs[|cs| - 1].height == h then [cs[|cs| - 1]] else [])
  }

  predicate IsConsensus(cs: seq<Cluster>) { |AtHeight(cs, MaxHeight(cs))| == 1 }

  predicate IsFullConsensus(r: DivergenceReport) {
    && |AtHeight(r.topClusters, r.maxHeight)| == 1
    && forall i :: 0 <= i < |r.tables| ==> IsConsensus(Bare(r.tables[i].clusters))
  }

  lemma {:induction false} MaxHeightIs(cs: seq<Cluster>, h: nat)
    requires (exists i :: 0 <= i < |cs| && cs[i].height == h) && forall i :: 0 <= i < |cs| ==> cs[i].height <= h
    ensures MaxHeight(cs) == h
  {
    var n := |cs| - 1;
    MaxHeightBound(cs[..n], h);
    if cs[n].height < h {
      var i :| 0 <= i < |cs| && cs[i].height == h;
      assert cs[..n][i].height == h;
      MaxHeightIs(cs[..n], h);
    }
  }

  lemma {:induction false} MaxHeightBound(cs: seq<Cluster>, h: nat)
    requires forall i :: 0 <= i < |cs| ==> cs[i].height <= h
    ensures MaxHeight(cs) <= h
  {
    if cs != [] {
      MaxHeightBound(cs[..|cs| - 1], h);
    }
  }

  lemma {:induction false} NoneAtHeight(cs: seq<Cluster>, h: nat)
    ensures AtHeight(cs, h) == [] <==> forall i :: 0 <= i < |cs| ==> cs[i].height != h
  {
    if cs != [] {
      var n := |cs| - 1;
      NoneAtHeight(cs[..n], h);
      assert forall i :: 0 <= i < n ==> cs[..n][i] == cs[i];
    }
  }

  ghost predicate OnlyAt(cs: seq<Cluster>, h: nat, i: int) {
    0 <= i < |cs| && forall j :: 0 <= j < |cs| ==> (cs[j].height == h <==> j == i)
  }

  /** Exactly one cluster at a height: there is one, and no two. */
  lemma {:induction false} OneAtHeight(cs: seq<Cluster>, h: nat)
    ensures |AtHeight(cs, h)| == 1 <==> exists i :: OnlyAt(cs, h, i)
  {
    if cs != [] {
      var n := |cs| - 1;
      var init := cs[..n];
      OneAtHeight(init, h);
      NoneAtHeight(init, h);
      assert forall i :: 0 <= i < n ==> init[i] == cs[i];
      if |AtHeight(cs, h)| == 1 {
        if cs[n].height == h {
          assert OnlyAt(cs, h, n);
        } else {
          var i :| OnlyAt(init, h, i);
          assert OnlyAt(cs, h, i);
        }
      }
      if i :| OnlyAt(cs, h, i) {
        if i < n {
          assert OnlyAt(init, h, i);
        }
      }
    }
  }

  // ----- the plain statement

  /** The height of the most advanced node. */
  function TopHeight(rs: seq<NodeReport>): nat {
    if rs == [] then 0 else
    var m, h := TopHeight(rs[..|rs| - 1]), rs[|rs| - 1].height;
    if h > m then h else m
  }

  lemma {:induction false} TopHeightIs(rs: seq<NodeReport>)
    ensures forall r :: r in rs ==> r.height <= TopHeight(rs)
    ensures rs != [] ==> exists r :: r in rs && r.height == TopHeight(rs)
  {
    if rs != [] {
      var init, last := rs[..|rs| - 1], rs[|rs| - 1];
      TopHeightIs(init);
      assert rs == init + [last];
      assert last in rs;
    }
  }

  ghost predicate Current(rs: seq<NodeReport>, r: NodeReport) { r in rs && r.height == TopHeight(rs) }

  /** What one manifest reports, the other reports with the same hash. */
  ghost predicate Echoes(m: SnapshotManifest, n: SnapshotManifest) {
    forall section, table, t :: Reports(m, section, table, t) ==> Echo(n, section, table, t.hash)
  }

  ghost predicate Echo(n: SnapshotManifest, section: Name, table: Name, hash: Digest) {
    exists u :: Reports(n, section, table, u) && u.hash == hash
  }

  /** All most advanced nodes report the same top hash, and the same tables with the same hashes. */
  ghost predicate Agreement(rs: seq<NodeReport>) {
    forall a, b :: Current(rs, a) && Current(rs, b) ==>
      a.manifest.topHash == b.manifest.topHash && Echoes(a.manifest, b.manifest)
  }

  ghost predicate SameLookups(m: SnapshotManifest, n: SnapshotManifest) {
    forall section, table :: HashOf(m, section, table) == HashOf(n, section, table)
  }

  lemma {:induction false} EchoExact(n: SnapshotManifest, section: Name, table: Name, hash: Digest)
    ensures Echo(n, section, table, hash) <==> HashOf(n, section, table) == Some(hash)
  {
    hide Lookup, Reports;
    forall u ensures Reports(n, section, table, u) <==> Lookup(n, section, table) == Some(u) {
      LookupExact(n, section, table, u);
    }
  }

  lemma {:induction false} EchoesExact(m: SnapshotManifest, n: SnapshotManifest)
    ensures Echoes(m, n) && Echoes(n, m) <==> SameLookups(m, n)
  {
    if Echoes(m, n) && Echoes(n, m) {
      forall section, table ensures HashOf(m, section, table) == HashOf(n, section, table) {
        EchoOnce(m, n, section, table);
        EchoOnce(n, m, section, table);
      }
    }
    if SameLookups(m, n) {
      LookupsEcho(m, n);
      LookupsEcho(n, m);
    }
  }

  lemma {:induction false} EchoOnce(m: SnapshotManifest, n: SnapshotManifest, section: Name, table: Name)
    requires Echoes(m, n)
    ensures HashOf(m, section, table).Some? ==> HashOf(n, section, table) == HashOf(m, section, table)
  {
    hide Lookup, Reports, Echo;
    if HashOf(m, section, table).Some? {
      var t := Lookup(m, section, table).value;
      LookupExact(m, section, table, t);
      EchoExact(n, section, table, t.hash);
    }
  }

  lemma {:induction false} LookupsEcho(m: SnapshotManifest, n: SnapshotManifest)
    requires SameLookups(m, n)
    ensures Echoes(m, n)
  {
    hide Lookup, Reports, Echo;
    forall section, table, t | Reports(m, section, table, t) ensures Echo(n, section, table, t.hash) {
      LookupExact(m, section, table, t);
      EchoExact(n, section, table, t.hash);
    }
  }

  lemma {:induction false} AgreementByLookup(rs: seq<NodeReport>)
    ensures Agreement(rs) <==>
            forall a, b :: Current(rs, a) && Current(rs, b) ==>
              a.manifest.topHash == b.manifest.topHash && SameLookups(a.manifest, b.manifest)
  {
    hide Current, Echoes, SameLookups;
    forall a, b | Current(rs, a) && Current(rs, b)
      ensures Echoes(a.manifest, b.manifest) && Echoes(b.manifest, a.manifest) <==>
              SameLookups(a.manifest, b.manifest)
    {
      EchoesExact(a.manifest, b.manifest);
    }
  }

  /** The manifest has an entry of these names and this hash. */
  ghost predicate Lists(n: SnapshotManifest, section: Name, table: Name, hash: Digest) {
    exists s, t :: s in n.sections && t in s.tables && s.name == section && t.name == table && t.hash == hash
  }

  /** Where names tell entries apart, agreement is about all entries: what one manifest lists, the other
      lists too. */
  lemma {:induction false} EchoesAllEntries(m: SnapshotManifest, n: SnapshotManifest)
    requires NamesApart(m) && NamesApart(n)
    ensures Echoes(m, n) <==>
            forall s, t :: s in m.sections && t in s.tables ==> Lists(n, s.name, t.name, t.hash)
  {
    hide NamesApart, Lists, Echo, ReportsAt;
    if Echoes(m, n) {
      forall s, t | s in m.sections && t in s.tables ensures Lists(n, s.name, t.name, t.hash) {
        EntryReported(m, s, t);
        EchoIsListed(n, s.name, t.name, t.hash);
      }
    }
    if forall s, t :: s in m.sections && t in s.tables ==> Lists(n, s.name, t.name, t.hash) {
      forall section, table, t | Reports(m, section, table, t) ensures Echo(n, section, table, t.hash) {
        var s := ReportedEntry(m, section, table, t);
        EchoIsListed(n, s.name, t.name, t.hash);
      }
    }
  }

  lemma {:induction false} ReportedEntry(m: SnapshotManifest, section: Name, table: Name, t: TableManifest)
    returns (s: SectionManifest)
    requires Reports(m, section, table, t)
    ensures s in m.sections && t in s.tables && s.name == section && t.name == table
  {
    var i, j :| ReportsAt(m, section, table, i, j) && m.sections[i].tables[j] == t;
    s := m.sections[i];
  }

  lemma {:induction false} EchoIsListed(n: SnapshotManifest, section: Name, table: Name, hash: Digest)
    requires NamesApart(n)
    ensures Echo(n, section, table, hash) <==> Lists(n, section, table, hash)
  {
    hide NamesApart, Reports;
    if u :| Reports(n, section, table, u) && u.hash == hash {
      var s := ReportedEntry(n, section, table, u);
      assert Lists(n, section, table, hash);
    }
    if s, t :| s in n.sections && t in s.tables && s.name == section && t.name == table && t.hash == hash {
      EntryReported(n, s, t);
    }
  }

  ghost predicate SameKeys(f: NodeReport -> Key, rs: seq<NodeReport>) {
    forall a, b :: Current(rs, a) && Current(rs, b) ==> f(a) == f(b)
  }

  lemma {:induction false} ClusterReport(f: NodeReport -> Key, rs: seq<NodeReport>, cs: seq<Cluster>, i: nat)
    returns (r: NodeReport)
    requires Clusters(f, rs, cs) && i < |cs|
    ensures r in rs && f(r) == cs[i].Key()
  {
    hide NodesWith;
    NodesWithNonEmpty(f, rs, cs[i].Key());
    r :| r in rs && f(r) == cs[i].Key();
  }

  /** One cluster on top is agreement among the most advanced nodes. */
  lemma {:induction false} ConsensusExact(f: NodeReport -> Key, rs: seq<NodeReport>, cs: seq<Cluster>)
    requires rs != [] && Clusters(f, rs, cs) && forall r :: f(r).0 == r.height
    ensures MaxHeight(cs) == TopHeight(rs)
    ensures |AtHeight(cs, TopHeight(rs))| == 1 <==> SameKeys(f, rs)
  {
    hide NodesWith, AtHeight, MaxHeight, TopHeight;
    var h := TopHeight(rs);
    TopHeightIs(rs);
    var top :| top in rs && top.height == h;
    var t :| 0 <= t < |cs| && cs[t].Key() == f(top);
    forall i | 0 <= i < |cs| ensures cs[i].height <= h {
      var r := ClusterReport(f, rs, cs, i);
    }
    MaxHeightIs(cs, h);
    OneAtHeight(cs, h);
    if SameKeys(f, rs) {
      forall i | 0 <= i < |cs| && cs[i].height == h ensures i == t {
        var r := ClusterReport(f, rs, cs, i);
        assert Current(rs, r) && Current(rs, top);
      }
      assert OnlyAt(cs, h, t);
    }
    if |AtHeight(cs, h)| == 1 {
      forall r | Current(rs, r) ensures f(r) == f(top) {
        var i :| 0 <= i < |cs| && cs[i].Key() == f(r);
      }
    }
  }

  /** All most advanced nodes report the same about one table. */
  ghost predicate SameHashes(rs: seq<NodeReport>, section: Name, table: Name) {
    forall a, b :: Current(rs, a) && Current(rs, b) ==>
      HashOf(a.manifest, section, table) == HashOf(b.manifest, section, table)
  }

  lemma {:induction false} SameTableKeys(rs: seq<NodeReport>, section: Name, table: Name)
    ensures SameKeys(TableKey(section, table), rs)
       <==> SameHashes(rs, section, table)
  {
    hide HashOf, HashText;
    var f := TableKey(section, table);
    forall a, b | Current(rs, a) && Current(rs, b)
      ensures f(a) == f(b) <==> HashOf(a.manifest, section, table) == HashOf(b.manifest, section, table)
    {
      HashTextInjective(HashOf(a.manifest, section, table), HashOf(b.manifest, section, table));
    }
  }

  lemma {:induction false} SameTopKeys(rs: seq<NodeReport>)
    ensures SameKeys(TopKey, rs) <==>
            forall a, b :: Current(rs, a) && Current(rs, b) ==> a.manifest.topHash == b.manifest.topHash
  {
    hide Hex;
    forall a, b | Current(rs, a) && Current(rs, b)
      ensures TopKey(a) == TopKey(b) <==> a.manifest.topHash == b.manifest.topHash
    {
      if Hex(a.manifest.topHash) == Hex(b.manifest.topHash) {
        HexInjective(a.manifest.topHash, b.manifest.topHash);
      }
    }
  }

  /** Nodes that lag behind do not change the verdict: only the most advanced ones count. */
  lemma {:induction false} LaggingIrrelevant(rs: seq<NodeReport>, qs: seq<NodeReport>)
    requires forall r :: Current(rs, r) <==> Current(qs, r)
    ensures Agreement(rs) <==> Agreement(qs)
  {
    hide Current, Echoes;
  }

  lemma {:induction false} LaggingJoins(rs: seq<NodeReport>, i: nat, lag: NodeReport)
    requires i <= |rs| && lag.height < TopHeight(rs)
    ensures Agreement(rs[..i] + [lag] + rs[i..]) <==> Agreement(rs)
  {
    hide TopHeight, Echoes;
    var qs := rs[..i] + [lag] + rs[i..];
    assert rs == rs[..i] + rs[i..];
    assert forall r :: r in qs <==> r == lag || r in rs;
    TopHeightIs(rs);
    TopHeightIs(qs);
    assert rs != [] by { NoReports(rs); }
    assert TopHeight(qs) == TopHeight(rs);
    LaggingIrrelevant(rs, qs);
  }

  lemma {:induction false} NoReports(rs: seq<NodeReport>)
    ensures rs == [] ==> TopHeight(rs) == 0
  {
  }

  // ----- all tables

  type TableName = (Name, Name)

  /** Every table some node reports. */
  function Reported(rs: seq<NodeReport>): set<TableName> {
    set r, s, t | r in rs && s in r.manifest.sections && t in s.tables :: (s.name, t.name)
  }

  const NamePairOrder: Order<TableName> :=
    (a: TableName, b: TableName) => if a.0 == b.0 then BytesLeq(a.1, b.1) else BytesLeq(a.0, b.0)

  lemma {:induction false} NamePairOrderTotal()
    ensures TotalPreorder(NamePairOrder)
  {
    hide BytesLeq;
    forall a: TableName, b: TableName ensures NamePairOrder(a, b) || NamePairOrder(b, a) {
      BytesLeqTotal(a.0, b.0);
      BytesLeqTotal(a.1, b.1);
    }
    forall a: TableName, b: TableName, c: TableName | NamePairOrder(a, b) && NamePairOrder(b, c)
      ensures NamePairOrder(a, c)
    {
      NamePairTransitive(a, b, c);
    }
  }

  lemma {:induction false} NamePairTransitive(a: TableName, b: TableName, c: TableName)
    requires NamePairOrder(a, b) && NamePairOrder(b, c)
    ensures NamePairOrder(a, c)
  {
    hide BytesLeq;
    BytesLeqTotal(a.0, b.0);
    if a.0 == b.0 == c.0 {
      BytesLeqTransitive(a.1, b.1, c.1);
    } else if a.0 != b.0 && b.0 != c.0 {
      BytesLeqTransitive(a.0, b.0, c.0);
    }
  }

  lemma {:induction false} NamePairMeans(a: TableName, b: TableName)
    ensures NamePairOrder(a, b) <==> BytesLeq(a.0, b.0) && (a.0 == b.0 ==> BytesLeq(a.1, b.1))
  {
    hide BytesLeq;
    BytesLeqTotal(a.0, a.0);
  }

  /** The elements of a set, sorted. */
  method SortedNames(names: set<TableName>) returns (list: seq<TableName>)
    ensures Distinct(list) && Sorted(list, NamePairOrder) && forall n :: n in list <==> n in names
  {
    hide Sort, NamePairOrder;
    var unsorted: seq<TableName>, todo := [], names;
    while todo != {}
      invariant Distinct(unsorted) && todo <= names
      invariant forall n :: n in unsorted <==> n in names && n !in todo
      decreases |todo|
    {
      var n :| n in todo;
      unsorted := unsorted + [n];
      todo := todo - {n};
    }
    list := Sort(unsorted, NamePairOrder);
    NamePairOrderTotal();
    SortSorted(unsorted, NamePairOrder);
    SameElements(unsorted, list);
    PermutedDistinct(unsorted, list);
    forall n ensures n in list <==> n in names {
      assert n in unsorted <==> n in multiset(unsorted);
      assert n in list <==> n in multiset(list);
    }
  }

  lemma {:induction false} LookupReported(rs: seq<NodeReport>, r: NodeReport, section: Name, table: Name)
    requires r in rs && Lookup(r.manifest, section, table).Some?
    ensures (section, table) in Reported(rs)
  {
    hide Reported, Lookup;
    var m, t := r.manifest, Lookup(r.manifest, section, table).value;
    LookupExact(m, section, table, t);
    var i, j :| ReportsAt(m, section, table, i, j) && m.sections[i].tables[j] == t;
    ReportedHas(rs, r, m.sections[i], t);
  }

  lemma {:induction false} UnreportedTable(rs: seq<NodeReport>, r: NodeReport, section: Name, table: Name)
    requires r in rs && (section, table) !in Reported(rs)
    ensures HashOf(r.manifest, section, table) == None
  {
    hide Reported, Lookup;
    if Lookup(r.manifest, section, table).Some? {
      LookupReported(rs, r, section, table);
    }
  }

  lemma {:induction false} ReportedHas(rs: seq<NodeReport>, r: NodeReport, s: SectionManifest, t: TableManifest)
    requires r in rs && s in r.manifest.sections && t in s.tables
    ensures (s.name, t.name) in Reported(rs)
  {
  }

  function LowHeight(rs: seq<NodeReport>): nat
    requires rs != []
  {
    if |rs| == 1 then rs[0].height else
    var m, h := LowHeight(rs[..|rs| - 1]), rs[|rs| - 1].height;
    if h < m then h else m
  }

  lemma {:induction false} LowHeightIs(rs: seq<NodeReport>)
    requires rs != []
    ensures forall r :: r in rs ==> LowHeight(rs) <= r.height
    ensures exists r :: r in rs && r.height == LowHeight(rs)
  {
    var init, last := rs[..|rs| - 1], rs[|rs| - 1];
    assert rs == init + [last] && last in rs;
    if init != [] {
      LowHeightIs(init);
    }
  }

  /** What a report promises about the node reports it was built from. */
  ghost predicate Covers(r: DivergenceReport, rs: seq<NodeReport>)
    requires rs != []
  {
    && r.totalNodes == |rs| && r.minHeight == LowHeight(rs) && r.maxHeight == TopHeight(rs)
    && Clusters(TopKey, rs, r.topClusters) && HighestFirst(r.topClusters)
    && (forall i :: 0 <= i < |r.tables| ==> Analyzes(r.tables[i], rs))
    && (forall i, j :: 0 <= i < j < |r.tables| ==>
          && (r.tables[i].section, r.tables[i].table) != (r.tables[j].section, r.tables[j].table)
          && BytesLeq(r.tables[i].section, r.tables[j].section)
          && (r.tables[i].section == r.tables[j].section ==> BytesLeq(r.tables[i].table, r.tables[j].table)))
    && (forall i :: 0 <= i < |r.tables| ==> (r.tables[i].section, r.tables[i].table) in Reported(rs))
    && (forall n :: n in Reported(rs) ==>
        exists i :: 0 <= i < |r.tables| && (r.tables[i].section, r.tables[i].table) == n)
  }

  method Heights(rs: seq<NodeReport>) returns (low: nat, top: nat)
    requires rs != []
    ensures low == LowHeight(rs) && top == TopHeight(rs)
  {
    low, top := rs[0].height, rs[0].height;
    var i := 1;
    assert rs[..1] == [rs[0]] && rs[..1][..0] == [];
    while i < |rs|
      invariant 1 <= i <= |rs| && low == LowHeight(rs[..i]) && top == TopHeight(rs[..i])
    {
      assert rs[..i + 1][..i] == rs[..i];
      if rs[i].height < low {
        low := rs[i].height;
      }
      if rs[i].height > top {
        top := rs[i].height;
      }
      i := i + 1;
    }
    assert rs[..i] == rs;
  }

  method BuildDivergenceReport(meshId: nat, rs: seq<NodeReport>) returns (r: Option<DivergenceReport>)
    ensures r.None? <==> rs == []
    ensures r.Some? ==> r.value.meshId == meshId && Covers(r.value, rs)
    ensures r.Some? ==> (IsFullConsensus(r.value) <==> Agreement(rs))
  {
    hide Clusters, Analyzes, Agreement, IsFullConsensus, LowHeight, TopHeight, Reported, NamePairOrder,
         HighestFirst, BytesLeq;
    if rs == [] {
      return None;
    }
    var low, top := Heights(rs);
    var tops := ClusterBy(TopKey, rs);
    var names := SortedNames(Reported(rs));
    var tables: seq<TableReport>, i := [], 0;
    while i < |names|
      invariant 0 <= i <= |names| && |tables| == i
      invariant forall j :: 0 <= j < i ==> (tables[j].section, tables[j].table) == names[j] && Analyzes(tables[j], rs)
    {
      var t := AnalyzeTable(names[i].0, names[i].1, rs);
      tables := tables + [t];
      i := i + 1;
    }
    forall n | n in Reported(rs) ensures exists j :: 0 <= j < |tables| && (tables[j].section, tables[j].table) == n {
      assert n in names;
      var j :| 0 <= j < |names| && names[j] == n;
      assert (tables[j].section, tables[j].table) == n;
    }
    forall j, k | 0 <= j < k < |tables|
      ensures (tables[j].section, tables[j].table) != (tables[k].section, tables[k].table)
      ensures BytesLeq(tables[j].section, tables[k].section)
      ensures tables[j].section == tables[k].section ==> BytesLeq(tables[j].table, tables[k].table)
    {
      assert names[j] != names[k] && NamePairOrder(names[j], names[k]);
      NamePairMeans(names[j], names[k]);
    }
    forall j | 0 <= j < |tables| ensures (tables[j].section, tables[j].table) in Reported(rs) {
      assert names[j] in names;
    }
    var report := DivergenceReport(meshId, |rs|, low, top, tops, tables);
    FullConsensusExact(report, rs);
    r := Some(report);
  }

  lemma {:induction false} TableVerdict(t: TableReport, rs: seq<NodeReport>)
    requires rs != [] && Analyzes(t, rs)
    ensures IsConsensus(Bare(t.clusters)) <==> SameKeys(TableKey(t.section, t.table), rs)
  {
    hide Clusters, FirstInfo, AtHeight, MaxHeight, TopHeight, Bare, SameKeys;
    ConsensusExact(TableKey(t.section, t.table), rs, Bare(t.clusters));
  }

  /** The verdict is the plain statement. */
  lemma {:induction false} FullConsensusExact(r: DivergenceReport, rs: seq<NodeReport>)
    requires rs != [] && Covers(r, rs)
    ensures IsFullConsensus(r) <==> Agreement(rs)
  {
    hide Clusters, Analyzes, AtHeight, MaxHeight, TopHeight, Bare, IsConsensus, Reported, HashOf, Current, LowHeight,
         SameKeys, BytesLeq, Agreement;
    AgreementByLookup(rs);
    ConsensusExact(TopKey, rs, r.topClusters);
    SameTopKeys(rs);
    forall i | 0 <= i < |r.tables|
      ensures IsConsensus(Bare(r.tables[i].clusters)) <==>
              SameHashes(rs, r.tables[i].section, r.tables[i].table)
    {
      TableVerdict(r.tables[i], rs);
      SameTableKeys(rs, r.tables[i].section, r.tables[i].table);
    }
    if IsFullConsensus(r) {
      forall a, b, section, table | Current(rs, a) && Current(rs, b)
        ensures HashOf(a.manifest, section, table) == HashOf(b.manifest, section, table)
      {
        TablesAgree(r, rs, a, b, section, table);
      }
    }
  }

  lemma {:induction false} TablesAgree(r: DivergenceReport, rs: seq<NodeReport>, a: NodeReport, b: NodeReport,
      section: Name, table: Name)
    requires rs != [] && Covers(r, rs) && Current(rs, a) && Current(rs, b)
    requires forall i :: 0 <= i < |r.tables| ==> IsConsensus(Bare(r.tables[i].clusters))
    ensures HashOf(a.manifest, section, table) == HashOf(b.manifest, section, table)
  {
    hide Clusters, Analyzes, TopHeight, Bare, IsConsensus, Reported, HashOf, LowHeight, SameKeys, BytesLeq;
    if (section, table) in Reported(rs) {
      var i :| 0 <= i < |r.tables| && (r.tables[i].section, r.tables[i].table) == (section, table);
      TableVerdict(r.tables[i], rs);
      SameTableKeys(rs, section, table);
    } else {
      UnreportedTable(rs, a, section, table);
      UnreportedTable(rs, b, section, table);
    }
  }
}
