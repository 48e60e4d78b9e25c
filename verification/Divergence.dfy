/** The divergence verdict: nodes clustered by what they report, against the plain statement that
    the most advanced nodes all report the same. */
module Divergence {
  import opened Bytes
  import opened Codec
  import opened Sorting
  import opened Canonical
  import opened Export
  import opened Hexadecimal
  import opened Timing
  import opened Selection

  datatype NodeReport = NodeReport(node: nat, height: nat, manifest: SnapshotManifest)

  // ----- what a node says about a table

  function FindSection(sections: seq<SectionManifest>, name: Name): Option<SectionManifest> {
    if sections == [] then None
    else if sections[0].name == name then Some(sections[0])
    else FindSection(sections[1..], name)
  }

  function FindTable(tables: seq<TableManifest>, name: Name): Option<TableManifest> {
    if tables == [] then None
    else if tables[0].name == name then Some(tables[0])
    else FindTable(tables[1..], name)
  }

  function Lookup(m: SnapshotManifest, section: Name, table: Name): Option<TableManifest> {
    match FindSection(m.sections, section)
    case None => None
    case Some(s) => FindTable(s.tables, table)
  }

  /** The manifest's first section of that name has `t` as its first table of that name. */
  ghost predicate Reports(m: SnapshotManifest, section: Name, table: Name, t: TableManifest) {
    exists i, j :: ReportsAt(m, section, table, i, j) && m.sections[i].tables[j] == t
  }

  ghost predicate ReportsAt(m: SnapshotManifest, section: Name, table: Name, i: int, j: int) {
    && 0 <= i < |m.sections| && m.sections[i].name == section
    && (forall k :: 0 <= k < i ==> m.sections[k].name != section)
    && 0 <= j < |m.sections[i].tables| && m.sections[i].tables[j].name == table
    && (forall l :: 0 <= l < j ==> m.sections[i].tables[l].name != table)
  }

  lemma {:induction false} FindSectionExact(sections: seq<SectionManifest>, name: Name) returns (i: nat)
    ensures i <= |sections| && forall k :: 0 <= k < i ==> sections[k].name != name
    ensures i < |sections| ==> sections[i].name == name
    ensures FindSection(sections, name) == if i < |sections| then Some(sections[i]) else None
  {
    if sections == [] || sections[0].name == name {
      i := 0;
    } else {
      var k := FindSectionExact(sections[1..], name);
      i := k + 1;
    }
  }

  lemma {:induction false} FindTableExact(tables: seq<TableManifest>, name: Name) returns (j: nat)
    ensures j <= |tables| && forall k :: 0 <= k < j ==> tables[k].name != name
    ensures j < |tables| ==> tables[j].name == name
    ensures FindTable(tables, name) == if j < |tables| then Some(tables[j]) else None
  {
    if tables == [] || tables[0].name == name {
      j := 0;
    } else {
      var k := FindTableExact(tables[1..], name);
      j := k + 1;
    }
  }

  /** The lookup finds exactly what the manifest reports. */
  lemma {:induction false} LookupExact(m: SnapshotManifest, section: Name, table: Name, t: TableManifest)
    ensures Lookup(m, section, table) == Some(t) <==> Reports(m, section, table, t)
  {
    hide FindSection, FindTable;
    var i := FindSectionExact(m.sections, section);
    if i < |m.sections| {
      var j := FindTableExact(m.sections[i].tables, table);
      if j < |m.sections[i].tables| {
        assert ReportsAt(m, section, table, i, j);
      }
      forall k, l | ReportsAt(m, section, table, k, l) ensures k == i && l == j {
        assert k == i;
      }
    }
  }

  /** Names that tell sections apart, and the tables within each. */
  ghost predicate NamesApart(m: SnapshotManifest) {
    && (forall i, k :: 0 <= i < k < |m.sections| ==> m.sections[i].name != m.sections[k].name)
    && (forall i, j, l :: 0 <= i < |m.sections| && 0 <= j < l < |m.sections[i].tables| ==>
          m.sections[i].tables[j].name != m.sections[i].tables[l].name)
  }

  /** Where names tell entries apart, every entry is reported. */
  lemma {:induction false} EntryReported(m: SnapshotManifest, s: SectionManifest, t: TableManifest)
    requires NamesApart(m) && s in m.sections && t in s.tables
    ensures Reports(m, s.name, t.name, t) && HashOf(m, s.name, t.name) == Some(t.hash)
  {
    hide Lookup;
    var i :| 0 <= i < |m.sections| && m.sections[i] == s;
    var j :| 0 <= j < |s.tables| && s.tables[j] == t;
    assert ReportsAt(m, s.name, t.name, i, j);
    LookupExact(m, s.name, t.name, t);
  }

  /** The reported hash, or its absence. */
  function HashOf(m: SnapshotManifest, section: Name, table: Name): Option<Digest> {
    match Lookup(m, section, table)
    case None => None
    case Some(t) => Some(t.hash)
  }

  /** Stands in for a hash where a node does not report the table. */
  const MISSING := Ascii("<table not reported>")

  function HashText(hash: Option<Digest>): seq<byte> {
    match hash
    case None => MISSING
    case Some(d) => Hex(d)
  }

  lemma {:induction false} HashTextInjective(a: Option<Digest>, b: Option<Digest>)
    ensures HashText(a) == HashText(b) <==> a == b
  {
    assert |MISSING| == 20;
    if a.Some? && b.Some? && HashText(a) == HashText(b) {
      HexInjective(a.value, b.value);
    }
  }

  // ----- clusters

  type Key = (nat, seq<byte>)

  function TableKey(section: Name, table: Name): NodeReport -> Key {
    (r: NodeReport) => (r.height, HashText(HashOf(r.manifest, section, table)))
  }

  function TopKey(r: NodeReport): Key { (r.height, Hex(r.manifest.topHash)) }

  datatype Cluster = Cluster(height: nat, hash: seq<byte>, nodes: seq<nat>) {
    function Key(): Key { (height, hash) }
  }

  /** The nodes that report under a key, in the order of the reports. */
  function NodesWith(f: NodeReport -> Key, rs: seq<NodeReport>, k: Key): seq<nat> {
    if rs == [] then [] else
    var r := rs[|rs| - 1];
    NodesWith(f, rs[..|rs| - 1], k) + (if f(r) == k then [r.node] else [])
  }

  /** Higher first, then larger. */
  const ClusterOrder: Order<Cluster> :=
    (a: Cluster, b: Cluster) => a.height > b.height || (a.height == b.height && |a.nodes| >= |b.nodes|)

  ghost predicate HighestFirst(cs: seq<Cluster>) {
    forall i, j :: 0 <= i < j < |cs| ==>
      cs[i].height >= cs[j].height && (cs[i].height == cs[j].height ==> |cs[i].nodes| >= |cs[j].nodes|)
  }

  /** Every report is in exactly one cluster: the one of its key. */
  ghost predicate Clusters(f: NodeReport -> Key, rs: seq<NodeReport>, cs: seq<Cluster>) {
    && (forall i :: 0 <= i < |cs| ==> cs[i].nodes == NodesWith(f, rs, cs[i].Key()) && cs[i].nodes != [])
    && (forall i, j :: 0 <= i < j < |cs| ==> cs[i].Key() != cs[j].Key())
    && (forall r :: r in rs ==> exists i :: 0 <= i < |cs| && cs[i].Key() == f(r))
  }

  lemma {:induction false} NodesWithStep(f: NodeReport -> Key, rs: seq<NodeReport>, i: nat, k: Key)
    requires i < |rs|
    ensures NodesWith(f, rs[..i + 1], k) == NodesWith(f, rs[..i], k) + (if f(rs[i]) == k then [rs[i].node] else [])
  {
    assert rs[..i + 1][..i] == rs[..i];
  }

  lemma {:induction false} NodesWithNonEmpty(f: NodeReport -> Key, rs: seq<NodeReport>, k: Key)
    ensures NodesWith(f, rs, k) != [] <==> exists r :: r in rs && f(r) == k
  {
    if rs != [] {
      var init, last := rs[..|rs| - 1], rs[|rs| - 1];
      NodesWithNonEmpty(f, init, k);
      assert rs == init + [last];
    }
  }

  /** A cluster lists exactly the nodes that report under its key, in the order of the reports. */
  lemma {:induction false} NodesWithExact(f: NodeReport -> Key, rs: seq<NodeReport>, k: Key)
    ensures Selects(rs, (r: NodeReport) => f(r) == k, (r: NodeReport) => r.node, NodesWith(f, rs, k))
  {
    if rs != [] {
      var n := |rs| - 1;
      NodesWithExact(f, rs[..n], k);
      SelectsSnoc(rs[..n], (r: NodeReport) => f(r) == k, (r: NodeReport) => r.node, NodesWith(f, rs[..n], k), rs[n]);
      assert rs == rs[..n] + [rs[n]];
    }
  }

  /** Grouping in one pass over the reports. */
  method GroupBy(f: NodeReport -> Key, rs: seq<NodeReport>) returns (groups: map<Key, seq<nat>>)
    ensures forall k :: k in groups <==> exists r :: r in rs && f(r) == k
    ensures forall k :: k in groups ==> groups[k] == NodesWith(f, rs, k)
  {
    hide NodesWith;
    groups := map[];
    var i := 0;
    forall k ensures NodesWith(f, [], k) == [] { NodesWithNonEmpty(f, [], k); }
    assert rs[..0] == [];
    while i < |rs|
      invariant 0 <= i <= |rs|
      invariant forall k :: if k in groups
                  then groups[k] == NodesWith(f, rs[..i], k) else NodesWith(f, rs[..i], k) == []
      invariant forall k :: k in groups ==> groups[k] != []
    {
      var key := f(rs[i]);
      forall k
        ensures NodesWith(f, rs[..i + 1], k) == NodesWith(f, rs[..i], k) + (if key == k then [rs[i].node] else [])
      {
        NodesWithStep(f, rs, i, k);
      }
      var before := if key in groups then groups[key] else [];
      groups := groups[key := before + [rs[i].node]];
      i := i + 1;
    }
    assert rs[..i] == rs;
    forall k ensures k in groups <==> exists r :: r in rs && f(r) == k {
      NodesWithNonEmpty(f, rs, k);
    }
  }

  /** The groups as a list, in no particular order. */
  method ListGroups(groups: map<Key, seq<nat>>) returns (cs: seq<Cluster>)
    ensures forall i :: 0 <= i < |cs| ==> cs[i].Key() in groups && cs[i].nodes == groups[cs[i].Key()]
    ensures forall i, j :: 0 <= i < j < |cs| ==> cs[i].Key() != cs[j].Key()
    ensures forall k :: k in groups ==> exists i :: 0 <= i < |cs| && cs[i].Key() == k
  {
    cs := [];
    var todo := groups.Keys;
    while todo != {}
      invariant todo <= groups.Keys
      invariant forall i :: 0 <= i < |cs| ==>
                  cs[i].Key() in groups && cs[i].Key() !in todo && cs[i].nodes == groups[cs[i].Key()]
      invariant forall i, j :: 0 <= i < j < |cs| ==> cs[i].Key() != cs[j].Key()
      invariant forall k :: k in groups && k !in todo ==> exists i :: 0 <= i < |cs| && cs[i].Key() == k
      decreases |todo|
    {
      var k :| k in todo;
      ghost var was := cs;
      cs := cs + [Cluster(k.0, k.1, groups[k])];
      assert cs[|was|].Key() == k;
      forall q | q in groups && q !in todo ensures exists i :: 0 <= i < |cs| && cs[i].Key() == q {
        var i :| 0 <= i < |was| && was[i].Key() == q;
        assert cs[i].Key() == q;
      }
      todo := todo - {k};
    }
  }

  lemma {:induction false} ClusterOrderTotal()
    ensures TotalPreorder(ClusterOrder)
  {
  }

  lemma {:induction false} ClustersPermute(f: NodeReport -> Key, rs: seq<NodeReport>, cs: seq<Cluster>,
      ds: seq<Cluster>)
    requires Clusters(f, rs, cs) && multiset(cs) == multiset(ds)
    ensures Clusters(f, rs, ds)
  {
    hide NodesWith;
    SameElements(cs, ds);
    forall i | 0 <= i < |ds| ensures ds[i].nodes == NodesWith(f, rs, ds[i].Key()) && ds[i].nodes != [] {
      assert ds[i] in cs;
    }
    forall r | r in rs ensures exists i :: 0 <= i < |ds| && ds[i].Key() == f(r) {
      var i :| 0 <= i < |cs| && cs[i].Key() == f(r);
      assert cs[i] in ds;
    }
    KeysPermute(cs, ds);
  }

  function KeyOf(c: Cluster): Key { c.Key() }

  lemma {:induction false} KeysPermute(cs: seq<Cluster>, ds: seq<Cluster>)
    requires multiset(cs) == multiset(ds) && forall i, j :: 0 <= i < j < |cs| ==> cs[i].Key() != cs[j].Key()
    ensures forall i, j :: 0 <= i < j < |ds| ==> ds[i].Key() != ds[j].Key()
  {
    var a, b := MapSeq(KeyOf, cs), MapSeq(KeyOf, ds);
    hide MapSeq;
    assert Distinct(a);
    MapPermutes(KeyOf, cs, ds);
    PermutedDistinct(a, b);
    forall i, j | 0 <= i < j < |ds| ensures ds[i].Key() != ds[j].Key() {
      assert b[i] != b[j];
    }
  }

  /** Clusters, highest first and larger first. */
  method ClusterBy(f: NodeReport -> Key, rs: seq<NodeReport>) returns (cs: seq<Cluster>)
    ensures Clusters(f, rs, cs) && HighestFirst(cs)
  {
    hide NodesWith, Sort;
    var groups := GroupBy(f, rs);
    var unsorted := ListGroups(groups);
    forall i | 0 <= i < |unsorted|
      ensures unsorted[i].nodes == NodesWith(f, rs, unsorted[i].Key()) && unsorted[i].nodes != []
    {
      NodesWithNonEmpty(f, rs, unsorted[i].Key());
    }
    forall r | r in rs ensures exists i :: 0 <= i < |unsorted| && unsorted[i].Key() == f(r) {
      assert f(r) in groups;
    }
    cs := Sort(unsorted, ClusterOrder);
    ClusterOrderTotal();
    SortSorted(unsorted, ClusterOrder);
    ClustersPermute(f, rs, unsorted, cs);
  }

  // ----- nothing is lost: the clusters account for every report

  function SizeWith(f: NodeReport -> Key, rs: seq<NodeReport>): Key -> nat { (k: Key) => |NodesWith(f, rs, k)| }

  function Hits(key: Key): Key -> nat { (k: Key) => if k == key then 1 else 0 }

  lemma {:induction false} HitsOnce(keys: seq<Key>, key: Key)
    requires Distinct(keys)
    ensures Total(Hits(key), keys) == if key in keys then 1 else 0
  {
    if keys != [] {
      var n := |keys| - 1;
      HitsOnce(keys[..n], key);
      assert keys == keys[..n] + [keys[n]];
    }
  }

  lemma {:induction false} TotalAdds(f: NodeReport -> Key, rs: seq<NodeReport>, keys: seq<Key>)
    requires rs != []
    ensures Total(SizeWith(f, rs), keys) == Total(SizeWith(f, rs[..|rs| - 1]), keys) +
            Total(Hits(f(rs[|rs| - 1])), keys)
  {
    if keys != [] {
      TotalAdds(f, rs, keys[..|keys| - 1]);
    }
  }

  lemma {:induction false} SizesAddUp(f: NodeReport -> Key, rs: seq<NodeReport>, keys: seq<Key>)
    requires Distinct(keys) && forall r :: r in rs ==> f(r) in keys
    ensures Total(SizeWith(f, rs), keys) == |rs|
  {
    hide Total, Distinct;
    if rs == [] {
      NoSizes(f, keys);
    } else {
      var init, last := rs[..|rs| - 1], rs[|rs| - 1];
      SizesAddUp(f, init, keys);
      TotalAdds(f, rs, keys);
      HitsOnce(keys, f(last));
      assert last in rs;
    }
  }

  lemma {:induction false} NoSizes(f: NodeReport -> Key, keys: seq<Key>)
    ensures Total(SizeWith(f, []), keys) == 0
  {
    if keys != [] {
      NoSizes(f, keys[..|keys| - 1]);
    }
  }

  /** The clusters partition the reports: sizes add up to the number of nodes. */
  lemma {:induction false} ClustersPartition(f: NodeReport -> Key, rs: seq<NodeReport>, cs: seq<Cluster>)
    requires Clusters(f, rs, cs)
    ensures Total((c: Cluster) => |c.nodes|, cs) == |rs|
  {
    var keys := MapSeq(KeyOf, cs);
    hide MapSeq, NodesWith, Total;
    forall r | r in rs ensures f(r) in keys {
      var i :| 0 <= i < |cs| && cs[i].Key() == f(r);
      assert keys[i] == f(r);
    }
    SizesAddUp(f, rs, keys);
    SameTotals((c: Cluster) => |c.nodes|, cs, SizeWith(f, rs), keys);
  }

  lemma {:induction false} SameTotals<T, U>(f: T -> nat, xs: seq<T>, g: U -> nat, ys: seq<U>)
    requires |xs| == |ys| && forall i :: 0 <= i < |xs| ==> f(xs[i]) == g(ys[i])
    ensures Total(f, xs) == Total(g, ys)
  {
    if xs != [] {
      SameTotals(f, xs[..|xs| - 1], g, ys[..|ys| - 1]);
    }
  }
}
