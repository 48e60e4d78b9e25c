/** From databases to the verdict: nodes that compute their manifests from their own databases, under one
    registry, are found in full consensus exactly when the most advanced of them hold the same content. */
module MeshConsensus {
  import opened Codec
  import opened Sqlite
  import opened Export
  import opened States
  import opened RoundTrip
  import opened ManifestExact
  import D = Divergence
  import V = Verdict

  type NodeReport = D.NodeReport

  /** Every node reports the manifest of its own database. */
  ghost predicate Honest(h: Hash, sections: seq<SectionSpec>, rs: seq<NodeReport>, db: NodeReport -> Tables) {
    forall r :: r in rs ==> Manifest(h, db(r), sections) == Ok(r.manifest)
  }

  /** The most advanced nodes' tables can be compared. */
  ghost predicate AllComparable(h: Hash, sections: seq<SectionSpec>, rs: seq<NodeReport>, db: NodeReport -> Tables) {
    forall a, b, spec :: V.Current(rs, a) && V.Current(rs, b) && IsCovered(sections, spec) ==>
      Comparable(h, db(a), db(b), spec)
  }

  ghost predicate SameStates(a: Tables, b: Tables, sections: seq<SectionSpec>) {
    forall spec :: IsCovered(sections, spec) ==> SameContent(a, b, spec)
  }

  lemma {:induction false} RegistryNamesApart(h: Hash, tables: Tables, sections: seq<SectionSpec>, m: SnapshotManifest)
    requires RegistryOk(sections) && Manifest(h, tables, sections) == Ok(m)
    ensures D.NamesApart(m)
  {
    hide Manifest, TableNames;
    ManifestLists(h, tables, sections, m);
    forall i, j, l | 0 <= i < |m.sections| && 0 <= j < l < |m.sections[i].tables|
      ensures m.sections[i].tables[j].name != m.sections[i].tables[l].name
    {
      assert Describes(m.sections[i].tables[j], tables, sections[i].tables[j]);
      assert Describes(m.sections[i].tables[l], tables, sections[i].tables[l]);
      assert TableNames(sections[i].tables)[j] != TableNames(sections[i].tables)[l];
    }
  }

  /** Manifests of one registry that echo each other have equal hashes entry by entry. */
  lemma {:induction false} EchoedEntry(h: Hash, a: Tables, b: Tables, sections: seq<SectionSpec>,
      ma: SnapshotManifest, mb: SnapshotManifest, i: nat, j: nat)
    requires RegistryOk(sections) && Manifest(h, a, sections) == Ok(ma) && Manifest(h, b, sections) == Ok(mb)
    requires V.Echoes(ma, mb) && i < |sections| && j < |sections[i].tables|
    ensures |ma.sections| == |mb.sections| == |sections|
    ensures |ma.sections[i].tables| == |mb.sections[i].tables| == |sections[i].tables|
    ensures ma.sections[i].tables[j].hash == mb.sections[i].tables[j].hash
  {
    hide Manifest, RegistryOk, D.NamesApart, D.HashOf, D.Reports, V.Echo;
    RegistryNamesApart(h, a, sections, ma);
    RegistryNamesApart(h, b, sections, mb);
    ManifestLists(h, a, sections, ma);
    ManifestLists(h, b, sections, mb);
    var s, t := ma.sections[i], ma.sections[i].tables[j];
    var s', t' := mb.sections[i], mb.sections[i].tables[j];
    assert Describes(t, a, sections[i].tables[j]) && Describes(t', b, sections[i].tables[j]);
    D.EntryReported(ma, s, t);
    V.EchoExact(mb, s.name, t.name, t.hash);
    D.EntryReported(mb, s', t');
  }

  lemma {:induction false} EchoedStates(h: Hash, a: Tables, b: Tables, sections: seq<SectionSpec>,
      ma: SnapshotManifest, mb: SnapshotManifest)
    requires RegistryOk(sections) && Manifest(h, a, sections) == Ok(ma) && Manifest(h, b, sections) == Ok(mb)
    requires forall spec :: IsCovered(sections, spec) ==> Comparable(h, a, b, spec)
    ensures ma.topHash == mb.topHash && V.Echoes(ma, mb) && V.Echoes(mb, ma) <==> SameStates(a, b, sections)
  {
    hide Manifest, RegistryOk, Comparable, SameContent, V.Echoes;
    if V.Echoes(ma, mb) {
      forall spec | IsCovered(sections, spec) ensures SameContent(a, b, spec) {
        var i :| 0 <= i < |sections| && spec in sections[i].tables;
        var j :| 0 <= j < |sections[i].tables| && sections[i].tables[j] == spec;
        EchoedEntry(h, a, b, sections, ma, mb, i, j);
        EntryIsContent(h, a, b, sections, ma, mb, i, j);
      }
    }
    if SameStates(a, b, sections) {
      ManifestIsContent(h, a, b, sections, ma, mb);
      EchoesItself(ma);
    }
  }

  lemma {:induction false} EchoesItself(m: SnapshotManifest)
    ensures V.Echoes(m, m)
  {
    hide D.Reports;
  }

  /** The verdict over a whole mesh: full consensus is reported exactly when every two of the most
      advanced nodes hold the same content in every covered table, exported or divergence-only. */
  lemma {:induction false} ConsensusIsContent(h: Hash, sections: seq<SectionSpec>, rs: seq<NodeReport>,
      db: NodeReport -> Tables, report: V.DivergenceReport)
    requires rs != [] && RegistryOk(sections) && Honest(h, sections, rs, db) && AllComparable(h, sections, rs, db)
    requires V.Covers(report, rs)
    ensures V.IsFullConsensus(report) <==>
            forall a, b :: V.Current(rs, a) && V.Current(rs, b) ==> SameStates(db(a), db(b), sections)
  {
    hide Manifest, RegistryOk, Comparable, SameStates, V.Echoes, V.Covers, V.IsFullConsensus, V.TopHeight;
    V.FullConsensusExact(report, rs);
    forall a, b | V.Current(rs, a) && V.Current(rs, b)
      ensures (a.manifest.topHash == b.manifest.topHash && V.Echoes(a.manifest, b.manifest) &&
                V.Echoes(b.manifest, a.manifest)) <==>
              SameStates(db(a), db(b), sections)
    {
      EchoedStates(h, db(a), db(b), sections, a.manifest, b.manifest);
    }
  }
}
