/** The top hash commits to the artifact.

    Blake3 is an arbitrary function `h` into 32 bytes. No such function is injective, so the
    assumption is the exact one the argument uses: `h` does not collide on the preimages the two
    snapshots actually hash. */
module Commitment {
  import opened Bytes
  import opened Codec
  import opened Artifact
  import opened ArtifactExact
  import opened Export

  lemma {:induction false} ConcatSplit(a: seq<byte>, s: seq<byte>, b: seq<byte>, t: seq<byte>)
    requires a + s == b + t && |a| == |b|
    ensures a == b && s == t
  {
    assert (a + s)[..|a|] == a && (a + s)[|a|..] == s;
    assert (b + t)[..|b|] == b && (b + t)[|b|..] == t;
  }

  lemma {:induction false} U32Injective(a: nat, b: nat)
    requires a < TWO_32 && b < TWO_32 && U32Bytes(a) == U32Bytes(b)
    ensures a == b
  {
    hide LE, Pow256;
    Pow256Widths();
    LEInjective(a, b, 4);
  }

  lemma {:induction false} NameInjective(a: Name, s: seq<byte>, b: Name, t: seq<byte>)
    requires |a| < TWO_32 && |b| < TWO_32 && EncodeName(a) + s == EncodeName(b) + t
    ensures a == b && s == t
  {
    hide U32Bytes;
    assert EncodeName(a) + s == U32Bytes(|a|) + (a + s);
    assert EncodeName(b) + t == U32Bytes(|b|) + (b + t);
    ConcatSplit(U32Bytes(|a|), a + s, U32Bytes(|b|), b + t);
    U32Injective(|a|, |b|);
    ConcatSplit(a, s, b, t);
  }

  lemma {:induction false} EntryInjective(a: Entry, s: seq<byte>, b: Entry, t: seq<byte>)
    requires |a.name| < TWO_32 && |b.name| < TWO_32 && EncodeEntry(a) + s == EncodeEntry(b) + t
    ensures a == b && s == t
  {
    hide U32Bytes, EncodeName;
    assert EncodeEntry(a) + s == EncodeName(a.name) + (U32Bytes(a.formatVersion) + (a.hash + s));
    assert EncodeEntry(b) + t == EncodeName(b.name) + (U32Bytes(b.formatVersion) + (b.hash + t));
    NameInjective(a.name, U32Bytes(a.formatVersion) + (a.hash + s), b.name, U32Bytes(b.formatVersion) + (b.hash + t));
    ConcatSplit(U32Bytes(a.formatVersion), a.hash + s, U32Bytes(b.formatVersion), b.hash + t);
    U32Injective(a.formatVersion, b.formatVersion);
    ConcatSplit(a.hash, s, b.hash, t);
  }

  lemma {:induction false} EntriesInjective(es: seq<Entry>, fs: seq<Entry>)
    requires |es| == |fs| && EncodeMany(EncodeEntry, es) == EncodeMany(EncodeEntry, fs)
    requires forall e :: e in es || e in fs ==> |e.name| < TWO_32
    ensures es == fs
  {
    hide EncodeEntry;
    if es != [] {
      EntryInjective(es[0], EncodeMany(EncodeEntry, es[1..]), fs[0], EncodeMany(EncodeEntry, fs[1..]));
      EntriesInjective(es[1..], fs[1..]);
      assert es == [es[0]] + es[1..] && fs == [fs[0]] + fs[1..];
    }
  }

  /** The top preimage holds the artifact version and every section's name, version and hash. */
  lemma {:induction false} TopInjective(version: u32, es: seq<Entry>, other: u32, fs: seq<Entry>)
    requires |es| < TWO_32 && |fs| < TWO_32 && forall e :: e in es || e in fs ==> |e.name| < TWO_32
    ensures VersionedTop(version, es) == VersionedTop(other, fs) <==> version == other && es == fs
  {
    hide EncodeEntry, U32Bytes, EncodeMany;
    if VersionedTop(version, es) == VersionedTop(other, fs) {
      var a, b := EncodeMany(EncodeEntry, es), EncodeMany(EncodeEntry, fs);
      ConcatSplit(DOMAIN_TOP, U32Bytes(version) + (U32Bytes(|es|) + a),
                  DOMAIN_TOP, U32Bytes(other) + (U32Bytes(|fs|) + b));
      ConcatSplit(U32Bytes(version), U32Bytes(|es|) + a, U32Bytes(other), U32Bytes(|fs|) + b);
      U32Injective(version, other);
      ConcatSplit(U32Bytes(|es|), a, U32Bytes(|fs|), b);
      U32Injective(|es|, |fs|);
      EntriesInjective(es, fs);
    }
  }

  lemma {:induction false} DigestsInjective(h: Hash, us: seq<TableUnit>, vs: seq<TableUnit>)
    requires |us| == |vs| && EncodeMany(TableHasher(h), us) == EncodeMany(TableHasher(h), vs)
    ensures forall i :: 0 <= i < |us| ==> h(TablePreimage(us[i])) == h(TablePreimage(vs[i]))
  {
    if us != [] {
      var enc := TableHasher(h);
      var a: Digest, b: Digest := h(TablePreimage(us[0])), h(TablePreimage(vs[0]));
      assert enc(us[0]) == a && enc(vs[0]) == b;
      ConcatSplit(enc(us[0]), EncodeMany(enc, us[1..]), enc(vs[0]), EncodeMany(enc, vs[1..]));
      DigestsInjective(h, us[1..], vs[1..]);
      forall i | 0 <= i < |us| ensures h(TablePreimage(us[i])) == h(TablePreimage(vs[i])) {
        if i > 0 {
          assert us[i] == us[1..][i - 1] && vs[i] == vs[1..][i - 1];
        }
      }
    }
  }

  // ----- what is hashed

  ghost predicate IsPreimage(h: Hash, tree: Tree, x: seq<byte>) {
    || x == TopPreimage(Entries(h, tree))
    || (exists i :: 0 <= i < |tree| && x == SectionPreimage(h, tree[i]))
    || (exists i, j :: 0 <= i < |tree| && 0 <= j < |tree[i].tables| && x == TablePreimage(tree[i].tables[j]))
  }

  ghost predicate CollisionFree(h: Hash, s: Tree, t: Tree) {
    forall x, y :: IsPreimage(h, s, x) && IsPreimage(h, t, y) && h(x) == h(y) ==> x == y
  }

  // ----- from equal digests back to equal trees

  lemma {:induction false} TopCommits(h: Hash, s: Tree, t: Tree)
    requires TreeFits(s) && TreeFits(t) && CollisionFree(h, s, t) && TopHash(h, s) == TopHash(h, t)
    ensures Entries(h, s) == Entries(h, t)
  {
    hide SectionFits, EncodeEntry, U32Bytes, EncodeMany, SectionPreimage;
    var es, fs := Entries(h, s), Entries(h, t);
    assert IsPreimage(h, s, TopPreimage(es)) && IsPreimage(h, t, TopPreimage(fs));
    EntryNamesFit(h, s);
    EntryNamesFit(h, t);
    TopInjective(ARTIFACT_VERSION, es, ARTIFACT_VERSION, fs);
  }

  lemma {:induction false} EntryNamesFit(h: Hash, tree: Tree)
    requires TreeFits(tree)
    ensures forall e :: e in Entries(h, tree) ==> |e.name| < TWO_32
  {
    forall e | e in Entries(h, tree) ensures |e.name| < TWO_32 {
      var i :| 0 <= i < |tree| && Entries(h, tree)[i] == e;
      assert SectionFits(tree[i]);
    }
  }

  lemma {:induction false} SectionCommits(h: Hash, s: Tree, t: Tree, i: nat)
    requires TreeFits(s) && TreeFits(t) && CollisionFree(h, s, t) && |s| == |t| && i < |s|
    requires EntryOf(h, s[i]) == EntryOf(h, t[i])
    ensures |s[i].tables| == |t[i].tables|
    ensures forall j :: 0 <= j < |s[i].tables| ==> h(TablePreimage(s[i].tables[j])) == h(TablePreimage(t[i].tables[j]))
  {
    hide TopPreimage, EncodeTable, EncodeMany, TableFits, EncodeName, U32Bytes;
    var a, b := s[i], t[i];
    assert IsPreimage(h, s, SectionPreimage(h, a)) && IsPreimage(h, t, SectionPreimage(h, b));
    assert SectionPreimage(h, a) == SectionPreimage(h, b);
    assert SectionFits(a) && SectionFits(b);
    var ha, hb := EncodeSectionHeader(SectionHeaderOf(a)), EncodeSectionHeader(SectionHeaderOf(b));
    var ta, tb := EncodeMany(TableHasher(h), a.tables), EncodeMany(TableHasher(h), b.tables);
    ConcatSplit(DOMAIN_SECTION, ha + ta, DOMAIN_SECTION, hb + tb);
    ConcatSplit(ha, ta, hb, tb);
    SectionCounts(a, b);
    DigestsInjective(h, a.tables, b.tables);
  }

  lemma {:induction false} SectionCounts(a: SectionUnit, b: SectionUnit)
    requires a.name == b.name && a.formatVersion == b.formatVersion && |a.tables| < TWO_32 && |b.tables| < TWO_32
    requires EncodeSectionHeader(SectionHeaderOf(a)) == EncodeSectionHeader(SectionHeaderOf(b))
    ensures |a.tables| == |b.tables|
  {
    hide EncodeName, U32Bytes;
    var v := U32Bytes(a.formatVersion);
    ConcatSplit(EncodeName(a.name), v + U32Bytes(|a.tables|), EncodeName(b.name), v + U32Bytes(|b.tables|));
    ConcatSplit(v, U32Bytes(|a.tables|), v, U32Bytes(|b.tables|));
    U32Injective(|a.tables|, |b.tables|);
  }

  lemma {:induction false} TableCommits(h: Hash, s: Tree, t: Tree, i: nat, j: nat)
    requires TreeFits(s) && TreeFits(t) && CollisionFree(h, s, t)
    requires i < |s| && i < |t| && j < |s[i].tables| && j < |t[i].tables|
    requires h(TablePreimage(s[i].tables[j])) == h(TablePreimage(t[i].tables[j]))
    ensures s[i].tables[j] == t[i].tables[j]
  {
    hide TopPreimage, SectionPreimage, EncodeTable, TableFits, Spans, ParseTable;
    var u, v := s[i].tables[j], t[i].tables[j];
    assert IsPreimage(h, s, TablePreimage(u)) && IsPreimage(h, t, TablePreimage(v));
    ConcatSplit(DOMAIN_TABLE, EncodeTable(u), DOMAIN_TABLE, EncodeTable(v));
    assert SectionFits(s[i]) && SectionFits(t[i]);
    TableInjective(u, v);
  }

  lemma {:induction false} TableInjective(u: TableUnit, v: TableUnit)
    requires TableFits(u) && TableFits(v) && EncodeTable(u) == EncodeTable(v)
    ensures u == v
  {
    hide ParseTable, TableFits, EncodeTable;
    var buf := EncodeTable(u);
    assert buf[0..|buf|] == buf;
    TableComplete(buf, 0, u, |buf|);
    TableComplete(buf, 0, v, |buf|);
  }

  /** Absent collisions, equal top hashes mean equal exported trees. */
  lemma {:induction false} TopHashCommits(h: Hash, s: Tree, t: Tree)
    requires TreeFits(s) && TreeFits(t) && CollisionFree(h, s, t)
    ensures TopHash(h, s) == TopHash(h, t) <==> s == t
    ensures EncodeArtifact(s) == EncodeArtifact(t) <==> s == t
  {
    hide CollisionFree, TreeFits, TopHash, EncodeArtifact, EntryOf, ParseArtifact;
    ParseArtifactExact(EncodeArtifact(s), s);
    ParseArtifactExact(EncodeArtifact(t), t);
    if TopHash(h, s) == TopHash(h, t) {
      TopCommits(h, s, t);
      assert |Entries(h, s)| == |s| && |Entries(h, t)| == |t|;
      forall i | 0 <= i < |s| ensures s[i] == t[i] {
        assert Entries(h, s)[i] == Entries(h, t)[i];
        SectionEqual(h, s, t, i);
      }
    }
  }

  lemma {:induction false} SectionEqual(h: Hash, s: Tree, t: Tree, i: nat)
    requires TreeFits(s) && TreeFits(t) && CollisionFree(h, s, t) && |s| == |t| && i < |s|
    requires EntryOf(h, s[i]) == EntryOf(h, t[i])
    ensures s[i] == t[i]
  {
    SectionCommits(h, s, t, i);
    hide CollisionFree, TreeFits;
    forall j | 0 <= j < |s[i].tables| ensures s[i].tables[j] == t[i].tables[j] {
      TableCommits(h, s, t, i, j);
    }
    assert s[i].tables == t[i].tables;
  }
}
