/** Bytes, machine integers, and the wire forms the modules share. */
module Bytes {
  import opened Division

  type byte = x: int | 0 <= x < 256
  type u32 = x: int | 0 <= x < 0x1_0000_0000
  type u64 = x: int | 0 <= x < 0x1_0000_0000_0000_0000
  type i64 = x: int | -0x8000_0000_0000_0000 <= x < 0x8000_0000_0000_0000

  const TWO_32 := 0x1_0000_0000
  const TWO_63 := 0x8000_0000_0000_0000
  const TWO_64 := 0x1_0000_0000_0000_0000

  // ----- little-endian integers

  function Pow256(k: nat): (p: nat)
    ensures p > 0
  {
    if k == 0 then 1 else 256 * Pow256(k - 1)
  }

  lemma {:induction false} Pow256Widths()
    ensures Pow256(4) == TWO_32 && Pow256(8) == TWO_64
  {
    assert Pow256(2) == 65536;
    assert Pow256(4) == 256 * 256 * Pow256(2);
    assert Pow256(6) == 256 * 256 * Pow256(4);
    assert Pow256(8) == 256 * 256 * Pow256(6);
  }

  /** The low `k` bytes of `n`, least significant first. */
  function LE(n: nat, k: nat): (s: seq<byte>)
    ensures |s| == k
    decreases k, n
  {
    if k == 0 then [] else [n % 256] + LE(n / 256, k - 1)
  }

  function FromLE(s: seq<byte>): nat {
    if s == [] then 0 else s[0] + 256 * FromLE(s[1..])
  }

  lemma {:induction false} FromLEBound(s: seq<byte>)
    ensures FromLE(s) < Pow256(|s|)
  {
    if s != [] {
      FromLEBound(s[1..]);
    }
  }

  lemma {:induction false} LERoundTrip(n: nat, k: nat)
    requires n < Pow256(k)
    ensures FromLE(LE(n, k)) == n
    decreases k
  {
    if k > 0 {
      LERoundTrip(n / 256, k - 1);
      assert LE(n, k)[1..] == LE(n / 256, k - 1);
    }
  }

  lemma {:induction false} DivMod256(low: byte, high: nat)
    ensures (low + 256 * high) % 256 == low && (low + 256 * high) / 256 == high
  {
  }

  lemma {:induction false} LEOfFromLE(s: seq<byte>)
    ensures LE(FromLE(s), |s|) == s
  {
    if s != [] {
      LEOfFromLE(s[1..]);
      DivMod256(s[0], FromLE(s[1..]));
      assert s == [s[0]] + s[1..];
    }
  }

  /** `LE` and `FromLE` are mutually inverse at every width. */
  lemma {:induction false} LEExact(s: seq<byte>, n: nat)
    requires n < Pow256(|s|)
    ensures FromLE(s) == n <==> s == LE(n, |s|)
  {
    LERoundTrip(n, |s|);
    LEOfFromLE(s);
  }

  lemma {:induction false} LEInjective(a: nat, b: nat, k: nat)
    requires a < Pow256(k) && b < Pow256(k) && LE(a, k) == LE(b, k)
    ensures a == b
  {
    LERoundTrip(a, k);
    LERoundTrip(b, k);
  }

  /** Byte `j` is the `j`-th base-256 digit. */
  lemma {:induction false} LEDigits(n: nat, k: nat, j: nat)
    requires j < k
    ensures LE(n, k)[j] == n / Pow256(j) % 256
    decreases k
  {
    if j > 0 {
      LEDigits(n / 256, k - 1, j - 1);
      DivDiv(n, 256, Pow256(j - 1));
    }
  }

  // ----- a byte string found at a position of a buffer

  ghost predicate At(buf: seq<byte>, pos: nat, s: seq<byte>) {
    pos + |s| <= |buf| && buf[pos..pos + |s|] == s
  }

  lemma {:induction false} AtConcat(buf: seq<byte>, pos: nat, a: seq<byte>, b: seq<byte>)
    ensures At(buf, pos, a + b) <==> At(buf, pos, a) && At(buf, pos + |a|, b)
  {
    if pos + |a| + |b| <= |buf| {
      var whole := buf[pos..pos + |a + b|];
      assert whole[..|a|] == buf[pos..pos + |a|];
      assert whole[|a|..] == buf[pos + |a|..pos + |a| + |b|];
      assert whole == whole[..|a|] + whole[|a|..];
      assert (a + b)[..|a|] == a && (a + b)[|a|..] == b;
    }
  }

  // ----- lexicographic order on byte strings (BINARY collation, Rust string order)

  predicate BytesLeq(a: seq<byte>, b: seq<byte>) {
    if a == [] then true
    else if b == [] then false
    else a[0] < b[0] || (a[0] == b[0] && BytesLeq(a[1..], b[1..]))
  }

  lemma {:induction false} BytesLeqTotal(a: seq<byte>, b: seq<byte>)
    ensures BytesLeq(a, b) || BytesLeq(b, a)
    ensures BytesLeq(a, b) && BytesLeq(b, a) ==> a == b
  {
    if a != [] && b != [] {
      BytesLeqTotal(a[1..], b[1..]);
      assert a == [a[0]] + a[1..] && b == [b[0]] + b[1..];
    }
  }

  lemma {:induction false} BytesLeqTransitive(a: seq<byte>, b: seq<byte>, c: seq<byte>)
    requires BytesLeq(a, b) && BytesLeq(b, c)
    ensures BytesLeq(a, c)
  {
    if a != [] && b != [] && c != [] && a[0] == b[0] == c[0] {
      BytesLeqTransitive(a[1..], b[1..], c[1..]);
    }
  }

  ghost predicate LessAt(a: seq<byte>, b: seq<byte>, i: int) {
    0 <= i < |a| && i < |b| && a[..i] == b[..i] && a[i] < b[i]
  }

  lemma {:induction false} LessAtHead(a: seq<byte>, b: seq<byte>, i: int)
    requires LessAt(a, b, i)
    ensures i > 0 ==> a[0] == b[0]
  {
    if i > 0 {
      assert a[..i][0] == a[0] && b[..i][0] == b[0];
    }
  }

  /** A prefix comes first; otherwise the smaller byte at the first difference decides. */
  lemma {:induction false} BytesLeqExact(a: seq<byte>, b: seq<byte>)
    ensures BytesLeq(a, b) <==> a <= b || exists i :: LessAt(a, b, i)
  {
    if a != [] && b != [] {
      assert a == [a[0]] + a[1..] && b == [b[0]] + b[1..];
      if a[0] == b[0] {
        BytesLeqExact(a[1..], b[1..]);
        assert a <= b <==> a[1..] <= b[1..];
        if i :| LessAt(a, b, i) {
          assert a[1..][..i - 1] == a[..i][1..] && b[1..][..i - 1] == b[..i][1..];
          assert LessAt(a[1..], b[1..], i - 1);
        }
        if i :| LessAt(a[1..], b[1..], i) {
          assert a[..i + 1] == [a[0]] + a[1..][..i] && b[..i + 1] == [b[0]] + b[1..][..i];
          assert LessAt(a, b, i + 1);
        }
      } else {
        if a[0] < b[0] {
          assert LessAt(a, b, 0);
        }
        forall i | LessAt(a, b, i) ensures i == 0 {
          LessAtHead(a, b, i);
        }
      }
    }
  }

  // ----- UTF-8 well-formedness (the table of section 4 of RFC 3629)

  predicate Tail(b: byte) { 0x80 <= b <= 0xBF }

  predicate ValidUtf8(s: seq<byte>) {
    if s == [] then true
    else if s[0] <= 0x7F then ValidUtf8(s[1..])
    else if 0xC2 <= s[0] <= 0xDF then
      |s| >= 2 && Tail(s[1]) && ValidUtf8(s[2..])
    else if 0xE0 <= s[0] <= 0xEF then
      && |s| >= 3 && Tail(s[1]) && Tail(s[2])
      && (s[0] == 0xE0 ==> s[1] >= 0xA0)
      && (s[0] == 0xED ==> s[1] <= 0x9F)
      && ValidUtf8(s[3..])
    else if 0xF0 <= s[0] <= 0xF4 then
      && |s| >= 4 && Tail(s[1]) && Tail(s[2]) && Tail(s[3])
      && (s[0] == 0xF0 ==> s[1] >= 0x90)
      && (s[0] == 0xF4 ==> s[1] <= 0x8F)
      && ValidUtf8(s[4..])
    else false
  }

  // ----- byte strings under construction

  function Ascii(s: string): seq<byte> { seq(|s|, i requires 0 <= i < |s| => s[i] as int % 256) }

  class Buffer {
    var bytes: seq<byte>

    constructor ()
      ensures bytes == []
    { bytes := []; }

    method Extend(more: seq<byte>)
      modifies this
      ensures bytes == old(bytes) + more
    { bytes := bytes + more; }
  }
}
