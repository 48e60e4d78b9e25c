/** Lower-case hexadecimal text. */
module Hexadecimal {
  import opened Bytes

  function HexDigit(n: nat): byte
    requires n < 16
  {
    if n < 10 then 48 + n else 87 + n
  }

  lemma {:induction false} HexDigits(n: nat)
    requires n < 16
    ensures HexDigit(n) == Ascii("0123456789abcdef")[n]
  {
    var digits := "0123456789abcdef";
    assert digits[n] as int == if n < 10 then 48 + n else 87 + n;
  }

  /** Two lower-case hex digits per byte. */
  function Hex(m: seq<byte>): (s: seq<byte>)
    ensures |s| == 2 * |m|
    ensures forall i :: 0 <= i < |m| ==> s[2 * i] == HexDigit(m[i] / 16) && s[2 * i + 1] == HexDigit(m[i] % 16)
  {
    if m == [] then [] else
    var n := |m| - 1;
    Hex(m[..n]) + [HexDigit(m[n] / 16), HexDigit(m[n] % 16)]
  }

  lemma {:induction false} HexInjective(a: seq<byte>, b: seq<byte>)
    requires |a| == |b| && Hex(a) == Hex(b)
    ensures a == b
  {
    forall i | 0 <= i < |a| ensures a[i] == b[i] {
      assert Hex(a)[2 * i] == Hex(b)[2 * i] && Hex(a)[2 * i + 1] == Hex(b)[2 * i + 1];
      assert a[i] / 16 == b[i] / 16 && a[i] % 16 == b[i] % 16;
    }
  }

  method PushHex(out: Buffer, m: seq<byte>)
    modifies out
    ensures out.bytes == old(out.bytes) + Hex(m)
  {
    var i := 0;
    while i < |m|
      invariant 0 <= i <= |m|
      invariant out.bytes == old(out.bytes) + Hex(m[..i])
    {
      assert m[..i + 1][..i] == m[..i];
      out.Extend([HexDigit(m[i] / 16)]);
      out.Extend([HexDigit(m[i] % 16)]);
      i := i + 1;
    }
    assert m[..i] == m;
  }
}
