/** SQLite's order on values and keys, said without the functions that compute it. */
module Collation {
  import opened Bytes
  import opened Artifact
  import opened Sqlite

  // ----- the numbers that bit patterns stand for

  const FRACTION := 0x10_0000_0000_0000
  const INFINITY := 0x7FF0_0000_0000_0000

  lemma {:induction false} ScaleDouble(x: real, e: int)
    ensures Scale(2.0 * x, e) == 2.0 * Scale(x, e)
    decreases if e < 0 then -e else e
  {
    if e > 0 {
      ScaleDouble(2.0 * x, e - 1);
    } else if e < 0 {
      ScaleDouble(x / 2.0, e + 1);
      assert 2.0 * x / 2.0 == 2.0 * (x / 2.0);
    }
  }

  lemma {:induction false} ScaleUp(x: real, e: int)
    ensures Scale(x, e + 1) == 2.0 * Scale(x, e)
  {
    if e >= 0 {
      ScaleDouble(x, e);
    } else {
      ScaleDouble(x / 2.0, e + 1);
      assert 2.0 * (x / 2.0) == x;
    }
  }

  lemma {:induction false} ScaleAdds(x: real, y: real, e: int)
    ensures Scale(x + y, e) == Scale(x, e) + Scale(y, e)
    decreases if e < 0 then -e else e
  {
    if e > 0 {
      ScaleAdds(2.0 * x, 2.0 * y, e - 1);
      assert 2.0 * (x + y) == 2.0 * x + 2.0 * y;
    } else if e < 0 {
      ScaleAdds(x / 2.0, y / 2.0, e + 1);
      assert (x + y) / 2.0 == x / 2.0 + y / 2.0;
    }
  }

  lemma {:induction false} ScaleMonotone(x: real, y: real, e: int)
    requires x < y
    ensures Scale(x, e) < Scale(y, e)
    decreases if e < 0 then -e else e
  {
    if e > 0 {
      ScaleMonotone(2.0 * x, 2.0 * y, e - 1);
    } else if e < 0 {
      ScaleMonotone(x / 2.0, y / 2.0, e + 1);
    }
  }

  lemma {:induction false} Split(exponent: nat, fraction: nat)
    requires fraction < FRACTION
    ensures (exponent * FRACTION + fraction) / FRACTION == exponent
    ensures (exponent * FRACTION + fraction) % FRACTION == fraction
  {
  }

  lemma {:induction false} Normal(exponent: nat, fraction: nat)
    requires 1 <= exponent < 2048 && fraction < FRACTION
    ensures exponent * FRACTION + fraction < TWO_63
    ensures RealValue(exponent * FRACTION + fraction) == Scale((fraction + FRACTION) as real, exponent - 1075)
  {
    hide Scale;
    Split(exponent, fraction);
  }

  lemma {:induction false} Subnormal(fraction: nat)
    requires fraction < FRACTION
    ensures RealValue(fraction) == Scale(fraction as real, -1074)
  {
    if fraction == 0 {
      ScaleAdds(0.0, 0.0, -1074);
    }
  }

  /** Four laws that leave no choice for any pattern: exponent 1075 counts in ones, each higher exponent
      doubles, exponent 0 continues the spacing of exponent 1, and the top bit is the sign. */
  lemma {:induction false} RealValueLaws(exponent: nat, fraction: nat)
    requires fraction < FRACTION
    ensures RealValue(1075 * FRACTION + fraction) == (fraction + FRACTION) as real
    ensures 1 <= exponent < 2047 ==>
            RealValue((exponent + 1) * FRACTION + fraction) == 2.0 * RealValue(exponent * FRACTION + fraction)
    ensures RealValue(fraction) == RealValue(FRACTION + fraction) - RealValue(FRACTION)
    ensures exponent < 2048 ==>
            var bits := exponent * FRACTION + fraction; RealValue(bits + TWO_63) == -RealValue(bits)
  {
    hide RealValue, Scale;
    Normal(1075, fraction);
    NoScale((fraction + FRACTION) as real);
    if 1 <= exponent < 2047 {
      Normal(exponent, fraction);
      Normal(exponent + 1, fraction);
      ScaleUp((fraction + FRACTION) as real, exponent - 1075);
    }
    Normal(1, fraction);
    Normal(1, 0);
    Subnormal(fraction);
    ScaleAdds(fraction as real, FRACTION as real, -1074);
    if exponent < 2048 {
      SignBit(exponent * FRACTION + fraction);
    }
  }

  lemma {:induction false} NoScale(x: real)
    ensures Scale(x, 0) == x
  {
  }

  lemma {:induction false} SignBit(bits: nat)
    requires bits < TWO_63
    ensures RealValue(bits + TWO_63) == -RealValue(bits)
  {
    hide Scale;
  }

  lemma {:induction false} NextPattern(m: nat)
    requires m < INFINITY
    ensures RealValue(m) < RealValue(m + 1)
  {
    hide RealValue, Scale;
    var e, f := m / FRACTION, m % FRACTION;
    assert m == e * FRACTION + f && e < 2047;
    if e == 0 && f + 1 < FRACTION {
      Subnormal(f);
      Subnormal(f + 1);
      ScaleMonotone(f as real, (f + 1) as real, -1074);
    } else if e == 0 {
      Subnormal(f);
      Normal(1, 0);
      ScaleMonotone(f as real, FRACTION as real, -1074);
    } else if f + 1 < FRACTION {
      Normal(e, f);
      Normal(e, f + 1);
      ScaleMonotone((f + FRACTION) as real, (f + 1 + FRACTION) as real, e - 1075);
    } else {
      Normal(e, f);
      Normal(e + 1, 0);
      ScaleUp(FRACTION as real, e - 1075);
      ScaleDouble(FRACTION as real, e - 1075);
      ScaleMonotone((f + FRACTION) as real, 2.0 * FRACTION as real, e - 1075);
    }
  }

  lemma {:induction false} PatternsAscend(m: nat, n: nat)
    requires m < n <= INFINITY
    ensures RealValue(m) < RealValue(n)
    decreases n - m
  {
    hide RealValue;
    NextPattern(n - 1);
    if m < n - 1 {
      PatternsAscend(m, n - 1);
    }
  }

  /** A bit pattern read as sign and magnitude. */
  function SignedMagnitude(bits: u64): int { if bits < TWO_63 then bits else TWO_63 - bits }

  /** Numbers, infinities included, are ordered as their patterns are, the sign first; the two zeros are
      one number. */
  lemma {:induction false} RealOrder(a: u64, b: u64)
    requires !IsNaN(a) && !IsNaN(b)
    ensures RealValue(a) < RealValue(b) <==> SignedMagnitude(a) < SignedMagnitude(b)
  {
    hide RealValue;
    var m, n := a % TWO_63, b % TWO_63;
    SignOf(a);
    SignOf(b);
    ZeroValue();
    if 0 < m { PatternsAscend(0, m); }
    if 0 < n { PatternsAscend(0, n); }
    if m < n { PatternsAscend(m, n); }
    if n < m { PatternsAscend(n, m); }
  }

  lemma {:induction false} SignOf(bits: u64)
    ensures RealValue(bits) == if bits < TWO_63 then RealValue(bits % TWO_63) else -RealValue(bits % TWO_63)
  {
    hide Scale;
  }

  lemma {:induction false} ZeroValue()
    ensures RealValue(0) == 0.0
  {
  }

  // ----- values

  predicate Numeric(v: Value) { v.Integer? || v.Real? }

  /** NULL, then numbers by value whatever their type, then TEXT, then BLOB, both byte by byte. */
  lemma {:induction false} ValueOrder(a: Value, b: Value)
    ensures ValueLeq(a, b) <==>
            || a.Null?
            || (Numeric(a) && (b.Text? || b.Blob?))
            || (Numeric(a) && Numeric(b) &&
                  (if a.Integer? then a.i as real else RealValue(a.bits))
                  <= (if b.Integer? then b.i as real else RealValue(b.bits)))
            || (a.Text? && (b.Blob? || (b.Text? && BytesLeq(a.text, b.text))))
            || (a.Blob? && b.Blob? && BytesLeq(a.blob, b.blob))
  {
    hide RealValue;
  }

  // ----- keys

  ghost predicate BeforeAt(a: seq<Value>, b: seq<Value>, i: int) {
    && 0 <= i < |a| && i < |b| && (forall j :: 0 <= j < i ==> Tied(a[j], b[j]))
    && ValueLeq(a[i], b[i]) && !ValueLeq(b[i], a[i])
  }

  /** Keys of one width are ordered by the first component that is not tied. */
  lemma {:induction false} KeyOrderExact(a: seq<Value>, b: seq<Value>)
    requires |a| == |b|
    ensures KeyLeq(a, b) <==> (forall i :: 0 <= i < |a| ==> Tied(a[i], b[i])) || exists i :: BeforeAt(a, b, i)
  {
    hide ValueLeq;
    if a != [] {
      var s, t := a[1..], b[1..];
      KeyOrderExact(s, t);
      ValueLeqTotal(a[0], b[0]);
      assert forall i :: 0 <= i < |s| ==> s[i] == a[i + 1] && t[i] == b[i + 1];
      assert forall i :: 0 < i < |a| ==> a[i] == s[i - 1] && b[i] == t[i - 1];
      if Tied(a[0], b[0]) {
        if i :| BeforeAt(a, b, i) {
          assert BeforeAt(s, t, i - 1);
        }
        if i :| BeforeAt(s, t, i) {
          assert BeforeAt(a, b, i + 1);
        }
      } else {
        if KeyLeq(a, b) {
          assert BeforeAt(a, b, 0);
        }
      }
    }
  }
}
