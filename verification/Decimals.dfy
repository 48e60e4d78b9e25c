/** Canonical decimal numerals of 32-bit numbers. */
module Decimals {
  import opened Bytes
  import opened Codec

  const ZERO: byte := 48

  /** The numeral of `n`: no leading zero, except for zero itself. */
  function Decimal(n: nat): (s: seq<byte>)
    ensures s != []
  {
    (if n < 10 then [] else Decimal(n / 10)) + [ZERO + n % 10]
  }

  predicate IsDigit(b: byte) { ZERO <= b <= ZERO + 9 }

  predicate AllDigits(s: seq<byte>) { forall i :: 0 <= i < |s| ==> IsDigit(s[i]) }

  /** The number a string of digits stands for. */
  function Value(s: seq<byte>): (v: int) {
    if s == [] then 0 else 10 * Value(s[..|s| - 1]) + (s[|s| - 1] - ZERO)
  }

  /** What the strict reader accepts: 1 to 10 digits, no leading zero, a 32-bit value. */
  function Numeral(s: seq<byte>): Option<u32> {
    if s == [] || |s| > 10 || (s[0] == ZERO && |s| > 1) || !AllDigits(s) then None
    else if 0 <= Value(s) < TWO_32 then Some(Value(s))
    else None
  }

  // ----- reading is the inverse of writing

  function Pow10(k: nat): (p: nat)
    ensures p >= 1
  {
    if k == 0 then 1 else 10 * Pow10(k - 1)
  }

  lemma {:induction false} Pow10Of10()
    ensures Pow10(10) == 10_000_000_000
  {
    assert Pow10(5) == 100_000;
    assert Pow10(10) == 100_000 * Pow10(5);
  }

  lemma {:induction false} ValueBound(s: seq<byte>)
    requires AllDigits(s)
    ensures 0 <= Value(s) < Pow10(|s|)
  {
    if s != [] {
      ValueBound(s[..|s| - 1]);
      assert IsDigit(s[|s| - 1]);
    }
  }

  lemma {:induction false} DecimalDigits(n: nat)
    ensures AllDigits(Decimal(n)) && Value(Decimal(n)) == n
    ensures Decimal(n)[0] == ZERO ==> n == 0
  {
    if n >= 10 {
      DecimalDigits(n / 10);
      var init := Decimal(n / 10);
      assert Decimal(n)[..|init|] == init;
    } else {
      assert Decimal(n)[..0] == [];
    }
  }

  lemma {:induction false} DecimalLength(n: nat, k: nat)
    requires k >= 1 && n < Pow10(k)
    ensures |Decimal(n)| <= k
    decreases k
  {
    if n >= 10 {
      DecimalLength(n / 10, k - 1);
    }
  }

  lemma {:induction false} DecimalSnoc(v: nat, d: byte)
    requires v >= 1 && IsDigit(d)
    ensures Decimal(10 * v + (d - ZERO)) == Decimal(v) + [d]
  {
    assert (10 * v + (d - ZERO)) / 10 == v && (10 * v + (d - ZERO)) % 10 == d - ZERO;
  }

  lemma {:induction false} DecimalOne(d: byte)
    requires IsDigit(d)
    ensures Decimal(d - ZERO) == [d] && Value([d]) == d - ZERO
  {
    assert [d][..0] == [];
  }

  /** A canonical string of digits is the numeral of its value. */
  lemma {:induction false} DecimalOfValue(s: seq<byte>)
    requires s != [] && AllDigits(s) && (s[0] == ZERO ==> |s| == 1)
    ensures Value(s) >= 0 && Decimal(Value(s)) == s && (s[0] != ZERO ==> Value(s) >= 1)
  {
    hide Decimal;
    var init, d := s[..|s| - 1], s[|s| - 1];
    assert IsDigit(d);
    assert s == init + [d];
    if |s| == 1 {
      DecimalOne(d);
    } else {
      DecimalOfValue(init);
      DecimalSnoc(Value(init), d);
    }
  }

  /** The reader accepts exactly the numerals of 32-bit numbers. */
  lemma {:induction false} NumeralExact(s: seq<byte>, n: u32)
    ensures Numeral(s) == Some(n) <==> s == Decimal(n)
  {
    hide Decimal, Value;
    if Numeral(s) == Some(n) {
      DecimalOfValue(s);
    }
    DecimalDigits(n);
    Pow10Of10();
    DecimalLength(n, 10);
    if s == Decimal(n) {
      if s[0] == ZERO {
        DecimalLength(n, 1);
      }
    }
  }

  // ----- as they run

  /** Digits go into a ten-byte array from the back; it never overflows. */
  method PushDecimal(out: Buffer, value: u32)
    modifies out
    ensures out.bytes == old(out.bytes) + Decimal(value)
  {
    var buf := new byte[10];
    var i, v := 10, value;
    Pow10Of10();
    DecimalLength(value, 10);
    while true
      invariant out.bytes == old(out.bytes) && |Decimal(v)| <= i <= 10
      invariant Decimal(v) + buf[i..] == Decimal(value)
      decreases v
    {
      ghost var done := buf[i..];
      i := i - 1;
      buf[i] := ZERO + v % 10;
      assert buf[i..] == [ZERO + v % 10] + done;
      v := v / 10;
      if v == 0 {
        break;
      }
    }
    assert buf[i..] == Decimal(value);
    out.Extend(buf[i..]);
  }

  /** The running value stays inside 64 bits. */
  method ParseDecimal(s: seq<byte>) returns (r: Option<u32>)
    ensures r == Numeral(s)
  {
    if s == [] || |s| > 10 {
      return None;
    }
    if s[0] == ZERO && |s| > 1 {
      return None;
    }
    var value: u64, i := 0, 0;
    Pow10Of10();
    while i < |s|
      invariant 0 <= i <= |s|
      invariant AllDigits(s[..i]) && value == Value(s[..i])
    {
      if !(ZERO <= s[i] <= ZERO + 9) {
        assert !IsDigit(s[i]);
        return None;
      }
      assert s[..i + 1][..i] == s[..i];
      assert AllDigits(s[..i + 1]);
      ValueBound(s[..i + 1]);
      Pow10Monotone(i + 1, 10);
      value := value * 10 + (s[i] - ZERO);
      i := i + 1;
    }
    assert s[..i] == s;
    r := if value < TWO_32 then Some(value) else None;
  }

  lemma {:induction false} Pow10Monotone(j: nat, k: nat)
    requires j <= k
    ensures Pow10(j) <= Pow10(k)
  {
    if j < k {
      Pow10Monotone(j, k - 1);
    }
  }
}
