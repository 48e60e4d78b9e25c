/** The names an artifact may carry: well-formed UTF-8 is exactly what encoding a text of Unicode scalar
    values gives (sections 3 and 4 of RFC 3629). */
module Utf8 {
  import opened Bytes
  import opened Division

  type scalar = c: int | 0 <= c < 0xD800 || 0xE000 <= c <= 0x10FFFF

  function EncodeScalar(c: scalar): (s: seq<byte>)
    ensures 1 <= |s| <= 4
  {
    var high, higher := c / 64, c / 64 / 64;
    if c < 0x80 then [c]
    else if c < 0x800 then [0xC0 + high, 0x80 + c % 64]
    else if c < 0x1_0000 then [0xE0 + higher, 0x80 + high % 64, 0x80 + c % 64]
    else [0xF0 + higher / 64, 0x80 + higher % 64, 0x80 + high % 64, 0x80 + c % 64]
  }

  function EncodeText(text: seq<scalar>): seq<byte> {
    if text == [] then [] else EncodeScalar(text[0]) + EncodeText(text[1..])
  }

  lemma {:induction false} ScalarValid(c: scalar, rest: seq<byte>)
    ensures ValidUtf8(EncodeScalar(c) + rest) <==> ValidUtf8(rest)
  {
    var s := EncodeScalar(c) + rest;
    assert s[|EncodeScalar(c)|..] == rest;
  }

  lemma {:induction false} TextValid(text: seq<scalar>)
    ensures ValidUtf8(EncodeText(text))
  {
    hide EncodeScalar;
    if text != [] {
      TextValid(text[1..]);
      ScalarValid(text[0], EncodeText(text[1..]));
    }
  }

  lemma {:induction false} OneByte(c: nat)
    requires c < 0x80
    ensures EncodeScalar(c) == [c]
  {
  }

  lemma {:induction false} TwoBytes(h: nat, l: nat)
    requires 2 <= h < 32 && l < 64
    ensures EncodeScalar(h * 64 + l) == [0xC0 + h, 0x80 + l]
  {
  }

  lemma {:induction false} ThreeBytes(h: nat, m: nat, l: nat)
    requires h < 16 && m < 64 && l < 64 && (h == 0 ==> m >= 32) && (h == 13 ==> m < 32)
    ensures EncodeScalar(h * 4096 + m * 64 + l) == [0xE0 + h, 0x80 + m, 0x80 + l]
  {
    var high := h * 64 + m;
    DivModUnique(high * 64 + l, high, l, 64);
    DivModUnique(high, h, m, 64);
  }

  lemma {:induction false} FourBytes(h: nat, m: nat, n: nat, l: nat)
    requires h < 5 && m < 64 && n < 64 && l < 64 && (h == 0 ==> m >= 16) && (h == 4 ==> m < 16)
    ensures EncodeScalar(h * 262144 + m * 4096 + n * 64 + l) == [0xF0 + h, 0x80 + m, 0x80 + n, 0x80 + l]
  {
    var higher := h * 64 + m;
    var high := higher * 64 + n;
    DivModUnique(high * 64 + l, high, l, 64);
    DivModUnique(high, higher, n, 64);
    DivModUnique(higher, h, m, 64);
  }

  /** The scalar a well-formed string starts with. */
  lemma {:induction false} FirstScalar(s: seq<byte>) returns (c: scalar)
    requires s != [] && ValidUtf8(s)
    ensures |EncodeScalar(c)| <= |s| && s[..|EncodeScalar(c)|] == EncodeScalar(c)
    ensures ValidUtf8(s[|EncodeScalar(c)|..])
  {
    hide EncodeScalar;
    var lead: int := s[0];
    if lead <= 0x7F {
      OneByte(lead);
      c := lead;
      return;
    }
    var t1: nat := s[1] - 0x80;
    if lead <= 0xDF {
      TwoBytes(lead - 0xC0, t1);
      c := (lead - 0xC0) * 64 + t1;
      return;
    }
    var t2: nat := s[2] - 0x80;
    if lead <= 0xEF {
      ThreeBytes(lead - 0xE0, t1, t2);
      c := (lead - 0xE0) * 4096 + t1 * 64 + t2;
      return;
    }
    var t3: nat := s[3] - 0x80;
    FourBytes(lead - 0xF0, t1, t2, t3);
    c := (lead - 0xF0) * 262144 + t1 * 4096 + t2 * 64 + t3;
  }

  lemma {:induction false} DecodeText(s: seq<byte>) returns (text: seq<scalar>)
    requires ValidUtf8(s)
    ensures EncodeText(text) == s
    decreases |s|
  {
    hide EncodeScalar, ValidUtf8;
    if s == [] {
      text := [];
    } else {
      var c := FirstScalar(s);
      var n := |EncodeScalar(c)|;
      var rest := DecodeText(s[n..]);
      text := [c] + rest;
      assert s == s[..n] + s[n..];
    }
  }

  lemma {:induction false} Utf8Exact(s: seq<byte>)
    ensures ValidUtf8(s) <==> exists text :: EncodeText(text) == s
  {
    if ValidUtf8(s) {
      var text := DecodeText(s);
    }
    if text :| EncodeText(text) == s {
      TextValid(text);
    }
  }
}
