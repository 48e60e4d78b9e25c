/** The ALPN vocabulary of a mesh: locked and compat protocol names, the tiers an accepting node
    sorts them into, and which name a dial ends up with. */
module Alpn {
  import opened Bytes
  import opened Codec
  import opened Decimals
  import opened Hexadecimal
  import opened Sorting

  /** The four bytes that name a mesh. */
  type Magic = m: seq<byte> | |m| == 4 witness [0, 0, 0, 0]

  const PREFIX := Ascii("hopnet/")
  const LOCKED := Ascii("/v/")
  const COMPAT := Ascii("/compat/")

  /** Generation 0 is the protocol name from before meshes had a magic. */
  const LEGACY := Ascii("hopnet/1.0")

  // ----- names

  function LockedAlpn(magic: Magic, code: nat): seq<byte> { PREFIX + (Hex(magic) + (LOCKED + Decimal(code))) }

  function CompatAlpn(magic: Magic, generation: nat): seq<byte> {
    if generation == 0 then LEGACY else PREFIX + (Hex(magic) + (COMPAT + Decimal(generation)))
  }

  method WriteAlpn(magic: Magic, family: seq<byte>, number: u32) returns (alpn: seq<byte>)
    ensures alpn == PREFIX + (Hex(magic) + (family + Decimal(number)))
  {
    var out := new Buffer();
    out.Extend(PREFIX);
    PushHex(out, magic);
    out.Extend(family);
    PushDecimal(out, number);
    alpn := out.bytes;
    assert [] + PREFIX + Hex(magic) + family + Decimal(number) == PREFIX + (Hex(magic) + (family + Decimal(number)));
  }

  method WriteLocked(magic: Magic, code: u32) returns (alpn: seq<byte>)
    ensures alpn == LockedAlpn(magic, code)
  {
    alpn := WriteAlpn(magic, LOCKED, code);
  }

  method WriteCompat(magic: Magic, generation: u32) returns (alpn: seq<byte>)
    ensures alpn == CompatAlpn(magic, generation)
  {
    if generation == 0 {
      return LEGACY;
    }
    alpn := WriteAlpn(magic, COMPAT, generation);
  }

  lemma {:induction false} AsciiAppend(a: string, b: string)
    ensures Ascii(a + b) == Ascii(a) + Ascii(b)
  {
  }

  lemma {:induction false} MagicText(m: Magic)
    requires m == [0x9F, 0x3A, 0x01, 0xCC]
    ensures Hex(m) == Ascii("9f3a01cc")
  {
    var s := Hex(m);
    assert s[0] == 57 && s[1] == 102 && s[2] == 51 && s[3] == 97 by {
      assert s[2 * 0] == HexDigit(m[0] / 16) && s[2 * 0 + 1] == HexDigit(m[0] % 16);
      assert s[2 * 1] == HexDigit(m[1] / 16) && s[2 * 1 + 1] == HexDigit(m[1] % 16);
    }
    assert s[4] == 48 && s[5] == 49 && s[6] == 99 && s[7] == 99 by {
      assert s[2 * 2] == HexDigit(m[2] / 16) && s[2 * 2 + 1] == HexDigit(m[2] % 16);
      assert s[2 * 3] == HexDigit(m[3] / 16) && s[2 * 3 + 1] == HexDigit(m[3] % 16);
    }
    assert s == [57, 102, 51, 97, 48, 49, 99, 99];
    assert Ascii("9f3a01cc") == [57, 102, 51, 97, 48, 49, 99, 99];
  }

  lemma {:induction false} Spelled(m: Magic, family: string)
    requires m == [0x9F, 0x3A, 0x01, 0xCC]
    ensures PREFIX + (Hex(m) + (Ascii(family) + Decimal(1))) == Ascii("hopnet/" + ("9f3a01cc" + (family + "1")))
  {
    assert Decimal(1) == [49] && Ascii("1") == [49];
    hide Hex, Decimal, Ascii;
    MagicText(m);
    AsciiAppend(family, "1");
    AsciiAppend("9f3a01cc", family + "1");
    AsciiAppend("hopnet/", "9f3a01cc" + (family + "1"));
  }

  /** Names letter by letter. */
  lemma {:induction false} PinnedNames(m: Magic, other: Magic)
    requires m == [0x9F, 0x3A, 0x01, 0xCC]
    ensures LockedAlpn(m, 1) == Ascii("hopnet/9f3a01cc/v/1")
    ensures CompatAlpn(m, 1) == Ascii("hopnet/9f3a01cc/compat/1")
    ensures CompatAlpn(other, 0) == Ascii("hopnet/1.0")
  {
    hide Hex, Decimal, Ascii;
    Spelled(m, "/v/");
    Spelled(m, "/compat/");
    assert "hopnet/" + ("9f3a01cc" + ("/v/" + "1")) == "hopnet/9f3a01cc/v/1";
    assert "hopnet/" + ("9f3a01cc" + ("/compat/" + "1")) == "hopnet/9f3a01cc/compat/1";
  }

  // ----- reading a name against our own magic

  datatype ParsedAlpn = Locked(code: u32) | Compat(generation: u32) | Foreign

  function StripPrefix(s: seq<byte>, prefix: seq<byte>): Option<seq<byte>> {
    if prefix <= s then Some(s[|prefix|..]) else None
  }

  function ParseTail(rest: seq<byte>): ParsedAlpn {
    match StripPrefix(rest, LOCKED)
    case Some(code) => (match Numeral(code) case Some(c) => Locked(c) case None => Foreign)
    case None =>
      match StripPrefix(rest, COMPAT)
      case Some(generation) =>
        (match Numeral(generation)
         case Some(g) => if g >= 1 then Compat(g) else Foreign
         case None => Foreign)
      case None => Foreign
  }

  function ParseAlpn(magic: Magic, alpn: seq<byte>): ParsedAlpn {
    if alpn == LEGACY then Compat(0) else
    match StripPrefix(alpn, PREFIX)
    case None => Foreign
    case Some(rest) =>
      match StripPrefix(rest, Hex(magic))
      case None => Foreign
      case Some(tail) => ParseTail(tail)
  }

  lemma {:induction false} StripExact(s: seq<byte>, prefix: seq<byte>, rest: seq<byte>)
    ensures StripPrefix(s, prefix) == Some(rest) <==> s == prefix + rest
  {
    if s == prefix + rest {
      assert s[|prefix|..] == rest;
    }
    if prefix <= s {
      assert s == prefix + s[|prefix|..];
    }
  }

  lemma {:induction false} ParseTailExact(rest: seq<byte>, n: u32)
    ensures ParseTail(rest) == Locked(n) <==> rest == LOCKED + Decimal(n)
    ensures ParseTail(rest) == Compat(n) <==> n >= 1 && rest == COMPAT + Decimal(n)
  {
    hide Decimal, Numeral, StripPrefix;
    forall tail: seq<byte> ensures StripPrefix(rest, LOCKED) == Some(tail) <==> rest == LOCKED + tail {
      StripExact(rest, LOCKED, tail);
    }
    forall tail: seq<byte> ensures StripPrefix(rest, COMPAT) == Some(tail) <==> rest == COMPAT + tail {
      StripExact(rest, COMPAT, tail);
    }
    forall tail: seq<byte> ensures Numeral(tail) == Some(n) <==> tail == Decimal(n) {
      NumeralExact(tail, n);
    }
    TailFamilies(rest, Decimal(n));
  }

  lemma {:induction false} TailFamilies(rest: seq<byte>, d: seq<byte>)
    ensures StripPrefix(rest, LOCKED).None? || StripPrefix(rest, COMPAT).None?
    ensures StripPrefix(LOCKED + d, LOCKED) == Some(d)
    ensures StripPrefix(COMPAT + d, COMPAT) == Some(d) && StripPrefix(COMPAT + d, LOCKED).None?
  {
    StripExact(LOCKED + d, LOCKED, d);
    StripExact(COMPAT + d, COMPAT, d);
    assert LOCKED[1] != COMPAT[1];
    assert (COMPAT + d)[1] != LOCKED[1];
  }

  lemma {:induction false} LegacyIsShort(magic: Magic, tail: seq<byte>)
    ensures PREFIX + (Hex(magic) + tail) != LEGACY
  {
    assert |PREFIX + (Hex(magic) + tail)| >= 15 && |LEGACY| == 10;
  }

  /** The reader recognizes exactly what the writers write, for every magic and every number. */
  lemma {:induction false} ParseAlpnExact(magic: Magic, alpn: seq<byte>, n: u32)
    ensures ParseAlpn(magic, alpn) == Locked(n) <==> alpn == LockedAlpn(magic, n)
    ensures ParseAlpn(magic, alpn) == Compat(n) <==> alpn == CompatAlpn(magic, n)
  {
    hide Decimal, Hex, ParseTail, StripPrefix, LEGACY;
    LegacyIsShort(magic, LOCKED + Decimal(n));
    LegacyIsShort(magic, COMPAT + Decimal(n));
    var hex := Hex(magic);
    if alpn != LEGACY {
      match StripPrefix(alpn, PREFIX) {
        case None =>
          StripExact(alpn, PREFIX, hex + (LOCKED + Decimal(n)));
          StripExact(alpn, PREFIX, hex + (COMPAT + Decimal(n)));
        case Some(rest) =>
          StripExact(alpn, PREFIX, rest);
          StripExact(alpn, PREFIX, hex + (LOCKED + Decimal(n)));
          StripExact(alpn, PREFIX, hex + (COMPAT + Decimal(n)));
          StripExact(rest, hex, LOCKED + Decimal(n));
          StripExact(rest, hex, COMPAT + Decimal(n));
          if StripPrefix(rest, hex).Some? {
            ParseTailExact(StripPrefix(rest, hex).value, n);
          }
      }
    }
  }

  /** A name that carries another mesh's magic is foreign. */
  lemma {:induction false} OtherMagicForeign(magic: Magic, other: Magic, tail: seq<byte>)
    requires magic != other
    ensures ParseAlpn(magic, PREFIX + (Hex(other) + tail)) == Foreign
  {
    hide Hex, ParseTail;
    var alpn := PREFIX + (Hex(other) + tail);
    LegacyIsShort(other, tail);
    assert alpn[|PREFIX|..] == Hex(other) + tail;
    if Hex(magic) <= Hex(other) + tail {
      assert (Hex(other) + tail)[..8] == Hex(other) && (Hex(other) + tail)[..8] == Hex(magic);
      HexInjective(magic, other);
      assert false;
    }
  }

  // ----- accept tiers

  function CompatFloor(head: nat): nat { if head == 0 then 0 else head - 1 }

  predicate Served(head: nat, g: nat) { CompatFloor(head) <= g <= head }

  predicate IsRetired(head: nat, g: nat) { g < CompatFloor(head) }

  datatype AcceptTier = ServedLocked | ServedCompat(generation: u32) | Retired(floor: nat) | Unknown

  function ClassifyAccept(magic: Magic, code: u32, head: u32, alpn: seq<byte>): AcceptTier {
    match ParseAlpn(magic, alpn)
    case Locked(c) => if c == code then ServedLocked else Unknown
    case Compat(g) =>
      if Served(head, g) then ServedCompat(g)
      else if IsRetired(head, g) then Retired(CompatFloor(head))
      else Unknown
    case Foreign => Unknown
  }

  function CompatNames(magic: Magic, head: u32): (list: seq<seq<byte>>)
    ensures |list| == head + 1 && forall g :: 0 <= g <= head ==> list[head - g] == CompatAlpn(magic, g)
  {
    if head == 0 then [CompatAlpn(magic, 0)] else
    var rest := CompatNames(magic, head - 1);
    assert forall g :: 0 <= g < head ==> rest[head - 1 - g] == CompatAlpn(magic, g);
    [CompatAlpn(magic, head)] + rest
  }

  /** The names a node accepts, in order of preference: its own code, then generations downwards. */
  function ServeNames(magic: Magic, code: u32, head: u32): (list: seq<seq<byte>>)
    ensures |list| == head + 2 && list[0] == LockedAlpn(magic, code)
    ensures forall g :: 0 <= g <= head ==> list[1 + head - g] == CompatAlpn(magic, g)
  {
    var compat := CompatNames(magic, head);
    assert forall g :: 0 <= g <= head ==> compat[head - g] == CompatAlpn(magic, g);
    [LockedAlpn(magic, code)] + compat
  }

  method ServeList(magic: Magic, code: u32, head: u32) returns (list: seq<seq<byte>>)
    ensures list == ServeNames(magic, code, head)
  {
    hide LockedAlpn, CompatAlpn;
    var locked := WriteLocked(magic, code);
    list := [locked];
    var floor: nat := CompatFloor(head);
    var g: int := head;
    while g >= floor
      invariant floor - 1 <= g <= head && |list| == 1 + head - g
      invariant list[0] == LockedAlpn(magic, code)
      invariant forall k :: g < k <= head ==> list[1 + head - k] == CompatAlpn(magic, k)
    {
      var name := WriteCompat(magic, g);
      list := list + [name];
      g := g - 1;
    }
    while g >= 0
      invariant -1 <= g < floor && |list| == 1 + head - g
      invariant list[0] == LockedAlpn(magic, code)
      invariant forall k :: g < k <= head ==> list[1 + head - k] == CompatAlpn(magic, k)
    {
      var name := WriteCompat(magic, g);
      list := list + [name];
      g := g - 1;
    }
    SameNames(magic, code, head, list);
  }

  lemma {:induction false} SameNames(magic: Magic, code: u32, head: u32, list: seq<seq<byte>>)
    requires |list| == head + 2 && list[0] == LockedAlpn(magic, code)
    requires forall k :: 0 <= k <= head ==> list[1 + head - k] == CompatAlpn(magic, k)
    ensures list == ServeNames(magic, code, head)
  {
    hide LockedAlpn, CompatAlpn, ServeNames;
    forall i | 0 <= i < |list| ensures list[i] == ServeNames(magic, code, head)[i] {
      if i > 0 {
        var k := 1 + head - i;
        assert list[1 + head - k] == CompatAlpn(magic, k);
        assert ServeNames(magic, code, head)[1 + head - k] == CompatAlpn(magic, k);
      }
    }
  }

  lemma {:induction false} InServeNames(magic: Magic, code: u32, head: u32, alpn: seq<byte>)
    ensures alpn in ServeNames(magic, code, head)
       <==> alpn == LockedAlpn(magic, code) || exists g: u32 :: g <= head && alpn == CompatAlpn(magic, g)
  {
    hide LockedAlpn, CompatAlpn, ServeNames;
    var list := ServeNames(magic, code, head);
    if alpn in list {
      var i :| 0 <= i < |list| && list[i] == alpn;
      if i > 0 {
        var g: u32 := 1 + head - i;
        assert list[1 + head - g] == CompatAlpn(magic, g);
      }
    }
    if exists g: u32 :: g <= head && alpn == CompatAlpn(magic, g) {
      var g: u32 :| g <= head && alpn == CompatAlpn(magic, g);
      assert list[1 + head - g] == alpn;
    }
  }

  /** The list holds exactly the names that some tier accepts. */
  lemma {:induction false} ServesExactlyKnown(magic: Magic, code: u32, head: u32, alpn: seq<byte>)
    ensures alpn in ServeNames(magic, code, head) <==> ClassifyAccept(magic, code, head, alpn) != Unknown
  {
    hide LockedAlpn, CompatAlpn, ServeNames, ParseAlpn;
    InServeNames(magic, code, head, alpn);
    forall n: u32
      ensures ParseAlpn(magic, alpn) == Locked(n) <==> alpn == LockedAlpn(magic, n)
      ensures ParseAlpn(magic, alpn) == Compat(n) <==> alpn == CompatAlpn(magic, n)
    {
      ParseAlpnExact(magic, alpn, n);
    }
  }

  lemma {:induction false} LockedIsNotCompat(magic: Magic, m: u32, n: u32)
    ensures LockedAlpn(magic, m) != CompatAlpn(magic, n)
  {
    hide LockedAlpn, CompatAlpn, ParseAlpn;
    ParseAlpnExact(magic, LockedAlpn(magic, m), m);
    ParseAlpnExact(magic, LockedAlpn(magic, m), n);
  }

  lemma {:induction false} CompatInjective(magic: Magic, m: u32, n: u32)
    requires CompatAlpn(magic, m) == CompatAlpn(magic, n)
    ensures m == n
  {
    hide CompatAlpn, ParseAlpn;
    ParseAlpnExact(magic, CompatAlpn(magic, m), m);
    ParseAlpnExact(magic, CompatAlpn(magic, m), n);
  }

  lemma {:induction false} ServesOnce(magic: Magic, code: u32, head: u32)
    ensures Distinct(ServeNames(magic, code, head))
  {
    hide LockedAlpn, CompatAlpn, ServeNames;
    var list := ServeNames(magic, code, head);
    forall i, j | 0 <= i < j < |list| ensures list[i] != list[j] {
      var h: u32 := 1 + head - j;
      assert list[1 + head - h] == CompatAlpn(magic, h);
      if i == 0 {
        LockedIsNotCompat(magic, code, h);
      } else {
        var g: u32 := 1 + head - i;
        assert list[1 + head - g] == CompatAlpn(magic, g);
        if list[i] == list[j] {
          CompatInjective(magic, g, h);
        }
      }
    }
  }

  // ----- negotiation

  function CompatOffer(magic: Magic, head: u32): seq<seq<byte>> {
    [CompatAlpn(magic, head), CompatAlpn(magic, CompatFloor(head))]
  }

  /** The server picks its first name that the client offered (section 3.2 of RFC 7301). */
  function Negotiate(server: seq<seq<byte>>, offer: seq<seq<byte>>): Option<seq<byte>> {
    if server == [] then None
    else if server[0] in offer then Some(server[0])
    else Negotiate(server[1..], offer)
  }

  lemma {:induction false} NegotiatedFirst(server: seq<seq<byte>>, offer: seq<seq<byte>>, i: nat)
    requires i < |server| && server[i] in offer && forall j :: 0 <= j < i ==> server[j] !in offer
    ensures Negotiate(server, offer) == Some(server[i])
  {
    if i > 0 {
      assert server[0] !in offer;
      NegotiatedFirst(server[1..], offer, i - 1);
    }
  }

  lemma {:induction false} NothingOffered(server: seq<seq<byte>>, offer: seq<seq<byte>>)
    requires forall j :: 0 <= j < |server| ==> server[j] !in offer
    ensures Negotiate(server, offer) == None
  {
    if server != [] {
      assert server[0] !in offer;
      NothingOffered(server[1..], offer);
    }
  }

  lemma {:induction false} OfferedPosition(magic: Magic, code: u32, s: u32, c: u32, i: nat)
    requires i < s + 2
    ensures ServeNames(magic, code, s)[i] in CompatOffer(magic, c) <==>
            i >= 1 && (1 + s - i == c || 1 + s - i == CompatFloor(c))
  {
    hide LockedAlpn, CompatAlpn, ServeNames;
    var floor: u32 := CompatFloor(c);
    if i == 0 {
      LockedIsNotCompat(magic, code, c);
      LockedIsNotCompat(magic, code, floor);
    } else {
      var g: u32 := 1 + s - i;
      assert ServeNames(magic, code, s)[1 + s - g] == CompatAlpn(magic, g);
      if CompatAlpn(magic, g) == CompatAlpn(magic, c) { CompatInjective(magic, g, c); }
      if CompatAlpn(magic, g) == CompatAlpn(magic, floor) { CompatInjective(magic, g, floor); }
    }
  }

  /** Heads at most one apart meet on the lower one, inside both windows; an older dialer is told the
      floor; a newer one gets no protocol. */
  lemma {:induction false} NegotiationWindow(magic: Magic, code: u32, s: u32, c: u32)
    ensures var r := Negotiate(ServeNames(magic, code, s), CompatOffer(magic, c));
            && (s <= c + 1 && c <= s + 1 ==>
                  var g: u32 := if c <= s then c else s;
                  && r == Some(CompatAlpn(magic, g)) && Served(c, g)
                  && ClassifyAccept(magic, code, s, r.value) == ServedCompat(g))
            && (c + 1 < s ==>
                  r == Some(CompatAlpn(magic, c)) && ClassifyAccept(magic, code, s, r.value) == Retired(s - 1))
            && (c > s + 1 ==> r == None)
  {
    hide LockedAlpn, CompatAlpn, ServeNames, ParseAlpn, Negotiate, CompatOffer;
    var server, offer := ServeNames(magic, code, s), CompatOffer(magic, c);
    forall i: nat | i < s + 2
      ensures server[i] in offer <==> i >= 1 && (1 + s - i == c || 1 + s - i == CompatFloor(c))
    {
      OfferedPosition(magic, code, s, c, i);
    }
    if c > s + 1 {
      NothingOffered(server, offer);
    } else {
      var g: u32 := if c <= s then c else s;
      NegotiatedFirst(server, offer, 1 + s - g);
      ParseAlpnExact(magic, CompatAlpn(magic, g), g);
    }
  }

  /** Between different meshes only the legacy name can match, and only for dialers old enough to
      offer it. */
  lemma {:induction false} CrossMesh(magic: Magic, other: Magic, code: u32, s: u32, c: u32)
    requires magic != other
    ensures Negotiate(ServeNames(magic, code, s), CompatOffer(other, c)) == if c <= 1 then Some(LEGACY) else None
  {
    hide LockedAlpn, ServeNames, Negotiate, LEGACY, Decimal;
    var server, offer := ServeNames(magic, code, s), CompatOffer(other, c);
    forall i: nat | i < s + 2 ensures server[i] in offer <==> i == s + 1 && c <= 1 {
      OtherMeshPosition(magic, other, code, s, c, i);
    }
    if c <= 1 {
      NegotiatedFirst(server, offer, s + 1);
      assert server[1 + s - 0] == CompatAlpn(magic, 0);
    } else {
      NothingOffered(server, offer);
    }
  }

  lemma {:induction false} OtherMeshPosition(magic: Magic, other: Magic, code: u32, s: u32, c: u32, i: nat)
    requires magic != other && i < s + 2
    ensures ServeNames(magic, code, s)[i] in CompatOffer(other, c) <==> i == s + 1 && c <= 1
  {
    hide LockedAlpn, CompatAlpn, ServeNames, ParseAlpn;
    var name, floor: u32 := ServeNames(magic, code, s)[i], CompatFloor(c);
    OtherMeshName(magic, other, c);
    OtherMeshName(magic, other, floor);
    if i == 0 {
      ParseAlpnExact(magic, name, code);
    } else {
      var g: u32 := 1 + s - i;
      assert ServeNames(magic, code, s)[1 + s - g] == CompatAlpn(magic, g);
      ParseAlpnExact(magic, name, g);
      ParseAlpnExact(magic, name, 0);
    }
  }

  lemma {:induction false} OtherMeshName(magic: Magic, other: Magic, g: u32)
    requires magic != other
    ensures ParseAlpn(magic, CompatAlpn(other, g)) == if g == 0 then Compat(0) else Foreign
    ensures g == 0 ==> CompatAlpn(other, g) == CompatAlpn(magic, 0)
  {
    hide ParseAlpn, Hex;
    if g == 0 {
      ParseAlpnExact(magic, LEGACY, 0);
    } else {
      OtherMagicForeign(magic, other, COMPAT + Decimal(g));
    }
  }

  /** A locked dial succeeds exactly between nodes of one mesh and one version. */
  lemma {:induction false} LockedDial(magic: Magic, code: u32, s: u32, other: Magic, dialed: u32)
    ensures Negotiate(ServeNames(magic, code, s), [LockedAlpn(other, dialed)])
         == if other == magic && dialed == code then Some(LockedAlpn(magic, code)) else None
  {
    hide LockedAlpn, ServeNames, Negotiate, ParseAlpn, CompatAlpn;
    var server, name := ServeNames(magic, code, s), LockedAlpn(other, dialed);
    LockedTier(magic, code, s, other, dialed);
    ServesExactlyKnown(magic, code, s, name);
    if other == magic && dialed == code {
      NegotiatedFirst(server, [name], 0);
    } else {
      forall j | 0 <= j < |server| ensures server[j] !in [name] {
        assert server[j] in server;
      }
      NothingOffered(server, [name]);
    }
  }

  lemma {:induction false} LockedTier(magic: Magic, code: u32, s: u32, other: Magic, dialed: u32)
    ensures ClassifyAccept(magic, code, s, LockedAlpn(other, dialed))
         == if other == magic && dialed == code then ServedLocked else Unknown
  {
    hide ParseAlpn, Hex, Decimal;
    if other == magic {
      ParseAlpnExact(magic, LockedAlpn(other, dialed), dialed);
    } else {
      OtherMagicForeign(magic, other, LOCKED + Decimal(dialed));
    }
  }
}
