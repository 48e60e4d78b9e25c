/** The repository's golden artifact: its fixture database exports, through the whole model, to exactly the
    bytes its format test pins. */
module Golden {
  import opened Bytes
  import opened Codec
  import opened Artifact

  // ----- names

  const MAIN: Name := [109, 97, 105, 110]  // "main"
  const ITEMS: Name := [105, 116, 101, 109, 115]  // "items"
  const EMPTY: Name := [101, 109, 112, 116, 121]  // "empty"
  const EMPTY_A: Name := [101, 109, 112, 116, 121, 95, 97]  // "empty_a"
  const EMPTY_B: Name := [101, 109, 112, 116, 121, 95, 98]  // "empty_b"
  const HISTORY: Name := [104, 105, 115, 116, 111, 114, 121]  // "history"
  const ID: Name := [105, 100]  // "id"
  const NAME: Name := [110, 97, 109, 101]  // "name"
  const PAYLOAD: Name := [112, 97, 121, 108, 111, 97, 100]  // "payload"
  const SCORE: Name := [115, 99, 111, 114, 101]  // "score"
  const HEIGHT: Name := [104, 101, 105, 103, 104, 116]  // "height"
  const LOCAL_FLAG: Name := [108, 111, 99, 97, 108, 95, 102, 108, 97, 103]  // "local_flag"
  const BLOCK: Name := [98, 108, 111, 99, 107]  // "block"

  // ----- the pinned bytes, piece by piece

  const PREAMBLE: seq<byte> := [0x48, 0x4F, 0x50, 0x53, 0x4E, 0x41, 0x50, 0x00] + ([1, 0, 0, 0] + [2, 0, 0, 0])

  const MAIN_HEADER: seq<byte> := [4, 0, 0, 0] + MAIN + ([1, 0, 0, 0] + [1, 0, 0, 0])

  const ITEMS_HEADER: seq<byte> :=
    [5, 0, 0, 0] + ITEMS
    + ([5, 0, 0, 0]
       + ([6, 0, 0, 0] + HEIGHT + ([2, 0, 0, 0] + ID + ([4, 0, 0, 0] + NAME
          + ([7, 0, 0, 0] + PAYLOAD + ([5, 0, 0, 0] + SCORE))))
          + [3, 0, 0, 0, 0, 0, 0, 0]))

  const ROW_1: seq<byte> :=
    [0x01] + [0x2A, 0, 0, 0, 0, 0, 0, 0]
    + ([0x01] + [0x01, 0, 0, 0, 0, 0, 0, 0]
       + ([0x03] + ([0x06, 0, 0, 0, 0, 0, 0, 0] + [0x68, 0xC3, 0xA9, 0x6C, 0x6C, 0x6F])
          + ([0x04] + ([0x03, 0, 0, 0, 0, 0, 0, 0] + [0x00, 0xFF, 0x10])
             + ([0x02] + [0, 0, 0, 0, 0, 0, 0xF8, 0x3F]))))

  const ROW_2: seq<byte> :=
    [0x01] + [0xF9, 0xFF, 0xFF, 0xFF, 0xFF, 0xFF, 0xFF, 0xFF]
    + ([0x01] + [0x02, 0, 0, 0, 0, 0, 0, 0]
       + ([0x03] + ([0, 0, 0, 0, 0, 0, 0, 0] + [])
          + ([0x00]
             + ([0x02] + [0, 0, 0, 0, 0, 0, 0, 0]))))

  const ROW_3: seq<byte> :=
    [0x01] + [0, 0, 0, 0, 0, 0, 0, 0x80]
    + ([0x01] + [0x03, 0, 0, 0, 0, 0, 0, 0]
       + ([0x00]
          + ([0x04] + ([0, 0, 0, 0, 0, 0, 0, 0] + [])
             + [0x00])))

  const EMPTY_HEADER: seq<byte> := [5, 0, 0, 0] + EMPTY + ([1, 0, 0, 0] + [2, 0, 0, 0])

  const EMPTY_A_BYTES: seq<byte> :=
    [7, 0, 0, 0] + EMPTY_A + ([1, 0, 0, 0] + ([2, 0, 0, 0] + ID + [0, 0, 0, 0, 0, 0, 0, 0]))

  const EMPTY_B_BYTES: seq<byte> :=
    [7, 0, 0, 0] + EMPTY_B + ([1, 0, 0, 0] + ([2, 0, 0, 0] + ID + [0, 0, 0, 0, 0, 0, 0, 0]))

  const GOLDEN: seq<byte> :=
    PREAMBLE
    + ((MAIN_HEADER + (ITEMS_HEADER + (ROW_1 + (ROW_2 + ROW_3))))
       + (EMPTY_HEADER + (EMPTY_A_BYTES + EMPTY_B_BYTES)))

  // ----- the tree

  const ITEMS_COLUMNS: seq<Name> := [HEIGHT, ID, NAME, PAYLOAD, SCORE]

  const CELLS_1: seq<Value> :=
    [Integer(42), Integer(1), Text([0x68, 0xC3, 0xA9, 0x6C, 0x6C, 0x6F]), Blob([0x00, 0xFF, 0x10]),
     Real(0x3FF8_0000_0000_0000)]

  const CELLS_2: seq<Value> := [Integer(-7), Integer(2), Text([]), Null, Real(0)]

  const CELLS_3: seq<Value> := [Integer(-0x8000_0000_0000_0000), Integer(3), Null, Blob([]), Null]

  const ITEMS_UNIT := TableUnit(ITEMS, ITEMS_COLUMNS, [CELLS_1, CELLS_2, CELLS_3])

  const GOLDEN_TREE: Tree :=
    [SectionUnit(MAIN, 1, [ITEMS_UNIT]),
     SectionUnit(EMPTY, 1, [TableUnit(EMPTY_A, [ID], []), TableUnit(EMPTY_B, [ID], [])])]

  // ----- integers and lists

  lemma {:induction false} Small32(b: byte)
    ensures U32Bytes(b) == [b, 0, 0, 0]
  {
    Pow256Widths();
    LEOfFromLE([b, 0, 0, 0]);
    assert FromLE([b, 0, 0, 0]) == b by {
      assert [b, 0, 0, 0][1..] == [0, 0, 0] && [0, 0, 0][1..] == [0, 0] && [0, 0][1..] == [0];
    }
  }

  lemma {:induction false} Pair(a: byte, b: byte, rest: seq<byte>)
    ensures FromLE([a, b] + rest) == a as int + 256 * (b as int) + 65536 * FromLE(rest)
  {
    assert ([a, b] + rest)[1..] == [b] + rest && ([b] + rest)[1..] == rest;
  }

  lemma {:induction false} NoBytes()
    ensures FromLE([]) == 0
  {
  }

  lemma {:induction false} Word(n: nat, b0: byte, b1: byte, b2: byte, b3: byte, b4: byte, b5: byte, b6: byte, b7: byte)
    requires n == b0 as int + 256 * (b1 as int) + 65536 * (b2 as int + 256 * (b3 as int)
                  + 65536 * (b4 as int + 256 * (b5 as int) + 65536 * (b6 as int + 256 * (b7 as int))))
    ensures U64Bytes(n) == [b0, b1, b2, b3, b4, b5, b6, b7]
  {
    hide FromLE, LE;
    var s := [b0, b1, b2, b3, b4, b5, b6, b7];
    NoBytes();
    assert FromLE(s) == n by {
      Pair(b6, b7, []);
      Pair(b4, b5, [b6, b7] + []);
      Pair(b2, b3, [b4, b5] + ([b6, b7] + []));
      Pair(b0, b1, [b2, b3] + ([b4, b5] + ([b6, b7] + [])));
      assert s == [b0, b1] + ([b2, b3] + ([b4, b5] + ([b6, b7] + [])));
    }
    Pow256Widths();
    LEOfFromLE(s);
    FromLEBound(s);
  }

  lemma {:induction false} Small64(b: byte)
    ensures U64Bytes(b) == [b, 0, 0, 0, 0, 0, 0, 0]
  {
    Word(b, b, 0, 0, 0, 0, 0, 0, 0);
  }

  lemma {:induction false} Many2<T>(enc: T -> seq<byte>, a: T, b: T)
    ensures EncodeMany(enc, [a]) == enc(a) && EncodeMany(enc, [a, b]) == enc(a) + enc(b)
  {
    assert [a][1..] == [] && [b][1..] == [] && [a, b][1..] == [b];
    assert enc(a) + [] == enc(a) && enc(b) + [] == enc(b);
  }

  lemma {:induction false} Many3<T>(enc: T -> seq<byte>, a: T, b: T, c: T)
    ensures EncodeMany(enc, [a, b, c]) == enc(a) + (enc(b) + enc(c))
  {
    assert [a, b, c][1..] == [b, c];
    Many2(enc, b, c);
  }

  lemma {:induction false} Many5<T>(enc: T -> seq<byte>, a: T, b: T, c: T, d: T, e: T)
    ensures EncodeMany(enc, [a, b, c, d, e]) == enc(a) + (enc(b) + (enc(c) + (enc(d) + enc(e))))
  {
    assert [a, b, c, d, e][1..] == [b, c, d, e] && [b, c, d, e][1..] == [c, d, e];
    Many3(enc, c, d, e);
  }

  // ----- rows

  lemma {:induction false} Row1()
    ensures EncodeRow(CELLS_1) == ROW_1
  {
    hide U64Bytes;
    Many5(EncodeValue, CELLS_1[0], CELLS_1[1], CELLS_1[2], CELLS_1[3], CELLS_1[4]);
    Small64(42);
    Small64(1);
    Small64(6);
    Small64(3);
    Word(0x3FF8_0000_0000_0000, 0, 0, 0, 0, 0, 0, 0xF8, 0x3F);
  }

  lemma {:induction false} Row2()
    ensures EncodeRow(CELLS_2) == ROW_2
  {
    hide U64Bytes;
    Many5(EncodeValue, CELLS_2[0], CELLS_2[1], CELLS_2[2], CELLS_2[3], CELLS_2[4]);
    Word(0xFFFF_FFFF_FFFF_FFF9, 0xF9, 0xFF, 0xFF, 0xFF, 0xFF, 0xFF, 0xFF, 0xFF);
    Small64(2);
    Small64(0);
  }

  lemma {:induction false} Row3()
    ensures EncodeRow(CELLS_3) == ROW_3
  {
    hide U64Bytes;
    Many5(EncodeValue, CELLS_3[0], CELLS_3[1], CELLS_3[2], CELLS_3[3], CELLS_3[4]);
    Word(0x8000_0000_0000_0000, 0, 0, 0, 0, 0, 0, 0, 0x80);
    Small64(3);
    Small64(0);
  }

  // ----- units and sections

  lemma {:induction false} ItemsHeader()
    ensures EncodeTableHeader(HeaderOf(ITEMS_UNIT)) == ITEMS_HEADER
  {
    hide U32Bytes, U64Bytes, EncodeMany;
    Many5(EncodeName, HEIGHT, ID, NAME, PAYLOAD, SCORE);
    Small32(5);
    Small32(6);
    Small32(2);
    Small32(4);
    Small32(7);
    Small64(3);
  }

  lemma {:induction false} EmptyTable(name: Name)
    requires |name| == 7
    ensures EncodeTable(TableUnit(name, [ID], []))
         == [7, 0, 0, 0] + name + ([1, 0, 0, 0] + ([2, 0, 0, 0] + ID + [0, 0, 0, 0, 0, 0, 0, 0]))
  {
    hide U32Bytes, U64Bytes;
    Many2(EncodeName, ID, ID);
    Small32(7);
    Small32(1);
    Small32(2);
    Small64(0);
  }

  lemma {:induction false} EmptyTables()
    ensures EncodeTable(TableUnit(EMPTY_A, [ID], [])) == EMPTY_A_BYTES
    ensures EncodeTable(TableUnit(EMPTY_B, [ID], [])) == EMPTY_B_BYTES
  {
    hide EncodeTable;
    EmptyTable(EMPTY_A);
    EmptyTable(EMPTY_B);
  }

  lemma {:induction false} MainSection()
    ensures EncodeSection(GOLDEN_TREE[0]) == MAIN_HEADER + (ITEMS_HEADER + (ROW_1 + (ROW_2 + ROW_3)))
  {
    hide U32Bytes, EncodeTableHeader, EncodeRow;
    Many2(EncodeTable, ITEMS_UNIT, ITEMS_UNIT);
    ItemsHeader();
    Many3(EncodeRow, CELLS_1, CELLS_2, CELLS_3);
    Row1();
    Row2();
    Row3();
    Small32(4);
    Small32(1);
    assert EncodeSectionHeader(SectionHeaderOf(GOLDEN_TREE[0])) == MAIN_HEADER;
  }

  lemma {:induction false} EmptySection()
    ensures EncodeSection(GOLDEN_TREE[1]) == EMPTY_HEADER + (EMPTY_A_BYTES + EMPTY_B_BYTES)
  {
    hide U32Bytes, EncodeTable, EncodeMany, EMPTY_A_BYTES, EMPTY_B_BYTES;
    Many2(EncodeTable, TableUnit(EMPTY_A, [ID], []), TableUnit(EMPTY_B, [ID], []));
    EmptyTables();
    Small32(5);
    Small32(1);
    Small32(2);
    assert EncodeSectionHeader(SectionHeaderOf(GOLDEN_TREE[1])) == EMPTY_HEADER;
  }

  lemma {:induction false} GoldenBytes()
    ensures EncodeArtifact(GOLDEN_TREE) == GOLDEN
  {
    hide U32Bytes, EncodeSection;
    Many2(EncodeSection, GOLDEN_TREE[0], GOLDEN_TREE[1]);
    MainSection();
    EmptySection();
    Small32(1);
    Small32(2);
    assert EncodePreamble(2) == PREAMBLE;
  }
}
