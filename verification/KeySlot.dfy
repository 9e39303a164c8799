// Hash slots: table-driven CRC16 (XMODEM) and the hash tag rule.

module KeySlot {
  import opened Bytes

  const SLOTS := 16384

  type SlotNo = s: nat | s < SLOTS

  // The lookup table, eight entries to a row.
  const CRC_ROWS: seq<seq<bv16>> := [
    [0x0000, 0x1021, 0x2042, 0x3063, 0x4084, 0x50a5, 0x60c6, 0x70e7],
    [0x8108, 0x9129, 0xa14a, 0xb16b, 0xc18c, 0xd1ad, 0xe1ce, 0xf1ef],
    [0x1231, 0x0210, 0x3273, 0x2252, 0x52b5, 0x4294, 0x72f7, 0x62d6],
    [0x9339, 0x8318, 0xb37b, 0xa35a, 0xd3bd, 0xc39c, 0xf3ff, 0xe3de],
    [0x2462, 0x3443, 0x0420, 0x1401, 0x64e6, 0x74c7, 0x44a4, 0x5485],
    [0xa56a, 0xb54b, 0x8528, 0x9509, 0xe5ee, 0xf5cf, 0xc5ac, 0xd58d],
    [0x3653, 0x2672, 0x1611, 0x0630, 0x76d7, 0x66f6, 0x5695, 0x46b4],
    [0xb75b, 0xa77a, 0x9719, 0x8738, 0xf7df, 0xe7fe, 0xd79d, 0xc7bc],
    [0x48c4, 0x58e5, 0x6886, 0x78a7, 0x0840, 0x1861, 0x2802, 0x3823],
    [0xc9cc, 0xd9ed, 0xe98e, 0xf9af, 0x8948, 0x9969, 0xa90a, 0xb92b],
    [0x5af5, 0x4ad4, 0x7ab7, 0x6a96, 0x1a71, 0x0a50, 0x3a33, 0x2a12],
    [0xdbfd, 0xcbdc, 0xfbbf, 0xeb9e, 0x9b79, 0x8b58, 0xbb3b, 0xab1a],
    [0x6ca6, 0x7c87, 0x4ce4, 0x5cc5, 0x2c22, 0x3c03, 0x0c60, 0x1c41],
    [0xedae, 0xfd8f, 0xcdec, 0xddcd, 0xad2a, 0xbd0b, 0x8d68, 0x9d49],
    [0x7e97, 0x6eb6, 0x5ed5, 0x4ef4, 0x3e13, 0x2e32, 0x1e51, 0x0e70],
    [0xff9f, 0xefbe, 0xdfdd, 0xcffc, 0xbf1b, 0xaf3a, 0x9f59, 0x8f78],
    [0x9188, 0x81a9, 0xb1ca, 0xa1eb, 0xd10c, 0xc12d, 0xf14e, 0xe16f],
    [0x1080, 0x00a1, 0x30c2, 0x20e3, 0x5004, 0x4025, 0x7046, 0x6067],
    [0x83b9, 0x9398, 0xa3fb, 0xb3da, 0xc33d, 0xd31c, 0xe37f, 0xf35e],
    [0x02b1, 0x1290, 0x22f3, 0x32d2, 0x4235, 0x5214, 0x6277, 0x7256],
    [0xb5ea, 0xa5cb, 0x95a8, 0x8589, 0xf56e, 0xe54f, 0xd52c, 0xc50d],
    [0x34e2, 0x24c3, 0x14a0, 0x0481, 0x7466, 0x6447, 0x5424, 0x4405],
    [0xa7db, 0xb7fa, 0x8799, 0x97b8, 0xe75f, 0xf77e, 0xc71d, 0xd73c],
    [0x26d3, 0x36f2, 0x0691, 0x16b0, 0x6657, 0x7676, 0x4615, 0x5634],
    [0xd94c, 0xc96d, 0xf90e, 0xe92f, 0x99c8, 0x89e9, 0xb98a, 0xa9ab],
    [0x5844, 0x4865, 0x7806, 0x6827, 0x18c0, 0x08e1, 0x3882, 0x28a3],
    [0xcb7d, 0xdb5c, 0xeb3f, 0xfb1e, 0x8bf9, 0x9bd8, 0xabbb, 0xbb9a],
    [0x4a75, 0x5a54, 0x6a37, 0x7a16, 0x0af1, 0x1ad0, 0x2ab3, 0x3a92],
    [0xfd2e, 0xed0f, 0xdd6c, 0xcd4d, 0xbdaa, 0xad8b, 0x9de8, 0x8dc9],
    [0x7c26, 0x6c07, 0x5c64, 0x4c45, 0x3ca2, 0x2c83, 0x1ce0, 0x0cc1],
    [0xef1f, 0xff3e, 0xcf5d, 0xdf7c, 0xaf9b, 0xbfba, 0x8fd9, 0x9ff8],
    [0x6e17, 0x7e36, 0x4e55, 0x5e74, 0x2e93, 0x3eb2, 0x0ed1, 0x1ef0]
  ]

  /** Entry `x` of the table. */
  function TableEntry(x: bv16): bv16
    requires x < 256
  {
    assert |CRC_ROWS| == 32 && |CRC_ROWS[(x >> 3) as int]| == 8 by { RowOfTable(x >> 3); }
    CRC_ROWS[(x >> 3) as int][(x & 7) as int]
  }

  // ---------------------------------------------------------------- polynomial division

  /** Shifts one zero bit in and reduces by x^16 + x^12 + x^5 + 1. */
  function ShiftBit(crc: bv16): bv16 {
    if crc & 0x8000 != 0 then (crc << 1) ^ 0x1021 else crc << 1
  }

  function ShiftTwo(crc: bv16): bv16 { ShiftBit(ShiftBit(crc)) }

  function ShiftFour(crc: bv16): bv16 { ShiftTwo(ShiftTwo(crc)) }

  function ShiftByte(crc: bv16): bv16 { ShiftFour(ShiftFour(crc)) }

  /** The message divided by the polynomial, bit by bit: each byte enters at the top of the register. */
  function Remainder(s: seq<byte>): bv16 {
    if s == [] then 0 else ShiftByte(Remainder(s[..|s| - 1]) ^ ((s[|s| - 1] as bv16) << 8))
  }

  // ---------------------------------------------------------------- the table is right

  function RowFrom(b: bv16): seq<bv16> {
    [ShiftByte(b), ShiftByte(b + 0x100), ShiftByte(b + 0x200), ShiftByte(b + 0x300),
     ShiftByte(b + 0x400), ShiftByte(b + 0x500), ShiftByte(b + 0x600), ShiftByte(b + 0x700)]
  }

  lemma RowsFrom0(r: bv16)
    requires 0 <= r < 4
    ensures CRC_ROWS[r as int] == RowFrom(r << 11)
  {
    if r == 0 {
    } else if r == 1 {
    } else if r == 2 {
    } else {
      assert r == 3;
    }
  }

  lemma RowsFrom4(r: bv16)
    requires 4 <= r < 8
    ensures CRC_ROWS[r as int] == RowFrom(r << 11)
  {
    if r == 4 {
    } else if r == 5 {
    } else if r == 6 {
    } else {
      assert r == 7;
    }
  }

  lemma RowsFrom8(r: bv16)
    requires 8 <= r < 12
    ensures CRC_ROWS[r as int] == RowFrom(r << 11)
  {
    if r == 8 {
    } else if r == 9 {
    } else if r == 10 {
    } else {
      assert r == 11;
    }
  }

  lemma RowsFrom12(r: bv16)
    requires 12 <= r < 16
    ensures CRC_ROWS[r as int] == RowFrom(r << 11)
  {
    if r == 12 {
    } else if r == 13 {
    } else if r == 14 {
    } else {
      assert r == 15;
    }
  }

  lemma RowsFrom16(r: bv16)
    requires 16 <= r < 20
    ensures CRC_ROWS[r as int] == RowFrom(r << 11)
  {
    if r == 16 {
    } else if r == 17 {
    } else if r == 18 {
    } else {
      assert r == 19;
    }
  }

  lemma RowsFrom20(r: bv16)
    requires 20 <= r < 24
    ensures CRC_ROWS[r as int] == RowFrom(r << 11)
  {
    if r == 20 {
    } else if r == 21 {
    } else if r == 22 {
    } else {
      assert r == 23;
    }
  }

  lemma RowsFrom24(r: bv16)
    requires 24 <= r < 28
    ensures CRC_ROWS[r as int] == RowFrom(r << 11)
  {
    if r == 24 {
    } else if r == 25 {
    } else if r == 26 {
    } else {
      assert r == 27;
    }
  }

  lemma RowsFrom28(r: bv16)
    requires 28 <= r < 32
    ensures CRC_ROWS[r as int] == RowFrom(r << 11)
  {
    if r == 28 {
    } else if r == 29 {
    } else if r == 30 {
    } else {
      assert r == 31;
    }
  }

  lemma RowOfTable(r: bv16)
    requires r < 32
    ensures |CRC_ROWS| == 32 && CRC_ROWS[r as int] == RowFrom(r << 11)
  {
    hide RowFrom;
    if r < 4 {
      RowsFrom0(r);
    } else if r < 8 {
      RowsFrom4(r);
    } else if r < 12 {
      RowsFrom8(r);
    } else if r < 16 {
      RowsFrom12(r);
    } else if r < 20 {
      RowsFrom16(r);
    } else if r < 24 {
      RowsFrom20(r);
    } else if r < 28 {
      RowsFrom24(r);
    } else {
      RowsFrom28(r);
    }
  }

  lemma {:induction false} ColumnOfRow(b: bv16, c: bv16)
    requires c < 8
    ensures RowFrom(b)[c as int] == ShiftByte(b + (c << 8))
  {
    hide ShiftByte;
    if c == 0 {
      assert b + (c << 8) == b;
    } else if c == 1 {
    } else if c == 2 {
    } else if c == 3 {
    } else if c == 4 {
    } else if c == 5 {
    } else if c == 6 {
    } else {
      assert c == 7;
    }
  }

  lemma TableIsDivision(x: bv16)
    requires x < 256
    ensures TableEntry(x) == ShiftByte(x << 8)
  {
    hide ShiftByte, RowFrom, CRC_ROWS;
    RowOfTable(x >> 3);
    ColumnOfRow((x >> 3) << 11, x & 7);
    assert ((x >> 3) << 11) + ((x & 7) << 8) == x << 8;
  }

  lemma XorShift(a: bv16, b: bv16)
    ensures (a ^ b) << 1 == (a << 1) ^ (b << 1)
    ensures (a ^ b) & 0x8000 == (a & 0x8000) ^ (b & 0x8000)
    ensures a & 0x8000 == 0 || a & 0x8000 == 0x8000
  {
  }

  lemma XorCancels(a: bv16, b: bv16, p: bv16)
    ensures (a ^ p) ^ (b ^ p) == a ^ b
    ensures (a ^ p) ^ b == (a ^ b) ^ p == a ^ (b ^ p)
  {
  }

  lemma {:induction false} ShiftBitLinear(a: bv16, b: bv16)
    ensures ShiftBit(a ^ b) == ShiftBit(a) ^ ShiftBit(b)
  {
    XorShift(a, b);
    XorShift(b, a);
    XorCancels(a << 1, b << 1, 0x1021);
  }

  predicate IsXor(x: bv16, a: bv16, b: bv16) { x == a ^ b }

  lemma {:induction false} ShiftBitXor(x: bv16, a: bv16, b: bv16)
    requires IsXor(x, a, b)
    ensures IsXor(ShiftBit(x), ShiftBit(a), ShiftBit(b))
  {
    hide ShiftBit;
    ShiftBitLinear(a, b);
  }

  lemma {:induction false} ShiftTwoXor(x: bv16, a: bv16, b: bv16)
    requires IsXor(x, a, b)
    ensures IsXor(ShiftTwo(x), ShiftTwo(a), ShiftTwo(b))
  {
    hide ShiftBit, IsXor;
    ShiftBitXor(x, a, b);
    ShiftBitXor(ShiftBit(x), ShiftBit(a), ShiftBit(b));
  }

  lemma {:induction false} ShiftFourXor(x: bv16, a: bv16, b: bv16)
    requires IsXor(x, a, b)
    ensures IsXor(ShiftFour(x), ShiftFour(a), ShiftFour(b))
  {
    hide ShiftTwo, IsXor;
    ShiftTwoXor(x, a, b);
    ShiftTwoXor(ShiftTwo(x), ShiftTwo(a), ShiftTwo(b));
  }

  lemma {:induction false} ShiftByteXor(x: bv16, a: bv16, b: bv16)
    requires IsXor(x, a, b)
    ensures IsXor(ShiftByte(x), ShiftByte(a), ShiftByte(b))
  {
    hide ShiftFour, IsXor;
    ShiftFourXor(x, a, b);
    ShiftFourXor(ShiftFour(x), ShiftFour(a), ShiftFour(b));
  }

  lemma ShiftByteLow(b: bv16)
    requires b < 256
    ensures ShiftByte(b) == b << 8
  {
  }

  /** Which table entry the next byte selects. */
  function Index(crc: bv16, b: bv16): (i: bv16)
    ensures i < 256
  {
    ((crc >> 8) ^ b) & 0x00FF
  }

  lemma SplitRegister(crc: bv16, b: bv16)
    requires b < 256
    ensures IsXor(crc ^ (b << 8), crc & 0xFF, Index(crc, b) << 8)
    ensures (crc & 0xFF) << 8 == crc << 8
  {
  }

  /** Eight single-bit steps act on the two halves of the register separately. */
  lemma {:induction false} ShiftByteSplits(crc: bv16, b: bv16)
    requires b < 256
    ensures IsXor(ShiftByte(crc ^ (b << 8)), crc << 8, ShiftByte(Index(crc, b) << 8))
  {
    hide ShiftByte, Index, IsXor;
    SplitRegister(crc, b);
    ShiftByteXor(crc ^ (b << 8), crc & 0xFF, Index(crc, b) << 8);
    ShiftByteLow(crc & 0xFF);
  }

  lemma {:induction false} TableStepDivides(crc: bv16, b: bv16)
    requires b < 256
    ensures IsXor(ShiftByte(crc ^ (b << 8)), crc << 8, TableEntry(Index(crc, b)))
  {
    hide ShiftByte, TableEntry, Index, IsXor;
    ShiftByteSplits(crc, b);
    TableIsDivision(Index(crc, b));
  }

  /** The loop over the table computes the bitwise remainder. */
  method Crc16(buf: seq<byte>) returns (crc: bv16)
    ensures crc == Remainder(buf)
  {
    hide ShiftByte, TableEntry, Index;
    crc := 0;
    for counter := 0 to |buf|
      invariant crc == Remainder(buf[..counter])
    {
      TableStepDivides(crc, buf[counter] as bv16);
      assert buf[..counter + 1][..counter] == buf[..counter];
      crc := (crc << 8) ^ TableEntry(Index(crc, buf[counter] as bv16));
    }
    assert buf[..|buf|] == buf;
  }

  // ---------------------------------------------------------------- hash tags

  const OPEN_BRACE: byte := 123
  const CLOSE_BRACE: byte := 125

  /** The part of a key that is hashed: what stands between the first '{' and the first '}' after
      it, if both are there and something stands between them; otherwise the whole key. */
  function HashTag(key: seq<byte>): seq<byte> {
    var s := IndexOf(key, OPEN_BRACE, 0);
    if s == |key| then key else
    var e := IndexOf(key, CLOSE_BRACE, s + 1);
    if e == |key| || e == s + 1 then key else key[s + 1..e]
  }

  function Masked(crc: bv16): (slot: nat)
    ensures slot < SLOTS
  {
    (crc & 0x3FFF) as int
  }

  function Slot(key: seq<byte>): (slot: nat)
    ensures slot < SLOTS
  {
    Masked(Remainder(HashTag(key)))
  }

  /** Keys that share a tag share a slot, whatever surrounds the tag. */
  lemma SameTagSameSlot(pre1: seq<byte>, post1: seq<byte>, pre2: seq<byte>, post2: seq<byte>, tag: seq<byte>)
    requires tag != [] && CLOSE_BRACE !in tag && OPEN_BRACE !in pre1 && OPEN_BRACE !in pre2
    ensures Slot(pre1 + [OPEN_BRACE] + tag + [CLOSE_BRACE] + post1)
         == Slot(pre2 + [OPEN_BRACE] + tag + [CLOSE_BRACE] + post2)
  {
    hide HashTag;
    TagOf(pre1, tag, post1);
    TagOf(pre2, tag, post2);
  }

  lemma TagOf(pre: seq<byte>, tag: seq<byte>, post: seq<byte>)
    requires tag != [] && CLOSE_BRACE !in tag && OPEN_BRACE !in pre
    ensures HashTag(pre + [OPEN_BRACE] + tag + [CLOSE_BRACE] + post) == tag
  {
    var key := pre + [OPEN_BRACE] + tag + [CLOSE_BRACE] + post;
    var e := |pre| + 1 + |tag|;
    assert key[0..|pre|] == pre && key[|pre| + 1..e] == tag;
    IndexOfIs(key, OPEN_BRACE, 0, |pre|);
    IndexOfIs(key, CLOSE_BRACE, |pre| + 1, e);
  }

  // key[s] is the first '{' and key[e] the first '}' after it.
  predicate FirstTag(key: seq<byte>, s: int, e: int) {
    && 0 <= s < e < |key| && key[s] == OPEN_BRACE && OPEN_BRACE !in key[..s]
    && key[e] == CLOSE_BRACE && CLOSE_BRACE !in key[s + 1..e]
  }

  /** A key without a non-empty tag is hashed whole. */
  lemma UntaggedWhole(key: seq<byte>)
    requires forall s, e :: FirstTag(key, s, e) ==> e == s + 1
    ensures HashTag(key) == key
  {
    var s := IndexOf(key, OPEN_BRACE, 0);
    if s < |key| {
      var e := IndexOf(key, CLOSE_BRACE, s + 1);
      assert e < |key| ==> FirstTag(key, s, e);
    }
  }

  // ---------------------------------------------------------------- the slot as a number

  lemma QuarterOf(x: bv16, r: bv16)
    requires r == x & 0x3FFF
    ensures r < 0x4000
    ensures x == r || x == 0x4000 + r || x == 0x8000 + r || x == 0xC000 + r
  {
  }

  lemma AddQuarters(x: bv16, r: bv16)
    requires r < 0x4000
    ensures r as int < 16384
    ensures x == 0x4000 + r ==> x as int == 16384 + r as int
    ensures x == 0x8000 + r ==> x as int == 32768 + r as int
    ensures x == 0xC000 + r ==> x as int == 49152 + r as int
  {
    if x == 0x4000 + r {
    } else if x == 0x8000 + r {
    } else if x == 0xC000 + r {
    }
  }

  lemma MaskIsRemainder(x: bv16)
    ensures Masked(x) == (x as int) % 16384
  {
    Quartered(x, x & 0x3FFF);
  }

  lemma Quartered(x: bv16, r: bv16)
    requires r == x & 0x3FFF
    ensures r as int == (x as int) % 16384
  {
    QuarterOf(x, r);
    InQuarter(x, r);
  }

  lemma InQuarter(x: bv16, r: bv16)
    requires r < 0x4000 && (x == r || x == 0x4000 + r || x == 0x8000 + r || x == 0xC000 + r)
    ensures r as int == (x as int) % 16384
  {
    AddQuarters(x, r);
    SmallRemainder(x as int, r as int);
  }

  lemma SmallRemainder(x: int, r: int)
    requires 0 <= r < 16384 && (x == r || x == 16384 + r || x == 32768 + r || x == 49152 + r)
    ensures x % 16384 == r
  {
  }

  lemma SlotOfTag(key: seq<byte>)
    ensures Slot(key) == (Remainder(HashTag(key)) as int) % 16384
  {
    hide Remainder, HashTag, Masked;
    MaskIsRemainder(Remainder(HashTag(key)));
  }

  /** What is hashed, told from the braces of the key. */
  lemma HashedText(key: seq<byte>)
    ensures forall s, e :: FirstTag(key, s, e) && e > s + 1 ==> HashTag(key) == key[s + 1..e]
    ensures (forall s, e :: FirstTag(key, s, e) ==> e == s + 1) ==> HashTag(key) == key
  {
    forall s, e | FirstTag(key, s, e) && e > s + 1
      ensures HashTag(key) == key[s + 1..e]
    {
      hide HashTag;
      TagOf(key[..s], key[s + 1..e], key[e + 1..]);
      assert key[..s] + [OPEN_BRACE] + key[s + 1..e] + [CLOSE_BRACE] + key[e + 1..] == key;
    }
    if forall s, e :: FirstTag(key, s, e) ==> e == s + 1 {
      UntaggedWhole(key);
    }
  }

  method HashedPart(key: seq<byte>) returns (text: seq<byte>)
    ensures text == HashTag(key)
  {
    var s := 0;
    while s < |key| && key[s] != OPEN_BRACE
      invariant s <= |key| && IndexOf(key, OPEN_BRACE, 0) == IndexOf(key, OPEN_BRACE, s)
    {
      s := s + 1;
    }
    if s == |key| {
      return key;
    }
    var e := s + 1;
    while e < |key| && key[e] != CLOSE_BRACE
      invariant s + 1 <= e <= |key| && IndexOf(key, CLOSE_BRACE, s + 1) == IndexOf(key, CLOSE_BRACE, e)
    {
      e := e + 1;
    }
    if e == |key| || e == s + 1 {
      return key;
    }
    return key[s + 1..e];
  }

  // The checksum of the text between the first braces when there is any, and of the whole key otherwise,
  // modulo 16384.
  ghost predicate IsSlotOf(key: seq<byte>, slot: nat) {
    && (forall s, e :: FirstTag(key, s, e) && e > s + 1 ==> slot == (Remainder(key[s + 1..e]) as int) % 16384)
    && ((forall s, e :: FirstTag(key, s, e) ==> e == s + 1) ==> slot == (Remainder(key) as int) % 16384)
  }

  /** The slot of a key. */
  method KeyHashSlot(key: seq<byte>) returns (slot: nat)
    ensures slot == Slot(key) && IsSlotOf(key, slot)
  {
    hide Remainder, HashTag, FirstTag, Masked;
    var text := HashedPart(key);
    var crc := Crc16(text);
    slot := Masked(crc);
    HashedText(key);
    SlotOfTag(key);
  }

  lemma NextByte(s: seq<byte>, k: nat, crc: bv16, top: bv16)
    requires k < |s| && Remainder(s[..k]) == crc && (s[k] as bv16) << 8 == top
    ensures Remainder(s[..k + 1]) == ShiftByte(crc ^ top)
  {
    hide ShiftByte;
    assert s[..k + 1][..k] == s[..k];
  }

  lemma NineSteps()
    ensures ShiftByte(0x3100) == 0x2672
    ensures ShiftByte(0x1472) == 0x20B5
    ensures ShiftByte(0x13B5) == 0x9752
    ensures ShiftByte(0xA352) == 0xD789
    ensures ShiftByte(0xE289) == 0x546C
    ensures ShiftByte(0x626C) == 0x20E4
    ensures ShiftByte(0x17E4) == 0x86D6
    ensures ShiftByte(0xBED6) == 0x9015
    ensures ShiftByte(0xA915) == 0x31C3
  {
  }

  /** The check value of the checksum: the text of the nine digits is in slot 12739. */
  lemma NineDigits()
    ensures Remainder([49, 50, 51, 52, 53, 54, 55, 56, 57]) == 0x31C3
    ensures Slot([49, 50, 51, 52, 53, 54, 55, 56, 57]) == 12739
  {
    hide Remainder, ShiftByte, HashTag, Slot, Masked;
    var digits: seq<byte> := [49, 50, 51, 52, 53, 54, 55, 56, 57];
    NineSteps();
    NothingYet();
    assert digits[..0] == [];
    NextByte(digits, 0, 0, 0x3100);
    NextByte(digits, 1, 0x2672, 0x3200);
    NextByte(digits, 2, 0x20B5, 0x3300);
    NextByte(digits, 3, 0x9752, 0x3400);
    NextByte(digits, 4, 0xD789, 0x3500);
    NextByte(digits, 5, 0x546C, 0x3600);
    NextByte(digits, 6, 0x20E4, 0x3700);
    NextByte(digits, 7, 0x86D6, 0x3800);
    NextByte(digits, 8, 0x9015, 0x3900);
    assert digits[..9] == digits;
    UntaggedWhole(digits);
    SlotOfTag(digits);
  }

  lemma NothingYet()
    ensures Remainder([]) == 0
  {
  }
}
