/**
 CRC-16 with the CCITT polynomial, as Redis uses it to find the slot of a key. The reference is plain
 bit-by-bit division, most significant bit first; the loop over the table of 256 constants is proved
 equal to it on every byte string.
 */
module Crc16 {
  import opened Bytes

  const POLYNOMIAL: bv16 := 0x1021

  function Xor(x: bv16, y: bv16): bv16 { x ^ y }
  function Double(x: bv16): bv16 { x << 1 }
  function Tap(x: bv16): bv16 { if x & 0x8000 != 0 then POLYNOMIAL else 0 }
  function Top(bit: bool): bv16 { if bit then 0x8000 else 0 }

  /** One step of division. */
  function BitStep(x: bv16): bv16 {
    Xor(Double(x), Tap(x))
  }

  /** The remainder register after a stream of message bits. */
  function Divide(crc: bv16, message: seq<bool>): bv16
    decreases |message|
  {
    if message == [] then crc else Divide(BitStep(Xor(crc, Top(message[0]))), message[1..])
  }

  predicate Has(w: bv16, mask: bv16) { w & mask != 0 }

  /** `byte as u16`. */
  function ByteWord(b: byte): bv16 { b as bv16 }

  /** The bits of a byte, most significant first. */
  function Bits(b: byte): (r: seq<bool>) {
    var w := ByteWord(b);
    [Has(w, 0x80), Has(w, 0x40)] + ([Has(w, 0x20), Has(w, 0x10)] + ([Has(w, 8), Has(w, 4)] + [Has(w, 2), Has(w, 1)]))
  }

  function MessageBits(data: bytes): seq<bool> {
    if data == [] then [] else Bits(data[0]) + MessageBits(data[1..])
  }

  /** The checksum of a byte string: the remainder of its bits, from an empty register. */
  function Checksum(data: bytes): bv16 {
    Divide(0, MessageBits(data))
  }

  // ---- a byte is divided by in one go; `hide` keeps the solver from expanding words into bits ----

  function Steps(x: bv16, n: nat): bv16
    decreases n
  {
    if n == 0 then x else Steps(BitStep(x), n - 1)
  }

  predicate TopClear(v: bv16) { v & 0x8000 == 0 }

  lemma XorAssociative(a: bv16, b: bv16, c: bv16)
    ensures Xor(Xor(a, b), c) == Xor(a, Xor(b, c))
  {
  }

  lemma XorCommutes(a: bv16, b: bv16)
    ensures Xor(a, b) == Xor(b, a)
  {
  }

  lemma XorSwap(a: bv16, b: bv16, c: bv16)
    ensures Xor(Xor(a, b), c) == Xor(Xor(a, c), b)
  {
    hide Xor;
    XorAssociative(a, b, c);
    XorCommutes(b, c);
    XorAssociative(a, c, b);
  }

  lemma XorZero(a: bv16)
    ensures Xor(a, 0) == a
  {
  }

  lemma DoubleOfXor(a: bv16, b: bv16)
    ensures Double(Xor(a, b)) == Xor(Double(a), Double(b))
  {
  }

  lemma TapOfXor(x: bv16, v: bv16)
    requires TopClear(v)
    ensures Tap(Xor(x, v)) == Tap(x)
  {
  }

  /** A word needed one step later can be fed in early, one place lower. */
  lemma Push(x: bv16, v: bv16)
    requires TopClear(v)
    ensures BitStep(Xor(x, v)) == Xor(BitStep(x), Double(v))
  {
    hide Xor; hide Double; hide Tap; hide TopClear;
    TapOfXor(x, v);
    DoubleOfXor(x, v);
    XorSwap(Double(x), Double(v), Tap(x));
  }

  lemma {:induction false} PushSteps(x: bv16, v: bv16, n: nat)
    requires HighClear(v, n)
    ensures Steps(Xor(x, v), n) == Xor(Steps(x, n), Doubles(v, n))
    decreases n
  {
    hide BitStep; hide Xor; hide Double; hide TopClear;
    if n > 0 {
      Push(x, v);
      PushSteps(BitStep(x), Double(v), n - 1);
    }
  }

  function Doubles(x: bv16, n: nat): bv16
    decreases n
  {
    if n == 0 then x else Doubles(Double(x), n - 1)
  }

  predicate HighClear(v: bv16, n: nat)
    decreases n
  {
    n == 0 || (TopClear(v) && HighClear(Double(v), n - 1))
  }

  /** The bits of a word read off its top one at a time. */
  function TopBits(w: bv16, n: nat): seq<bool>
    decreases n
  {
    if n == 0 then [] else [!TopClear(w)] + TopBits(Double(w), n - 1)
  }

  function Rest(w: bv16): bv16 { w & 0x7FFF }

  lemma TopAndRest(w: bv16)
    ensures w == Xor(Top(!TopClear(w)), Rest(w))
  {
    TopBit(w);
    TopAndBottom(w);
  }

  lemma TopBit(w: bv16)
    ensures w & 0x8000 == Top(!TopClear(w))
  {
  }

  lemma TopAndBottom(w: bv16)
    ensures w == (w & 0x8000) ^ (w & 0x7FFF)
  {
  }

  lemma RestIsTopClear(w: bv16)
    ensures TopClear(Rest(w))
  {
  }

  lemma DoubleOfRest(w: bv16)
    ensures Double(Rest(w)) == Double(w)
  {
  }

  /** Dividing by the top bits of a word is xoring the word in and running the steps, if those bits are all there is. */
  lemma {:induction false} DivideTopBits(s: bv16, w: bv16, n: nat)
    requires Doubles(w, n) == 0
    ensures Divide(s, TopBits(w, n)) == Steps(Xor(s, w), n)
    decreases n
  {
    hide BitStep; hide Xor; hide Double; hide Top; hide TopClear; hide Rest;
    if n == 0 {
      XorZero(s);
    } else {
      var bit := !TopClear(w);
      var t := Xor(s, Top(bit));
      assert TopBits(w, n)[1..] == TopBits(Double(w), n - 1);
      TopAndRest(w);
      RestIsTopClear(w);
      DoubleOfRest(w);
      XorAssociative(s, Top(bit), Rest(w));
      Push(t, Rest(w));
      DivideTopBits(BitStep(t), Double(w), n - 1);
    }
  }

  function Shl8(x: bv16): bv16 { x << 8 }
  function Shr8(x: bv16): bv16 { x >> 8 }
  function Low8(x: bv16): bv16 { x & 0xFF }

  lemma EightDoubles(x: bv16)
    ensures Double(Double(Double(Double(Double(Double(Double(Double(x)))))))) == Shl8(x)
  {
  }

  lemma DoublesOfByte(x: bv16)
    ensures Doubles(x, 8) == Shl8(x)
  {
    EightDoubles(x);
    hide Double; hide Shl8;
    var x4 := Double(Double(Double(Double(x))));
    assert Doubles(x4, 4) == Double(Double(Double(Double(x4))));
    assert Doubles(Double(Double(x)), 6) == Doubles(x4, 4);
  }

  lemma TwoBytesGone(b: byte)
    ensures Shl8(Shl8(ByteWord(b))) == 0
  {
  }

  lemma MaskedBits(w: bv16)
    ensures var v := Shl8(w);
            && (TopClear(v) <==> !Has(w, 0x80))
            && (TopClear(Double(v)) <==> !Has(w, 0x40))
            && (TopClear(Double(Double(v))) <==> !Has(w, 0x20))
            && (TopClear(Double(Double(Double(v)))) <==> !Has(w, 0x10))
            && (TopClear(Double(Double(Double(Double(v))))) <==> !Has(w, 8))
            && (TopClear(Double(Double(Double(Double(Double(v)))))) <==> !Has(w, 4))
            && (TopClear(Double(Double(Double(Double(Double(Double(v))))))) <==> !Has(w, 2))
            && (TopClear(Double(Double(Double(Double(Double(Double(Double(v)))))))) <==> !Has(w, 1))
  {
  }

  lemma TwoBits(w: bv16, n: nat)
    requires n >= 2
    ensures TopBits(w, n) == [!TopClear(w), !TopClear(Double(w))] + TopBits(Double(Double(w)), n - 2)
  {
    hide Double; hide TopClear;
    assert TopBits(Double(w), n - 1) == [!TopClear(Double(w))] + TopBits(Double(Double(w)), n - 2);
  }

  lemma BitsFromTop(b: byte)
    ensures Bits(b) == TopBits(Shl8(ByteWord(b)), 8)
  {
    var w, v := ByteWord(b), Shl8(ByteWord(b));
    MaskedBits(w);
    NoBits(Double(Double(Double(Double(Double(Double(Double(Double(v)))))))));
    hide Double; hide TopClear; hide Shl8; hide ByteWord; hide Has; hide TopBits;
    TwoBits(v, 8);
    TwoBits(Double(Double(v)), 6);
    TwoBits(Double(Double(Double(Double(v)))), 4);
    TwoBits(Double(Double(Double(Double(Double(Double(v)))))), 2);
    assert [Has(w, 2), Has(w, 1)] + [] == [Has(w, 2), Has(w, 1)];
  }

  lemma NoBits(w: bv16)
    ensures TopBits(w, 0) == []
  {
  }

  /** Dividing by a whole byte. */
  lemma DivideByte(s: bv16, b: byte)
    ensures Divide(s, Bits(b)) == Steps(Xor(s, Shl8(ByteWord(b))), 8)
  {
    hide BitStep; hide Xor; hide Bits; hide Shl8; hide ByteWord;
    var w := Shl8(ByteWord(b));
    BitsFromTop(b);
    DoublesOfByte(w);
    TwoBytesGone(b);
    DivideTopBits(s, w, 8);
  }

  lemma Low8Clear(y: bv16)
    ensures var v := Low8(y);
            TopClear(v) && TopClear(Double(v)) && TopClear(Double(Double(v))) && TopClear(Double(Double(Double(v)))) &&
            TopClear(Double(Double(Double(Double(v))))) && TopClear(Double(Double(Double(Double(Double(v)))))) &&
            TopClear(Double(Double(Double(Double(Double(Double(v))))))) &&
            TopClear(Double(Double(Double(Double(Double(Double(Double(v))))))))
  {
  }

  lemma Low8HighClear(y: bv16)
    ensures HighClear(Low8(y), 8)
  {
    Low8Clear(y);
    hide Double; hide TopClear; hide Low8;
    var v := Low8(y);
    var v4 := Double(Double(Double(Double(v))));
    assert HighClear(v4, 4);
    assert HighClear(Double(Double(v)), 6);
  }

  lemma HalvesJoin(y: bv16)
    ensures y == Xor(Shl8(Shr8(y)), Low8(y))
  {
  }

  lemma ShiftOfLow8(y: bv16)
    ensures Shl8(Low8(y)) == Shl8(y)
  {
  }

  /** Eight steps are a shift and eight steps of the high byte. */
  lemma TableStep(y: bv16)
    ensures Steps(y, 8) == Xor(Shl8(y), Steps(Shl8(Shr8(y)), 8))
  {
    hide BitStep; hide Xor; hide Double; hide TopClear; hide Low8; hide Shl8; hide Shr8;
    var hi, lo := Shl8(Shr8(y)), Low8(y);
    HalvesJoin(y);
    Low8HighClear(y);
    PushSteps(hi, lo, 8);
    DoublesOfByte(lo);
    ShiftOfLow8(y);
    XorCommutes(Steps(hi, 8), Shl8(y));
  }

  // ---- the table ----

  /** Eight division steps of a byte in the high half of the register. */
  function Entry(i: byte): bv16 {
    BitStep(BitStep(BitStep(BitStep(BitStep(BitStep(BitStep(BitStep(Shl8(ByteWord(i))))))))))
  }

  /** The table of 256 constants, eight to a row. */
  function Row(r: nat): (row: seq<bv16>)
    requires r < 32
    ensures |row| == 8
  {
    match r
    case 0 => [0x0000, 0x1021, 0x2042, 0x3063, 0x4084, 0x50A5, 0x60C6, 0x70E7]
    case 1 => [0x8108, 0x9129, 0xA14A, 0xB16B, 0xC18C, 0xD1AD, 0xE1CE, 0xF1EF]
    case 2 => [0x1231, 0x0210, 0x3273, 0x2252, 0x52B5, 0x4294, 0x72F7, 0x62D6]
    case 3 => [0x9339, 0x8318, 0xB37B, 0xA35A, 0xD3BD, 0xC39C, 0xF3FF, 0xE3DE]
    case 4 => [0x2462, 0x3443, 0x0420, 0x1401, 0x64E6, 0x74C7, 0x44A4, 0x5485]
    case 5 => [0xA56A, 0xB54B, 0x8528, 0x9509, 0xE5EE, 0xF5CF, 0xC5AC, 0xD58D]
    case 6 => [0x3653, 0x2672, 0x1611, 0x0630, 0x76D7, 0x66F6, 0x5695, 0x46B4]
    case 7 => [0xB75B, 0xA77A, 0x9719, 0x8738, 0xF7DF, 0xE7FE, 0xD79D, 0xC7BC]
    case 8 => [0x48C4, 0x58E5, 0x6886, 0x78A7, 0x0840, 0x1861, 0x2802, 0x3823]
    case 9 => [0xC9CC, 0xD9ED, 0xE98E, 0xF9AF, 0x8948, 0x9969, 0xA90A, 0xB92B]
    case 10 => [0x5AF5, 0x4AD4, 0x7AB7, 0x6A96, 0x1A71, 0x0A50, 0x3A33, 0x2A12]
    case 11 => [0xDBFD, 0xCBDC, 0xFBBF, 0xEB9E, 0x9B79, 0x8B58, 0xBB3B, 0xAB1A]
    case 12 => [0x6CA6, 0x7C87, 0x4CE4, 0x5CC5, 0x2C22, 0x3C03, 0x0C60, 0x1C41]
    case 13 => [0xEDAE, 0xFD8F, 0xCDEC, 0xDDCD, 0xAD2A, 0xBD0B, 0x8D68, 0x9D49]
    case 14 => [0x7E97, 0x6EB6, 0x5ED5, 0x4EF4, 0x3E13, 0x2E32, 0x1E51, 0x0E70]
    case 15 => [0xFF9F, 0xEFBE, 0xDFDD, 0xCFFC, 0xBF1B, 0xAF3A, 0x9F59, 0x8F78]
    case 16 => [0x9188, 0x81A9, 0xB1CA, 0xA1EB, 0xD10C, 0xC12D, 0xF14E, 0xE16F]
    case 17 => [0x1080, 0x00A1, 0x30C2, 0x20E3, 0x5004, 0x4025, 0x7046, 0x6067]
    case 18 => [0x83B9, 0x9398, 0xA3FB, 0xB3DA, 0xC33D, 0xD31C, 0xE37F, 0xF35E]
    case 19 => [0x02B1, 0x1290, 0x22F3, 0x32D2, 0x4235, 0x5214, 0x6277, 0x7256]
    case 20 => [0xB5EA, 0xA5CB, 0x95A8, 0x8589, 0xF56E, 0xE54F, 0xD52C, 0xC50D]
    case 21 => [0x34E2, 0x24C3, 0x14A0, 0x0481, 0x7466, 0x6447, 0x5424, 0x4405]
    case 22 => [0xA7DB, 0xB7FA, 0x8799, 0x97B8, 0xE75F, 0xF77E, 0xC71D, 0xD73C]
    case 23 => [0x26D3, 0x36F2, 0x0691, 0x16B0, 0x6657, 0x7676, 0x4615, 0x5634]
    case 24 => [0xD94C, 0xC96D, 0xF90E, 0xE92F, 0x99C8, 0x89E9, 0xB98A, 0xA9AB]
    case 25 => [0x5844, 0x4865, 0x7806, 0x6827, 0x18C0, 0x08E1, 0x3882, 0x28A3]
    case 26 => [0xCB7D, 0xDB5C, 0xEB3F, 0xFB1E, 0x8BF9, 0x9BD8, 0xABBB, 0xBB9A]
    case 27 => [0x4A75, 0x5A54, 0x6A37, 0x7A16, 0x0AF1, 0x1AD0, 0x2AB3, 0x3A92]
    case 28 => [0xFD2E, 0xED0F, 0xDD6C, 0xCD4D, 0xBDAA, 0xAD8B, 0x9DE8, 0x8DC9]
    case 29 => [0x7C26, 0x6C07, 0x5C64, 0x4C45, 0x3CA2, 0x2C83, 0x1CE0, 0x0CC1]
    case 30 => [0xEF1F, 0xFF3E, 0xCF5D, 0xDF7C, 0xAF9B, 0xBFBA, 0x8FD9, 0x9FF8]
    case 31 => [0x6E17, 0x7E36, 0x4E55, 0x5E74, 0x2E93, 0x3EB2, 0x0ED1, 0x1EF0]
  }

  /** Eight consecutive entries, computed. */
  function Entries(base: byte): (r: seq<bv16>)
    requires base <= 248
    ensures |r| == 8
  {
    [Entry(base), Entry(base + 1), Entry(base + 2), Entry(base + 3),
     Entry(base + 4), Entry(base + 5), Entry(base + 6), Entry(base + 7)]
  }

  lemma EntriesAt(base: byte, j: nat)
    requires base <= 248 && j < 8
    ensures Entries(base)[j] == Entry(base + j)
  {
    hide Entry;
    match j
    case 0 =>
    case 1 =>
    case 2 =>
    case 3 =>
    case 4 =>
    case 5 =>
    case 6 =>
    case 7 =>
  }

  lemma Row0() ensures Row(0) == Entries(0) {}
  lemma Row1() ensures Row(1) == Entries(8) {}
  lemma Row2() ensures Row(2) == Entries(16) {}
  lemma Row3() ensures Row(3) == Entries(24) {}
  lemma Row4() ensures Row(4) == Entries(32) {}
  lemma Row5() ensures Row(5) == Entries(40) {}
  lemma Row6() ensures Row(6) == Entries(48) {}
  lemma Row7() ensures Row(7) == Entries(56) {}
  lemma Row8() ensures Row(8) == Entries(64) {}
  lemma Row9() ensures Row(9) == Entries(72) {}
  lemma Row10() ensures Row(10) == Entries(80) {}
  lemma Row11() ensures Row(11) == Entries(88) {}
  lemma Row12() ensures Row(12) == Entries(96) {}
  lemma Row13() ensures Row(13) == Entries(104) {}
  lemma Row14() ensures Row(14) == Entries(112) {}
  lemma Row15() ensures Row(15) == Entries(120) {}
  lemma Row16() ensures Row(16) == Entries(128) {}
  lemma Row17() ensures Row(17) == Entries(136) {}
  lemma Row18() ensures Row(18) == Entries(144) {}
  lemma Row19() ensures Row(19) == Entries(152) {}
  lemma Row20() ensures Row(20) == Entries(160) {}
  lemma Row21() ensures Row(21) == Entries(168) {}
  lemma Row22() ensures Row(22) == Entries(176) {}
  lemma Row23() ensures Row(23) == Entries(184) {}
  lemma Row24() ensures Row(24) == Entries(192) {}
  lemma Row25() ensures Row(25) == Entries(200) {}
  lemma Row26() ensures Row(26) == Entries(208) {}
  lemma Row27() ensures Row(27) == Entries(216) {}
  lemma Row28() ensures Row(28) == Entries(224) {}
  lemma Row29() ensures Row(29) == Entries(232) {}
  lemma Row30() ensures Row(30) == Entries(240) {}
  lemma Row31() ensures Row(31) == Entries(248) {}

  lemma RowIsEntries(r: nat)
    requires r < 32
    ensures Row(r) == Entries(8 * r)
  {
    hide Row; hide Entries;
    match r
    case 0 => Row0();
    case 1 => Row1();
    case 2 => Row2();
    case 3 => Row3();
    case 4 => Row4();
    case 5 => Row5();
    case 6 => Row6();
    case 7 => Row7();
    case 8 => Row8();
    case 9 => Row9();
    case 10 => Row10();
    case 11 => Row11();
    case 12 => Row12();
    case 13 => Row13();
    case 14 => Row14();
    case 15 => Row15();
    case 16 => Row16();
    case 17 => Row17();
    case 18 => Row18();
    case 19 => Row19();
    case 20 => Row20();
    case 21 => Row21();
    case 22 => Row22();
    case 23 => Row23();
    case 24 => Row24();
    case 25 => Row25();
    case 26 => Row26();
    case 27 => Row27();
    case 28 => Row28();
    case 29 => Row29();
    case 30 => Row30();
    case 31 => Row31();
  }

  /** The table constant at an index. */
  function Lookup(i: byte): bv16
  {
    Row(i / 8)[i % 8]
  }

  /** Every constant of the table is eight division steps of its index. */
  lemma TableIsEntries(i: byte)
    ensures Lookup(i) == Entry(i)
  {
    hide Entry; hide Entries; hide Row;
    RowIsEntries(i / 8);
    EntriesAt(8 * (i / 8), i % 8);
  }

  lemma EntryIsSteps(i: byte)
    ensures Entry(i) == Steps(Shl8(ByteWord(i)), 8)
  {
    hide BitStep; hide Shl8; hide ByteWord;
    var x := Shl8(ByteWord(i));
    var x4 := BitStep(BitStep(BitStep(BitStep(x))));
    assert Steps(x4, 4) == Entry(i);
    assert Steps(BitStep(BitStep(x)), 6) == Steps(x4, 4);
  }

  lemma IndexInTable(crc: bv16, b: byte)
    ensures Xor(Shr8(crc), ByteWord(b)) as int < 256
  {
    var w := ByteWord(b);
    assert Shl8(Shl8(w)) == 0;
    SmallXor(crc, w);
  }

  lemma SmallXor(crc: bv16, w: bv16)
    requires w <= 0xFF
    ensures Xor(Shr8(crc), w) <= 0xFF
  {
  }

  lemma IndexAsWord(y: bv16)
    requires y as int < 256
    ensures ByteWord(y as int) == y
  {
  }

  lemma HighByte(crc: bv16, b: byte)
    ensures Shr8(Xor(crc, Shl8(ByteWord(b)))) == Xor(Shr8(crc), ByteWord(b))
  {
  }

  lemma LowByte(crc: bv16, w: bv16)
    requires Shl8(Shl8(w)) == 0
    ensures Shl8(Xor(crc, Shl8(w))) == Shl8(crc)
  {
  }

  /** One turn of the checksum loop divides by one more byte. */
  lemma ByteUpdate(crc: bv16, b: byte, rest: seq<bool>)
    ensures var i := Xor(Shr8(crc), ByteWord(b)) as int;
            i < 256 && Divide(crc, Bits(b) + rest) == Divide(Xor(Shl8(crc), Lookup(i)), rest)
  {
    hide BitStep; hide Xor; hide Bits; hide Shl8; hide Shr8; hide ByteWord; hide Lookup; hide Entry;
    var y := Xor(crc, Shl8(ByteWord(b)));
    DivideConcat(crc, Bits(b), rest);
    DivideByte(crc, b);
    TableStep(y);
    TwoBytesGone(b);
    LowByte(crc, ByteWord(b));
    HighByte(crc, b);
    IndexInTable(crc, b);
    var index := Xor(Shr8(crc), ByteWord(b));
    IndexAsWord(index);
    TableIsEntries(index as int);
    EntryIsSteps(index as int);
  }

  lemma {:induction false} DivideConcat(s: bv16, a: seq<bool>, b: seq<bool>)
    ensures Divide(s, a + b) == Divide(Divide(s, a), b)
    decreases |a|
  {
    hide BitStep; hide Xor; hide Top;
    if a == [] {
      assert a + b == b;
    } else {
      assert (a + b)[1..] == a[1..] + b;
      DivideConcat(BitStep(Xor(s, Top(a[0]))), a[1..], b);
    }
  }

  /** `crc16`: the table-driven loop computes the reference division. */
  method ChecksumOf(data: bytes) returns (crc: bv16)
    ensures crc == Checksum(data)
  {
    hide BitStep; hide Xor; hide Bits; hide Shl8; hide Shr8; hide ByteWord; hide Lookup;
    crc := 0;
    assert data[0..] == data;
    for i := 0 to |data|
      invariant Divide(crc, MessageBits(data[i..])) == Checksum(data)
    {
      assert data[i..][1..] == data[i + 1..];
      ByteUpdate(crc, data[i], MessageBits(data[i + 1..]));
      crc := Xor(Shl8(crc), Lookup(Xor(Shr8(crc), ByteWord(data[i])) as int));
    }
    assert data[|data|..] == [];
  }

  /** The published check value: the checksum of "123456789". */
  lemma KnownValue()
    ensures Checksum([0x31, 0x32, 0x33, 0x34, 0x35, 0x36, 0x37, 0x38, 0x39]) == 0x31C3
  {
    hide *;
    Digit0();
    Digit1();
    Digit2();
    Digit3();
    Digit4();
    Digit5();
    Digit6();
    Digit7();
    Digit8();
    NoBytes(0x31C3);
    ChecksumIsDivision([0x31, 0x32, 0x33, 0x34, 0x35, 0x36, 0x37, 0x38, 0x39]);
  }

  function Index(crc: bv16, b: byte): int { Xor(Shr8(crc), ByteWord(b)) as int }

  lemma OneByte(crc: bv16, b: byte, rest: bytes)
    ensures var i := Index(crc, b);
            0 <= i < 256 && Divide(crc, MessageBits([b] + rest)) == Divide(Xor(Shl8(crc), Lookup(i)), MessageBits(rest))
  {
    hide BitStep; hide Xor; hide Bits; hide Shl8; hide Shr8; hide ByteWord; hide Lookup;
    assert ([b] + rest)[1..] == rest;
    ByteUpdate(crc, b, MessageBits(rest));
  }

  lemma NoBytes(crc: bv16)
    ensures Divide(crc, MessageBits([])) == crc
  {
  }

  lemma ChecksumIsDivision(data: bytes)
    ensures Checksum(data) == Divide(0, MessageBits(data))
  {
  }

  lemma Digit0()
    ensures Divide(0x0000, MessageBits([0x31, 0x32, 0x33, 0x34, 0x35, 0x36, 0x37, 0x38, 0x39]))
         == Divide(0x2672, MessageBits([0x32, 0x33, 0x34, 0x35, 0x36, 0x37, 0x38, 0x39]))
  {
    Lookup0();
    hide *;
    OneByte(0x0000, 0x31, [0x32, 0x33, 0x34, 0x35, 0x36, 0x37, 0x38, 0x39]);
    assert [0x31] + [0x32, 0x33, 0x34, 0x35, 0x36, 0x37, 0x38, 0x39]
        == [0x31, 0x32, 0x33, 0x34, 0x35, 0x36, 0x37, 0x38, 0x39];
  }

  lemma Lookup0()
    ensures Index(0x0000, 0x31) == 49 && Xor(Shl8(0x0000), Lookup(49)) == 0x2672
  {
    assert Row(6)[1] == 0x2672;
  }

  lemma Digit1()
    ensures Divide(0x2672, MessageBits([0x32, 0x33, 0x34, 0x35, 0x36, 0x37, 0x38, 0x39]))
         == Divide(0x20B5, MessageBits([0x33, 0x34, 0x35, 0x36, 0x37, 0x38, 0x39]))
  {
    Lookup1();
    hide *;
    OneByte(0x2672, 0x32, [0x33, 0x34, 0x35, 0x36, 0x37, 0x38, 0x39]);
    assert [0x32] + [0x33, 0x34, 0x35, 0x36, 0x37, 0x38, 0x39] == [0x32, 0x33, 0x34, 0x35, 0x36, 0x37, 0x38, 0x39];
  }

  lemma Lookup1()
    ensures Index(0x2672, 0x32) == 20 && Xor(Shl8(0x2672), Lookup(20)) == 0x20B5
  {
    assert Row(2)[4] == 0x52B5;
  }

  lemma Digit2()
    ensures Divide(0x20B5, MessageBits([0x33, 0x34, 0x35, 0x36, 0x37, 0x38, 0x39]))
         == Divide(0x9752, MessageBits([0x34, 0x35, 0x36, 0x37, 0x38, 0x39]))
  {
    Lookup2();
    hide *;
    OneByte(0x20B5, 0x33, [0x34, 0x35, 0x36, 0x37, 0x38, 0x39]);
    assert [0x33] + [0x34, 0x35, 0x36, 0x37, 0x38, 0x39] == [0x33, 0x34, 0x35, 0x36, 0x37, 0x38, 0x39];
  }

  lemma Lookup2()
    ensures Index(0x20B5, 0x33) == 19 && Xor(Shl8(0x20B5), Lookup(19)) == 0x9752
  {
    assert Row(2)[3] == 0x2252;
  }

  lemma Digit3()
    ensures Divide(0x9752, MessageBits([0x34, 0x35, 0x36, 0x37, 0x38, 0x39]))
         == Divide(0xD789, MessageBits([0x35, 0x36, 0x37, 0x38, 0x39]))
  {
    Lookup3();
    hide *;
    OneByte(0x9752, 0x34, [0x35, 0x36, 0x37, 0x38, 0x39]);
    assert [0x34] + [0x35, 0x36, 0x37, 0x38, 0x39] == [0x34, 0x35, 0x36, 0x37, 0x38, 0x39];
  }

  lemma Lookup3()
    ensures Index(0x9752, 0x34) == 163 && Xor(Shl8(0x9752), Lookup(163)) == 0xD789
  {
    assert Row(20)[3] == 0x8589;
  }

  lemma Digit4()
    ensures Divide(0xD789, MessageBits([0x35, 0x36, 0x37, 0x38, 0x39]))
         == Divide(0x546C, MessageBits([0x36, 0x37, 0x38, 0x39]))
  {
    Lookup4();
    hide *;
    OneByte(0xD789, 0x35, [0x36, 0x37, 0x38, 0x39]);
    assert [0x35] + [0x36, 0x37, 0x38, 0x39] == [0x35, 0x36, 0x37, 0x38, 0x39];
  }

  lemma Lookup4()
    ensures Index(0xD789, 0x35) == 226 && Xor(Shl8(0xD789), Lookup(226)) == 0x546C
  {
    assert Row(28)[2] == 0xDD6C;
  }

  lemma Digit5()
    ensures Divide(0x546C, MessageBits([0x36, 0x37, 0x38, 0x39])) == Divide(0x20E4, MessageBits([0x37, 0x38, 0x39]))
  {
    Lookup5();
    hide *;
    OneByte(0x546C, 0x36, [0x37, 0x38, 0x39]);
    assert [0x36] + [0x37, 0x38, 0x39] == [0x36, 0x37, 0x38, 0x39];
  }

  lemma Lookup5()
    ensures Index(0x546C, 0x36) == 98 && Xor(Shl8(0x546C), Lookup(98)) == 0x20E4
  {
    assert Row(12)[2] == 0x4CE4;
  }

  lemma Digit6()
    ensures Divide(0x20E4, MessageBits([0x37, 0x38, 0x39])) == Divide(0x86D6, MessageBits([0x38, 0x39]))
  {
    Lookup6();
    hide *;
    OneByte(0x20E4, 0x37, [0x38, 0x39]);
    assert [0x37] + [0x38, 0x39] == [0x37, 0x38, 0x39];
  }

  lemma Lookup6()
    ensures Index(0x20E4, 0x37) == 23 && Xor(Shl8(0x20E4), Lookup(23)) == 0x86D6
  {
    assert Row(2)[7] == 0x62D6;
  }

  lemma Digit7()
    ensures Divide(0x86D6, MessageBits([0x38, 0x39])) == Divide(0x9015, MessageBits([0x39]))
  {
    Lookup7();
    hide *;
    OneByte(0x86D6, 0x38, [0x39]);
    assert [0x38] + [0x39] == [0x38, 0x39];
  }

  lemma Lookup7()
    ensures Index(0x86D6, 0x38) == 190 && Xor(Shl8(0x86D6), Lookup(190)) == 0x9015
  {
    assert Row(23)[6] == 0x4615;
  }

  lemma Digit8()
    ensures Divide(0x9015, MessageBits([0x39])) == Divide(0x31C3, MessageBits([]))
  {
    Lookup8();
    hide *;
    OneByte(0x9015, 0x39, []);
    assert [0x39] + [] == [0x39];
  }

  lemma Lookup8()
    ensures Index(0x9015, 0x39) == 169 && Xor(Shl8(0x9015), Lookup(169)) == 0x31C3
  {
    assert Row(21)[1] == 0x24C3;
  }
}
