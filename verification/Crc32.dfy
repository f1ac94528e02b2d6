/**
 CRC-32 with the reflected IEEE 802.3 polynomial. The reference is plain bit-by-bit division of
 the message; the class is the table-driven form, proved equal to it on every byte string.
 */
module Crc32 {
  import opened Bytes

  const POLYNOMIAL: bv32 := 0xEDB8_8320

  /** One step of reflected division. */
  function BitStep(x: bv32): bv32 {
    Xor(Half(x), Tap(x))
  }

  function Xor(x: bv32, y: bv32): bv32 { x ^ y }
  function Half(x: bv32): bv32 { x >> 1 }
  function Tap(x: bv32): bv32 { if x & 1 == 1 then POLYNOMIAL else 0 }
  function Low(bit: bool): bv32 { if bit then 1 else 0 }

  /** The remainder register after a stream of message bits. */
  function Divide(crc: bv32, message: seq<bool>): bv32
    decreases |message|
  {
    if message == [] then crc else Divide(BitStep(Xor(crc, Low(message[0]))), message[1..])
  }

  /** The bits of a byte, least significant first. */
  function Bits(b: byte): (r: seq<bool>)
    ensures |r| == 8
  {
    Digits(b, 8)
  }

  function Digits(n: nat, width: nat): (r: seq<bool>)
    ensures |r| == width
    decreases width
  {
    if width == 0 then [] else [n % 2 == 1] + Digits(n / 2, width - 1)
  }

  function MessageBits(data: bytes): (r: seq<bool>)
    ensures |r| == 8 * |data|
  {
    if data == [] then [] else Bits(data[0]) + MessageBits(data[1..])
  }

  function Register(data: bytes): bv32 {
    Divide(0xFFFF_FFFF, MessageBits(data))
  }

  /** The checksum of a payload: division of its bits, register preset and complemented. */
  function Checksum(data: bytes): u32 {
    Xor(Register(data), 0xFFFF_FFFF) as int
  }

  // ---- algebra of the register; `hide` keeps the solver from expanding words into bits ----

  function Double(x: bv32): bv32 { x << 1 }
  predicate Clear(v: bv32, mask: bv32) { v & mask == 0 }

  function Steps(x: bv32, n: nat): bv32
    decreases n
  {
    if n == 0 then x else Steps(BitStep(x), n - 1)
  }

  function Halves(x: bv32, n: nat): bv32
    decreases n
  {
    if n == 0 then x else Halves(Half(x), n - 1)
  }

  predicate ClearLow(v: bv32, n: nat)
    decreases n
  {
    n == 0 || (Clear(v, 1) && ClearLow(Half(v), n - 1))
  }

  lemma XorAssociative(a: bv32, b: bv32, c: bv32)
    ensures Xor(Xor(a, b), c) == Xor(a, Xor(b, c))
  {
  }

  lemma XorSwap(a: bv32, b: bv32, c: bv32)
    ensures Xor(Xor(a, b), c) == Xor(Xor(a, c), b)
  {
    hide Xor;
    XorAssociative(a, b, c);
    XorCommutes(b, c);
    XorAssociative(a, c, b);
  }

  lemma XorCommutes(a: bv32, b: bv32)
    ensures Xor(a, b) == Xor(b, a)
  {
  }

  lemma XorZero(s: bv32)
    ensures Xor(s, 0) == s
  {
  }

  lemma HalfOfXor(a: bv32, b: bv32)
    ensures Half(Xor(a, b)) == Xor(Half(a), Half(b))
  {
  }

  lemma XorCancel(a: bv32, b: bv32, c: bv32)
    requires Xor(a, b) == Xor(a, c)
    ensures b == c
  {
  }

  lemma TapOfXor(x: bv32, v: bv32)
    requires Clear(v, 1)
    ensures Tap(Xor(x, v)) == Tap(x)
  {
  }

  /** A word needed one step later can be fed in early, one place higher. */
  lemma Push(x: bv32, v: bv32)
    requires Clear(v, 1)
    ensures BitStep(Xor(x, v)) == Xor(BitStep(x), Half(v))
  {
    hide Xor; hide Half; hide Tap; hide Clear;
    TapOfXor(x, v);
    HalfOfXor(x, v);
    XorSwap(Half(x), Half(v), Tap(x));
  }

  lemma {:induction false} PushSteps(x: bv32, v: bv32, n: nat)
    requires ClearLow(v, n)
    ensures Steps(Xor(x, v), n) == Xor(Steps(x, n), Halves(v, n))
    decreases n
  {
    hide BitStep; hide Xor; hide Half; hide Clear;
    if n > 0 {
      Push(x, v);
      PushSteps(BitStep(x), Half(v), n - 1);
    }
  }

  lemma BitStepInjective(x: bv32, y: bv32)
    requires BitStep(x) == BitStep(y)
    ensures x == y
  {
  }

  lemma {:induction false} StepsInjective(x: bv32, y: bv32, n: nat)
    requires Steps(x, n) == Steps(y, n)
    ensures x == y
    decreases n
  {
    hide BitStep;
    if n > 0 {
      StepsInjective(BitStep(x), BitStep(y), n - 1);
      BitStepInjective(x, y);
    }
  }

  lemma {:induction false} HalvesCompose(x: bv32, a: nat, b: nat)
    ensures Halves(x, a + b) == Halves(Halves(x, a), b)
    decreases a
  {
    hide Half;
    if a > 0 {
      HalvesCompose(Half(x), a - 1, b);
    }
  }

  lemma {:induction false} HalvesZero(n: nat)
    ensures Halves(0, n) == 0
  {
    if n > 0 {
      assert Half(0) == 0;
      HalvesZero(n - 1);
    }
  }

  function Shift8(x: bv32): bv32 { x >> 8 }
  function Shift7(x: bv32): bv32 { x >> 7 }

  lemma HalvesOfByte(x: bv32)
    ensures Halves(x, 7) == Shift7(x)
    ensures Halves(x, 8) == Shift8(x)
  {
    SevenHalves(x);
    EightHalves(x);
    hide Half; hide Shift7; hide Shift8;
    var x4 := Half(Half(Half(Half(x))));
    assert Halves(x, 4) == x4;
    HalvesCompose(x, 4, 3);
    HalvesCompose(x, 4, 4);
    assert Halves(x4, 3) == Half(Half(Half(x4)));
    assert Halves(x4, 4) == Half(Half(Half(Half(x4))));
  }

  lemma SevenHalves(x: bv32)
    ensures Half(Half(Half(Half(Half(Half(Half(x))))))) == Shift7(x)
  {
  }

  lemma EightHalves(x: bv32)
    ensures Half(Half(Half(Half(Half(Half(Half(Half(x)))))))) == Shift8(x)
  {
  }

  /** A word whose halvings vanish within 31 places has its top bit clear. */
  lemma SmallIsTopClear(x: bv32, n: nat)
    requires n <= 31 && Halves(x, n) == 0
    ensures Clear(x, 0x8000_0000)
  {
    ShiftOut(x);
    hide Half; hide Clear; hide Shift7; hide Shift8;
    HalvesCompose(x, n, 31 - n);
    HalvesZero(31 - n);
    ThirtyOneHalves(x);
  }

  lemma ThirtyOneHalves(x: bv32)
    ensures Halves(x, 31) == Shift7(Shift8(Shift8(Shift8(x))))
  {
    hide Half; hide Shift7; hide Shift8;
    HalvesCompose(x, 24, 7);
    HalvesCompose(x, 16, 8);
    HalvesCompose(x, 8, 8);
    HalvesOfByte(x);
    HalvesOfByte(Shift8(x));
    HalvesOfByte(Shift8(Shift8(x)));
    HalvesOfByte(Shift8(Shift8(Shift8(x))));
  }

  lemma ShiftOut(x: bv32)
    ensures Shift7(Shift8(Shift8(Shift8(x)))) == 0 ==> Clear(x, 0x8000_0000)
  {
  }

  // ---- a window of up to 32 message bits is one injective word ----

  /** Message bits as a word, the first bit lowest. */
  function Word(m: seq<bool>): bv32
    decreases |m|
  {
    if m == [] then 0 else Xor(Low(m[0]), Double(Word(m[1..])))
  }

  lemma HalfOfDouble(w: bv32)
    requires Clear(w, 0x8000_0000)
    ensures Half(Double(w)) == w
  {
  }

  lemma DoubleIsEven(w: bv32)
    ensures Clear(Double(w), 1)
  {
  }

  lemma HalfOfWord(bit: bool, w: bv32)
    requires Clear(w, 0x8000_0000)
    ensures Half(Xor(Low(bit), Double(w))) == w
  {
  }

  lemma LowBitOfWord(bit: bool, w: bv32)
    ensures Clear(Xor(Low(bit), Double(w)), 1) <==> !bit
  {
  }

  lemma {:induction false} WordIsSmall(m: seq<bool>)
    requires |m| <= 32
    ensures Halves(Word(m), |m|) == 0
    ensures |m| <= 31 ==> Clear(Word(m), 0x8000_0000)
    decreases |m|
  {
    hide Xor; hide Half; hide Double; hide Clear; hide Low;
    if m != [] {
      WordIsSmall(m[1..]);
      HalfOfWord(m[0], Word(m[1..]));
    }
    if |m| <= 31 {
      SmallIsTopClear(Word(m), |m|);
    }
  }

  lemma {:induction false} WordInjective(x: seq<bool>, y: seq<bool>)
    requires |x| == |y| <= 32 && Word(x) == Word(y)
    ensures x == y
    decreases |x|
  {
    hide Xor; hide Half; hide Double; hide Clear; hide Low;
    if x != [] {
      WordIsSmall(x[1..]);
      WordIsSmall(y[1..]);
      HalfOfWord(x[0], Word(x[1..]));
      HalfOfWord(y[0], Word(y[1..]));
      LowBitOfWord(x[0], Word(x[1..]));
      LowBitOfWord(y[0], Word(y[1..]));
      WordInjective(x[1..], y[1..]);
      assert x == [x[0]] + x[1..] && y == [y[0]] + y[1..];
    }
  }

  /** Dividing a short window is xoring it in as one word and running the steps. */
  lemma {:induction false} DivideWindow(s: bv32, m: seq<bool>)
    requires |m| <= 32
    ensures Divide(s, m) == Steps(Xor(s, Word(m)), |m|)
    decreases |m|
  {
    hide BitStep; hide Xor; hide Half; hide Double; hide Clear; hide Low;
    if m == [] {
      XorZero(s);
    } else {
      var w := Word(m[1..]);
      var t := Xor(s, Low(m[0]));
      WordIsSmall(m[1..]);
      XorAssociative(s, Low(m[0]), Double(w));
      DoubleIsEven(w);
      HalfOfDouble(w);
      Push(t, Double(w));
      DivideWindow(BitStep(t), m[1..]);
    }
  }

  lemma {:induction false} DivideConcat(s: bv32, a: seq<bool>, b: seq<bool>)
    ensures Divide(s, a + b) == Divide(Divide(s, a), b)
    decreases |a|
  {
    hide BitStep; hide Xor; hide Low;
    if a == [] {
      assert a + b == b;
    } else {
      assert (a + b)[1..] == a[1..] + b;
      DivideConcat(BitStep(Xor(s, Low(a[0]))), a[1..], b);
    }
  }

  /** Feeding the same bits keeps different registers different. */
  lemma {:induction false} DivideKeepsApart(s: bv32, t: bv32, m: seq<bool>)
    requires s != t
    ensures Divide(s, m) != Divide(t, m)
    decreases |m|
  {
    hide BitStep; hide Xor; hide Low;
    if m != [] {
      var l := Low(m[0]);
      if BitStep(Xor(s, l)) == BitStep(Xor(t, l)) {
        BitStepInjective(Xor(s, l), Xor(t, l));
        XorCommutes(s, l);
        XorCommutes(t, l);
        XorCancel(l, s, t);
        assert false;
      }
      DivideKeepsApart(BitStep(Xor(s, l)), BitStep(Xor(t, l)), m[1..]);
    }
  }

  /** Every error burst of at most 32 bits, anywhere in a message, changes the remainder. */
  lemma BurstDetected(s: bv32, before: seq<bool>, x: seq<bool>, y: seq<bool>, after: seq<bool>)
    requires |x| == |y| <= 32 && x != y
    ensures Divide(s, before + x + after) != Divide(s, before + y + after)
  {
    hide BitStep; hide Xor; hide Half; hide Double; hide Clear; hide Low;
    var r := Divide(s, before);
    DivideConcat(s, before + x, after);
    DivideConcat(s, before + y, after);
    DivideConcat(s, before, x);
    DivideConcat(s, before, y);
    DivideWindow(r, x);
    DivideWindow(r, y);
    if Divide(r, x) == Divide(r, y) {
      StepsInjective(Xor(r, Word(x)), Xor(r, Word(y)), |x|);
      XorCancel(r, Word(x), Word(y));
      WordInjective(x, y);
      assert false;
    }
    DivideKeepsApart(Divide(r, x), Divide(r, y), after);
  }

  // ---- checksums of byte strings ----

  lemma BitsInjective(b: byte, c: byte)
    requires Bits(b) == Bits(c)
    ensures b == c
  {
    assert Pow2(4) == 16 && Pow2(8) == 256;
    DigitsInjective(b, c, 8);
  }

  function Pow2(n: nat): nat { if n == 0 then 1 else 2 * Pow2(n - 1) }

  lemma {:induction false} DigitsInjective(b: nat, c: nat, width: nat)
    requires b < Pow2(width) && c < Pow2(width) && Digits(b, width) == Digits(c, width)
    ensures b == c
    decreases width
  {
    if width > 0 {
      assert Digits(b, width)[1..] == Digits(b / 2, width - 1);
      assert Digits(c, width)[1..] == Digits(c / 2, width - 1);
      assert Digits(b, width)[0] == Digits(c, width)[0];
      DigitsInjective(b / 2, c / 2, width - 1);
    }
  }

  lemma {:induction false} MessageBitsInjective(p: bytes, q: bytes)
    requires MessageBits(p) == MessageBits(q)
    ensures p == q
  {
    hide Bits;
    assert |p| == |q|;
    if p != [] {
      assert Bits(p[0]) == MessageBits(p)[..8] && Bits(q[0]) == MessageBits(q)[..8];
      assert MessageBits(p[1..]) == MessageBits(p)[8..] && MessageBits(q[1..]) == MessageBits(q)[8..];
      BitsInjective(p[0], q[0]);
      MessageBitsInjective(p[1..], q[1..]);
      assert p == [p[0]] + p[1..] && q == [q[0]] + q[1..];
    }
  }

  lemma {:induction false} MessageBitsConcat(p: bytes, q: bytes)
    ensures MessageBits(p + q) == MessageBits(p) + MessageBits(q)
  {
    hide Bits;
    if p == [] {
      assert p + q == q;
    } else {
      assert (p + q)[1..] == p[1..] + q;
      MessageBitsConcat(p[1..], q);
    }
  }

  lemma WordsAsNumbers(x: bv32)
    ensures (x as int) as bv32 == x
  {
  }

  lemma ChecksumApart(p: bytes, q: bytes)
    requires Register(p) != Register(q)
    ensures Checksum(p) != Checksum(q)
  {
    hide Xor; hide Register;
    var ones: bv32 := 0xFFFF_FFFF;
    var a, b := Xor(Register(p), ones), Xor(Register(q), ones);
    WordsAsNumbers(a);
    WordsAsNumbers(b);
    if a == b {
      XorCommutes(Register(p), ones);
      XorCommutes(Register(q), ones);
      XorCancel(ones, Register(p), Register(q));
      assert false;
    }
  }

  /**
   Two different payloads of one length whose bits differ only inside some window of 32
   consecutive bits never share a checksum.
   */
  lemma ChecksumDetectsBursts(p: bytes, q: bytes, at: nat)
    requires p != q && |p| == |q|
    requires forall i :: 0 <= i < 8 * |p| && !(at <= i < at + 32) ==> MessageBits(p)[i] == MessageBits(q)[i]
    ensures Checksum(p) != Checksum(q)
  {
    hide *;
    if MessageBits(p) == MessageBits(q) {
      MessageBitsInjective(p, q);
      assert false;
    }
    WindowDetected(0xFFFF_FFFF, MessageBits(p), MessageBits(q), at);
    RegisterIsDivision(p);
    RegisterIsDivision(q);
    ChecksumApart(p, q);
  }

  lemma WindowDetected(s: bv32, m: seq<bool>, n: seq<bool>, at: nat)
    requires m != n && |m| == |n|
    requires forall i :: 0 <= i < |m| && !(at <= i < at + 32) ==> m[i] == n[i]
    ensures Divide(s, m) != Divide(s, n)
  {
    hide *;
    var lo := if at <= |m| then at else |m|;
    var hi := if at + 32 <= |m| then at + 32 else |m|;
    var x, y := m[lo..hi], n[lo..hi];
    assert m == m[..lo] + x + m[hi..];
    assert n == m[..lo] + y + m[hi..];
    BurstDetected(s, m[..lo], x, y, m[hi..]);
  }

  lemma RegisterIsDivision(p: bytes)
    ensures Register(p) == Divide(0xFFFF_FFFF, MessageBits(p))
  {
  }

  /** The byte-aligned case: damage confined to four consecutive bytes is always noticed. */
  lemma ChecksumDetectsFourBytes(before: bytes, x: bytes, y: bytes, after: bytes)
    requires |x| == |y| <= 4 && x != y
    ensures Checksum(before + x + after) != Checksum(before + y + after)
  {
    hide Checksum; hide Divide; hide Bits; hide Xor;
    var p, q := before + x + after, before + y + after;
    MessageBitsConcat(before + x, after);
    MessageBitsConcat(before + y, after);
    MessageBitsConcat(before, x);
    MessageBitsConcat(before, y);
    assert p[|before|..|before| + |x|] == x && q[|before|..|before| + |y|] == y;
    ChecksumDetectsBursts(p, q, 8 * |before|);
  }

  /** The published check value for "a". */
  lemma KnownValue()
    ensures Checksum([0x61]) == 0xE8B7_BE43
  {
    hide *;
    LetterBits();
    DivideLetter();
    FinalComplement();
    RegisterIsDivision([0x61]);
    ChecksumIsComplement([0x61]);
  }

  lemma LetterBits()
    ensures MessageBits([0x61]) == [true, false, false, false, false, true, true, false]
  {
    hide Digits;
    DigitsStep(0x61, 8);
    DigitsStep(0x30, 7);
    DigitsStep(0x18, 6);
    DigitsStep(0xC, 5);
    DigitsStep(0x6, 4);
    DigitsStep(0x3, 3);
    DigitsStep(0x1, 2);
    DigitsStep(0x0, 1);
    assert MessageBits([0x61]) == Bits(0x61) + MessageBits([]) by { assert [0x61][1..] == []; }
  }

  lemma DigitsStep(n: nat, width: nat)
    requires width > 0
    ensures Digits(n, width) == [n % 2 == 1] + Digits(n / 2, width - 1)
    ensures Digits(n, 0) == []
  {
  }

  lemma ChecksumIsComplement(p: bytes)
    ensures Checksum(p) == Xor(Register(p), 0xFFFF_FFFF) as int
  {
    hide Xor; hide Register;
  }

  lemma FinalComplement()
    ensures Xor(0x1748_41BC, 0xFFFF_FFFF) as int == 0xE8B7_BE43
  {
  }

  lemma DivideLetter()
    ensures Divide(0xFFFF_FFFF, [true, false, false, false, false, true, true, false]) == 0x1748_41BC
  {
    RegisterTrace();
    hide BitStep; hide Xor; hide Low;
    assert [false][1..] == [];
    assert Divide(0x2E90_8378, [false]) == 0x1748_41BC;
    assert [true, false][1..] == [false];
    assert Divide(0x5D21_06F1, [true, false]) == 0x1748_41BC;
    assert [true, true, false][1..] == [true, false];
    assert Divide(0xBA42_0DE3, [true, true, false]) == 0x1748_41BC;
    assert [false, true, true, false][1..] == [true, true, false];
    assert Divide(0xAFF5_1D87, [false, true, true, false]) == 0x1748_41BC;
    assert [false, false, true, true, false][1..] == [false, true, true, false];
    assert Divide(0x849B_3D4F, [false, false, true, true, false]) == 0x1748_41BC;
    assert [false, false, false, true, true, false][1..] == [false, false, true, true, false];
    assert Divide(0xD247_7CDF, [false, false, false, true, true, false]) == 0x1748_41BC;
    assert [false, false, false, false, true, true, false][1..] == [false, false, false, true, true, false];
    assert Divide(0x7FFF_FFFF, [false, false, false, false, true, true, false]) == 0x1748_41BC;
    assert [true, false, false, false, false, true, true, false][1..]
        == [false, false, false, false, true, true, false];
    assert Divide(0xFFFF_FFFF, [true, false, false, false, false, true, true, false]) == 0x1748_41BC;
  }

  lemma RegisterTrace()
    ensures BitStep(Xor(0xFFFF_FFFF, Low(true))) == 0x7FFF_FFFF
    ensures BitStep(Xor(0x7FFF_FFFF, Low(false))) == 0xD247_7CDF
    ensures BitStep(Xor(0xD247_7CDF, Low(false))) == 0x849B_3D4F
    ensures BitStep(Xor(0x849B_3D4F, Low(false))) == 0xAFF5_1D87
    ensures BitStep(Xor(0xAFF5_1D87, Low(false))) == 0xBA42_0DE3
    ensures BitStep(Xor(0xBA42_0DE3, Low(true))) == 0x5D21_06F1
    ensures BitStep(Xor(0x5D21_06F1, Low(true))) == 0x2E90_8378
    ensures BitStep(Xor(0x2E90_8378, Low(false))) == 0x1748_41BC
  {
  }

  // ---- the table-driven form ----

  function Split(y: bv32): (bv32, bv32) { (y & 0xFF, y & 0xFFFF_FF00) }

  lemma SplitJoin(y: bv32)
    ensures y == Xor(Split(y).0, Split(y).1)
  {
  }

  lemma SplitHigh(y: bv32)
    ensures Shift8(Split(y).1) == Shift8(y)
  {
  }

  lemma SplitClear(y: bv32)
    ensures var v := Split(y).1;
            Clear(v, 1) && Clear(Half(v), 1) && Clear(Half(Half(v)), 1) && Clear(Half(Half(Half(v))), 1) &&
            Clear(Half(Half(Half(Half(v)))), 1) && Clear(Half(Half(Half(Half(Half(v))))), 1) &&
            Clear(Half(Half(Half(Half(Half(Half(v)))))), 1) && Clear(Half(Half(Half(Half(Half(Half(Half(v))))))), 1)
  {
  }

  lemma SplitClearLow(y: bv32)
    ensures ClearLow(Split(y).1, 8)
  {
    SplitClear(y);
    hide Half; hide Clear; hide Split;
    var v := Split(y).1;
    var v4 := Half(Half(Half(Half(v))));
    assert ClearLow(v4, 4);
    assert ClearLow(Half(Half(v)), 6);
  }

  /** Eight steps are one table lookup and a shift. */
  lemma TableStep(y: bv32)
    ensures Steps(y, 8) == Xor(Shift8(y), Steps(Split(y).0, 8))
  {
    hide BitStep; hide Xor; hide Half; hide Clear; hide Split; hide Shift8; hide Shift7;
    var (lo, hi) := Split(y);
    SplitJoin(y);
    SplitHigh(y);
    SplitClearLow(y);
    PushSteps(lo, hi, 8);
    HalvesOfByte(hi);
    XorCommutes(Steps(lo, 8), Shift8(hi));
  }

  /** `byte as u32`. */
  function ByteWord(b: byte): bv32 { b as bv32 }

  function Number(w: bv32): int { w as int }

  /** Putting a bit below a small word is doubling and adding. */
  lemma WordAsNumber(bit: bool, w: bv32)
    requires Number(w) < 128
    ensures Number(Xor(Low(bit), Double(w))) == 2 * Number(w) + (if bit then 1 else 0)
  {
  }

  lemma {:induction false} WordOfDigits(n: nat, width: nat)
    requires width <= 8 && n < Pow2(width)
    ensures Number(Word(Digits(n, width))) == n
    decreases width
  {
    hide *;
    if width == 0 {
      NoDigits(n);
    } else {
      HalfBelow(n, width);
      WordOfDigits(n / 2, width - 1);
      SmallPowers(width - 1);
      FirstDigit(n, width);
      WordAsNumber(n % 2 == 1, Word(Digits(n / 2, width - 1)));
    }
  }

  lemma NoDigits(n: nat)
    requires n < Pow2(0)
    ensures Number(Word(Digits(n, 0))) == n
  {
  }

  lemma HalfBelow(n: nat, width: nat)
    requires width > 0 && n < Pow2(width)
    ensures n / 2 < Pow2(width - 1)
  {
  }

  lemma FirstDigit(n: nat, width: nat)
    requires width > 0
    ensures Word(Digits(n, width)) == Xor(Low(n % 2 == 1), Double(Word(Digits(n / 2, width - 1))))
  {
    hide Xor; hide Double; hide Low;
    var m := Digits(n, width);
    assert m[1..] == Digits(n / 2, width - 1);
  }

  lemma SmallPowers(width: nat)
    requires width <= 7
    ensures Pow2(width) <= 128
  {
    assert Pow2(4) == 16;
  }

  /** The cast of a byte is the word its bits spell, least significant first. */
  lemma ByteWordIsBits(b: byte)
    ensures ByteWord(b) == Word(Bits(b))
  {
    hide Word; hide Digits;
    assert Pow2(4) == 16 && Pow2(8) == 256;
    WordOfDigits(b, 8);
    WordsAsNumbers(Word(Bits(b)));
  }

  /** Dividing by a whole byte. */
  lemma DivideByte(s: bv32, b: byte)
    ensures Divide(s, Bits(b)) == Steps(Xor(s, ByteWord(b)), 8)
  {
    hide Xor; hide BitStep; hide Bits; hide ByteWord;
    DivideWindow(s, Bits(b));
    ByteWordIsBits(b);
  }

  /** `Crc32` of the integrity layer: a table of 256 precomputed steps. */
  class Table {
    const table: array<bv32>

    ghost predicate Valid()
      reads table
    {
      table.Length == 256 && forall i :: 0 <= i < 256 ==> table[i] == Steps(ByteWord(i), 8)
    }

    constructor ()
      ensures Valid() && fresh(table)
    {
      var t := Build();
      table := t;
    }

    static method Build() returns (t: array<bv32>)
      ensures fresh(t) && t.Length == 256
      ensures forall i :: 0 <= i < 256 ==> t[i] == Steps(ByteWord(i), 8)
    {
      hide *;
      t := new bv32[256];
      for i := 0 to 256
        invariant forall j :: 0 <= j < i ==> t[j] == Steps(ByteWord(j), 8)
      {
        var entry := EightSteps(ByteWord(i));
        t[i] := entry;
      }
    }

    static method EightSteps(start: bv32) returns (crc: bv32)
      ensures crc == Steps(start, 8)
    {
      hide BitStep;
      crc := start;
      for k := 0 to 8
        invariant Steps(crc, 8 - k) == Steps(start, 8)
      {
        crc := BitStep(crc);
      }
    }

    /** The table-driven checksum computes the reference division. */
    method ChecksumOf(data: bytes) returns (r: u32)
      requires Valid()
      ensures r == Checksum(data)
    {
      hide BitStep; hide Xor; hide Split; hide Shift8; hide Bits; hide ByteWord;
      var crc: bv32 := 0xFFFF_FFFF;
      assert data[0..] == data;
      for i := 0 to |data|
        invariant Divide(crc, MessageBits(data[i..])) == Register(data)
      {
        var rest := data[i..];
        assert rest[1..] == data[i + 1..];
        ByteUpdate(crc, data[i], MessageBits(data[i + 1..]));
        var index := Split(Xor(crc, ByteWord(data[i]))).0;
        IndexInTable(crc, data[i]);
        crc := Xor(Shift8(crc), table[index as int]);
      }
      assert data[|data|..] == [];
      r := Xor(crc, 0xFFFF_FFFF) as int;
    }
  }

  lemma ShiftDropsByte(s: bv32, b: byte)
    ensures Shift8(Xor(s, ByteWord(b))) == Shift8(s)
  {
    hide Xor; hide Half; hide Shift8; hide Shift7; hide Bits; hide Word; hide ByteWord;
    ByteWordIsBits(b);
    WordIsSmall(Bits(b));
    HalvesOfByte(ByteWord(b));
    Shift8OfXor(s, ByteWord(b));
    XorZero(Shift8(s));
  }

  lemma Shift8OfXor(a: bv32, b: bv32)
    ensures Shift8(Xor(a, b)) == Xor(Shift8(a), Shift8(b))
  {
    assert (a ^ b) >> 8 == (a >> 8) ^ (b >> 8);
  }

  lemma SplitIsSmall(y: bv32)
    ensures Split(y).0 as int < 256
  {
  }

  lemma IndexInTable(s: bv32, b: byte)
    ensures var i := Split(Xor(s, ByteWord(b))).0;
            0 <= i as int < 256 && ByteWord(i as int) == i
  {
    hide Xor; hide Split;
    SplitIsSmall(Xor(s, ByteWord(b)));
    WordsAsNumbers(Split(Xor(s, ByteWord(b))).0);
  }

  /** One turn of the checksum loop divides by one more byte. */
  lemma ByteUpdate(s: bv32, b: byte, rest: seq<bool>)
    ensures Divide(s, Bits(b) + rest)
         == Divide(Xor(Shift8(s), Steps(Split(Xor(s, ByteWord(b))).0, 8)), rest)
  {
    hide BitStep; hide Xor; hide Split; hide Shift8; hide Bits; hide ByteWord;
    DivideConcat(s, Bits(b), rest);
    DivideByte(s, b);
    TableStep(Xor(s, ByteWord(b)));
    ShiftDropsByte(s, b);
  }

  /** The checksum of four zero bytes, the payload of a DEL of the empty key. */
  lemma ZeroWord()
    ensures Checksum([0, 0, 0, 0]) == 0x2144_DF1C
  {
    hide *;
    ZeroByte(0xFFFF_FFFF, [0, 0, 0]);
    ZeroByte(0x2DFD_1072, [0, 0]);
    ZeroByte(0xBE26_ED00, [0]);
    ZeroByte(0x00BE_26ED, []);
    ZeroSteps0();
    ZeroSteps1();
    ZeroSteps2();
    ZeroSteps3();
    assert [0] + [] == [0];
    assert [0] + [0] == [0, 0];
    assert [0] + [0, 0] == [0, 0, 0];
    assert [0] + [0, 0, 0] == [0, 0, 0, 0];
    NoBytes(0xDEBB_20E3);
    RegisterIsDivision([0, 0, 0, 0]);
    ChecksumIsComplement([0, 0, 0, 0]);
    ZeroComplement();
  }

  lemma ZeroByte(s: bv32, rest: bytes)
    ensures Divide(s, MessageBits([0] + rest)) == Divide(Steps(s, 8), MessageBits(rest))
  {
    ZeroXor(s);
    hide Xor; hide BitStep; hide Bits; hide ByteWord;
    assert ([0] + rest)[1..] == rest;
    DivideConcat(s, Bits(0), MessageBits(rest));
    DivideByte(s, 0);
  }

  lemma ZeroXor(s: bv32)
    ensures Xor(s, ByteWord(0)) == s
  {
  }

  lemma NoBytes(s: bv32)
    ensures Divide(s, MessageBits([])) == s
  {
  }

  lemma ZeroComplement()
    ensures Xor(0xDEBB_20E3, 0xFFFF_FFFF) as int == 0x2144_DF1C
  {
  }

  lemma ZeroSteps0()
    ensures Steps(0xFFFF_FFFF, 8) == 0x2DFD_1072
  {
    ZeroTrace0();
    hide BitStep;
    assert Steps(0xB242_0DE3, 4) == 0x2DFD_1072;
    assert Steps(0xA49B_3D4F, 6) == 0x2DFD_1072;
  }

  lemma ZeroTrace0()
    ensures BitStep(0xFFFF_FFFF) == 0x9247_7CDF
    ensures BitStep(0x9247_7CDF) == 0xA49B_3D4F
    ensures BitStep(0xA49B_3D4F) == 0xBFF5_1D87
    ensures BitStep(0xBFF5_1D87) == 0xB242_0DE3
    ensures BitStep(0xB242_0DE3) == 0xB499_85D1
    ensures BitStep(0xB499_85D1) == 0xB7F4_41C8
    ensures BitStep(0xB7F4_41C8) == 0x5BFA_20E4
    ensures BitStep(0x5BFA_20E4) == 0x2DFD_1072
  {
  }

  lemma ZeroSteps1()
    ensures Steps(0x2DFD_1072, 8) == 0xBE26_ED00
  {
    ZeroTrace1();
    hide BitStep;
    assert Steps(0x39B1_F1CF, 4) == 0xBE26_ED00;
    assert Steps(0xE6C7_C73C, 6) == 0xBE26_ED00;
  }

  lemma ZeroTrace1()
    ensures BitStep(0x2DFD_1072) == 0x16FE_8839
    ensures BitStep(0x16FE_8839) == 0xE6C7_C73C
    ensures BitStep(0xE6C7_C73C) == 0x7363_E39E
    ensures BitStep(0x7363_E39E) == 0x39B1_F1CF
    ensures BitStep(0x39B1_F1CF) == 0xF160_7BC7
    ensures BitStep(0xF160_7BC7) == 0x9508_BEC3
    ensures BitStep(0x9508_BEC3) == 0xA73C_DC41
    ensures BitStep(0xA73C_DC41) == 0xBE26_ED00
  {
  }

  lemma ZeroSteps2()
    ensures Steps(0xBE26_ED00, 8) == 0x00BE_26ED
  {
    ZeroTrace2();
    hide BitStep;
    assert Steps(0x0BE2_6ED0, 4) == 0x00BE_26ED;
    assert Steps(0x2F89_BB40, 6) == 0x00BE_26ED;
  }

  lemma ZeroTrace2()
    ensures BitStep(0xBE26_ED00) == 0x5F13_7680
    ensures BitStep(0x5F13_7680) == 0x2F89_BB40
    ensures BitStep(0x2F89_BB40) == 0x17C4_DDA0
    ensures BitStep(0x17C4_DDA0) == 0x0BE2_6ED0
    ensures BitStep(0x0BE2_6ED0) == 0x05F1_3768
    ensures BitStep(0x05F1_3768) == 0x02F8_9BB4
    ensures BitStep(0x02F8_9BB4) == 0x017C_4DDA
    ensures BitStep(0x017C_4DDA) == 0x00BE_26ED
  {
  }

  lemma ZeroSteps3()
    ensures Steps(0x00BE_26ED, 8) == 0xDEBB_20E3
  {
    ZeroTrace3();
    hide BitStep;
    assert Steps(0x86D8_30BA, 4) == 0xDEBB_20E3;
    assert Steps(0x76F3_C82B, 6) == 0xDEBB_20E3;
  }

  lemma ZeroTrace3()
    ensures BitStep(0x00BE_26ED) == 0xEDE7_9056
    ensures BitStep(0xEDE7_9056) == 0x76F3_C82B
    ensures BitStep(0x76F3_C82B) == 0xD6C1_6735
    ensures BitStep(0xD6C1_6735) == 0x86D8_30BA
    ensures BitStep(0x86D8_30BA) == 0x436C_185D
    ensures BitStep(0x436C_185D) == 0xCC0E_8F0E
    ensures BitStep(0xCC0E_8F0E) == 0x6607_4787
    ensures BitStep(0x6607_4787) == 0xDEBB_20E3
  {
  }
}
