/** CRC-32, bit by bit: a register that is shifted right and fed back, as section 8 of RFC 1952 describes it. */
module CrcSpec {
  type word = bv32

  const POLY: word := 0xEDB88320

  function Xor(a: word, b: word): word { a ^ b }

  function Half(x: word): word { x >> 1 }

  predicate Odd(x: word) { x & 1 == 1 }

  function Word(b: bv8): word { b as word }

  /** Towards the high end by 1, 4, 8, 16 and 24 bits. */
  function Up1(x: word): word { x << 1 }
  function Up4(x: word): word { x << 4 }
  function Up8(x: word): word { x << 8 }
  function Up16(x: word): word { x << 16 }
  function Up24(x: word): word { x << 24 }

  function Step(c: word): word
  {
    if Odd(c) then Xor(Half(c), POLY) else Half(c)
  }

  function Steps(c: word, n: nat): word
    decreases n
  {
    if n == 0 then c else Steps(Step(c), n - 1)
  }

  /** One message bit enters the register. */
  function FeedBit(c: word, b: bool): word { Step(Xor(c, if b then 1 else 0)) }

  function FeedBits(c: word, bits: seq<bool>): word
    decreases |bits|
  {
    if bits == [] then c else FeedBits(FeedBit(c, bits[0]), bits[1..])
  }

  /** The n low bits, least significant first. */
  function WordBits(x: word, n: nat): (r: seq<bool>)
    ensures |r| == n
    decreases n
  {
    if n == 0 then [] else [Odd(x)] + WordBits(Half(x), n - 1)
  }

  /** The bits of a message in the order they enter the register. */
  function MessageBits(data: seq<bv8>): seq<bool>
    decreases |data|
  {
    if data == [] then [] else WordBits(Word(data[0]), 8) + MessageBits(data[1..])
  }

  /** The register after a message. */
  function Register(c: word, data: seq<bv8>): word
  {
    FeedBits(c, MessageBits(data))
  }

  function Not(x: word): word { !x }

  /** The CRC of a message that continues one with CRC previous. */
  function Crc(previous: word, data: seq<bv8>): word
  {
    Not(Register(Not(previous), data))
  }

  // ---- the step is linear and can be undone

  lemma {:induction false} XorAssociates(a: word, b: word, p: word)
    ensures Xor(a, Xor(b, p)) == Xor(Xor(a, b), p)
  {
  }

  lemma {:induction false} XorCommutes(a: word, b: word)
    ensures Xor(a, b) == Xor(b, a)
  {
  }

  lemma {:induction false} XorCancels(a: word, b: word)
    ensures Xor(a, 0) == a && Xor(a, a) == 0
    ensures Xor(a, b) == 0 ==> a == b
  {
  }

  lemma {:induction false} XorLaws(a: word, b: word, p: word)
    ensures Xor(Xor(a, p), b) == Xor(Xor(a, b), p) && Xor(Xor(a, p), Xor(b, p)) == Xor(a, b)
    ensures Xor(a, Xor(b, p)) == Xor(Xor(a, b), p) && Xor(a, 0) == a
    ensures Xor(a, b) == 0 <==> a == b
  {
    hide Xor;
    XorAssociates(a, p, b);
    XorCommutes(p, b);
    XorAssociates(a, b, p);
    XorAssociates(Xor(a, p), b, p);
    XorAssociates(Xor(a, b), p, p);
    XorCancels(p, p);
    XorCancels(a, b);
    XorCancels(Xor(a, b), p);
  }

  lemma {:induction false} XorHalf(a: word, b: word)
    ensures Half(Xor(a, b)) == Xor(Half(a), Half(b))
  {
  }

  lemma {:induction false} XorOdd(a: word, b: word)
    ensures Odd(Xor(a, b)) <==> (Odd(a) <==> !Odd(b))
  {
    assert (a ^ b) & 1 == (a & 1) ^ (b & 1);
    assert (a & 1 == 0 || a & 1 == 1) && (b & 1 == 0 || b & 1 == 1);
  }

  lemma {:induction false} StepLinear(a: word, b: word)
    ensures Step(Xor(a, b)) == Xor(Step(a), Step(b))
  {
    hide Xor, Half, Odd;
    XorHalf(a, b);
    XorOdd(a, b);
    var x, y := Half(a), Half(b);
    XorLaws(x, y, POLY);
  }

  lemma {:induction false} StepsLinear(a: word, b: word, n: nat)
    ensures Steps(Xor(a, b), n) == Xor(Steps(a, n), Steps(b, n))
    decreases n
  {
    hide Step, Xor;
    if n > 0 {
      StepLinear(a, b);
      StepsLinear(Step(a), Step(b), n - 1);
    }
  }

  lemma {:induction false} StepsAdd(c: word, m: nat, n: nat)
    ensures Steps(c, m + n) == Steps(Steps(c, m), n)
    decreases m
  {
    hide Step;
    if m > 0 {
      StepsAdd(Step(c), m - 1, n);
    }
  }

  lemma {:induction false} NeverZero(d: word)
    ensures Xor(Half(d), POLY) != 0
    ensures !Odd(d) && Half(d) == 0 ==> d == 0
  {
  }

  lemma {:induction false} StepInjective(a: word, b: word)
    requires Step(a) == Step(b)
    ensures a == b
  {
    hide Xor, Half, Odd;
    var d := Xor(a, b);
    StepLinear(a, b);
    XorLaws(Step(a), Step(b), 0);
    NeverZero(d);
    XorLaws(a, b, 0);
  }

  lemma {:induction false} StepsInjective(a: word, b: word, n: nat)
    requires Steps(a, n) == Steps(b, n)
    ensures a == b
    decreases n
  {
    hide Step;
    if n > 0 {
      StepsInjective(Step(a), Step(b), n - 1);
      StepInjective(a, b);
    }
  }

  // ---- words that have not come down to the low end yet

  lemma {:induction false} UpDown(x: word)
    requires x >> 31 == 0
    ensures Half(Up1(x)) == x && !Odd(Up1(x))
  {
  }

  lemma {:induction false} StepUp(x: word)
    requires x >> 31 == 0
    ensures Step(Up1(x)) == x
  {
    UpDown(x);
  }

  lemma {:induction false} FourUps(x: word)
    requires x >> 28 == 0
    ensures x >> 31 == 0 && Up1(x) >> 31 == 0 && Up1(Up1(x)) >> 31 == 0 && Up1(Up1(Up1(x))) >> 31 == 0
    ensures Up4(x) == Up1(Up1(Up1(Up1(x))))
  {
  }

  lemma {:induction false} StepsUp4(x: word)
    requires x >> 28 == 0
    ensures Steps(Up4(x), 4) == x
  {
    FourUps(x);
    hide Step, Up1, Up4;
    var x1 := Up1(x);
    var x2 := Up1(x1);
    var x3 := Up1(x2);
    StepUp(x3);
    StepUp(x2);
    StepUp(x1);
    StepUp(x);
    assert Steps(Up4(x), 4) == Steps(x3, 3) == Steps(x2, 2) == Steps(x1, 1) == Steps(x, 0);
  }

  lemma {:induction false} StepsUp8(x: word)
    requires x >> 24 == 0
    ensures Steps(Up8(x), 8) == x
  {
    EightUps(x);
    hide Steps, Up4, Up8;
    StepsUp4(Up4(x));
    StepsUp4(x);
    StepsAdd(Up8(x), 4, 4);
  }

  lemma {:induction false} EightUps(x: word)
    requires x >> 24 == 0
    ensures Up8(x) == Up4(Up4(x)) && Up4(x) >> 28 == 0 && x >> 28 == 0
  {
  }

  lemma {:induction false} ByteUps(x: word)
    requires x >> 8 == 0
    ensures x >> 24 == 0 && Up8(x) >> 24 == 0 && Up16(x) >> 24 == 0
    ensures Up16(x) == Up8(Up8(x)) && Up24(x) == Up8(Up16(x))
  {
  }

  lemma {:induction false} StepsUp(x: word)
    requires x >> 8 == 0
    ensures Steps(Up8(x), 8) == x && Steps(Up16(x), 16) == x && Steps(Up24(x), 24) == x
  {
    ByteUps(x);
    hide Steps, Up8, Up16, Up24;
    StepsUp8(x);
    StepsUp8(Up8(x));
    StepsAdd(Up16(x), 8, 8);
    StepsUp8(Up16(x));
    StepsAdd(Up24(x), 8, 16);
  }

  /** x has no bits from n on. */
  predicate Within(x: word, n: nat)
    decreases n
  {
    if n == 0 then x == 0 else Within(Half(x), n - 1)
  }

  lemma {:induction false} SplitLow(x: word)
    ensures x == Xor(if Odd(x) then 1 else 0, Up1(Half(x))) && Half(x) >> 31 == 0
  {
  }

  /** The low bit enters now, the others when they have come down. */
  lemma {:induction false} FedStep(c: word, x: word)
    ensures Step(Xor(c, x)) == Xor(FeedBit(c, Odd(x)), Half(x))
  {
    SplitLow(x);
    var low, high := if Odd(x) then 1 else 0, Half(x);
    hide Step, Xor, Odd, Half, Up1;
    StepUp(high);
    XorLaws(c, low, Up1(high));
    StepLinear(Xor(c, low), Up1(high));
  }

  /** Bits may be put into the register before they are due. */
  lemma {:induction false} FedTogether(c: word, x: word, n: nat)
    requires Within(x, n)
    ensures Steps(Xor(c, x), n) == FeedBits(c, WordBits(x, n))
    decreases n
  {
    hide Step, Xor, FeedBit, Odd, Half;
    if n == 0 {
      XorLaws(c, c, 0);
    } else {
      FedStep(c, x);
      FedTogether(FeedBit(c, Odd(x)), Half(x), n - 1);
      var bits := WordBits(x, n);
      assert bits[0] == Odd(x) && bits[1..] == WordBits(Half(x), n - 1);
    }
  }

  lemma {:induction false} ByteWithin(b: bv8)
    ensures Within(Word(b), 8)
  {
    var x := Word(b);
    EightHalves(b);
    hide Half, Word;
    var x1 := Half(x);
    var x2 := Half(x1);
    var x3 := Half(x2);
    var x4 := Half(x3);
    var x5 := Half(x4);
    var x6 := Half(x5);
    var x7 := Half(x6);
    assert Within(x7, 1);
    assert Within(x5, 3);
    assert Within(x3, 5);
    assert Within(x1, 7);
  }

  lemma {:induction false} EightHalves(b: bv8)
    ensures Half(Half(Half(Half(Half(Half(Half(Half(Word(b))))))))) == 0
  {
  }

  // ---- a byte at a time

  function ByteStep(c: word, b: bv8): word { Steps(Xor(c, Word(b)), 8) }

  lemma {:induction false} FeedConcat(c: word, a: seq<bool>, b: seq<bool>)
    ensures FeedBits(c, a + b) == FeedBits(FeedBits(c, a), b)
    decreases |a|
  {
    hide FeedBit;
    if a == [] {
      assert a + b == b;
    } else {
      FeedConcat(FeedBit(c, a[0]), a[1..], b);
      assert (a + b)[1..] == a[1..] + b;
    }
  }

  lemma {:induction false} RegisterFirst(c: word, data: seq<bv8>)
    requires data != []
    ensures Register(c, data) == Register(ByteStep(c, data[0]), data[1..])
  {
    hide FeedBits, WordBits, Steps, Within, Word, Xor;
    ByteWithin(data[0]);
    FedTogether(c, Word(data[0]), 8);
    FeedConcat(c, WordBits(Word(data[0]), 8), MessageBits(data[1..]));
  }

  lemma {:induction false} MessageConcat(a: seq<bv8>, b: seq<bv8>)
    ensures MessageBits(a + b) == MessageBits(a) + MessageBits(b)
    decreases |a|
  {
    hide WordBits, Word;
    if a == [] {
      assert a + b == b;
    } else {
      MessageConcat(a[1..], b);
      assert (a + b)[1..] == a[1..] + b;
    }
  }

  lemma {:induction false} RegisterConcat(c: word, a: seq<bv8>, b: seq<bv8>)
    ensures Register(c, a + b) == Register(Register(c, a), b)
  {
    hide FeedBits, MessageBits;
    MessageConcat(a, b);
    FeedConcat(c, MessageBits(a), MessageBits(b));
  }

  lemma {:induction false} RegisterLast(c: word, data: seq<bv8>, b: bv8)
    ensures Register(c, data + [b]) == ByteStep(Register(c, data), b)
  {
    hide Register, ByteStep;
    RegisterConcat(c, data, [b]);
    RegisterFirst(Register(c, data), [b]);
    assert [b][1..] == [];
    RegisterNone(ByteStep(Register(c, data), b));
  }

  lemma {:induction false} RegisterNone(c: word)
    ensures Register(c, []) == c
  {
  }

  /** A checksum taken piece by piece is the checksum of the whole. */
  lemma {:induction false} CrcConcat(previous: word, a: seq<bv8>, b: seq<bv8>)
    ensures Crc(Crc(previous, a), b) == Crc(previous, a + b)
  {
    hide Register, Not;
    RegisterConcat(Not(previous), a, b);
    Twice(Register(Not(previous), a));
  }

  lemma {:induction false} Twice(x: word)
    ensures Not(Not(x)) == x
  {
  }

  // ---- four bytes at a time

  function LittleEndian(b0: bv8, b1: bv8, b2: bv8, b3: bv8): word
  {
    Xor(Xor(Word(b0), Up8(Word(b1))), Xor(Up16(Word(b2)), Up24(Word(b3))))
  }

  lemma {:induction false} ByteSmall(b: bv8)
    ensures Word(b) >> 8 == 0
  {
  }

  lemma {:induction false} LateByte(c: word, b: bv8)
    ensures Xor(Steps(c, 8), Word(b)) == Steps(Xor(c, Up8(Word(b))), 8)
    ensures Xor(Steps(c, 16), Word(b)) == Steps(Xor(c, Up16(Word(b))), 16)
    ensures Xor(Steps(c, 24), Word(b)) == Steps(Xor(c, Up24(Word(b))), 24)
  {
    hide Steps, Xor, Word, Up8, Up16, Up24;
    var x := Word(b);
    ByteSmall(b);
    StepsUp(x);
    StepsLinear(c, Up8(x), 8);
    StepsLinear(c, Up16(x), 16);
    StepsLinear(c, Up24(x), 24);
  }

  lemma {:induction false} FourBytes(c: word, b0: bv8, b1: bv8, b2: bv8, b3: bv8)
    ensures ByteStep(ByteStep(ByteStep(ByteStep(c, b0), b1), b2), b3) == Steps(Xor(c, LittleEndian(b0, b1, b2, b3)), 32)
  {
    hide Steps, Xor, Word, Up8, Up16, Up24;
    var c0 := Xor(c, Word(b0));
    var c1 := Xor(c0, Up8(Word(b1)));
    var c2 := Xor(c1, Up16(Word(b2)));
    var c3 := Xor(c2, Up24(Word(b3)));
    LateByte(c0, b1);
    StepsAdd(c1, 8, 8);
    LateByte(c1, b2);
    StepsAdd(c2, 16, 8);
    LateByte(c2, b3);
    StepsAdd(c3, 24, 8);
    XorFour(c, Word(b0), Up8(Word(b1)), Up16(Word(b2)), Up24(Word(b3)));
  }

  lemma {:induction false} XorFour(c: word, x0: word, x1: word, x2: word, x3: word)
    ensures Xor(Xor(Xor(Xor(c, x0), x1), x2), x3) == Xor(c, Xor(Xor(x0, x1), Xor(x2, x3)))
  {
    hide Xor;
    XorLaws(c, x0, x1);
    XorLaws(Xor(c, Xor(x0, x1)), x2, x3);
    XorLaws(c, Xor(x0, x1), Xor(x2, x3));
  }

  lemma {:induction false} RegisterFour(c: word, b0: bv8, b1: bv8, b2: bv8, b3: bv8)
    ensures Register(c, [b0, b1, b2, b3]) == Steps(Xor(c, LittleEndian(b0, b1, b2, b3)), 32)
  {
    hide Register, ByteStep, Steps, LittleEndian, Xor;
    FourBytes(c, b0, b1, b2, b3);
    RegisterNone(c);
    assert [b0, b1, b2, b3] == [] + [b0] + [b1] + [b2] + [b3];
    RegisterLast(c, [], b0);
    RegisterLast(c, [] + [b0], b1);
    RegisterLast(c, [] + [b0] + [b1], b2);
    RegisterLast(c, [] + [b0] + [b1] + [b2], b3);
  }

  // ---- the inversions

  /** The bytes of a word, low byte first, as a checksum stands behind its data. */
  function Bytes(x: word): (r: seq<bv8>)
    ensures |r| == 4
  {
    [(x & 0xFF) as bv8, ((x >> 8) & 0xFF) as bv8, ((x >> 16) & 0xFF) as bv8, ((x >> 24) & 0xFF) as bv8]
  }

  lemma {:induction false} BytesBack(x: word)
    ensures LittleEndian(Bytes(x)[0], Bytes(x)[1], Bytes(x)[2], Bytes(x)[3]) == x
  {
  }

  lemma {:induction false} NotOnes(x: word)
    ensures Xor(x, Not(x)) == 0xFFFF_FFFF
  {
  }

  lemma {:induction false} EightSteps(c: word)
    ensures Steps(c, 8) == Step(Step(Step(Step(Step(Step(Step(Step(c))))))))
  {
    hide Step;
    var d := Step(Step(Step(Step(c))));
    assert Steps(c, 4) == d by { FourSteps(c); }
    FourSteps(d);
    StepsAdd(c, 4, 4);
  }

  lemma {:induction false} FourSteps(c: word)
    ensures Steps(c, 4) == Step(Step(Step(Step(c))))
  {
    hide Step;
    assert Steps(c, 4) == Steps(Step(c), 3) == Steps(Step(Step(c)), 2) == Steps(Step(Step(Step(c))), 1);
  }

  lemma {:induction false} OnesShifted()
    ensures Not(Steps(0xFFFF_FFFF, 32)) == 0x2144_DF1C
  {
    EightSteps(0xFFFF_FFFF);
    EightSteps(0x2DFD_1072);
    EightSteps(0xBE26_ED00);
    EightSteps(0x00BE_26ED);
    hide Steps;
    StepsAdd(0xFFFF_FFFF, 8, 24);
    StepsAdd(0x2DFD_1072, 8, 16);
    StepsAdd(0xBE26_ED00, 8, 8);
  }

  /**
   The CRC of data with its own CRC behind it, low byte first, is the same for all data: the inversions before and
   after are what makes it so, and what makes zeros in front count.
   */
  lemma {:induction false} Residue(previous: word, data: seq<bv8>)
    ensures Crc(previous, data + Bytes(Crc(previous, data))) == 0x2144_DF1C
  {
    hide Register, Steps, LittleEndian, Xor, Not, Bytes;
    var r := Register(Not(previous), data);
    var b := Bytes(Not(r));
    RegisterConcat(Not(previous), data, b);
    assert b == [b[0], b[1], b[2], b[3]];
    RegisterFour(r, b[0], b[1], b[2], b[3]);
    BytesBack(Not(r));
    NotOnes(r);
    OnesShifted();
  }

  lemma {:induction false} OneMore(data: seq<bv8>, c: word, b: bv8) returns (data2: seq<bv8>, d: word)
    requires Register(0xFFFF_FFFF, data) == c
    ensures data2 == data + [b] && Register(0xFFFF_FFFF, data2) == d
    ensures var x := Xor(c, Word(b)); d == Step(Step(Step(Step(Step(Step(Step(Step(x))))))))
  {
    hide Register, Steps, Step, Xor, Word;
    data2, d := data + [b], ByteStep(c, b);
    RegisterLast(0xFFFF_FFFF, data, b);
    EightSteps(Xor(c, Word(b)));
  }

  /** The check value of this CRC: that of the nine digits. */
  lemma {:induction false} CheckValue()
    ensures Crc(0, [0x31, 0x32, 0x33, 0x34, 0x35, 0x36, 0x37, 0x38, 0x39]) == 0xCBF4_3926
  {
    hide Register;
    RegisterNone(0xFFFF_FFFF);
    var data, c := [], 0xFFFF_FFFF;
    data, c := OneMore(data, c, 0x31);
    assert c == 0x7C23_1048;
    data, c := OneMore(data, c, 0x32);
    assert c == 0xB0AC_BB32;
    data, c := OneMore(data, c, 0x33);
    assert c == 0x77B7_9C2D;
    data, c := OneMore(data, c, 0x34);
    assert c == 0x641C_1F5C;
    data, c := OneMore(data, c, 0x35);
    assert c == 0x340A_C5E3;
    data, c := OneMore(data, c, 0x36);
    assert c == 0xF68D_2C9E;
    data, c := OneMore(data, c, 0x37);
    assert c == 0xAFFC_9660;
    data, c := OneMore(data, c, 0x38);
    assert c == 0x651F_2550;
    data, c := OneMore(data, c, 0x39);
    assert c == 0x340B_C6D9;
    assert data == [0x31, 0x32, 0x33, 0x34, 0x35, 0x36, 0x37, 0x38, 0x39];
  }

  // ---- what the checksum detects

  lemma {:induction false} RegisterInjective(a: word, b: word, data: seq<bv8>)
    requires Register(a, data) == Register(b, data)
    ensures a == b
    decreases |data|
  {
    hide Register, Steps, Xor, Word;
    if data == [] {
      RegisterNone(a);
      RegisterNone(b);
    } else {
      RegisterFirst(a, data);
      RegisterFirst(b, data);
      RegisterInjective(ByteStep(a, data[0]), ByteStep(b, data[0]), data[1..]);
      StepsInjective(Xor(a, Word(data[0])), Xor(b, Word(data[0])), 8);
      SameXor(Word(data[0]), a, b);
    }
  }

  lemma {:induction false} SameBytes(a: seq<bv8>, b: seq<bv8>)
    requires |a| == 4 && |b| == 4 && LittleEndian(a[0], a[1], a[2], a[3]) == LittleEndian(b[0], b[1], b[2], b[3])
    ensures a == b
  {
    hide LittleEndian;
    LowestByte(a[0], a[1], a[2], a[3]);
    LowestByte(b[0], b[1], b[2], b[3]);
  }

  lemma {:induction false} LowestByte(b0: bv8, b1: bv8, b2: bv8, b3: bv8)
    ensures var x := LittleEndian(b0, b1, b2, b3);
      && (x & 0xFF) as bv8 == b0 && ((x >> 8) & 0xFF) as bv8 == b1
      && ((x >> 16) & 0xFF) as bv8 == b2 && ((x >> 24) & 0xFF) as bv8 == b3
  {
  }

  /** Changing up to four adjacent bytes, whatever surrounds them, always changes the CRC. */
  lemma {:induction false} BurstDetected(previous: word, before: seq<bv8>, a: seq<bv8>, b: seq<bv8>, after: seq<bv8>)
    requires |a| == 4 && |b| == 4 && Crc(previous, before + a + after) == Crc(previous, before + b + after)
    ensures a == b
  {
    hide Register, Steps, LittleEndian, Xor, Not;
    var start := Not(previous);
    var c := Register(start, before);
    Twice(Register(start, before + a + after));
    Twice(Register(start, before + b + after));
    RegisterConcat(start, before + a, after);
    RegisterConcat(start, before + b, after);
    RegisterInjective(Register(start, before + a), Register(start, before + b), after);
    RegisterConcat(start, before, a);
    RegisterConcat(start, before, b);
    assert a == [a[0], a[1], a[2], a[3]] && b == [b[0], b[1], b[2], b[3]];
    RegisterFour(c, a[0], a[1], a[2], a[3]);
    RegisterFour(c, b[0], b[1], b[2], b[3]);
    var x, y := LittleEndian(a[0], a[1], a[2], a[3]), LittleEndian(b[0], b[1], b[2], b[3]);
    StepsInjective(Xor(c, x), Xor(c, y), 32);
    SameXor(c, x, y);
    SameBytes(a, b);
  }

  lemma {:induction false} SameXor(c: word, x: word, y: word)
    requires Xor(c, x) == Xor(c, y) || Xor(x, c) == Xor(y, c)
    ensures x == y
  {
  }
}
