/** The two CRC-32 implementations: slicing by eight with byte tables, and sixteen nibble entries. */
module Crcs {
  import opened CrcSpec

  // ---- table lookups

  function LowByte(x: word): bv8 { (x & 0xFF) as bv8 }
  function Down4(x: word): word { x >> 4 }
  function Down8(x: word): word { x >> 8 }
  function Down16(x: word): word { x >> 16 }
  function Down24(x: word): word { x >> 24 }

  function Index(b: bv8): (i: nat)
    ensures i < 256
  {
    b as int
  }

  function Unindex(i: nat): bv8
    requires i < 256
  {
    i as bv8
  }

  lemma {:induction false} IndexIsOne(b: bv8)
    ensures Unindex(Index(b)) == b
  {
  }

  /** Row k takes a byte through k + 1 bytes' worth of steps. */
  ghost predicate TablesOk(t: array2<word>)
    reads t
  {
    && t.Length0 == 8 && t.Length1 == 256
    && forall k: nat, b: bv8 :: k < 8 ==> t[k, Index(b)] == Steps(Word(b), 8 * (k + 1))
  }

  lemma {:induction false} HighAndLow(c: word)
    ensures c == Xor(Up8(Down8(c)), Word(LowByte(c))) && Down8(c) >> 24 == 0
  {
  }

  /** Eight steps are a shift and one lookup. */
  lemma {:induction false} EightSteps(c: word)
    ensures Steps(c, 8) == Xor(Down8(c), Steps(Word(LowByte(c)), 8))
  {
    HighAndLow(c);
    hide Steps, Xor, Word, LowByte, Up8, Down8;
    StepsUp8(Down8(c));
    StepsLinear(Up8(Down8(c)), Word(LowByte(c)), 8);
  }

  lemma {:induction false} LowByteXor(c: word, b: bv8)
    ensures Down8(Xor(c, Word(b))) == Down8(c) && LowByte(Xor(c, Word(b))) == LowByte(c) ^ b
  {
  }

  lemma {:induction false} ByteLookup(c: word, b: bv8)
    ensures ByteStep(c, b) == Xor(Down8(c), Steps(Word(LowByte(c) ^ b), 8))
  {
    hide Steps, Xor, Word, LowByte, Down8;
    EightSteps(Xor(c, Word(b)));
    LowByteXor(c, b);
  }

  /** Eight single steps from an index. */
  method FirstEntry(i: nat) returns (crc: word)
    requires i < 256
    ensures forall b: bv8 :: Index(b) == i ==> crc == Steps(Word(b), 8)
  {
    hide Steps, Word, Index, Unindex, Step;
    crc := Word(Unindex(i));
    for j := 0 to 8
      invariant Steps(Word(Unindex(i)), 8) == Steps(crc, 8 - j)
    {
      OneStep(crc, 8 - j);
      crc := Step(crc);
    }
    NoStep(crc);
    forall b: bv8 | Index(b) == i
      ensures b == Unindex(i)
    {
      IndexIsOne(b);
    }
  }

  /** Eight steps more than the entry above. */
  method NextEntry(t: array2<word>, c: word, ghost i: nat, ghost k: nat) returns (next: word)
    requires t.Length0 == 8 && t.Length1 == 256
    requires forall b: bv8 :: t[0, Index(b)] == Steps(Word(b), 8)
    requires forall b: bv8 :: Index(b) == i ==> c == Steps(Word(b), 8 * k)
    ensures forall b: bv8 :: Index(b) == i ==> next == Steps(Word(b), 8 * (k + 1))
  {
    hide Steps, Word, Index, Xor, Down8, LowByte;
    EightSteps(c);
    forall b: bv8 | Index(b) == i
      ensures Steps(Word(b), 8 * (k + 1)) == Steps(c, 8)
    {
      StepsAdd(Word(b), 8 * k, 8);
    }
    next := Xor(Down8(c), t[0, Index(LowByte(c))]);
  }

  /** The generator that the tables come from. */
  method MakeTables() returns (t: array2<word>)
    ensures TablesOk(t) && fresh(t)
  {
    hide Steps, Word, Index;
    t := new word[8, 256];
    for i := 0 to 256
      invariant forall b: bv8 :: Index(b) < i ==> t[0, Index(b)] == Steps(Word(b), 8)
    {
      t[0, i] := FirstEntry(i);
    }
    for i := 0 to 256
      invariant forall b: bv8 :: t[0, Index(b)] == Steps(Word(b), 8)
      invariant forall m: nat, b: bv8 :: m < 8 && Index(b) < i ==> t[m, Index(b)] == Steps(Word(b), 8 * (m + 1))
    {
      for k := 1 to 8
        invariant forall b: bv8 :: t[0, Index(b)] == Steps(Word(b), 8)
        invariant forall m: nat, b: bv8 :: m < 8 && Index(b) < i ==> t[m, Index(b)] == Steps(Word(b), 8 * (m + 1))
        invariant forall m: nat, b: bv8 :: m < k && Index(b) == i ==> t[m, Index(b)] == Steps(Word(b), 8 * (m + 1))
      {
        t[k, i] := NextEntry(t, t[k - 1, i], i, k);
      }
    }
  }

  lemma {:induction false} OneStep(c: word, n: nat)
    requires n > 0
    ensures Steps(c, n) == Steps(Step(c), n - 1)
  {
  }

  lemma {:induction false} NoStep(c: word)
    ensures Steps(c, 0) == c
  {
  }

  // ---- eight bytes at a time

  /** Four bytes as the machine loads them. */
  function Load(data: seq<bv8>, bigEndian: bool): word
    requires |data| == 4
  {
    if bigEndian then LittleEndian(data[3], data[2], data[1], data[0])
      else LittleEndian(data[0], data[1], data[2], data[3])
  }

  function SwapBytes(x: word): word
  {
    (x >> 24) | ((x >> 8) & 0x0000FF00) | ((x << 8) & 0x00FF0000) | (x << 24)
  }

  lemma {:induction false} SwapIs(x: word)
    ensures LowByte(SwapBytes(x)) == LowByte(Down24(x)) && LowByte(Down8(SwapBytes(x))) == LowByte(Down16(x))
    ensures LowByte(Down16(SwapBytes(x))) == LowByte(Down8(x)) && LowByte(Down24(SwapBytes(x))) == LowByte(x)
  {
  }

  lemma {:induction false} SwapXor(x: word, y: word)
    ensures Xor(SwapBytes(x), SwapBytes(y)) == SwapBytes(Xor(x, y))
  {
  }

  lemma {:induction false} SwapLoad(b0: bv8, b1: bv8, b2: bv8, b3: bv8)
    ensures LittleEndian(b3, b2, b1, b0) == SwapBytes(LittleEndian(b0, b1, b2, b3))
  {
    BytesOf(b0, b1, b2, b3);
    hide LittleEndian, SwapBytes, LowByte, Down8, Down16, Down24;
    var x := LittleEndian(b0, b1, b2, b3);
    SwapIs(x);
    WordOfBytes(SwapBytes(x));
  }

  lemma {:induction false} BytesOf(b0: bv8, b1: bv8, b2: bv8, b3: bv8)
    ensures var x := LittleEndian(b0, b1, b2, b3);
      LowByte(x) == b0 && LowByte(Down8(x)) == b1 && LowByte(Down16(x)) == b2 && LowByte(Down24(x)) == b3
  {
    hide LittleEndian;
    LowestByte(b0, b1, b2, b3);
  }

  lemma {:induction false} WordOfBytes(x: word)
    ensures x == LittleEndian(LowByte(x), LowByte(Down8(x)), LowByte(Down16(x)), LowByte(Down24(x)))
  {
  }

  /** What the steps make of each byte of a word. */
  lemma {:induction false} FourLookups(x: word, n: nat)
    ensures Steps(x, 32 + n) == Xor(
      Xor(Steps(Word(LowByte(x)), 32 + n), Steps(Word(LowByte(Down8(x))), 24 + n)),
      Xor(Steps(Word(LowByte(Down16(x))), 16 + n), Steps(Word(LowByte(Down24(x))), 8 + n)))
  {
    WordOfBytes(x);
    var b0, b1, b2, b3 := LowByte(x), LowByte(Down8(x)), LowByte(Down16(x)), LowByte(Down24(x));
    hide Steps, Xor, Word, LowByte, Down8, Down16, Down24, Up8, Up16, Up24;
    var m := 32 + n;
    StepsLinear(Xor(Word(b0), Up8(Word(b1))), Xor(Up16(Word(b2)), Up24(Word(b3))), m);
    StepsLinear(Word(b0), Up8(Word(b1)), m);
    StepsLinear(Up16(Word(b2)), Up24(Word(b3)), m);
    RaisedByte(b1, n);
    RaisedByte(b2, n);
    RaisedByte(b3, n);
  }

  lemma {:induction false} RaisedByte(b: bv8, n: nat)
    ensures Steps(Up8(Word(b)), 32 + n) == Steps(Word(b), 24 + n)
    ensures Steps(Up16(Word(b)), 32 + n) == Steps(Word(b), 16 + n)
    ensures Steps(Up24(Word(b)), 32 + n) == Steps(Word(b), 8 + n)
  {
    hide Steps, Word, Up8, Up16, Up24;
    ByteSmall(b);
    StepsUp(Word(b));
    StepsAdd(Up8(Word(b)), 8, 24 + n);
    StepsAdd(Up16(Word(b)), 16, 16 + n);
    StepsAdd(Up24(Word(b)), 24, 8 + n);
  }

  /** The register after eight bytes, from the two words they form. */
  lemma {:induction false} EightBytes(c: word, data: seq<bv8>)
    requires |data| == 8
    ensures Register(c, data)
      == Xor(Steps(Xor(Load(data[..4], false), c), 64), Steps(Load(data[4..], false), 32))
  {
    hide Register, Steps, Xor, LittleEndian;
    assert data == data[..4] + data[4..];
    RegisterConcat(c, data[..4], data[4..]);
    var p, q := data[..4], data[4..];
    assert p == [p[0], p[1], p[2], p[3]] && q == [q[0], q[1], q[2], q[3]];
    RegisterFour(c, p[0], p[1], p[2], p[3]);
    var c1 := Register(c, p);
    RegisterFour(c1, q[0], q[1], q[2], q[3]);
    StepsLinear(c1, Load(q, false), 32);
    StepsAdd(Xor(c, Load(p, false)), 32, 32);
    XorCommutes(c, Load(p, false));
  }

  /** The lookups for both words; row 7 is for the byte that came first. */
  function Sliced(t: array2<word>, o0: bv8, o1: bv8, o2: bv8, o3: bv8, w0: bv8, w1: bv8, w2: bv8, w3: bv8): word
    requires t.Length0 == 8 && t.Length1 == 256
    reads t
  {
    Xor(Xor(Xor(Xor(Xor(Xor(Xor(
      t[0, Index(w3)], t[1, Index(w2)]), t[2, Index(w1)]), t[3, Index(w0)]),
      t[4, Index(o3)]), t[5, Index(o2)]), t[6, Index(o1)]), t[7, Index(o0)])
  }

  lemma {:induction false} XorEight(a: word, b: word, c: word, d: word, e: word, f: word, g: word, h: word)
    ensures Xor(Xor(Xor(Xor(Xor(Xor(Xor(a, b), c), d), e), f), g), h)
      == Xor(Xor(Xor(h, g), Xor(f, e)), Xor(Xor(d, c), Xor(b, a)))
  {
    hide Xor;
    var p := Xor(Xor(d, c), Xor(b, a));
    XorCommutes(d, c);
    XorCommutes(b, a);
    XorAssociates(Xor(a, b), c, d);
    XorCommutes(Xor(d, c), Xor(b, a));
    assert Xor(Xor(Xor(a, b), c), d) == p;
    XorAssociates(p, e, f);
    XorCommutes(e, f);
    XorAssociates(Xor(p, Xor(f, e)), g, h);
    XorCommutes(g, h);
    XorAssociates(p, Xor(f, e), Xor(h, g));
    XorCommutes(Xor(f, e), Xor(h, g));
    XorCommutes(p, Xor(Xor(h, g), Xor(f, e)));
  }

  lemma {:induction false} SlicedIs(t: array2<word>, one: word, two: word)
    requires TablesOk(t)
    ensures Sliced(t, LowByte(one), LowByte(Down8(one)), LowByte(Down16(one)), LowByte(Down24(one)),
                   LowByte(two), LowByte(Down8(two)), LowByte(Down16(two)), LowByte(Down24(two)))
      == Xor(Steps(one, 64), Steps(two, 32))
  {
    hide Steps, Xor, Word, LowByte, Down8, Down16, Down24, Index;
    var o0, o1, o2, o3 := LowByte(one), LowByte(Down8(one)), LowByte(Down16(one)), LowByte(Down24(one));
    var w0, w1, w2, w3 := LowByte(two), LowByte(Down8(two)), LowByte(Down16(two)), LowByte(Down24(two));
    FourLookups(one, 32);
    FourLookups(two, 0);
    XorEight(t[0, Index(w3)], t[1, Index(w2)], t[2, Index(w1)], t[3, Index(w0)],
             t[4, Index(o3)], t[5, Index(o2)], t[6, Index(o1)], t[7, Index(o0)]);
  }

  /** Eight bytes through both branches of xs_crc32's main loop. */
  method SliceEight(t: array2<word>, crc0: word, data: seq<bv8>, bigEndian: bool) returns (crc: word)
    requires TablesOk(t) && |data| == 8
    ensures crc == Register(crc0, data)
  {
    hide Steps, Xor, Word, LowByte, Down8, Down16, Down24, Index, LittleEndian, Register, SwapBytes;
    ghost var littleOne, littleTwo := Xor(Load(data[..4], false), crc0), Load(data[4..], false);
    EightBytes(crc0, data);
    SlicedIs(t, littleOne, littleTwo);
    if bigEndian {
      var one := Xor(Load(data[..4], true), SwapBytes(crc0));
      var two := Load(data[4..], true);
      SwapLoad(data[..4][0], data[..4][1], data[..4][2], data[..4][3]);
      SwapLoad(data[4..][0], data[4..][1], data[4..][2], data[4..][3]);
      SwapXor(Load(data[..4], false), crc0);
      SwapIs(littleOne);
      SwapIs(littleTwo);
      crc := Sliced(t, LowByte(Down24(one)), LowByte(Down16(one)), LowByte(Down8(one)), LowByte(one),
                    LowByte(Down24(two)), LowByte(Down16(two)), LowByte(Down8(two)), LowByte(two));
    } else {
      var one := Xor(Load(data[..4], false), crc0);
      var two := Load(data[4..], false);
      crc := Sliced(t, LowByte(one), LowByte(Down8(one)), LowByte(Down16(one)), LowByte(Down24(one)),
                    LowByte(two), LowByte(Down8(two)), LowByte(Down16(two)), LowByte(Down24(two)));
    }
  }

  /** xs_crc32: eight bytes at a time, then the rest singly. */
  method Crc32(t: array2<word>, previous: word, data: array<bv8>, length: nat, bigEndian: bool) returns (crc: word)
    requires TablesOk(t) && length <= data.Length
    ensures crc == Crc(previous, data[..length])
  {
    hide Steps, Xor, Word, LowByte, Down8, Index, Register, Not, TablesOk, ByteStep;
    crc := Not(previous);
    RegisterNone(crc);
    var at, left := 0, length;
    assert data[..0] == [];
    while left >= 8
      invariant at + left == length && crc == Register(Not(previous), data[..at])
    {
      RegisterConcat(Not(previous), data[..at], data[at..at + 8]);
      assert data[..at] + data[at..at + 8] == data[..at + 8];
      crc := SliceEight(t, crc, data[at..at + 8], bigEndian);
      at := at + 8;
      left := left - 8;
    }
    while left > 0
      invariant at + left == length && crc == Register(Not(previous), data[..at])
    {
      RegisterLast(Not(previous), data[..at], data[at]);
      assert data[..at] + [data[at]] == data[..at + 1];
      crc := OneByte(t, crc, data[at]);
      at := at + 1;
      left := left - 1;
    }
    crc := Not(crc);
  }

  method OneByte(t: array2<word>, crc0: word, b: bv8) returns (crc: word)
    requires TablesOk(t)
    ensures crc == ByteStep(crc0, b)
  {
    hide Steps, Xor, Word, LowByte, Down8, Index, ByteStep;
    ByteLookup(crc0, b);
    crc := Xor(Down8(crc0), t[0, Index(LowByte(crc0) ^ b)]);
  }

  // ---- nibbles

  const NIBBLES: seq<word> := [
    0, 0x1db71064, 0x3b6e20c8, 0x26d930ac, 0x76dc4190, 0x6b6b51f4, 0x4db26158, 0x5005713c,
    0xedb88320, 0xf00f9344, 0xd6d6a3e8, 0xcb61b38c, 0x9b64c2b0, 0x86d3d2d4, 0xa00ae278, 0xbdbdf21c]

  function Nibble(x: word): word { x & 0xF }

  function Lookup(x: word): word
    requires x <= 0xF
  {
    NIBBLES[x as int]
  }

  /** Entry i is what four steps make of i. */
  lemma {:induction false} NibbleEntries(x: word)
    requires x <= 0xF
    ensures Lookup(x) == Steps(x, 4)
  {
    hide Steps, Lookup;
    Entries0();
    Entries2();
    Entries4();
    Entries6();
    Entries8();
    Entries10();
    Entries12();
    Entries14();
    assert x == 0 || x == 1 || x == 2 || x == 3 || x == 4 || x == 5 || x == 6 || x == 7
      || x == 8 || x == 9 || x == 10 || x == 11 || x == 12 || x == 13 || x == 14 || x == 15;
  }

  lemma {:induction false} Entries0()
    ensures Lookup(0) == Steps(0, 4) && Lookup(1) == Steps(1, 4)
  {
  }

  lemma {:induction false} Entries2()
    ensures Lookup(2) == Steps(2, 4) && Lookup(3) == Steps(3, 4)
  {
  }

  lemma {:induction false} Entries4()
    ensures Lookup(4) == Steps(4, 4) && Lookup(5) == Steps(5, 4)
  {
  }

  lemma {:induction false} Entries6()
    ensures Lookup(6) == Steps(6, 4) && Lookup(7) == Steps(7, 4)
  {
  }

  lemma {:induction false} Entries8()
    ensures Lookup(8) == Steps(8, 4) && Lookup(9) == Steps(9, 4)
  {
  }

  lemma {:induction false} Entries10()
    ensures Lookup(10) == Steps(10, 4) && Lookup(11) == Steps(11, 4)
  {
  }

  lemma {:induction false} Entries12()
    ensures Lookup(12) == Steps(12, 4) && Lookup(13) == Steps(13, 4)
  {
  }

  lemma {:induction false} Entries14()
    ensures Lookup(14) == Steps(14, 4) && Lookup(15) == Steps(15, 4)
  {
  }

  lemma {:induction false} NibbleSplit(c: word)
    ensures c == Xor(Up4(Down4(c)), Nibble(c)) && Down4(c) >> 28 == 0 && Nibble(c) <= 0xF
  {
  }

  /** Four steps are a shift and one lookup. */
  lemma {:induction false} FourSteps(c: word)
    ensures Nibble(c) <= 0xF && Steps(c, 4) == Xor(Down4(c), Lookup(Nibble(c)))
  {
    NibbleSplit(c);
    hide Steps, Xor, Nibble, Lookup, Up4, Down4;
    NibbleEntries(Nibble(c));
    StepsUp4(Down4(c));
    StepsLinear(Up4(Down4(c)), Nibble(c), 4);
  }

  lemma {:induction false} ByteOfNibbles(b: bv8)
    ensures Word(b) == Xor(Word(b & 0xF), Up4(Word(b >> 4))) && Word(b >> 4) >> 28 == 0
  {
  }

  /** A byte enters the register as two nibbles. */
  lemma {:induction false} NibbleSteps(c: word, b: bv8)
    ensures ByteStep(c, b) == Steps(Xor(Steps(Xor(c, Word(b & 0xF)), 4), Word(b >> 4)), 4)
  {
    ByteOfNibbles(b);
    var low, high := Word(b & 0xF), Word(b >> 4);
    hide Steps, Xor, Word, Up4;
    XorLaws(c, low, Up4(high));
    StepsAdd(Xor(Xor(c, low), Up4(high)), 4, 4);
    StepsLinear(Xor(c, low), Up4(high), 4);
    StepsUp4(high);
  }

  lemma {:induction false} NibbleXor(c: word, x: word)
    requires x <= 0xF
    ensures Nibble(Xor(c, x)) == Xor(Nibble(c), x) && Down4(Xor(c, x)) == Down4(c) && Xor(Nibble(c), x) <= 0xF
  {
  }

  lemma {:induction false} NibblesSmall(b: bv8)
    ensures Word(b & 0xF) <= 0xF && Word(b >> 4) <= 0xF
  {
  }

  method OneNibble(crc0: word, x: word) returns (crc: word)
    requires x <= 0xF
    ensures crc == Steps(Xor(crc0, x), 4)
  {
    hide Steps, Xor, Nibble, Lookup, Down4;
    NibbleXor(crc0, x);
    FourSteps(Xor(crc0, x));
    crc := Xor(Down4(crc0), Lookup(Xor(Nibble(crc0), x)));
  }

  /** mz_crc32. */
  method MzCrc32(previous: word, ptr: array?<bv8>, length: nat) returns (crc: word)
    requires ptr != null ==> length <= ptr.Length
    ensures ptr == null ==> crc == 0
    ensures ptr != null ==> crc == Crc(previous, ptr[..length])
  {
    hide Steps, Xor, Word, Register, Not, ByteStep;
    if ptr == null { return 0; }
    crc := Not(previous);
    RegisterNone(crc);
    assert ptr[..0] == [];
    var at := 0;
    while at < length
      invariant at <= length && crc == Register(Not(previous), ptr[..at])
    {
      var b := ptr[at];
      RegisterLast(Not(previous), ptr[..at], b);
      assert ptr[..at] + [b] == ptr[..at + 1];
      NibbleSteps(crc, b);
      NibblesSmall(b);
      crc := OneNibble(crc, Word(b & 0xF));
      crc := OneNibble(crc, Word(b >> 4));
      at := at + 1;
    }
    crc := Not(crc);
  }
}
