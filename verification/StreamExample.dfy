/**
 One stream, byte for byte, and what it stands for: a stored block, a block in the fixed codes, and a block in dynamic
 codes whose header uses all three ways of repeating a length. It fixes every order and every constant of the format
 that the reference decoder and tdefl share.
 */
module StreamExample {
  import opened Bits
  import opened Canonical
  import opened LzCodes
  import opened LzParse
  import opened RunPacking
  import opened DeflateSpec
  import opened DeflateBlocks
  import opened BlockForms
  import opened BlockOutput
  import BitWriting

  /** The stream. */
  function Data(): seq<byte>
  {
    FirstBytes() + MoreBytes() + LastBytes()
  }

  function FirstBytes(): seq<byte>
  {
    [0x00, 0x05, 0x00, 0xFA, 0xFF, 0x68, 0x65, 0x6C, 0x6C, 0x6F, 0x4A, 0xFC]
  }

  function MoreBytes(): seq<byte>
  {
    [0x80, 0x8D, 0x1A, 0x18, 0x12, 0xD0, 0x10, 0x7C, 0x12, 0x00, 0x00, 0x00]
  }

  function LastBytes(): seq<byte>
  {
    [0x30, 0x0C, 0xD3, 0xBA, 0xE3, 0x9F, 0xC3, 0x36, 0x49, 0x77, 0x01]
  }

  /** What is repeated: hello, a letter, and a byte that is no letter. */
  function Words(): (r: seq<byte>)
    ensures |r| == 7
  {
    [0x68, 0x65, 0x6C, 0x6C, 0x6F, 0x61, 0xF0]
  }

  function TextByte(i: nat): byte
    requires i < 152
  {
    if i < 27 then Words()[i % 7] else if i < 145 then Words()[(i - 27) % 6] else if i < 149 then 97 + (i - 145)
      else 100
  }

  /** The text. */
  function Text(): (r: seq<byte>)
    ensures |r| == 152
  {
    seq(152, i requires 0 <= i < 152 => TextByte(i))
  }

  // ---- bit strings as numbers

  /** The n bits of w are those of v, low bit first; p is 2 to the power of n. */
  datatype Numbered = Numbered(w: seq<bool>, n: nat, p: nat, v: nat)

  ghost predicate Good(s: Numbered)
  {
    |s.w| == s.n && Pow2(s.n) == s.p && s.v < s.p && s.w == ToBits(s.v, s.n)
  }

  lemma {:induction false} Nothing() returns (s: Numbered)
    ensures Good(s) && s == Numbered([], 0, 1, 0)
  {
    s := Numbered([], 0, 1, 0);
  }

  /** Bits behind bits. */
  lemma {:induction false} Behind(s: Numbered, t: Numbered) returns (r: Numbered)
    requires Good(s) && Good(t)
    ensures Good(r) && r == Numbered(s.w + t.w, s.n + t.n, s.p * t.p, s.v + t.v * s.p)
  {
    hide ToBits, Pow2;
    ToBitsAppend(s.v, s.n, t.v, t.n);
    Pow2Add(s.n, t.n);
    r := Numbered(s.w + t.w, s.n + t.n, s.p * t.p, s.v + t.v * s.p);
  }

  lemma {:induction false} Powers()
    ensures Pow2(1) == 2 && Pow2(2) == 4 && Pow2(3) == 8 && Pow2(4) == 16 && Pow2(5) == 32 && Pow2(6) == 64
    ensures Pow2(7) == 128 && Pow2(8) == 256 && Pow2(9) == 512 && Pow2(16) == 65536
  {
    Pow2Of16();
  }

  /** The k low bits of v, where q is 2 to the power of k. */
  lemma {:induction false} Low(v: nat, k: nat, q: nat) returns (s: Numbered)
    requires Pow2(k) == q && v < q
    ensures Good(s) && s == Numbered(LowBits(v, k), k, q, v)
  {
    hide ToBits, Pow2;
    ToBitsMod(v, k);
    s := Numbered(LowBits(v, k), k, q, v);
  }

  /** A value with its l low bits in the opposite order. */
  function Reversed(c: nat, l: nat): nat
  {
    if l == 0 then 0 else Reversed(c / 2, l - 1) + (c % 2) * Pow2(l - 1)
  }

  lemma {:induction false} ReversedBits(c: nat, l: nat)
    ensures Reversed(c, l) < Pow2(l) && MsbBits(c, l) == ToBits(Reversed(c, l), l)
  {
    if l > 0 {
      ReversedBits(c / 2, l - 1);
      OneBit(c % 2);
      ToBitsAppend(Reversed(c / 2, l - 1), l - 1, c % 2, 1);
    }
  }

  lemma {:induction false} OneBit(b: nat)
    requires b < 2
    ensures b < Pow2(1) && ToBits(b, 1) == [b == 1]
  {
    assert ToBits(b / 2, 0) == [];
  }

  /** A code word, found as the first one of its length and how many of that length come before it. */
  lemma {:induction false} Word(lens: seq<nat>, s: nat, l: nat, first: nat, before: nat, q: nat) returns (r: Numbered)
    requires s < |lens| && lens[s] == l && NextCode(lens, l) == first && CountUpTo(lens, l, s) == before && Pow2(l) == q
    ensures Good(r) && r == Numbered(Codeword(lens, s), l, q, Reversed(first + before, l))
  {
    ReversedBits(first + before, l);
    r := Numbered(Codeword(lens, s), l, q, Reversed(first + before, l));
  }

  /** A symbol and its extra bits. */
  lemma {:induction false} WithExtra(lens: seq<nat>, s: nat, word: Numbered, v: nat, e: nat, q: nat)
    returns (r: Numbered)
    requires s < |lens| && Good(word) && word.w == Codeword(lens, s) && Pow2(e) == q
    ensures Good(r) && r == Numbered(FieldBits(lens, s, v, e), word.n + e, word.p * q, word.v + (v % q) * word.p)
  {
    hide ToBits, Pow2, Codeword;
    var x := Low(v % q, e, q);
    assert LowBits(v % q, e) == LowBits(v, e) by { TwiceMod(v, q); }
    r := Behind(word, x);
  }

  lemma {:induction false} TwiceMod(v: nat, q: nat)
    requires q > 0
    ensures v % q < q && v % q % q == v % q
  {
  }

  lemma {:induction false} OneMoreByte(s: Numbered, data: seq<byte>, b: byte) returns (t: Numbered, data2: seq<byte>)
    requires Good(s) && s.w == BytesToBits(data)
    ensures data2 == data + [b] && Good(t) && t.w == BytesToBits(data2)
    ensures t.n == s.n + 8 && t.p == 256 * s.p && t.v == s.v + b * s.p
  {
    hide ToBits, Pow2;
    Pow2Of8();
    BytesAppend(data, b);
    data2 := data + [b];
    t := Behind(s, Numbered(ToBits(b, 8), 8, 256, b));
  }

  lemma {:induction false} NoBytes()
    ensures BytesToBits([]) == []
  {
  }

  lemma {:induction false} FirstNumber() returns (s: Numbered)
    ensures Good(s) && s.w == BytesToBits(FirstBytes()) && s.n == 96
    ensures s.p == 0x1000000000000000000000000 && s.v == 0xfc4a6f6c6c6568fffa000500
  {
    hide Good, BytesToBits;
    s := Nothing();
    var d: seq<byte> := [];
    NoBytes();
    s, d := OneMoreByte(s, d, 0x00);
    s, d := OneMoreByte(s, d, 0x05);
    s, d := OneMoreByte(s, d, 0x00);
    s, d := OneMoreByte(s, d, 0xFA);
    s, d := OneMoreByte(s, d, 0xFF);
    s, d := OneMoreByte(s, d, 0x68);
    s, d := OneMoreByte(s, d, 0x65);
    s, d := OneMoreByte(s, d, 0x6C);
    s, d := OneMoreByte(s, d, 0x6C);
    s, d := OneMoreByte(s, d, 0x6F);
    s, d := OneMoreByte(s, d, 0x4A);
    s, d := OneMoreByte(s, d, 0xFC);
    assert d == FirstBytes();
  }

  lemma {:induction false} MoreNumber() returns (s: Numbered)
    ensures Good(s) && s.w == BytesToBits(MoreBytes()) && s.n == 96
    ensures s.p == 0x1000000000000000000000000 && s.v == 0x127c10d012181a8d80
  {
    hide Good, BytesToBits;
    s := Nothing();
    var d: seq<byte> := [];
    NoBytes();
    s, d := OneMoreByte(s, d, 0x80);
    s, d := OneMoreByte(s, d, 0x8D);
    s, d := OneMoreByte(s, d, 0x1A);
    s, d := OneMoreByte(s, d, 0x18);
    s, d := OneMoreByte(s, d, 0x12);
    s, d := OneMoreByte(s, d, 0xD0);
    s, d := OneMoreByte(s, d, 0x10);
    s, d := OneMoreByte(s, d, 0x7C);
    s, d := OneMoreByte(s, d, 0x12);
    s, d := OneMoreByte(s, d, 0x00);
    s, d := OneMoreByte(s, d, 0x00);
    s, d := OneMoreByte(s, d, 0x00);
    assert d == MoreBytes();
  }

  lemma {:induction false} LastNumber() returns (s: Numbered)
    ensures Good(s) && s.w == BytesToBits(LastBytes()) && s.n == 88
    ensures s.p == 0x10000000000000000000000 && s.v == 0x1774936c39fe3bad30c30
  {
    hide Good, BytesToBits;
    s := Nothing();
    var d: seq<byte> := [];
    NoBytes();
    s, d := OneMoreByte(s, d, 0x30);
    s, d := OneMoreByte(s, d, 0x0C);
    s, d := OneMoreByte(s, d, 0xD3);
    s, d := OneMoreByte(s, d, 0xBA);
    s, d := OneMoreByte(s, d, 0xE3);
    s, d := OneMoreByte(s, d, 0x9F);
    s, d := OneMoreByte(s, d, 0xC3);
    s, d := OneMoreByte(s, d, 0x36);
    s, d := OneMoreByte(s, d, 0x49);
    s, d := OneMoreByte(s, d, 0x77);
    s, d := OneMoreByte(s, d, 0x01);
    assert d == LastBytes();
  }

  lemma {:induction false} DataNumber() returns (s: Numbered)
    ensures Good(s) && s.w == BytesToBits(Data()) && s.n == 280
    ensures s.v == 0x1774936c39fe3bad30c30000000127c10d012181a8d80fc4a6f6c6c6568fffa000500
  {
    hide Good, BytesToBits, FirstBytes, MoreBytes, LastBytes;
    s := FirstNumber();
    var t := MoreNumber();
    BytesToBitsConcat(FirstBytes(), MoreBytes());
    s := Behind(s, t);
    t := LastNumber();
    BytesToBitsConcat(FirstBytes() + MoreBytes(), LastBytes());
    s := Behind(s, t);
  }

  // ---- the stored block

  function Hello(): seq<byte>
  {
    [0x68, 0x65, 0x6C, 0x6C, 0x6F]
  }

  lemma {:induction false} HelloNumber() returns (s: Numbered)
    ensures Good(s) && s.w == BytesToBits(Hello()) && s.n == 40
    ensures s.p == 0x10000000000 && s.v == 0x6f6c6c6568
  {
    hide Good, BytesToBits;
    s := Nothing();
    var d: seq<byte> := [];
    NoBytes();
    s, d := OneMoreByte(s, d, 0x68);
    s, d := OneMoreByte(s, d, 0x65);
    s, d := OneMoreByte(s, d, 0x6C);
    s, d := OneMoreByte(s, d, 0x6C);
    s, d := OneMoreByte(s, d, 0x6F);
    assert d == Hello();
  }

  ghost function Stored(): seq<bool>
  {
    TypeBits(false, 0) + StoredBits(3, Hello())
  }

  lemma {:induction false} StoredNumber() returns (s: Numbered)
    ensures Good(s) && s.w == Stored() && s.n == 80 && s.p == 0x100000000000000000000 && s.v == 0x6f6c6c6568fffa000500
  {
    hide Good, BytesToBits, LowBits, Hello, Pow2;
    Powers();
    var t := Type(false, 0);
    var pad := PadNumber(5, 32);
    var x := Low(5, 16, 65536);
    var y := Low(65530, 16, 65536);
    var z := HelloNumber();
    HelloSize();
    var r := Behind(pad, x);
    r := Behind(r, y);
    r := Behind(r, z);
    s := Behind(t, r);
    assert Padding(3) == seq(5, _ => false);
  }

  lemma {:induction false} HelloSize()
    ensures |Hello()| == 5
  {
  }

  lemma {:induction false} PadNumber(k: nat, q: nat) returns (s: Numbered)
    requires Pow2(k) == q
    ensures Good(s) && s == Numbered(seq(k, _ => false), k, q, 0)
  {
    BitWriting.NoBits(k);
    s := Numbered(seq(k, _ => false), k, q, 0);
  }

  /** The three bits in front of a block. */
  lemma {:induction false} Type(final: bool, kind: nat) returns (s: Numbered)
    requires kind < 4
    ensures Good(s) && s == Numbered(TypeBits(final, kind), 3, 8, (if final then 1 else 0) + 2 * kind)
  {
    hide Good, LowBits, Pow2;
    Powers();
    var a := Low(if final then 1 else 0, 1, 2);
    var b := Low(kind, 2, 4);
    s := Behind(a, b);
  }

  // ---- the block in fixed codes

  function FixedPart(): seq<LzCode>
  {
    [Literal(0x61), Literal(0xF0), Match(20, 7), Match(118, 6)]
  }

  lemma {:induction false} FixedFirsts()
    ensures NextCode(FixedLit(), 7) == 0 && NextCode(FixedLit(), 8) == 48 && NextCode(FixedLit(), 9) == 400
    ensures NextCode(FixedDist(), 5) == 0
  {
    hide CountUpTo, FixedLit, FixedDist;
    FixedFirst(7);
    FixedCount(7, 288);
    FixedCount(8, 288);
    FixedDistFirst(4);
    FixedDistCount(4, 32);
  }

  lemma {:induction false} FixedEncodable()
    ensures AllEncodable(FixedLit(), FixedDist(), FixedPart()) && HasCode(FixedLit(), 256)
  {
  }

  /** A literal. */
  lemma {:induction false} LiteralNumber(lit: seq<nat>, dst: seq<nat>, b: byte, word: Numbered) returns (s: Numbered)
    requires Encodable(lit, dst, Literal(b)) && Good(word) && word.w == Codeword(lit, b)
    ensures s == word.(w := CodeBits(lit, dst, Literal(b))) && Good(s)
  {
    s := word;
  }

  /** A match. */
  lemma {:induction false} MatchNumber(lit: seq<nat>, dst: seq<nat>, len: nat, dist: nat, a: Numbered, b: Numbered,
                                       q1: nat, q2: nat) returns (s: Numbered)
    requires Encodable(lit, dst, Match(len, dist)) && Good(a) && a.w == Codeword(lit, LenSym(len - 3))
    requires Good(b) && b.w == Codeword(dst, DistSym(dist - 1))
    requires Pow2(LenExtra(len - 3)) == q1 && Pow2(DistExtra(dist - 1)) == q2
    ensures Good(s) && s.w == CodeBits(lit, dst, Match(len, dist))
    ensures s.n == a.n + LenExtra(len - 3) + (b.n + DistExtra(dist - 1)) && s.p == (a.p * q1) * (b.p * q2)
    ensures s.v == a.v + ((len - 3) % q1) * a.p + (b.v + ((dist - 1) % q2) * b.p) * (a.p * q1)
  {
    hide Good, Codeword, LenSym, DistSym, LenExtra, DistExtra, Pow2;
    var x := WithExtra(lit, LenSym(len - 3), a, len - 3, LenExtra(len - 3), q1);
    var y := WithExtra(dst, DistSym(dist - 1), b, dist - 1, DistExtra(dist - 1), q2);
    s := Behind(x, y);
  }

  lemma {:induction false} BodyMore(lit: seq<nat>, dst: seq<nat>, cs: seq<LzCode>, s: Numbered, c: LzCode, t: Numbered)
    returns (r: Numbered, cs2: seq<LzCode>)
    requires AllEncodable(lit, dst, cs) && Encodable(lit, dst, c)
    requires Good(s) && s.w == BodyBits(lit, dst, cs) && Good(t) && t.w == CodeBits(lit, dst, c)
    ensures cs2 == cs + [c] && AllEncodable(lit, dst, cs2) && Good(r) && r.w == BodyBits(lit, dst, cs2)
    ensures r.n == s.n + t.n && r.p == s.p * t.p && r.v == s.v + t.v * s.p
  {
    hide Good, Encodable, CodeBits;
    cs2 := cs + [c];
    assert cs2[..|cs|] == cs;
    r := Behind(s, t);
  }

  lemma {:induction false} LongReversed()
    ensures Reversed(145, 8) == 137 && Reversed(496, 9) == 31
  {
    assert Pow2(0) == 1;
    Powers();
    hide Pow2;
  }

  lemma {:induction false} ShortReversed()
    ensures Reversed(0, 7) == 0 && Reversed(13, 7) == 88 && Reversed(5, 5) == 20
  {
    assert Pow2(0) == 1;
    Powers();
    hide Pow2;
  }

  lemma {:induction false} OtherReversed()
    ensures Reversed(192, 8) == 3 && Reversed(4, 5) == 4
  {
    assert Pow2(0) == 1;
    Powers();
    hide Pow2;
  }

  lemma {:induction false} FixedRanks()
    ensures var lit := FixedLit();
      && lit[0x61] == 8 && CountUpTo(lit, 8, 0x61) == 97 && lit[0xF0] == 9 && CountUpTo(lit, 9, 0xF0) == 96
      && lit[256] == 7 && CountUpTo(lit, 7, 256) == 0 && lit[269] == 7 && CountUpTo(lit, 7, 269) == 13
      && lit[280] == 8 && CountUpTo(lit, 8, 280) == 144
  {
    hide CountUpTo;
    FixedCount(8, 0x61);
    FixedCount(9, 0xF0);
    FixedCount(7, 256);
    FixedCount(7, 269);
    FixedCount(8, 280);
  }

  lemma {:induction false} FixedDistRanks()
    ensures var dst := FixedDist(); dst[5] == 5 && CountUpTo(dst, 5, 5) == 5 && dst[4] == 5 && CountUpTo(dst, 5, 4) == 4
  {
    hide CountUpTo;
    FixedDistCount(5, 5);
    FixedDistCount(5, 4);
  }

  lemma {:induction false} FixedLiterals() returns (a: Numbered, b: Numbered, e: Numbered)
    ensures Good(a) && a.w == Codeword(FixedLit(), 0x61) && a.n == 8 && a.p == 256 && a.v == 137
    ensures Good(b) && b.w == Codeword(FixedLit(), 0xF0) && b.n == 9 && b.p == 512 && b.v == 31
    ensures Good(e) && e.w == Codeword(FixedLit(), 256) && e.n == 7 && e.p == 128 && e.v == 0
  {
    FixedFirsts();
    Powers();
    FixedRanks();
    LongReversed();
    ShortReversed();
    hide *;
    a := Word(FixedLit(), 0x61, 8, 48, 97, 256);
    b := Word(FixedLit(), 0xF0, 9, 400, 96, 512);
    e := Word(FixedLit(), 256, 7, 0, 0, 128);
  }

  /** The tables say how lengths and distances are written. */
  lemma {:induction false} Symbols()
    ensures LenSym(17) == 269 && LenExtra(17) == 2 && LenSym(115) == 280 && LenExtra(115) == 4
    ensures LenSym(0) == 257 && LenExtra(0) == 0
    ensures DistSym(6) == 5 && DistExtra(6) == 1 && DistSym(5) == 4 && DistExtra(5) == 1
    ensures DistSym(0) == 0 && DistExtra(0) == 0
  {
  }

  lemma {:induction false} FirstMatch() returns (s: Numbered)
    requires Encodable(FixedLit(), FixedDist(), Match(20, 7))
    ensures Good(s) && s.w == CodeBits(FixedLit(), FixedDist(), Match(20, 7)) && s.n == 15 && s.p == 0x8000
      && s.v == 10456
  {
    FixedFirsts();
    Powers();
    FixedRanks();
    FixedDistRanks();
    ShortReversed();
    Symbols();
    hide *;
    var x := Word(FixedLit(), 269, 7, 0, 13, 128);
    var y := Word(FixedDist(), 5, 5, 0, 5, 32);
    s := MatchNumber(FixedLit(), FixedDist(), 20, 7, x, y, 4, 2);
  }

  lemma {:induction false} SecondMatch() returns (s: Numbered)
    requires Encodable(FixedLit(), FixedDist(), Match(118, 6))
    ensures Good(s) && s.w == CodeBits(FixedLit(), FixedDist(), Match(118, 6)) && s.n == 18 && s.p == 0x40000
      && s.v == 148227
  {
    FixedFirsts();
    Powers();
    FixedRanks();
    FixedDistRanks();
    OtherReversed();
    Symbols();
    hide *;
    var x := Word(FixedLit(), 280, 8, 48, 144, 256);
    var y := Word(FixedDist(), 4, 5, 0, 4, 32);
    s := MatchNumber(FixedLit(), FixedDist(), 118, 6, x, y, 16, 2);
  }

  ghost function Fixed(): seq<bool>
  {
    FixedEncodable();
    TypeBits(false, 1) + (BodyBits(FixedLit(), FixedDist(), FixedPart()) + Codeword(FixedLit(), 256))
  }

  lemma {:induction false} FixedEach()
    ensures var lit := FixedLit(); var dst := FixedDist();
      && Encodable(lit, dst, Literal(0x61)) && Encodable(lit, dst, Literal(0xF0))
      && Encodable(lit, dst, Match(20, 7)) && Encodable(lit, dst, Match(118, 6))
  {
    FixedEncodable();
    var cs := FixedPart();
    hide Encodable, FixedLit, FixedDist;
    assert cs[0] == Literal(0x61) && cs[1] == Literal(0xF0) && cs[2] == Match(20, 7) && cs[3] == Match(118, 6);
  }

  lemma {:induction false} FixedBody() returns (r: Numbered, cs: seq<LzCode>)
    ensures AllEncodable(FixedLit(), FixedDist(), cs) && Good(r) && r.w == BodyBits(FixedLit(), FixedDist(), cs)
    ensures cs == [Literal(0x61), Literal(0xF0), Match(20, 7), Match(118, 6)]
    ensures r.n == 50 && r.p == 0x4000000000000 && r.v == 0x2430351b01f89
  {
    var lit, dst := FixedLit(), FixedDist();
    FixedEach();
    NoCodesYet(lit, dst);
    hide *;
    var a, b, e := FixedLiterals();
    a := LiteralNumber(lit, dst, 0x61, a);
    b := LiteralNumber(lit, dst, 0xF0, b);
    var c := FirstMatch();
    var d := SecondMatch();
    r := Nothing();
    cs := [];
    r, cs := BodyMore(lit, dst, cs, r, Literal(0x61), a);
    r, cs := BodyMore(lit, dst, cs, r, Literal(0xF0), b);
    r, cs := BodyMore(lit, dst, cs, r, Match(20, 7), c);
    r, cs := BodyMore(lit, dst, cs, r, Match(118, 6), d);
  }

  lemma {:induction false} FixedNumber() returns (s: Numbered)
    ensures Good(s) && s.w == Fixed() && s.n == 60 && s.p == 0x1000000000000000 && s.v == 0x12181a8d80fc4a
  {
    hide Good, Codeword, FixedLit, FixedDist, AllEncodable, TypeBits, BodyBits;
    var t := Type(false, 1);
    var r, cs := FixedBody();
    var a, b, e := FixedLiterals();
    r := Behind(r, e);
    s := Behind(t, r);
  }

  lemma {:induction false} NoCodesYet(lit: seq<nat>, dst: seq<nat>)
    ensures AllEncodable(lit, dst, []) && BodyBits(lit, dst, []) == []
  {
  }

  // ---- the block in dynamic codes

  /** The lengths of the code for literals and lengths. */
  function LitSizes(): (l: seq<nat>)
    ensures |l| == 258
  {
    seq(258, i => if 97 <= i < 101 then 3 else if 256 <= i then 2 else 0)
  }

  function DistSizes(): (l: seq<nat>)
    ensures |l| == 2
  {
    [1, 1]
  }

  /** The lengths of the code for lengths. */
  function CodeSizes(): (l: seq<nat>)
    ensures |l| == 19
  {
    seq(19, i => if 1 <= i < 4 || i == 16 then 3 else if i >= 17 then 2 else 0)
  }

  function DynamicPart(): seq<LzCode>
  {
    [Literal(0x61), Literal(0x62), Literal(0x63), Literal(0x64), Match(3, 1)]
  }

  lemma {:induction false} LitCount(l: nat, k: nat)
    requires 0 < l && k <= 258
    ensures CountUpTo(LitSizes(), l, k) == if l == 3 then (if k <= 97 then 0 else if k <= 101 then k - 97 else 4)
                                           else if l == 2 && k > 256 then k - 256 else 0
  {
    if k > 0 {
      LitCount(l, k - 1);
    }
  }

  lemma {:induction false} CodeCount(l: nat, k: nat)
    requires 0 < l && k <= 19
    ensures CountUpTo(CodeSizes(), l, k) ==
            if l == 3 then (if k <= 1 then 0 else if k <= 4 then k - 1 else if k <= 16 then 3 else 4)
            else if l == 2 && k > 17 then k - 17 else 0
  {
    if k > 0 {
      CodeCount(l, k - 1);
    }
  }

  lemma {:induction false} LitFirsts()
    ensures NextCode(LitSizes(), 1) == 0 && NextCode(LitSizes(), 2) == 0 && NextCode(LitSizes(), 3) == 4
  {
    hide CountUpTo, LitSizes;
    LitCount(1, 258);
    LitCount(2, 258);
  }

  lemma {:induction false} CodeFirsts()
    ensures NextCode(CodeSizes(), 1) == 0 && NextCode(CodeSizes(), 2) == 0 && NextCode(CodeSizes(), 3) == 4
  {
    hide CountUpTo, CodeSizes;
    CodeCount(1, 19);
    CodeCount(2, 19);
  }

  lemma {:induction false} LitUsed(l: nat)
    requires 3 <= l
    ensures Used(LitSizes(), l) == Pow2(l)
    decreases l
  {
    hide CountUpTo, LitSizes;
    LitCount(l, 258);
    if l == 3 {
      LitFirsts();
      Powers();
    } else {
      LitUsed(l - 1);
    }
  }

  lemma {:induction false} CodeUsed(l: nat)
    requires 3 <= l
    ensures Used(CodeSizes(), l) == Pow2(l)
    decreases l
  {
    hide CountUpTo, CodeSizes;
    CodeCount(l, 19);
    if l == 3 {
      CodeFirsts();
      Powers();
    } else {
      CodeUsed(l - 1);
    }
  }

  lemma {:induction false} DistCount(l: nat)
    requires 0 < l
    ensures CountUpTo(DistSizes(), l, 0) == 0 && Count(DistSizes(), l) == if l == 1 then 2 else 0
  {
    assert CountUpTo(DistSizes(), l, 1) == if l == 1 then 1 else 0;
  }

  lemma {:induction false} DistUsed(l: nat)
    requires 1 <= l
    ensures Used(DistSizes(), l) == Pow2(l) && NextCode(DistSizes(), 1) == 0
    decreases l
  {
    hide CountUpTo, DistSizes;
    DistCount(l);
    if l == 1 {
      Powers();
    } else {
      DistUsed(l - 1);
    }
  }

  lemma {:induction false} Full()
    ensures Accepts(LitSizes()) && ValidLengths(LitSizes()) && Accepts(DistSizes()) && ValidLengths(DistSizes())
    ensures Accepts(CodeSizes()) && ValidLengths(CodeSizes())
  {
    hide Used, Pow2;
    LitUsed(15);
    DistUsed(15);
    CodeUsed(15);
  }

  // ---- its header

  function Tokens(): seq<Token>
  {
    [Token(18, 86), Token(3, 0), Token(16, 0), Token(18, 127), Token(17, 7), Token(17, 4), Token(2, 0), Token(2, 0),
      Token(1, 0), Token(1, 0)]
  }

  lemma {:induction false} Coded()
    ensures TokensCoded(CodeSizes(), Tokens())
  {
  }

  lemma {:induction false} Unpacked(ts: seq<Token>, a: seq<nat>, t: Token) returns (us: seq<Token>, b: seq<nat>)
    requires Unpack(ts) == Some(a) && t.code <= 18 && (t.code == 16 ==> a != [])
    ensures us == ts + [t] && Unpack(us) == Some(b)
    ensures b == if t.code < 16 then a + [t.code]
                 else if t.code == 16 then a + Repeat(a[|a| - 1], 3 + t.extra)
                 else if t.code == 17 then a + Repeat(0, 3 + t.extra) else a + Repeat(0, 11 + t.extra)
  {
    us := ts + [t];
    Append(ts, t);
    b := ExpandToken(a, t).value;
  }

  lemma {:induction false} LengthsToLetters() returns (ts: seq<Token>, a: seq<nat>)
    ensures ts == [Token(18, 86), Token(3, 0), Token(16, 0)] && Unpack(ts) == Some(a)
    ensures a == LitSizes()[..101]
  {
    ts, a := [], [];
    assert Unpack(ts) == Some(a);
    LitStart();
    TokensListed();
    hide *;
    ts, a := Unpacked(ts, a, Token(18, 86));
    ts, a := Unpacked(ts, a, Token(3, 0));
    ts, a := Unpacked(ts, a, Token(16, 0));
  }

  lemma {:induction false} LengthsToEnd() returns (ts: seq<Token>, a: seq<nat>)
    ensures ts == [Token(18, 86), Token(3, 0), Token(16, 0), Token(18, 127), Token(17, 7), Token(17, 4)]
      && Unpack(ts) == Some(a)
    ensures a == LitSizes()[..256]
  {
    ts, a := LengthsToLetters();
    LitMiddle();
    hide *;
    ts, a := Unpacked(ts, a, Token(18, 127));
    ts, a := Unpacked(ts, a, Token(17, 7));
    ts, a := Unpacked(ts, a, Token(17, 4));
  }

  lemma {:induction false} LengthsToMatch() returns (ts: seq<Token>, a: seq<nat>)
    ensures ts == [Token(18, 86), Token(3, 0), Token(16, 0), Token(18, 127), Token(17, 7), Token(17, 4), Token(2, 0),
      Token(2, 0)] && Unpack(ts) == Some(a)
    ensures a == LitSizes()
  {
    ts, a := LengthsToEnd();
    LitEnd();
    hide *;
    ts, a := Unpacked(ts, a, Token(2, 0));
    ts, a := Unpacked(ts, a, Token(2, 0));
  }

  lemma {:induction false} AllLengths()
    ensures Unpack(Tokens()) == Some(LitSizes() + DistSizes())
  {
    var ts, a := LengthsToMatch();
    TokensListed();
    hide *;
    ts, a := Unpacked(ts, a, Token(1, 0));
    ts, a := Unpacked(ts, a, Token(1, 0));
    assert a == LitSizes() + ([1] + [1]);
    assert ts == Tokens();
  }

  lemma {:induction false} TokensListed()
    ensures Tokens() == [Token(18, 86), Token(3, 0), Token(16, 0), Token(18, 127), Token(17, 7), Token(17, 4),
      Token(2, 0), Token(2, 0), Token(1, 0), Token(1, 0)]
    ensures DistSizes() == [1] + [1] && |Repeat(0, 97) + [3]| == 98 && (Repeat(0, 97) + [3])[97] == 3
  {
  }

  lemma {:induction false} LitStart()
    ensures [] + Repeat(0, 97) + [3] + Repeat(3, 3) == LitSizes()[..101] && [] + Repeat(0, 97) == Repeat(0, 97)
  {
  }

  lemma {:induction false} LitMiddle()
    ensures LitSizes()[..101] + Repeat(0, 138) + Repeat(0, 10) + Repeat(0, 7) == LitSizes()[..256]
  {
  }

  lemma {:induction false} LitEnd()
    ensures LitSizes()[..256] + [2] + [2] == LitSizes() && LitSizes()[..258] == LitSizes()
    ensures DistSizes()[..2] == DistSizes()
  {
  }

  lemma {:induction false} PreparedBlock()
    ensures Prepared(LitSizes(), DistSizes(), 258, 2, 18, CodeSizes(), Tokens())
  {
    hide Accepts, Unpack, TokensCoded, ValidLengths, Swizzle, LitSizes, DistSizes, CodeSizes, Tokens;
    Full();
    Coded();
    AllLengths();
    LitEnd();
    SizesSent();
  }

  lemma {:induction false} SizesSent()
    ensures SentSizes(CodeSizes(), 18)
  {
    Full();
    LastUnsent();
    hide Accepts, Swizzle;
  }

  lemma {:induction false} LastUnsent()
    ensures forall i :: 18 <= i < 19 ==> CodeSizes()[Swizzle(i)] == 0
  {
    assert Swizzle(18) == 15;
  }

  lemma {:induction false} MoreSizes(i: nat, s: Numbered, v: nat) returns (t: Numbered)
    requires i < 19 && Good(s) && s.w == SizeBits(CodeSizes(), i) && CodeSizes()[Swizzle(i)] == v && v < 8
    ensures Good(t) && t.w == SizeBits(CodeSizes(), i + 1) && t.n == s.n + 3 && t.p == 8 * s.p && t.v == s.v + v * s.p
  {
    Powers();
    hide Good, Pow2, LowBits, CodeSizes, Swizzle;
    var x := Low(v, 3, 8);
    t := Behind(s, x);
  }

  lemma {:induction false} SizesNumber() returns (s: Numbered)
    ensures Good(s) && s.w == SizeBits(CodeSizes(), 18) && s.n == 54 && s.p == 0x40000000000000
      && s.v == 0x18618000000093
  {
    s := FirstSizes();
    LaterSwizzles();
    hide *;
    s := MoreSizes(9, s, 0);
    s := MoreSizes(10, s, 0);
    s := MoreSizes(11, s, 0);
    s := MoreSizes(12, s, 0);
    s := MoreSizes(13, s, 3);
    s := MoreSizes(14, s, 0);
    s := MoreSizes(15, s, 3);
    s := MoreSizes(16, s, 0);
    s := MoreSizes(17, s, 3);
  }

  lemma {:induction false} FirstSizes() returns (s: Numbered)
    ensures Good(s) && s.w == SizeBits(CodeSizes(), 9) && s.n == 27 && s.p == 0x8000000 && s.v == 0x93
  {
    s := Nothing();
    FirstSwizzles();
    assert SizeBits(CodeSizes(), 0) == [];
    hide *;
    s := MoreSizes(0, s, 3);
    s := MoreSizes(1, s, 2);
    s := MoreSizes(2, s, 2);
    s := MoreSizes(3, s, 0);
    s := MoreSizes(4, s, 0);
    s := MoreSizes(5, s, 0);
    s := MoreSizes(6, s, 0);
    s := MoreSizes(7, s, 0);
    s := MoreSizes(8, s, 0);
  }

  lemma {:induction false} FirstSwizzles()
    ensures var cl := CodeSizes();
      && cl[Swizzle(0)] == 3 && cl[Swizzle(1)] == 2 && cl[Swizzle(2)] == 2 && cl[Swizzle(3)] == 0 && cl[Swizzle(4)] == 0
      && cl[Swizzle(5)] == 0 && cl[Swizzle(6)] == 0 && cl[Swizzle(7)] == 0 && cl[Swizzle(8)] == 0
  {
  }

  lemma {:induction false} LaterSwizzles()
    ensures var cl := CodeSizes();
      && cl[Swizzle(9)] == 0 && cl[Swizzle(10)] == 0 && cl[Swizzle(11)] == 0 && cl[Swizzle(12)] == 0
      && cl[Swizzle(13)] == 3
      && cl[Swizzle(14)] == 0 && cl[Swizzle(15)] == 3 && cl[Swizzle(16)] == 0 && cl[Swizzle(17)] == 3
  {
  }

  lemma {:induction false} CodeRanks()
    ensures var cl := CodeSizes();
      && cl[18] == 2 && CountUpTo(cl, 2, 18) == 1 && cl[17] == 2 && CountUpTo(cl, 2, 17) == 0
      && cl[16] == 3 && CountUpTo(cl, 3, 16) == 3 && cl[3] == 3 && CountUpTo(cl, 3, 3) == 2
      && cl[2] == 3 && CountUpTo(cl, 3, 2) == 1 && cl[1] == 3 && CountUpTo(cl, 3, 1) == 0
  {
    hide CountUpTo;
    CodeCount(2, 18);
    CodeCount(2, 17);
    CodeCount(3, 16);
    CodeCount(3, 3);
    CodeCount(3, 2);
    CodeCount(3, 1);
  }

  lemma {:induction false} SmallReversed()
    ensures Reversed(0, 1) == 0 && Reversed(0, 2) == 0 && Reversed(1, 2) == 2 && Reversed(4, 3) == 1
    ensures Reversed(5, 3) == 5 && Reversed(6, 3) == 3 && Reversed(7, 3) == 7
  {
    assert Pow2(0) == 1;
    Powers();
    hide Pow2;
  }

  lemma {:induction false} ExtraOk(t: Token)
    requires t.code < 19 && t.extra < Pow2(ExtraBits(t.code))
    ensures TokenOk(t)
  {
    Powers();
    assert Pow2(0) == 1;
    hide Pow2;
  }

  /** One token more: a code word of l bits, and e extra bits. */
  lemma {:induction false} MoreTokens(ts: seq<Token>, s: Numbered, t: Token, first: nat, before: nat, l: nat, q: nat,
                                      e: nat, q2: nat, val: nat) returns (us: seq<Token>, r: Numbered)
    requires TokensCoded(CodeSizes(), ts) && Good(s) && s.w == TokenBits(CodeSizes(), ts)
    requires t.code < 19 && CodeSizes()[t.code] == l > 0 && NextCode(CodeSizes(), l) == first
      && CountUpTo(CodeSizes(), l, t.code) == before
    requires Pow2(l) == q && ExtraBits(t.code) == e && Pow2(e) == q2 && t.extra < q2
    requires Reversed(first + before, l) + t.extra * q == val
    ensures us == ts + [t] && TokensCoded(CodeSizes(), us) && Good(r) && r.w == TokenBits(CodeSizes(), us)
    ensures r.n == s.n + l + e && r.p == s.p * (q * q2) && r.v == s.v + val * s.p
  {
    hide *;
    ExtraOk(t);
    var b := TokenNumber(t, first, before, l, q, e, q2, val);
    us, r := TokensMore(ts, s, t, b);
  }

  lemma {:induction false} TokensMore(ts: seq<Token>, s: Numbered, t: Token, b: Numbered)
    returns (us: seq<Token>, r: Numbered)
    requires TokensCoded(CodeSizes(), ts) && Good(s) && s.w == TokenBits(CodeSizes(), ts)
    requires TokenOk(t) && HasCode(CodeSizes(), t.code)
    requires Good(b) && b.w == FieldBits(CodeSizes(), t.code, t.extra, ExtraBits(t.code))
    ensures us == ts + [t] && TokensCoded(CodeSizes(), us) && Good(r) && r.w == TokenBits(CodeSizes(), us)
    ensures r.n == s.n + b.n && r.p == s.p * b.p && r.v == s.v + b.v * s.p
  {
    hide Good, CodeSizes, FieldBits, ExtraBits, TokenOk;
    us := ts + [t];
    assert us[..|ts|] == ts;
    r := Behind(s, b);
  }

  lemma {:induction false} TokenNumber(t: Token, first: nat, before: nat, l: nat, q: nat, e: nat, q2: nat, val: nat)
    returns (b: Numbered)
    requires t.code < 19 && CodeSizes()[t.code] == l > 0 && NextCode(CodeSizes(), l) == first
      && CountUpTo(CodeSizes(), l, t.code) == before
    requires Pow2(l) == q && ExtraBits(t.code) == e && Pow2(e) == q2 && t.extra < q2
    requires Reversed(first + before, l) + t.extra * q == val
    ensures HasCode(CodeSizes(), t.code)
    ensures Good(b) && b == Numbered(FieldBits(CodeSizes(), t.code, t.extra, ExtraBits(t.code)), l + e, q * q2, val)
  {
    HasOne(CodeSizes(), t.code);
    Unchanged(t.extra, q2);
    hide *;
    var a := Word(CodeSizes(), t.code, l, first, before, q);
    b := WithExtra(CodeSizes(), t.code, a, t.extra, e, q2);
  }

  lemma {:induction false} HasOne(lens: seq<nat>, s: nat)
    requires s < |lens| && lens[s] > 0
    ensures HasCode(lens, s)
  {
  }

  lemma {:induction false} Unchanged(v: nat, q: nat)
    requires v < q
    ensures v % q == v
  {
  }

  lemma {:induction false} StartTokens() returns (r: Numbered, ts: seq<Token>)
    ensures TokensCoded(CodeSizes(), ts) && Good(r) && r.w == TokenBits(CodeSizes(), ts)
    ensures ts == [Token(18, 86), Token(3, 0), Token(16, 0)]
    ensures r.n == 17 && r.p == 0x20000 && r.v == 0x775a
  {
    r := Nothing();
    ts := [];
    assert TokenBits(CodeSizes(), ts) == [];
    Powers();
    CodeFirsts();
    CodeRanks();
    SmallReversed();
    ExtraSizes();
    hide *;
    ts, r := MoreTokens(ts, r, Token(18, 86), 0, 1, 2, 4, 7, 128, 346);
    ts, r := MoreTokens(ts, r, Token(3, 0), 4, 2, 3, 8, 0, 1, 3);
    ts, r := MoreTokens(ts, r, Token(16, 0), 4, 3, 3, 8, 2, 4, 7);
  }

  lemma {:induction false} FirstTokens() returns (r: Numbered, ts: seq<Token>)
    ensures TokensCoded(CodeSizes(), ts) && Good(r) && r.w == TokenBits(CodeSizes(), ts)
    ensures ts == [Token(18, 86), Token(3, 0), Token(16, 0), Token(18, 127), Token(17, 7)]
    ensures r.n == 31 && r.p == 0x80000000 && r.v == 0x73fc775a
  {
    r, ts := StartTokens();
    Powers();
    CodeFirsts();
    CodeRanks();
    SmallReversed();
    ExtraSizes();
    hide *;
    ts, r := MoreTokens(ts, r, Token(18, 127), 0, 1, 2, 4, 7, 128, 510);
    ts, r := MoreTokens(ts, r, Token(17, 7), 0, 0, 2, 4, 3, 8, 28);
  }

  lemma {:induction false} TokensNumber() returns (r: Numbered, ts: seq<Token>)
    ensures TokensCoded(CodeSizes(), ts) && Good(r) && r.w == TokenBits(CodeSizes(), ts)
    ensures ts == Tokens()
    ensures r.n == 48 && r.p == 0x1000000000000 && r.v == 0x26d873fc775a
  {
    r, ts := FirstTokens();
    Powers();
    CodeFirsts();
    CodeRanks();
    SmallReversed();
    ExtraSizes();
    TokensListed();
    hide *;
    ts, r := MoreTokens(ts, r, Token(17, 4), 0, 0, 2, 4, 3, 8, 16);
    ts, r := MoreTokens(ts, r, Token(2, 0), 4, 1, 3, 8, 0, 1, 5);
    ts, r := MoreTokens(ts, r, Token(2, 0), 4, 1, 3, 8, 0, 1, 5);
    ts, r := MoreTokens(ts, r, Token(1, 0), 4, 0, 3, 8, 0, 1, 1);
    ts, r := MoreTokens(ts, r, Token(1, 0), 4, 0, 3, 8, 0, 1, 1);
  }

  lemma {:induction false} ExtraSizes()
    ensures Pow2(0) == 1 && ExtraBits(16) == 2 && ExtraBits(17) == 3 && ExtraBits(18) == 7
    ensures forall c :: 0 <= c < 16 ==> ExtraBits(c) == 0
    ensures TokensCoded(CodeSizes(), [])
  {
  }

  ghost function Head(): seq<bool>
  {
    Coded();
    HeaderBits(258, 2, 18, CodeSizes(), Tokens())
  }

  lemma {:induction false} HeadNumber() returns (s: Numbered)
    ensures Good(s) && s.w == Head() && s.n == 116 && s.p == 0x100000000000000000000000000000
      && s.v == 0x26d873fc775a6186000000024f821
  {
    Coded();
    Powers();
    hide Good, LowBits, SizeBits, TokenBits, TokensCoded, Pow2, Tokens, CodeSizes;
    s := Low(1, 5, 32);
    var x := Low(1, 5, 32);
    s := Behind(s, x);
    x := Low(14, 4, 16);
    s := Behind(s, x);
    x := SizesNumber();
    s := Behind(s, x);
    var ts;
    x, ts := TokensNumber();
    s := Behind(s, x);
  }

  // ---- its body

  lemma {:induction false} LitRanks()
    ensures var l := LitSizes();
      && l[97] == l[98] == l[99] == l[100] == 3 && l[256] == l[257] == 2
      && CountUpTo(l, 3, 97) == 0 && CountUpTo(l, 3, 98) == 1 && CountUpTo(l, 3, 99) == 2 && CountUpTo(l, 3, 100) == 3
      && CountUpTo(l, 2, 256) == 0 && CountUpTo(l, 2, 257) == 1
  {
    hide CountUpTo;
    LitCount(3, 97);
    LitCount(3, 98);
    LitCount(3, 99);
    LitCount(3, 100);
    LitCount(2, 256);
    LitCount(2, 257);
  }

  lemma {:induction false} DynamicEach()
    ensures var l := LitSizes(); var d := DistSizes();
      && Encodable(l, d, Literal(0x61)) && Encodable(l, d, Literal(0x62)) && Encodable(l, d, Literal(0x63))
      && Encodable(l, d, Literal(0x64)) && Encodable(l, d, Match(3, 1)) && HasCode(l, 256)
  {
  }

  lemma {:induction false} DynamicEncodable()
    ensures AllEncodable(LitSizes(), DistSizes(), DynamicPart()) && HasCode(LitSizes(), 256)
  {
    DynamicEach();
    hide Encodable, LitSizes, DistSizes;
  }

  lemma {:induction false} LitWord(s: nat, before: nat, v: nat) returns (r: Numbered)
    requires s < 258 && LitSizes()[s] == 3 && CountUpTo(LitSizes(), 3, s) == before && Reversed(4 + before, 3) == v
    ensures Good(r) && r == Numbered(Codeword(LitSizes(), s), 3, 8, v)
  {
    LitFirsts();
    Powers();
    hide *;
    r := Word(LitSizes(), s, 3, 4, before, 8);
  }

  lemma {:induction false} DistWord() returns (r: Numbered)
    ensures Good(r) && r == Numbered(Codeword(DistSizes(), 0), 1, 2, 0)
  {
    DistUsed(1);
    DistCount(1);
    assert DistSizes()[0] == 1;
    Powers();
    SmallReversed();
    hide *;
    r := Word(DistSizes(), 0, 1, 0, 0, 2);
  }

  lemma {:induction false} MatchWord() returns (r: Numbered)
    ensures Good(r) && r == Numbered(Codeword(LitSizes(), 257), 2, 4, 2)
  {
    LitFirsts();
    LitRanks();
    Powers();
    SmallReversed();
    hide *;
    r := Word(LitSizes(), 257, 2, 0, 1, 4);
  }

  lemma {:induction false} DynamicMatch() returns (s: Numbered)
    requires Encodable(LitSizes(), DistSizes(), Match(3, 1))
    ensures Good(s) && s.w == CodeBits(LitSizes(), DistSizes(), Match(3, 1)) && s.n == 3 && s.p == 8 && s.v == 2
  {
    ExtraSizes();
    Symbols();
    hide *;
    var x := MatchWord();
    var y := DistWord();
    s := MatchNumber(LitSizes(), DistSizes(), 3, 1, x, y, 1, 1);
  }

  lemma {:induction false} DynamicBody() returns (r: Numbered, cs: seq<LzCode>)
    ensures AllEncodable(LitSizes(), DistSizes(), cs) && Good(r) && r.w == BodyBits(LitSizes(), DistSizes(), cs)
    ensures cs == [Literal(0x61), Literal(0x62), Literal(0x63), Literal(0x64), Match(3, 1)]
    ensures r.n == 15 && r.p == 0x8000 && r.v == 0x2ee9
  {
    var lit, dst := LitSizes(), DistSizes();
    DynamicEach();
    NoCodesYet(lit, dst);
    LitRanks();
    SmallReversed();
    hide *;
    var a := LitWord(0x61, 0, 1);
    var b := LitWord(0x62, 1, 5);
    var c := LitWord(0x63, 2, 3);
    var d := LitWord(0x64, 3, 7);
    a := LiteralNumber(lit, dst, 0x61, a);
    b := LiteralNumber(lit, dst, 0x62, b);
    c := LiteralNumber(lit, dst, 0x63, c);
    d := LiteralNumber(lit, dst, 0x64, d);
    var e := DynamicMatch();
    r := Nothing();
    cs := [];
    r, cs := BodyMore(lit, dst, cs, r, Literal(0x61), a);
    r, cs := BodyMore(lit, dst, cs, r, Literal(0x62), b);
    r, cs := BodyMore(lit, dst, cs, r, Literal(0x63), c);
    r, cs := BodyMore(lit, dst, cs, r, Literal(0x64), d);
    r, cs := BodyMore(lit, dst, cs, r, Match(3, 1), e);
  }

  lemma {:induction false} DynamicEnd() returns (r: Numbered)
    ensures Good(r) && r == Numbered(Codeword(LitSizes(), 256), 2, 4, 0)
  {
    LitFirsts();
    LitRanks();
    Powers();
    SmallReversed();
    hide *;
    r := Word(LitSizes(), 256, 2, 0, 0, 4);
  }

  ghost function Dynamic(): seq<bool>
  {
    DynamicEncodable();
    TypeBits(true, 2) + (Head() + (BodyBits(LitSizes(), DistSizes(), DynamicPart()) + Codeword(LitSizes(), 256)))
  }

  lemma {:induction false} DynamicNumber() returns (s: Numbered)
    ensures Good(s) && s.w == Dynamic() && s.n == 136 && s.p == 0x10000000000000000000000000000000000
      && s.v == 0x1774936c39fe3bad30c30000000127c10d
  {
    hide Good, Codeword, LitSizes, DistSizes, AllEncodable, TypeBits, BodyBits, Head;
    var t := Type(true, 2);
    var h := HeadNumber();
    var b, cs := DynamicBody();
    var e := DynamicEnd();
    var r := Behind(b, e);
    r := Behind(h, r);
    s := Behind(t, r);
  }

  // ---- the whole stream

  /** The blocks are the bits of the data, but for zeros at the end. */
  lemma {:induction false} DataIs()
    ensures Stored() + Fixed() + Dynamic() <= BytesToBits(Data())
    ensures |Stored()| == 80 && |Stored() + Fixed()| == 140 && |Stored() + Fixed() + Dynamic()| == 276
  {
    hide Stored, Fixed, Dynamic, BytesToBits, Data, Pow2, ToBits;
    var a := StoredNumber();
    var b := FixedNumber();
    var c := DynamicNumber();
    var r := Behind(a, b);
    r := Behind(r, c);
    var d := DataNumber();
    ToBitsTake(d.v, d.n, r.n);
  }

  /** The copies of the second block. */
  lemma {:induction false} TextParsed()
    ensures Parsed(Text(), 0, 5, FixedPart(), 145) && Parsed(Text(), 0, 145, DynamicPart(), 152)
  {
    var src := Text();
    Copies();
    TextAt();
    StartOf(src);
    hide Parsed, NearMatch, Text;
    ParsedLiteral(src, 0, 5, [], 5);
    ParsedLiteral(src, 0, 5, [] + [Literal(0x61)], 6);
    ParsedMatch(src, 0, 5, [] + [Literal(0x61)] + [Literal(0xF0)], 7, 20, 7);
    ParsedMatch(src, 0, 5, [] + [Literal(0x61)] + [Literal(0xF0)] + [Match(20, 7)], 27, 118, 6);
    assert [] + [Literal(0x61)] + [Literal(0xF0)] + [Match(20, 7)] + [Match(118, 6)] == FixedPart();
    ParsedLiteral(src, 0, 145, [], 145);
    ParsedLiteral(src, 0, 145, [] + [Literal(0x61)], 146);
    ParsedLiteral(src, 0, 145, [] + [Literal(0x61)] + [Literal(0x62)], 147);
    ParsedLiteral(src, 0, 145, [] + [Literal(0x61)] + [Literal(0x62)] + [Literal(0x63)], 148);
    var four := [] + [Literal(0x61)] + [Literal(0x62)] + [Literal(0x63)] + [Literal(0x64)];
    ParsedMatch(src, 0, 145, four, 149, 3, 1);
    assert four + [Match(3, 1)] == DynamicPart();
  }

  lemma {:induction false} StartOf(src: seq<byte>)
    requires |src| == 152
    ensures Parsed(src, 0, 5, [], 5) && Parsed(src, 0, 145, [], 145)
  {
  }

  lemma {:induction false} TextAt()
    ensures var t := Text();
      t[5] == 0x61 && t[6] == 0xF0 && t[145] == 0x61 && t[146] == 0x62 && t[147] == 0x63 && t[148] == 0x64
  {
  }

  lemma {:induction false} Copies()
    ensures NearMatch(Text(), 0, 7, 20, 7) && NearMatch(Text(), 0, 27, 118, 6) && NearMatch(Text(), 0, 149, 3, 1)
  {
    hide Text;
    Repeated(7, 20, 7);
    Repeated(27, 118, 6);
    Repeated(149, 3, 1);
  }

  lemma {:induction false} Repeated(pos: nat, len: nat, dist: nat)
    requires (pos, len, dist) in {(7, 20, 7), (27, 118, 6), (149, 3, 1)}
    ensures Repeats(Text(), pos, len, dist)
  {
    hide Words;
    forall k | pos <= k < pos + len
      ensures Text()[k] == Text()[k - dist]
    {
      assert TextByte(k) == TextByte(k - dist);
    }
  }

  lemma {:induction false} StoredMeans()
    ensures Means(Stored(), 0, false, [], Text()[..5])
  {
    HelloFirst();
    hide Means, Text, StoredBits, TypeBits, Hello;
    StoredBlock(false, Hello(), 0, []);
  }

  lemma {:induction false} HelloFirst()
    ensures |Hello()| == 5 && [] + Hello() == Text()[..5]
  {
  }

  /** What recorded codes stand for. */
  lemma {:induction false} ParsedMeans(src: seq<byte>, dictPos: nat, cs: seq<LzCode>, upTo: nat)
    requires Parsed(src, 0, dictPos, cs, upTo)
    ensures dictPos <= upTo <= |src| && AllApply(cs, |src[..dictPos]|) && Expand(src[..dictPos], cs) == src[..upTo]
  {
  }

  lemma {:induction false} FixedMeans()
    ensures Means(Fixed(), 80, false, Text()[..5], Text()[..145])
  {
    TextParsed();
    FixedEncodable();
    hide Means, Text, Parsed, AllEncodable, TypeBits, BodyBits, Codeword, FixedLit, FixedDist, AllApply, Expand;
    ParsedMeans(Text(), 5, FixedPart(), 145);
    FixedBlock(false, FixedPart(), 80, Text()[..5]);
  }

  lemma {:induction false} DynamicMeans()
    ensures Means(Dynamic(), 140, true, Text()[..145], Text())
  {
    TextParsed();
    DynamicEncodable();
    PreparedBlock();
    Coded();
    hide Means, Text, Parsed, Prepared, AllEncodable, TypeBits, BodyBits, HeaderBits, Codeword, LitSizes, DistSizes,
      CodeSizes, Tokens, TokensCoded, AllApply, Expand;
    assert Text()[..152] == Text();
    ParsedMeans(Text(), 145, DynamicPart(), 152);
    DynamicBlock(true, LitSizes(), DistSizes(), 258, 2, 18, CodeSizes(), Tokens(), DynamicPart(), 140, Text()[..145]);
  }

  /** The reference decoder reads exactly that text from exactly those bytes. */
  lemma {:induction false} ReadsText()
    ensures StreamAt(BytesToBits(Data()), 0, []) == Got(Text(), 276)
  {
    hide Means, Text, BytesToBits, Data, Stored, Fixed, Dynamic, StreamAt;
    StoredMeans();
    FixedMeans();
    DynamicMeans();
    DataIs();
    OnlyHeader([]);
    NextBlock([], [], Stored(), [], Text()[..5]);
    assert [] + Stored() == Stored();
    NextBlock([], Stored(), Fixed(), Text()[..5], Text()[..145]);
    LastBlock([], Stored() + Fixed(), Dynamic(), Text()[..145], Text());
  }
}
