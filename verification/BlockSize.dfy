/** How many bits a compressed block can take, whatever the codes in the buffer. */
module BlockSize {
  import opened Bits
  import opened Canonical
  import opened LzCodes
  import opened SymbolCounts
  import opened LzBuffers
  import opened MinRedundancy
  import opened Optimality
  import opened LengthLists
  import opened LimitCost
  import opened TableCost
  import opened RunPacking
  import opened DeflateSpec
  import opened DeflateBlocks
  import opened BlockForms

  // ---- weights of codes

  /** Literals weigh a, matches b. */
  function Weight(cs: seq<LzCode>, a: nat, b: nat): nat
  {
    if cs == [] then 0 else Weight(cs[..|cs| - 1], a, b) + (if cs[|cs| - 1].Literal? then a else b)
  }

  lemma {:induction false} WeightSplit(x: seq<LzCode>, y: seq<LzCode>, a: nat, b: nat)
    ensures Weight(x + y, a, b) == Weight(x, a, b) + Weight(y, a, b)
  {
    if y == [] {
      assert x + y == x;
    } else {
      var n := |y| - 1;
      WeightSplit(x, y[..n], a, b);
      assert (x + y)[..|x| + n] == x + y[..n];
    }
  }

  lemma {:induction false} WeightOne(c: LzCode, a: nat, b: nat)
    ensures Weight([c], a, b) == if c.Literal? then a else b
  {
    assert [c][..0] == [];
  }

  lemma {:induction false} PayloadWeight(cs: seq<LzCode>, a: nat, b: nat)
    requires AllOk(cs) && 25 * a <= 9 * b
    ensures 25 * Weight(cs, a, b) <= 8 * (b * |Payload(cs)|) + b * |cs|
  {
    hide Weight;
    if cs != [] {
      assert cs == [cs[0]] + cs[1..];
      WeightSplit([cs[0]], cs[1..], a, b);
      WeightOne(cs[0], a, b);
      PayloadWeight(cs[1..], a, b);
      AddTimes(b, |CodeBytes(cs[0])|, |Payload(cs[1..])|);
      AddTimes(b, 1, |cs| - 1);
    } else {
      NoWeight(a, b);
    }
  }

  lemma {:induction false} NoWeight(a: nat, b: nat)
    ensures Weight([], a, b) == 0
  {
  }

  lemma {:induction false} AddTimes(b: int, x: int, y: int)
    ensures b * (x + y) == b * x + b * y
  {
  }

  lemma {:induction false} GroupWeight(cs: seq<LzCode>, a: nat, b: nat)
    requires AllOk(cs) && |cs| <= 8 && 25 * a <= 9 * b
    ensures 25 * Weight(cs, a, b) <= 8 * (b * |Group(cs)|)
  {
    hide Weight, Payload, FromBits;
    PayloadWeight(cs, a, b);
    MulMono(b, |cs|, 8);
    AddTimes(b, 1, |Payload(cs)|);
  }

  /** A match takes up 25 eighths of a byte of the LZ code buffer, a literal 9. */
  lemma {:induction false} ImageWeight(cs: seq<LzCode>, a: nat, b: nat)
    requires AllOk(cs) && 25 * a <= 9 * b
    ensures 25 * Weight(cs, a, b) <= 8 * (b * |Image(cs)|)
    decreases |cs|
  {
    hide Weight, Group;
    if cs == [] {
      NoWeight(a, b);
    } else if |cs| <= 8 {
      GroupWeight(cs, a, b);
    } else {
      assert cs == cs[..8] + cs[8..];
      WeightSplit(cs[..8], cs[8..], a, b);
      GroupWeight(cs[..8], a, b);
      ImageWeight(cs[8..], a, b);
      AddTimes(b, |Group(cs[..8])|, |Image(cs[8..])|);
    }
  }

  /** The whole buffer. */
  lemma {:induction false} BufferWeight(cs: seq<LzCode>, a: nat, b: nat)
    requires AllOk(cs) && 25 * a <= 9 * b && |Image(cs)| <= LZ_CODE_BUF_SIZE
    ensures 25 * Weight(cs, a, b) <= 8 * (b * LZ_CODE_BUF_SIZE)
  {
    hide Weight, Image;
    ImageWeight(cs, a, b);
    MulMono(b, |Image(cs)|, LZ_CODE_BUF_SIZE);
  }

  // ---- the size of a body

  /** The bits that follow the symbols. */
  function Extras(c: LzCode): nat
    requires CodeOk(c)
  {
    if c.Literal? then 0 else LenExtra(c.len - 3) + DistExtra(c.dist - 1)
  }

  function AllExtras(cs: seq<LzCode>): nat
    requires AllOk(cs)
  {
    if cs == [] then 0 else AllExtras(cs[..|cs| - 1]) + Extras(cs[|cs| - 1])
  }

  lemma {:induction false} CostBump(w: seq<nat>, l: seq<nat>, i: nat)
    requires i < |w| == |l|
    ensures Cost(Bump(w, i), l) == Cost(w, l) + l[i]
  {
    CostWithout(w, l, i);
    CostWithout(Bump(w, i), l, i);
    assert Without(Bump(w, i), i) == Without(w, i);
    assert (w[i] + 1) * l[i] == w[i] * l[i] + l[i];
  }

  lemma {:induction false} CostOfNone(w: seq<nat>, l: seq<nat>)
    requires |w| == |l| && forall i :: 0 <= i < |w| ==> w[i] == 0
    ensures Cost(w, l) == 0
  {
    if w != [] {
      CostOfNone(w[1..], l[1..]);
    }
  }

  lemma {:induction false} CodeSize(lit: seq<nat>, dst: seq<nat>, c: LzCode)
    requires |lit| == 288 && |dst| == 32 && Encodable(lit, dst, c)
    ensures |CodeBits(lit, dst, c)| == lit[LitSym(c)] + (if c.Literal? then 0 else dst[MatchSym(c)]) + Extras(c)
  {
    hide LenSym, LenExtra, DistSym, DistExtra, LowBits;
  }

  /** The bits of a body: what the symbols cost, and the extra bits. */
  lemma {:induction false} BodyCost(lit: seq<nat>, dst: seq<nat>, cs: seq<LzCode>)
    requires |lit| == 288 && |dst| == 32 && AllOk(cs) && AllEncodable(lit, dst, cs)
    ensures |BodyBits(lit, dst, cs)| == Cost(LitCounts(cs), lit) + Cost(DistCounts(cs), dst) + AllExtras(cs)
  {
    hide Cost, CodeBits, Encodable, Extras, LitSym, MatchSym, Bump, CodeOk;
    if cs == [] {
      CostOfNone(LitCounts(cs), lit);
      CostOfNone(DistCounts(cs), dst);
    } else {
      var n := |cs| - 1;
      var c := cs[n];
      BodyCost(lit, dst, cs[..n]);
      assert CodeOk(c) && Encodable(lit, dst, c);
      CodeSize(lit, dst, c);
      CostBump(LitCounts(cs[..n]), lit, LitSym(c));
      if c.Match? {
        CostBump(DistCounts(cs[..n]), dst, MatchSym(c));
      }
    }
  }

  // ---- fixed codes

  lemma {:induction false} FixedCodeSize(c: LzCode)
    requires Encodable(FixedLit(), FixedDist(), c)
    ensures |CodeBits(FixedLit(), FixedDist(), c)| <= if c.Literal? then 9 else 31
  {
    if c.Match? {
      LengthReadsBack(c.len - 3);
      DistReadsBack(c.dist - 1);
    }
  }

  lemma {:induction false} FixedBodySize(cs: seq<LzCode>)
    requires AllEncodable(FixedLit(), FixedDist(), cs)
    ensures |BodyBits(FixedLit(), FixedDist(), cs)| <= Weight(cs, 9, 31)
  {
    hide FixedLit, FixedDist, CodeBits, Encodable;
    if cs != [] {
      FixedBodySize(cs[..|cs| - 1]);
      FixedCodeSize(cs[|cs| - 1]);
    }
  }

  lemma {:induction false} FixedEncodes(c: LzCode)
    requires CodeOk(c)
    ensures Encodable(FixedLit(), FixedDist(), c)
  {
    if c.Match? {
      LengthReadsBack(c.len - 3);
      DistReadsBack(c.dist - 1);
    }
  }

  lemma {:induction false} FixedEncodable(cs: seq<LzCode>)
    requires AllOk(cs)
    ensures AllEncodable(FixedLit(), FixedDist(), cs) && HasCode(FixedLit(), 256)
  {
    forall i | 0 <= i < |cs|
      ensures Encodable(FixedLit(), FixedDist(), cs[i])
    {
      FixedEncodes(cs[i]);
    }
  }

  /** A block in fixed codes always fits. */
  lemma {:induction false} FixedFits(cs: seq<LzCode>)
    requires AllOk(cs) && |Image(cs)| <= LZ_CODE_BUF_SIZE && AllEncodable(FixedLit(), FixedDist(), cs)
    ensures |BodyBits(FixedLit(), FixedDist(), cs)| <= 650118 && HasCode(FixedLit(), 256)
      && |Codeword(FixedLit(), 256)| == 7
  {
    hide AllOk, Image, AllEncodable, BodyBits, Weight;
    FixedBodySize(cs);
    BufferWeight(cs, 9, 31);
  }

  // ---- fixed codes as an alternative to dynamic ones

  lemma {:induction false} KraftOfEqual(l: seq<nat>, v: nat)
    requires forall i :: 0 <= i < |l| ==> l[i] == v
    ensures Kraft(l, v) == |l|
  {
    if l != [] {
      KraftOfEqual(l[1..], v);
      assert Pow2(0) == 1;
    }
  }

  lemma {:induction false} FixedLitFrom(k: nat)
    requires k <= 288
    ensures forall i :: 0 <= i < 288 ==> FixedLit()[i] <= 9
    ensures Kraft(FixedLit()[k..], 9) ==
            if k >= 280 then 2 * (288 - k) else if k >= 256 then 16 + 4 * (280 - k)
            else if k >= 144 then 112 + (256 - k) else 224 + 2 * (144 - k)
    decreases 288 - k
  {
    if k < 288 {
      FixedLitFrom(k + 1);
      assert FixedLit()[k..][1..] == FixedLit()[k + 1..];
      assert Pow2(0) == 1 && Pow2(1) == 2 && Pow2(2) == 4;
    }
  }

  lemma {:induction false} FixedLitKraft()
    ensures KraftFits(FixedLit(), 9)
  {
    FixedLitFrom(0);
    assert FixedLit()[0..] == FixedLit();
    Pow2Values();
  }

  lemma {:induction false} FixedDistKraft()
    ensures KraftFits(FixedDist(), 5)
  {
    KraftOfEqual(FixedDist(), 5);
    assert Pow2(5) == 32;
  }

  lemma {:induction false} FixedAlternatives(lits: seq<nat>, dists: seq<nat>)
    requires |lits| == 288 && |dists| == 32
    ensures Alternative(lits, FixedLit(), 9) && Alternative(dists, FixedDist(), 5)
    ensures Few(288, LONGEST, 6) && Few(32, LONGEST, 10) && Pow2(LONGEST - 1 - 6) == 256 && Pow2(LONGEST - 1 - 10) == 16
  {
    FixedLitKraft();
    FixedDistKraft();
    Pow2Values();
  }

  // ---- dynamic codes

  lemma {:induction false} WeightParts(cs: seq<LzCode>)
    ensures 512 * Weight(cs, 9, 31) + 544 * |cs| + 48 * Matches(cs) == Weight(cs, 5152, 16464)
  {
    if cs != [] {
      WeightParts(cs[..|cs| - 1]);
    }
  }

  /** With the end of the block counted once. */
  lemma {:induction false} WithEnd(cs: seq<LzCode>, l: seq<nat>)
    requires AllOk(cs) && |l| == 288
    ensures Sum(LitCounts(cs)[256 := 1]) == |cs| + 1
    ensures Cost(LitCounts(cs)[256 := 1], l) == Cost(LitCounts(cs), l) + l[256]
  {
    hide LitCounts, Cost, Sum;
    NeverCounted(cs);
    CountSums(cs);
    BumpSum(LitCounts(cs), 256);
    CostBump(LitCounts(cs), l, 256);
  }

  /** The body of a dynamic block and the code of its end, in units of 1/512 bit. */
  lemma {:induction false} DynamicWeight(lit: seq<nat>, dst: seq<nat>, cs: seq<LzCode>)
    requires |lit| == 288 && |dst| == 32 && AllOk(cs) && AllEncodable(lit, dst, cs)
    requires CloseToBest(LitCounts(cs)[256 := 1], lit) && CloseToBest(DistCounts(cs), dst)
    ensures 512 * (|BodyBits(lit, dst, cs)| + lit[256]) <= Weight(cs, 5152, 16464) + 4128
  {
    hide LitCounts, DistCounts, Cost, Sum, BodyBits, AllExtras, Weight, Encodable, Alternative, Few, Pow2, AllOk;
    var lits, dists := LitCounts(cs)[256 := 1], DistCounts(cs);
    BodyCost(lit, dst, cs);
    FixedEncodable(cs);
    BodyCost(FixedLit(), FixedDist(), cs);
    FixedBodySize(cs);
    WeightParts(cs);
    WithEnd(cs, lit);
    WithEnd(cs, FixedLit());
    CountSums(cs);
    FixedAlternatives(lits, dists);
    assert FixedLit()[256] == 7;
    hide FixedLit, FixedDist;
    assert 512 * Cost(lits, lit) <= 512 * Cost(lits, FixedLit()) + Sum(lits) * (288 + 256);
    assert 512 * Cost(dists, dst) <= 512 * Cost(dists, FixedDist()) + Sum(dists) * (32 + 16);
  }

  /** A block in dynamic codes always fits. */
  lemma {:induction false} DynamicFits(lit: seq<nat>, dst: seq<nat>, cs: seq<LzCode>)
    requires |lit| == 288 && |dst| == 32 && AllOk(cs) && AllEncodable(lit, dst, cs) && |Image(cs)| <= LZ_CODE_BUF_SIZE
    requires CloseToBest(LitCounts(cs)[256 := 1], lit) && CloseToBest(DistCounts(cs), dst)
    ensures |BodyBits(lit, dst, cs)| + lit[256] <= 674400
  {
    hide CloseToBest, BodyBits, AllEncodable, Image, Weight, AllOk;
    DynamicWeight(lit, dst, cs);
    BufferWeight(cs, 5152, 16464);
  }

  // ---- the header

  lemma {:induction false} TokenSizes(cl: seq<nat>, ts: seq<Token>)
    requires TokensCoded(cl, ts) && forall i :: 0 <= i < |cl| ==> cl[i] < 8
    ensures |TokenBits(cl, ts)| <= 14 * |ts|
  {
    if ts != [] {
      TokenSizes(cl, ts[..|ts| - 1]);
    }
  }

  lemma {:induction false} HeaderSize(nl: nat, nd: nat, nc: nat, cl: seq<nat>, ts: seq<Token>)
    requires nl >= 257 && nd >= 1 && SentSizes(cl, nc) && TokensCoded(cl, ts) && |ts| <= 316
    ensures |HeaderBits(nl, nd, nc, cl, ts)| <= 4495
  {
    hide TokensCoded, TokenBits, SizeBits, LowBits, Accepts;
    TokenSizes(cl, ts);
  }
}
