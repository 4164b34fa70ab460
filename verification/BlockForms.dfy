/** The three block forms of tdefl, and what each means to the reference decoder. */
module BlockForms {
  import opened Bits
  import opened Canonical
  import opened LzCodes
  import opened RunPacking
  import opened DeflateSpec
  import opened DeflateBlocks
  import HuffTables

  /** Wherever w stands at position from, it is one block that takes out to out2. */
  ghost predicate Means(w: seq<bool>, from: nat, final: bool, out: seq<byte>, out2: seq<byte>)
  {
    forall bits :: Stands(w, bits, from) ==> BlockAt(bits, from, out) == Got(Block(final, out2), from + |w|)
  }

  // ---- block headers

  function TypeBits(final: bool, kind: nat): (r: seq<bool>)
    ensures |r| == 3
  {
    LowBits(if final then 1 else 0, 1) + LowBits(kind, 2)
  }

  lemma {:induction false} ReadType(final: bool, kind: nat, bits: seq<bool>, pos: nat)
    requires kind < 4 && Stands(TypeBits(final, kind), bits, pos)
    ensures Field(bits, pos, 3) == Got((if final then 1 else 0) + 2 * kind, pos + 3)
  {
    var f := if final then 1 else 0;
    assert Pow2(1) == 2 && Pow2(2) == 4 && Pow2(3) == 8;
    ToBitsMod(f, 1);
    ToBitsMod(kind, 2);
    ToBitsAppend(f, 1, kind, 2);
    assert f + kind * 2 == f + 2 * kind;
    assert TypeBits(final, kind) == ToBits(f + 2 * kind, 3);
    ToBitsMod(f + 2 * kind, 3);
    ReadSmall(f + 2 * kind, 3, bits, pos);
  }

  /** A block is its type and then its content. */
  lemma {:induction false} BlockOf(final: bool, kind: nat, w: seq<bool>, bits: seq<bool>, pos: nat, out: seq<byte>,
                                   out2: seq<byte>)
    requires kind < 3 && Stands(TypeBits(final, kind) + w, bits, pos)
    requires ContentAt(kind, bits, pos + 3, out) == Got(out2, pos + 3 + |w|)
    ensures BlockAt(bits, pos, out) == Got(Block(final, out2), pos + |TypeBits(final, kind) + w|)
  {
    hide ContentAt, TypeBits;
    StandsSplit(TypeBits(final, kind), w, bits, pos);
    ReadType(final, kind, bits, pos);
  }

  // ---- stored blocks

  function Padding(pos: nat): (r: seq<bool>)
    ensures |r| == Align(pos) - pos
  {
    seq(Align(pos) - pos, _ => false)
  }

  function StoredBits(from: nat, data: seq<byte>): seq<bool>
  {
    Padding(from) + LowBits(|data|, 16) + LowBits(65535 - |data| % 65536, 16) + BytesToBits(data)
  }

  lemma {:induction false} ReadBytes(data: seq<byte>, bits: seq<bool>, pos: nat)
    requires Stands(BytesToBits(data), bits, pos)
    ensures BytesAt(bits, pos, |data|) == data
  {
    if data != [] {
      var n := |data| - 1;
      assert data == data[..n] + [data[n]];
      BytesToBitsConcat(data[..n], [data[n]]);
      StandsSplit(BytesToBits(data[..n]), BytesToBits([data[n]]), bits, pos);
      ReadBytes(data[..n], bits, pos);
      OneByte(data[n]);
      ReadByte(data[n], bits, pos + 8 * n);
    }
  }

  lemma {:induction false} ReadByte(b: byte, bits: seq<bool>, pos: nat)
    requires Stands(ToBits(b, 8), bits, pos)
    ensures pos + 8 <= |bits| && ByteAt(bits, pos) == b
  {
    hide ToBits;
    assert bits[pos..pos + 8] == bits[pos..][..8] == ToBits(b, 8);
    Pow2Of8();
    FromTo(b, 8);
  }

  lemma {:induction false} Pow2Of16()
    ensures Pow2(16) == 65536
  {
    Pow2Of8();
    Pow2Add(8, 8);
  }

  lemma {:induction false} ReadStored(data: seq<byte>, bits: seq<bool>, from: nat, out: seq<byte>)
    requires |data| < 65536 && Stands(StoredBits(from, data), bits, from)
    ensures StoredAt(bits, from, out) == Got(out + data, from + |StoredBits(from, data)|)
  {
    hide Pow2, ToBits, BytesToBits, Align;
    var n, m := |data|, 65535 - |data|;
    Pow2Of16();
    var a, b, c := Padding(from) + LowBits(n, 16), LowBits(m, 16), BytesToBits(data);
    assert StoredBits(from, data) == a + b + c;
    StandsSplit(a + b, c, bits, from);
    StandsSplit(a, b, bits, from);
    StandsSplit(Padding(from), LowBits(n, 16), bits, from);
    ReadSmall(n, 16, bits, Align(from));
    ReadSmall(m, 16, bits, Align(from) + 16);
    ReadBytes(data, bits, Align(from) + 32);
  }

  /** A stored block adds its bytes. */
  lemma {:induction false} StoredBlock(final: bool, data: seq<byte>, from: nat, out: seq<byte>)
    requires |data| < 65536
    ensures Means(TypeBits(final, 0) + StoredBits(from + 3, data), from, final, out, out + data)
  {
    hide StoredBits, StoredAt, TypeBits, BlockAt;
    var w := StoredBits(from + 3, data);
    forall bits | Stands(TypeBits(final, 0) + w, bits, from)
      ensures BlockAt(bits, from, out) == Got(Block(final, out + data), from + |TypeBits(final, 0) + w|)
    {
      StandsSplit(TypeBits(final, 0), w, bits, from);
      ReadStored(data, bits, from + 3, out);
      BlockOf(final, 0, w, bits, from, out, out + data);
    }
  }

  // ---- fixed codes

  lemma {:induction false} FixedCount(l: nat, k: nat)
    requires k <= 288
    ensures CountUpTo(FixedLit(), l, k) ==
            if l == 8 then (if k <= 144 then k else if k <= 280 then 144 else k - 136)
            else if l == 9 then (if k <= 144 then 0 else if k <= 256 then k - 144 else 112)
            else if l == 7 then (if k <= 256 then 0 else if k <= 280 then k - 256 else 24)
            else 0
  {
    if k > 0 {
      FixedCount(l, k - 1);
    }
  }

  lemma {:induction false} FixedDistCount(l: nat, k: nat)
    requires k <= 32
    ensures CountUpTo(FixedDist(), l, k) == if l == 5 then k else 0
  {
    if k > 0 {
      FixedDistCount(l, k - 1);
    }
  }

  lemma {:induction false} FixedUsed(l: nat)
    requires 9 <= l
    ensures Used(FixedLit(), l) == Pow2(l)
    decreases l
  {
    hide CountUpTo, FixedLit;
    FixedCount(l, 288);
    FixedCount(l - 1, 288);
    if l == 9 {
      FixedFirst(7);
      FixedCount(7, 288);
      HuffTables.Pow2Of9();
    } else {
      FixedUsed(l - 1);
    }
  }

  lemma {:induction false} FixedFirst(l: nat)
    requires 1 <= l <= 7
    ensures NextCode(FixedLit(), l) == 0
  {
    hide CountUpTo, FixedLit;
    if l > 1 {
      FixedFirst(l - 1);
      FixedCount(l - 1, 288);
    }
  }

  lemma {:induction false} FixedDistUsed(l: nat)
    requires 5 <= l
    ensures Used(FixedDist(), l) == Pow2(l)
    decreases l
  {
    hide CountUpTo, FixedDist;
    FixedDistCount(l, 32);
    FixedDistCount(l - 1, 32);
    if l == 5 {
      FixedDistFirst(4);
      assert Pow2(5) == 32;
    } else {
      FixedDistUsed(l - 1);
    }
  }

  lemma {:induction false} FixedDistFirst(l: nat)
    requires 1 <= l <= 4
    ensures NextCode(FixedDist(), l) == 0
  {
    hide CountUpTo, FixedDist;
    if l > 1 {
      FixedDistFirst(l - 1);
      FixedDistCount(l - 1, 32);
    }
  }

  /** The fixed codes use up the code space, and every symbol has one. */
  lemma {:induction false} FixedComplete()
    ensures ValidLengths(FixedLit()) && Complete(FixedLit()) && ValidLengths(FixedDist()) && Complete(FixedDist())
    ensures GoodTables(FixedLit(), FixedDist()) && HasCode(FixedLit(), 256)
  {
    hide Pow2, Used;
    FixedUsed(MAX_LEN);
    FixedDistUsed(MAX_LEN);
  }

  lemma {:induction false} FixedContent(bits: seq<bool>, pos: nat, out: seq<byte>)
    ensures ContentAt(1, bits, pos, out) == BodyAt(FixedLit(), FixedDist(), bits, pos, out)
  {
  }

  lemma {:induction false} ReadFixedBlock(final: bool, cs: seq<LzCode>, bits: seq<bool>, from: nat, out: seq<byte>)
    requires AllEncodable(FixedLit(), FixedDist(), cs) && AllApply(cs, |out|)
    requires Stands(TypeBits(final, 1) + (BodyBits(FixedLit(), FixedDist(), cs) + Codeword(FixedLit(), 256)), bits,
      from)
    ensures BlockAt(bits, from, out) ==
            Got(Block(final, Expand(out, cs)),
              from + |TypeBits(final, 1) + (BodyBits(FixedLit(), FixedDist(), cs) + Codeword(FixedLit(), 256))|)
  {
    hide *;
    FixedComplete();
    var lit, dst := FixedLit(), FixedDist();
    var w := BodyBits(lit, dst, cs) + Codeword(lit, 256);
    StandsSplit(TypeBits(final, 1), w, bits, from);
    ReadBody(lit, dst, cs, bits, from + 3, out);
    FixedContent(bits, from + 3, out);
    BlockOf(final, 1, w, bits, from, out, Expand(out, cs));
  }

  /** A block in the fixed codes adds what its codes stand for. */
  lemma {:induction false} FixedBlock(final: bool, cs: seq<LzCode>, from: nat, out: seq<byte>)
    requires AllEncodable(FixedLit(), FixedDist(), cs) && AllApply(cs, |out|)
    ensures Means(TypeBits(final, 1) + (BodyBits(FixedLit(), FixedDist(), cs) + Codeword(FixedLit(), 256)), from, final,
      out, Expand(out, cs))
  {
    hide BlockAt, FixedLit, FixedDist;
    var w := BodyBits(FixedLit(), FixedDist(), cs) + Codeword(FixedLit(), 256);
    forall bits | Stands(TypeBits(final, 1) + w, bits, from)
      ensures BlockAt(bits, from, out) == Got(Block(final, Expand(out, cs)), from + |TypeBits(final, 1) + w|)
    {
      ReadFixedBlock(final, cs, bits, from, out);
    }
  }

  // ---- dynamic codes

  /** What precedes the body: the three counts, the code-length lengths, the packed lengths. */
  ghost function HeaderBits(nl: nat, nd: nat, nc: nat, cl: seq<nat>, ts: seq<Token>): seq<bool>
    requires nl >= 257 && nd >= 1 && 4 <= nc <= 19 == |cl| && TokensCoded(cl, ts)
  {
    (LowBits(nl - 257, 5) + LowBits(nd - 1, 5) + LowBits(nc - 4, 4)) + SizeBits(cl, nc) + TokenBits(cl, ts)
  }

  lemma {:induction false} ReadCounts(nl: nat, nd: nat, nc: nat, bits: seq<bool>, pos: nat)
    requires 257 <= nl <= 286 && 1 <= nd <= 30 && 4 <= nc <= 19
    requires Stands(LowBits(nl - 257, 5) + LowBits(nd - 1, 5) + LowBits(nc - 4, 4), bits, pos)
    ensures CountsAt(bits, pos) == Got(Counts(nl, nd, nc), pos + 14)
  {
    var a, b, c := LowBits(nl - 257, 5), LowBits(nd - 1, 5), LowBits(nc - 4, 4);
    assert Pow2(4) == 16 && Pow2(5) == 32;
    StandsSplit(a + b, c, bits, pos);
    StandsSplit(a, b, bits, pos);
    ReadSmall(nl - 257, 5, bits, pos);
    ReadSmall(nd - 1, 5, bits, pos + 5);
    ReadSmall(nc - 4, 4, bits, pos + 10);
  }

  /** The code-length lengths are small, those that are not sent are zero, and tinfl takes them. */
  ghost predicate SentSizes(cl: seq<nat>, nc: nat)
  {
    && |cl| == 19 && 4 <= nc <= 19 && Accepts(cl)
    && (forall i :: 0 <= i < 19 ==> cl[i] < 8)
    && forall i :: nc <= i < 19 ==> cl[Swizzle(i)] == 0
  }

  lemma {:induction false} ReadSentSizes(cl: seq<nat>, nc: nat, bits: seq<bool>, pos: nat)
    requires SentSizes(cl, nc) && Stands(SizeBits(cl, nc), bits, pos)
    ensures SizesAt(bits, pos, nc) == Got(cl, pos + 3 * nc)
    ensures ValidLengths(cl) && Fits(cl)
  {
    assert Pow2(3) == 8;
    ReadSizes(cl, nc, bits, pos);
    PartialIsAll(cl, nc);
    HuffTables.AcceptedFits(cl);
  }

  /** tinfl gets back the two tables. */
  lemma {:induction false} ReadHeader(lit: seq<nat>, dst: seq<nat>, nc: nat, cl: seq<nat>, ts: seq<Token>,
                                      bits: seq<bool>, pos: nat)
    requires 257 <= |lit| <= 286 && 1 <= |dst| <= 30 && Accepts(lit) && Accepts(dst)
    requires SentSizes(cl, nc) && TokensCoded(cl, ts) && Unpack(ts) == Some(lit + dst)
    requires Stands(HeaderBits(|lit|, |dst|, nc, cl, ts), bits, pos)
    ensures HeaderAt(bits, pos) == Got(Tables(lit, dst), pos + |HeaderBits(|lit|, |dst|, nc, cl, ts)|)
  {
    hide LowBits, SizeBits, TokenBits, Unpack, Accepts, LengthsAt, SizesAt, CountsAt, Fits, ValidLengths, TokensCoded;
    var nl, nd := |lit|, |dst|;
    var a, b, c := LowBits(nl - 257, 5) + LowBits(nd - 1, 5) + LowBits(nc - 4, 4), SizeBits(cl, nc), TokenBits(cl, ts);
    StandsSplit(a + b, c, bits, pos);
    StandsSplit(a, b, bits, pos);
    ReadCounts(nl, nd, nc, bits, pos);
    ReadSentSizes(cl, nc, bits, pos + 14);
    ReadTokens(cl, ts, bits, pos + 14 + 3 * nc);
    assert (lit + dst)[..nl] == lit && (lit + dst)[nl..] == dst;
    assert |a| == 14;
  }

  /** a is lens without zeros at the end. */
  ghost predicate TrimOf(a: seq<nat>, lens: seq<nat>)
  {
    a <= lens && forall i :: |a| <= i < |lens| ==> lens[i] == 0
  }

  lemma {:induction false} TrimCount(a: seq<nat>, lens: seq<nat>, l: nat, k: nat)
    requires TrimOf(a, lens) && k <= |lens| && l > 0
    ensures CountUpTo(lens, l, k) == CountUpTo(a, l, if k <= |a| then k else |a|)
  {
    if k > 0 {
      TrimCount(a, lens, l, k - 1);
    }
  }

  lemma {:induction false} TrimNext(a: seq<nat>, lens: seq<nat>, l: nat)
    requires TrimOf(a, lens)
    ensures NextCode(a, l) == NextCode(lens, l) && Used(a, l) == Used(lens, l)
      && UsedSymbols(a, l) == UsedSymbols(lens, l)
  {
    hide TrimOf, CountUpTo;
    if l > 0 {
      TrimNext(a, lens, l - 1);
      WholeCount(a, lens, l);
      if l > 1 {
        WholeCount(a, lens, l - 1);
      }
    }
  }

  lemma {:induction false} WholeCount(a: seq<nat>, lens: seq<nat>, l: nat)
    requires TrimOf(a, lens) && l > 0
    ensures Count(a, l) == Count(lens, l)
  {
    TrimCount(a, lens, l, |lens|);
  }

  /** Leaving out unused symbols at the end changes no code word. */
  lemma {:induction false} TrimCode(a: seq<nat>, lens: seq<nat>, s: nat)
    requires TrimOf(a, lens) && HasCode(lens, s)
    ensures HasCode(a, s) && Codeword(a, s) == Codeword(lens, s)
  {
    TrimNext(a, lens, lens[s]);
    TrimCount(a, lens, lens[s], s);
  }

  lemma {:induction false} TrimAccepted(a: seq<nat>, lens: seq<nat>)
    requires TrimOf(a, lens) && Accepts(lens) && ValidLengths(lens)
    ensures Accepts(a) && ValidLengths(a) && Fits(a)
  {
    TrimNext(a, lens, MAX_LEN);
    HuffTables.AcceptedFits(a);
  }

  lemma {:induction false} TrimOne(a: seq<nat>, lit: seq<nat>, b: seq<nat>, dst: seq<nat>, c: LzCode)
    requires TrimOf(a, lit) && TrimOf(b, dst) && Encodable(lit, dst, c)
    ensures Encodable(a, b, c) && CodeBits(a, b, c) == CodeBits(lit, dst, c)
  {
    hide TrimOf, LenSym, DistSym, Codeword;
    match c {
      case Literal(x) => TrimCode(a, lit, x);
      case Match(len, dist) =>
        TrimCode(a, lit, LenSym(len - 3));
        TrimCode(b, dst, DistSym(dist - 1));
    }
  }

  lemma {:induction false} TrimBody(a: seq<nat>, lit: seq<nat>, b: seq<nat>, dst: seq<nat>, cs: seq<LzCode>)
    requires TrimOf(a, lit) && TrimOf(b, dst) && AllEncodable(lit, dst, cs)
    ensures AllEncodable(a, b, cs) && BodyBits(a, b, cs) == BodyBits(lit, dst, cs)
  {
    hide TrimOf, Encodable, CodeBits;
    if cs != [] {
      var n := |cs| - 1;
      TrimBody(a, lit, b, dst, cs[..n]);
      TrimOne(a, lit, b, dst, cs[n]);
    }
  }

  /** Everything that tdefl has worked out when it writes a dynamic block. */
  ghost predicate Prepared(lit: seq<nat>, dst: seq<nat>, nl: nat, nd: nat, nc: nat, cl: seq<nat>, ts: seq<Token>)
  {
    && 257 <= nl <= 286 && 1 <= nd <= 30 && nl <= |lit| && nd <= |dst|
    && TrimOf(lit[..nl], lit) && TrimOf(dst[..nd], dst)
    && Accepts(lit) && ValidLengths(lit) && Accepts(dst) && ValidLengths(dst)
    && SentSizes(cl, nc) && TokensCoded(cl, ts) && Unpack(ts) == Some(lit[..nl] + dst[..nd])
  }

  lemma {:induction false} ReadDynamic(lit: seq<nat>, dst: seq<nat>, nl: nat, nd: nat, nc: nat, cl: seq<nat>,
                                       ts: seq<Token>, cs: seq<LzCode>,
                                       bits: seq<bool>, pos: nat, out: seq<byte>)
    requires Prepared(lit, dst, nl, nd, nc, cl, ts) && HasCode(lit, 256)
    requires AllEncodable(lit, dst, cs) && AllApply(cs, |out|)
    requires Stands(HeaderBits(nl, nd, nc, cl, ts) + (BodyBits(lit, dst, cs) + Codeword(lit, 256)), bits, pos)
    ensures DynamicAt(bits, pos, out)
      == Got(Expand(out, cs), pos + |HeaderBits(nl, nd, nc, cl, ts) + (BodyBits(lit, dst, cs) + Codeword(lit, 256))|)
  {
    hide HeaderBits, BodyBits, Codeword, AllEncodable, AllApply, Expand, TrimOf, Accepts, ValidLengths, Fits,
      TokensCoded, HeaderAt, BodyAt, Unpack;
    var a, b := lit[..nl], dst[..nd];
    var w := BodyBits(lit, dst, cs) + Codeword(lit, 256);
    StandsSplit(HeaderBits(nl, nd, nc, cl, ts), w, bits, pos);
    TrimAccepted(a, lit);
    TrimAccepted(b, dst);
    ReadHeader(a, b, nc, cl, ts, bits, pos);
    TrimBody(a, lit, b, dst, cs);
    TrimCode(a, lit, 256);
    ReadBody(a, b, cs, bits, pos + |HeaderBits(nl, nd, nc, cl, ts)|, out);
    assert |Codeword(lit, 256)| == a[256];
  }

  /** A dynamic block adds what its codes stand for. */
  lemma {:induction false} DynamicBlock(final: bool, lit: seq<nat>, dst: seq<nat>, nl: nat, nd: nat, nc: nat,
                                        cl: seq<nat>, ts: seq<Token>,
                                        cs: seq<LzCode>, from: nat, out: seq<byte>)
    requires Prepared(lit, dst, nl, nd, nc, cl, ts) && HasCode(lit, 256)
    requires AllEncodable(lit, dst, cs) && AllApply(cs, |out|)
    ensures Means(TypeBits(final, 2) + (HeaderBits(nl, nd, nc, cl, ts) + (BodyBits(lit, dst, cs) + Codeword(lit, 256))),
                  from, final, out, Expand(out, cs))
  {
    hide TypeBits, BlockAt, DynamicAt, HeaderBits, BodyBits, AllEncodable, AllApply, Expand, Codeword, Prepared;
    PreparedParts(lit, dst, nl, nd, nc, cl, ts);
    var w := HeaderBits(nl, nd, nc, cl, ts) + (BodyBits(lit, dst, cs) + Codeword(lit, 256));
    forall bits | Stands(TypeBits(final, 2) + w, bits, from)
      ensures BlockAt(bits, from, out) == Got(Block(final, Expand(out, cs)), from + |TypeBits(final, 2) + w|)
    {
      StandsSplit(TypeBits(final, 2), w, bits, from);
      ReadDynamic(lit, dst, nl, nd, nc, cl, ts, cs, bits, from + 3, out);
      BlockOf(final, 2, w, bits, from, out, Expand(out, cs));
    }
  }

  lemma {:induction false} PreparedParts(lit: seq<nat>, dst: seq<nat>, nl: nat, nd: nat, nc: nat, cl: seq<nat>,
                                         ts: seq<Token>)
    requires Prepared(lit, dst, nl, nd, nc, cl, ts)
    ensures nl >= 257 && nd >= 1 && 4 <= nc <= 19 == |cl| && TokensCoded(cl, ts)
  {
  }
}
