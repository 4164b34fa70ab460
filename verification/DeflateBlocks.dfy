/** Blocks and streams of RFC 1951: the reference decoder, and what tdefl's block forms mean to it. */
module DeflateBlocks {
  import opened Bits
  import opened Canonical
  import opened RunPacking
  import opened DeflateSpec

  // ---- fixed codes (section 3.2.6)

  function FixedLit(): (l: seq<nat>)
    ensures |l| == 288
  {
    seq(288, i => if i <= 143 then 8 else if i <= 255 then 9 else if i <= 279 then 7 else 8)
  }

  function FixedDist(): (l: seq<nat>)
    ensures |l| == 32
  {
    seq(32, _ => 5)
  }

  // ---- the header of a dynamic block (section 3.2.7)

  /** The order in which the code-length lengths are sent. */
  function Swizzle(i: nat): (s: nat)
    requires i < 19
    ensures s < 19
  {
    if i < 3 then 16 + i else if i == 3 then 0
    else if i % 2 == 0 then 8 + (i - 4) / 2 else 7 - (i - 5) / 2
  }

  /**
   The only order there is in which 16, 17, 18 and 0 come first, and then the other lengths from the middle outwards,
   so that those that are likely to be zero come last.
   */
  lemma {:induction false} SendingOrder(i: nat, j: nat)
    requires i < j < 19
    ensures Swizzle(i) != Swizzle(j)
    ensures j < 3 ==> 16 <= Swizzle(i) < Swizzle(j)
    ensures j == 3 ==> Swizzle(j) == 0
    ensures 4 <= i ==> Away(4 * Swizzle(i), 31) < Away(4 * Swizzle(j), 31)
  {
    OutwardFrom(i);
    OutwardFrom(j);
  }

  lemma {:induction false} OutwardFrom(i: nat)
    requires i < 19
    ensures Unswizzle(Swizzle(i)) == i && (4 <= i ==> Away(4 * Swizzle(i), 31) == 2 * i - 7)
  {
  }

  /** How far apart two numbers are. */
  function Away(x: nat, y: nat): nat
  {
    if x < y then y - x else x - y
  }

  function SizesAt(bits: seq<bool>, pos: nat, n: nat): (r: Read<seq<nat>>)
    requires n <= 19
    ensures r.Got? ==> |r.v| == 19 && r.pos == pos + 3 * n && (pos <= |bits| ==> r.pos <= |bits|)
  {
    if n == 0 then Got(seq(19, _ => 0), pos)
    else match SizesAt(bits, pos, n - 1)
      case Fail => Fail
      case Got(s, p) =>
        match Field(bits, p, 3)
        case Fail => Fail
        case Got(v, q) => Got(s[Swizzle(n - 1) := v], q)
  }

  function TokenFrom(s: Read<nat>, bits: seq<bool>): (r: Read<Token>)
    ensures r.Got? ==> s.Got? && s.pos <= r.pos && (s.pos <= |bits| ==> r.pos <= |bits|)
  {
    match s
    case Fail => Fail
    case Got(c, p) =>
      if c < 16 then Got(Token(c, 0), p)
      else if c > 18 then Fail
      else match Field(bits, p, ExtraBits(c))
        case Fail => Fail
        case Got(x, q) => Got(Token(c, x), q)
  }

  ghost function TokenAt(cl: seq<nat>, bits: seq<bool>, pos: nat): (r: Read<Token>)
    ensures r.Got? ==> pos < r.pos <= |bits|
  {
    TokenFrom(SymbolAt(cl, bits, pos), bits)
  }

  /** Code lengths are read until there are total of them, neither more nor less. */
  ghost function LengthsAt(cl: seq<nat>, bits: seq<bool>, pos: nat, got: seq<nat>, total: nat): (r: Read<seq<nat>>)
    ensures r.Got? ==> |r.v| == total && pos <= r.pos && (pos <= |bits| ==> r.pos <= |bits|)
    decreases |bits| - pos
  {
    if |got| == total then Got(got, pos)
    else if |got| > total then Fail
    else match TokenAt(cl, bits, pos)
      case Fail => Fail
      case Got(t, p) =>
        match ExpandToken(got, t)
        case None => Fail
        case Some(more) => LengthsAt(cl, bits, p, more, total)
  }

  datatype Tables = Tables(lit: seq<nat>, dst: seq<nat>)

  datatype Counts = Counts(nl: nat, nd: nat, nc: nat)

  function CountsAt(bits: seq<bool>, pos: nat): (r: Read<Counts>)
    ensures r.Got? ==> r.pos == pos + 14 <= |bits| && r.v.nc <= 19
    ensures r.Got? ==> 257 <= r.v.nl <= 288 && 1 <= r.v.nd <= 32
  {
    match Field(bits, pos, 5)
    case Fail => Fail
    case Got(a, p) =>
      match Field(bits, p, 5)
      case Fail => Fail
      case Got(b, q) =>
        match Field(bits, q, 4)
        case Fail => Fail
        case Got(c, r) => Got(Counts(a + 257, b + 1, c + 4), r)
  }

  /** Every code may be incomplete in the way that Accepts allows. */
  ghost function HeaderAt(bits: seq<bool>, pos: nat): (r: Read<Tables>)
    ensures r.Got? ==> pos < r.pos <= |bits|
  {
    match CountsAt(bits, pos)
    case Fail => Fail
    case Got(n, p) =>
      match SizesAt(bits, p, n.nc)
      case Fail => Fail
      case Got(cl, q) =>
        if !Accepts(cl) then Fail
        else match LengthsAt(cl, bits, q, [], n.nl + n.nd)
          case Fail => Fail
          case Got(all, r) =>
            if Accepts(all[..n.nl]) && Accepts(all[n.nl..]) then Got(Tables(all[..n.nl], all[n.nl..]), r) else Fail
  }

  // ---- blocks

  function Align(pos: nat): (p: nat)
    ensures pos <= p < pos + 8 && p % 8 == 0
  {
    (pos + 7) / 8 * 8
  }

  /** n whole bytes. */
  function BytesAt(bits: seq<bool>, pos: nat, n: nat): (r: seq<byte>)
    requires pos + 8 * n <= |bits|
    ensures |r| == n
  {
    if n == 0 then [] else
      BytesAt(bits, pos, n - 1) + [ByteAt(bits, pos + 8 * (n - 1))]
  }

  function ByteAt(bits: seq<bool>, pos: nat): (b: byte)
    requires pos + 8 <= |bits|
  {
    assert Pow2(8) == 256;
    FromBits(bits[pos..pos + 8])
  }

  ghost function StoredAt(bits: seq<bool>, pos: nat, out: seq<byte>): (r: Read<seq<byte>>)
    ensures r.Got? ==> pos < r.pos <= |bits|
  {
    match Field(bits, Align(pos), 16)
    case Fail => Fail
    case Got(n, p) =>
      match Field(bits, p, 16)
      case Fail => Fail
      case Got(m, q) =>
        if n != 65535 - m || q + 8 * n > |bits| then Fail
        else Got(out + BytesAt(bits, q, n), q + 8 * n)
  }

  ghost function DynamicAt(bits: seq<bool>, pos: nat, out: seq<byte>): (r: Read<seq<byte>>)
    ensures r.Got? ==> pos < r.pos <= |bits|
  {
    match HeaderAt(bits, pos)
    case Fail => Fail
    case Got(t, p) => BodyAt(t.lit, t.dst, bits, p, out)
  }

  datatype Block = Block(final: bool, out: seq<byte>)

  ghost function ContentAt(kind: nat, bits: seq<bool>, pos: nat, out: seq<byte>): (r: Read<seq<byte>>)
    ensures r.Got? ==> pos < r.pos <= |bits|
  {
    if kind == 0 then StoredAt(bits, pos, out)
    else if kind == 1 then BodyAt(FixedLit(), FixedDist(), bits, pos, out)
    else if kind == 2 then DynamicAt(bits, pos, out)
    else Fail
  }

  ghost function BlockAt(bits: seq<bool>, pos: nat, out: seq<byte>): (r: Read<Block>)
    ensures r.Got? ==> pos < r.pos <= |bits|
  {
    match Field(bits, pos, 3)
    case Fail => Fail
    case Got(h, p) =>
      match ContentAt(h / 2, bits, p, out)
      case Fail => Fail
      case Got(o, q) => Got(Block(h % 2 == 1, o), q)
  }

  /** All blocks up to the final one. */
  ghost function StreamAt(bits: seq<bool>, pos: nat, out: seq<byte>): (r: Read<seq<byte>>)
    ensures r.Got? ==> pos < r.pos <= |bits|
    decreases |bits| - pos
  {
    match BlockAt(bits, pos, out)
    case Fail => Fail
    case Got(b, p) => if b.final then Got(b.out, p) else StreamAt(bits, p, b.out)
  }

  // ---- the header that tdefl writes

  ghost function SizeBits(cl: seq<nat>, n: nat): (r: seq<bool>)
    requires n <= 19 == |cl|
    ensures |r| == 3 * n
  {
    if n == 0 then [] else SizeBits(cl, n - 1) + LowBits(cl[Swizzle(n - 1)], 3)
  }

  /** The code-length lengths, of which only the first n in sending order are known. */
  function Partial(cl: seq<nat>, n: nat): (r: seq<nat>)
    requires n <= 19 == |cl|
    ensures |r| == 19
  {
    if n == 0 then seq(19, _ => 0) else Partial(cl, n - 1)[Swizzle(n - 1) := cl[Swizzle(n - 1)]]
  }

  lemma {:induction false} ReadSizes(cl: seq<nat>, n: nat, bits: seq<bool>, pos: nat)
    requires n <= 19 == |cl| && forall i :: 0 <= i < 19 ==> cl[i] < Pow2(3)
    requires Stands(SizeBits(cl, n), bits, pos)
    ensures SizesAt(bits, pos, n) == Got(Partial(cl, n), pos + 3 * n)
  {
    if n > 0 {
      var v := cl[Swizzle(n - 1)];
      StandsSplit(SizeBits(cl, n - 1), LowBits(v, 3), bits, pos);
      ReadSizes(cl, n - 1, bits, pos);
      ReadSmall(v, 3, bits, pos + 3 * (n - 1));
    }
  }

  lemma {:induction false} ReadSmall(v: nat, n: nat, bits: seq<bool>, pos: nat)
    requires v < Pow2(n) && Stands(LowBits(v, n), bits, pos)
    ensures Field(bits, pos, n) == Got(v, pos + n)
  {
    ReadField(v, n, bits, pos);
    DivUnique(v, Pow2(n), 0, v);
  }

  /** Where a symbol comes in the sending order. */
  function Unswizzle(k: nat): (i: nat)
    requires k < 19
    ensures i < 19 && Swizzle(i) == k
  {
    if k >= 16 then k - 16 else if k == 0 then 3 else if k >= 8 then 4 + 2 * (k - 8) else 5 + 2 * (7 - k)
  }

  lemma {:induction false} PartialAt(cl: seq<nat>, n: nat, k: nat)
    requires n <= 19 == |cl| && k < 19
    ensures Partial(cl, n)[k] == if Unswizzle(k) < n then cl[k] else 0
  {
    if n > 0 {
      PartialAt(cl, n - 1, k);
      assert Swizzle(n - 1) == k ==> Unswizzle(k) == n - 1;
    }
  }

  /** Leaving out zeros at the end of the sending order loses nothing. */
  lemma {:induction false} PartialIsAll(cl: seq<nat>, n: nat)
    requires n <= 19 == |cl| && forall i :: n <= i < 19 ==> cl[Swizzle(i)] == 0
    ensures Partial(cl, n) == cl
  {
    forall k | 0 <= k < 19
      ensures Partial(cl, n)[k] == cl[k]
    {
      PartialAt(cl, n, k);
      assert Swizzle(Unswizzle(k)) == k;
    }
  }

  ghost predicate TokensCoded(cl: seq<nat>, ts: seq<Token>)
  {
    forall i :: 0 <= i < |ts| ==> TokenOk(ts[i]) && HasCode(cl, ts[i].code)
  }

  ghost function TokenBits(cl: seq<nat>, ts: seq<Token>): seq<bool>
    requires TokensCoded(cl, ts)
  {
    if ts == [] then []
    else var t := ts[|ts| - 1]; TokenBits(cl, ts[..|ts| - 1]) + FieldBits(cl, t.code, t.extra, ExtraBits(t.code))
  }

  lemma {:induction false} TokenBitsPrefix(cl: seq<nat>, ts: seq<Token>, k: nat)
    requires TokensCoded(cl, ts) && k <= |ts|
    ensures TokensCoded(cl, ts[..k]) && TokenBits(cl, ts[..k]) <= TokenBits(cl, ts)
    decreases |ts|
  {
    if k < |ts| {
      TokenBitsPrefix(cl, ts[..|ts| - 1], k);
      assert ts[..|ts| - 1][..k] == ts[..k];
    } else {
      assert ts[..k] == ts;
    }
  }

  lemma {:induction false} StandsPrefix(v: seq<bool>, w: seq<bool>, bits: seq<bool>, pos: nat)
    requires v <= w && Stands(w, bits, pos)
    ensures Stands(v, bits, pos)
  {
    assert w == v + w[|v|..];
    StandsSplit(v, w[|v|..], bits, pos);
  }

  lemma {:induction false} ReadToken(cl: seq<nat>, t: Token, bits: seq<bool>, pos: nat)
    requires ValidLengths(cl) && Fits(cl) && HasCode(cl, t.code) && TokenOk(t)
    requires Stands(FieldBits(cl, t.code, t.extra, ExtraBits(t.code)), bits, pos)
    ensures TokenAt(cl, bits, pos) == Got(t, pos + cl[t.code] + ExtraBits(t.code))
  {
    ReadFieldBits(cl, t.code, t.extra, ExtraBits(t.code), bits, pos);
    ExtraFits(t);
  }

  lemma {:induction false} ExtraFits(t: Token)
    requires TokenOk(t)
    ensures t.extra % Pow2(ExtraBits(t.code)) == t.extra
  {
    assert Pow2(0) == 1 && Pow2(2) == 4 && Pow2(3) == 8 && Pow2(7) == 128;
  }

  /** Every token adds lengths. */
  lemma {:induction false} UnpackGrows(ts: seq<Token>, k: nat)
    requires k <= |ts| && Unpack(ts).Some?
    ensures Unpack(ts[..k]).Some? && |Unpack(ts[..k]).value| + (|ts| - k) <= |Unpack(ts).value|
    decreases |ts|
  {
    if k < |ts| {
      UnpackGrows(ts[..|ts| - 1], k);
      assert ts[..|ts| - 1][..k] == ts[..k];
    } else {
      assert ts[..k] == ts;
    }
  }

  /** What the reader makes of the rest after k tokens. */
  ghost function AfterTokens(cl: seq<nat>, ts: seq<Token>, k: nat, bits: seq<bool>, pos: nat): Read<seq<nat>>
    requires TokensCoded(cl, ts) && k <= |ts| && Unpack(ts).Some?
  {
    TokenBitsPrefix(cl, ts, k);
    UnpackGrows(ts, k);
    LengthsAt(cl, bits, pos + |TokenBits(cl, ts[..k])|, Unpack(ts[..k]).value, |Unpack(ts).value|)
  }

  /** Reading one more token changes nothing. */
  lemma {:induction false} AfterOneMore(cl: seq<nat>, ts: seq<Token>, k: nat, bits: seq<bool>, pos: nat)
    requires ValidLengths(cl) && Fits(cl) && TokensCoded(cl, ts) && k < |ts| && Unpack(ts).Some?
    requires Stands(TokenBits(cl, ts), bits, pos)
    ensures AfterTokens(cl, ts, k, bits, pos) == AfterTokens(cl, ts, k + 1, bits, pos)
  {
    hide LengthsAt, TokenAt, TokenBits, Unpack;
    TokenStands(cl, ts, k, bits, pos);
    var got, more := UnpackStep(ts, k);
    LengthsStep(cl, bits, pos + |TokenBits(cl, ts[..k])|, got, |Unpack(ts).value|, ts[k],
      pos + |TokenBits(cl, ts[..k + 1])|, more);
  }

  lemma {:induction false} UnpackStep(ts: seq<Token>, k: nat) returns (got: seq<nat>, more: seq<nat>)
    requires k < |ts| && Unpack(ts).Some?
    ensures Unpack(ts[..k]) == Some(got) && Unpack(ts[..k + 1]) == Some(more) == ExpandToken(got, ts[k])
    ensures |got| < |Unpack(ts).value|
  {
    UnpackGrows(ts, k);
    UnpackGrows(ts, k + 1);
    assert ts[..k + 1][..k] == ts[..k];
    got, more := Unpack(ts[..k]).value, Unpack(ts[..k + 1]).value;
  }

  lemma {:induction false} AfterAll(cl: seq<nat>, ts: seq<Token>, bits: seq<bool>, pos: nat)
    requires TokensCoded(cl, ts) && Unpack(ts).Some?
    ensures AfterTokens(cl, ts, |ts|, bits, pos) == Got(Unpack(ts).value, pos + |TokenBits(cl, ts)|)
  {
    assert ts[..|ts|] == ts;
  }

  lemma {:induction false} AfterAny(cl: seq<nat>, ts: seq<Token>, k: nat, bits: seq<bool>, pos: nat)
    requires ValidLengths(cl) && Fits(cl) && TokensCoded(cl, ts) && k <= |ts| && Unpack(ts).Some?
    requires Stands(TokenBits(cl, ts), bits, pos)
    ensures AfterTokens(cl, ts, 0, bits, pos) == AfterTokens(cl, ts, k, bits, pos)
  {
    if k > 0 {
      AfterAny(cl, ts, k - 1, bits, pos);
      AfterOneMore(cl, ts, k - 1, bits, pos);
    }
  }

  /** The reader gets the lengths that the tokens stand for. */
  lemma {:induction false} ReadTokens(cl: seq<nat>, ts: seq<Token>, bits: seq<bool>, pos: nat)
    requires ValidLengths(cl) && Fits(cl) && TokensCoded(cl, ts) && Unpack(ts).Some?
    requires Stands(TokenBits(cl, ts), bits, pos)
    ensures LengthsAt(cl, bits, pos, [], |Unpack(ts).value|) == Got(Unpack(ts).value, pos + |TokenBits(cl, ts)|)
  {
    AfterAny(cl, ts, |ts|, bits, pos);
    AfterAll(cl, ts, bits, pos);
    assert ts[..0] == [];
  }

  lemma {:induction false} TokenStands(cl: seq<nat>, ts: seq<Token>, k: nat, bits: seq<bool>, pos: nat)
    requires ValidLengths(cl) && Fits(cl) && TokensCoded(cl, ts) && k < |ts|
    requires Stands(TokenBits(cl, ts), bits, pos)
    ensures TokensCoded(cl, ts[..k]) && TokensCoded(cl, ts[..k + 1])
    ensures TokenAt(cl, bits, pos + |TokenBits(cl, ts[..k])|) == Got(ts[k], pos + |TokenBits(cl, ts[..k + 1])|)
  {
    TokenBitsPrefix(cl, ts, k + 1);
    var t, v := ts[k], TokenBits(cl, ts[..k]);
    assert ts[..k + 1][..k] == ts[..k];
    StandsPrefix(TokenBits(cl, ts[..k + 1]), TokenBits(cl, ts), bits, pos);
    StandsSplit(v, FieldBits(cl, t.code, t.extra, ExtraBits(t.code)), bits, pos);
    ReadToken(cl, t, bits, pos + |v|);
  }

  lemma {:induction false} LengthsStep(cl: seq<nat>, bits: seq<bool>, p: nat, got: seq<nat>, total: nat, t: Token,
                                       q: nat, more: seq<nat>)
    requires |got| < total && TokenAt(cl, bits, p) == Got(t, q) && ExpandToken(got, t) == Some(more)
    ensures LengthsAt(cl, bits, p, got, total) == LengthsAt(cl, bits, q, more, total)
  {
  }
}
