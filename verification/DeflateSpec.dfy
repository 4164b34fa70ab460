/**
 What a DEFLATE stream means (RFC 1951): a reference decoder over bit strings, and the
 encodings it reads back.
 */
module DeflateSpec {
  import opened Bits
  import opened Canonical
  import opened LzCodes

  // ---- one item of a compressed block

  datatype Read<T> = Fail | Got(v: T, pos: nat)

  function Field(bits: seq<bool>, pos: nat, n: nat): Read<nat>
  {
    if pos + n <= |bits| then Got(FromBits(bits[pos..pos + n]), pos + n) else Fail
  }

  ghost function SymbolAt(lens: seq<nat>, bits: seq<bool>, pos: nat): (r: Read<nat>)
    ensures r.Got? ==> pos < r.pos <= |bits|
  {
    if pos <= |bits| && exists s: nat :: Decodes(lens, bits[pos..], s) then
      var s: nat :| Decodes(lens, bits[pos..], s);
      Got(s, pos + lens[s])
    else Fail
  }

  /** The value that a symbol stands for: base(s) plus extra bits. */
  function ValueFrom(base: nat, x: Read<nat>): (r: Read<nat>)
    ensures r.Got? <==> x.Got?
    ensures r.Got? ==> r.pos == x.pos
  {
    match x
    case Fail => Fail
    case Got(v, q) => Got(base + v, q)
  }

  function DistanceFrom(t: Read<nat>, bits: seq<bool>): (r: Read<nat>)
    ensures r.Got? ==> t.Got? && t.pos <= r.pos <= |bits|
  {
    match t
    case Fail => Fail
    case Got(t, p) => if t >= 30 then Fail else ValueFrom(DistBase(t), Field(bits, p, DistanceExtra(t)))
  }

  /** The distance that follows a length. */
  ghost function DistanceAt(dst: seq<nat>, bits: seq<bool>, pos: nat): (r: Read<nat>)
    ensures r.Got? ==> pos < r.pos <= |bits|
  {
    DistanceFrom(SymbolAt(dst, bits, pos), bits)
  }

  /** A literal, the end of the block, or a length whose distance is still to come. */
  datatype Head = Lit(b: byte) | End | Len(len: nat)

  function HeadFrom(s: Read<nat>, bits: seq<bool>): (r: Read<Head>)
    ensures r.Got? ==> s.Got? && s.pos <= r.pos && (s.pos <= |bits| ==> r.pos <= |bits|)
  {
    match s
    case Fail => Fail
    case Got(s, p) =>
      if s < 256 then Got(Lit(s), p)
      else if s == 256 then Got(End, p)
      else if s > 285 then Fail
      else match ValueFrom(LengthBase(s - 257), Field(bits, p, LengthExtra(s - 257)))
        case Fail => Fail
        case Got(len, q) => Got(Len(len), q)
  }

  ghost function HeadAt(lit: seq<nat>, bits: seq<bool>, pos: nat): (r: Read<Head>)
    ensures r.Got? ==> pos < r.pos <= |bits|
  {
    HeadFrom(SymbolAt(lit, bits, pos), bits)
  }

  datatype Item = Code(c: LzCode) | EndOfBlock

  ghost function ItemAt(lit: seq<nat>, dst: seq<nat>, bits: seq<bool>, pos: nat): (r: Read<Item>)
    ensures r.Got? ==> pos < r.pos <= |bits|
  {
    match HeadAt(lit, bits, pos)
    case Fail => Fail
    case Got(Lit(b), p) => Got(Code(Literal(b)), p)
    case Got(End, p) => Got(EndOfBlock, p)
    case Got(Len(len), q) =>
      match DistanceAt(dst, bits, q)
      case Fail => Fail
      case Got(d, r) => Got(Code(Match(len, d)), r)
  }

  /** The bytes of a compressed block, behind out. */
  ghost function BodyAt(lit: seq<nat>, dst: seq<nat>, bits: seq<bool>, pos: nat, out: seq<byte>): (r: Read<seq<byte>>)
    ensures r.Got? ==> pos < r.pos <= |bits|
    decreases |bits| - pos
  {
    match ItemAt(lit, dst, bits, pos)
    case Fail => Fail
    case Got(EndOfBlock, p) => Got(out, p)
    case Got(Code(c), p) => if Applies(c, |out|) then BodyAt(lit, dst, bits, p, Apply(out, c)) else Fail
  }

  // ---- writing items

  /** Symbol s has a code word. */
  ghost predicate HasCode(lens: seq<nat>, s: nat)
  {
    s < |lens| && lens[s] > 0
  }

  ghost predicate Encodable(lit: seq<nat>, dst: seq<nat>, c: LzCode)
  {
    CodeOk(c) &&
    match c
    case Literal(b) => HasCode(lit, b)
    case Match(len, dist) => HasCode(lit, LenSym(len - 3)) && HasCode(dst, DistSym(dist - 1))
  }

  function LowBits(v: nat, n: nat): (r: seq<bool>)
    ensures |r| == n
  {
    ToBits(v % Pow2(n), n)
  }

  /** A symbol and the e extra bits of v behind it. */
  function FieldBits(lens: seq<nat>, s: nat, v: nat, e: nat): seq<bool>
    requires s < |lens|
  {
    Codeword(lens, s) + LowBits(v, e)
  }

  ghost function CodeBits(lit: seq<nat>, dst: seq<nat>, c: LzCode): seq<bool>
    requires Encodable(lit, dst, c)
  {
    match c
    case Literal(b) => Codeword(lit, b)
    case Match(len, dist) =>
      FieldBits(lit, LenSym(len - 3), len - 3, LenExtra(len - 3))
        + FieldBits(dst, DistSym(dist - 1), dist - 1, DistExtra(dist - 1))
  }

  ghost predicate AllEncodable(lit: seq<nat>, dst: seq<nat>, cs: seq<LzCode>)
  {
    forall i :: 0 <= i < |cs| ==> Encodable(lit, dst, cs[i])
  }

  ghost function BodyBits(lit: seq<nat>, dst: seq<nat>, cs: seq<LzCode>): seq<bool>
    requires AllEncodable(lit, dst, cs)
  {
    if cs == [] then [] else BodyBits(lit, dst, cs[..|cs| - 1]) + CodeBits(lit, dst, cs[|cs| - 1])
  }

  /** w stands in bits at pos. */
  ghost predicate Stands(w: seq<bool>, bits: seq<bool>, pos: nat)
  {
    pos <= |bits| && w <= bits[pos..]
  }

  lemma {:induction false} StandsSplit(v: seq<bool>, w: seq<bool>, bits: seq<bool>, pos: nat)
    requires Stands(v + w, bits, pos)
    ensures Stands(v, bits, pos) && Stands(w, bits, pos + |v|)
  {
    assert v <= v + w;
    assert bits[pos..][..|v + w|] == v + w;
    assert bits[pos + |v|..][..|w|] == (v + w)[|v|..];
  }

  lemma {:induction false} ReadField(v: nat, n: nat, bits: seq<bool>, pos: nat)
    requires Stands(LowBits(v, n), bits, pos)
    ensures Field(bits, pos, n) == Got(v % Pow2(n), pos + n)
  {
    assert bits[pos..pos + n] == bits[pos..][..n] == LowBits(v, n);
    FromTo(v % Pow2(n), n);
  }

  lemma {:induction false} ReadSymbol(lens: seq<nat>, s: nat, bits: seq<bool>, pos: nat)
    requires ValidLengths(lens) && Fits(lens) && HasCode(lens, s)
    requires Stands(Codeword(lens, s), bits, pos)
    ensures SymbolAt(lens, bits, pos) == Got(s, pos + lens[s])
  {
    assert Decodes(lens, bits[pos..], s);
    var r := SymbolAt(lens, bits, pos);
    DecodesUnique(lens, bits[pos..], s, r.v);
  }

  ghost predicate GoodTables(lit: seq<nat>, dst: seq<nat>)
  {
    ValidLengths(lit) && Fits(lit) && ValidLengths(dst) && Fits(dst)
  }

  lemma {:induction false} ReadFieldBits(lens: seq<nat>, s: nat, v: nat, e: nat, bits: seq<bool>, pos: nat)
    requires ValidLengths(lens) && Fits(lens) && HasCode(lens, s)
    requires Stands(FieldBits(lens, s, v, e), bits, pos)
    ensures SymbolAt(lens, bits, pos) == Got(s, pos + lens[s])
    ensures Field(bits, pos + lens[s], e) == Got(v % Pow2(e), pos + lens[s] + e)
  {
    StandsSplit(Codeword(lens, s), LowBits(v, e), bits, pos);
    ReadSymbol(lens, s, bits, pos);
    ReadField(v, e, bits, pos + lens[s]);
  }

  lemma {:induction false} ReadDistance(dst: seq<nat>, t: nat, v: nat, e: nat, dist: nat, bits: seq<bool>, pos: nat)
    requires ValidLengths(dst) && Fits(dst) && HasCode(dst, t)
    requires t < 30 && DistanceExtra(t) == e && DistBase(t) + v % Pow2(e) == dist
    requires Stands(FieldBits(dst, t, v, e), bits, pos)
    ensures DistanceAt(dst, bits, pos) == Got(dist, pos + dst[t] + e)
  {
    hide SymbolAt, Field, DistBase, DistanceExtra, Pow2, Codeword, Fits, DistanceFrom;
    ReadFieldBits(dst, t, v, e, bits, pos);
    DistanceValue(t, pos + dst[t], v % Pow2(e), e, bits);
  }

  lemma {:induction false} DistanceValue(t: nat, p: nat, x: nat, e: nat, bits: seq<bool>)
    requires t < 30 && DistanceExtra(t) == e && Field(bits, p, e) == Got(x, p + e)
    ensures DistanceFrom(Got(t, p), bits) == Got(DistBase(t) + x, p + e)
  {
  }

  lemma {:induction false} ReadLength(lit: seq<nat>, s: nat, v: nat, e: nat, len: nat, bits: seq<bool>, pos: nat)
    requires ValidLengths(lit) && Fits(lit) && HasCode(lit, s)
    requires 257 <= s <= 285 && LengthExtra(s - 257) == e && LengthBase(s - 257) + v % Pow2(e) == len
    requires Stands(FieldBits(lit, s, v, e), bits, pos)
    ensures HeadAt(lit, bits, pos) == Got(Len(len), pos + lit[s] + e)
  {
    hide SymbolAt, Field, LengthBase, LengthExtra, Pow2, Codeword, Fits, HeadFrom;
    ReadFieldBits(lit, s, v, e, bits, pos);
    LengthValue(s, pos + lit[s], v % Pow2(e), e, bits);
  }

  lemma {:induction false} LengthValue(s: nat, p: nat, x: nat, e: nat, bits: seq<bool>)
    requires 257 <= s <= 285 && LengthExtra(s - 257) == e && Field(bits, p, e) == Got(x, p + e)
    ensures HeadFrom(Got(s, p), bits) == Got(Len(LengthBase(s - 257) + x), p + e)
  {
  }

  lemma {:induction false} ReadMatch(lit: seq<nat>, dst: seq<nat>, s: nat, v: nat, e: nat, len: nat, t: nat, u: nat,
                                     f: nat, dist: nat, bits: seq<bool>, pos: nat)
    requires GoodTables(lit, dst) && HasCode(lit, s) && HasCode(dst, t)
    requires 257 <= s <= 285 && LengthExtra(s - 257) == e && LengthBase(s - 257) + v % Pow2(e) == len
    requires t < 30 && DistanceExtra(t) == f && DistBase(t) + u % Pow2(f) == dist
    requires Stands(FieldBits(lit, s, v, e) + FieldBits(dst, t, u, f), bits, pos)
    ensures ItemAt(lit, dst, bits, pos)
      == Got(Code(Match(len, dist)), pos + |FieldBits(lit, s, v, e) + FieldBits(dst, t, u, f)|)
  {
    hide DistanceAt, HeadAt, LengthBase, LengthExtra, DistBase, DistanceExtra, Pow2, Codeword, Fits;
    StandsSplit(FieldBits(lit, s, v, e), FieldBits(dst, t, u, f), bits, pos);
    ReadLength(lit, s, v, e, len, bits, pos);
    ReadDistance(dst, t, u, f, dist, bits, pos + lit[s] + e);
  }

  /** Every code is read back as it was written. */
  lemma {:induction false} ReadCode(lit: seq<nat>, dst: seq<nat>, c: LzCode, bits: seq<bool>, pos: nat)
    requires GoodTables(lit, dst) && Encodable(lit, dst, c)
    requires Stands(CodeBits(lit, dst, c), bits, pos)
    ensures ItemAt(lit, dst, bits, pos) == Got(Code(c), pos + |CodeBits(lit, dst, c)|)
  {
    hide LenSym, LenExtra, DistSym, DistExtra, LengthBase, LengthExtra, DistBase, DistanceExtra, Fits, Pow2, Codeword,
      DistanceAt;
    match c {
      case Literal(b) =>
        ReadSymbol(lit, b, bits, pos);
      case Match(len, dist) =>
        var l, d := len - 3, dist - 1;
        LengthReadsBack(l);
        DistReadsBack(d);
        ReadMatch(lit, dst, LenSym(l), l, LenExtra(l), len, DistSym(d), d, DistExtra(d), dist, bits, pos);
    }
  }

  lemma {:induction false} BodyFirst(lit: seq<nat>, dst: seq<nat>, c: LzCode, cs: seq<LzCode>)
    requires AllEncodable(lit, dst, [c] + cs)
    ensures Encodable(lit, dst, c) && AllEncodable(lit, dst, cs)
    ensures BodyBits(lit, dst, [c] + cs) == CodeBits(lit, dst, c) + BodyBits(lit, dst, cs)
  {
    assert ([c] + cs)[0] == c;
    forall i | 0 <= i < |cs|
      ensures Encodable(lit, dst, cs[i])
    {
      assert ([c] + cs)[i + 1] == cs[i];
    }
    if cs == [] {
      assert [c] + cs == [c] && [c][..0] == [];
    } else {
      var n := |cs| - 1;
      assert ([c] + cs)[..n + 1] == [c] + cs[..n];
      BodyFirst(lit, dst, c, cs[..n]);
    }
  }

  lemma {:induction false} BodyStep(lit: seq<nat>, dst: seq<nat>, bits: seq<bool>, pos: nat, out: seq<byte>, c: LzCode,
                                    p: nat)
    requires ItemAt(lit, dst, bits, pos) == Got(Code(c), p) && Applies(c, |out|)
    ensures BodyAt(lit, dst, bits, pos, out) == BodyAt(lit, dst, bits, p, Apply(out, c))
  {
  }

  lemma {:induction false} ReadEnd(lit: seq<nat>, dst: seq<nat>, bits: seq<bool>, pos: nat, out: seq<byte>)
    requires GoodTables(lit, dst) && HasCode(lit, 256) && Stands(Codeword(lit, 256), bits, pos)
    ensures BodyAt(lit, dst, bits, pos, out) == Got(out, pos + lit[256])
  {
    ReadSymbol(lit, 256, bits, pos);
  }

  lemma {:induction false} ReadFirst(lit: seq<nat>, dst: seq<nat>, c: LzCode, rest: seq<LzCode>, bits: seq<bool>,
                                     pos: nat, out: seq<byte>)
    requires GoodTables(lit, dst) && HasCode(lit, 256)
    requires AllEncodable(lit, dst, [c] + rest) && Applies(c, |out|)
    requires Stands(BodyBits(lit, dst, [c] + rest) + Codeword(lit, 256), bits, pos)
    ensures AllEncodable(lit, dst, rest) && Encodable(lit, dst, c)
    ensures |BodyBits(lit, dst, [c] + rest)| == |CodeBits(lit, dst, c)| + |BodyBits(lit, dst, rest)|
    ensures Stands(BodyBits(lit, dst, rest) + Codeword(lit, 256), bits, pos + |CodeBits(lit, dst, c)|)
    ensures BodyAt(lit, dst, bits, pos, out) == BodyAt(lit, dst, bits, pos + |CodeBits(lit, dst, c)|, Apply(out, c))
  {
    hide GoodTables, ItemAt, Codeword, CodeBits, Encodable, BodyAt, Apply;
    BodyFirst(lit, dst, c, rest);
    var w, v := CodeBits(lit, dst, c), BodyBits(lit, dst, rest) + Codeword(lit, 256);
    assert BodyBits(lit, dst, [c] + rest) + Codeword(lit, 256) == w + v;
    StandsSplit(w, v, bits, pos);
    ReadCode(lit, dst, c, bits, pos);
    BodyStep(lit, dst, bits, pos, out, c, pos + |w|);
  }

  /** A compressed body means what its codes stand for. */
  lemma {:induction false} ReadBody(lit: seq<nat>, dst: seq<nat>, cs: seq<LzCode>, bits: seq<bool>, pos: nat,
                                    out: seq<byte>)
    requires GoodTables(lit, dst) && HasCode(lit, 256)
    requires AllEncodable(lit, dst, cs) && AllApply(cs, |out|)
    requires Stands(BodyBits(lit, dst, cs) + Codeword(lit, 256), bits, pos)
    ensures BodyAt(lit, dst, bits, pos, out) == Got(Expand(out, cs), pos + |BodyBits(lit, dst, cs)| + lit[256])
    decreases |cs|
  {
    hide GoodTables, Encodable, ItemAt, Codeword, CodeBits, Applies, Apply;
    if cs == [] {
      assert BodyBits(lit, dst, cs) + Codeword(lit, 256) == Codeword(lit, 256);
      ReadEnd(lit, dst, bits, pos, out);
    } else {
      var c, rest := cs[0], cs[1..];
      assert cs == [c] + rest;
      ExpandFirst(out, c, rest);
      ReadFirst(lit, dst, c, rest, bits, pos, out);
      var out1, pos1 := Apply(out, c), pos + |CodeBits(lit, dst, c)|;
      ReadBody(lit, dst, rest, bits, pos1, out1);
    }
  }
}
