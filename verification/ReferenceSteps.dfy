/** Single steps of the reference decoder. */
module ReferenceSteps {
  import opened Bits
  import opened LzCodes
  import opened DeflateSpec
  import opened DeflateBlocks

  /** Decoding only adds to the output. */
  lemma {:induction false} BodyAdds(lit: seq<nat>, dst: seq<nat>, bits: seq<bool>, pos: nat, out: seq<byte>)
    requires BodyAt(lit, dst, bits, pos, out).Got?
    ensures |out| <= |BodyAt(lit, dst, bits, pos, out).v|
    decreases |bits| - pos
  {
    hide Applies, CodeOk, ItemAt, CopyMatch;
    var i := ItemAt(lit, dst, bits, pos);
    if i.v.Code? {
      BodyAdds(lit, dst, bits, i.pos, Apply(out, i.v.c));
    }
  }

  lemma {:induction false} LiteralItem(lit: seq<nat>, dst: seq<nat>, bits: seq<bool>, pos: nat, out: seq<byte>,
                                       sym: nat, p: nat)
    requires SymbolAt(lit, bits, pos) == Got(sym, p) && sym < 256
    ensures BodyAt(lit, dst, bits, pos, out) == BodyAt(lit, dst, bits, p, out + [sym])
  {
    hide SymbolAt;
    assert ItemAt(lit, dst, bits, pos) == Got(Code(Literal(sym)), p);
  }

  lemma {:induction false} EndItem(lit: seq<nat>, dst: seq<nat>, bits: seq<bool>, pos: nat, out: seq<byte>, p: nat)
    requires SymbolAt(lit, bits, pos) == Got(256, p)
    ensures BodyAt(lit, dst, bits, pos, out) == Got(out, p)
  {
    hide SymbolAt;
  }

  lemma {:induction false} NoItem(lit: seq<nat>, dst: seq<nat>, bits: seq<bool>, pos: nat, out: seq<byte>)
    requires SymbolAt(lit, bits, pos) == Fail || SymbolAt(lit, bits, pos).v > 285
    ensures BodyAt(lit, dst, bits, pos, out) == Fail
  {
    hide SymbolAt;
  }

  /**
   The rest of a block behind a length symbol that ends at p: its extra bits, a distance, the copy,
   and what follows.
   */
  ghost function AfterMatch(lit: seq<nat>, dst: seq<nat>, bits: seq<bool>, p: nat, out: seq<byte>,
                            s: nat): Read<seq<byte>>
  {
    var x := Field(bits, p, LengthExtra(s));
    if x == Fail then Fail
    else
      var d := DistanceAt(dst, bits, x.pos);
      if d == Fail || d.v > |out| || d.v == 0 then Fail
      else BodyAt(lit, dst, bits, d.pos, CopyMatch(out, LengthBase(s) + x.v, d.v))
  }

  /** A length symbol needs its extra bits, a distance, and as many bytes before it. */
  lemma {:induction false} MatchItem(lit: seq<nat>, dst: seq<nat>, bits: seq<bool>, pos: nat, out: seq<byte>, sym: nat,
                                     p: nat)
    requires SymbolAt(lit, bits, pos) == Got(sym, p) && 256 < sym <= 285
    ensures BodyAt(lit, dst, bits, pos, out) == AfterMatch(lit, dst, bits, p, out, sym - 257)
  {
    hide SymbolAt, LengthBase, LengthExtra, DistanceAt, CopyMatch, Field, CodeOk, BodyAt;
    var x := Field(bits, p, LengthExtra(sym - 257));
    if x.Got? {
      LengthRange(bits, p, sym - 257);
      var d := DistanceAt(dst, bits, x.pos);
      if d.Got? {
        DistanceRange(dst, bits, x.pos);
        var c := Match(LengthBase(sym - 257) + x.v, d.v);
        MatchIsOk(c);
        ItemOf(lit, dst, bits, pos, sym, p);
        CodeItem(lit, dst, bits, pos, out, c, d.pos);
      } else {
        ItemOf(lit, dst, bits, pos, sym, p);
        NoItemAt(lit, dst, bits, pos, out);
      }
    } else {
      ItemOf(lit, dst, bits, pos, sym, p);
      NoItemAt(lit, dst, bits, pos, out);
    }
  }

  lemma {:induction false} ItemOf(lit: seq<nat>, dst: seq<nat>, bits: seq<bool>, pos: nat, sym: nat, p: nat)
    requires SymbolAt(lit, bits, pos) == Got(sym, p) && 256 < sym <= 285
    ensures var x := Field(bits, p, LengthExtra(sym - 257));
      ItemAt(lit, dst, bits, pos) == (
        if x == Fail || DistanceAt(dst, bits, x.pos) == Fail then Fail
        else Got(Code(Match(LengthBase(sym - 257) + x.v, DistanceAt(dst, bits, x.pos).v)),
          DistanceAt(dst, bits, x.pos).pos))
  {
    hide SymbolAt, LengthBase, LengthExtra, DistanceAt, Field;
  }

  lemma {:induction false} CodeItem(lit: seq<nat>, dst: seq<nat>, bits: seq<bool>, pos: nat, out: seq<byte>, c: LzCode,
                                    p: nat)
    requires ItemAt(lit, dst, bits, pos) == Got(Code(c), p) && CodeOk(c) && c.Match? && 1 <= c.dist
    ensures BodyAt(lit, dst, bits, pos, out)
      == if c.dist <= |out| then BodyAt(lit, dst, bits, p, CopyMatch(out, c.len, c.dist)) else Fail
  {
    hide ItemAt, CopyMatch, CodeOk;
  }

  lemma {:induction false} NoItemAt(lit: seq<nat>, dst: seq<nat>, bits: seq<bool>, pos: nat, out: seq<byte>)
    requires ItemAt(lit, dst, bits, pos) == Fail
    ensures BodyAt(lit, dst, bits, pos, out) == Fail
  {
    hide ItemAt;
  }

  lemma {:induction false} MatchIsOk(c: LzCode)
    requires c.Match? && 3 <= c.len <= 258 && 1 <= c.dist <= 32768
    ensures CodeOk(c)
  {
  }

  /** No length that can be read is below 3 or above 258. */
  lemma {:induction false} LengthRange(bits: seq<bool>, p: nat, s: nat)
    requires s <= 28 && Field(bits, p, LengthExtra(s)).Got?
    ensures 3 <= LengthBase(s) + Field(bits, p, LengthExtra(s)).v <= 258
  {
    FieldBelow(bits, p, LengthExtra(s));
    hide Field;
    assert Pow2(1) == 2 && Pow2(2) == 4 && Pow2(3) == 8 && Pow2(4) == 16 && Pow2(5) == 32;
  }

  lemma {:induction false} FieldBelow(bits: seq<bool>, p: nat, n: nat)
    requires Field(bits, p, n).Got?
    ensures Field(bits, p, n).v < Pow2(n)
  {
  }

  /** No distance that can be read is 0 or above 32768. */
  lemma {:induction false} DistanceRange(dst: seq<nat>, bits: seq<bool>, pos: nat)
    requires DistanceAt(dst, bits, pos).Got?
    ensures 1 <= DistanceAt(dst, bits, pos).v <= 32768
  {
    hide SymbolAt;
    var t := SymbolAt(dst, bits, pos);
    FieldBelow(bits, t.pos, DistanceExtra(t.v));
    hide Field;
    DistanceTop(t.v);
  }

  lemma {:induction false} DistanceTop(t: nat)
    requires t < 30
    ensures 1 <= DistBase(t) && DistBase(t) + Pow2(DistanceExtra(t)) <= 32769
  {
    assert Pow2(1) == 2 && Pow2(2) == 4 && Pow2(3) == 8 && Pow2(4) == 16 && Pow2(5) == 32 && Pow2(6) == 64
      && Pow2(7) == 128;
    Pow2Add(7, 1);
    Pow2Add(7, 2);
    Pow2Add(7, 3);
    Pow2Add(7, 4);
    Pow2Add(7, 5);
    Pow2Add(7, 6);
    hide Pow2;
  }

  /** The copy that a length and a distance ask for, and whether there is room for it. */
  lemma {:induction false} MatchFits(lit: seq<nat>, dst: seq<nat>, bits: seq<bool>, p: nat, o: seq<byte>, s: nat,
                                     v: nat, q: nat, dist: nat, end: nat)
    requires Field(bits, p, LengthExtra(s)) == Got(v, q) && DistanceAt(dst, bits, q) == Got(dist, end)
    ensures var goal := AfterMatch(lit, dst, bits, p, o, s);
      if dist > |o| then goal == Fail
      else
        && 1 <= dist && goal == BodyAt(lit, dst, bits, end, CopyMatch(o, LengthBase(s) + v, dist))
        && (goal.Got? ==> |o| + LengthBase(s) + v <= |goal.v|)
  {
    hide BodyAt, Field, DistanceAt, LengthBase, LengthExtra, CopyMatch;
    DistanceRange(dst, bits, q);
    if dist <= |o| && BodyAt(lit, dst, bits, end, CopyMatch(o, LengthBase(s) + v, dist)).Got? {
      BodyAdds(lit, dst, bits, end, CopyMatch(o, LengthBase(s) + v, dist));
    }
  }

  lemma {:induction false} MatchFails(lit: seq<nat>, dst: seq<nat>, bits: seq<bool>, p: nat, o: seq<byte>, s: nat)
    requires var x := Field(bits, p, LengthExtra(s)); x == Fail || DistanceAt(dst, bits, x.pos) == Fail
    ensures AfterMatch(lit, dst, bits, p, o, s) == Fail
  {
  }

  /** Once the length is read, the distance decides. */
  lemma {:induction false} MatchEnds(lit: seq<nat>, dst: seq<nat>, bits: seq<bool>, p: nat, o: seq<byte>, s: nat,
                                     v: nat, q: nat)
    requires Field(bits, p, LengthExtra(s)) == Got(v, q)
    ensures var goal, d := AfterMatch(lit, dst, bits, p, o, s), DistanceAt(dst, bits, q);
      if d == Fail || d.v > |o| then goal == Fail
      else
        && 1 <= d.v && goal == BodyAt(lit, dst, bits, d.pos, CopyMatch(o, LengthBase(s) + v, d.v))
        && (goal.Got? ==> |o| + LengthBase(s) + v <= |goal.v|)
  {
    hide BodyAt, Field, DistanceAt, LengthBase, LengthExtra, CopyMatch, AfterMatch;
    var d := DistanceAt(dst, bits, q);
    if d == Fail {
      MatchFails(lit, dst, bits, p, o, s);
    } else {
      MatchFits(lit, dst, bits, p, o, s, v, q, d.v, d.pos);
    }
  }

  // ---- blocks

  lemma {:induction false} StoredParts(bits: seq<bool>, pos: nat, out: seq<byte>)
    ensures var n, m := Field(bits, Align(pos), 16), Field(bits, Align(pos) + 16, 16);
      StoredAt(bits, pos, out) == (
        if n == Fail || m == Fail || n.v != 65535 - m.v || m.pos + 8 * n.v > |bits| then Fail
        else Got(out + BytesAt(bits, m.pos, n.v), m.pos + 8 * n.v))
  {
    hide FromBits, Pow2;
  }

  lemma {:induction false} BlockAdds(bits: seq<bool>, pos: nat, out: seq<byte>)
    requires BlockAt(bits, pos, out).Got?
    ensures |out| <= |BlockAt(bits, pos, out).v.out|
  {
    hide Field, HeaderAt, BodyAt, FixedLit, FixedDist;
    var h := Field(bits, pos, 3);
    if h.v / 2 == 0 {
      StoredParts(bits, h.pos, out);
    } else if h.v / 2 == 1 {
      BodyAdds(FixedLit(), FixedDist(), bits, h.pos, out);
    } else {
      var t := HeaderAt(bits, h.pos);
      BodyAdds(t.v.lit, t.v.dst, bits, t.pos, out);
    }
  }

  lemma {:induction false} StreamAdds(bits: seq<bool>, pos: nat, out: seq<byte>)
    requires StreamAt(bits, pos, out).Got?
    ensures |out| <= |StreamAt(bits, pos, out).v|
    decreases |bits| - pos
  {
    hide BlockAt;
    BlockAdds(bits, pos, out);
    var b := BlockAt(bits, pos, out);
    if !b.v.final {
      StreamAdds(bits, b.pos, b.v.out);
    }
  }
}
