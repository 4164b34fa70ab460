/**
 Places in a stream from which it can be decoded on its own, as a full flush leaves them: nothing behind them refers to
 bytes before them.
 */
module Restarting {
  import opened Bits
  import opened LzCodes
  import opened DeflateSpec
  import opened DeflateBlocks
  import opened BlockForms
  import opened BlockOutput

  // ---- what stands further ahead does not matter

  lemma {:induction false} CopyBehind(p: seq<byte>, out: seq<byte>, len: nat, dist: nat)
    requires 1 <= dist <= |out|
    ensures CopyMatch(p + out, len, dist) == p + CopyMatch(out, len, dist)
    decreases len
  {
    if len > 0 {
      var b := out[|out| - dist];
      CopyBehind(p, out + [b], len - 1, dist);
      assert p + out + [b] == p + (out + [b]);
    }
  }

  lemma {:induction false} ApplyBehind(p: seq<byte>, out: seq<byte>, c: LzCode)
    requires Applies(c, |out|)
    ensures Applies(c, |p + out|) && Apply(p + out, c) == p + Apply(out, c)
  {
    match c {
      case Literal(b) => assert p + out + [b] == p + (out + [b]);
      case Match(len, dist) => CopyBehind(p, out, len, dist);
    }
  }

  lemma {:induction false} ExpandBehind(p: seq<byte>, out: seq<byte>, cs: seq<LzCode>)
    requires AllApply(cs, |out|)
    ensures AllApply(cs, |p + out|) && Expand(p + out, cs) == p + Expand(out, cs)
    decreases |cs|
  {
    hide Applies, Apply;
    if cs != [] {
      var n := |cs| - 1;
      ExpandBehind(p, out, cs[..n]);
      ApplyBehind(p, Expand(out, cs[..n]), cs[n]);
    }
  }

  lemma {:induction false} BodyBehind(p: seq<byte>, lit: seq<nat>, dst: seq<nat>, bits: seq<bool>, pos: nat,
                                      out: seq<byte>)
    requires BodyAt(lit, dst, bits, pos, out).Got?
    ensures var r := BodyAt(lit, dst, bits, pos, out);
      BodyAt(lit, dst, bits, pos, p + out) == Got(p + r.v, r.pos)
    decreases |bits| - pos
  {
    hide Applies, Apply, ItemAt;
    match ItemAt(lit, dst, bits, pos) {
      case Got(Code(c), q) =>
        ApplyBehind(p, out, c);
        BodyBehind(p, lit, dst, bits, q, Apply(out, c));
      case _ =>
    }
  }

  lemma {:induction false} ContentBehind(p: seq<byte>, kind: nat, bits: seq<bool>, pos: nat, out: seq<byte>)
    requires ContentAt(kind, bits, pos, out).Got?
    ensures var r := ContentAt(kind, bits, pos, out);
      ContentAt(kind, bits, pos, p + out) == Got(p + r.v, r.pos)
  {
    hide BodyAt, HeaderAt, FixedLit, FixedDist, Field, BytesAt, Align;
    if kind == 0 {
      StoredBehind(p, bits, pos, out);
    } else if kind == 1 {
      BodyBehind(p, FixedLit(), FixedDist(), bits, pos, out);
    } else {
      var t := HeaderAt(bits, pos);
      BodyBehind(p, t.v.lit, t.v.dst, bits, t.pos, out);
    }
  }

  lemma {:induction false} StoredBehind(p: seq<byte>, bits: seq<bool>, pos: nat, out: seq<byte>)
    requires StoredAt(bits, pos, out).Got?
    ensures var r := StoredAt(bits, pos, out); StoredAt(bits, pos, p + out) == Got(p + r.v, r.pos)
  {
    hide Field, BytesAt, Align;
    var n := Field(bits, Align(pos), 16);
    var m := Field(bits, n.pos, 16);
    var data := BytesAt(bits, m.pos, n.v);
    assert p + out + data == p + (out + data);
  }

  /** A block that means something behind out means the same behind anything that ends with out. */
  lemma {:induction false} MeansBehind(p: seq<byte>, w: seq<bool>, from: nat, final: bool, out: seq<byte>,
                                       out2: seq<byte>)
    requires Means(w, from, final, out, out2)
    ensures Means(w, from, final, p + out, p + out2)
  {
    hide ContentAt, Field;
    forall bits | Stands(w, bits, from)
      ensures BlockAt(bits, from, p + out) == Got(Block(final, p + out2), from + |w|)
    {
      var h := Field(bits, from, 3);
      assert BlockAt(bits, from, out).Got?;
      ContentBehind(p, h.v / 2, bits, h.pos, out);
    }
  }

  // ---- places to start from

  /** Byte number byte of the stream, and number at of the data: what stands from there on. */
  datatype Point = Point(byte: nat, at: nat)

  /** From the point on, with nothing before it, what is written stands for src from there up to upTo. */
  ghost predicate Starts(p: Point, wr: seq<bool>, src: seq<byte>, upTo: nat)
  {
    8 * p.byte <= |wr| && p.at <= upTo <= |src| && Prefixed(wr[..8 * p.byte], wr, src[p.at..upTo])
  }

  ghost predicate AllStart(ps: seq<Point>, wr: seq<bool>, src: seq<byte>, upTo: nat)
  {
    forall i :: 0 <= i < |ps| ==> Starts(ps[i], wr, src, upTo)
  }

  /** Nothing that is still to be written may refer behind the last of the points. */
  ghost function Base(ps: seq<Point>): nat
  {
    if ps == [] then 0 else ps[|ps| - 1].at
  }

  /** The points come in order. */
  ghost predicate InOrder(ps: seq<Point>)
  {
    forall i :: 0 <= i < |ps| ==> ps[i].at <= Base(ps)
  }

  /** From every point a decoder that knows nothing before it gets the rest of the data. */
  ghost predicate AllResume(ps: seq<Point>, out: seq<byte>, src: seq<byte>)
  {
    forall i :: 0 <= i < |ps| ==> Resumes(ps[i], out, src)
  }

  ghost predicate Resumes(p: Point, out: seq<byte>, src: seq<byte>)
  {
    p.at <= |src| && exists end: nat :: StreamAt(BytesToBits(out), 8 * p.byte, []) == Got(src[p.at..], end)
  }

  lemma {:induction false} Grows(p: Point, wr: seq<bool>, src: seq<byte>, more: seq<byte>, upTo: nat)
    requires Starts(p, wr, src, upTo)
    ensures Starts(p, wr, src + more, upTo)
  {
    hide Prefixed;
    assert (src + more)[p.at..upTo] == src[p.at..upTo];
  }

  lemma {:induction false} AllGrow(ps: seq<Point>, wr: seq<bool>, src: seq<byte>, more: seq<byte>, upTo: nat)
    requires AllStart(ps, wr, src, upTo)
    ensures AllStart(ps, wr, src + more, upTo)
  {
    hide Starts;
    forall i | 0 <= i < |ps|
      ensures Starts(ps[i], wr, src + more, upTo)
    {
      Grows(ps[i], wr, src, more, upTo);
    }
  }

  /** The bytes from the point on, behind those from the base on. */
  lemma {:induction false} MeansFrom(at: nat, base: nat, b: seq<bool>, from: nat, final: bool, src: seq<byte>,
                                     upTo: nat, upTo2: nat)
    requires at <= base <= upTo <= upTo2 <= |src| && Means(b, from, final, src[base..upTo], src[base..upTo2])
    ensures Means(b, from, final, src[at..upTo], src[at..upTo2])
  {
    hide Means;
    MeansBehind(src[at..base], b, from, final, src[base..upTo], src[base..upTo2]);
    assert src[at..base] + src[base..upTo] == src[at..upTo];
    assert src[at..base] + src[base..upTo2] == src[at..upTo2];
  }

  lemma {:induction false} NextFrom(p: Point, base: nat, wr: seq<bool>, b: seq<bool>, src: seq<byte>, upTo: nat,
                                    upTo2: nat)
    requires Starts(p, wr, src, upTo) && p.at <= base <= upTo <= upTo2 <= |src|
    requires Means(b, |wr|, false, src[base..upTo], src[base..upTo2])
    ensures Starts(p, wr + b, src, upTo2)
  {
    hide Means, Prefixed;
    MeansFrom(p.at, base, b, |wr|, false, src, upTo, upTo2);
    NextBlock(wr[..8 * p.byte], wr, b, src[p.at..upTo], src[p.at..upTo2]);
    assert (wr + b)[..8 * p.byte] == wr[..8 * p.byte];
  }

  /** Another block, which refers to nothing before the base. */
  lemma {:induction false} AllNext(ps: seq<Point>, wr: seq<bool>, b: seq<bool>, src: seq<byte>, upTo: nat, upTo2: nat)
    requires AllStart(ps, wr, src, upTo) && InOrder(ps) && Base(ps) <= upTo <= upTo2 <= |src|
    requires Means(b, |wr|, false, src[Base(ps)..upTo], src[Base(ps)..upTo2])
    ensures AllStart(ps, wr + b, src, upTo2)
  {
    hide Starts, Means, Base;
    forall i | 0 <= i < |ps|
      ensures Starts(ps[i], wr + b, src, upTo2)
    {
      NextFrom(ps[i], Base(ps), wr, b, src, upTo, upTo2);
    }
  }

  lemma {:induction false} LastFrom(p: Point, base: nat, wr: seq<bool>, b: seq<bool>, src: seq<byte>, upTo: nat,
                                    out: seq<byte>)
    requires Starts(p, wr, src, upTo) && p.at <= base <= upTo
    requires Means(b, |wr|, true, src[base..upTo], src[base..]) && wr + b <= BytesToBits(out)
    ensures Resumes(p, out, src)
  {
    hide Means, Prefixed, BytesToBits, StreamAt;
    assert src[base..] == src[base..|src|] && src[p.at..] == src[p.at..|src|];
    MeansFrom(p.at, base, b, |wr|, true, src, upTo, |src|);
    LastBlock(wr[..8 * p.byte], wr, b, src[p.at..upTo], src[p.at..]);
    assert StreamAt(BytesToBits(out), 8 * p.byte, []) == Got(src[p.at..], |wr + b|);
  }

  /** The last block. */
  lemma {:induction false} AllLast(ps: seq<Point>, wr: seq<bool>, b: seq<bool>, src: seq<byte>, upTo: nat,
                                   out: seq<byte>)
    requires AllStart(ps, wr, src, upTo) && InOrder(ps) && Base(ps) <= upTo <= |src|
    requires Means(b, |wr|, true, src[Base(ps)..upTo], src[Base(ps)..]) && wr + b <= BytesToBits(out)
    ensures AllResume(ps, out, src)
  {
    hide Starts, Means, Base, Resumes, BytesToBits;
    forall i | 0 <= i < |ps|
      ensures Resumes(ps[i], out, src)
    {
      LastFrom(ps[i], Base(ps), wr, b, src, upTo, out);
    }
  }

  /** A new point at the end. */
  lemma {:induction false} NewPoint(ps: seq<Point>, out: seq<byte>, src: seq<byte>)
    requires AllStart(ps, BytesToBits(out), src, |src|) && InOrder(ps) && Base(ps) <= |src|
    ensures var qs := ps + [Point(|out|, |src|)];
      AllStart(qs, BytesToBits(out), src, |src|) && InOrder(qs) && Base(qs) == |src|
  {
    hide Prefixed, BytesToBits;
    var wr, qs := BytesToBits(out), ps + [Point(|out|, |src|)];
    assert wr[..8 * |out|] == wr && src[|src|..|src|] == [];
    OnlyHeader(wr);
    forall i | 0 <= i < |qs|
      ensures Starts(qs[i], wr, src, |src|)
    {
      assert i < |ps| ==> Starts(ps[i], wr, src, |src|);
    }
    forall i | 0 <= i < |qs|
      ensures qs[i].at <= Base(qs)
    {
      assert i < |ps| ==> ps[i].at <= Base(ps);
    }
  }
}
