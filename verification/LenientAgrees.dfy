/** Where tinfl takes nothing beyond the standard, it and the standard's reader agree. */
module LenientAgrees {
  import opened Bits
  import opened Canonical
  import opened LzCodes
  import opened RunPacking
  import opened DeflateSpec
  import opened DeflateBlocks
  import opened ReferenceSteps
  import opened Lenient

  // ---- nothing becomes plain again

  lemma {:induction false} BodyUnplain(lit: seq<nat>, dst: seq<nat>, bits: seq<bool>, pos: nat, mem: seq<byte>,
                                       cur: nat, room: nat)
    requires cur <= |mem| && room <= |mem|
    ensures var r := BodyTo(lit, dst, bits, pos, mem, cur, room, false); r.Reached? ==> !r.plain
    decreases |bits| - pos, |mem| - cur
  {
    hide TakenAt, SymbolAt, FarAt, DistanceAt, Copy, Field;
    var s := TakenAt(lit, bits, pos);
    if s.Got? {
      if s.v < 256 && cur < room {
        BodyUnplain(lit, dst, bits, s.pos, mem[cur := s.v], cur + 1, room);
      } else if s.v > 256 {
        var r := LengthTo(dst, bits, s.pos, s.v, mem, cur, room, false);
        if r.Reached? {
          BodyUnplain(lit, dst, bits, r.pos, r.mem, r.cur, room);
        }
      }
    }
  }

  lemma {:induction false} LengthsUnplain(cl: seq<nat>, bits: seq<bool>, pos: nat, got: seq<nat>, total: nat)
    ensures var r := LengthsTo(cl, bits, pos, got, total, false); r.Gained? ==> !r.v.plain
    decreases total - |got|
  {
    hide TakenAt, SymbolAt;
    if |got| < total {
      var t := TokenFrom(TakenAt(cl, bits, pos), bits);
      if t.Got? {
        var more := ExpandToken(got, t.v);
        if more.Some? {
          LengthsUnplain(cl, bits, t.pos, more.value, total);
        }
      }
    }
  }

  lemma {:induction false} ContentUnplain(kind: nat, bits: seq<bool>, pos: nat, mem: seq<byte>, cur: nat, room: nat)
    requires cur <= |mem| && room <= |mem|
    ensures var r := ContentTo(kind, bits, pos, mem, cur, room, false); r.Reached? ==> !r.plain
  {
    hide BodyTo, CountsAt, SizesAt, LengthsTo, Accepts, FixedLit, FixedDist, Field;
    if kind == 1 {
      BodyUnplain(FixedLit(), FixedDist(), bits, pos, mem, cur, room);
    } else if kind == 2 {
      var h := HeaderTo(bits, pos, false);
      if h.Gained? {
        var n := CountsAt(bits, pos);
        var cl := SizesAt(bits, n.pos, n.v.nc);
        LengthsUnplain(cl.v, bits, cl.pos, [], n.v.nl + n.v.nd);
        BodyUnplain(h.v.lit, h.v.dst, bits, h.pos, mem, cur, room);
      }
    }
  }

  lemma {:induction false} StreamUnplain(bits: seq<bool>, pos: nat, mem: seq<byte>, cur: nat, room: nat)
    requires cur <= |mem| && room <= |mem|
    ensures var r := StreamTo(bits, pos, mem, cur, room, false); r.Reached? ==> !r.plain
    decreases |bits| - pos
  {
    hide ContentTo, Field;
    var h := Field(bits, pos, 3);
    if h.Got? {
      ContentUnplain(h.v / 2, bits, h.pos, mem, cur, room);
      var r := ContentTo(h.v / 2, bits, h.pos, mem, cur, room, false);
      if r.Reached? && h.v % 2 == 0 {
        FieldEnd(bits, pos, 3);
        StreamUnplain(bits, r.pos, r.mem, r.cur, room);
      }
    }
  }

  // ---- agreement

  /** Both have read the same. */
  ghost predicate Same(goal: Read<seq<byte>>, to: Outcome)
  {
    goal.Got? && to.Reached? && to.plain && to.cur <= |to.mem| && goal == Got(to.mem[..to.cur], to.pos)
  }

  /**
   What the standard's reader gets, tinfl gets if there is room for it, and otherwise it says that there is none;
     what tinfl gets
   without going beyond the standard, the standard's reader gets.
   */
  ghost predicate Agree(goal: Read<seq<byte>>, to: Outcome, room: nat)
  {
    && (goal.Got? ==> if |goal.v| <= room then Same(goal, to) else to == Stopped(NoRoom))
    && (to.Reached? && to.plain ==> Same(goal, to) && to.cur <= room)
  }

  lemma {:induction false} CopyAgrees(mem: seq<byte>, cur: nat, n: nat, dist: nat)
    requires 1 <= dist <= cur && cur + n <= |mem|
    ensures Copy(mem, cur, n, dist)[..cur + n] == CopyMatch(mem[..cur], n, dist)
    decreases n
  {
    if n > 0 {
      var m := mem[cur := mem[cur - dist]];
      CopyAgrees(m, cur + 1, n - 1, dist);
      assert m[..cur + 1] == mem[..cur] + [mem[..cur][|mem[..cur]| - dist]];
    }
  }

  lemma {:induction false} FarAgrees(dst: seq<nat>, bits: seq<bool>, pos: nat)
    requires DistanceAt(dst, bits, pos).Got?
    ensures FarAt(dst, bits, pos) == DistanceAt(dst, bits, pos)
  {
    hide SymbolAt, Field;
  }

  /** What the standard's reader does behind a length symbol, and what tinfl does. */
  lemma {:induction false} MatchAgrees(lit: seq<nat>, dst: seq<nat>, bits: seq<bool>, p: nat, s: nat, mem: seq<byte>,
                                       cur: nat, room: nat)
    requires cur <= room <= |mem| && 256 < s <= 285
    ensures var goal, to := AfterMatch(lit, dst, bits, p, mem[..cur], s - 257),
                            LengthTo(dst, bits, p, s, mem, cur, room, true);
      && (goal.Got? && |goal.v| <= room ==> to.Reached? && to.plain)
      && (goal.Got? && |goal.v| > room ==> to == Stopped(NoRoom) || (to.Reached? && to.plain))
      && (to.Reached? && to.plain ==> to.cur <= room && goal == BodyAt(lit, dst, bits, to.pos, to.mem[..to.cur]))
  {
    hide BodyAt, Field, DistanceAt, FarAt, LengthBase, LengthExtra, CopyMatch, Copy;
    var x := Field(bits, p, LengthExtra(s - 257));
    if x.Got? {
      LengthRange(bits, p, s - 257);
      var d, len := DistanceAt(dst, bits, x.pos), LengthBase(s - 257) + x.v;
      if d.Got? {
        FarAgrees(dst, bits, x.pos);
        MatchFits(lit, dst, bits, p, mem[..cur], s - 257, x.v, x.pos, d.v, d.pos);
        if d.v <= cur && cur + len <= room {
          CopyAgrees(mem, cur, len, d.v);
        }
      }
    }
  }

  lemma {:induction false} BodyAgrees(lit: seq<nat>, dst: seq<nat>, bits: seq<bool>, pos: nat, mem: seq<byte>, cur: nat,
                                      room: nat)
    requires cur <= room <= |mem|
    ensures Agree(BodyAt(lit, dst, bits, pos, mem[..cur]), BodyTo(lit, dst, bits, pos, mem, cur, room, true), room)
    decreases |bits| - pos, |mem| - cur
  {
    hide BodyAt, TakenAt, SymbolAt, LengthTo, AfterMatch, CopyMatch, Same;
    var out := mem[..cur];
    var s, t := SymbolAt(lit, bits, pos), TakenAt(lit, bits, pos);
    PlainTaken(lit, bits, pos);
    if s == Fail {
      NoItem(lit, dst, bits, pos, out);
      Strays(lit, dst, bits, pos, mem, cur, room);
    } else if s.v < 256 {
      LiteralItem(lit, dst, bits, pos, out, s.v, s.pos);
      if cur < room {
        assert mem[cur := s.v][..cur + 1] == out + [s.v];
        BodyAgrees(lit, dst, bits, s.pos, mem[cur := s.v], cur + 1, room);
      } else if BodyAt(lit, dst, bits, pos, out).Got? {
        BodyAdds(lit, dst, bits, s.pos, out + [s.v]);
      }
    } else if s.v == 256 {
      EndItem(lit, dst, bits, pos, out, s.pos);
      EndAgrees(mem, cur, s.pos, room);
    } else if s.v > 285 {
      NoItem(lit, dst, bits, pos, out);
      Strays(lit, dst, bits, pos, mem, cur, room);
    } else {
      MatchItem(lit, dst, bits, pos, out, s.v, s.pos);
      MatchAgrees(lit, dst, bits, s.pos, s.v, mem, cur, room);
      var to := LengthTo(dst, bits, s.pos, s.v, mem, cur, room, true);
      if to.Reached? {
        if to.plain {
          BodyAgrees(lit, dst, bits, to.pos, to.mem, to.cur, room);
        } else {
          BodyUnplain(lit, dst, bits, to.pos, to.mem, to.cur, room);
        }
      }
    }
  }

  lemma {:induction false} PlainTaken(lens: seq<nat>, bits: seq<bool>, pos: nat)
    ensures SymbolAt(lens, bits, pos).Got? ==> TakenAt(lens, bits, pos) == SymbolAt(lens, bits, pos)
    ensures TakenAt(lens, bits, pos).Got? && TakenAt(lens, bits, pos).v > 0 ==> SymbolAt(lens, bits, pos).Got?
  {
    hide SymbolAt, OneCode;
  }

  lemma {:induction false} EndAgrees(mem: seq<byte>, cur: nat, p: nat, room: nat)
    requires cur <= room <= |mem|
    ensures Agree(Got(mem[..cur], p), Reached(mem, cur, p, true), room)
  {
  }

  /** Where the standard's reader fails at a symbol, what tinfl reaches is beyond the standard. */
  lemma {:induction false} Strays(lit: seq<nat>, dst: seq<nat>, bits: seq<bool>, pos: nat, mem: seq<byte>, cur: nat,
                                  room: nat)
    requires cur <= |mem| && room <= |mem|
    requires SymbolAt(lit, bits, pos) == Fail || SymbolAt(lit, bits, pos).v > 285
    ensures var r := BodyTo(lit, dst, bits, pos, mem, cur, room, true); r.Reached? ==> !r.plain
  {
    hide TakenAt, SymbolAt, FarAt, DistanceAt, Field, Copy;
    PlainTaken(lit, bits, pos);
    var t := TakenAt(lit, bits, pos);
    if t.Got? {
      if t.v < 256 && cur < room {
        BodyUnplain(lit, dst, bits, t.pos, mem[cur := t.v], cur + 1, room);
      } else if t.v > 256 {
        var r := LengthTo(dst, bits, t.pos, t.v, mem, cur, room, SymbolAt(lit, bits, pos).Got?);
        if r.Reached? {
          BodyUnplain(lit, dst, bits, r.pos, r.mem, r.cur, room);
        }
      }
    }
  }

  lemma {:induction false} StoredAgrees(bits: seq<bool>, pos: nat, mem: seq<byte>, cur: nat, room: nat)
    requires cur <= room <= |mem|
    ensures Agree(StoredAt(bits, pos, mem[..cur]), StoredTo(bits, pos, mem, cur, room, true), room)
  {
    hide Field, BytesAt, Align;
    StoredParts(bits, pos, mem[..cur]);
    var n := Field(bits, Align(pos), 16);
    var to := StoredTo(bits, pos, mem, cur, room, true);
    if to.Reached? {
      var m := Field(bits, n.pos, 16);
      FieldEnd(bits, Align(pos), 16);
      assert to.mem[..to.cur] == mem[..cur] + BytesAt(bits, m.pos, n.v);
    } else {
      FieldEnd(bits, Align(pos), 16);
    }
  }

  // ---- headers

  lemma {:induction false} LengthsAgree(cl: seq<nat>, bits: seq<bool>, pos: nat, got: seq<nat>, total: nat)
    ensures var a, b := LengthsAt(cl, bits, pos, got, total), LengthsTo(cl, bits, pos, got, total, true);
      && (a.Got? ==> b == Gained(Lengths(a.v, true), a.pos))
      && (b.Gained? && b.v.plain ==> a == Got(b.v.lens, b.pos))
    decreases total - |got|
  {
    hide TakenAt, SymbolAt;
    if |got| < total {
      PlainTaken(cl, bits, pos);
      var t := TokenFrom(TakenAt(cl, bits, pos), bits);
      if t.Got? {
        var more := ExpandToken(got, t.v);
        if more.Some? {
          if SymbolAt(cl, bits, pos).Got? {
            LengthsAgree(cl, bits, t.pos, more.value, total);
          } else {
            LengthsUnplain(cl, bits, t.pos, more.value, total);
          }
        }
      }
    }
  }

  lemma {:induction false} HeaderAgrees(bits: seq<bool>, pos: nat)
    ensures var a, b := HeaderAt(bits, pos), HeaderTo(bits, pos, true);
      && (a.Got? ==> b == Gained(Header(a.v.lit, a.v.dst, true), a.pos))
      && (b.Gained? && b.v.plain ==> a == Got(Tables(b.v.lit, b.v.dst), b.pos))
  {
    hide CountsAt, SizesAt, LengthsAt, LengthsTo, Accepts;
    var n := CountsAt(bits, pos);
    if n.Got? {
      var cl := SizesAt(bits, n.pos, n.v.nc);
      if cl.Got? {
        LengthsAgree(cl.v, bits, cl.pos, [], n.v.nl + n.v.nd);
      }
    }
  }

  // ---- streams

  lemma {:induction false} DynamicAgrees(bits: seq<bool>, pos: nat, mem: seq<byte>, cur: nat, room: nat)
    requires cur <= room <= |mem|
    ensures Agree(DynamicAt(bits, pos, mem[..cur]), ContentTo(2, bits, pos, mem, cur, room, true), room)
  {
    hide HeaderAt, HeaderTo, BodyAt, BodyTo, FixedLit, FixedDist, StoredTo, Same;
    HeaderAgrees(bits, pos);
    var h := HeaderTo(bits, pos, true);
    if h.Gained? {
      if h.v.plain {
        BodyAgrees(h.v.lit, h.v.dst, bits, h.pos, mem, cur, room);
      } else {
        BodyUnplain(h.v.lit, h.v.dst, bits, h.pos, mem, cur, room);
      }
    }
  }

  lemma {:induction false} ContentAgrees(kind: nat, bits: seq<bool>, pos: nat, mem: seq<byte>, cur: nat, room: nat)
    requires cur <= room <= |mem|
    ensures Agree(ContentAt(kind, bits, pos, mem[..cur]), ContentTo(kind, bits, pos, mem, cur, room, true), room)
  {
    hide HeaderTo, BodyAt, BodyTo, FixedLit, FixedDist, StoredTo, StoredAt, DynamicAt, Same;
    if kind == 0 {
      StoredAgrees(bits, pos, mem, cur, room);
    } else if kind == 1 {
      BodyAgrees(FixedLit(), FixedDist(), bits, pos, mem, cur, room);
    } else if kind == 2 {
      DynamicAgrees(bits, pos, mem, cur, room);
    }
  }

  lemma {:induction false} StreamAgrees(bits: seq<bool>, pos: nat, mem: seq<byte>, cur: nat, room: nat)
    requires cur <= room <= |mem|
    ensures Agree(StreamAt(bits, pos, mem[..cur]), StreamTo(bits, pos, mem, cur, room, true), room)
    decreases |bits| - pos
  {
    hide ContentAt, ContentTo, Field;
    var h := Field(bits, pos, 3);
    if h.Got? {
      FieldEnd(bits, pos, 3);
      ContentAgrees(h.v / 2, bits, h.pos, mem, cur, room);
      var c, to := ContentAt(h.v / 2, bits, h.pos, mem[..cur]), ContentTo(h.v / 2, bits, h.pos, mem, cur, room, true);
      if h.v % 2 == 0 {
        if to.Reached? && to.plain {
          StreamAgrees(bits, to.pos, to.mem, to.cur, room);
        } else if to.Reached? {
          StreamUnplain(bits, to.pos, to.mem, to.cur, room);
        } else if c.Got? && StreamAt(bits, c.pos, c.v).Got? {
          StreamAdds(bits, c.pos, c.v);
        }
      }
    }
  }

  /** The whole stream. */
  lemma {:induction false} InflatedAgrees(bits: seq<bool>, start: nat, mem: seq<byte>, room: nat)
    requires room <= |mem|
    ensures Agree(StreamAt(bits, start, []), Inflated(bits, start, mem, room), room)
  {
    assert mem[..0] == [];
    StreamAgrees(bits, start, mem, 0, room);
  }
}
