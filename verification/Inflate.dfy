/** tinfl_decompress, in one call over all of the input and into one buffer for all of the output. */
module Inflating {
  import opened Bits
  import opened Canonical
  import opened LzCodes
  import opened DeflateSpec
  import opened DeflateBlocks
  import opened BitReading
  import opened HuffTables
  import opened HuffDecoding
  import opened RunPacking
  import opened Lenient
  import BlockForms
  import InflateTable
  import TableWalks

  /** Undefined: the C code has written behind the memory it was given. */
  datatype Status = Fine | Done | Failed | CannotMakeProgress | HasMoreOutput | AdlerMismatch | Undefined

  /** What a status says about the end. */
  function Why(st: Status): Reason
  {
    match st
    case CannotMakeProgress => NoInput
    case HasMoreOutput => NoRoom
    case AdlerMismatch => BadSum
    case _ => Invalid
  }

  // ---- the decompressor

  class Inflater {
    const r: BitReader
    const out: array<byte>
    // pOut_buf_end; out may go on behind it.
    const room: nat
    const t0: HuffTable
    const t1: HuffTable
    const t2: HuffTable
    var cur: nat

    ghost predicate Valid()
      reads this, r
    {
      && r.Valid() && r.Pos() >= 0 && cur <= out.Length && room <= out.Length
      && t0.Valid() && t1.Valid() && t2.Valid()
      && Apart()
    }

    /** The three tables share nothing. */
    ghost predicate Apart()
    {
      && t0 != t1 && t0 != t2 && t1 != t2
      && t0.lookUp !in {t1.lookUp, t1.tree, t2.lookUp, t2.tree} && t0.tree !in {t1.lookUp, t1.tree, t2.lookUp, t2.tree}
      && t1.lookUp !in {t2.lookUp, t2.tree} && t1.tree !in {t2.lookUp, t2.tree}
    }

    ghost function Output(): seq<byte>
      reads this, out
      requires cur <= out.Length
    {
      out[..cur]
    }

    constructor (data: seq<byte>, buffer: array<byte>, room: nat)
      requires room <= buffer.Length
      ensures Valid() && out == buffer && cur == 0 && r.input == data && r.Pos() == 0 && this.room == room
      ensures fresh(r) && fresh(t0) && fresh(t1) && fresh(t2)
      ensures fresh(t0.lookUp) && fresh(t0.tree) && fresh(t1.lookUp) && fresh(t1.tree) && fresh(t2.lookUp)
        && fresh(t2.tree)
    {
      r := new BitReader(data);
      out := buffer;
      this.room := room;
      t0 := new HuffTable();
      t1 := new HuffTable();
      t2 := new HuffTable();
      cur := 0;
    }

    /** How a block, or all of them, can end, when goal is what it should come to. */
    ghost predicate Ends(st: Status, goal: Outcome)
      reads this, out, r
    {
      && st != Done && st != AdlerMismatch
      && (st == Fine ==>
            r.Pos() >= 0 && goal.Reached? && goal.mem == out[..] && goal.cur == cur && goal.pos == r.Pos())
      && (st == Undefined ==> goal == Left)
      && (st != Fine && st != Undefined ==> goal == Stopped(Why(st)))
    }

    // ---- copying matches

    method PutByte(b: byte)
      requires cur < out.Length
      modifies `cur, out
      ensures cur == old(cur) + 1 && out[..] == old(out[..])[old(cur) := b]
    {
      out[cur] := b;
      cur := cur + 1;
    }

    /** One byte of a match. A distance of zero, which no valid stream has, leaves what is there. */
    method CopyByte(dist: nat, ghost left: nat)
      requires dist <= cur && left > 0 && cur + left <= out.Length
      modifies `cur, out
      ensures cur == old(cur) + 1
      ensures Copy(out[..], cur, left - 1, dist) == Copy(old(out[..]), old(cur), left, dist)
    {
      ghost var before := out[..];
      out[cur] := out[cur - dist];
      assert out[..] == before[cur := before[cur - dist]];
      cur := cur + 1;
    }

    /**
     The copying of a match: byte by byte if the room may not suffice, three at a time otherwise. The first
     three bytes are copied in any case, even if the length is 0.
     */
    method CopyMatches(len: nat, dist: nat, ghost pos: nat, ghost plain: bool) returns (st: Status)
      requires dist <= cur <= out.Length && room <= out.Length && (len == 0 || 3 <= len)
      modifies `cur, out
      ensures st in {Fine, HasMoreOutput, Undefined} && old(cur) <= cur <= out.Length
      ensures match MatchTo(old(out[..]), old(cur), room, len, dist, pos, plain)
        case Reached(m, c, _, _) => st == Fine && out[..] == m && cur == c
        case Left => st == Undefined
        case Stopped(why) => st == HasMoreOutput && why == NoRoom
    {
      hide Copy;
      ghost var mem, c := out[..], cur;
      NothingToCopy(dist);
      if cur + len > room {
        st := CopySlowly(len, dist);
      } else if cur + 3 > out.Length {
        st := Undefined;
      } else if len == 0 {
        CopyByte(dist, 3);
        CopyByte(dist, 2);
        CopyByte(dist, 1);
        st := Fine;
      } else {
        var counter := CopyThrees(len, dist);
        if counter > 0 {
          CopyByte(dist, counter);
          if counter > 1 {
            CopyByte(dist, counter - 1);
          }
        }
        st := Fine;
      }
    }

    /** Byte by byte, where the room may not suffice. */
    method CopySlowly(len: nat, dist: nat) returns (st: Status)
      requires dist <= cur <= out.Length && room <= out.Length && cur + len > room
      modifies `cur, out
      ensures old(cur) <= cur <= out.Length
      ensures if len > 0 then st == HasMoreOutput else st == Fine && cur == old(cur) && out[..] == old(out[..])
    {
      var counter := len;
      while counter > 0
        invariant dist <= cur <= out.Length && cur == old(cur) + len - counter
        invariant counter == len ==> out[..] == old(out[..])
        invariant len > 0 ==> counter > 0
      {
        if cur >= room { return HasMoreOutput; }
        counter := counter - 1;
        CopyByte(dist, 1);
      }
      st := Fine;
    }

    lemma {:induction false} NothingToCopy(dist: nat)
      ensures forall m: seq<byte>, c: nat :: dist <= c <= |m| ==> Copy(m, c, 0, dist) == m
    {
    }

    method CopyThrees(len: nat, dist: nat) returns (counter: nat)
      requires dist <= cur && cur + len <= out.Length && 3 <= len
      modifies `cur, out
      ensures counter < 3 && cur == old(cur) + len - counter && cur + counter <= out.Length
      ensures Copy(out[..], cur, counter, dist) == Copy(old(out[..]), old(cur), len, dist)
    {
      hide Copy;
      counter := len;
      while counter > 2
        invariant 0 <= counter <= len && cur == old(cur) + len - counter
        invariant Copy(out[..], cur, counter, dist) == Copy(old(out[..]), old(cur), len, dist)
      {
        CopyByte(dist, counter);
        CopyByte(dist, counter - 1);
        CopyByte(dist, counter - 2);
        counter := counter - 3;
      }
    }

    // ---- the items of a compressed block

    /** What is still to come at pos makes up goal. */
    ghost predicate OnTrack(lit: seq<nat>, dst: seq<nat>, pos: int, plain: bool, goal: Outcome)
      reads this, out
    {
      && cur <= out.Length && room <= out.Length && pos >= 0
      && goal == BodyTo(lit, dst, r.Stream(), pos, out[..], cur, room, plain)
    }

    /** A symbol that ends a run of literals has been read at pos. */
    ghost predicate SymbolRead(lit: seq<nat>, dst: seq<nat>, pos: int, plain: bool, goal: Outcome, sym: nat)
      reads this, out, r
    {
      && 256 <= sym < 288 && OnTrack(lit, dst, pos, plain, goal) && r.Pos() > pos
      && TakenAt(lit, r.Stream(), pos) == Got(sym, r.Pos())
    }

    /** Everything that goes on between calls within a block. */
    ghost predicate Going(lit: seq<nat>, dst: seq<nat>, plain: bool, goal: Outcome)
      reads this, out, r, t0, t0.lookUp, t0.tree
    {
      Valid() && Decoder(t0, lit) && |lit| <= 288 && OnTrack(lit, dst, r.Pos(), plain, goal)
    }

    lemma {:induction false} NoSymbol(lit: seq<nat>, dst: seq<nat>, pos: int, plain: bool, goal: Outcome)
      requires OnTrack(lit, dst, pos, plain, goal) && TakenAt(lit, r.Stream(), pos) == Fail
      ensures goal == Stopped(NoInput)
    {
      hide TakenAt;
    }

    /** A literal goes out, or there is no room left for it. */
    method TakeLiteral(ghost lit: seq<nat>, ghost dst: seq<nat>, ghost pos: int, ghost plain: bool, ghost goal: Outcome,
                       sym: nat) returns (st: Status, ghost still: bool)
      requires Valid() && OnTrack(lit, dst, pos, plain, goal) && sym < 256
      requires TakenAt(lit, r.Stream(), pos) == Got(sym, r.Pos() as nat)
      modifies `cur, out
      ensures Valid() && if old(cur) < room then st == Fine && OnTrack(lit, dst, r.Pos(), still, goal)
        && cur == old(cur) + 1
                         else st == HasMoreOutput && Ends(st, goal) && cur == old(cur)
    {
      hide BodyTo, TakenAt, SymbolAt, BitReader.Valid, Apart;
      LiteralTo(lit, dst, r.Stream(), pos, out[..], cur, room, plain, sym, r.Pos());
      still := plain && SymbolAt(lit, r.Stream(), pos).Got?;
      if cur >= room { return HasMoreOutput, still; }
      PutByte(sym);
      st := Fine;
    }

    /** One symbol, near the end of the input or of the output. */
    method SlowLiteral(ghost lit: seq<nat>, ghost dst: seq<nat>, ghost plain: bool, ghost goal: Outcome)
      returns (st: Status, sym: nat, ghost still: bool)
      requires Going(lit, dst, plain, goal)
      modifies `cur, out, r
      ensures Valid() && old(r.Pos()) <= r.Pos() && old(cur) <= cur
      ensures st in {Fine, CannotMakeProgress, HasMoreOutput} && (st != Fine ==> Ends(st, goal))
      ensures st == Fine && sym >= 256 ==> SymbolRead(lit, dst, old(r.Pos()), plain, goal, sym)
      ensures st == Fine && sym < 256 ==> OnTrack(lit, dst, r.Pos(), still, goal) && old(cur) < cur
    {
      hide Decoder, BodyTo, TakenAt, BitReader.Valid, Apart;
      ghost var pos := r.Pos();
      still := plain;
      var ok;
      ok, sym := HuffDecode(r, t0, lit);
      if !ok {
        NoSymbol(lit, dst, pos, plain, goal);
        return CannotMakeProgress, sym, still;
      }
      Advanced(lit, r.Stream(), pos);
      st := Fine;
      if sym < 256 {
        st, still := TakeLiteral(lit, dst, pos, plain, goal, sym);
      }
    }

    /** At least 15 bits in the buffer. */
    method TopUp()
      requires r.Valid() && |r.input| - r.cur >= 2
      modifies r
      ensures r.Valid() && r.numBits >= 15 && r.Pos() == old(r.Pos()) && r.cur <= old(r.cur) + 2
    {
      hide ToBits, BytesToBits;
      if r.numBits < 15 {
        r.AddByte();
        r.AddByte();
      }
    }

    /** A symbol where there is input enough. */
    method FastSymbol(ghost lit: seq<nat>) returns (sym: nat)
      requires Valid() && Decoder(t0, lit) && |lit| <= 288 && |r.input| - r.cur >= 2
      modifies r
      ensures Valid() && r.cur <= old(r.cur) + 2 && sym < 288 && 0 <= old(r.Pos()) <= r.Pos()
      ensures TakenAt(lit, r.Stream(), old(r.Pos())) == Got(sym, r.Pos() as nat)
    {
      hide Decoder, TakenAt, BitReader.Valid, Apart, ToBits, BytesToBits, TableWalks.LookUp, TableWalks.Enough;
      TablesSized(t0, lit);
      TopUp();
      sym := TakeSymbol(r, t0, lit);
    }

    /** Up to two literals at a time, where there is input and room enough. */
    method FastLiterals(ghost lit: seq<nat>, ghost dst: seq<nat>, ghost plain: bool, ghost goal: Outcome)
      returns (sym: nat, ghost pos: int, ghost still: bool)
      requires Going(lit, dst, plain, goal) && |r.input| - r.cur >= 4 && room - cur >= 2
      modifies `cur, out, r
      ensures Valid() && old(r.Pos()) <= r.Pos() && old(cur) <= cur
      ensures sym >= 256 ==> SymbolRead(lit, dst, pos, still, goal, sym) && old(r.Pos()) <= pos
      ensures sym < 256 ==> OnTrack(lit, dst, r.Pos(), still, goal) && old(cur) < cur
    {
      hide Decoder, BodyTo, TakenAt, BitReader.Valid, Apart;
      pos, still := r.Pos(), plain;
      sym := FastSymbol(lit);
      Advanced(lit, r.Stream(), pos);
      if sym >= 256 { return; }
      var st;
      st, still := TakeLiteral(lit, dst, pos, still, goal, sym);
      pos := r.Pos();
      sym := FastSymbol(lit);
      Advanced(lit, r.Stream(), pos);
      if sym >= 256 { return; }
      st, still := TakeLiteral(lit, dst, pos, still, goal, sym);
    }

    /** A run of literals, up to a symbol of another kind. */
    method Literals(ghost lit: seq<nat>, ghost dst: seq<nat>, ghost plain: bool, ghost goal: Outcome)
      returns (st: Status, sym: nat, ghost pos: int, ghost still: bool)
      requires Going(lit, dst, plain, goal)
      modifies `cur, out, r
      ensures Valid() && old(r.Pos()) <= r.Pos() && old(cur) <= cur
      ensures st in {Fine, CannotMakeProgress, HasMoreOutput} && (st != Fine ==> Ends(st, goal))
      ensures st == Fine ==> SymbolRead(lit, dst, pos, still, goal, sym) && old(r.Pos()) <= pos
    {
      hide Decoder, BitReader.Valid, Apart, OnTrack, SymbolRead, Ends;
      still := plain;
      while true
        invariant Going(lit, dst, still, goal) && old(r.Pos()) <= r.Pos() && old(cur) <= cur
        decreases out.Length - cur
      {
        ghost var was := still;
        if |r.input| - r.cur < 4 || room - cur < 2 {
          pos := r.Pos();
          st, sym, still := SlowLiteral(lit, dst, was, goal);
          if st != Fine { return; }
          if sym >= 256 { return Fine, sym, pos, was; }
        } else {
          sym, pos, still := FastLiterals(lit, dst, was, goal);
          if sym >= 256 { return Fine, sym, pos, still; }
        }
      }
    }

    /** TINFL_GET_BITS of extra bits, of which there may be none. */
    method Extra(n: nat) returns (ok: bool, v: nat)
      requires r.Valid() && r.Pos() >= 0 && n <= 13
      modifies r
      ensures r.Valid() && old(r.Pos()) <= r.Pos()
      ensures ok <==> Field(r.Stream(), old(r.Pos()), n).Got?
      ensures ok ==> Field(r.Stream(), old(r.Pos()), n) == Got(v, r.Pos())
    {
      hide ToBits, BytesToBits;
      if n > 0 {
        ok, v := r.GetBits(n);
      } else {
        ok, v := true, 0;
        assert r.Stream()[r.Pos()..r.Pos()] == [];
      }
    }

    /** The distance symbol and its extra bits. */
    method Distance(ghost dst: seq<nat>) returns (ok: bool, dist: nat)
      requires Valid() && Decoder(t1, dst) && |dst| <= 32
      modifies r
      ensures Valid() && old(r.Pos()) <= r.Pos()
      ensures ok <==> FarAt(dst, r.Stream(), old(r.Pos())).Got?
      ensures ok ==> FarAt(dst, r.Stream(), old(r.Pos())) == Got(dist, r.Pos() as nat)
    {
      hide Decoder, TakenAt, BitReader.Valid, Apart, DistBase, DistanceExtra, Field;
      var sym;
      ok, sym := HuffDecode(r, t1, dst);
      dist := 0;
      if !ok { return; }
      ExtraSmall(sym);
      var v;
      ok, v := Extra(DistanceExtra(sym));
      dist := DistBase(sym) + v;
    }

    /** A length and its distance. */
    method ReadMatch(sym: nat, ghost dst: seq<nat>) returns (st: Status, len: nat, dist: nat, ghost q: nat)
      requires Valid() && Decoder(t1, dst) && |dst| <= 32 && 256 < sym < 288
      modifies r
      ensures Valid() && old(r.Pos()) <= r.Pos() && st in {Fine, CannotMakeProgress, Failed}
      ensures st == Fine ==> (len == 0 || 3 <= len) && len >= LengthBase(sym - 257) && dist <= cur
      ensures st == Fine ==>
        && Field(r.Stream(), old(r.Pos()), LengthExtra(sym - 257)) == Got(len - LengthBase(sym - 257), q)
        && FarAt(dst, r.Stream(), q) == Got(dist, r.Pos() as nat)
      ensures st != Fine ==>
        var x := Field(r.Stream(), old(r.Pos()), LengthExtra(sym - 257));
        if x == Fail || FarAt(dst, r.Stream(), x.pos) == Fail then st == CannotMakeProgress
        else FarAt(dst, r.Stream(), x.pos).v > cur && st == Failed
    {
      hide Decoder, BitReader.Valid, Apart, FarAt, Field, LengthBase, LengthExtra;
      LengthTable(sym - 257);
      if sym > 285 {
        WithinStream(r);
        NoExtra(r.Stream(), r.Pos());
      }
      len, dist, q := 0, 0, 0;
      var ok, v := Extra(LengthExtra(sym - 257));
      if !ok { return CannotMakeProgress, len, dist, q; }
      len := LengthBase(sym - 257) + v;
      q := r.Pos();
      ok, dist := Distance(dst);
      if !ok { return CannotMakeProgress, len, dist, q; }
      st := if dist > cur then Failed else Fine;
    }

    /** A length, its distance, and the copy. */
    method MatchStep(ghost lit: seq<nat>, ghost dst: seq<nat>, ghost pos: int, ghost plain: bool, ghost goal: Outcome,
                     sym: nat) returns (st: Status, ghost still: bool)
      requires Valid() && Decoder(t1, dst) && |dst| <= 32 && SymbolRead(lit, dst, pos, plain, goal, sym) && sym != 256
      modifies `cur, out, r
      ensures Valid() && old(r.Pos()) <= r.Pos() && old(cur) <= cur
      ensures st != Fine ==> Ends(st, goal)
      ensures st == Fine ==> OnTrack(lit, dst, r.Pos(), still, goal)
    {
      hide Decoder, BodyTo, LengthTo, MatchTo, TakenAt, SymbolAt, FarAt, DistanceAt, Field, LengthBase, LengthExtra,
        BitReader.Valid, Apart, Copy;
      ghost var bits, p, mem, c, ok := r.Stream(), r.Pos(), out[..], cur, plain && SymbolAt(lit, r.Stream(), pos).Got?;
      LengthStep(lit, dst, bits, pos, mem, c, room, plain, sym, p);
      var len, dist;
      ghost var q;
      st, len, dist, q := ReadMatch(sym, dst);
      still := ok && sym <= 285 && DistanceAt(dst, bits, q).Got?;
      if st != Fine {
        MatchFails(dst, bits, p, sym, mem, c, room, ok, Why(st));
        return;
      }
      MatchGoes(dst, bits, p, sym, mem, c, room, ok, len, q, dist, r.Pos());
      st := CopyMatches(len, dist, r.Pos(), still);
    }

    /** A compressed block behind its header. */
    method Body(ghost lit: seq<nat>, ghost dst: seq<nat>, ghost plain: bool, ghost goal: Outcome) returns (st: Status)
      requires Going(lit, dst, plain, goal) && Decoder(t1, dst) && |dst| <= 32
      modifies `cur, out, r
      ensures Valid() && old(r.Pos()) <= r.Pos() && Ends(st, goal)
    {
      hide Decoder, BodyTo, TakenAt, BitReader.Valid, Apart, OnTrack, Ends;
      ghost var still := plain;
      while true
        invariant Going(lit, dst, still, goal) && old(r.Pos()) <= r.Pos()
        decreases |r.Stream()| - r.Pos()
      {
        WithinStream(r);
        var sym;
        ghost var pos;
        st, sym, pos, still := Literals(lit, dst, still, goal);
        if st != Fine { return; }
        if sym == 256 {
          BlockEnds(lit, dst, pos, still, goal);
          return;
        }
        st, still := MatchStep(lit, dst, pos, still, goal, sym);
        if st != Fine { return; }
      }
    }

    lemma {:induction false} BlockEnds(lit: seq<nat>, dst: seq<nat>, pos: int, plain: bool, goal: Outcome)
      requires SymbolRead(lit, dst, pos, plain, goal, 256)
      ensures Ends(Fine, goal)
    {
      hide TakenAt, SymbolAt;
    }

    // ---- stored blocks

    /** The next sixteen bits of a raw block's header. */
    method HeaderWord() returns (ok: bool, v: nat)
      requires r.Valid() && r.Pos() >= 0
      modifies r
      ensures r.Valid() && old(r.Pos()) <= r.Pos()
      ensures ok <==> Field(r.Stream(), old(r.Pos()), 16).Got?
      ensures ok ==> Field(r.Stream(), old(r.Pos()), 16) == Got(v, r.Pos()) && r.Pos() == old(r.Pos()) + 16
    {
      hide ToBits, BytesToBits, BitReader.Valid;
      ghost var p := r.Pos();
      var lo, hi;
      v := 0;
      FieldHalves(r.Stream(), p);
      ok, lo := r.GetByte();
      if ok {
        ok, hi := r.GetByte();
        if ok {
          v := lo + 256 * hi;
        }
      }
    }

    /** k bytes, from stream position q on, have been put at c in the memory mem. */
    ghost predicate Copied(q: nat, k: nat, mem: seq<byte>, c: nat)
      reads this, out, r
    {
      && c + k <= |mem| == out.Length && cur == c + k && r.Pos() == q + 8 * k && q + 8 * k <= |r.Stream()|
      && out[..] == mem[..c] + BytesAt(r.Stream(), q, k) + mem[c + k..]
    }

    /** The input and the room suffice for n bytes. */
    ghost predicate Suffices(q: nat, n: nat, c: nat)
    {
      q + 8 * n <= |r.Stream()| && c + n <= room
    }

    /** What has come to an end first. */
    ghost predicate Runs(st: Status, q: nat, c: nat)
    {
      st == if RoomFills(r.Stream(), q, c, room) then HasMoreOutput else CannotMakeProgress
    }

    /** A byte of a raw block that is in the bit buffer, at least in part. */
    method HeldByte(ghost q: nat, ghost k: nat, ghost n: nat, ghost mem: seq<byte>, ghost c: nat) returns (st: Status)
      requires Valid() && Copied(q, k, mem, c) && k < n && q % 8 == 0 && r.numBits > 0 && (k > 0 ==> cur <= room)
      modifies `cur, out, r
      ensures Valid() && old(r.Pos()) <= r.Pos() && st in {Fine, HasMoreOutput}
      ensures st == Fine ==> Copied(q, k + 1, mem, c) && cur <= room
      ensures st != Fine ==> !Suffices(q, n, c) && RoomFills(r.Stream(), q, c, room)
    {
      hide ToBits, BytesToBits, BitReader.Valid, Apart, FromBits, Pow2, BytesAt;
      WholeByte(q, k);
      var ok, v := r.GetBits(8);
      if cur >= room { return HasMoreOutput; }
      NextByte(r.Stream(), q, k, v);
      OneInto(mem, c, BytesAt(r.Stream(), q, k), v);
      PutByte(v);
      st := Fine;
    }

    /** At a byte boundary there are whole bytes in the bit buffer. */
    lemma {:induction false} WholeByte(q: nat, k: nat)
      requires r.Valid() && r.Pos() == q + 8 * k && q % 8 == 0 && r.numBits > 0
      ensures r.numBits >= 8 && r.Pos() >= 0 && Field(r.Stream(), r.Pos(), 8).Got?
    {
    }

    /** A byte of a raw block straight from the input. */
    method InputByte(ghost q: nat, ghost k: nat, ghost mem: seq<byte>, ghost c: nat)
      requires Valid() && Copied(q, k, mem, c) && r.numBits == 0 && cur < room && r.cur < |r.input|
      modifies `cur, out, r
      ensures Valid() && Copied(q, k + 1, mem, c) && r.numBits == 0 && r.cur == old(r.cur) + 1 && cur == old(cur) + 1
    {
      hide ToBits, BytesToBits, Apart, FromBits, Pow2, BytesAt;
      ByteField(r.input, r.cur);
      NextByte(r.Stream(), q, k, r.input[r.cur]);
      OneInto(mem, c, BytesAt(r.Stream(), q, k), r.input[r.cur]);
      PutByte(r.input[r.cur]);
      NoBitsHeld(r.input, r.cur + 1);
      r.cur := r.cur + 1;
    }

    /** The bytes of a raw block: first those in the bit buffer, then as many at a time as input and output allow. */
    method StoredBytes(counter: nat, ghost q: nat, ghost mem: seq<byte>, ghost c: nat) returns (st: Status)
      requires Valid() && Copied(q, 0, mem, c) && q % 8 == 0
      modifies `cur, out, r
      ensures Valid() && old(r.Pos()) <= r.Pos() && st in {Fine, CannotMakeProgress, HasMoreOutput}
      ensures st == Fine ==> Copied(q, counter, mem, c) && (counter > 0 ==> c + counter <= room)
      ensures st != Fine ==> counter > 0 && !Suffices(q, counter, c) && Runs(st, q, c)
    {
      hide ToBits, BytesToBits, BitReader.Valid, Apart, Copied, Suffices;
      var left := counter;
      WrittenTo(q, 0, mem, c);
      while left > 0 && r.numBits > 0
        invariant q % 8 == 0 && Valid() && 0 <= left <= counter && Copied(q, counter - left, mem, c)
          && old(r.Pos()) <= r.Pos()
        invariant left < counter ==> cur <= room
        decreases left
      {
        st := HeldByte(q, counter - left, counter, mem, c);
        if st != Fine { return; }
        left := left - 1;
      }
      while left > 0
        invariant Valid() && 0 <= left <= counter && (left == 0 || r.numBits == 0)
        invariant Copied(q, counter - left, mem, c) && old(r.Pos()) <= r.Pos()
        invariant left < counter ==> cur <= room
        decreases left
      {
        Shortage(q, counter - left, counter, mem, c);
        if cur >= room { return HasMoreOutput; }
        if r.cur >= |r.input| { return CannotMakeProgress; }
        var n := if room - cur <= |r.input| - r.cur then room - cur else |r.input| - r.cur;
        n := if n <= left then n else left;
        CopyIn(n, q, counter - left, mem, c);
        left := left - n;
      }
      WrittenTo(q, counter, mem, c);
      st := Fine;
    }

    lemma {:induction false} WrittenTo(q: nat, k: nat, mem: seq<byte>, c: nat)
      requires Copied(q, k, mem, c)
      ensures cur == c + k
    {
    }

    /** Where something runs out, it did not suffice. */
    lemma {:induction false} Shortage(q: nat, k: nat, n: nat, mem: seq<byte>, c: nat)
      requires Valid() && Copied(q, k, mem, c) && k < n && r.numBits == 0
      requires k > 0 ==> cur <= room
      ensures Suffices(q, n, c) ==> cur < room && r.cur < |r.input|
      ensures cur >= room ==> RoomFills(r.Stream(), q, c, room)
      ensures cur < room && r.cur >= |r.input| ==> !RoomFills(r.Stream(), q, c, room)
    {
    }

    /** memcpy from the input to the output. */
    method CopyIn(n: nat, ghost q: nat, ghost k: nat, ghost mem: seq<byte>, ghost c: nat)
      requires Valid() && Copied(q, k, mem, c) && r.numBits == 0 && n <= room - cur && n <= |r.input| - r.cur
      modifies `cur, out, r
      ensures Valid() && Copied(q, k + n, mem, c) && r.numBits == 0 && old(r.Pos()) <= r.Pos() && cur == old(cur) + n
    {
      hide ToBits, BytesToBits, BitReader.Valid, Apart, Copied;
      var i := 0;
      while i < n
        invariant 0 <= i <= n && Valid() && Copied(q, k + i, mem, c) && r.numBits == 0 && cur == old(cur) + i
          && r.cur == old(r.cur) + i
        invariant r.Pos() == old(r.Pos()) + 8 * i
      {
        InputByte(q, k + i, mem, c);
        i := i + 1;
      }
    }

    /** What a raw block's header says, at its place. */
    method StoredHeader() returns (st: Status, counter: nat)
      requires Valid()
      modifies r
      ensures Valid() && old(r.Pos()) <= r.Pos() && st in {Fine, CannotMakeProgress, Failed}
      ensures var n := Field(r.Stream(), Align(old(r.Pos())), 16);
        if st == Fine then
          && n.Got? && n.v == counter
          && counter <= 65535 && Field(r.Stream(), n.pos, 16) == Got((65535 - counter) as nat, r.Pos() as nat)
          && r.Pos() % 8 == 0
        else if n == Fail || Field(r.Stream(), n.pos, 16) == Fail then st == CannotMakeProgress
        else n.v != 65535 - Field(r.Stream(), n.pos, 16).v && st == Failed
    {
      hide ToBits, BytesToBits, BitReader.Valid, Apart, Field, Align;
      counter := 0;
      ghost var p0 := r.Pos();
      r.SkipToByte();
      AlignedAt(p0, r.Pos());
      var ok;
      ok, counter := HeaderWord();
      if !ok { return CannotMakeProgress, counter; }
      var check;
      ok, check := HeaderWord();
      if !ok { return CannotMakeProgress, counter; }
      if counter + check != 65535 { return Failed, counter; }
      st := Fine;
    }

    lemma {:induction false} NothingCopied(q: nat)
      requires cur <= out.Length && r.Pos() == q <= |r.Stream()|
      ensures Copied(q, 0, out[..], cur)
    {
    }

    /** A raw block. */
    method Stored(ghost plain: bool, ghost goal: Outcome) returns (st: Status)
      requires Valid() && goal == StoredTo(r.Stream(), r.Pos(), out[..], cur, room, plain)
      modifies `cur, out, r
      ensures Valid() && old(r.Pos()) <= r.Pos() && Ends(st, goal)
    {
      hide ToBits, BytesToBits, BitReader.Valid, Apart, Copied, Suffices, BytesAt, Field, Align;
      ghost var mem, c := out[..], cur;
      var counter;
      st, counter := StoredHeader();
      if st != Fine { return; }
      WithinStream(r);
      ghost var q := r.Pos();
      NothingCopied(q);
      st := StoredBytes(counter, q, mem, c);
      StoredEnds(st, q, counter, mem, c, plain, goal);
    }

    lemma {:induction false} StoredEnds(st: Status, q: nat, n: nat, mem: seq<byte>, c: nat, plain: bool, goal: Outcome)
      requires st in {Fine, CannotMakeProgress, HasMoreOutput} && c <= |mem|
      requires if q + 8 * n > |r.Stream()| || (n > 0 && c + n > room) then
        goal == Stopped(if RoomFills(r.Stream(), q, c, room) then NoRoom else NoInput) else
        c + n <= |mem| && goal == Reached(mem[..c] + BytesAt(r.Stream(), q, n) + mem[c + n..], c + n, q + 8 * n, plain)
      requires if st == Fine then Copied(q, n, mem, c) && (n > 0 ==> c + n <= room)
               else n > 0 && !Suffices(q, n, c) && Runs(st, q, c)
      ensures Ends(st, goal)
    {
      hide BytesToBits;
    }

    // ---- the header of a dynamic block

    /** The three counts. */
    method ReadCounts() returns (ok: bool, n: Counts)
      requires r.Valid() && r.Pos() >= 0
      modifies r
      ensures r.Valid() && old(r.Pos()) <= r.Pos()
      ensures ok <==> CountsAt(r.Stream(), old(r.Pos())).Got?
      ensures ok ==>
        CountsAt(r.Stream(), old(r.Pos())) == Got(n, r.Pos()) && 257 <= n.nl <= 288 && 1 <= n.nd <= 32
          && 4 <= n.nc <= 19
    {
      hide ToBits, BytesToBits, BitReader.Valid, Field;
      n := Counts(257, 1, 4);
      FieldBounds(r.Stream(), r.Pos());
      FieldBounds(r.Stream(), r.Pos() + 5);
      FieldBounds(r.Stream(), r.Pos() + 10);
      var v;
      ok, v := r.GetBits(5);
      if !ok { return; }
      n := n.(nl := v + 257);
      ok, v := r.GetBits(5);
      if !ok { return; }
      n := n.(nd := v + 1);
      ok, v := r.GetBits(4);
      if !ok { return; }
      n := n.(nc := v + 4);
    }

    /** The code-length lengths, in their sending order. */
    method ReadSizes(nc: nat) returns (ok: bool, cl: seq<nat>)
      requires r.Valid() && r.Pos() >= 0 && nc <= 19
      modifies r
      ensures r.Valid() && old(r.Pos()) <= r.Pos() && |cl| == 19 && forall i :: 0 <= i < 19 ==> cl[i] < 8
      ensures ok <==> SizesAt(r.Stream(), old(r.Pos()), nc).Got?
      ensures ok ==> SizesAt(r.Stream(), old(r.Pos()), nc) == Got(cl, r.Pos())
    {
      hide ToBits, BytesToBits, BitReader.Valid, Field, Swizzle;
      ghost var p := r.Pos();
      cl := seq(19, _ => 0);
      var i := 0;
      while i < nc
        invariant 0 <= i <= nc && r.Valid() && p <= r.Pos() && |cl| == 19 && forall i :: 0 <= i < 19 ==> cl[i] < 8
        invariant SizesAt(r.Stream(), p, i) == Got(cl, r.Pos())
      {
        FieldBounds(r.Stream(), r.Pos());
        var v;
        ok, v := r.GetBits(3);
        if !ok {
          if SizesAt(r.Stream(), p, nc).Got? {
            SizesNeeded(r.Stream(), p, nc, i + 1);
          }
          return;
        }
        cl := cl[Swizzle(i) := v];
        i := i + 1;
      }
      ok := true;
    }

    /** Builds a table that decodes, or refuses the lengths. */
    method BuildDecoder(t: HuffTable, lens: seq<nat>) returns (ok: bool)
      requires t.Valid() && ValidLengths(lens) && |lens| <= 288
      modifies t, t.lookUp, t.tree
      ensures ok <==> Accepts(lens)
      ensures ok ==> Decoder(t, lens)
    {
      hide Accepts, ValidLengths, Fits, GoodWords, InflateTable.Inv;
      ok := t.Build(lens);
      if ok {
        AcceptedWords(lens);
      }
    }

    /** What is still to come of the lengths makes up goal. */
    ghost predicate LengthsOnTrack(cl: seq<nat>, got: seq<nat>, total: nat, plain: bool, goal: Attempt<Lenient.Lengths>)
      reads r
    {
      r.Pos() >= 0 && LengthsTo(cl, r.Stream(), r.Pos(), got, total, plain) == goal
    }

    /** One code-length symbol and what it stands for. */
    method NextLengths(ghost cl: seq<nat>, got: seq<nat>, total: nat, ghost plain: bool,
                       ghost goal: Attempt<Lenient.Lengths>)
      returns (st: Status, more: seq<nat>, ghost still: bool)
      requires Valid() && Decoder(t2, cl) && |cl| == 19 && ValidLengths(got) && |got| < total
      requires LengthsOnTrack(cl, got, total, plain, goal)
      modifies r
      ensures Valid() && old(r.Pos()) <= r.Pos()
      ensures st in {Fine, CannotMakeProgress, Failed} && (st != Fine ==> goal == Refused(Why(st)))
      ensures st == Fine ==>
        LengthsOnTrack(cl, more, total, still, goal) && ValidLengths(more) && |got| < |more| < |got| + 139
    {
      hide Decoder, TakenAt, SymbolAt, BitReader.Valid, Apart, Field, LengthsTo;
      ghost var p := r.Pos();
      still := plain && SymbolAt(cl, r.Stream(), p).Got?;
      var ok, sym := HuffDecode(r, t2, cl);
      more := got;
      NextLength(cl, r.Stream(), p, got, total, plain);
      if !ok { return CannotMakeProgress, more, still; }
      if sym < 16 { return Fine, got + [sym], still; }
      ghost var q := r.Pos();
      LengthRepeat(cl, r.Stream(), p, got, total, plain, sym, q);
      if sym == 16 && got == [] { return Failed, more, still; }
      var extra;
      ok, extra := r.GetBits(if sym == 16 then 2 else if sym == 17 then 3 else 7);
      if !ok { return CannotMakeProgress, more, still; }
      ExtraBound(r.Stream(), q);
      var n := extra + (if sym == 18 then 11 else 3);
      more := got + Repeat(if sym == 16 then got[|got| - 1] else 0, n);
      st := Fine;
    }

    /** The lengths of both codes, one behind the other. */
    method ReadLengths(ghost cl: seq<nat>, total: nat, ghost plain: bool, ghost goal: Attempt<Lenient.Lengths>)
      returns (st: Status, lens: seq<nat>)
      requires Valid() && Decoder(t2, cl) && |cl| == 19 && LengthsOnTrack(cl, [], total, plain, goal)
      modifies r
      ensures Valid() && old(r.Pos()) <= r.Pos()
      ensures st in {Fine, CannotMakeProgress, Failed} && (st != Fine ==> goal == Refused(Why(st)))
      ensures st == Fine ==>
        |lens| == total && ValidLengths(lens) && goal.Gained? && goal.v.lens == lens && goal.pos == r.Pos()
    {
      hide Decoder, BitReader.Valid, Apart, LengthsOnTrack;
      lens := [];
      ghost var still := plain;
      while |lens| < total
        invariant Valid() && old(r.Pos()) <= r.Pos()
        invariant ValidLengths(lens) && LengthsOnTrack(cl, lens, total, still, goal)
        decreases total - |lens|
      {
        st, lens, still := NextLengths(cl, lens, total, still, goal);
        if st != Fine { return; }
      }
      LengthsEnd(cl, lens, total, still, goal);
      st := if |lens| == total then Fine else Failed;
    }

    lemma {:induction false} LengthsEnd(cl: seq<nat>, got: seq<nat>, total: nat, plain: bool,
                                        goal: Attempt<Lenient.Lengths>)
      requires LengthsOnTrack(cl, got, total, plain, goal) && |got| >= total
      ensures r.Pos() >= 0
      ensures goal == if |got| > total then Refused(Invalid) else Gained(Lenient.Lengths(got, plain), r.Pos() as nat)
    {
    }

    /** The tables of the block: distances first, then literals and lengths. */
    method BuildTables(lit: seq<nat>, dst: seq<nat>) returns (st: Status)
      requires Valid() && ValidLengths(lit) && ValidLengths(dst) && |lit| <= 288 && |dst| <= 288
      modifies t0, t0.lookUp, t0.tree, t1, t1.lookUp, t1.tree
      ensures Valid() && st == if Accepts(lit) && Accepts(dst) then Fine else Failed
      ensures st == Fine ==> Decoder(t0, lit) && Decoder(t1, dst)
    {
      hide Decoder, BitReader.Valid, Accepts, ValidLengths;
      var ok := BuildDecoder(t1, dst);
      if !ok { return Failed; }
      ok := BuildDecoder(t0, lit);
      st := if ok then Fine else Failed;
    }

    /** The counts and the table for the code lengths. */
    method ReadCodeCode(ghost p0: nat, ghost plain: bool) returns (st: Status, n: Counts, ghost cl: seq<nat>)
      requires Valid() && p0 == r.Pos()
      modifies r, t2, t2.lookUp, t2.tree
      ensures Valid() && old(r.Pos()) <= r.Pos() && st in {Fine, CannotMakeProgress, Failed}
      ensures st != Fine ==> HeaderTo(r.Stream(), p0, plain) == Refused(Why(st))
      ensures st == Fine ==> Decoder(t2, cl) && |cl| == 19 && 257 <= n.nl <= 288 && 1 <= n.nd <= 32
      ensures st == Fine ==> HeaderTo(r.Stream(), p0, plain) == TablesTo(cl, n, r.Stream(), r.Pos(), plain)
    {
      hide Decoder, BitReader.Valid, Accepts, Field, CountsAt, SizesAt, TablesTo, Apart, ToBits, BytesToBits;
      var ok;
      cl := [];
      ok, n := ReadCounts();
      if !ok { return CannotMakeProgress, n, cl; }
      var sizes;
      ok, sizes := ReadSizes(n.nc);
      if !ok { return CannotMakeProgress, n, cl; }
      cl := sizes;
      ok := BuildDecoder(t2, sizes);
      st := if ok then Fine else Failed;
    }

    /** The header of a dynamic block, and its tables. */
    method ReadTables(ghost plain: bool)
      returns (st: Status, ghost lit: seq<nat>, ghost dst: seq<nat>, ghost still: bool)
      requires Valid()
      modifies r, t0, t0.lookUp, t0.tree, t1, t1.lookUp, t1.tree, t2, t2.lookUp, t2.tree
      ensures Valid() && old(r.Pos()) <= r.Pos() && st in {Fine, CannotMakeProgress, Failed}
      ensures st != Fine ==> HeaderTo(r.Stream(), old(r.Pos()), plain) == Refused(Why(st))
      ensures st == Fine ==> Decoder(t0, lit) && Decoder(t1, dst) && |lit| <= 288 && |dst| <= 32
      ensures st == Fine ==>
        HeaderTo(r.Stream(), old(r.Pos()), plain) == Gained(Lenient.Header(lit, dst, still), r.Pos() as nat)
    {
      hide Decoder, BitReader.Valid, Accepts, HeaderTo, LengthsTo, Apart, ToBits, BytesToBits;
      var n;
      ghost var cl;
      lit, dst, still := [], [], plain;
      st, n, cl := ReadCodeCode(r.Pos(), plain);
      if st != Fine { return; }
      var total := n.nl + n.nd;
      ghost var goal := LengthsTo(cl, r.Stream(), r.Pos(), [], total, plain);
      var lens;
      st, lens := ReadLengths(cl, total, plain, goal);
      if st != Fine { return; }
      lit, dst, still := lens[..n.nl], lens[n.nl..], goal.v.plain;
      st := BuildTables(lens[..n.nl], lens[n.nl..]);
    }

    // ---- blocks

    /** A compressed block, with fixed or with dynamic codes. */
    method Compressed(kind: nat, ghost plain: bool, ghost goal: Outcome) returns (st: Status)
      requires Valid() && (kind == 1 || kind == 2)
      requires goal == ContentTo(kind, r.Stream(), r.Pos(), out[..], cur, room, plain)
      modifies `cur, out, r, t0, t0.lookUp, t0.tree, t1, t1.lookUp, t1.tree, t2, t2.lookUp, t2.tree
      ensures Valid() && old(r.Pos()) <= r.Pos() && Ends(st, goal)
    {
      hide Decoder, BitReader.Valid, Accepts, HeaderTo, BodyTo, StoredTo, Apart, ToBits, BytesToBits, FixedLit,
        FixedDist;
      ghost var lit, dst, still := FixedLit(), FixedDist(), plain;
      if kind == 1 {
        FixedLengths();
        st := BuildTables(FixedLit(), FixedDist());
      } else {
        st, lit, dst, still := ReadTables(plain);
      }
      if st != Fine { return; }
      st := Body(lit, dst, still, goal);
    }

    /** One block. */
    method OneBlock(ghost plain: bool, ghost goal: Outcome) returns (st: Status, final: bool, ghost mid: Outcome)
      requires Valid() && goal == StreamTo(r.Stream(), r.Pos(), out[..], cur, room, plain)
      modifies `cur, out, r, t0, t0.lookUp, t0.tree, t1, t1.lookUp, t1.tree, t2, t2.lookUp, t2.tree
      ensures Valid() && old(r.Pos()) <= r.Pos() && Ends(st, mid)
      ensures st == Fine ==> old(r.Pos()) < r.Pos()
      ensures st != Fine || final ==> goal == mid
      ensures st == Fine && !final ==> goal == StreamTo(r.Stream(), r.Pos(), out[..], cur, room, mid.plain)
    {
      hide BitReader.Valid, Apart, ToBits, BytesToBits, ContentTo, StoredTo, Field, StreamTo;
      FieldBounds(r.Stream(), r.Pos());
      ghost var p := r.Pos();
      BlockTo(r.Stream(), p, out[..], cur, room, plain);
      var ok, h := r.GetBits(3);
      final, mid := false, Stopped(NoInput);
      if !ok { return CannotMakeProgress, final, mid; }
      final := h % 2 == 1;
      var kind := h / 2;
      mid := ContentTo(kind, r.Stream(), r.Pos(), out[..], cur, room, plain);
      ContentKinds(kind, r.Stream(), r.Pos(), out[..], cur, room, plain);
      if kind == 0 {
        st := Stored(plain, mid);
      } else if kind == 3 {
        st := Failed;
      } else {
        st := Compressed(kind, plain, mid);
      }
    }

    /**
     tinfl_decompress, behind a zlib header if there was one: it does exactly what the lenient reader says of the
     stream, the memory and the room, and no more of the input is used up than the stream's own bytes.
     */
    method Decompress() returns (st: Status)
      requires Valid() && cur == 0
      modifies `cur, out, r, t0, t0.lookUp, t0.tree, t1, t1.lookUp, t1.tree, t2, t2.lookUp, t2.tree
      ensures Valid() && r.cur <= |r.input| && st in {Done, Failed, CannotMakeProgress, HasMoreOutput, Undefined}
      ensures var goal := Inflated(r.Stream(), old(r.Pos()), old(out[..]), room);
        && (st == Done <==> goal.Reached?) && (st == Undefined <==> goal == Left)
        && (st !in {Done, Undefined} ==> goal == Stopped(Why(st)))
        && (goal.Reached? ==> out[..] == goal.mem && cur == goal.cur && r.numBits == 0 && 8 * r.cur == Align(goal.pos))
    {
      hide BitReader.Valid, Apart, ToBits, BytesToBits, StreamTo, Align;
      ghost var goal, plain := StreamTo(r.Stream(), r.Pos(), out[..], cur, room, true), true;
      var final := false;
      ghost var mid: Outcome := Stopped(NoInput);
      while !final
        invariant Valid()
        invariant !final ==> goal == StreamTo(r.Stream(), r.Pos(), out[..], cur, room, plain)
        invariant final ==> Ends(Fine, goal)
        decreases !final, |r.Stream()| - r.Pos()
      {
        WithinStream(r);
        st, final, mid := OneBlock(plain, goal);
        if st != Fine {
          InInput(r);
          return;
        }
        plain := mid.plain;
        WithinStream(r);
      }
      ghost var p := r.Pos();
      r.SkipToByte();
      AlignedAt(p, r.Pos());
      r.PutBack();
      InInput(r);
      st := Done;
    }
  }

  lemma {:induction false} InInput(r: BitReader)
    requires r.Valid()
    ensures r.cur <= |r.input|
  {
  }

  lemma {:induction false} ContentKinds(kind: nat, bits: seq<bool>, pos: nat, mem: seq<byte>, cur: nat, room: nat,
                                        plain: bool)
    requires cur <= |mem| && room <= |mem|
    ensures kind == 0 ==>
      ContentTo(kind, bits, pos, mem, cur, room, plain) == StoredTo(bits, pos, mem, cur, room, plain)
    ensures kind >= 3 ==> ContentTo(kind, bits, pos, mem, cur, room, plain) == Stopped(Invalid)
  {
    hide StoredTo, BodyTo, HeaderTo;
  }

  /** The first block of a stream, and what follows it. */
  lemma {:induction false} BlockTo(bits: seq<bool>, pos: nat, mem: seq<byte>, cur: nat, room: nat, plain: bool)
    requires cur <= |mem| && room <= |mem|
    ensures var h := Field(bits, pos, 3);
      StreamTo(bits, pos, mem, cur, room, plain) == (
        if h == Fail then Stopped(NoInput)
        else
          var c := ContentTo(h.v / 2, bits, h.pos, mem, cur, room, plain);
          if c.Reached? && h.v % 2 == 0 then StreamTo(bits, c.pos, c.mem, c.cur, room, c.plain) else c)
  {
    hide ContentTo, Field;
  }

  // ---- steps of the lenient reader

  /** A symbol of some kind other than literal 0 uses up bits. */
  lemma {:induction false} Advanced(lens: seq<nat>, bits: seq<bool>, pos: int)
    requires pos >= 0
    ensures TakenAt(lens, bits, pos).Got? && TakenAt(lens, bits, pos).v > 0 ==> pos < TakenAt(lens, bits, pos).pos
  {
  }

  lemma {:induction false} LiteralTo(lit: seq<nat>, dst: seq<nat>, bits: seq<bool>, pos: nat, mem: seq<byte>, cur: nat,
                                     room: nat, plain: bool, sym: nat, p: nat)
    requires cur <= |mem| && room <= |mem| && TakenAt(lit, bits, pos) == Got(sym, p) && sym < 256
    ensures BodyTo(lit, dst, bits, pos, mem, cur, room, plain)
      == if cur < room then BodyTo(lit, dst, bits, p, mem[cur := sym], cur + 1, room, plain
        && SymbolAt(lit, bits, pos).Got?)
         else Stopped(NoRoom)
  {
    hide TakenAt, SymbolAt;
  }

  lemma {:induction false} LengthStep(lit: seq<nat>, dst: seq<nat>, bits: seq<bool>, pos: nat, mem: seq<byte>, cur: nat,
                                      room: nat, plain: bool, sym: nat, p: nat)
    requires cur <= |mem| && room <= |mem| && TakenAt(lit, bits, pos) == Got(sym, p) && sym > 256
    ensures var to := LengthTo(dst, bits, p, sym, mem, cur, room, plain && SymbolAt(lit, bits, pos).Got?);
      BodyTo(lit, dst, bits, pos, mem, cur, room, plain)
      == if to.Reached? then BodyTo(lit, dst, bits, to.pos, to.mem, to.cur, room, to.plain) else to
  {
    hide TakenAt, SymbolAt, LengthTo;
  }

  lemma {:induction false} MatchFails(dst: seq<nat>, bits: seq<bool>, p: nat, sym: nat, mem: seq<byte>, cur: nat,
                                      room: nat, plain: bool, why: Reason)
    requires cur <= |mem| && room <= |mem| && sym > 256
    requires var x := Field(bits, p, LengthExtra(sym - 257));
      if x == Fail || FarAt(dst, bits, x.pos) == Fail then why == NoInput
      else FarAt(dst, bits, x.pos).v > cur && why == Invalid
    ensures LengthTo(dst, bits, p, sym, mem, cur, room, plain) == Stopped(why)
  {
    hide FarAt, Field, DistanceAt, MatchTo;
  }

  lemma {:induction false} MatchGoes(dst: seq<nat>, bits: seq<bool>, p: nat, sym: nat, mem: seq<byte>, cur: nat,
                                     room: nat,
                                     plain: bool, len: nat, q: nat, dist: nat, end: nat)
    requires cur <= |mem| && room <= |mem| && sym > 256 && len >= LengthBase(sym - 257) && dist <= cur
    requires Field(bits, p, LengthExtra(sym - 257)) == Got(len - LengthBase(sym - 257), q)
    requires FarAt(dst, bits, q) == Got(dist, end)
    ensures LengthTo(dst, bits, p, sym, mem, cur, room, plain)
      == MatchTo(mem, cur, room, len, dist, end, plain && sym <= 285 && DistanceAt(dst, bits, q).Got?)
  {
    hide FarAt, Field, DistanceAt, MatchTo;
  }

  /** One byte more behind those that are there. */
  lemma {:induction false} OneInto(mem: seq<byte>, c: nat, bytes: seq<byte>, v: byte)
    requires c + |bytes| < |mem|
    ensures (mem[..c] + bytes + mem[c + |bytes|..])[c + |bytes| := v]
      == mem[..c] + (bytes + [v]) + mem[c + |bytes| + 1..]
  {
  }

  lemma {:induction false} FixedLengths()
    ensures ValidLengths(FixedLit()) && ValidLengths(FixedDist()) && Accepts(FixedLit()) && Accepts(FixedDist())
  {
    hide FixedLit, FixedDist, Used;
    BlockForms.FixedComplete();
  }

  lemma {:induction false} NextLength(cl: seq<nat>, bits: seq<bool>, pos: nat, got: seq<nat>, total: nat, plain: bool)
    requires |got| < total
    ensures TakenAt(cl, bits, pos) == Fail ==> LengthsTo(cl, bits, pos, got, total, plain) == Refused(NoInput)
    ensures var s := TakenAt(cl, bits, pos);
      s.Got? && s.v < 16 ==>
        LengthsTo(cl, bits, pos, got, total, plain)
          == LengthsTo(cl, bits, s.pos, got + [s.v], total, plain && SymbolAt(cl, bits, pos).Got?)
  {
    hide TakenAt, SymbolAt;
  }

  lemma {:induction false} LengthRepeat(cl: seq<nat>, bits: seq<bool>, pos: nat, got: seq<nat>, total: nat, plain: bool,
                                        sym: nat, p: nat)
    requires TakenAt(cl, bits, pos) == Got(sym, p) && |got| < total && 16 <= sym <= 18
    ensures var x := Field(bits, p, if sym == 16 then 2 else if sym == 17 then 3 else 7);
      LengthsTo(cl, bits, pos, got, total, plain) == (
        if sym == 16 && got == [] then Refused(Invalid)
        else if x == Fail then Refused(NoInput)
        else LengthsTo(cl, bits, x.pos,
          got + Repeat(if sym == 16 then got[|got| - 1] else 0, x.v + (if sym == 18 then 11 else 3)), total,
          plain && SymbolAt(cl, bits, pos).Got?))
  {
    hide TakenAt, SymbolAt, Repeat, Field;
  }

  lemma {:induction false} ExtraBound(bits: seq<bool>, p: nat)
    ensures Field(bits, p, 2).Got? ==> Field(bits, p, 2).v < 4
    ensures Field(bits, p, 3).Got? ==> Field(bits, p, 3).v < 8
    ensures Field(bits, p, 7).Got? ==> Field(bits, p, 7).v < 128
  {
    hide FromBits;
    assert Pow2(2) == 4 && Pow2(3) == 8 && Pow2(7) == 128;
  }

  lemma {:induction false} FieldBounds(bits: seq<bool>, p: nat)
    ensures Field(bits, p, 3).Got? ==> Field(bits, p, 3).v < 8
    ensures Field(bits, p, 4).Got? ==> Field(bits, p, 4).v < 16
    ensures Field(bits, p, 5).Got? ==> Field(bits, p, 5).v < 32
  {
    hide FromBits;
    assert Pow2(3) == 8 && Pow2(4) == 16 && Pow2(5) == 32;
  }

  lemma {:induction false} SizesNeeded(bits: seq<bool>, p: nat, n: nat, k: nat)
    requires k <= n <= 19 && SizesAt(bits, p, n).Got?
    ensures SizesAt(bits, p, k).Got?
    decreases n
  {
    hide Field, Swizzle;
    if k < n {
      SizesNeeded(bits, p, n - 1, k);
    }
  }

  lemma {:induction false} WithinStream(r: BitReader)
    requires r.Valid()
    ensures r.Pos() <= |r.Stream()|
  {
  }

  /** The entries of s_length_base and s_length_extra. */
  lemma {:induction false} LengthTable(s: nat)
    ensures LengthExtra(s) <= 5
    ensures s <= 28 ==> LengthBase(s) >= 3
    ensures s > 28 ==> LengthBase(s) == LengthExtra(s) == 0
  {
  }

  lemma {:induction false} NoExtra(bits: seq<bool>, p: nat)
    requires p <= |bits|
    ensures Field(bits, p, 0) == Got(0, p)
  {
    assert bits[p..p] == [];
  }

  lemma {:induction false} ExtraSmall(t: nat)
    requires t < 32
    ensures DistanceExtra(t) <= 13
  {
  }

  lemma {:induction false} AlignedAt(p: nat, q: nat)
    requires q % 8 == 0 && p <= q < p + 8
    ensures q == Align(p)
  {
  }

  /** Sixteen bits are a low and a high byte. */
  lemma {:induction false} FieldHalves(bits: seq<bool>, p: nat)
    ensures Field(bits, p, 16).Got? ==> Field(bits, p, 8).Got? && Field(bits, p + 8, 8).Got?
    ensures Field(bits, p, 8).Got? && Field(bits, p + 8, 8).Got? ==>
              Field(bits, p, 16) == Got(Field(bits, p, 8).v + 256 * Field(bits, p + 8, 8).v, p + 16)
  {
    hide FromBits, Pow2;
    if p + 16 <= |bits| {
      Pow2Of8();
      FromBitsConcat(bits[p..p + 8], bits[p + 8..p + 16]);
      assert bits[p..p + 16] == bits[p..p + 8] + bits[p + 8..p + 16];
    }
  }

  lemma {:induction false} NextByte(bits: seq<bool>, q: nat, k: nat, v: nat)
    requires Field(bits, q + 8 * k, 8).Got? && Field(bits, q + 8 * k, 8).v == v
    ensures v < 256 && q + 8 * (k + 1) <= |bits|
    ensures BytesAt(bits, q, k + 1) == BytesAt(bits, q, k) + [v]
  {
    hide Pow2;
    Pow2Of8();
  }
}
