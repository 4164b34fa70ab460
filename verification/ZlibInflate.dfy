/** tinfl_decompress on a zlib stream (TINFL_FLAG_PARSE_ZLIB_HEADER): the header before, the checksum after. */
module ZlibInflate {
  import opened Bits
  import opened DeflateSpec
  import opened DeflateBlocks
  import opened ZlibSpec
  import opened BitReading
  import opened Lenient
  import opened LenientAgrees
  import opened Inflating
  import Adlers

  lemma {:induction false} FieldIsByte(bits: seq<bool>, pos: nat)
    requires Field(bits, pos, 8).Got?
    ensures Field(bits, pos, 8).v < 256 && Field(bits, pos, 8).pos == pos + 8 <= |bits|
  {
    Pow2Of8();
  }

  /** The two bytes in front. */
  method ReadHeader(r: BitReader) returns (st: Status)
    requires r.Valid() && r.Pos() == 0
    modifies r
    ensures r.Valid() && r.Pos() >= 0 && st in {Fine, CannotMakeProgress, Failed}
    ensures var cmf, flg := Field(r.Stream(), 0, 8), Field(r.Stream(), 8, 8);
      st == Fine <==> cmf.Got? && flg.Got? && GoodHeader(cmf.v, flg.v)
    ensures st == Failed <==> Field(r.Stream(), 0, 8).Got? && Field(r.Stream(), 8, 8).Got? && st != Fine
    ensures st == Fine ==> r.Pos() == 16
  {
    hide BitReader.Valid, Field, GoodHeader;
    var ok, zhdr0 := r.GetByte();
    if !ok { return CannotMakeProgress; }
    FieldIsByte(r.Stream(), 0);
    var zhdr1;
    ok, zhdr1 := r.GetByte();
    if !ok { return CannotMakeProgress; }
    FieldIsByte(r.Stream(), 8);
    HeaderTest(zhdr0, zhdr1);
    st := if (zhdr0 * 256 + zhdr1) % 31 != 0 || zhdr1 / 32 % 2 == 1 || zhdr0 % 16 != 8 then Failed else Fine;
  }

  lemma {:induction false} HeaderTest(cmf: nat, flg: nat)
    ensures GoodHeader(cmf, flg) <==> !((cmf * 256 + flg) % 31 != 0 || flg / 32 % 2 == 1 || cmf % 16 != 8)
  {
  }

  const WORD := 0x1_0000_0000

  /** 256 to the power of n. */
  function Bytes(n: nat): nat
    requires n <= 4
  {
    if n == 0 then 1 else if n == 1 then 0x100 else if n == 2 then 0x1_0000 else if n == 3 then 0x100_0000 else WORD
  }

  /** Shifting a byte into a word that started as 1. */
  lemma {:induction false} ShiftByte(z: nat, x: nat, s: nat, n: nat)
    requires n < 4 && x < Bytes(n) && s < 256 && z == (Bytes(n) + x) % WORD
    ensures 256 * x + s < Bytes(n + 1) && (256 * z + s) % WORD == (Bytes(n + 1) + (256 * x + s)) % WORD
  {
    assert z == Bytes(n) + x;
  }

  lemma {:induction false} BigStep(bits: seq<bool>, pos: nat, n: nat, x: nat, p: nat)
    requires BigField(bits, pos, n) == Got(x, p)
    ensures BigField(bits, pos, n + 1)
      == var s := Field(bits, p, 8); if s == Fail then Fail else Got(256 * x + s.v, s.pos)
  {
  }

  lemma {:induction false} NoBigField(bits: seq<bool>, pos: nat, n: nat, m: nat)
    requires n <= m && BigField(bits, pos, n) == Fail
    ensures BigField(bits, pos, m) == Fail
  {
    if n < m {
      NoBigField(bits, pos, n, m - 1);
    }
  }

  /** The four bytes behind, shifted into a 32-bit word that starts as 1. */
  method ReadSum(r: BitReader) returns (ok: bool, sum: nat)
    requires r.Valid() && r.Pos() >= 0 && r.Pos() <= |r.Stream()|
    modifies r
    ensures r.Valid() && r.Pos() >= 0 && (old(r.numBits) == 0 ==> r.numBits == 0)
    ensures ok <==> BigField(r.Stream(), old(r.Pos()), 4).Got?
    ensures ok ==> BigField(r.Stream(), old(r.Pos()), 4) == Got(sum, r.Pos() as nat)
  {
    hide BitReader.Valid, Field, BigField;
    ghost var p: nat, x: nat := r.Pos(), 0;
    NoBytes(r.Stream(), p);
    sum := 1;
    var counter := 0;
    while counter < 4
      invariant 0 <= counter <= 4 && r.Valid() && r.Pos() >= 0 && x < Bytes(counter)
      invariant old(r.numBits) == 0 ==> r.numBits == 0
      invariant BigField(r.Stream(), p, counter) == Got(x, r.Pos() as nat) && sum == (Bytes(counter) + x) % WORD
    {
      BigStep(r.Stream(), p, counter, x, r.Pos());
      ghost var q: nat := r.Pos();
      var s;
      ok, s := r.GetByte();
      if !ok {
        NoBigField(r.Stream(), p, counter + 1, 4);
        return;
      }
      FieldIsByte(r.Stream(), q);
      ShiftByte(sum, x, s, counter);
      sum := (256 * sum + s) % WORD;
      x := 256 * x + s;
      counter := counter + 1;
    }
    ok := true;
  }

  lemma {:induction false} NoBytes(bits: seq<bool>, pos: nat)
    requires pos <= |bits|
    ensures BigField(bits, pos, 0) == Got(0, pos)
  {
  }

  /** What tinfl makes of a zlib stream. */
  ghost function ZlibInflated(bits: seq<bool>, mem: seq<byte>, room: nat): (r: Outcome)
    requires room <= |mem|
    ensures r.Reached? ==> |r.mem| == |mem| && r.cur <= |mem|
  {
    var cmf, flg := Field(bits, 0, 8), Field(bits, 8, 8);
    if cmf == Fail || flg == Fail then Stopped(NoInput)
    else if !GoodHeader(cmf.v, flg.v) then Stopped(Invalid)
    else
      match Inflated(bits, 16, mem, room)
      case Left => Left
      case Stopped(why) => Stopped(why)
      case Reached(m, c, p, plain) =>
        var sum := BigField(bits, Align(p), 4);
        if sum == Fail then Stopped(NoInput)
        else if sum.v != Adlers.Adler(Adlers.INIT, m[..c]) then Stopped(BadSum)
        else Reached(m, c, sum.pos, plain)
  }

  /** Where nothing beyond the standard is taken, the standard's reader agrees. */
  lemma {:induction false} ZlibAgrees(bits: seq<bool>, mem: seq<byte>, room: nat)
    requires room <= |mem|
    ensures Agree(ZlibAt(bits), ZlibInflated(bits, mem, room), room)
  {
    hide Field, GoodHeader, StreamAt, Inflated, BigField, Align, Adlers.Adler;
    InflatedAgrees(bits, 16, mem, room);
  }

  /** The whole call does exactly what the lenient reader says of the stream, the memory and the room. */
  method DecompressZlib(d: Inflater) returns (st: Status)
    requires d.Valid() && d.r.Pos() == 0 && d.cur == 0
    modifies d`cur, d.out, d.r
    modifies d.t0, d.t0.lookUp, d.t0.tree, d.t1, d.t1.lookUp, d.t1.tree, d.t2, d.t2.lookUp, d.t2.tree
    ensures d.Valid() && st != Fine
    ensures var goal := ZlibInflated(d.r.Stream(), old(d.out[..]), d.room);
      && (st == Done <==> goal.Reached?) && (st == Undefined <==> goal == Left)
      && (st !in {Done, Undefined} ==> goal == Stopped(Why(st)))
      && (goal.Reached? ==> d.out[..] == goal.mem && d.cur == goal.cur && 8 * d.r.cur == goal.pos)
  {
    hide BitReader.Valid, Field, GoodHeader, Inflated, BigField, Align, Adlers.Adler, BytesToBits;
    ghost var mem := d.out[..];
    st := ReadHeader(d.r);
    if st != Fine { return; }
    st := d.Decompress();
    if st != Done { return; }
    WithinStream(d.r);
    var ok, zAdler := ReadSum(d.r);
    if !ok { return CannotMakeProgress; }
    assert d.out[..][..d.cur] == d.out[..d.cur];
    var check := Adlers.MzAdler32(Adlers.INIT, d.out, d.cur);
    st := if check != zAdler then AdlerMismatch else Done;
  }
}
