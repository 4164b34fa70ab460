/**
 Three spare bytes behind the room are what tinfl needs to stay in its memory: with fewer there is input on
 which it writes behind it, with three there is none.
 */
module InflateLimits {
  import opened Bits
  import opened Canonical
  import opened DeflateSpec
  import opened DeflateBlocks
  import opened BlockForms
  import opened ZlibSpec
  import opened Lenient
  import opened Inflating
  import opened ZlibInflate
  import LzCodes

  // ---- input that fills the room and then copies three bytes

  /** n times literal 0, and then length symbol 286 with distance symbol 30. */
  function OverrunBody(n: nat): (r: seq<bool>)
  {
    if n == 0 then Codeword(FixedLit(), 286) + Codeword(FixedDist(), 30)
    else Codeword(FixedLit(), 0) + OverrunBody(n - 1)
  }

  /** In a last block with fixed codes. */
  function Overrun(n: nat): seq<bool>
  {
    TypeBits(true, 1) + OverrunBody(n)
  }

  lemma {:induction false} FixedSizes()
    ensures HasCode(FixedLit(), 0) && FixedLit()[0] == 8 && HasCode(FixedLit(), 286) && FixedLit()[286] == 8
    ensures HasCode(FixedDist(), 30) && FixedDist()[30] == 5
  {
  }

  /** A symbol of a fixed code. */
  lemma {:induction false} FixedTaken(lens: seq<nat>, s: nat, bits: seq<bool>, pos: nat)
    requires lens == FixedLit() || lens == FixedDist()
    requires HasCode(lens, s) && Stands(Codeword(lens, s), bits, pos)
    ensures TakenAt(lens, bits, pos) == SymbolAt(lens, bits, pos) == Got(s, pos + lens[s])
  {
    hide SymbolAt, Codeword, FixedLit, FixedDist, Used, OneCode;
    FixedComplete();
    ReadSymbol(lens, s, bits, pos);
  }

  lemma {:induction false} NoBits(bits: seq<bool>, pos: nat)
    requires pos <= |bits|
    ensures Field(bits, pos, 0) == Got(0, pos)
  {
    assert bits[pos..pos] == [];
  }

  lemma {:induction false} LastTables()
    ensures LzCodes.LengthBase(29) == LzCodes.LengthExtra(29) == LzCodes.DistBase(30) == LzCodes.DistanceExtra(30) == 0
  {
  }

  /** The copy at the end of the room. */
  lemma {:induction false} LastCopy(bits: seq<bool>, pos: nat, mem: seq<byte>, room: nat, plain: bool)
    requires room <= |mem| < room + 3 && Stands(OverrunBody(0), bits, pos)
    ensures BodyTo(FixedLit(), FixedDist(), bits, pos, mem, room, room, plain) == Left
  {
    hide TakenAt, SymbolAt, Codeword, FixedLit, FixedDist, Field, DistanceAt, Copy, LzCodes.LengthBase,
      LzCodes.LengthExtra, LzCodes.DistBase, LzCodes.DistanceExtra;
    FixedSizes();
    LastTables();
    StandsSplit(Codeword(FixedLit(), 286), Codeword(FixedDist(), 30), bits, pos);
    FixedTaken(FixedLit(), 286, bits, pos);
    FixedTaken(FixedDist(), 30, bits, pos + 8);
    NoBits(bits, pos + 8);
    NoBits(bits, pos + 13);
    LengthStep(FixedLit(), FixedDist(), bits, pos, mem, room, room, plain, 286, pos + 8);
    var ok := plain && SymbolAt(FixedLit(), bits, pos).Got?;
    MatchGoes(FixedDist(), bits, pos + 8, 286, mem, room, room, ok, 0, pos + 8, 0, pos + 13);
  }

  lemma {:induction false} BodyLeaves(bits: seq<bool>, pos: nat, mem: seq<byte>, cur: nat, room: nat, plain: bool)
    requires cur <= room <= |mem| < room + 3 && Stands(OverrunBody(room - cur), bits, pos)
    ensures BodyTo(FixedLit(), FixedDist(), bits, pos, mem, cur, room, plain) == Left
    decreases room - cur
  {
    hide BodyTo, TakenAt, SymbolAt, Codeword, FixedLit, FixedDist;
    if cur == room {
      LastCopy(bits, pos, mem, room, plain);
    } else {
      FixedSizes();
      StandsSplit(Codeword(FixedLit(), 0), OverrunBody(room - cur - 1), bits, pos);
      FixedTaken(FixedLit(), 0, bits, pos);
      LiteralTo(FixedLit(), FixedDist(), bits, pos, mem, cur, room, plain, 0, pos + 8);
      BodyLeaves(bits, pos + 8, mem[cur := 0], cur + 1, room, plain && SymbolAt(FixedLit(), bits, pos).Got?);
    }
  }

  /** Wherever such a block stands, it leaves the memory. */
  lemma {:induction false} StreamLeaves(bits: seq<bool>, pos: nat, mem: seq<byte>, room: nat)
    requires room <= |mem| < room + 3 && Stands(Overrun(room), bits, pos)
    ensures Inflated(bits, pos, mem, room) == Left
  {
    hide BodyTo, TypeBits, Field, FixedLit, FixedDist, OverrunBody, StoredTo, HeaderTo;
    StandsSplit(TypeBits(true, 1), OverrunBody(room), bits, pos);
    ReadType(true, 1, bits, pos);
    BodyLeaves(bits, pos + 3, mem, 0, room, true);
  }

  // ---- as bytes

  /** The bits in bytes, with zeros at the end. */
  function Packed(b: seq<bool>): (r: seq<byte>)
  {
    Pow2Of8();
    if b == [] then []
    else if |b| <= 8 then (Pow2Mono(|b|, 8); [FromBits(b)])
    else [FromBits(b[..8])] + Packed(b[8..])
  }

  lemma {:induction false} PackedBits(b: seq<bool>)
    ensures b <= BytesToBits(Packed(b))
  {
    hide ToBits, FromBits, Pow2;
    if 0 < |b| <= 8 {
      LastPacked(b);
    } else if |b| > 8 {
      PackedBits(b[8..]);
      ToFrom(b[..8]);
      var r := Packed(b);
      assert r[0] == FromBits(b[..8]) && r[1..] == Packed(b[8..]);
      assert b == b[..8] + b[8..];
    }
  }

  lemma {:induction false} LastPacked(b: seq<bool>)
    requires 0 < |b| <= 8
    ensures Packed(b) == [FromBits(b)] && b <= BytesToBits(Packed(b))
  {
    hide ToBits, FromBits, Pow2;
    OneByte(Packed(b)[0]);
    ToFrom(b);
    ToBitsTake(FromBits(b), 8, |b|);
  }

  lemma {:induction false} PackedStands(b: seq<bool>)
    ensures Stands(b, BytesToBits(Packed(b)), 0)
  {
    PackedBits(b);
    var bits := BytesToBits(Packed(b));
    assert bits[0..] == bits;
  }

  /** Behind a zlib header. */
  lemma {:induction false} PackedBehind(b: seq<bool>)
    ensures var bits := BytesToBits([0x78, 0x01] + Packed(b)); HeadBits(true) <= bits && Stands(b, bits, 16)
  {
    hide ToBits, BytesToBits;
    PackedBits(b);
    BytesToBitsConcat([0x78], [0x01]);
    BytesToBitsConcat([0x78, 0x01], Packed(b));
    OneByte(0x78);
    OneByte(0x01);
    assert [0x78] + [0x01] == [0x78, 0x01];
    var h, bits := HeadBits(true), BytesToBits([0x78, 0x01] + Packed(b));
    assert bits == h + BytesToBits(Packed(b)) && bits[16..] == BytesToBits(Packed(b));
  }

  // ---- the condition

  /** No input makes tinfl write behind memory of this size, of which it may fill room. */
  ghost predicate NeverLeaves(size: nat, room: nat)
    requires room <= size
  {
    forall data: seq<byte>, mem: seq<byte> :: |mem| == size ==> Inflated(BytesToBits(data), 0, mem, room) != Left
  }

  ghost predicate ZlibNeverLeaves(size: nat, room: nat)
    requires room <= size
  {
    forall data: seq<byte>, mem: seq<byte> :: |mem| == size ==> ZlibInflated(BytesToBits(data), mem, room) != Left
  }

  /** A caller is safe from every input exactly if three bytes are kept behind the room. */
  lemma {:induction false} ThreeSpareBytes(size: nat, room: nat)
    requires room <= size
    ensures NeverLeaves(size, room) <==> size >= room + 3
  {
    hide BytesToBits, StreamTo, Overrun, Packed;
    if size >= room + 3 {
      forall data: seq<byte>, mem: seq<byte> | |mem| == size
        ensures Inflated(BytesToBits(data), 0, mem, room) != Left
      {
        StreamStays(BytesToBits(data), 0, mem, 0, room, true);
      }
    } else {
      var mem: seq<byte> := seq(size, _ => 0);
      PackedStands(Overrun(room));
      StreamLeaves(BytesToBits(Packed(Overrun(room))), 0, mem, room);
    }
  }

  /** The same for zlib streams. */
  lemma {:induction false} ZlibThreeSpareBytes(size: nat, room: nat)
    requires room <= size
    ensures ZlibNeverLeaves(size, room) <==> size >= room + 3
  {
    hide BytesToBits, StreamTo, Overrun, Packed, Field, GoodHeader, BigField, HeadBits;
    if size >= room + 3 {
      forall data: seq<byte>, mem: seq<byte> | |mem| == size
        ensures ZlibInflated(BytesToBits(data), mem, room) != Left
      {
        StreamStays(BytesToBits(data), 16, mem, 0, room, true);
      }
    } else {
      var mem: seq<byte> := seq(size, _ => 0);
      var bits := BytesToBits([0x78, 0x01] + Packed(Overrun(room)));
      PackedBehind(Overrun(room));
      HeadThere(bits);
      StreamLeaves(bits, 16, mem, room);
    }
  }

  // ---- runs

  /** For every room with less than three spare bytes, a run that leaves the memory. */
  method LeaveMemory(room: nat, buffer: array<byte>) returns (data: seq<byte>, st: Status)
    requires room <= buffer.Length < room + 3
    modifies buffer
    ensures st == Undefined
  {
    hide BytesToBits, Inflated, Overrun, Packed;
    data := Packed(Overrun(room));
    PackedStands(Overrun(room));
    StreamLeaves(BytesToBits(data), 0, buffer[..], room);
    var d := new Inflater(data, buffer, room);
    st := d.Decompress();
  }

  lemma {:induction false} WordIs(lens: seq<nat>, s: nat, first: nat, before: nat, l: nat)
    requires s < |lens| && lens[s] == l && NextCode(lens, l) == first && CountUpTo(lens, l, s) == before
    ensures Codeword(lens, s) == MsbBits(first + before, l)
  {
  }

  lemma {:induction false} ExampleWords()
    ensures Codeword(FixedLit(), 0) == [false, false, true, true, false, false, false, false]
    ensures Codeword(FixedLit(), 286) == [true, true, false, false, false, true, true, false]
    ensures Codeword(FixedDist(), 30) == [true, true, true, true, false]
  {
    FixedSizes();
    FirstCodes();
    EightBits();
    hide FixedLit, FixedDist, MsbBits, NextCode, CountUpTo, Codeword;
    FixedCount(8, 0);
    FixedCount(8, 286);
    FixedDistCount(5, 30);
    WordIs(FixedLit(), 0, 48, 0, 8);
    WordIs(FixedLit(), 286, 48, 150, 8);
    WordIs(FixedDist(), 30, 0, 30, 5);
  }

  lemma {:induction false} FirstCodes()
    ensures NextCode(FixedLit(), 8) == 48 && NextCode(FixedDist(), 5) == 0
  {
    hide CountUpTo, FixedLit, FixedDist;
    FixedFirst(7);
    FixedCount(7, 288);
    FixedDistFirst(4);
    FixedDistCount(4, 32);
  }

  lemma {:induction false} MsbNext(v: nat, n: nat, b: bool)
    ensures MsbBits(2 * v + Bit(b), n + 1) == MsbBits(v, n) + [b]
  {
  }

  lemma {:induction false} EightBits()
    ensures MsbBits(48, 8) == [false, false, true, true, false, false, false, false]
    ensures MsbBits(198, 8) == [true, true, false, false, false, true, true, false]
    ensures MsbBits(30, 5) == [true, true, true, true, false]
  {
    hide MsbBits;
    MsbNone();
    MsbNext(3, 2, true);
    MsbNext(7, 3, true);
    MsbNext(15, 4, false);
    MsbNext(0, 0, false);
    MsbNext(0, 1, false);
    MsbNext(0, 2, true);
    MsbNext(1, 3, true);
    MsbNext(3, 4, false);
    MsbNext(6, 5, false);
    MsbNext(12, 6, false);
    MsbNext(24, 7, false);
    MsbNext(0, 0, true);
    MsbNext(1, 1, true);
    MsbNext(3, 2, false);
    MsbNext(6, 3, false);
    MsbNext(12, 4, false);
    MsbNext(24, 5, true);
    MsbNext(49, 6, true);
    MsbNext(99, 7, false);
  }

  lemma {:induction false} MsbNone()
    ensures MsbBits(0, 0) == []
  {
  }

  lemma {:induction false} ExampleBits()
    ensures BytesToBits([0x63, 0x18, 0x7B]) == Overrun(1)
  {
    ExampleWords();
    hide Codeword, FixedLit, FixedDist, MsbBits;
    ThreeBytes();
    TypeOfExample();
    hide TypeBits, BytesToBits;
    var a, b, c := Codeword(FixedLit(), 0), Codeword(FixedLit(), 286), Codeword(FixedDist(), 30);
    assert OverrunBody(0) == b + c && OverrunBody(1) == a + (b + c);
  }

  lemma {:induction false} TypeOfExample()
    ensures TypeBits(true, 1) == [true, true, false]
  {
    assert Pow2(1) == 2 && Pow2(2) == 4;
    assert ToBits(1, 1) == [true] + ToBits(0, 0) && ToBits(1, 2) == [true] + ToBits(0, 1);
    assert ToBits(0, 1) == [false] + ToBits(0, 0);
  }

  lemma {:induction false} ThreeBytes()
    ensures BytesToBits([0x63, 0x18, 0x7B])
      == [true, true, false, false, false, true, true, false, false, false, false, true, true, false, false, false,
          true, true, false, true, true, true, true, false]
  {
    hide ToBits, BytesToBits;
    var x, y, z: seq<byte> := [0x63], [0x18], [0x7B];
    assert [0x63, 0x18, 0x7B] == x + (y + z);
    BytesToBitsConcat(x, y + z);
    BytesToBitsConcat(y, z);
    OneByte(0x63);
    OneByte(0x18);
    OneByte(0x7B);
    FirstByte();
    SecondByte();
    ThirdByte();
  }

  lemma {:induction false} LowBit(v: nat, n: nat, rest: seq<bool>)
    requires ToBits(v / 2, n) == rest
    ensures ToBits(v, n + 1) == [v % 2 == 1] + rest
  {
  }

  lemma {:induction false} FirstByte()
    ensures ToBits(0x63, 8) == [true, true, false, false, false, true, true, false]
  {
    assert ToBits(0, 0) == [];
    hide ToBits;
    LowBit(0, 0, []);
    LowBit(1, 1, [false]);
    LowBit(3, 2, [true, false]);
    LowBit(6, 3, [true, true, false]);
    LowBit(12, 4, [false, true, true, false]);
    LowBit(24, 5, [false, false, true, true, false]);
    LowBit(49, 6, [false, false, false, true, true, false]);
    LowBit(99, 7, [true, false, false, false, true, true, false]);
  }

  lemma {:induction false} SecondByte()
    ensures ToBits(0x18, 8) == [false, false, false, true, true, false, false, false]
  {
    assert ToBits(0, 0) == [];
    hide ToBits;
    LowBit(0, 0, []);
    LowBit(0, 1, [false]);
    LowBit(0, 2, [false, false]);
    LowBit(1, 3, [false, false, false]);
    LowBit(3, 4, [true, false, false, false]);
    LowBit(6, 5, [true, true, false, false, false]);
    LowBit(12, 6, [false, true, true, false, false, false]);
    LowBit(24, 7, [false, false, true, true, false, false, false]);
  }

  lemma {:induction false} ThirdByte()
    ensures ToBits(0x7B, 8) == [true, true, false, true, true, true, true, false]
  {
    assert ToBits(0, 0) == [];
    hide ToBits;
    LowBit(0, 0, []);
    LowBit(1, 1, [false]);
    LowBit(3, 2, [true, false]);
    LowBit(7, 3, [true, true, false]);
    LowBit(15, 4, [true, true, true, false]);
    LowBit(30, 5, [true, true, true, true, false]);
    LowBit(61, 6, [false, true, true, true, true, false]);
    LowBit(123, 7, [true, false, true, true, true, true, false]);
  }

  /** Three bytes of input, one byte of memory. */
  method ExampleLeaves() returns (st: Status)
    ensures st == Undefined
  {
    hide BytesToBits, Inflated, Overrun;
    ExampleBits();
    var buffer := new byte[1];
    var d := new Inflater([0x63, 0x18, 0x7B], buffer, 1);
    assert Overrun(1)[0..] == Overrun(1);
    StreamLeaves(Overrun(1), 0, buffer[..], 1);
    st := d.Decompress();
  }
}
