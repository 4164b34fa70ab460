/**
 What tinfl makes of a stream, as a function of the bits and of the memory it is given: the standard's reader,
 and what tinfl takes beyond the standard. That is bits which are no code word of a table with at most one,
 the length symbols 286 and 287, and the distance symbols 30 and 31.
 */
module Lenient {
  import opened Bits
  import opened Canonical
  import opened LzCodes
  import opened RunPacking
  import opened DeflateSpec
  import opened DeflateBlocks

  // ---- symbols

  /** An incomplete code that tinfl takes: at most one symbol has a code word. */
  ghost predicate OneCode(lens: seq<nat>)
  {
    UsedSymbols(lens, MAX_LEN) <= 1
  }

  function Longest(lens: seq<nat>): (l: nat)
    ensures forall s :: 0 <= s < |lens| ==> lens[s] <= l
    ensures l > 0 ==> exists s :: 0 <= s < |lens| && lens[s] == l
  {
    if lens == [] then 0
    else
      var n := |lens| - 1;
      var l := Longest(lens[..n]);
      if lens[n] > l then lens[n] else (assert l > 0 ==> l in lens[..n]; l)
  }

  /** How many zeros come next. */
  function Zeros(bits: seq<bool>, pos: nat): (z: nat)
    ensures pos <= |bits| ==> pos + z <= |bits|
    ensures forall i :: pos <= i < pos + z && i < |bits| ==> !bits[i]
    ensures pos + z < |bits| ==> bits[pos + z]
    decreases |bits| - pos
  {
    if pos < |bits| && !bits[pos] then 1 + Zeros(bits, pos + 1) else 0
  }

  /**
   Bits that are no code word become symbol 0. If the only code word, all zeros, is longer than the ten bits of
   the look-up table and ten zeros are there, its tree is left at the first one; otherwise no bit is used up, but
   fifteen must be there.
   */
  function StrayAt(lens: seq<nat>, bits: seq<bool>, pos: nat): (r: Read<nat>)
    ensures r.Got? ==> r.v == 0 && pos <= r.pos <= |bits|
  {
    var z := Zeros(bits, pos);
    if Longest(lens) > 10 && z >= 10 then (if pos + z < |bits| then Got(0, pos + z + 1) else Fail)
    else if pos + 15 <= |bits| then Got(0, pos)
    else Fail
  }

  /** The symbol that tinfl takes. */
  ghost function TakenAt(lens: seq<nat>, bits: seq<bool>, pos: nat): (r: Read<nat>)
    ensures r.Got? ==> pos <= r.pos <= |bits|
    ensures r.Got? && r.v > 0 ==> pos < r.pos
  {
    var s := SymbolAt(lens, bits, pos);
    if s.Got? || !OneCode(lens) then s else StrayAt(lens, bits, pos)
  }

  /** The distance that tinfl takes; symbols 30 and 31 stand for distance 0. */
  ghost function FarAt(dst: seq<nat>, bits: seq<bool>, pos: nat): (r: Read<nat>)
    ensures r.Got? ==> pos <= r.pos <= |bits|
  {
    match TakenAt(dst, bits, pos)
    case Fail => Fail
    case Got(t, p) => ValueFrom(DistBase(t), Field(bits, p, DistanceExtra(t)))
  }

  // ---- compressed blocks

  /**
   Reached: so much of the memory is filled, and pos is next; plain tells that nothing beyond the standard has been
   taken. Left: something is written behind the memory.
   */
  datatype Outcome = Reached(mem: seq<byte>, cur: nat, pos: nat, plain: bool) | Left | Stopped(why: Reason)

  /** Why nothing more is done: the input or the room comes to an end, or the stream or its checksum is not right. */
  datatype Reason = NoInput | NoRoom | Invalid | BadSum

  /** Copying within the memory, byte by byte; distance 0 leaves what is there. */
  function Copy(mem: seq<byte>, cur: nat, n: nat, dist: nat): (r: seq<byte>)
    requires dist <= cur && cur + n <= |mem|
    ensures |r| == |mem|
    decreases n
  {
    if n == 0 then mem else Copy(mem[cur := mem[cur - dist]], cur + 1, n - 1, dist)
  }

  /**
   The copy of a match. A length of 0, which symbols 286 and 287 have, always fits, and three bytes are copied
   without asking; behind the room nothing is.
   */
  function MatchTo(mem: seq<byte>, cur: nat, room: nat, len: nat, dist: nat, pos: nat, plain: bool): (r: Outcome)
    requires dist <= cur <= |mem| && room <= |mem|
    ensures r.Reached? ==> |r.mem| == |mem| && cur <= r.cur <= |mem| && r.pos == pos && r.plain == plain
  {
    if len > 0 then (if cur + len > room then Stopped(NoRoom)
      else Reached(Copy(mem, cur, len, dist), cur + len, pos, plain))
    else if cur > room then Reached(mem, cur, pos, plain)
    else if cur + 3 > |mem| then Left
    else Reached(Copy(mem, cur, 3, dist), cur + 3, pos, plain)
  }

  /** Behind a length symbol s that ends at pos: its extra bits, a distance, and the copy. */
  ghost function LengthTo(dst: seq<nat>, bits: seq<bool>, pos: nat, s: nat, mem: seq<byte>, cur: nat, room: nat,
                          plain: bool): (r: Outcome)
    requires cur <= |mem| && room <= |mem| && s > 256
    ensures r.Reached? ==> |r.mem| == |mem| && cur <= r.cur <= |mem| && pos <= r.pos <= |bits|
  {
    match Field(bits, pos, LengthExtra(s - 257))
    case Fail => Stopped(NoInput)
    case Got(x, q) =>
      match FarAt(dst, bits, q)
      case Fail => Stopped(NoInput)
      case Got(d, p) =>
        if d > cur then Stopped(Invalid)
        else MatchTo(mem, cur, room, LengthBase(s - 257) + x, d, p, plain && s <= 285 && DistanceAt(dst, bits, q).Got?)
  }

  /** A block's items up to its end. */
  ghost function BodyTo(lit: seq<nat>, dst: seq<nat>, bits: seq<bool>, pos: nat, mem: seq<byte>, cur: nat, room: nat,
                        plain: bool): (r: Outcome)
    requires cur <= |mem| && room <= |mem|
    ensures r.Reached? ==> |r.mem| == |mem| && cur <= r.cur <= |mem| && pos <= r.pos <= |bits|
    decreases |bits| - pos, |mem| - cur
  {
    match TakenAt(lit, bits, pos)
    case Fail => Stopped(NoInput)
    case Got(s, p) =>
      var ok := plain && SymbolAt(lit, bits, pos).Got?;
      if s < 256 then
        (if cur < room then BodyTo(lit, dst, bits, p, mem[cur := s], cur + 1, room, ok) else Stopped(NoRoom))
      else if s == 256 then Reached(mem, cur, p, ok)
      else
        match LengthTo(dst, bits, p, s, mem, cur, room, ok)
        case Left => Left
        case Stopped(why) => Stopped(why)
        case Reached(m, c, q, o) => BodyTo(lit, dst, bits, q, m, c, room, o)
  }

  // ---- stored blocks

  /** Of the input and the room, the one that comes to an end first is named, and the room if both do. */
  function StoredTo(bits: seq<bool>, pos: nat, mem: seq<byte>, cur: nat, room: nat, plain: bool): (r: Outcome)
    requires cur <= |mem| && room <= |mem|
    ensures r.Reached? ==> |r.mem| == |mem| && cur <= r.cur <= |mem| && pos <= r.pos <= |bits|
  {
    match Field(bits, Align(pos), 16)
    case Fail => Stopped(NoInput)
    case Got(n, p) =>
      match Field(bits, p, 16)
      case Fail => Stopped(NoInput)
      case Got(m, q) =>
        if n != 65535 - m then Stopped(Invalid)
        else if q + 8 * n > |bits| || (n > 0 && cur + n > room) then
          Stopped(if RoomFills(bits, q, cur, room) then NoRoom else NoInput)
        else Reached(mem[..cur] + BytesAt(bits, q, n) + mem[cur + n..], cur + n, q + 8 * n, plain)
  }

  /** No room is left, or there is input for all of it. */
  predicate RoomFills(bits: seq<bool>, q: nat, cur: nat, room: nat)
  {
    cur >= room || q + 8 * (room - cur) <= |bits|
  }

  // ---- dynamic headers

  datatype Attempt<T> = Refused(why: Reason) | Gained(v: T, pos: nat)

  datatype Lengths = Lengths(lens: seq<nat>, plain: bool)

  ghost function LengthsTo(cl: seq<nat>, bits: seq<bool>, pos: nat, got: seq<nat>, total: nat, plain: bool)
    : (r: Attempt<Lengths>)
    ensures r.Gained? ==> |r.v.lens| == total && pos <= r.pos && (pos <= |bits| ==> r.pos <= |bits|)
    decreases total - |got|
  {
    if |got| == total then Gained(Lengths(got, plain), pos)
    else if |got| > total then Refused(Invalid)
    else
      var s := TakenAt(cl, bits, pos);
      if s.Got? && s.v == 16 && got == [] then Refused(Invalid)
      else match TokenFrom(s, bits)
        case Fail => Refused(NoInput)
        case Got(t, p) =>
          match ExpandToken(got, t)
          case None => Refused(Invalid)
          case Some(more) => LengthsTo(cl, bits, p, more, total, plain && SymbolAt(cl, bits, pos).Got?)
  }

  datatype Header = Header(lit: seq<nat>, dst: seq<nat>, plain: bool)

  /** Behind the code-length lengths. */
  ghost function TablesTo(cl: seq<nat>, n: Counts, bits: seq<bool>, pos: nat, plain: bool): (r: Attempt<Header>)
    ensures r.Gained? ==> pos <= r.pos && (pos <= |bits| ==> r.pos <= |bits|)
  {
    match LengthsTo(cl, bits, pos, [], n.nl + n.nd, plain)
    case Refused(why) => Refused(why)
    case Gained(all, r) =>
      var lit, dst := all.lens[..n.nl], all.lens[n.nl..];
      if Accepts(lit) && Accepts(dst) then Gained(Header(lit, dst, all.plain), r) else Refused(Invalid)
  }

  ghost function HeaderTo(bits: seq<bool>, pos: nat, plain: bool): (r: Attempt<Header>)
    ensures r.Gained? ==> pos <= r.pos <= |bits|
  {
    match CountsAt(bits, pos)
    case Fail => Refused(NoInput)
    case Got(n, p) =>
      match SizesAt(bits, p, n.nc)
      case Fail => Refused(NoInput)
      case Got(cl, q) => if Accepts(cl) then TablesTo(cl, n, bits, q, plain) else Refused(Invalid)
  }

  // ---- streams

  ghost function ContentTo(kind: nat, bits: seq<bool>, pos: nat, mem: seq<byte>, cur: nat, room: nat, plain: bool)
    : (r: Outcome)
    requires cur <= |mem| && room <= |mem|
    ensures r.Reached? ==> |r.mem| == |mem| && cur <= r.cur <= |mem| && pos <= r.pos <= |bits|
  {
    if kind == 0 then StoredTo(bits, pos, mem, cur, room, plain)
    else if kind == 1 then BodyTo(FixedLit(), FixedDist(), bits, pos, mem, cur, room, plain)
    else if kind == 2 then
      match HeaderTo(bits, pos, plain)
      case Refused(why) => Stopped(why)
      case Gained(h, p) => BodyTo(h.lit, h.dst, bits, p, mem, cur, room, h.plain)
    else Stopped(Invalid)
  }

  /** All blocks up to the final one. */
  ghost function StreamTo(bits: seq<bool>, pos: nat, mem: seq<byte>, cur: nat, room: nat, plain: bool): (r: Outcome)
    requires cur <= |mem| && room <= |mem|
    ensures r.Reached? ==> |r.mem| == |mem| && cur <= r.cur <= |mem| && pos <= r.pos <= |bits|
    decreases |bits| - pos
  {
    match Field(bits, pos, 3)
    case Fail => Stopped(NoInput)
    case Got(h, p) =>
      match ContentTo(h / 2, bits, p, mem, cur, room, plain)
      case Left => Left
      case Stopped(why) => Stopped(why)
      case Reached(m, c, q, o) => if h % 2 == 1 then Reached(m, c, q, o) else StreamTo(bits, q, m, c, room, o)
  }

  /** What tinfl makes of the stream from start on, with the memory mem of which it may fill room. */
  ghost function Inflated(bits: seq<bool>, start: nat, mem: seq<byte>, room: nat): (r: Outcome)
    requires room <= |mem|
    ensures r.Reached? ==> |r.mem| == |mem| && r.cur <= |mem| && start <= r.pos <= |bits|
  {
    StreamTo(bits, start, mem, 0, room, true)
  }

  // ---- three spare bytes

  lemma {:induction false} BodyStays(lit: seq<nat>, dst: seq<nat>, bits: seq<bool>, pos: nat, mem: seq<byte>, cur: nat,
                                     room: nat, plain: bool)
    requires cur <= |mem| && room + 3 <= |mem|
    ensures BodyTo(lit, dst, bits, pos, mem, cur, room, plain) != Left
    decreases |bits| - pos, |mem| - cur
  {
    hide TakenAt, SymbolAt, FarAt, DistanceAt, Copy, Field;
    var s := TakenAt(lit, bits, pos);
    if s.Got? {
      var ok := plain && SymbolAt(lit, bits, pos).Got?;
      if s.v < 256 && cur < room {
        BodyStays(lit, dst, bits, s.pos, mem[cur := s.v], cur + 1, room, ok);
      } else if s.v > 256 {
        var r := LengthTo(dst, bits, s.pos, s.v, mem, cur, room, ok);
        if r.Reached? {
          BodyStays(lit, dst, bits, r.pos, r.mem, r.cur, room, r.plain);
        }
      }
    }
  }

  lemma {:induction false} StreamStays(bits: seq<bool>, pos: nat, mem: seq<byte>, cur: nat, room: nat, plain: bool)
    requires cur <= |mem| && room + 3 <= |mem|
    ensures StreamTo(bits, pos, mem, cur, room, plain) != Left
    decreases |bits| - pos
  {
    hide BodyTo, StoredTo, HeaderTo, Field, FixedLit, FixedDist;
    var h := Field(bits, pos, 3);
    if h.Got? {
      ContentStays(h.v / 2, bits, h.pos, mem, cur, room, plain);
      var r := ContentTo(h.v / 2, bits, h.pos, mem, cur, room, plain);
      if r.Reached? && h.v % 2 == 0 {
        FieldEnd(bits, pos, 3);
        StreamStays(bits, r.pos, r.mem, r.cur, room, r.plain);
      }
    }
  }

  lemma {:induction false} FieldEnd(bits: seq<bool>, pos: nat, n: nat)
    ensures Field(bits, pos, n).Got? ==> Field(bits, pos, n).pos == pos + n <= |bits|
  {
  }

  lemma {:induction false} ContentStays(kind: nat, bits: seq<bool>, pos: nat, mem: seq<byte>, cur: nat, room: nat,
                                        plain: bool)
    requires cur <= |mem| && room + 3 <= |mem|
    ensures ContentTo(kind, bits, pos, mem, cur, room, plain) != Left
  {
    hide BodyTo, StoredTo, HeaderTo, FixedLit, FixedDist;
    if kind == 0 {
      StoredStays(bits, pos, mem, cur, room, plain);
    } else if kind == 1 {
      BodyStays(FixedLit(), FixedDist(), bits, pos, mem, cur, room, plain);
    } else if kind == 2 {
      var h := HeaderTo(bits, pos, plain);
      if h.Gained? {
        BodyStays(h.v.lit, h.v.dst, bits, h.pos, mem, cur, room, h.v.plain);
      }
    }
  }

  lemma {:induction false} StoredStays(bits: seq<bool>, pos: nat, mem: seq<byte>, cur: nat, room: nat, plain: bool)
    requires cur <= |mem| && room <= |mem|
    ensures StoredTo(bits, pos, mem, cur, room, plain) != Left
  {
    hide Field, BytesAt;
  }
}
