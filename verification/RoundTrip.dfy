/** The two halves of miniz together: what tdefl writes, tinfl reads. */
module RoundTrips {
  import opened Bits
  import opened DeflateSpec
  import opened DeflateBlocks
  import opened BlockOutput
  import opened ZlibSpec
  import opened BitReading
  import opened Restarting
  import opened Compression
  import opened Lenient
  import opened LenientAgrees
  import Inflating
  import ZlibInflate
  import StreamExample
  import Adlers

  /** A complete stream is read as what it stands for, whatever bytes follow, and takes up exactly its own bytes. */
  lemma {:induction false} CompleteReads(out: seq<byte>, src: seq<byte>, more: seq<byte>) returns (pos: nat)
    requires Complete(false, out, src)
    ensures StreamAt(BytesToBits(out + more), 0, []) == Got(src, pos) && Align(pos) == 8 * |out|
  {
    hide BytesToBits, StreamAt;
    var wr: seq<bool> :| EndsIn(wr, [], out) && Whole(HeadBits(false), wr, src);
    BytesToBitsConcat(out, more);
    assert wr <= BytesToBits(out + more);
    pos := |wr|;
    assert |BytesToBits(out)| == 8 * |out|;
  }

  /** The same for a zlib stream: header, blocks and checksum together end with the last byte. */
  lemma {:induction false} CompleteZlibReads(out: seq<byte>, src: seq<byte>, more: seq<byte>)
    requires Complete(true, out, src)
    ensures ZlibAt(BytesToBits(out + more)) == Got(src, 8 * |out|)
  {
    hide BytesToBits, StreamAt, BigField, Field, HeadBits, SumBits, Adlers.Adler, GoodHeader;
    var sum := Adlers.Adler(Adlers.INIT, src);
    var wr: seq<bool> :| EndsIn(wr, Trailer(true, sum), out) && Whole(HeadBits(true), wr, src);
    BytesToBitsConcat(out, more);
    var b, bits := BytesToBits(out), BytesToBits(out + more);
    assert wr <= bits && |b| == 8 * |out|;
    HeadThere(bits);
    assert StreamAt(bits, 16, []) == Got(src, |wr|);
    var p := |b| - 32;
    assert Align(|wr|) == p;
    assert bits[p..p + 32] == b[p..];
    SumThere(sum, bits, p);
  }

  /** The first two bytes of every zlib stream: DEFLATE with a window of 32 KB, compressed quickly. */
  lemma {:induction false} ZlibStarts(out: seq<byte>, src: seq<byte>)
    requires Complete(true, out, src)
    ensures |out| >= 2 && out[0] == 0x78 && out[1] == 0x01
  {
    hide BytesToBits, ToBits, SumBits, Adlers.Adler;
    var wr: seq<bool> :| EndsIn(wr, Trailer(true, Adlers.Adler(Adlers.INIT, src)), out)
      && Whole(HeadBits(true), wr, src);
    var b := BytesToBits(out);
    assert |HeadBits(true)| == 16 && |b| == 8 * |out|;
    assert HeadBits(true)[..8] == ToBits(0x78, 8) && HeadBits(true)[8..] == ToBits(0x01, 8);
    StreamByte(out, 0);
    StreamByte(out, 1);
    assert b[0..8] == HeadBits(true)[..8] && b[8..16] == HeadBits(true)[8..];
    SameByte(out[0], 0x78);
    SameByte(out[1], 0x01);
  }

  lemma {:induction false} SameByte(x: byte, y: byte)
    requires ToBits(x, 8) == ToBits(y, 8)
    ensures x == y
  {
    Pow2Of8();
    FromTo(x, 8);
    FromTo(y, 8);
  }

  /** tdefl_compress_mem_to_output with an output buffer that grows: all of src in one call. */
  method CompressMem(src: seq<byte>, probes: nat, greedy: bool, rle: bool, filter: bool, raw: bool, fixed: bool,
                     zlib: bool) returns (data: seq<byte>)
    requires probes < 4096
    ensures Complete(zlib, data, src)
  {
    hide Complete, Compressor.Started, Compressor.Session;
    var d := new Compressor(probes, greedy, rle, filter, raw, fixed, zlib, true);
    d.StartsSession();
    var used := d.Compress(src, Finish, Callback);
    assert [] + src[..used] == src;
    data := d.given;
  }

  function Joined(pieces: seq<seq<byte>>): seq<byte>
  {
    if pieces == [] then [] else Joined(pieces[..|pieces| - 1]) + pieces[|pieces| - 1]
  }

  /** The k-th call's sink: the callback, or a buffer of the caller. */
  function SinkAt(callback: bool, rooms: nat -> nat, k: nat): Sink
  {
    if callback then Callback else Buffer(rooms(k))
  }

  lemma {:induction false} JoinedMore(pieces: seq<seq<byte>>, i: nat)
    requires i < |pieces|
    ensures Joined(pieces[..i + 1]) == Joined(pieces[..i]) + pieces[i]
  {
    assert pieces[..i + 1][..i] == pieces[..i];
  }

  lemma {:induction false} NothingJoined(pieces: seq<seq<byte>>, flushes: seq<Flush>)
    requires |pieces| == |flushes|
    ensures Joined(pieces[..0]) == [] && PointsLeft([], pieces, flushes, 0)
  {
  }

  /** A full flush has left its point. */
  lemma {:induction false} NowLeft(ps: seq<Point>, qs: seq<Point>, pieces: seq<seq<byte>>, flushes: seq<Flush>, i: nat,
                                   given: seq<byte>)
    requires i < |pieces| == |flushes| && PointsLeft(ps, pieces, flushes, i) && ps <= qs
    requires flushes[i] == FullFlush ==> qs == ps + [Point(|given|, |Joined(pieces[..i + 1])|)]
    ensures PointsLeft(qs, pieces, flushes, i + 1)
  {
    hide Joined;
    if flushes[i] == FullFlush {
      assert qs[|ps|].at == |Joined(pieces[..i + 1])|;
    }
    PointMore(ps, qs, pieces, flushes, i);
  }

  /**
   A decoder that starts at some byte of the stream with nothing before it gets what follows the
   first i + 1 pieces.
   */
  ghost predicate RestartsBehind(data: seq<byte>, pieces: seq<seq<byte>>, i: nat)
    requires i < |pieces|
  {
    exists p: Point :: p.at == |Joined(pieces[..i + 1])| && Resumes(p, data, Joined(pieces))
  }

  /** Every full flush so far has left its point. */
  ghost predicate PointsLeft(ps: seq<Point>, pieces: seq<seq<byte>>, flushes: seq<Flush>, n: nat)
    requires n <= |pieces| == |flushes|
  {
    forall i :: 0 <= i < n && flushes[i] == FullFlush ==> HasPoint(ps, |Joined(pieces[..i + 1])|)
  }

  ghost predicate HasPoint(ps: seq<Point>, at: nat)
  {
    exists k :: 0 <= k < |ps| && ps[k].at == at
  }

  lemma {:induction false} PointMore(ps: seq<Point>, qs: seq<Point>, pieces: seq<seq<byte>>, flushes: seq<Flush>,
                                     n: nat)
    requires n < |pieces| == |flushes| && PointsLeft(ps, pieces, flushes, n) && ps <= qs
    requires flushes[n] == FullFlush ==> HasPoint(qs, |Joined(pieces[..n + 1])|)
    ensures PointsLeft(qs, pieces, flushes, n + 1)
  {
    hide Joined;
    forall i | 0 <= i < n + 1 && flushes[i] == FullFlush
      ensures HasPoint(qs, |Joined(pieces[..i + 1])|)
    {
      if i < n {
        var k :| 0 <= k < |ps| && ps[k].at == |Joined(pieces[..i + 1])|;
        assert qs[k].at == |Joined(pieces[..i + 1])|;
      }
    }
  }

  lemma {:induction false} PointsUsed(ps: seq<Point>, data: seq<byte>, pieces: seq<seq<byte>>, flushes: seq<Flush>)
    requires |pieces| == |flushes| && PointsLeft(ps, pieces, flushes, |pieces|) && AllResume(ps, data, Joined(pieces))
    ensures forall i :: 0 <= i < |pieces| && flushes[i] == FullFlush ==> RestartsBehind(data, pieces, i)
  {
    hide Joined, Resumes;
    forall i | 0 <= i < |pieces| && flushes[i] == FullFlush
      ensures RestartsBehind(data, pieces, i)
    {
      assert HasPoint(ps, |Joined(pieces[..i + 1])|);
      var k :| 0 <= k < |ps| && ps[k].at == |Joined(pieces[..i + 1])|;
      assert Resumes(ps[k], data, Joined(pieces));
    }
  }

  /**
   A stream made in any number of calls, each with or without a flush. With buffers of the caller, of whatever
   sizes, input that a call leaves is offered again, and the last calls are repeated until the end is reached. With
   the callback, what follows a full flush can be read without what was before.
   */
  method CompressPieces(pieces: seq<seq<byte>>, flushes: seq<Flush>, callback: bool, rooms: nat -> nat, probes: nat,
                        greedy: bool, rle: bool, filter: bool, raw: bool, fixed: bool, zlib: bool)
    returns (data: seq<byte>)
    requires probes < 4096 && |flushes| == |pieces| && Finish !in flushes
    requires forall k: nat :: k >= |pieces| ==> rooms(k) > 0
    ensures Complete(zlib, data, Joined(pieces))
    ensures callback ==> forall i :: 0 <= i < |pieces| && flushes[i] == FullFlush ==> RestartsBehind(data, pieces, i)
  {
    hide Complete, Compressor.Started, Compressor.Session, PointsLeft, AllResume, Joined, HasPoint;
    var d := new Compressor(probes, greedy, rle, filter, raw, fixed, zlib, callback);
    d.StartsSession();
    NothingJoined(pieces, flushes);
    var i, rest := 0, [];
    while i < |pieces|
      invariant 0 <= i <= |pieces| && d.Session() && d.src + rest == Joined(pieces[..i])
      invariant d.status == Okay && !d.wantsToFinish && !d.finished && fresh(d.Parts())
      invariant d.callback == callback && d.zlib == zlib
      invariant callback ==> rest == [] && d.flushRemaining == 0 && PointsLeft(d.points, pieces, flushes, i)
    {
      JoinedMore(pieces, i);
      ghost var src, points := d.src, d.points;
      rest := rest + pieces[i];
      var used := d.Compress(rest, flushes[i], SinkAt(callback, rooms, i));
      assert src + rest == src + rest[..used] + rest[used..];
      rest := rest[used..];
      if callback {
        d.NothingWaits();
        NowLeft(points, d.points, pieces, flushes, i, d.given);
      }
      i := i + 1;
    }
    assert pieces[..i] == pieces;
    ghost var points := d.points;
    Drain(d, rest, rooms, i);
    data := d.given;
    if callback {
      PointsUsed(points, data, pieces, flushes);
    }
  }

  /** Repeating the last call ends, as long as every buffer has room for a byte, and the stream is then complete. */
  method Drain(d: Compressor, left: seq<byte>, rooms: nat -> nat, from: nat)
    requires d.Session() && d.status == Okay && !d.finished
    requires forall k: nat :: k >= from ==> rooms(k) > 0
    modifies d.Parts()
    ensures d.status == Done && Complete(d.zlib, d.given, old(d.src) + left)
    ensures AllResume(old(d.points), d.given, old(d.src) + left)
  {
    hide Complete, Compressor.Session, AllResume;
    var i, rest := from, left;
    while d.status == Okay
      invariant from <= i && d.Session() && d.src + rest == old(d.src) + left && (d.finished ==> rest == [])
      invariant d.status != BadParam && (d.status == Done ==> d.finished && d.given == d.out && d.Ended())
      invariant d.points == old(d.points)
      decreases d.status == Okay, |rest| + d.lookaheadSize, !d.finished, d.flushRemaining
    {
      ghost var src := d.src;
      var used := d.Compress(rest, Finish, SinkAt(d.callback, rooms, i));
      assert src + rest == src + rest[..used] + rest[used..];
      rest := rest[used..];
      i := i + 1;
    }
    assert d.src + [] == d.src;
  }

  /**
   What a call returns is what the lenient reader came to, its last byte used up whole; and it kept to the standard
   exactly if the standard's reader gets something for which there is room.
   */
  ghost predicate Comes(to: Outcome, goal: Read<seq<byte>>, room: nat, st: Inflating.Status, result: seq<byte>,
                        used: nat)
  {
    && (to.Reached? && to.plain <==> goal.Got? && |goal.v| <= room)
    && (st == Inflating.Done <==> to.Reached?) && (st == Inflating.Undefined <==> to == Left)
    && (st !in {Inflating.Done, Inflating.Undefined} ==> to == Stopped(Inflating.Why(st)))
    && (to.Reached? ==> to.cur <= |to.mem| && result == to.mem[..to.cur] && 8 * used == Align(to.pos))
  }

  /**
   tinfl_decompress_mem_to_mem on a raw stream, with the number of input bytes used up: what it does, from whatever
   the memory held before, and that it is what the standard asks for unless something beyond the standard is taken.
   */
  method DecompressMem(data: seq<byte>, room: nat) returns (st: Inflating.Status, result: seq<byte>, used: nat)
    ensures var goal := StreamAt(BytesToBits(data), 0, []);
      && (exists mem: seq<byte> ::
            |mem| == room && Comes(Inflated(BytesToBits(data), 0, mem, room), goal, room, st, result, used))
      && (goal.Got? && |goal.v| <= room ==> st == Inflating.Done && result == goal.v && 8 * used == Align(goal.pos))
      && (goal.Got? && |goal.v| > room ==> st == Inflating.HasMoreOutput)
  {
    hide StreamAt, Inflated, BytesToBits, Align;
    var buffer := new byte[room];
    ghost var mem := buffer[..];
    ghost var to := Inflated(BytesToBits(data), 0, mem, room);
    InflatedAgrees(BytesToBits(data), 0, mem, room);
    var r := new Inflating.Inflater(data, buffer, room);
    st := r.Decompress();
    assert buffer[..][..r.cur] == buffer[..r.cur];
    result, used := buffer[..r.cur], r.r.cur;
  }

  /** tinfl_decompress_mem_to_mem on a zlib stream. */
  method DecompressZlibMem(data: seq<byte>, room: nat) returns (st: Inflating.Status, result: seq<byte>, used: nat)
    ensures var goal := ZlibAt(BytesToBits(data));
      && (exists mem: seq<byte> ::
            |mem| == room
            && Comes(ZlibInflate.ZlibInflated(BytesToBits(data), mem, room), goal, room, st, result, used))
      && (goal.Got? && |goal.v| <= room ==> st == Inflating.Done && result == goal.v && 8 * used == goal.pos)
      && (goal.Got? && |goal.v| > room ==> st == Inflating.HasMoreOutput)
  {
    hide ZlibAt, ZlibInflate.ZlibInflated, BytesToBits, Align;
    var buffer := new byte[room];
    ghost var mem := buffer[..];
    ghost var to := ZlibInflate.ZlibInflated(BytesToBits(data), mem, room);
    ZlibInflate.ZlibAgrees(BytesToBits(data), mem, room);
    var r := new Inflating.Inflater(data, buffer, room);
    st := ZlibInflate.DecompressZlib(r);
    assert buffer[..][..r.cur] == buffer[..r.cur];
    result, used := buffer[..r.cur], r.r.cur;
    WholeBytes(used);
  }

  lemma {:induction false} WholeBytes(n: nat)
    ensures Align(8 * n) == 8 * n
  {
  }

  /**
   Compressing and decompressing gives back the source: whatever the source and the parameters, raw or
   in the zlib format, and with any other bytes behind.
   */
  method CompressAndDecompress(src: seq<byte>, more: seq<byte>, room: nat, probes: nat, greedy: bool, rle: bool,
                               filter: bool, raw: bool, fixed: bool, zlib: bool)
    returns (data: seq<byte>, st: Inflating.Status, result: seq<byte>, used: nat)
    requires probes < 4096 && |src| <= room
    ensures st == Inflating.Done && result == src && used == |data|
  {
    hide Complete;
    data := CompressMem(src, probes, greedy, rle, filter, raw, fixed, zlib);
    st, result, used := ReadBack(data, src, more, room, zlib);
  }

  /** The same for a stream made in pieces, with flushes between them, through a callback or buffers of any size. */
  method CompressPiecesAndDecompress(pieces: seq<seq<byte>>, flushes: seq<Flush>, callback: bool, rooms: nat -> nat,
                                     more: seq<byte>, room: nat, probes: nat, greedy: bool, rle: bool, filter: bool,
                                     raw: bool, fixed: bool, zlib: bool)
    returns (data: seq<byte>, st: Inflating.Status, result: seq<byte>, used: nat)
    requires probes < 4096 && |flushes| == |pieces| && Finish !in flushes && |Joined(pieces)| <= room
    requires forall k: nat :: k >= |pieces| ==> rooms(k) > 0
    ensures st == Inflating.Done && result == Joined(pieces) && used == |data|
  {
    hide Complete;
    data := CompressPieces(pieces, flushes, callback, rooms, probes, greedy, rle, filter, raw, fixed, zlib);
    st, result, used := ReadBack(data, Joined(pieces), more, room, zlib);
  }

  /** One stream, byte for byte, and the text that is in it. */
  method ReadExample() returns (st: Inflating.Status, result: seq<byte>, used: nat)
    ensures st == Inflating.Done && result == StreamExample.Text() && used == 35
  {
    hide StreamAt, BytesToBits, StreamExample.Data, StreamExample.Text;
    StreamExample.ReadsText();
    st, result, used := DecompressMem(StreamExample.Data(), 152);
  }

  /** A complete stream, read from memory with other bytes behind it. */
  method ReadBack(data: seq<byte>, src: seq<byte>, more: seq<byte>, room: nat, zlib: bool)
    returns (st: Inflating.Status, result: seq<byte>, used: nat)
    requires Complete(zlib, data, src) && |src| <= room
    ensures st == Inflating.Done && result == src && used == |data|
  {
    hide Complete, StreamAt, ZlibAt, BytesToBits, Align;
    if zlib {
      CompleteZlibReads(data, src, more);
      st, result, used := DecompressZlibMem(data + more, room);
    } else {
      ghost var pos := CompleteReads(data, src, more);
      st, result, used := DecompressMem(data + more, room);
    }
  }
}
