/** tdefl: the parsing loop, the flushing of blocks, and the stream they make. */
module Compression {
  import opened Bits
  import opened LzCodes
  import opened LzBuffers
  import opened LzParse
  import opened HashChains
  import opened BitWriting
  import opened BlockOutput
  import opened BlockForms
  import opened Restarting
  import opened DeflateSpec
  import opened ZlibSpec
  import Adlers

  datatype Status = Okay | Done | BadParam

  datatype Flush = NoFlush | SyncFlush | FullFlush | Finish

  /** Where a call's output goes: to the callback, or into a buffer of the caller. */
  datatype Sink = Callback | Buffer(size: nat)

  class Compressor {
    const dict: array<byte>
    const next: array<u16>
    const hash: array<u16>
    const w: BitWriter
    const t: CodeTables
    const lz: LzBuffer
    const maxProbes0: nat
    const maxProbes1: nat
    const rleMatches: bool
    const filterMatches: bool
    const greedyParsing: bool
    const forceRaw: bool
    const forceStatic: bool
    // TDEFL_WRITE_ZLIB_HEADER.
    const zlib: bool
    // Whether a callback takes the output.
    const callback: bool
    var lookaheadPos: nat
    var lookaheadSize: nat
    var dictSize: nat
    var dictPos: nat
    var savedLit: byte
    var savedMatchLen: nat
    var savedMatchDist: nat
    // All that the callback or the caller's buffers have got.
    var given: seq<byte>
    // Room left in the buffer of this call.
    var avail: nat
    // The part of the output buffer that has still to be given.
    var flushOfs: nat
    var flushRemaining: nat
    var finished: bool
    var adler: nat
    var blockIndex: nat
    var wantsToFinish: bool
    var status: Status
    ghost var src: seq<byte>
    // All bytes of the stream so far, given or not.
    ghost var out: seq<byte>
    // What the full flushes have left.
    ghost var points: seq<Point>

    /** The objects that a call may change. */
    ghost function Parts(): set<object>
    {
      {this, dict, next, hash, w, w.buf, t.litSizes, t.litCodes, t.distSizes, t.distCodes, lz, lz.buf, lz.litCount,
        lz.distCount}
    }

    /** Sizes, and which parts are apart. */
    ghost predicate Shape()
    {
      && dict.Length == RING_SIZE && next.Length == DICT_SIZE && hash.Length == 32768 && next != hash
      && maxProbes0 > 0 && maxProbes1 > 0
      && lz.buf.Length == LZ_CODE_BUF_SIZE && lz.litCount.Length == 288 && lz.distCount.Length == 32
      && lz.litCount != lz.distCount
      && t.Valid() && Apart(w, t, lz) && dict !in {w.buf, lz.buf}
    }

    /** The window. */
    ghost predicate Window()
      reads `src, `lookaheadPos, `lookaheadSize, `dictSize, `points, dict
    {
      && |src| == lookaheadPos + lookaheadSize && Base(points) + dictSize <= lookaheadPos
      && dictSize + lookaheadSize <= DICT_SIZE && lookaheadSize <= LOOKAHEAD
      && (dictSize < DICT_SIZE - LOOKAHEAD ==> Base(points) + dictSize == lookaheadPos)
      && Ring(dict[..], src, lookaheadPos - dictSize)
    }

    /** All places but the last two have entered their chains. */
    ghost predicate Linked()
      reads `src, `points, hash, next
    {
      Chained(hash[..], next[..], src, Base(points), Entered(|src|, Base(points)))
    }

    /** What the recorded codes and a saved match stand for. */
    ghost predicate Recorded()
      reads `src, `dictPos, `lookaheadPos, `savedLit, `savedMatchLen, `savedMatchDist, `points, lz, lz.buf,
        lz.litCount, lz.distCount
    {
      && lz.Valid()
      && Parsed(src, Base(points), dictPos, lz.Codes(), dictPos + lz.totalBytes)
      && Pending(src, Base(points), lookaheadPos, savedLit, savedMatchLen, savedMatchDist, dictPos + lz.totalBytes)
    }

    /** tdefl_init. */
    constructor (probes: nat, greedy: bool, rle: bool, filter: bool, raw: bool, static_: bool, zlib: bool,
                 callback: bool)
      requires probes < 4096
      ensures Started() && fresh(Parts()) && this.zlib == zlib && this.callback == callback
    {
      hide Linked, Chained, Started, Shape, Apart, LzBuffer.Valid, BitWriter.Valid, CodeTables.Valid;
      dict := new byte[RING_SIZE];
      next := new u16[DICT_SIZE];
      hash := new u16[32768](_ => 0);
      w := new BitWriter();
      t := new CodeTables();
      lz := new LzBuffer();
      maxProbes0, maxProbes1 := 1 + (probes + 2) / 3, 1 + (probes / 4 + 2) / 3;
      greedyParsing, rleMatches, filterMatches, forceRaw, forceStatic := greedy, rle, filter, raw, static_;
      this.zlib, this.callback := zlib, callback;
      lookaheadPos, lookaheadSize, dictSize, dictPos := 0, 0, 0, 0;
      savedLit, savedMatchLen, savedMatchDist := 0, 0, 0;
      out, src, adler, blockIndex, points := [], [], Adlers.INIT, 0, [];
      given, avail, flushOfs, flushRemaining := [], 0, 0, 0;
      wantsToFinish, finished, status := false, false, Okay;
      new;
      StartsEmpty();
    }

    lemma {:induction false} StartsEmpty()
      requires dict.Length == RING_SIZE && next.Length == DICT_SIZE && hash.Length == 32768 && next != hash
      requires maxProbes0 > 0 && maxProbes1 > 0
      requires lz.buf.Length == LZ_CODE_BUF_SIZE && lz.litCount.Length == 288 && lz.distCount.Length == 32
        && lz.litCount != lz.distCount
      requires t.Valid() && w.buf != lz.buf && dict != w.buf && dict != lz.buf
      requires lz.litCount !in {t.litSizes, t.litCodes, t.distSizes, t.distCodes}
      requires lz.distCount !in {t.litSizes, t.litCodes, t.distSizes, t.distCodes}
      requires src == [] && out == [] && !wantsToFinish && status == Okay && adler == Adlers.INIT && blockIndex == 0
      requires given == [] && flushOfs == flushRemaining == 0 && !finished && points == []
      requires forall i :: 0 <= i < hash.Length ==> hash[i] == 0
      requires lookaheadPos == lookaheadSize == dictSize == dictPos == savedMatchLen == 0
      requires w.Valid() && w.bitsIn == w.bitBuffer == 0
      requires lz.Valid() && lz.Codes() == [] && lz.totalBytes == 0 && lz.code == 1
      ensures Started()
    {
    }

    /** As tdefl_init leaves it. */
    ghost predicate Started()
      reads this, w, hash, lz, lz.buf, lz.litCount, lz.distCount
    {
      && (forall i :: 0 <= i < hash.Length ==> hash[i] == 0)
      && Shape() && src == [] && out == [] && !wantsToFinish && status == Okay && adler == Adlers.INIT
      && blockIndex == 0 && given == [] && flushOfs == flushRemaining == 0 && !finished && points == []
      && lookaheadPos == lookaheadSize == dictSize == dictPos == savedMatchLen == 0
      && w.Valid() && w.bitsIn == w.bitBuffer == 0
      && lz.Valid() && lz.Codes() == [] && lz.totalBytes == 0 && lz.code == 1
    }

    lemma {:induction false} NothingWaits()
      requires Session() && status == Okay && callback
      ensures flushRemaining == 0
    {
    }

    lemma {:induction false} StartsSession()
      requires Started()
      ensures Session() && src == [] && status == Okay && !wantsToFinish && !finished && points == []
      ensures flushRemaining == 0
    {
      hide LzBuffer.Valid, BitWriter.Valid, CodeTables.Valid, Apart, Ring, Parsed, Prefixed, BytesToBits, ToBits,
        Complete, HeadBits;
      NothingYet(dict[..]);
      NoneChained(hash[..], next[..], [], 0);
    }

    // ---- filling the dictionary

    /** While bytes come in: the ring is good from lo on, and lo moves only when the window is full. */
    ghost predicate Filling(lo: nat)
      reads this, dict
    {
      && |src| == lookaheadPos + lookaheadSize && Base(points) + dictSize <= lookaheadPos <= |src|
      && lookaheadSize <= LOOKAHEAD
      && Ring(dict[..], src, lo)
      && (lo <= lookaheadPos - dictSize || lo + DICT_SIZE <= |src|)
    }

    /** One byte goes into the ring and, near its beginning, into the mirror. */
    method Store(c: byte, dstPos: nat, ghost lo: nat) returns (ghost lo2: nat)
      requires Shape() && Filling(lo) && lookaheadSize < LOOKAHEAD && dstPos == |src| % DICT_SIZE
      modifies this`lookaheadSize, this`src, dict
      ensures Filling(lo2) && src == old(src) + [c] && lookaheadSize == old(lookaheadSize) + 1
    {
      hide InPlace, Apart, t.Valid;
      ghost var before := dict[..];
      dict[dstPos] := c;
      if dstPos < LOOKAHEAD - 1 {
        dict[DICT_SIZE + dstPos] := c;
      }
      lookaheadSize := lookaheadSize + 1;
      lo2 := if |src| < lo + DICT_SIZE then lo else lo + 1;
      RingPush(before, src, lo, c, dict[..], lo2);
      src := src + [c];
    }

    /** A string of three bytes enters its chain. */
    method Chain(insPos: nat, h: bv15)
      requires Shape() && insPos + 3 <= |src| && h == Key(src[insPos], src[insPos + 1], src[insPos + 2])
      requires Chained(hash[..], next[..], src, Base(points), insPos)
      modifies next, hash
      ensures Chained(hash[..], next[..], src, Base(points), insPos + 1)
    {
      hide Chained, Key, Apart, CodeTables.Valid, Base;
      ghost var heads: seq<u16>, links: seq<u16>, key := hash[..], next[..], KeyAt(src, insPos);
      KeyIs(src, insPos, h);
      Enter(heads, links, src, Base(points), insPos, key);
      next[insPos % DICT_SIZE] := hash[h as nat];
      hash[h as nat] := insPos % 65536;
      assert hash[..] == heads[key := insPos % 65536] && next[..] == links[insPos % DICT_SIZE := heads[key]];
    }

    /** Takes bytes from the input until there are 258 to look at, or no more. */
    method Fill(input: seq<byte>, from: nat) returns (i: nat)
      requires Shape() && Window() && Linked() && Recorded() && Streamed() && from <= |input|
      modifies this`lookaheadSize, this`dictSize, this`src, dict, next, hash
      ensures Window() && Linked() && Recorded() && Streamed()
      ensures from <= i <= |input| && (i == |input| || lookaheadSize == LOOKAHEAD)
      ensures src == old(src) + input[from..i] && lookaheadSize == old(lookaheadSize) + (i - from)
    {
      hide Ring, Apart, CodeTables.Valid, LzBuffer.Valid, Parsed, Pending, Written, Prefixed, Due;
      ghost var before, n := src, dictPos + lz.totalBytes;
      i := FillWindow(input, from);
      ghost var more := input[from..i];
      ParsedLonger(before, more, Base(points), dictPos, lz.Codes(), n);
      ParsedFrom(before, Base(points), dictPos, lz.Codes(), n);
      assert src[..dictPos] == before[..dictPos];
      PendingLonger(before, more, Base(points), lookaheadPos, savedLit, savedMatchLen, savedMatchDist, n);
    }

    method FillWindow(input: seq<byte>, from: nat) returns (i: nat)
      requires Shape() && Window() && Linked() && from <= |input|
      modifies this`lookaheadSize, this`dictSize, this`src, dict, next, hash
      ensures Window() && Linked()
      ensures from <= i <= |input| && (i == |input| || lookaheadSize == LOOKAHEAD)
      ensures src == old(src) + input[from..i] && lookaheadSize == old(lookaheadSize) + (i - from)
    {
      hide Ring, Apart, CodeTables.Valid;
      i := from;
      ghost var lo := lookaheadPos - dictSize;
      if lookaheadSize + dictSize >= MIN_MATCH - 1 {
        i, lo := FillChained(input, from, lo);
      } else {
        i, lo := FillFirst(input, from, lo);
      }
      dictSize := if DICT_SIZE - lookaheadSize < dictSize then DICT_SIZE - lookaheadSize else dictSize;
      RingShrink(dict[..], src, lo, lookaheadPos - dictSize);
    }

    method FillChained(input: seq<byte>, from: nat, ghost lo0: nat) returns (i: nat, ghost lo: nat)
      requires Shape() && Filling(lo0) && Linked() && from <= |input| && |src| >= Base(points) + 2
      requires lo0 + 2 <= |src|
      modifies this`lookaheadSize, this`src, dict, next, hash
      ensures Filling(lo) && Linked()
      ensures from <= i <= |input| && (i == |input| || lookaheadSize == LOOKAHEAD)
      ensures src == old(src) + input[from..i] && lookaheadSize == old(lookaheadSize) + (i - from)
    {
      hide Apart, t.Valid, Chained, Key, Rolling, Base, Bits15, Ring, Linked;
      i, lo := from, lo0;
      LastTwo(dict[..], src, lo0);
      StartsRolling(src[|src| - 2], src[|src| - 1]);
      var dstPos, insPos := (lookaheadPos + lookaheadSize) % DICT_SIZE, lookaheadPos + lookaheadSize - 2;
      var h: bv15 := (Bits15(dict[insPos % DICT_SIZE]) << 5) ^ Bits15(dict[(insPos + 1) % DICT_SIZE]);
      var n := if |input| - from < LOOKAHEAD - lookaheadSize then |input| - from else LOOKAHEAD - lookaheadSize;
      while i < from + n
        invariant from <= i <= from + n && Filling(lo) && Linked()
        invariant src == old(src) + input[from..i] && lookaheadSize == old(lookaheadSize) + (i - from)
        invariant dstPos == |src| % DICT_SIZE && insPos == |src| - 2 && |src| >= Base(points) + 2
        invariant Rolling(h, src[|src| - 2], src[|src| - 1])
      {
        h, lo := NextByte(input[i], dstPos, insPos, h, lo);
        assert input[from..i + 1] == input[from..i] + [input[i]];
        NextPlace(|src| - 1);
        dstPos, insPos := (dstPos + 1) % DICT_SIZE, insPos + 1;
        i := i + 1;
      }
    }

    /** One more byte, and the place two before it enters its chain. */
    method NextByte(c: byte, dstPos: nat, insPos: nat, h: bv15, ghost lo: nat) returns (h2: bv15, ghost lo2: nat)
      requires Shape() && Filling(lo) && Linked() && lookaheadSize < LOOKAHEAD
      requires dstPos == |src| % DICT_SIZE && insPos == |src| - 2 && |src| >= Base(points) + 2
      requires Rolling(h, src[|src| - 2], src[|src| - 1])
      modifies this`lookaheadSize, this`src, dict, next, hash
      ensures Filling(lo2) && Linked() && src == old(src) + [c] && lookaheadSize == old(lookaheadSize) + 1
      ensures |src| >= 2 && Rolling(h2, src[|src| - 2], src[|src| - 1])
    {
      hide Apart, t.Valid, Chained, Key, Rolling, Base, Bits15, Ring, Filling;
      RollsOn(h, src[|src| - 2], src[|src| - 1], c);
      ChainedLonger(hash[..], next[..], src, [c], Base(points), insPos);
      lo2 := Store(c, dstPos, lo);
      h2 := (h << 5) ^ Bits15(c);
      Chain(insPos, h2);
    }

    method FillFirst(input: seq<byte>, from: nat, ghost lo0: nat) returns (i: nat, ghost lo: nat)
      requires Shape() && Filling(lo0) && Linked() && from <= |input| && Base(points) + dictSize == lookaheadPos
      modifies this`lookaheadSize, this`src, dict, next, hash
      ensures Filling(lo) && Linked()
      ensures from <= i <= |input| && (i == |input| || lookaheadSize == LOOKAHEAD)
      ensures src == old(src) + input[from..i] && lookaheadSize == old(lookaheadSize) + (i - from)
    {
      hide Ring, Apart, t.Valid, Chained, Key, Base, Bits15, Filling, Linked;
      i, lo := from, lo0;
      while i < |input| && lookaheadSize < LOOKAHEAD
        invariant from <= i <= |input| && Filling(lo) && Linked()
        invariant src == old(src) + input[from..i] && lookaheadSize == old(lookaheadSize) + (i - from)
      {
        lo := FirstByte(input[i], lo);
        assert input[from..i + 1] == input[from..i] + [input[i]];
        i := i + 1;
      }
      AtMost258(lo);
    }

    lemma {:induction false} AtMost258(lo: nat)
      requires Filling(lo)
      ensures lookaheadSize <= LOOKAHEAD
    {
    }

    /** One of the first bytes, which may be too few for a chain. */
    method FirstByte(c: byte, ghost lo: nat) returns (ghost lo2: nat)
      requires Shape() && Filling(lo) && Linked() && lookaheadSize < LOOKAHEAD
        && Base(points) + dictSize == lookaheadPos
      modifies this`lookaheadSize, this`src, dict, next, hash
      ensures Filling(lo2) && Linked() && src == old(src) + [c] && lookaheadSize == old(lookaheadSize) + 1
    {
      hide Ring, Apart, t.Valid, Chained, Key, Base, Bits15;
      ChainedLonger(hash[..], next[..], src, [c], Base(points), Entered(|src|, Base(points)));
      var dstPos := (lookaheadPos + lookaheadSize) % DICT_SIZE;
      lo2 := Store(c, dstPos, lo);
      if lookaheadSize + dictSize >= MIN_MATCH {
        var insPos := lookaheadPos + (lookaheadSize - 1) - 2;
        LastThree(dict[..], src, lo2);
        var c0, c1 := dict[insPos % DICT_SIZE], dict[(insPos + 1) % DICT_SIZE];
        Chain(insPos, Key(c0, c1, c));
      }
    }

    /**
     What a search that has beaten the first k candidates has seen: every earlier place of the window with the same
     first three bytes, unless k places of its chain or more lie between.
     */
    lemma {:induction false} SearchSees(q: nat, k: nat, len: nat)
      requires Shape() && Window() && Linked() && lookaheadSize >= MIN_MATCH
      requires Base(points) <= q < lookaheadPos <= q + dictSize && SameStart(src, q, lookaheadPos)
      requires Visible(src, q, lookaheadPos, KeyAt(src, q)) && Between(src, q, lookaheadPos, KeyAt(src, q)) < k
      requires Beats(Walk(next[..], lookaheadPos, dictSize), src, k, len)
      ensures !Repeats(src, lookaheadPos, len + 1, lookaheadPos - q)
    {
      hide Chained, Ring, Base, KeyAt, SameStart, Visible, Between, Beats, Repeats, Apart, CodeTables.Valid;
      NothingMissed(hash[..], Walk(next[..], lookaheadPos, dictSize), src, Base(points), |src| - 2, q, k, len);
    }

    // ---- one step of the parse

    /** A match for the present position that is worth more than a saved one; distance 0 stands for none. */
    ghost predicate Usable(matchDist: nat, matchLen: nat)
      reads this
    {
      (if savedMatchLen > 0 then matchLen > savedMatchLen else matchDist != 0) ==>
        NearMatch(src, Base(points), lookaheadPos, matchLen, matchDist)
    }

    /** The match that a search for the present position comes up with, before it is sifted. */
    ghost predicate Offered(dist: nat, len: nat)
      reads this, dict, next
      requires next.Length == DICT_SIZE && maxProbes0 > 0 && maxProbes1 > 0
    {
      var kept := if savedMatchLen > 0 then savedMatchLen else MIN_MATCH - 1;
      if forceRaw || (rleMatches && dictSize == 0) then dist == 0 && len == kept
      else if rleMatches then
        exists run: nat :: LongestRun(src, lookaheadPos, run)
          && (dist, len) == (if run < MIN_MATCH then (0, 0) else (1, run))
      else
        var probes := if kept >= 32 then maxProbes1 else maxProbes0;
        Improves(src, lookaheadPos, dictSize, 0, kept, dist, len)
        && Beats(Walk(next[..], lookaheadPos, dictSize), src, probes - 1, len)
    }

    /** A match of three bytes from far away is not worth it; nor are short ones, if they are to be filtered. */
    predicate Sifted(dist: nat, len: nat)
      reads `lookaheadPos
    {
      (len == MIN_MATCH && dist >= 8 * 1024) || lookaheadPos % DICT_SIZE == dist || (filterMatches && len <= 5)
    }

    /** What the search comes up with, or none if that is sifted out. */
    ghost predicate Chosen(dist: nat, len: nat)
      reads this, dict, next
      requires next.Length == DICT_SIZE && maxProbes0 > 0 && maxProbes1 > 0
    {
      exists d: nat, l: nat :: Offered(d, l) && (dist, len) == (if Sifted(d, l) then (0, 0) else (d, l))
    }

    lemma {:induction false} OfferMade(dist: nat, len: nat, run: nat)
      requires Shape()
      requires var kept := if savedMatchLen > 0 then savedMatchLen else MIN_MATCH - 1;
        if forceRaw || (rleMatches && dictSize == 0) then dist == 0 && len == kept
        else if rleMatches then
          LongestRun(src, lookaheadPos, run) && dist == (if run < MIN_MATCH then 0 else 1)
          && len == (if run < MIN_MATCH then 0 else run)
        else
          Improves(src, lookaheadPos, dictSize, 0, kept, dist, len)
          && Beats(Walk(next[..], lookaheadPos, dictSize), src,
            (if kept >= 32 then maxProbes1 else maxProbes0) - 1, len)
      ensures Offered(dist, len)
    {
      hide Apart, CodeTables.Valid, Improves, Beats, LongestRun;
    }

    /** The match for the present position, as the flags have it. */
    method CurrentMatch() returns (matchDist: nat, matchLen: nat)
      requires Shape() && Window() && lookaheadSize > 0 && savedMatchLen < 128 && savedMatchLen != 1
      ensures Usable(matchDist, matchLen) && Chosen(matchDist, matchLen)
    {
      hide Ring, Repeats, Apart, Beats, Offered, LongestRun;
      var curPos := lookaheadPos % DICT_SIZE;
      matchDist, matchLen := 0, if savedMatchLen > 0 then savedMatchLen else MIN_MATCH - 1;
      ghost var run := 0;
      if rleMatches || forceRaw {
        if dictSize > 0 && !forceRaw {
          matchLen := RunLength(dict, lookaheadPos, dictSize, lookaheadSize, src);
          run := matchLen;
          if matchLen < MIN_MATCH {
            matchLen := 0;
          } else {
            matchDist := 1;
          }
        }
      } else {
        var probes := if matchLen >= 32 then maxProbes1 else maxProbes0;
        matchDist, matchLen := FindMatch(dict, next, probes, lookaheadPos, dictSize, lookaheadSize, matchDist, matchLen,
          src);
      }
      OfferMade(matchDist, matchLen, run);
      if (matchLen == MIN_MATCH && matchDist >= 8 * 1024) || curPos == matchDist || (filterMatches && matchLen <= 5) {
        matchDist, matchLen := 0, 0;
      }
    }

    /** Records the byte that a saved match had kept back, or the byte at the present position. */
    method TakeLiteral(lit: byte)
      requires Recorded() && lz.code + 2 <= LZ_CODE_BUF_SIZE
      requires dictPos + lz.totalBytes < |src| && lit == src[dictPos + lz.totalBytes]
      modifies lz, lz.buf, lz.litCount
      ensures lz.Valid() && lz.totalBytes == old(lz.totalBytes) + 1 && lz.code <= old(lz.code) + 2
      ensures lz.Codes() == old(lz.Codes()) + [Literal(lit)]
      ensures Parsed(src, Base(points), dictPos, lz.Codes(), dictPos + lz.totalBytes)
    {
      hide LzBuffer.Valid, Parsed;
      ParsedLiteral(src, Base(points), dictPos, lz.Codes(), dictPos + lz.totalBytes);
      lz.RecordLiteral(lit);
    }

    method TakeMatch(matchLen: nat, matchDist: nat)
      requires lz.Valid() && lz.code + 4 <= LZ_CODE_BUF_SIZE
        && Parsed(src, Base(points), dictPos, lz.Codes(), dictPos + lz.totalBytes)
      requires NearMatch(src, Base(points), dictPos + lz.totalBytes, matchLen, matchDist)
      modifies lz, lz.buf, lz.litCount, lz.distCount
      ensures lz.Valid() && lz.totalBytes == old(lz.totalBytes) + matchLen && lz.code <= old(lz.code) + 4
      ensures lz.Codes() == old(lz.Codes()) + [Match(matchLen, matchDist)]
      ensures Parsed(src, Base(points), dictPos, lz.Codes(), dictPos + lz.totalBytes)
    {
      hide LzBuffer.Valid, Parsed, Repeats;
      ParsedMatch(src, Base(points), dictPos, lz.Codes(), dictPos + lz.totalBytes, matchLen, matchDist);
      lz.RecordMatch(matchLen, matchDist);
    }

    method ByteHere() returns (lit: byte)
      requires Shape() && Window() && lookaheadSize > 0
      ensures lit == src[lookaheadPos]
    {
      var curPos := lookaheadPos % DICT_SIZE;
      ReadRing(dict[..], src, lookaheadPos - dictSize, lookaheadPos, 0);
      assert curPos + 0 == curPos;
      lit := dict[curPos];
    }

    /** After a step: everything before the next position is recorded, but for a saved match. */
    ghost predicate Stepped(move: nat)
      reads this, lz, lz.buf, lz.litCount, lz.distCount
    {
      && lz.Valid() && 1 <= move <= lookaheadSize
      && Parsed(src, Base(points), dictPos, lz.Codes(), dictPos + lz.totalBytes)
      && Pending(src, Base(points), lookaheadPos + move, savedLit, savedMatchLen, savedMatchDist,
        dictPos + lz.totalBytes)
    }

    /** A step has done what the rule says. */
    ghost predicate Follows(m: Move, codes: seq<LzCode>, here: byte, move: nat)
      reads `savedLit, `savedMatchLen, `savedMatchDist, lz
    {
      && lz.Codes() == codes + m.codes && move == m.steps && savedMatchLen == m.len
      && (m.len > 0 ==> savedMatchDist == m.dist && savedLit == here)
    }

    /** A saved match gives way to a longer one: its first byte becomes a literal. */
    method LazyStep(matchDist: nat, matchLen: nat) returns (move: nat)
      requires Shape() && Window() && Recorded() && lookaheadSize > 0 && lz.code + 8 <= LZ_CODE_BUF_SIZE
      requires savedMatchLen > 0 && NearMatch(src, Base(points), lookaheadPos, matchLen, matchDist)
      requires matchLen > savedMatchLen >= 2
      modifies this`savedLit, this`savedMatchLen, this`savedMatchDist, lz, lz.buf, lz.litCount, lz.distCount
      ensures Stepped(move) && lz.code <= old(lz.code) + 6
      ensures Follows(LazyRule(old(savedLit), old(savedMatchLen), old(savedMatchDist), src[lookaheadPos], matchLen,
                               matchDist, Greedy()), old(lz.Codes()), src[lookaheadPos], move)
    {
      hide LzBuffer.Valid, Parsed, Ring, Repeats, Apart;
      MatchRoom(src, Base(points), lookaheadPos, matchLen, matchDist);
      TakeLiteral(savedLit);
      if matchLen >= 128 {
        TakeMatch(matchLen, matchDist);
        savedMatchLen := 0;
        move := matchLen;
      } else {
        var lit := ByteHere();
        savedLit, savedMatchDist, savedMatchLen := lit, matchDist, matchLen;
        move := 1;
      }
    }

    /** A saved match is recorded. */
    method SavedStep(ghost matchDist: nat, ghost matchLen: nat) returns (move: nat)
      requires Shape() && Window() && Recorded() && lookaheadSize > 0 && lz.code + 8 <= LZ_CODE_BUF_SIZE
      requires savedMatchLen >= 2 && matchLen <= savedMatchLen
      modifies this`savedMatchLen, lz, lz.buf, lz.litCount, lz.distCount
      ensures Stepped(move) && lz.code <= old(lz.code) + 6
      ensures Follows(LazyRule(savedLit, old(savedMatchLen), savedMatchDist, src[lookaheadPos], matchLen, matchDist,
                               Greedy()), old(lz.Codes()), src[lookaheadPos], move)
    {
      hide LzBuffer.Valid, Parsed, Ring, Repeats, Apart;
      MatchRoom(src, Base(points), lookaheadPos - 1, savedMatchLen, savedMatchDist);
      TakeMatch(savedMatchLen, savedMatchDist);
      move := savedMatchLen - 1;
      savedMatchLen := 0;
    }

    /** Nothing was saved: a literal, a match at once, or a match to be saved. */
    method FreshStep(matchDist: nat, matchLen: nat) returns (move: nat)
      requires Shape() && Window() && Recorded() && lookaheadSize > 0 && lz.code + 8 <= LZ_CODE_BUF_SIZE
      requires savedMatchLen == 0
        && (matchDist != 0 ==> NearMatch(src, Base(points), lookaheadPos, matchLen, matchDist))
      modifies this`savedLit, this`savedMatchLen, this`savedMatchDist, lz, lz.buf, lz.litCount, lz.distCount
      ensures Stepped(move) && lz.code <= old(lz.code) + 6
      ensures Follows(LazyRule(old(savedLit), 0, old(savedMatchDist), src[lookaheadPos], matchLen, matchDist, Greedy()),
                      old(lz.Codes()), src[lookaheadPos], move)
    {
      hide LzBuffer.Valid, Parsed, Ring, Repeats, Apart;
      var lit := ByteHere();
      if matchDist != 0 {
        MatchRoom(src, Base(points), lookaheadPos, matchLen, matchDist);
      }
      if matchDist == 0 {
        TakeLiteral(lit);
        move := 1;
      } else if greedyParsing || rleMatches || matchLen >= 128 {
        TakeMatch(matchLen, matchDist);
        move := matchLen;
      } else {
        savedLit, savedMatchDist, savedMatchLen := lit, matchDist, matchLen;
        move := 1;
      }
    }

    function Greedy(): bool
    {
      greedyParsing || rleMatches
    }

    /**
     The lazy or greedy parse: one step, after which the lookahead moves on. What it records is what the rule says of
     the match found.
     */
    method ParseStep() returns (ghost matchDist: nat, ghost matchLen: nat)
      requires Shape() && Window() && Recorded() && lookaheadSize > 0 && lz.code + 8 <= LZ_CODE_BUF_SIZE
      modifies this`savedLit, this`savedMatchLen, this`savedMatchDist, this`lookaheadPos, this`lookaheadSize,
        this`dictSize
      modifies lz, lz.buf, lz.litCount, lz.distCount
      ensures Window() && Recorded() && lookaheadSize < old(lookaheadSize)
      ensures lz.code <= old(lz.code) + 6
      ensures old(savedMatchLen) != 1 && old(Chosen(matchDist, matchLen)) && old(lookaheadPos) < |src|
      ensures lookaheadPos >= old(lookaheadPos)
      ensures Follows(LazyRule(old(savedLit), old(savedMatchLen), old(savedMatchDist), src[old(lookaheadPos)], matchLen,
                               matchDist, Greedy()), old(lz.Codes()), src[old(lookaheadPos)],
                      lookaheadPos - old(lookaheadPos))
    {
      hide Linked, LzBuffer.Valid, Parsed, Ring, Repeats, Apart, TrueMatch, Stepped, Chosen, LazyRule, Follows;
      SavedLength(src, Base(points), lookaheadPos, savedLit, savedMatchLen, savedMatchDist, dictPos + lz.totalBytes);
      var dist, len := CurrentMatch();
      matchDist, matchLen := dist, len;
      var move;
      if savedMatchLen > 0 {
        if len > savedMatchLen {
          move := LazyStep(dist, len);
        } else {
          move := SavedStep(dist, len);
        }
      } else {
        move := FreshStep(dist, len);
      }
      Advance(move);
    }

    method Advance(move: nat)
      requires Window() && Stepped(move)
      modifies this`lookaheadPos, this`lookaheadSize, this`dictSize
      ensures Window() && Recorded() && lookaheadSize < old(lookaheadSize)
      ensures lookaheadPos == old(lookaheadPos) + move
    {
      hide LzBuffer.Valid, Parsed, Ring, Pending;
      RingLonger(dict[..], src, lookaheadPos, dictSize, move);
      lookaheadPos := lookaheadPos + move;
      lookaheadSize := lookaheadSize - move;
      dictSize := if dictSize + move < DICT_SIZE then dictSize + move else DICT_SIZE;
    }

    // ---- flushing

    /** All the bits of the stream so far. */
    ghost function Written(): seq<bool>
      reads `out, w
    {
      BytesToBits(out) + ToBits(w.bitBuffer, w.bitsIn)
    }

    /**
     The codes recorded since the last block go out as a block, in whichever form. The block, and an
     empty stored one behind it for a flush, stand for the bytes the codes were recorded for.
     */
    method PutRecorded(flush: Flush, ghost wr: seq<bool>, ghost base: seq<bool>) returns (ghost block: seq<bool>)
      requires Shape() && Window() && Recorded() && w.Has([], base) && |base| < 24 && (|wr| - |base|) % 8 == 0
      modifies w, w.buf, t.litSizes, t.litCodes, t.distSizes, t.distCodes, lz`code, lz.buf, lz.litCount
      ensures w.Has([], base + block) && |base + block| <= 679100 && lz.totalBytes == old(lz.totalBytes)
      ensures Base(points) <= dictPos && dictPos + lz.totalBytes <= |src|
      ensures Means(block, |wr|, flush == Finish, src[Base(points)..dictPos],
                    src[Base(points)..dictPos + lz.totalBytes])
    {
      hide Ring, Parsed, Pending, BitWriter.Has, BytesToBits, ToBits, LzBuffer.Valid, Ready, CountsReady,
        CodeTables.Valid, Apart, Expand, AllApply, Means;
      ghost var n := lz.totalBytes;
      ghost var data := DataRecorded(dict[..], src, Base(points), lookaheadPos, dictSize, savedLit, savedMatchLen,
        savedMatchDist,
        dictPos, lz.Codes(), n);
      ApartParts(w, t, lz);
      FinishCodes(lz);
      assert Pow2(1) == 2;
      ghost var f := LowBits(if flush == Finish then 1 else 0, 1);
      ToBitsMod(if flush == Finish then 1 else 0, 1);
      w.PutBits(if flush == Finish then 1 else 0, 1, [], base);
      ghost var content := PutBlock(w, t, lz, dict, dictPos, lookaheadPos - dictPos, dictSize, forceRaw, forceStatic,
                                    flush == Finish, |wr|, src[Base(points)..dictPos], data, base + f);
      block := f + content;
      assert base + f + content == base + block;
      ContentIs(content, flush == Finish, |wr|, src[Base(points)..dictPos], src[Base(points)..dictPos] + data, block);
    }

    /** The zlib header, in front of the first block. */
    method PutHead(ghost base: seq<bool>)
      requires w.Has([], base)
      modifies w, w.buf
      ensures w.Has([], base + Due())
    {
      hide BitWriter.Has, ToBits;
      assert base + [] == base;
      if zlib && blockIndex == 0 {
        Pow2Of8();
        w.PutBits(0x78, 8, [], base);
        w.PutBits(0x01, 8, [], base + ToBits(0x78, 8));
        assert base + ToBits(0x78, 8) + ToBits(0x01, 8) == base + Due();
      }
    }

    /** The checksum, behind the padding of the last block. */
    method PutSum(ghost base: seq<bool>)
      requires w.Has([], base)
      modifies w, w.buf
      ensures w.Has([], base + Trailer(zlib, adler))
    {
      hide BitWriter.Has, ToBits;
      assert base + [] == base;
      if zlib {
        Pow2Of8();
        var a, b, c, d := adler / 0x100_0000 % 256, adler / 0x1_0000 % 256, adler / 0x100 % 256, adler % 256;
        w.PutBits(a, 8, [], base);
        w.PutBits(b, 8, [], base + ToBits(a, 8));
        w.PutBits(c, 8, [], base + ToBits(a, 8) + ToBits(b, 8));
        w.PutBits(d, 8, [], base + ToBits(a, 8) + ToBits(b, 8) + ToBits(c, 8));
        assert base + ToBits(a, 8) + ToBits(b, 8) + ToBits(c, 8) + ToBits(d, 8) == base + Trailer(zlib, adler);
      }
    }

    /**
     What follows a flushed block: padding and the checksum at the end of the stream, an empty stored
     block otherwise. The output buffer always has room for it.
     */
    method PutTrailer(flush: Flush, ghost wr: seq<bool>, ghost base: seq<bool>)
      returns (ghost tail: seq<bool>, ghost pad: seq<bool>)
      requires w.Has([], base) && (|wr| - |base|) % 8 == 0 && |base| <= 679100
      modifies w, w.buf
      ensures w.Valid() && w.Bits() == base + tail
      ensures flush == NoFlush ==> tail == []
      ensures flush == Finish ==> tail == pad + Trailer(zlib, adler) && |pad| < 8 && (|wr| + |pad|) % 8 == 0
      ensures flush in {SyncFlush, FullFlush} ==>
        (|wr| + |tail|) % 8 == 0 && forall o: seq<byte> :: Means(tail, |wr|, false, o, o)
    {
      hide BitWriter.Has, Means, ToBits, BytesToBits;
      tail, pad := [], [];
      assert base + [] == base;
      if flush == Finish {
        pad := seq((8 - |base| % 8) % 8, _ => false);
        w.PadToByte([], base);
        ModOfSum(|wr|, |base|);
        PutSum(base + pad);
        tail := pad + Trailer(zlib, adler);
        assert base + pad + Trailer(zlib, adler) == base + tail;
      } else if flush != NoFlush {
        tail := PutEmpty(wr, base);
      }
      NothingDropped(w, base + tail);
    }

    method PutEmpty(ghost wr: seq<bool>, ghost base: seq<bool>) returns (ghost tail: seq<bool>)
      requires w.Has([], base) && (|wr| - |base|) % 8 == 0
      modifies w, w.buf
      ensures w.Has([], base + tail) && |tail| < 43 && (|wr| + |tail|) % 8 == 0
      ensures forall o: seq<byte> :: Means(tail, |wr|, false, o, o)
    {
      hide BitWriter.Has, Means, ToBits, BytesToBits, Pow2, Padding, LowBits, TypeBits;
      EmptyParts();
      Pow2Of16();
      ghost var z, pad := TypeBits(false, 0), Padding(|wr| + 3);
      w.PutBits(0, 3, [], base);
      SamePadding(|wr| + 3, |base + z|);
      w.PadToByte([], base + z);
      ghost var l1, l2 := LowBits(0, 16), LowBits(65535, 16);
      w.PutBits(0, 16, [], base + z + pad);
      w.PutBits(65535, 16, [], base + z + pad + l1);
      tail := z + (pad + l1 + l2 + BytesToBits([]));
      assert base + z + pad + l1 + l2 == base + tail;
      forall o: seq<byte>
        ensures Means(tail, |wr|, false, o, o)
      {
        StoredBlock(false, [], |wr|, o);
        assert o + [] == o;
      }
    }

    /** The header, as long as it has still to be written. */
    ghost function Due(): seq<bool>
      reads `blockIndex
    {
      if blockIndex == 0 then HeadBits(zlib) else []
    }

    /** What the blocks so far stand for. */
    ghost predicate Streamed()
      reads `dictPos, `src, `out, `blockIndex, `points, w
    {
      && dictPos <= |src| && Prefixed(HeadBits(zlib), Written() + Due(), src[..dictPos])
      && (blockIndex == 0 ==> Written() == [] && points == []) && Restartable(dictPos)
    }

    /** From the point that every full flush has left, the blocks stand for the data behind it. */
    ghost predicate Restartable(upTo: nat)
      reads `src, `out, `points, w
    {
      InOrder(points) && Base(points) <= upTo && AllStart(points, Written(), src, upTo)
    }

    /** The stream is complete, and can be read from every point that a full flush has left. */
    ghost predicate Ended()
      reads `src, `out, `points
    {
      Complete(zlib, out, src) && AllResume(points, out, src)
    }

    /**
     The stream so far ends with these bytes, and stands for all of the input so far; a full flush has left a point
     there.
     */
    ghost predicate Flushed(flush: Flush, bytes: seq<byte>, before: seq<Point>)
      reads `src, `points
    {
      && Prefixed(HeadBits(zlib), BytesToBits(bytes), src)
      && points == before + (if flush == FullFlush then [Point(|bytes|, |src|)] else [])
    }

    /** The checksum is that of all the input. */
    ghost predicate Summed()
      reads `adler, `src
    {
      zlib ==> adler == Adlers.Adler(Adlers.INIT, src)
    }

    /** What has been given, and what waits in the output buffer, are together the stream so far. */
    ghost predicate Handed()
      reads `given, `out, `flushOfs, `flushRemaining, w.buf
    {
      && flushOfs + flushRemaining <= w.buf.Length && out == given + w.buf[flushOfs..flushOfs + flushRemaining]
      && (callback ==> flushRemaining == 0)
    }

    /** What a call has done to its buffer so far: bytes wait only if it is full. */
    ghost predicate Delivered(before: seq<byte>, size: nat)
      reads `given, `avail, `flushRemaining
    {
      before <= given && (!callback ==> |given| + avail == |before| + size && (flushRemaining > 0 ==> avail == 0))
    }

    lemma {:induction false} NoneDelivered()
      requires flushRemaining == 0
      ensures Delivered(given, avail)
    {
    }

    /** tdefl_flush_block: the stream then stands for everything recorded, given or not. */
    method FlushBlock(flush: Flush, ghost before: seq<byte>, ghost size: nat)
      requires Shape() && Window() && Recorded() && w.Valid() && Streamed()
      requires flush == Finish ==> Summed() && dictPos + lz.totalBytes == |src|
      requires Handed() && flushRemaining == 0 && Delivered(before, size)
      modifies this`out, this`dictPos, this`blockIndex, this`given, this`avail, this`flushOfs, this`flushRemaining
      modifies w, w.buf, t.litSizes, t.litCodes, t.distSizes, t.distCodes, lz, lz.buf, lz.litCount, lz.distCount
      ensures Window() && Recorded() && w.Valid() && lz.code == 1 && lz.totalBytes == 0
      ensures dictPos == old(dictPos + lz.totalBytes) && dictPos <= |src| && blockIndex > 0 && lz.Codes() == []
      ensures flush != Finish ==> Streamed()
      ensures flush in {SyncFlush, FullFlush} ==> Written() == BytesToBits(out)
      ensures flush == Finish ==> Ended()
      ensures Handed() && Delivered(before, size)
    {
      hide Linked, Window, Recorded, Streamed, LzBuffer.Valid, BitWriter.Valid, CodeTables.Valid, Complete, Apart,
        Summed,
        Delivered, Handed;
      AllGiven();
      WriteBlock(flush);
      HandOn(before, size);
    }

    lemma {:induction false} AllGiven()
      requires Handed() && flushRemaining == 0
      ensures given == out
    {
    }

    /** The block is written and closed. */
    method WriteBlock(flush: Flush)
      requires Shape() && Window() && Recorded() && w.Valid() && Streamed()
      requires flush == Finish ==> Summed() && dictPos + lz.totalBytes == |src|
      modifies this`out, this`dictPos, this`blockIndex, w, w.buf, t.litSizes, t.litCodes, t.distSizes, t.distCodes, lz,
        lz.buf, lz.litCount, lz.distCount
      ensures Window() && Recorded() && w.Valid() && lz.code == 1 && lz.totalBytes == 0
      ensures dictPos == old(dictPos + lz.totalBytes) && dictPos <= |src| && blockIndex > 0 && lz.Codes() == []
      ensures flush != Finish ==> Streamed()
      ensures flush in {SyncFlush, FullFlush} ==> Written() == BytesToBits(out)
      ensures flush == Finish ==> Ended()
      ensures w.len <= w.buf.Length && out == old(out) + w.buf[..w.len]
    {
      hide Linked, Ring, Parsed, Pending, Written, LzBuffer.Valid, BitWriter.Valid, CodeTables.Valid, Prefixed,
        Complete,
        Apart, HeadBits, Summed, Restartable, AllStart, InOrder, Base, Ended;
      ghost var n := lz.totalBytes;
      UpTo(src, Base(points), lookaheadPos, savedLit, savedMatchLen, savedMatchDist, dictPos + n);
      StillStart();
      WriteOut(flush);
      assert src[..|src|] == src;
      EndBlock();
      assert Written() + Due() == Written();
    }

    /**
     The callback takes the bytes of a block, or they are copied as far as there is room. With room for the whole
     output buffer the C code writes into the caller's buffer directly, which comes to the same.
     */
    method HandOn(ghost before: seq<byte>, ghost size: nat)
      requires w.len <= w.buf.Length && out == given + w.buf[..w.len] && Delivered(before, size)
      requires flushRemaining == 0
      modifies this`given, this`avail, this`flushOfs, this`flushRemaining
      ensures Handed() && Delivered(before, size)
    {
      var n := w.len;
      flushOfs, flushRemaining := 0, 0;
      if callback {
        given := given + w.buf[..n];
      } else {
        var taken := if n < avail then n else avail;
        given, avail := given + w.buf[..taken], avail - taken;
        FrontAndRest(w.buf, taken, n);
        if taken < n {
          flushOfs, flushRemaining := taken, n - taken;
        }
      }
    }

    /** The header if it is due, the block and the trailer. */
    method WriteOut(flush: Flush)
      requires Shape() && Window() && Recorded() && w.Valid() && Streamed()
      requires flush == Finish ==> Summed() && dictPos + lz.totalBytes == |src|
      modifies this`out, w, w.buf, t.litSizes, t.litCodes, t.distSizes, t.distCodes, lz`code, lz.buf, lz.litCount
      ensures w.len <= w.buf.Length && out == old(out) + w.buf[..w.len]
      ensures w.Valid() && lz.totalBytes == old(lz.totalBytes) && dictPos + lz.totalBytes <= |src|
      ensures flush != Finish ==>
        Prefixed(HeadBits(zlib), Written(), src[..dictPos + lz.totalBytes]) && Restartable(dictPos + lz.totalBytes)
      ensures flush in {SyncFlush, FullFlush} ==> Written() == BytesToBits(out)
      ensures flush == Finish ==> Ended()
    {
      hide Written, Due, Ring, Parsed, Pending, BytesToBits, ToBits, LzBuffer.Valid, CodeTables.Valid, Prefixed,
        Complete, Whole,
        Means, Apart, HeadBits, Trailer, BitWriter.Has, Window, Recorded, AllStart, InOrder, Base, Streamed,
          Restartable,
        Ended;
      ghost var base := ToBits(w.bitBuffer, w.bitsIn);
      ghost var wr := Written() + Due();
      StillStart();
      HeadInFront();
      w.Restart();
      PutHead(base);
      ghost var block := PutRecorded(flush, wr, base + Due());
      ghost var tail, pad := PutTrailer(flush, wr + block, base + Due() + block);
      Extend(flush, wr, base + Due(), block, tail, pad);
    }

    /** The bits that are no byte yet, and the header behind them if it is due. */
    lemma {:induction false} HeadInFront()
      requires w.Valid()
      ensures var base := ToBits(w.bitBuffer, w.bitsIn) + Due();
        Written() + Due() == BytesToBits(out) + base && |base| < 24 && (|Written() + Due()| - |base|) % 8 == 0
    {
      hide ToBits, BytesToBits;
      HeadSize(zlib);
    }

    /** A header that is still due stands before all points. */
    lemma {:induction false} StillStart()
      requires Streamed()
      ensures dictPos <= |src| && Prefixed(HeadBits(zlib), Written() + Due(), src[..dictPos])
      ensures InOrder(points) && Base(points) <= dictPos && AllStart(points, Written() + Due(), src, dictPos)
    {
      hide Prefixed, Written, HeadBits;
      if blockIndex > 0 {
        assert Written() + Due() == Written();
      }
    }

    /** The stream is longer by what the output buffer holds. */
    ghost method Extend(flush: Flush, wr: seq<bool>, base: seq<bool>, block: seq<bool>, tail: seq<bool>,
                        pad: seq<bool>)
      requires w.Valid() && w.Bits() == base + block + tail && wr == BytesToBits(out) + base
      requires Base(points) <= dictPos && dictPos + lz.totalBytes <= |src|
      requires Prefixed(HeadBits(zlib), wr, src[..dictPos])
      requires InOrder(points) && AllStart(points, wr, src, dictPos)
      requires Means(block, |wr|, flush == Finish, src[Base(points)..dictPos],
                     src[Base(points)..dictPos + lz.totalBytes])
      requires flush == NoFlush ==> tail == []
      requires flush == Finish ==> tail == pad + Trailer(zlib, adler) && |pad| < 8 && (|wr + block| + |pad|) % 8 == 0
      requires flush == Finish ==> Summed() && dictPos + lz.totalBytes == |src|
      requires flush in {SyncFlush, FullFlush} ==>
        (|wr + block| + |tail|) % 8 == 0 && forall o: seq<byte> :: Means(tail, |wr + block|, false, o, o)
      modifies this`out
      ensures w.len <= w.buf.Length && out == old(out) + w.buf[..w.len]
      ensures flush != Finish ==>
        Prefixed(HeadBits(zlib), Written(), src[..dictPos + lz.totalBytes]) && Restartable(dictPos + lz.totalBytes)
      ensures flush in {SyncFlush, FullFlush} ==> Written() == BytesToBits(out)
      ensures flush == Finish ==> Ended()
    {
      hide BytesToBits, ToBits, Prefixed, Complete, Means, HeadBits, Trailer, AllStart, InOrder, Base, AllResume;
      Grown(out, w, base, block, tail);
      out := out + w.buf[..w.len];
      var d, d2 := dictPos, dictPos + lz.totalBytes;
      assert flush == Finish ==> src[..d2] == src;
      MeansFrom(0, Base(points), block, |wr|, flush == Finish, src, d, d2);
      assert src[0..d] == src[..d] && src[0..d2] == src[..d2];
      Extended(zlib, adler, wr, block, tail, pad, src[..d], src[..d2], flush, Written(), out);
      ExtendedPoints(points, wr, block, tail, src, d, d2, flush, Written(), out);
    }

    /** The next block starts behind this one, with nothing recorded. */
    method EndBlock()
      requires Shape() && Base(points) <= dictPos && dictPos + lz.totalBytes <= |src|
      requires Pending(src, Base(points), lookaheadPos, savedLit, savedMatchLen, savedMatchDist,
        dictPos + lz.totalBytes)
      modifies this`dictPos, this`blockIndex, lz, lz.litCount, lz.distCount
      ensures dictPos == old(dictPos + lz.totalBytes) && Due() == [] && blockIndex > 0
      ensures Recorded() && lz.code == 1 && lz.totalBytes == 0 && lz.Codes() == []
    {
      hide Parsed, Pending, LzBuffer.Valid, CodeTables.Valid, Apart;
      dictPos := dictPos + lz.totalBytes;
      blockIndex := blockIndex + 1;
      lz.Reset();
      NoCodes(src, Base(points), dictPos);
    }

    // ---- compressing

    /** Between calls, before the end of the stream. */
    ghost predicate Valid()
      reads `src, `lookaheadPos, `lookaheadSize, `dictSize, `dictPos, `savedLit, `savedMatchLen, `savedMatchDist, `out,
        `blockIndex, `points, dict, next, hash, w, lz, lz.buf, lz.litCount, lz.distCount
    {
      Shape() && Window() && Linked() && Recorded() && w.Valid() && Streamed() && lz.code <= LZ_CODE_BUF_SIZE - 8
    }

    /** A step of the parse, and a block when the LZ code buffer is full or does not pay. */
    method ParseAndFlush(ghost before: seq<byte>, ghost size: nat)
      requires Valid() && lookaheadSize > 0 && Handed() && flushRemaining == 0 && Delivered(before, size)
      modifies this`lookaheadPos, this`lookaheadSize, this`dictSize, this`dictPos, this`savedLit, this`savedMatchLen,
        this`savedMatchDist, this`out, this`blockIndex, this`given, this`avail, this`flushOfs, this`flushRemaining
      modifies w, w.buf, t.litSizes, t.litCodes, t.distSizes, t.distCodes, lz, lz.buf, lz.litCount, lz.distCount
      ensures Valid() && lookaheadSize < old(lookaheadSize) && Handed() && Delivered(before, size)
    {
      hide Chosen, LazyRule, Follows, Base, Linked, Window, Recorded, Apart, CodeTables.Valid, BitWriter.Valid,
        Streamed, Delivered;
      ghost var dist, len := ParseStep();
      if lz.code > LZ_CODE_BUF_SIZE - 8
         || (lz.totalBytes > 31 * 1024 && (lz.code * 115 / 128 >= lz.totalBytes || forceRaw)) {
        FlushBlock(NoFlush, before, size);
      }
    }

    /**
     tdefl_compress_normal: takes in all of the input and, for a flush, leaves none of it in the lookahead, unless a
     block does not fit into the caller's buffer.
     */
    method CompressNormal(input: seq<byte>, flush: Flush) returns (i: nat)
      requires Valid() && Handed() && flushRemaining == 0
      modifies this`lookaheadPos, this`lookaheadSize, this`dictSize, this`dictPos, this`savedLit, this`savedMatchLen,
        this`savedMatchDist, this`out, this`blockIndex, this`src, this`given, this`avail, this`flushOfs,
        this`flushRemaining
      modifies dict, next, hash, w, w.buf, t.litSizes, t.litCodes, t.distSizes, t.distCodes, lz, lz.buf, lz.litCount,
        lz.distCount
      ensures Valid() && i <= |input| && src == old(src) + input[..i]
      ensures Handed() && Delivered(old(given), old(avail))
      ensures flushRemaining == 0 ==> i == |input| && (flush != NoFlush ==> lookaheadSize == 0 && savedMatchLen == 0)
      ensures flushRemaining > 0 ==> |input| - i + lookaheadSize < |input| + old(lookaheadSize)
    {
      hide Linked, Ring, Parsed, Pending, Apart, CodeTables.Valid, LzBuffer.Valid, BitWriter.Valid, Streamed, Handed,
        Delivered, Base;
      i := 0;
      NoneDelivered();
      assert old(src) + input[..0] == old(src);
      while i < |input| || (flush != NoFlush && lookaheadSize > 0)
        invariant 0 <= i <= |input| && Valid() && src == old(src) + input[..i]
        invariant Handed() && flushRemaining == 0 && Delivered(old(given), old(avail))
        invariant |input| - i + lookaheadSize <= |input| + old(lookaheadSize)
        decreases |input| - i + lookaheadSize
      {
        var j := Fill(input, i);
        assert input[..j] == input[..i] + input[i..j];
        i := j;
        if flush == NoFlush && lookaheadSize < LOOKAHEAD { break; }
        ParseAndFlush(old(given), old(avail));
        if flushRemaining > 0 { return; }
      }
      NoneSaved(src, Base(points), lookaheadPos, savedLit, savedMatchLen, savedMatchDist, dictPos + lz.totalBytes);
    }

    /** Between calls: at work, at the end of a stream, or refused. */
    ghost predicate Session()
      reads this, dict, next, hash, w, w.buf, lz, lz.buf, lz.litCount, lz.distCount
    {
      && Shape() && (finished ==> wantsToFinish) && (status != BadParam ==> Handed())
      && (status == Okay && !finished ==> Valid() && Summed())
      && (status != BadParam && finished ==> Ended())
      && (status == Done <==> status != BadParam && finished && flushRemaining == 0)
    }

    /**
     tdefl_compress. Whatever the sequence of calls, flushes included, and however small the caller's buffers, the
     bytes given at the end are a stream that stands for all the input taken in, in order. A flush gets everything out,
     up to a whole byte; a full flush leaves a point from which the rest can be read without what was before.
     */
    method Compress(input: seq<byte>, flush: Flush, to: Sink) returns (used: nat)
      requires Session()
      modifies this, dict, next, hash, w, w.buf, t.litSizes, t.litCodes, t.distSizes, t.distCodes, lz, lz.buf,
        lz.litCount, lz.distCount
      ensures Session()
      ensures wantsToFinish == (old(wantsToFinish) || (status != BadParam && flush == Finish))
      ensures status == BadParam <==>
              callback == to.Buffer? || old(status) != Okay || (old(wantsToFinish) && flush != Finish)
      ensures status == BadParam ==> used == 0 && given == old(given)
      ensures used <= |input| && src == old(src) + input[..used]
      ensures status != BadParam && to.Buffer? ==> Delivered(old(given), to.size)
      ensures status != BadParam && used < |input| ==> old(flushRemaining) > 0 || flushRemaining > 0
      ensures finished && !old(finished) ==> used == |input|
      ensures flush in {SyncFlush, FullFlush} && status == Okay && old(flushRemaining) == 0 && flushRemaining == 0 ==>
        used == |input| && Flushed(flush, given, old(points))
      ensures old(points) <= points && (flush != FullFlush ==> points == old(points))
      ensures status == Done ==> given == out && Ended() && finished
      ensures finished ==> flush == Finish || status == BadParam
      ensures callback && status != BadParam ==> used == |input| && (status == Done <==> flush == Finish)
      ensures status == Okay && flush == Finish && to.Buffer? && to.size > 0 ==>
        Nearer(old(lookaheadSize), old(finished), old(flushRemaining), used)
    {
      hide Valid, Summed, Shape, Ended, Flushed, Handed, Delivered, Nearer;
      used := 0;
      assert src + input[..0] == src;
      if callback == to.Buffer? || status != Okay || (wantsToFinish && flush != Finish) {
        status := BadParam;
        return;
      }
      wantsToFinish := wantsToFinish || flush == Finish;
      used := Proceed(input, flush, if to.Buffer? then to.size else 0);
    }

    /** A call in good order: what waits is given first, and only when nothing waits is input taken in. */
    method Proceed(input: seq<byte>, flush: Flush, size: nat) returns (used: nat)
      requires Session() && status == Okay && (wantsToFinish <==> flush == Finish)
      modifies this, dict, next, hash, w, w.buf, t.litSizes, t.litCodes, t.distSizes, t.distCodes, lz, lz.buf,
        lz.litCount, lz.distCount
      ensures Session() && status != BadParam && wantsToFinish == old(wantsToFinish)
      ensures used <= |input| && src == old(src) + input[..used] && Delivered(old(given), size)
      ensures used < |input| ==> old(flushRemaining) > 0 || flushRemaining > 0
      ensures finished && !old(finished) ==> used == |input|
      ensures flush in {SyncFlush, FullFlush} && old(flushRemaining) == 0 && flushRemaining == 0 ==>
        used == |input| && Flushed(flush, given, old(points))
      ensures old(points) <= points && (flush != FullFlush ==> points == old(points))
      ensures status == Done ==> given == out && Ended()
      ensures finished ==> flush == Finish
      ensures callback ==> used == |input| && (status == Done <==> flush == Finish)
      ensures status == Okay && flush == Finish && size > 0 ==>
        Nearer(old(lookaheadSize), old(finished), old(flushRemaining), used)
    {
      hide Linked, Valid, Summed, Shape, Ended, Flushed, Handed;
      used, avail := 0, size;
      assert src + input[..0] == src;
      if flushRemaining == 0 && !finished {
        used := TakeIn(input, flush);
      }
      if callback {
        ForCallback();
      }
      FlushOutput(old(given), size);
    }

    lemma {:induction false} ForCallback()
      requires Handed() && callback
      ensures flushRemaining == 0
    {
    }

    /** A call with nothing waiting: input is taken in, and a flush follows once all of it is. */
    method TakeIn(input: seq<byte>, flush: Flush) returns (used: nat)
      requires Valid() && Summed() && Handed() && flushRemaining == 0 && !finished
      modifies this`lookaheadPos, this`lookaheadSize, this`dictSize, this`dictPos, this`savedLit, this`savedMatchLen,
        this`savedMatchDist, this`out, this`blockIndex, this`src, this`adler, this`given, this`avail, this`flushOfs,
        this`flushRemaining, this`finished, this`points
      modifies dict, next, hash, w, w.buf, t.litSizes, t.litCodes, t.distSizes, t.distCodes, lz, lz.buf, lz.litCount,
        lz.distCount
      ensures used <= |input| && src == old(src) + input[..used]
      ensures Handed() && Delivered(old(given), old(avail))
      ensures if finished then Ended() else Valid() && Summed()
      ensures flush in {SyncFlush, FullFlush} && flushRemaining == 0 ==>
        Flushed(flush, out, old(points))
      ensures old(points) <= points && (flush != FullFlush ==> points == old(points))
      ensures used < |input| ==> flushRemaining > 0
      ensures finished ==> flush == Finish && used == |input|
      ensures flush == Finish && !finished ==> flushRemaining > 0
      ensures Nearer(old(lookaheadSize), false, 0, used) || flush != Finish
    {
      hide Linked, Valid, Apart, CodeTables.Valid, Ended, Handed, Delivered;
      ghost var before := src;
      used := CompressNormal(input, flush);
      SumUp(input[..used], before);
      if flush != NoFlush && lookaheadSize == 0 && used == |input| && flushRemaining == 0 {
        EndOfCall(flush, old(given), old(avail));
      }
    }

    /** The checksum takes in the input of a call. */
    method SumUp(input: seq<byte>, ghost before: seq<byte>)
      requires src == before + input && (zlib ==> adler == Adlers.Adler(Adlers.INIT, before))
      modifies this`adler
      ensures Summed()
    {
      hide Adlers.Adler;
      if zlib {
        var bytes := new byte[|input|](i requires 0 <= i < |input| => input[i]);
        assert bytes[..] == input && bytes[..|input|] == input;
        Adlers.AdlerConcat(Adlers.INIT, before, input);
        adler := Adlers.MzAdler32(adler, bytes, |input|);
      }
    }

    /** What a flush does once the lookahead is empty. */
    method EndOfCall(flush: Flush, ghost before: seq<byte>, ghost size: nat)
      requires Valid() && Summed() && flush != NoFlush && lookaheadSize == 0
      requires Handed() && flushRemaining == 0 && Delivered(before, size)
      modifies this`dictSize, this`dictPos, this`out, this`blockIndex, this`finished, this`given, this`avail,
        this`flushOfs, this`flushRemaining, this`points
      modifies next, hash, w, w.buf, t.litSizes, t.litCodes, t.distSizes, t.distCodes, lz, lz.buf, lz.litCount,
        lz.distCount
      ensures Handed() && Delivered(before, size) && finished == (flush == Finish)
      ensures if finished then Ended() && points == old(points)
              else Valid() && Summed() && Flushed(flush, out, old(points))
    {
      hide Linked, Recorded, Apart, CodeTables.Valid, BitWriter.Valid, Streamed, Ended, Window, Delivered, Handed,
        Written,
        Prefixed, HeadBits;
      AllRecorded();
      FlushBlock(flush, before, size);
      finished := flush == Finish;
      if flush != Finish {
        AllOut();
      }
      if flush == FullFlush {
        Forget();
      }
    }

    /** Once everything is recorded and written, the stream so far stands for all of the input. */
    lemma {:induction false} AllOut()
      requires Streamed() && Written() == BytesToBits(out) && dictPos == |src| && blockIndex > 0
      ensures Flushed(NoFlush, out, points)
    {
      hide Prefixed, Written, HeadBits, Restartable;
      assert src[..|src|] == src && Written() + Due() == Written();
    }

    /** What a full flush does to the window. */
    method Forget()
      requires Shape() && Window() && Recorded() && Streamed() && lookaheadSize == 0 && dictPos == |src|
      requires lz.Codes() == [] && lz.totalBytes == 0 && Written() == BytesToBits(out) && blockIndex > 0
      modifies this`dictSize, this`points, next, hash
      ensures Window() && Linked() && Recorded() && Streamed() && points == old(points) + [Point(|out|, |src|)]
      ensures forall i :: 0 <= i < hash.Length ==> hash[i] == 0
      ensures forall i :: 0 <= i < next.Length ==> next[i] == 0
    {
      hide Apart, CodeTables.Valid, Ring, LzBuffer.Valid, Parsed, Pending, Prefixed, Written, AllStart, InOrder, Base;
      ghost var d := dict[..];
      ClearChains();
      assert dict[..] == d;
      RingShrink(d, src, lookaheadPos - dictSize, lookaheadPos);
      NoneSaved(src, Base(points), lookaheadPos, savedLit, savedMatchLen, savedMatchDist, dictPos);
      dictSize := 0;
      NewPoint(points, out, src);
      points := points + [Point(|out|, |src|)];
      NoCodes(src, Base(points), dictPos);
      NoneWaits(src, Base(points), dictPos, savedLit, savedMatchDist);
      NoneChained(hash[..], next[..], src, Base(points));
    }

    method ClearChains()
      modifies next, hash
      ensures forall i :: 0 <= i < hash.Length ==> hash[i] == 0
      ensures forall i :: 0 <= i < next.Length ==> next[i] == 0
    {
      forall i | 0 <= i < hash.Length { hash[i] := 0; }
      forall i | 0 <= i < next.Length { next[i] := 0; }
    }

    method GiveOut()
      requires Handed()
      modifies this`given, this`avail, this`flushOfs, this`flushRemaining
      ensures Handed() && old(given) <= given && |given| + avail == old(|given| + avail)
      ensures flushRemaining == old(if flushRemaining <= avail then 0 else flushRemaining - avail)
      ensures flushRemaining > 0 ==> avail == 0
    {
      var n := if avail < flushRemaining then avail else flushRemaining;
      MiddleSplit(w.buf, flushOfs, flushOfs + n, flushOfs + flushRemaining);
      assert out == given + (w.buf[flushOfs..flushOfs + n] + w.buf[flushOfs + n..flushOfs + flushRemaining]);
      given := given + w.buf[flushOfs..flushOfs + n];
      flushOfs, flushRemaining, avail := flushOfs + n, flushRemaining - n, avail - n;
    }

    /** tdefl_flush_output_buffer: as much of what waits as there is room for. */
    method FlushOutput(ghost before: seq<byte>, ghost size: nat)
      requires Shape() && Handed() && before <= given && (!callback ==> |given| + avail == |before| + size)
      requires if finished then wantsToFinish && Ended() else Valid() && Summed()
      modifies this`given, this`avail, this`flushOfs, this`flushRemaining, this`status
      ensures Session() && Delivered(before, size)
      ensures flushRemaining == old(if flushRemaining <= avail then 0 else flushRemaining - avail)
      ensures status == (if finished && flushRemaining == 0 then Done else Okay)
      ensures flushRemaining == 0 ==> given == out && (finished ==> Ended())
    {
      hide Valid, Summed, Shape, Ended, Handed;
      GiveOut();
      if flushRemaining == 0 {
        AllGiven();
      }
      status := if finished && flushRemaining == 0 then Done else Okay;
    }

    /**
     How a call comes nearer to the end: input or lookahead that is left shrinks, or else the stream has become
     finished, or fewer bytes wait.
     */
    ghost predicate Nearer(lookahead: nat, wasFinished: bool, remaining: nat, used: nat)
      reads `lookaheadSize, `finished, `flushRemaining
    {
      || lookaheadSize < lookahead + used
      || (lookaheadSize == lookahead + used
          && ((finished && !wasFinished) || (finished == wasFinished && flushRemaining < remaining)))
    }

    /** With an empty lookahead, everything is recorded. */
    lemma {:induction false} AllRecorded()
      requires Window() && Recorded() && lookaheadSize == 0
      ensures dictPos + lz.totalBytes == |src|
    {
      NoneSaved(src, Base(points), lookaheadPos, savedLit, savedMatchLen, savedMatchDist, dictPos + lz.totalBytes);
    }
  }

  lemma {:induction false} KeyIs(src: seq<byte>, p: nat, h: bv15)
    requires p + 3 <= |src| && h == Key(src[p], src[p + 1], src[p + 2])
    ensures h as nat == KeyAt(src, p)
  {
  }

  /** The last two bytes, as they lie in the ring. */
  lemma {:induction false} LastTwo(dict: seq<byte>, src: seq<byte>, lo: nat)
    requires Ring(dict, src, lo) && lo + 2 <= |src|
    ensures |dict| == RING_SIZE
    ensures dict[(|src| - 2) % DICT_SIZE] == src[|src| - 2] && dict[(|src| - 1) % DICT_SIZE] == src[|src| - 1]
  {
    assert InPlace(dict, src, |src| - 2) && InPlace(dict, src, |src| - 1);
  }

  /** The last three. */
  lemma {:induction false} LastThree(dict: seq<byte>, src: seq<byte>, lo: nat)
    requires Ring(dict, src, lo) && lo + 3 <= |src|
    ensures |dict| == RING_SIZE
    ensures dict[(|src| - 3) % DICT_SIZE] == src[|src| - 3] && dict[(|src| - 2) % DICT_SIZE] == src[|src| - 2]
  {
    assert InPlace(dict, src, |src| - 3) && InPlace(dict, src, |src| - 2);
  }

  lemma {:induction false} MiddleSplit(a: array<byte>, i: nat, j: nat, k: nat)
    requires i <= j <= k <= a.Length
    ensures a[i..k] == a[i..j] + a[j..k]
  {
  }

  lemma {:induction false} FrontAndRest(a: array<byte>, i: nat, n: nat)
    requires i <= n <= a.Length
    ensures a[..n] == a[..i] + a[i..n]
  {
  }

  lemma {:induction false} ParsedFrom(src: seq<byte>, lo: nat, dictPos: nat, codes: seq<LzCode>, upTo: nat)
    requires Parsed(src, lo, dictPos, codes, upTo)
    ensures lo <= dictPos <= |src|
  {
  }

  lemma {:induction false} NoneWaits(src: seq<byte>, lo: nat, pos: nat, lit: byte, dist: nat)
    ensures Pending(src, lo, pos, lit, 0, dist, pos)
  {
  }

  lemma {:induction false} NoneSaved(src: seq<byte>, lo: nat, pos: nat, lit: byte, len: nat, dist: nat, upTo: nat)
    requires Pending(src, lo, pos, lit, len, dist, upTo)
    ensures pos == |src| ==> len == 0 && upTo == |src|
  {
  }

  lemma {:induction false} UpTo(src: seq<byte>, lo: nat, pos: nat, lit: byte, len: nat, dist: nat, upTo: nat)
    requires Pending(src, lo, pos, lit, len, dist, upTo)
    ensures upTo <= pos
  {
  }

  lemma {:induction false} NoCodes(src: seq<byte>, lo: nat, dictPos: nat)
    requires lo <= dictPos <= |src|
    ensures Parsed(src, lo, dictPos, [], dictPos)
  {
  }

  lemma {:induction false} HeadSize(zlib: bool)
    ensures |HeadBits(zlib)| == if zlib then 16 else 0
  {
  }

  /** The bytes of out are a whole stream for o: its header, its blocks, less than a byte of padding, its checksum. */
  ghost predicate Complete(zlib: bool, out: seq<byte>, o: seq<byte>)
  {
    exists wr: seq<bool> :: EndsIn(wr, Trailer(zlib, Adlers.Adler(Adlers.INIT, o)), out) && Whole(HeadBits(zlib), wr, o)
  }

  /** Less than a byte of padding follows wr, and then t. */
  ghost predicate EndsIn(wr: seq<bool>, t: seq<bool>, out: seq<byte>)
  {
    var b := BytesToBits(out);
    wr <= b && |wr| + |t| <= |b| < |wr| + |t| + 8 && b[|b| - |t|..] == t
  }

  lemma {:induction false} NothingDropped(w: BitWriter, base: seq<bool>)
    requires w.Has([], base) && |base| < 679150
    ensures w.Valid() && w.len < LIMIT && w.Bits() == base
  {
    hide BytesToBits, ToBits;
  }

  lemma {:induction false} Grown(out: seq<byte>, w: BitWriter, base: seq<bool>, block: seq<bool>, tail: seq<bool>)
    requires w.Valid() && w.len <= w.buf.Length && w.Bits() == base + block + tail
    ensures BytesToBits(out + w.buf[..w.len]) + ToBits(w.bitBuffer, w.bitsIn) == BytesToBits(out) + base + block + tail
  {
    hide BytesToBits, ToBits;
    BytesToBitsConcat(out, w.buf[..w.len]);
    var a, b, c := BytesToBits(out), BytesToBits(w.buf[..w.len]), ToBits(w.bitBuffer, w.bitsIn);
    assert b + c == base + block + tail;
    assert (a + b) + c == a + (b + c);
    assert a + (base + block + tail) == a + base + block + tail;
  }

  lemma {:induction false} Extended(zlib: bool, sum: nat, wr: seq<bool>, block: seq<bool>, tail: seq<bool>,
                                    pad: seq<bool>, o: seq<byte>, o2: seq<byte>, flush: Flush, wr2: seq<bool>,
                                    out: seq<byte>)
    requires Prefixed(HeadBits(zlib), wr, o) && Means(block, |wr|, flush == Finish, o, o2) && wr2 == wr + block + tail
    requires flush == NoFlush ==> tail == []
    requires flush == Finish ==> tail == pad + Trailer(zlib, sum) && |pad| < 8 && (|wr + block| + |pad|) % 8 == 0
    requires flush == Finish && zlib ==> sum == Adlers.Adler(Adlers.INIT, o2)
    requires flush in {SyncFlush, FullFlush} ==> Means(tail, |wr + block|, false, o2, o2)
    requires BytesToBits(out) <= wr2 && |wr2| < 8 * |out| + 8
    requires flush in {SyncFlush, FullFlush} ==> (|wr + block| + |tail|) % 8 == 0
    ensures flush != Finish ==> Prefixed(HeadBits(zlib), wr2, o2)
    ensures flush == Finish ==> Complete(zlib, out, o2)
    ensures flush != NoFlush ==> BytesToBits(out) == wr2
  {
    hide Prefixed, Means, Whole, BytesToBits, HeadBits, SumBits;
    if flush == Finish {
      LastBlock(HeadBits(zlib), wr, block, o, o2);
      var s := Trailer(zlib, sum);
      assert |wr2| == |wr + block| + |pad| + |s|;
      assert |wr2| == 8 * |out|;
      assert BytesToBits(out) == wr2;
      assert wr2 == wr + block + pad + s;
      assert wr2[|wr2| - |s|..] == s;
      assert EndsIn(wr + block, s, out);
    } else {
      NextBlock(HeadBits(zlib), wr, block, o, o2);
      if flush == NoFlush {
        assert wr2 == wr + block;
      } else {
        NextBlock(HeadBits(zlib), wr + block, tail, o2, o2);
        assert |wr2| == 8 * |out|;
      }
    }
  }

  /** The same for all points to start from. */
  lemma {:induction false} ExtendedPoints(ps: seq<Point>, wr: seq<bool>, block: seq<bool>, tail: seq<bool>,
                                          src: seq<byte>, d: nat, d2: nat, flush: Flush, wr2: seq<bool>,
                                          out: seq<byte>)
    requires AllStart(ps, wr, src, d) && InOrder(ps) && Base(ps) <= d <= d2 <= |src|
    requires Means(block, |wr|, flush == Finish, src[Base(ps)..d], src[Base(ps)..d2]) && wr2 == wr + block + tail
    requires flush == NoFlush ==> tail == []
    requires flush in {SyncFlush, FullFlush} ==> forall o: seq<byte> :: Means(tail, |wr + block|, false, o, o)
    requires flush == Finish ==> d2 == |src| && BytesToBits(out) == wr2
    ensures flush != Finish ==> AllStart(ps, wr2, src, d2)
    ensures flush == Finish ==> AllResume(ps, out, src)
  {
    hide AllStart, InOrder, Base, Means, AllResume, BytesToBits;
    if flush == Finish {
      assert src[Base(ps)..d2] == src[Base(ps)..];
      AllLast(ps, wr, block, src, d, out);
    } else {
      AllNext(ps, wr, block, src, d, d2);
      if flush == NoFlush {
        assert wr2 == wr + block;
      } else {
        AllNext(ps, wr + block, tail, src, d2, d2);
      }
    }
  }

  lemma {:induction false} EmptyParts()
    ensures Pow2(3) == 8 && TypeBits(false, 0) == ToBits(0, 3) && |TypeBits(false, 0)| == 3
    ensures LowBits(0, 16) == ToBits(0, 16) && LowBits(65535, 16) == ToBits(65535, 16) && BytesToBits([]) == []
  {
    hide ToBits, FromBits;
    EmptyType();
    hide TypeBits, Pow2;
    ToBitsMod(0, 16);
    ToBitsMod(65535, 16);
  }

  lemma {:induction false} EmptyType()
    ensures Pow2(3) == 8 && TypeBits(false, 0) == ToBits(0, 3)
  {
    hide ToBits;
    assert Pow2(1) == 2 && Pow2(2) == 4;
    ToBitsMod(0, 1);
    ToBitsMod(0, 2);
    ToBitsAppend(0, 1, 0, 2);
  }

  lemma {:induction false} ModOfSum(a: int, b: int)
    requires (a - b) % 8 == 0
    ensures (a + (8 - b % 8) % 8) % 8 == 0
  {
  }

  /**
   The bytes of the block, behind those from lo on, and the dictionary that still holds them if they
   are in the window.
   */
  lemma {:induction false} DataRecorded(dict: seq<byte>, src: seq<byte>, lo: nat, pos: nat, size: nat, lit: byte,
                                        len: nat, dist: nat, dictPos: nat, codes: seq<LzCode>, n: nat)
    returns (data: seq<byte>)
    requires size <= pos <= |src| && Ring(dict, src, pos - size) && size <= DICT_SIZE
    requires Parsed(src, lo, dictPos, codes, dictPos + n) && Pending(src, lo, pos, lit, len, dist, dictPos + n)
    ensures lo <= dictPos && dictPos + n <= pos && AllApply(codes, |src[lo..dictPos]|) && |data| == n
    ensures src[lo..dictPos + n] == src[lo..dictPos] + data
    ensures Expand(src[lo..dictPos], codes) == src[lo..dictPos] + data
    ensures pos - dictPos <= size ==> InWindow(dict, dictPos, data)
  {
    hide AllApply, Expand, TrueMatch;
    data := src[dictPos..dictPos + n];
    var o, p := src[lo..dictPos], src[..lo];
    assert p + o == src[..dictPos] && p + (o + data) == src[..dictPos + n];
    ExpandBehind(p, o, codes);
    assert (p + Expand(o, codes))[lo..] == Expand(o, codes) && (p + (o + data))[lo..] == o + data;
    if pos - dictPos <= size {
      forall i | 0 <= i < n
        ensures dict[(dictPos + i) % DICT_SIZE] == data[i]
      {
        assert InPlace(dict, src, dictPos + i);
      }
    }
  }

  lemma {:induction false} ContentIs(content: seq<bool>, final: bool, from: nat, out: seq<byte>, out2: seq<byte>,
                                     block: seq<bool>)
    requires Content(content, final, from, out, out2) && block == LowBits(if final then 1 else 0, 1) + content
    ensures Means(block, from, final, out, out2)
  {
  }

  lemma {:induction false} RingLonger(dict: seq<byte>, src: seq<byte>, pos: nat, size: nat, move: nat)
    requires size <= pos && Ring(dict, src, pos - size)
    ensures Ring(dict, src, pos + move - (if size + move < DICT_SIZE then size + move else DICT_SIZE))
      || pos + move > |src|
  {
  }

  lemma {:induction false} MatchRoom(src: seq<byte>, lo: nat, pos: nat, len: nat, dist: nat)
    requires NearMatch(src, lo, pos, len, dist)
    ensures 3 <= len && pos + len <= |src|
  {
  }

  lemma {:induction false} SavedLength(src: seq<byte>, lo: nat, pos: nat, lit: byte, len: nat, dist: nat, upTo: nat)
    requires Pending(src, lo, pos, lit, len, dist, upTo)
    ensures len == 0 || 3 <= len < 128
  {
  }

  lemma {:induction false} NothingYet(dict: seq<byte>)
    requires |dict| == RING_SIZE
    ensures Ring(dict, [], 0) && Parsed([], 0, 0, [], 0)
    ensures BytesToBits([]) + ToBits(0, 0) == []
    ensures forall zlib :: Prefixed(HeadBits(zlib), [] + HeadBits(zlib), [])
  {
    forall zlib
      ensures Prefixed(HeadBits(zlib), [] + HeadBits(zlib), [])
    {
      OnlyHeader(HeadBits(zlib));
      assert [] + HeadBits(zlib) == HeadBits(zlib);
    }
  }

  lemma {:induction false} NextPlace(n: nat)
    ensures (n + 1) % DICT_SIZE == (n % DICT_SIZE + 1) % DICT_SIZE
  {
  }
}
