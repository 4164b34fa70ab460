/** The LZ77 window: tdefl's mirrored ring dictionary, and the matches found in it. */
module LzParse {
  import opened Bits
  import opened LzCodes

  const LOOKAHEAD := 258
  const RING_SIZE := DICT_SIZE + LOOKAHEAD - 1

  // ---- the ring

  /** The ring holds the bytes of src from lo on, the first 257 places twice. */
  ghost predicate Ring(dict: seq<byte>, src: seq<byte>, lo: nat)
  {
    && |dict| == RING_SIZE && lo <= |src| <= lo + DICT_SIZE
    && forall i :: lo <= i < |src| ==> InPlace(dict, src, i)
  }

  ghost predicate InPlace(dict: seq<byte>, src: seq<byte>, i: nat)
    requires |dict| == RING_SIZE && i < |src|
  {
    && dict[i % DICT_SIZE] == src[i]
    && (i % DICT_SIZE < LOOKAHEAD - 1 ==> dict[DICT_SIZE + i % DICT_SIZE] == src[i])
  }

  /** Reading on behind the end of the ring, the mirror gives the bytes at its beginning. */
  lemma {:induction false} ReadRing(dict: seq<byte>, src: seq<byte>, lo: nat, i: nat, k: nat)
    requires Ring(dict, src, lo) && k < LOOKAHEAD && lo <= i + k < |src|
    ensures dict[i % DICT_SIZE + k] == src[i + k]
  {
    assert InPlace(dict, src, i + k);
    ModStep(i, k);
  }

  lemma {:induction false} ModStep(i: nat, k: nat)
    requires k < LOOKAHEAD
    ensures (i + k) % DICT_SIZE == if i % DICT_SIZE + k < DICT_SIZE then i % DICT_SIZE + k
      else i % DICT_SIZE + k - DICT_SIZE
  {
  }

  lemma {:induction false} ModApart(i: nat, j: nat)
    requires i < j < i + DICT_SIZE
    ensures i % DICT_SIZE != j % DICT_SIZE
  {
  }

  /** Storing the next byte overwrites only what has left the window. */
  lemma {:induction false} RingPush(dict: seq<byte>, src: seq<byte>, lo: nat, c: byte, dict2: seq<byte>, lo2: nat)
    requires Ring(dict, src, lo) && lo <= lo2 <= |src| < lo2 + DICT_SIZE
    requires var p := |src| % DICT_SIZE;
      dict2 == if p < LOOKAHEAD - 1 then dict[p := c][DICT_SIZE + p := c] else dict[p := c]
    ensures Ring(dict2, src + [c], lo2)
  {
    var s := src + [c];
    forall i | lo2 <= i < |s|
      ensures InPlace(dict2, s, i)
    {
      if i < |src| {
        assert InPlace(dict, src, i);
        ModApart(i, |src|);
      }
    }
  }

  /** A shorter window. */
  lemma {:induction false} RingShrink(dict: seq<byte>, src: seq<byte>, lo: nat, lo2: nat)
    requires Ring(dict, src, lo) && lo <= lo2 <= |src|
    ensures Ring(dict, src, lo2)
  {
  }

  // ---- matches

  /** The len bytes of src at pos are those dist before them. */
  ghost predicate Repeats(src: seq<byte>, pos: nat, len: nat, dist: nat)
  {
    && 1 <= dist <= pos && pos + len <= |src|
    && forall k :: pos <= k < pos + len ==> src[k] == src[k - dist]
  }

  /** A match that may be recorded. */
  ghost predicate TrueMatch(src: seq<byte>, pos: nat, len: nat, dist: nat)
  {
    CodeOk(Match(len, dist)) && Repeats(src, pos, len, dist)
  }

  /** Copying a true match gives the next bytes. */
  lemma {:induction false} CopyRepeats(src: seq<byte>, pos: nat, len: nat, dist: nat)
    requires Repeats(src, pos, len, dist)
    ensures CopyMatch(src[..pos], len, dist) == src[..pos + len]
    decreases len
  {
    if len > 0 {
      assert src[..pos] + [src[pos - dist]] == src[..pos + 1];
      CopyRepeats(src, pos + 1, len - 1, dist);
    }
  }

  lemma {:induction false} RepeatsLonger(src: seq<byte>, more: seq<byte>, pos: nat, len: nat, dist: nat)
    requires Repeats(src, pos, len, dist)
    ensures Repeats(src + more, pos, len, dist)
  {
  }

  /** A position found in a chain, as far as its distance is within bounds. */
  lemma {:induction false} ProbePlace(lookaheadPos: nat, probe: u16, dist: nat)
    requires dist == (lookaheadPos - probe) % 65536 && dist <= lookaheadPos
    ensures probe % DICT_SIZE == (lookaheadPos - dist) % DICT_SIZE
  {
    var q := (lookaheadPos - probe) / 65536;
    assert lookaheadPos - dist == probe + 2 * q * DICT_SIZE;
    ModMultiple(probe, 2 * q);
  }

  lemma {:induction false} ModMultiple(x: int, q: int)
    ensures (x + q * DICT_SIZE) % DICT_SIZE == x % DICT_SIZE
  {
  }

  // ---- the candidates

  /** What a chain is walked for: where the lookahead starts, and how far back the window reaches. */
  datatype Walk = Walk(next: seq<u16>, lookaheadPos: nat, maxDist: nat)

  /** The distances of the first n candidates that the chain from place p leads to. */
  ghost function Candidates(w: Walk, p: nat, n: nat): (v: seq<nat>)
    requires |w.next| == DICT_SIZE && p < DICT_SIZE
    ensures |v| <= n
    decreases n
  {
    if n == 0 || EndsAt(w, p) then [] else [DistAt(w, p)] + Candidates(w, w.next[p] % DICT_SIZE, n - 1)
  }

  /** How far back the place behind p in the chain is, as 16 bits tell it. */
  ghost function DistAt(w: Walk, p: nat): nat
    requires |w.next| == DICT_SIZE && p < DICT_SIZE
  {
    (w.lookaheadPos - w.next[p]) % 65536
  }

  /** The chain ends where nothing follows, or nothing that is behind the lookahead and in the window. */
  ghost predicate EndsAt(w: Walk, p: nat)
    requires |w.next| == DICT_SIZE && p < DICT_SIZE
  {
    w.next[p] == 0 || DistAt(w, p) > w.maxDist || DistAt(w, p) == 0
  }

  /** The candidates v lead from place p to place q. */
  ghost predicate LeadsTo(w: Walk, p: nat, v: seq<nat>, q: nat)
    requires |w.next| == DICT_SIZE && p < DICT_SIZE && q < DICT_SIZE
    decreases v
  {
    if v == [] then p == q
    else !EndsAt(w, p) && v[0] == DistAt(w, p) && LeadsTo(w, w.next[p] % DICT_SIZE, v[1..], q)
  }

  lemma {:induction false} LeadsFurther(w: Walk, p: nat, v: seq<nat>, q: nat)
    requires |w.next| == DICT_SIZE && p < DICT_SIZE && q < DICT_SIZE && LeadsTo(w, p, v, q) && !EndsAt(w, q)
    ensures LeadsTo(w, p, v + [DistAt(w, q)], w.next[q] % DICT_SIZE)
    decreases v
  {
    if v != [] {
      LeadsFurther(w, w.next[p] % DICT_SIZE, v[1..], q);
      assert (v + [DistAt(w, q)])[1..] == v[1..] + [DistAt(w, q)];
    }
  }

  /** The walk has seen the first n candidates, or all there are. */
  lemma {:induction false} SeenAll(w: Walk, p: nat, v: seq<nat>, q: nat, n: nat)
    requires |w.next| == DICT_SIZE && p < DICT_SIZE && q < DICT_SIZE && LeadsTo(w, p, v, q)
    requires |v| >= n || EndsAt(w, q)
    ensures Candidates(w, p, n) <= v
    decreases v
  {
    if v != [] && n > 0 {
      SeenAll(w, w.next[p] % DICT_SIZE, v[1..], q, n - 1);
      assert v == [v[0]] + v[1..];
    }
  }

  /** No candidate of v agrees with the lookahead in more than len bytes. */
  ghost predicate NoneLonger(src: seq<byte>, pos: nat, v: seq<nat>, len: nat)
  {
    forall i :: 0 <= i < |v| ==> !Repeats(src, pos, len + 1, v[i])
  }

  lemma {:induction false} NoneLongerMore(src: seq<byte>, pos: nat, v: seq<nat>, len: nat, d: nat, len2: nat)
    requires NoneLonger(src, pos, v, len) && len <= len2 && !Repeats(src, pos, len2 + 1, d)
    ensures NoneLonger(src, pos, v + [d], len2)
  {
    forall i | 0 <= i < |v|
      ensures !Repeats(src, pos, len2 + 1, v[i])
    {
      assert Repeats(src, pos, len2 + 1, v[i]) ==> Repeats(src, pos, len + 1, v[i]);
    }
  }

  /** A byte that differs in the ring differs in the source. */
  lemma {:induction false} Differing(dict: seq<byte>, src: seq<byte>, lo: nat, pos: nat, dist: nat, k: nat, len: nat)
    requires Ring(dict, src, lo) && 1 <= dist && lo + dist <= pos && k < len && pos + k < |src| && k < LOOKAHEAD
    requires dict[pos % DICT_SIZE + k] != dict[(pos - dist) % DICT_SIZE + k]
    ensures !Repeats(src, pos, len, dist)
  {
    ReadRing(dict, src, lo, pos, k);
    ReadRing(dict, src, lo, pos - dist, k);
    assert src[pos + k] != src[pos + k - dist];
  }

  /** A walk so far: it has led from the lookahead to place q past v, none of which is longer than len. */
  ghost predicate Walked(w: Walk, src: seq<byte>, v: seq<nat>, q: nat, len: nat)
  {
    && |w.next| == DICT_SIZE && q < DICT_SIZE && LeadsTo(w, w.lookaheadPos % DICT_SIZE, v, q)
    && NoneLonger(src, w.lookaheadPos, v, len)
  }

  /** TDEFL_PROBE: one step along the chain. */
  method Probe(dict: array<byte>, next: array<u16>, probePos0: nat, matchLen: nat, c0: byte, c1: byte,
               lookaheadPos: nat, maxDist: nat)
    returns (stop: bool, hit: bool, probePos: nat, dist: nat)
    requires dict.Length == RING_SIZE && next.Length == DICT_SIZE && probePos0 < DICT_SIZE && 1 <= matchLen < LOOKAHEAD
    requires maxDist <= lookaheadPos
    ensures probePos < DICT_SIZE
    ensures !stop ==> dist <= maxDist && probePos == (lookaheadPos - dist) % DICT_SIZE
    ensures var w := Walk(next[..], lookaheadPos, maxDist);
      && (if stop then EndsAt(w, probePos0) && probePos == probePos0
          else dist == DistAt(w, probePos0) && probePos == next[probePos0] % DICT_SIZE
               && (dist != 0 ==> !EndsAt(w, probePos0)))
    ensures !stop ==> (hit <==> dict[probePos + matchLen] == c0 && dict[probePos + matchLen - 1] == c1)
  {
    var nextProbePos := next[probePos0];
    stop, hit, probePos := false, false, probePos0;
    dist := (lookaheadPos - nextProbePos) % 65536;
    if nextProbePos == 0 || dist > maxDist {
      stop := true;
    } else {
      ProbePlace(lookaheadPos, nextProbePos, dist);
      probePos := nextProbePos % DICT_SIZE;
      hit := dict[probePos + matchLen] == c0 && dict[probePos + matchLen - 1] == c1;
    }
  }

  /** The window that is searched, and the two bytes that a longer match must have. */
  ghost predicate Searching(dict: seq<byte>, w: Walk, src: seq<byte>, matchLen: nat, c0: byte, c1: byte)
  {
    && |w.next| == DICT_SIZE && w.maxDist <= w.lookaheadPos && Ring(dict, src, w.lookaheadPos - w.maxDist)
    && 1 <= matchLen < LOOKAHEAD && w.lookaheadPos + matchLen < |src|
    && dict[w.lookaheadPos % DICT_SIZE + matchLen] == c0 && dict[w.lookaheadPos % DICT_SIZE + matchLen - 1] == c1
  }

  lemma {:induction false} Starts(dict: seq<byte>, w: Walk, src: seq<byte>, matchLen: nat)
    requires |w.next| == DICT_SIZE && w.maxDist <= w.lookaheadPos && Ring(dict, src, w.lookaheadPos - w.maxDist)
    requires 1 <= matchLen < LOOKAHEAD && w.lookaheadPos + matchLen < |src|
    ensures |dict| == RING_SIZE
    ensures var pos := w.lookaheadPos % DICT_SIZE;
      Searching(dict, w, src, matchLen, dict[pos + matchLen], dict[pos + matchLen - 1])
  {
  }

  /** A candidate without the two bytes is not longer. */
  lemma {:induction false} PassedBy(dict: seq<byte>, w: Walk, src: seq<byte>, v: seq<nat>, q: nat, matchLen: nat,
                                    c0: byte, c1: byte)
    requires Searching(dict, w, src, matchLen, c0, c1) && Walked(w, src, v, q, matchLen)
    requires DistAt(w, q) <= w.maxDist && w.next[q] != 0
    requires var p := (w.lookaheadPos - DistAt(w, q)) % DICT_SIZE;
      !(dict[p + matchLen] == c0 && dict[p + matchLen - 1] == c1)
    ensures !EndsAt(w, q) && Walked(w, src, v + [DistAt(w, q)], w.next[q] % DICT_SIZE, matchLen)
  {
    hide Ring, Repeats;
    RingLength(dict, src, w.lookaheadPos - w.maxDist);
    var d := DistAt(w, q);
    var p, pos := (w.lookaheadPos - d) % DICT_SIZE, w.lookaheadPos % DICT_SIZE;
    assert d != 0;
    if dict[p + matchLen] != c0 {
      Differing(dict, src, w.lookaheadPos - w.maxDist, w.lookaheadPos, d, matchLen, matchLen + 1);
    } else {
      Differing(dict, src, w.lookaheadPos - w.maxDist, w.lookaheadPos, d, matchLen - 1, matchLen + 1);
    }
    LeadsFurther(w, pos, v, q);
    NoneLongerMore(src, w.lookaheadPos, v, matchLen, d, matchLen);
  }

  /**
   A probe, and what it means for the walk: the chain has ended, the candidate is passed by, or it
   looks promising.
   */
  method WalkOn(dict: array<byte>, next: array<u16>, probePos0: nat, matchLen: nat, c0: byte, c1: byte,
                lookaheadPos: nat, maxDist: nat, ghost src: seq<byte>, ghost v0: seq<nat>)
    returns (stop: bool, hit: bool, probePos: nat, dist: nat, ghost v: seq<nat>)
    requires next.Length == DICT_SIZE
      && Searching(dict[..], Walk(next[..], lookaheadPos, maxDist), src, matchLen, c0, c1)
    requires Walked(Walk(next[..], lookaheadPos, maxDist), src, v0, probePos0, matchLen)
    ensures probePos < DICT_SIZE && (!stop ==> dist <= maxDist && probePos == (lookaheadPos - dist) % DICT_SIZE)
    ensures var w := Walk(next[..], lookaheadPos, maxDist);
      if stop then v == v0 && EndsAt(w, probePos0)
      else if hit then v == v0 && Promising(w, probePos0, dist, probePos)
      else v == v0 + [dist] && Walked(w, src, v, probePos, matchLen)
  {
    hide Ring, LeadsTo, NoneLonger, Candidates;
    RingLength(dict[..], src, lookaheadPos - maxDist);
    stop, hit, probePos, dist := Probe(dict, next, probePos0, matchLen, c0, c1, lookaheadPos, maxDist);
    v := v0;
    if !stop && !hit {
      PassedBy(dict[..], Walk(next[..], lookaheadPos, maxDist), src, v0, probePos0, matchLen, c0, c1);
      v := v0 + [dist];
    }
  }

  /** The place behind prev in the chain; with distance 0 the chain ends at prev. */
  ghost predicate Promising(w: Walk, prev: nat, dist: nat, place: nat)
  {
    && |w.next| == DICT_SIZE && prev < DICT_SIZE && dist == DistAt(w, prev) && place == w.next[prev] % DICT_SIZE
    && (EndsAt(w, prev) <==> dist == 0)
  }

  /** The inner loop: probes, three for each count, until one looks promising. */
  method NextProbe(dict: array<byte>, next: array<u16>, probesLeft0: nat, probePos0: nat, matchLen: nat, c0: byte,
                   c1: byte, lookaheadPos: nat, maxDist: nat, ghost src: seq<byte>, ghost v0: seq<nat>)
    returns (stop: bool, probesLeft: nat, probePos: nat, dist: nat, ghost v: seq<nat>, ghost prev: nat)
    requires next.Length == DICT_SIZE && probePos0 < DICT_SIZE
      && Searching(dict[..], Walk(next[..], lookaheadPos, maxDist), src, matchLen, c0, c1)
    requires Walked(Walk(next[..], lookaheadPos, maxDist), src, v0, probePos0, matchLen) && probesLeft0 > 0
    ensures probePos < DICT_SIZE && probesLeft < probesLeft0
    ensures !stop ==> probesLeft > 0 && dist <= maxDist && probePos == (lookaheadPos - dist) % DICT_SIZE
    ensures |v| - |v0| >= probesLeft0 - probesLeft - 1
    ensures var w := Walk(next[..], lookaheadPos, maxDist);
      && Walked(w, src, v, prev, matchLen)
      && (if stop then probesLeft == 0 || EndsAt(w, prev) else Promising(w, prev, dist, probePos))
  {
    hide Searching, Walked, EndsAt, Promising, DistAt;
    probesLeft, probePos, dist := probesLeft0, probePos0, 0;
    v, prev := v0, probePos0;
    while true
      invariant probePos < DICT_SIZE && 0 < probesLeft <= probesLeft0 && prev == probePos
      invariant |v| - |v0| >= probesLeft0 - probesLeft
        && Walked(Walk(next[..], lookaheadPos, maxDist), src, v, prev, matchLen)
      decreases probesLeft
    {
      probesLeft := probesLeft - 1;
      if probesLeft == 0 { return true, probesLeft, probePos, dist, v, prev; }
      var hit;
      stop, hit, probePos, dist, v := WalkOn(dict, next, probePos, matchLen, c0, c1, lookaheadPos, maxDist, src, v);
      if stop || hit { return; }
      prev := probePos;
      stop, hit, probePos, dist, v := WalkOn(dict, next, probePos, matchLen, c0, c1, lookaheadPos, maxDist, src, v);
      if stop || hit { return; }
      prev := probePos;
      stop, hit, probePos, dist, v := WalkOn(dict, next, probePos, matchLen, c0, c1, lookaheadPos, maxDist, src, v);
      if stop || hit { return; }
      prev := probePos;
    }
  }

  /** How long the bytes at the two places agree. */
  method Compare(dict: array<byte>, pos: nat, probePos: nat, maxMatchLen: nat) returns (probeLen: nat)
    requires dict.Length == RING_SIZE && pos < DICT_SIZE && probePos < DICT_SIZE && maxMatchLen <= LOOKAHEAD
    ensures probeLen <= maxMatchLen && dict[pos..pos + probeLen] == dict[probePos..probePos + probeLen]
    ensures probeLen < maxMatchLen ==> dict[pos + probeLen] != dict[probePos + probeLen]
  {
    probeLen := 0;
    while probeLen < maxMatchLen
      invariant 0 <= probeLen <= maxMatchLen && dict[pos..pos + probeLen] == dict[probePos..probePos + probeLen]
    {
      if dict[pos + probeLen] != dict[probePos + probeLen] { break; }
      assert dict[pos..pos + probeLen + 1] == dict[pos..pos + probeLen] + [dict[pos + probeLen]];
      assert dict[probePos..probePos + probeLen + 1]
        == dict[probePos..probePos + probeLen] + [dict[probePos + probeLen]];
      probeLen := probeLen + 1;
    }
  }

  /** Bytes that agree in the ring agree in the source. */
  lemma {:induction false} Agreeing(dict: seq<byte>, src: seq<byte>, lo: nat, pos: nat, dist: nat, len: nat)
    requires Ring(dict, src, lo) && 1 <= dist && lo + dist <= pos && pos + len <= |src| && len <= LOOKAHEAD
    requires dict[pos % DICT_SIZE..pos % DICT_SIZE + len]
      == dict[(pos - dist) % DICT_SIZE..(pos - dist) % DICT_SIZE + len]
    ensures Repeats(src, pos, len, dist)
  {
    var a, b := dict[pos % DICT_SIZE..pos % DICT_SIZE + len],
      dict[(pos - dist) % DICT_SIZE..(pos - dist) % DICT_SIZE + len];
    forall i | pos <= i < pos + len
      ensures src[i] == src[i - dist]
    {
      var k := i - pos;
      ReadRing(dict, src, lo, pos, k);
      ReadRing(dict, src, lo, pos - dist, k);
      assert a[k] == b[k];
    }
  }

  lemma {:induction false} RingLength(dict: seq<byte>, src: seq<byte>, lo: nat)
    requires Ring(dict, src, lo)
    ensures |dict| == RING_SIZE
  {
  }

  lemma {:induction false} Found(dict: seq<byte>, src: seq<byte>, lo: nat, pos: nat, dist: nat, len: nat)
    requires Ring(dict, src, lo) && 1 <= dist && lo + dist <= pos && pos + len <= |src| && MIN_MATCH <= len <= LOOKAHEAD
    requires dict[pos % DICT_SIZE..pos % DICT_SIZE + len]
      == dict[(pos - dist) % DICT_SIZE..(pos - dist) % DICT_SIZE + len]
    ensures TrueMatch(src, pos, len, dist)
  {
    Agreeing(dict, src, lo, pos, dist, len);
  }

  /** A promising candidate has been compared. */
  lemma {:induction false} Compared(dict: seq<byte>, w: Walk, src: seq<byte>, v: seq<nat>, prev: nat, place: nat,
                                    dist: nat, matchLen: nat, probeLen: nat, maxMatchLen: nat)
    requires w.maxDist <= w.lookaheadPos && |src| == w.lookaheadPos + maxMatchLen && maxMatchLen <= LOOKAHEAD
      && Ring(dict, src, w.lookaheadPos - w.maxDist)
    requires Walked(w, src, v, prev, matchLen) && Promising(w, prev, dist, place) && 0 < dist <= w.maxDist
    requires place == (w.lookaheadPos - dist) % DICT_SIZE && probeLen <= maxMatchLen && matchLen < maxMatchLen
    requires probeLen < maxMatchLen ==> dict[w.lookaheadPos % DICT_SIZE + probeLen] != dict[place + probeLen]
    ensures Walked(w, src, v + [dist], place, if probeLen > matchLen then probeLen else matchLen)
  {
    hide Ring;
    var best := if probeLen > matchLen then probeLen else matchLen;
    LeadsFurther(w, w.lookaheadPos % DICT_SIZE, v, prev);
    if probeLen < maxMatchLen {
      Differing(dict, src, w.lookaheadPos - w.maxDist, w.lookaheadPos, dist, probeLen, best + 1);
    }
    NoneLongerMore(src, w.lookaheadPos, v, matchLen, dist, best);
  }

  /** The first n candidates are all no longer than len. */
  ghost predicate Beats(w: Walk, src: seq<byte>, n: nat, len: nat)
    requires |w.next| == DICT_SIZE
  {
    NoneLonger(src, w.lookaheadPos, Candidates(w, w.lookaheadPos % DICT_SIZE, n), len)
  }

  lemma {:induction false} WalkDone(w: Walk, src: seq<byte>, v: seq<nat>, q: nat, len: nat, n: nat)
    requires Walked(w, src, v, q, len) && (|v| >= n || EndsAt(w, q))
    ensures Beats(w, src, n, len)
  {
    hide Repeats;
    SeenAll(w, w.lookaheadPos % DICT_SIZE, v, q, n);
  }

  /** Nothing in the source is longer than all of the lookahead. */
  lemma {:induction false} WholeBeats(w: Walk, src: seq<byte>, n: nat, len: nat)
    requires |w.next| == DICT_SIZE && |src| <= w.lookaheadPos + len
    ensures Beats(w, src, n, len)
  {
  }

  lemma {:induction false} WalkStarts(w: Walk, src: seq<byte>, len: nat)
    requires |w.next| == DICT_SIZE
    ensures Walked(w, src, [], w.lookaheadPos % DICT_SIZE, len)
  {
  }

  /** The result is the one given, or a longer true match in the window. */
  ghost predicate Improves(src: seq<byte>, pos: nat, maxDist: nat, dist0: nat, len0: nat, dist: nat, len: nat)
  {
    || (dist == dist0 && len == len0)
    || (len > len0 && dist <= maxDist && TrueMatch(src, pos, len, dist))
  }

  /**
   tdefl_find_match, byte by byte. Whatever the chains hold, a match it returns is longer than the one it was given,
   is a true match, and lies in the window; and none of the first probes - 1 candidates of the chain is longer.
   */
  method FindMatch(dict: array<byte>, next: array<u16>, probes: nat, lookaheadPos: nat, maxDist: nat, maxMatchLen: nat,
                   matchDist0: nat, matchLen0: nat, ghost src: seq<byte>)
    returns (matchDist: nat, matchLen: nat)
    requires maxDist <= lookaheadPos && |src| == lookaheadPos + maxMatchLen
      && Ring(dict[..], src, lookaheadPos - maxDist)
    requires next.Length == DICT_SIZE && probes > 0
    requires maxMatchLen <= LOOKAHEAD && 2 <= matchLen0 < LOOKAHEAD
    ensures Improves(src, lookaheadPos, maxDist, matchDist0, matchLen0, matchDist, matchLen)
    ensures Beats(Walk(next[..], lookaheadPos, maxDist), src, probes - 1, matchLen)
  {
    hide Ring, Searching, TrueMatch, Walked, EndsAt, Promising, Beats, DistAt, Repeats, CodeOk, NoneLonger, LeadsTo,
      Candidates;
    RingLength(dict[..], src, lookaheadPos - maxDist);
    var pos := lookaheadPos % DICT_SIZE;
    var probePos: nat, probesLeft := pos, probes;
    matchDist, matchLen := matchDist0, matchLen0;
    var c0, c1 := dict[pos + matchLen], dict[pos + matchLen - 1];
    ghost var w, v: seq<nat>, prev := Walk(next[..], lookaheadPos, maxDist), [], 0;
    if maxMatchLen <= matchLen {
      WholeBeats(w, src, probes - 1, matchLen);
      return;
    }
    WalkStarts(w, src, matchLen);
    Starts(dict[..], w, src, matchLen);
    while true
      invariant 0 <= probePos < DICT_SIZE && probesLeft > 0 && 2 <= matchLen < maxMatchLen
      invariant Improves(src, lookaheadPos, maxDist, matchDist0, matchLen0, matchDist, matchLen)
      invariant Searching(dict[..], w, src, matchLen, c0, c1)
      invariant Walked(w, src, v, probePos, matchLen) && |v| >= probes - probesLeft
      decreases probesLeft
    {
      var stop, dist;
      stop, probesLeft, probePos, dist, v, prev :=
        NextProbe(dict, next, probesLeft, probePos, matchLen, c0, c1, lookaheadPos, maxDist, src, v);
      if stop || dist == 0 {
        EndOfWalk(w, src, v, prev, probePos, dist, matchLen, probes - 1, stop);
        return;
      }
      var probeLen := Compare(dict, pos, probePos, maxMatchLen);
      Compared(dict[..], w, src, v, prev, probePos, dist, matchLen, probeLen, maxMatchLen);
      v := v + [dist];
      if probeLen > matchLen {
        assert dict[..][pos..pos + probeLen] == dict[..][probePos..probePos + probeLen];
        Found(dict[..], src, lookaheadPos - maxDist, lookaheadPos, dist, probeLen);
        matchDist, matchLen := dist, probeLen;
        if matchLen == maxMatchLen {
          WholeBeats(w, src, probes - 1, matchLen);
          return;
        }
        c0, c1 := dict[pos + matchLen], dict[pos + matchLen - 1];
        Starts(dict[..], w, src, matchLen);
      }
    }
  }

  lemma {:induction false} EndOfWalk(w: Walk, src: seq<byte>, v: seq<nat>, prev: nat, place: nat, dist: nat, len: nat,
                                     n: nat, stop: bool)
    requires Walked(w, src, v, prev, len)
    requires if stop then |v| >= n || EndsAt(w, prev) else dist == 0 && Promising(w, prev, dist, place)
    ensures Beats(w, src, n, len)
  {
    WalkDone(w, src, v, prev, len, n);
  }

  /** The byte before pos is repeated len times, and not once more. */
  ghost predicate LongestRun(src: seq<byte>, pos: nat, len: nat)
  {
    Repeats(src, pos, len, 1) && !Repeats(src, pos, len + 1, 1)
  }

  /** The run that TDEFL_RLE_MATCHES looks for: how often the byte before the lookahead is repeated. */
  method RunLength(dict: array<byte>, lookaheadPos: nat, dictSize: nat, lookaheadSize: nat, ghost src: seq<byte>)
    returns (len: nat)
    requires 1 <= dictSize <= lookaheadPos && |src| == lookaheadPos + lookaheadSize
      && Ring(dict[..], src, lookaheadPos - dictSize)
    requires lookaheadSize <= LOOKAHEAD
    ensures len <= lookaheadSize && Repeats(src, lookaheadPos, len, 1) && LongestRun(src, lookaheadPos, len)
  {
    var curPos := lookaheadPos % DICT_SIZE;
    var c := dict[(lookaheadPos - 1) % DICT_SIZE];
    assert (lookaheadPos - 1) % DICT_SIZE + 0 == (lookaheadPos - 1) % DICT_SIZE;
    ReadRing(dict[..], src, lookaheadPos - dictSize, lookaheadPos - 1, 0);
    assert c == src[lookaheadPos - 1];
    len := 0;
    while len < lookaheadSize
      invariant 0 <= len <= lookaheadSize && forall k :: lookaheadPos <= k < lookaheadPos + len ==> src[k] == c
    {
      ReadRing(dict[..], src, lookaheadPos - dictSize, lookaheadPos, len);
      if dict[curPos + len] != c {
        assert src[lookaheadPos + len] != src[lookaheadPos + len - 1];
        break;
      }
      len := len + 1;
    }
  }

  // ---- the lazy rule

  /** What a step of the parse records, the match it keeps back (of length 0 if none), and how far it moves on. */
  datatype Move = Move(codes: seq<LzCode>, len: nat, dist: nat, steps: nat)

  /**
   A match kept back gives way to a longer one that starts a byte later, and is recorded otherwise. A match that is
   found with none kept back is kept back itself, unless the parse is greedy or the match long.
   */
  function LazyRule(lit: byte, keptLen: nat, keptDist: nat, here: byte, len: nat, dist: nat, greedy: bool): Move
    requires keptLen != 0 ==> keptLen >= 2
  {
    if keptLen > 0 && len > keptLen then
      (if len >= 128 then Move([Literal(lit), Match(len, dist)], 0, dist, len) else Move([Literal(lit)], len, dist, 1))
    else if keptLen > 0 then Move([Match(keptLen, keptDist)], 0, keptDist, keptLen - 1)
    else if dist == 0 then Move([Literal(here)], 0, dist, 1)
    else if greedy || len >= 128 then Move([Match(len, dist)], 0, dist, len)
    else Move([], len, dist, 1)
  }

  /** So of two matches at neighbouring places the longer one is recorded, and with it all bytes up to its end. */
  lemma {:induction false} LongerWins(before: byte, a: byte, b: byte, len: nat, dist: nat, len2: nat, dist2: nat)
    requires 3 <= len < 128 && dist > 0
    ensures var m := LazyRule(before, 0, 0, a, len, dist, false);
      var n := LazyRule(a, m.len, m.dist, b, len2, dist2, false);
      if len2 <= len then m.codes + n.codes == [Match(len, dist)] && m.steps + n.steps == len && n.len == 0
      else m.codes + n.codes == [Literal(a)] + (if len2 < 128 then [] else [Match(len2, dist2)])
           && (len2 < 128 ==> n.len == len2 && n.dist == dist2)
  {
  }

  // ---- what has been recorded

  /** The codes, behind the first dictPos bytes, stand for src up to upTo, and refer to nothing before lo. */
  ghost predicate Parsed(src: seq<byte>, lo: nat, dictPos: nat, codes: seq<LzCode>, upTo: nat)
  {
    && lo <= dictPos <= upTo <= |src| && upTo == dictPos + TotalLen(codes)
    && AllApply(codes, dictPos - lo) && AllApply(codes, dictPos) && Expand(src[..dictPos], codes) == src[..upTo]
  }

  /** A saved match starts one byte before pos, and its byte is not recorded yet. */
  ghost predicate Pending(src: seq<byte>, lo: nat, pos: nat, lit: byte, len: nat, dist: nat, upTo: nat)
  {
    if len == 0 then upTo == pos
    else 0 < pos <= |src| && upTo == pos - 1 && lit == src[upTo] && len < 128 && NearMatch(src, lo, upTo, len, dist)
  }

  /** A match that does not reach behind lo. */
  ghost predicate NearMatch(src: seq<byte>, lo: nat, pos: nat, len: nat, dist: nat)
  {
    TrueMatch(src, pos, len, dist) && lo + dist <= pos
  }

  lemma {:induction false} ParsedLonger(src: seq<byte>, more: seq<byte>, lo: nat, dictPos: nat, codes: seq<LzCode>,
                                        upTo: nat)
    requires Parsed(src, lo, dictPos, codes, upTo)
    ensures Parsed(src + more, lo, dictPos, codes, upTo)
  {
    assert (src + more)[..dictPos] == src[..dictPos] && (src + more)[..upTo] == src[..upTo];
  }

  lemma {:induction false} PendingLonger(src: seq<byte>, more: seq<byte>, lo: nat, pos: nat, lit: byte, len: nat,
                                         dist: nat, upTo: nat)
    requires Pending(src, lo, pos, lit, len, dist, upTo)
    ensures Pending(src + more, lo, pos, lit, len, dist, upTo)
  {
    if len > 0 {
      RepeatsLonger(src, more, pos - 1, len, dist);
    }
  }

  lemma {:induction false} ParsedOne(src: seq<byte>, lo: nat, dictPos: nat, codes: seq<LzCode>, upTo: nat, c: LzCode)
    requires Parsed(src, lo, dictPos, codes, upTo) && Applies(c, upTo - lo) && upTo + CodeLen(c) <= |src|
    requires Applies(c, upTo) && Apply(src[..upTo], c) == src[..upTo + CodeLen(c)]
    ensures Parsed(src, lo, dictPos, codes + [c], upTo + CodeLen(c))
  {
    assert (codes + [c])[..|codes|] == codes;
  }

  lemma {:induction false} ParsedLiteral(src: seq<byte>, lo: nat, dictPos: nat, codes: seq<LzCode>, upTo: nat)
    requires Parsed(src, lo, dictPos, codes, upTo) && upTo < |src|
    ensures Parsed(src, lo, dictPos, codes + [Literal(src[upTo])], upTo + 1)
  {
    assert src[..upTo] + [src[upTo]] == src[..upTo + 1];
    ParsedOne(src, lo, dictPos, codes, upTo, Literal(src[upTo]));
  }

  lemma {:induction false} ParsedMatch(src: seq<byte>, lo: nat, dictPos: nat, codes: seq<LzCode>, upTo: nat, len: nat,
                                       dist: nat)
    requires Parsed(src, lo, dictPos, codes, upTo) && NearMatch(src, lo, upTo, len, dist)
    ensures Parsed(src, lo, dictPos, codes + [Match(len, dist)], upTo + len)
  {
    CopyRepeats(src, upTo, len, dist);
    ParsedOne(src, lo, dictPos, codes, upTo, Match(len, dist));
  }
}
