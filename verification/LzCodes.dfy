/** LZ77 codes, the symbols they are written with, and the bytes they stand for. */
module LzCodes {
  import opened Bits

  const MIN_MATCH := 3
  const MAX_MATCH := 258
  const DICT_SIZE := 32768

  datatype LzCode = Literal(b: byte) | Match(len: nat, dist: nat)

  ghost predicate CodeOk(c: LzCode)
  {
    c.Match? ==> MIN_MATCH <= c.len <= MAX_MATCH && 1 <= c.dist <= DICT_SIZE
  }

  ghost predicate AllOk(cs: seq<LzCode>)
  {
    forall i :: 0 <= i < |cs| ==> CodeOk(cs[i])
  }

  // ---- tdefl's symbol tables, given by their runs

  /** s_tdefl_len_sym, for a length less 3. */
  function LenSym(l: nat): nat
    requires l < 256
  {
    if l < 8 then 257 + l
    else if l < 16 then 265 + (l - 8) / 2
    else if l < 32 then 269 + (l - 16) / 4
    else if l < 64 then 273 + (l - 32) / 8
    else if l < 128 then 277 + (l - 64) / 16
    else if l < 255 then 281 + (l - 128) / 32
    else 285
  }

  /** s_tdefl_len_extra. */
  function LenExtra(l: nat): nat
    requires l < 256
  {
    if l < 8 then 0
    else if l < 16 then 1 else if l < 32 then 2 else if l < 64 then 3 else if l < 128 then 4
    else if l < 255 then 5 else 0
  }

  /** s_tdefl_small_dist_sym below 512, s_tdefl_large_dist_sym from there on, for a distance less 1. */
  function DistSym(d: nat): nat
    requires d < DICT_SIZE
  {
    if d < 4 then d
    else if d < 8 then 4 + (d - 4) / 2
    else if d < 16 then 6 + (d - 8) / 4
    else if d < 32 then 8 + (d - 16) / 8
    else if d < 64 then 10 + (d - 32) / 16
    else if d < 128 then 12 + (d - 64) / 32
    else if d < 256 then 14 + (d - 128) / 64
    else if d < 512 then 16 + (d - 256) / 128
    else if d < 1024 then 18 + (d - 512) / 256
    else if d < 2048 then 20 + (d - 1024) / 512
    else if d < 4096 then 22 + (d - 2048) / 1024
    else if d < 8192 then 24 + (d - 4096) / 2048
    else if d < 16384 then 26 + (d - 8192) / 4096
    else 28 + (d - 16384) / 8192
  }

  /** s_tdefl_small_dist_extra and s_tdefl_large_dist_extra. */
  function DistExtra(d: nat): nat
    requires d < DICT_SIZE
  {
    if d < 4 then 0
    else if d < 8 then 1 else if d < 16 then 2 else if d < 32 then 3 else if d < 64 then 4
    else if d < 128 then 5 else if d < 256 then 6 else if d < 512 then 7 else if d < 1024 then 8
    else if d < 2048 then 9 else if d < 4096 then 10 else if d < 8192 then 11
    else if d < 16384 then 12 else 13
  }

  // ---- tinfl's tables

  /** s_length_base, for a length symbol less 257. */
  function LengthBase(s: nat): nat
  {
    if s == 0 then 3 else if s == 1 then 4 else if s == 2 then 5 else if s == 3 then 6 else if s == 4 then 7
    else if s == 5 then 8 else if s == 6 then 9 else if s == 7 then 10 else if s == 8 then 11
    else if s == 9 then 13 else if s == 10 then 15 else if s == 11 then 17 else if s == 12 then 19
    else if s == 13 then 23 else if s == 14 then 27 else if s == 15 then 31 else if s == 16 then 35
    else if s == 17 then 43 else if s == 18 then 51 else if s == 19 then 59 else if s == 20 then 67
    else if s == 21 then 83 else if s == 22 then 99 else if s == 23 then 115 else if s == 24 then 131
    else if s == 25 then 163 else if s == 26 then 195 else if s == 27 then 227 else if s == 28 then 258
    else 0
  }

  /** s_length_extra. */
  function LengthExtra(s: nat): nat
  {
    if s < 8 || s >= 28 then 0 else (s - 4) / 4
  }

  /** s_dist_base. */
  function DistBase(s: nat): nat
  {
    if s == 0 then 1 else if s == 1 then 2 else if s == 2 then 3 else if s == 3 then 4 else if s == 4 then 5
    else if s == 5 then 7 else if s == 6 then 9 else if s == 7 then 13 else if s == 8 then 17
    else if s == 9 then 25 else if s == 10 then 33 else if s == 11 then 49 else if s == 12 then 65
    else if s == 13 then 97 else if s == 14 then 129 else if s == 15 then 193 else if s == 16 then 257
    else if s == 17 then 385 else if s == 18 then 513 else if s == 19 then 769 else if s == 20 then 1025
    else if s == 21 then 1537 else if s == 22 then 2049 else if s == 23 then 3073 else if s == 24 then 4097
    else if s == 25 then 6145 else if s == 26 then 8193 else if s == 27 then 12289 else if s == 28 then 16385
    else if s == 29 then 24577
    else 0
  }

  /** s_dist_extra. */
  function DistanceExtra(s: nat): nat
  {
    if s < 4 || s >= 30 then 0 else (s - 2) / 2
  }

  /** tinfl reads back the length that tdefl wrote for l. */
  ghost predicate LengthAgrees(l: nat)
    requires l < 256
  {
    && 257 <= LenSym(l) <= 285 && LenExtra(l) <= 5
    && LengthExtra(LenSym(l) - 257) == LenExtra(l)
    && LengthBase(LenSym(l) - 257) + l % Pow2(LenExtra(l)) == l + 3
  }

  /** tinfl reads back the distance that tdefl wrote for d. */
  ghost predicate DistAgrees(d: nat)
    requires d < DICT_SIZE
  {
    && DistSym(d) < 30 && DistExtra(d) <= 13
    && DistanceExtra(DistSym(d)) == DistExtra(d)
    && DistBase(DistSym(d)) + d % Pow2(DistExtra(d)) == d + 1
  }

  lemma {:induction false} Lengths8(l: nat)
    requires 8 <= l < 16
    ensures LengthAgrees(l)
  {
    assert Pow2(1) == 2;
  }

  lemma {:induction false} Lengths16(l: nat)
    requires 16 <= l < 32
    ensures LengthAgrees(l)
  {
    assert Pow2(2) == 4;
  }

  lemma {:induction false} Lengths32(l: nat)
    requires 32 <= l < 64
    ensures LengthAgrees(l)
  {
    assert Pow2(3) == 8;
  }

  lemma {:induction false} Lengths64(l: nat)
    requires 64 <= l < 128
    ensures LengthAgrees(l)
  {
    assert Pow2(4) == 16;
  }

  lemma {:induction false} Lengths128(l: nat)
    requires 128 <= l < 255
    ensures LengthAgrees(l)
  {
    assert Pow2(5) == 32;
  }

  lemma {:induction false} Distances4(d: nat)
    requires 4 <= d < 8
    ensures DistAgrees(d)
  {
    assert Pow2(1) == 2;
  }

  lemma {:induction false} Distances8(d: nat)
    requires 8 <= d < 16
    ensures DistAgrees(d)
  {
    assert Pow2(2) == 4;
  }

  lemma {:induction false} Distances16(d: nat)
    requires 16 <= d < 32
    ensures DistAgrees(d)
  {
    assert Pow2(3) == 8;
  }

  lemma {:induction false} Distances32(d: nat)
    requires 32 <= d < 64
    ensures DistAgrees(d)
  {
    assert Pow2(4) == 16;
  }

  lemma {:induction false} Distances64(d: nat)
    requires 64 <= d < 128
    ensures DistAgrees(d)
  {
    assert Pow2(5) == 32;
  }

  lemma {:induction false} Distances128(d: nat)
    requires 128 <= d < 256
    ensures DistAgrees(d)
  {
    assert Pow2(6) == 64;
  }

  lemma {:induction false} Distances256(d: nat)
    requires 256 <= d < 512
    ensures DistAgrees(d)
  {
    assert Pow2(7) == 128;
  }

  lemma {:induction false} Distances512(d: nat)
    requires 512 <= d < 1024
    ensures DistAgrees(d)
  {
    Powers(8);
    if d < 768 {
      assert DistSym(d) == 18 && d % 256 == d - 512;
    } else {
      assert DistSym(d) == 19 && d % 256 == d - 768;
    }
  }

  lemma {:induction false} Distances1024(d: nat)
    requires 1024 <= d < 2048
    ensures DistAgrees(d)
  {
    Powers(9);
    if d < 1536 {
      assert DistSym(d) == 20 && d % 512 == d - 1024;
    } else {
      assert DistSym(d) == 21 && d % 512 == d - 1536;
    }
  }

  lemma {:induction false} Distances2048(d: nat)
    requires 2048 <= d < 4096
    ensures DistAgrees(d)
  {
    Powers(10);
    if d < 3072 {
      assert DistSym(d) == 22 && d % 1024 == d - 2048;
    } else {
      assert DistSym(d) == 23 && d % 1024 == d - 3072;
    }
  }

  lemma {:induction false} Distances4096(d: nat)
    requires 4096 <= d < 8192
    ensures DistAgrees(d)
  {
    Powers(11);
    if d < 6144 {
      assert DistSym(d) == 24 && d % 2048 == d - 4096;
    } else {
      assert DistSym(d) == 25 && d % 2048 == d - 6144;
    }
  }

  lemma {:induction false} Distances8192(d: nat)
    requires 8192 <= d < 16384
    ensures DistAgrees(d)
  {
    Powers(12);
    if d < 12288 {
      assert DistSym(d) == 26 && d % 4096 == d - 8192;
    } else {
      assert DistSym(d) == 27 && d % 4096 == d - 12288;
    }
  }

  lemma {:induction false} Distances16384(d: nat)
    requires 16384 <= d < 32768
    ensures DistAgrees(d)
  {
    Powers(13);
    if d < 24576 {
      assert DistSym(d) == 28 && d % 8192 == d - 16384;
    } else {
      assert DistSym(d) == 29 && d % 8192 == d - 24576;
    }
  }

  lemma {:induction false} Powers(e: nat)
    requires 8 <= e <= 13
    ensures Pow2(e) == if e == 8 then 256 else if e == 9 then 512 else if e == 10 then 1024
                       else if e == 11 then 2048 else if e == 12 then 4096 else 8192
  {
    Pow2Add(8, e - 8);
  }

  lemma {:induction false} LengthReadsBack(l: nat)
    requires l < 256
    ensures LengthAgrees(l)
  {
    if l < 8 || l == 255 {
      assert Pow2(0) == 1;
    } else if l < 16 {
      Lengths8(l);
    } else if l < 32 {
      Lengths16(l);
    } else if l < 64 {
      Lengths32(l);
    } else if l < 128 {
      Lengths64(l);
    } else {
      Lengths128(l);
    }
  }

  lemma {:induction false} DistReadsBack(d: nat)
    requires d < DICT_SIZE
    ensures DistAgrees(d)
  {
    if d < 4 {
      assert Pow2(0) == 1;
    } else if d < 8 {
      Distances4(d);
    } else if d < 16 {
      Distances8(d);
    } else if d < 32 {
      Distances16(d);
    } else if d < 64 {
      Distances32(d);
    } else if d < 128 {
      Distances64(d);
    } else if d < 256 {
      Distances128(d);
    } else if d < 512 {
      Distances256(d);
    } else if d < 1024 {
      Distances512(d);
    } else if d < 2048 {
      Distances1024(d);
    } else if d < 4096 {
      Distances2048(d);
    } else if d < 8192 {
      Distances4096(d);
    } else if d < 16384 {
      Distances8192(d);
    } else {
      Distances16384(d);
    }
  }

  // ---- what codes stand for

  /** Copying len bytes from dist back, byte by byte, so that a copy may run into itself. */
  function CopyMatch(out: seq<byte>, len: nat, dist: nat): (r: seq<byte>)
    requires 1 <= dist <= |out|
    ensures |r| == |out| + len
    decreases len
  {
    if len == 0 then out else CopyMatch(out + [out[|out| - dist]], len - 1, dist)
  }

  function CodeLen(c: LzCode): nat
  {
    if c.Literal? then 1 else c.len
  }

  /** A code can be applied after n bytes. */
  ghost predicate Applies(c: LzCode, n: nat)
  {
    CodeOk(c) && (c.Match? ==> c.dist <= n)
  }

  function Apply(out: seq<byte>, c: LzCode): (r: seq<byte>)
    requires Applies(c, |out|)
    ensures |r| == |out| + CodeLen(c)
  {
    match c
    case Literal(b) => out + [b]
    case Match(len, dist) => CopyMatch(out, len, dist)
  }

  function TotalLen(cs: seq<LzCode>): nat
  {
    if cs == [] then 0 else TotalLen(cs[..|cs| - 1]) + CodeLen(cs[|cs| - 1])
  }

  /** Every code can be applied in its turn, starting after n bytes. */
  ghost predicate AllApply(cs: seq<LzCode>, n: nat)
  {
    cs == [] || (AllApply(cs[..|cs| - 1], n) && Applies(cs[|cs| - 1], n + TotalLen(cs[..|cs| - 1])))
  }

  function Expand(out: seq<byte>, cs: seq<LzCode>): (r: seq<byte>)
    requires AllApply(cs, |out|)
    ensures |r| == |out| + TotalLen(cs)
  {
    if cs == [] then out else Apply(Expand(out, cs[..|cs| - 1]), cs[|cs| - 1])
  }

  lemma {:induction false} TotalFirst(c: LzCode, cs: seq<LzCode>)
    ensures TotalLen([c] + cs) == CodeLen(c) + TotalLen(cs)
  {
    if cs == [] {
      assert [c] + cs == [c] && [c][..0] == [];
    } else {
      var n := |cs| - 1;
      TotalFirst(c, cs[..n]);
      assert ([c] + cs)[..n + 1] == [c] + cs[..n];
    }
  }

  /** Applying from the front is the same. */
  lemma {:induction false} ExpandFirst(out: seq<byte>, c: LzCode, cs: seq<LzCode>)
    requires AllApply([c] + cs, |out|)
    ensures Applies(c, |out|) && AllApply(cs, |Apply(out, c)|)
    ensures Expand(out, [c] + cs) == Expand(Apply(out, c), cs)
  {
    if cs == [] {
      assert [c] + cs == [c] && [c][..0] == [];
    } else {
      var n := |cs| - 1;
      assert ([c] + cs)[..n + 1] == [c] + cs[..n];
      ExpandFirst(out, c, cs[..n]);
      TotalFirst(c, cs[..n]);
    }
  }
}
