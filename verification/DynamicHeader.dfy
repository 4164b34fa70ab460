/** tdefl_start_dynamic_block: code tables from the counts, and the header that describes them. */
module DynamicHeader {
  import opened Bits
  import opened Canonical
  import opened BitWriting
  import opened RunPacking
  import opened DeflateSpec
  import opened DeflateBlocks
  import opened BlockForms
  import opened BlockWriting
  import opened HuffmanCodes
  import MinRedundancy
  import TableCost

  // ---- how many lengths to send

  /** Leaves out unused symbols from the end, but never goes below least. */
  method LastUsed(sizes: array<nat>, most: nat, least: nat) returns (n: nat)
    requires 1 <= least <= most <= sizes.Length && forall i :: most <= i < sizes.Length ==> sizes[i] == 0
    ensures least <= n <= most && TrimOf(sizes[..n], sizes[..])
  {
    n := most;
    while n > least
      invariant least <= n <= most && forall i :: n <= i < sizes.Length ==> sizes[i] == 0
    {
      if sizes[n - 1] != 0 { break; }
      n := n - 1;
    }
    assert sizes[..n] <= sizes[..];
  }

  // ---- the code-length code

  lemma {:induction false} UsesBelow(ts: seq<Token>)
    ensures forall c :: Uses(ts, c) <= |ts|
  {
    if ts != [] {
      UsesBelow(ts[..|ts| - 1]);
    }
  }

  lemma {:induction false} UsesUsed(ts: seq<Token>, i: nat)
    requires i < |ts|
    ensures Uses(ts, ts[i].code) > 0
  {
    var n := |ts| - 1;
    if i < n {
      UsesUsed(ts[..n], i);
      assert ts[..n][i] == ts[i];
    }
  }

  lemma {:induction false} FlatAtLeast(ts: seq<Token>)
    ensures |Flat(ts)| >= |ts|
  {
    if ts != [] {
      FlatAtLeast(ts[..|ts| - 1]);
    }
  }

  lemma {:induction false} SumBelow(s: seq<nat>, b: nat)
    requires forall i :: 0 <= i < |s| ==> s[i] <= b
    ensures MinRedundancy.Sum(s) <= |s| * b
  {
    if s != [] {
      SumBelow(s[1..], b);
      assert |s| * b == (|s| - 1) * b + b;
    }
  }

  /** The counts of the packed lengths are small. */
  lemma {:induction false} FewTokens(ts: seq<Token>, packed: seq<nat>, count: seq<nat>, done: seq<nat>)
    requires Packing(ts, packed, count, done) && |done| <= 316
    ensures MinRedundancy.Sum(count) < 65536 && |ts| <= 316
  {
    FlatAtLeast(ts);
    UsesBelow(ts);
    SumBelow(count, 316);
  }

  lemma {:induction false} TokensHaveCodes(ts: seq<Token>, packed: seq<nat>, count: seq<nat>, done: seq<nat>,
                                           cl: seq<nat>)
    requires Packing(ts, packed, count, done) && CodeLengthsFor(count, cl, 7)
    ensures TokensCoded(cl, ts)
  {
    forall i | 0 <= i < |ts|
      ensures TokenOk(ts[i]) && HasCode(cl, ts[i].code)
    {
      UsesUsed(ts, i);
    }
  }

  /** num_bit_lengths: how many of the code-length lengths to send. */
  method SizesToSend(cl: array<nat>) returns (nc: nat)
    requires cl.Length == 19
    ensures 4 <= nc <= 19 && forall i :: nc <= i < 19 ==> cl[Swizzle(i)] == 0
  {
    var n := 18;
    while n >= 0
      invariant -1 <= n <= 18 && forall i :: n < i < 19 ==> cl[Swizzle(i)] == 0
    {
      if cl[Swizzle(n)] != 0 { break; }
      n := n - 1;
    }
    nc := if n + 1 < 4 then 4 else n + 1;
  }

  // ---- writing

  method PutSizes(w: BitWriter, cl: array<nat>, nc: nat, ghost saved: seq<byte>, ghost base: seq<bool>)
    requires w.Has(saved, base) && cl.Length == 19 && nc <= 19 && forall i :: 0 <= i < 19 ==> cl[i] < 8
    modifies w, w.buf
    ensures w.Has(saved, base + SizeBits(cl[..], nc)) && old(w.len) <= w.len
  {
    hide w.Has, ToBits;
    assert Pow2(3) == 8;
    var i := 0;
    assert base + [] == base;
    while i < nc
      invariant 0 <= i <= nc
      invariant w.Has(saved, base + SizeBits(cl[..], i)) && old(w.len) <= w.len
    {
      var v := cl[Swizzle(i)];
      w.PutBits(v, 3, saved, base + SizeBits(cl[..], i));
      ToBitsMod(v, 3);
      assert base + SizeBits(cl[..], i) + LowBits(v, 3) == base + (SizeBits(cl[..], i) + LowBits(v, 3));
      i := i + 1;
    }
  }

  lemma {:induction false} FlatPrefix(ts: seq<Token>, k: nat)
    requires k <= |ts|
    ensures Flat(ts[..k]) <= Flat(ts)
    decreases |ts|
  {
    if k < |ts| {
      FlatPrefix(ts[..|ts| - 1], k);
      assert ts[..|ts| - 1][..k] == ts[..k];
    } else {
      assert ts[..k] == ts;
    }
  }

  /** The next token and its place in the packed form. */
  lemma {:induction false} FlatAt(ts: seq<Token>, k: nat)
    requires k < |ts|
    ensures |Flat(ts[..k])| < |Flat(ts)| && Flat(ts)[|Flat(ts[..k])|] == ts[k].code
    ensures ts[k].code >= 16 ==> |Flat(ts[..k])| + 1 < |Flat(ts)| && Flat(ts)[|Flat(ts[..k])| + 1] == ts[k].extra
    ensures |Flat(ts[..k + 1])| == |Flat(ts[..k])| + (if ts[k].code >= 16 then 2 else 1)
  {
    FlatPrefix(ts, k + 1);
    assert ts[..k + 1][..k] == ts[..k];
    var a := Flat(ts[..k + 1]);
    assert Flat(ts)[..|a|] == a;
  }

  method PutToken(w: BitWriter, packed: seq<nat>, i: nat, clSizes: array<nat>, clCodes: array<nat>, ghost t: Token,
                  ghost saved: seq<byte>, ghost base: seq<bool>) returns (next: nat)
    requires w.Has(saved, base) && CanonicalCodes(clSizes[..], clCodes[..])
    requires TokenOk(t) && HasCode(clSizes[..], t.code)
    requires i < |packed| && packed[i] == t.code && (t.code >= 16 ==> i + 1 < |packed| && packed[i + 1] == t.extra)
    modifies w, w.buf
    ensures w.Has(saved, base + FieldBits(clSizes[..], t.code, t.extra, ExtraBits(t.code))) && old(w.len) <= w.len
    ensures next == i + (if t.code >= 16 then 2 else 1)
  {
    hide w.Has, ToBits, Codeword, CanonicalCodes;
    var code := packed[i];
    PutSymbol(w, code, clSizes, clCodes, saved, base);
    next := i + 1;
    ExtraFits(t);
    ghost var a, b := Codeword(clSizes[..], t.code), LowBits(t.extra, ExtraBits(t.code));
    assert base + (a + b) == base + a + b;
    if code >= 16 {
      assert Pow2(2) == 4 && Pow2(3) == 8 && Pow2(7) == 128;
      w.PutBits(packed[next], ExtraBits(code), saved, base + a);
      next := next + 1;
    } else {
      assert b == [];
      assert base + a + [] == base + a;
    }
  }

  method PutTokens(w: BitWriter, packed: seq<nat>, clSizes: array<nat>, clCodes: array<nat>, ghost ts: seq<Token>,
                   ghost saved: seq<byte>, ghost base: seq<bool>)
    requires w.Has(saved, base) && CanonicalCodes(clSizes[..], clCodes[..])
    requires TokensCoded(clSizes[..], ts) && packed == Flat(ts)
    modifies w, w.buf
    ensures w.Has(saved, base + TokenBits(clSizes[..], ts)) && old(w.len) <= w.len
  {
    hide w.Has, CanonicalCodes, FieldBits;
    ghost var cl, k := clSizes[..], 0;
    var i := 0;
    assert ts[..0] == [] && ts[..|ts|] == ts && base + [] == base;
    while i < |packed|
      invariant 0 <= k <= |ts| && i == |Flat(ts[..k])| && i <= |packed| && TokensCoded(cl, ts[..k])
      invariant w.Has(saved, base + TokenBits(cl, ts[..k])) && old(w.len) <= w.len
    {
      FlatAt(ts, k);
      ghost var t := ts[k];
      i := PutToken(w, packed, i, clSizes, clCodes, t, saved, base + TokenBits(cl, ts[..k]));
      assert ts[..k + 1][..k] == ts[..k];
      assert base + TokenBits(cl, ts[..k]) + FieldBits(cl, t.code, t.extra, ExtraBits(t.code))
        == base + TokenBits(cl, ts[..k + 1]);
      k := k + 1;
    }
    if k < |ts| {
      FlatAt(ts, k);
    }
    assert ts[..k] == ts;
  }

  /** Counts of one block, with the end of the block among them. */
  ghost predicate BlockCounts(lit: seq<nat>, dist: seq<nat>)
  {
    && |lit| == 288 && |dist| == 32 && MinRedundancy.Sum(lit) < 65536 && MinRedundancy.Sum(dist) < 65536
    && lit[286] == lit[287] == 0 && dist[30] == dist[31] == 0 && lit[256] > 0
  }

  /** Code tables for exactly the symbols that occur. */
  ghost predicate TablesFor(litCount: seq<nat>, lit: seq<nat>, litCodes: seq<nat>, distCount: seq<nat>, dst: seq<nat>,
                            distCodes: seq<nat>)
  {
    && CodeLengthsFor(litCount, lit, 15) && CanonicalCodes(lit, litCodes)
    && CodeLengthsFor(distCount, dst, 15) && CanonicalCodes(dst, distCodes)
    && TableCost.CloseToBest(litCount, lit) && TableCost.CloseToBest(distCount, dst)
  }

  method MakeTables(litCount: array<nat>, litSizes: array<nat>, litCodes: array<nat>, distCount: array<nat>,
                    distSizes: array<nat>, distCodes: array<nat>)
    requires litCount.Length == litSizes.Length == litCodes.Length
      && distCount.Length == distSizes.Length == distCodes.Length
    requires Distinct([litCount, litSizes, litCodes, distCount, distSizes, distCodes])
    requires BlockCounts(litCount[..], distCount[..])
    modifies litSizes, litCodes, distSizes, distCodes
    ensures TablesFor(litCount[..], litSizes[..], litCodes[..], distCount[..], distSizes[..], distCodes[..])
  {
    hide CodeLengthsFor, CanonicalCodes, TableCost.CloseToBest;
    ApartAll([litCount, litSizes, litCodes, distCount, distSizes, distCodes]);
    Pow2Of15();
    OptimizeHuffmanTable(litCount, 15, litSizes, litCodes);
    OptimizeHuffmanTable(distCount, 15, distSizes, distCodes);
  }

  ghost predicate Distinct(a: seq<array<nat>>)
  {
    forall i, j :: 0 <= i < j < |a| ==> a[i] != a[j]
  }

  lemma {:induction false} ApartAll(a: seq<array<nat>>)
    requires Distinct(a) && |a| == 6
    ensures a[0] != a[1] && a[0] != a[2] && a[0] != a[3] && a[0] != a[4] && a[0] != a[5]
    ensures a[1] != a[2] && a[1] != a[3] && a[1] != a[4] && a[1] != a[5]
    ensures a[2] != a[3] && a[2] != a[4] && a[2] != a[5]
    ensures a[3] != a[4] && a[3] != a[5] && a[4] != a[5]
  {
  }

  /** The code-length code and the packed lengths. */
  method PackTables(sizes: seq<nat>, clSizes: array<nat>, clCodes: array<nat>)
    returns (packed: seq<nat>, nc: nat, ghost ts: seq<Token>)
    requires clSizes.Length == clCodes.Length == 19 && clSizes != clCodes
    requires |sizes| <= 316 && forall i :: 0 <= i < |sizes| ==> sizes[i] < 16
    modifies clSizes, clCodes
    ensures SentSizes(clSizes[..], nc) && CanonicalCodes(clSizes[..], clCodes[..])
    ensures TokensCoded(clSizes[..], ts) && packed == Flat(ts) && Unpack(ts) == Some(sizes) && |ts| <= 316
  {
    hide Accepts, CanonicalCodes, Unpack, Flat, FrequentShorter, TableCost.CloseToBest;
    var count := new nat[19];
    packed, ts := PackCodeSizes(sizes, count);
    FewTokens(ts, packed, count[..], sizes);
    assert Pow2(7) == 128;
    ghost var counts := count[..];
    OptimizeHuffmanTable(count, 7, clSizes, clCodes);
    TokensHaveCodes(ts, packed, counts, sizes, clSizes[..]);
    nc := SizesToSend(clSizes);
  }

  lemma {:induction false} HeaderFields(a: nat, b: nat, c: nat)
    requires a < 32 && b < 32 && c < 16
    ensures Pow2(5) == 32 && Pow2(4) == 16
    ensures LowBits(a, 5) == ToBits(a, 5) && LowBits(b, 5) == ToBits(b, 5) && LowBits(c, 4) == ToBits(c, 4)
  {
    ToBitsMod(a, 5);
    ToBitsMod(b, 5);
    ToBitsMod(c, 4);
  }

  method PutHeader(w: BitWriter, nl: nat, nd: nat, nc: nat, packed: seq<nat>, clSizes: array<nat>, clCodes: array<nat>,
                   ghost ts: seq<Token>, ghost saved: seq<byte>, ghost base: seq<bool>)
    requires w.Has(saved, base) && 257 <= nl <= 286 && 1 <= nd <= 30
    requires SentSizes(clSizes[..], nc) && CanonicalCodes(clSizes[..], clCodes[..])
    requires TokensCoded(clSizes[..], ts) && packed == Flat(ts)
    modifies w, w.buf
    ensures w.Has(saved, base + HeaderBits(nl, nd, nc, clSizes[..], ts)) && old(w.len) <= w.len
  {
    hide w.Has, ToBits, CanonicalCodes, TokensCoded, Accepts, LowBits, Pow2, Flat, TokenBits, SizeBits;
    HeaderFields(nl - 257, nd - 1, nc - 4);
    ghost var cl, a, b, c := clSizes[..], LowBits(nl - 257, 5), LowBits(nd - 1, 5), LowBits(nc - 4, 4);
    w.PutBits(nl - 257, 5, saved, base);
    w.PutBits(nd - 1, 5, saved, base + a);
    w.PutBits(nc - 4, 4, saved, base + a + b);
    ghost var base2 := base + a + b + c;
    PutSizes(w, clSizes, nc, saved, base2);
    PutTokens(w, packed, clSizes, clCodes, ts, saved, base2 + SizeBits(cl, nc));
    assert base2 + SizeBits(cl, nc) + TokenBits(cl, ts) == base + HeaderBits(nl, nd, nc, cl, ts);
  }

  lemma {:induction false} UnusedEnds(litCount: seq<nat>, distCount: seq<nat>, lit: seq<nat>, dst: seq<nat>)
    requires BlockCounts(litCount, distCount) && CodeLengthsFor(litCount, lit, 15) && CodeLengthsFor(distCount, dst, 15)
    ensures |lit| == 288 && |dst| == 32
    ensures forall c :: 286 <= c < 288 ==> lit[c] == 0
    ensures forall c :: 30 <= c < 32 ==> dst[c] == 0
  {
    hide MinRedundancy.Sum, Accepts;
    assert litCount[286] == litCount[287] == distCount[30] == distCount[31] == 0;
  }

  lemma {:induction false} ShortLengths(count: seq<nat>, sizes: seq<nat>)
    requires CodeLengthsFor(count, sizes, 15)
    ensures Accepts(sizes) && ValidLengths(sizes) && |sizes| == |count|
  {
  }

  /** tdefl_start_dynamic_block, behind the block's type. */
  method StartDynamicBlock(w: BitWriter, litCount: array<nat>, litSizes: array<nat>, litCodes: array<nat>,
                           distCount: array<nat>, distSizes: array<nat>, distCodes: array<nat>, ghost saved: seq<byte>,
                           ghost base: seq<bool>)
    returns (ghost nl: nat, ghost nd: nat, ghost nc: nat, ghost cl: seq<nat>, ghost ts: seq<Token>)
    requires w.Has(saved, base)
    requires litCount.Length == litSizes.Length == litCodes.Length
      && distCount.Length == distSizes.Length == distCodes.Length
    requires Distinct([litCount, litSizes, litCodes, distCount, distSizes, distCodes])
    requires BlockCounts(litCount[..], distCount[..])
    modifies w, w.buf, litSizes, litCodes, distSizes, distCodes
    ensures TablesFor(litCount[..], litSizes[..], litCodes[..], distCount[..], distSizes[..], distCodes[..])
    ensures Prepared(litSizes[..], distSizes[..], nl, nd, nc, cl, ts) && |ts| <= 316
    ensures w.Has(saved, base + LowBits(2, 2) + HeaderBits(nl, nd, nc, cl, ts)) && old(w.len) <= w.len
  {
    hide w.Has, CanonicalCodes, Accepts, TokensCoded, Unpack, Flat, SentSizes, TrimOf, BlockCounts, CodeLengthsFor,
      TableCost.CloseToBest;
    ApartAll([litCount, litSizes, litCodes, distCount, distSizes, distCodes]);
    ghost var lits, dists := litCount[..], distCount[..];
    MakeTables(litCount, litSizes, litCodes, distCount, distSizes, distCodes);
    assert litCount[..] == lits && distCount[..] == dists;
    UnusedEnds(lits, dists, litSizes[..], distSizes[..]);
    ShortLengths(lits, litSizes[..]);
    ShortLengths(dists, distSizes[..]);
    var numLit := LastUsed(litSizes, 286, 257);
    var numDist := LastUsed(distSizes, 30, 1);
    var sizes := litSizes[..numLit] + distSizes[..numDist];
    var clSizes, clCodes := new nat[19], new nat[19];
    var packed, numLengths;
    packed, numLengths, ts := PackTables(sizes, clSizes, clCodes);
    nl, nd, nc, cl := numLit, numDist, numLengths, clSizes[..];
    assert Pow2(2) == 4;
    ToBitsMod(2, 2);
    w.PutBits(2, 2, saved, base);
    PutHeader(w, numLit, numDist, numLengths, packed, clSizes, clCodes, ts, saved, base + LowBits(2, 2));
  }
}
