/** Choosing and writing a block's form (tdefl_compress_block and the middle of tdefl_flush_block). */
module BlockOutput {
  import opened Bits
  import opened Canonical
  import opened LzCodes
  import opened LzBuffers
  import opened BitWriting
  import opened RunPacking
  import opened DeflateSpec
  import opened DeflateBlocks
  import opened BlockForms
  import opened BlockWriting
  import opened DynamicHeader
  import opened HuffmanCodes
  import opened SymbolCounts
  import opened BlockSize
  import MinRedundancy
  import TableCost

  // ---- the tables of a block

  class CodeTables {
    const litSizes: array<nat>
    const litCodes: array<nat>
    const distSizes: array<nat>
    const distCodes: array<nat>

    ghost predicate Valid()
    {
      && litSizes.Length == litCodes.Length == 288 && distSizes.Length == distCodes.Length == 32
      && litSizes != litCodes && litSizes != distSizes && litSizes != distCodes
      && litCodes != distSizes && litCodes != distCodes && distSizes != distCodes
    }

    constructor ()
      ensures Valid() && fresh(litSizes) && fresh(litCodes) && fresh(distSizes) && fresh(distCodes)
    {
      litSizes, litCodes := new nat[288], new nat[288];
      distSizes, distCodes := new nat[32], new nat[32];
    }
  }

  /** tdefl_start_static_block, behind the block's type bit for the last block. */
  method StartStaticBlock(w: BitWriter, t: CodeTables, ghost saved: seq<byte>, ghost base: seq<bool>)
    requires w.Has(saved, base) && t.Valid()
    modifies w, w.buf, t.litSizes, t.litCodes, t.distSizes, t.distCodes
    ensures t.litSizes[..] == FixedLit() && t.distSizes[..] == FixedDist()
    ensures CanonicalCodes(t.litSizes[..], t.litCodes[..]) && CanonicalCodes(t.distSizes[..], t.distCodes[..])
    ensures w.Has(saved, base + LowBits(1, 2)) && old(w.len) <= w.len
  {
    hide w.Has, CanonicalCodes, ToBits;
    FillFixed(t);
    OptimizeStaticTable(t.litSizes, t.litCodes);
    OptimizeStaticTable(t.distSizes, t.distCodes);
    assert Pow2(2) == 4;
    ToBitsMod(1, 2);
    w.PutBits(1, 2, saved, base);
  }

  method FillFixed(t: CodeTables)
    requires t.Valid()
    modifies t.litSizes, t.distSizes
    ensures t.litSizes[..] == FixedLit() && t.distSizes[..] == FixedDist()
  {
    var i := 0;
    while i <= 143
      invariant 0 <= i <= 144 && forall k :: 0 <= k < i ==> t.litSizes[k] == FixedLit()[k]
    {
      t.litSizes[i] := 8;
      i := i + 1;
    }
    while i <= 255
      invariant 144 <= i <= 256 && forall k :: 0 <= k < i ==> t.litSizes[k] == FixedLit()[k]
    {
      t.litSizes[i] := 9;
      i := i + 1;
    }
    while i <= 279
      invariant 256 <= i <= 280 && forall k :: 0 <= k < i ==> t.litSizes[k] == FixedLit()[k]
    {
      t.litSizes[i] := 7;
      i := i + 1;
    }
    while i <= 287
      invariant 280 <= i <= 288 && forall k :: 0 <= k < i ==> t.litSizes[k] == FixedLit()[k]
    {
      t.litSizes[i] := 8;
      i := i + 1;
    }
    forall k | 0 <= k < 32 { t.distSizes[k] := 5; }
  }

  // ---- compressed blocks

  lemma {:induction false} CountedEncodable(lit: seq<nat>, dst: seq<nat>, cs: seq<LzCode>)
    requires AllOk(cs) && CodeLengthsFor(LitCounts(cs)[256 := 1], lit, 15) && CodeLengthsFor(DistCounts(cs), dst, 15)
    ensures AllEncodable(lit, dst, cs) && HasCode(lit, 256)
  {
    hide Accepts, LitCounts, DistCounts;
    var lits := LitCounts(cs);
    assert lits[256 := 1][256] == 1;
    forall i | 0 <= i < |cs|
      ensures Encodable(lit, dst, cs[i])
    {
      AllCounted(cs, i);
      OneEncodable(lits, DistCounts(cs), lit, dst, cs[i]);
    }
  }

  lemma {:induction false} OneEncodable(litCount: seq<nat>, distCount: seq<nat>, lit: seq<nat>, dst: seq<nat>,
                                        c: LzCode)
    requires |litCount| == 288 && |distCount| == 32 && CodeOk(c) && Counted(litCount, distCount, c)
    requires CodeLengthsFor(litCount[256 := 1], lit, 15) && CodeLengthsFor(distCount, dst, 15)
    ensures Encodable(lit, dst, c)
  {
    hide Accepts, LenSym, DistSym;
    assert litCount[256 := 1][LitSym(c)] > 0;
  }

  lemma {:induction false} CountsOfBlock(cs: seq<LzCode>)
    requires AllOk(cs) && |Image(cs)| <= LZ_CODE_BUF_SIZE
    ensures BlockCounts(LitCounts(cs)[256 := 1], DistCounts(cs))
  {
    hide LitCounts, DistCounts, Image, AllOk;
    ImageAtLeast(cs);
    CountSums(cs);
    NeverCounted(cs);
    MinRedundancy.SumSet(LitCounts(cs), 256, 1);
  }

  /** What a block writes after the bit that says whether it is the last one. */
  ghost predicate Content(content: seq<bool>, final: bool, from: nat, out: seq<byte>, out2: seq<byte>)
  {
    Means(LowBits(if final then 1 else 0, 1) + content, from, final, out, out2)
  }

  lemma {:induction false} TypeFirst(final: bool, kind: nat, w: seq<bool>)
    ensures TypeBits(final, kind) + w == LowBits(if final then 1 else 0, 1) + (LowBits(kind, 2) + w)
  {
  }

  /** tdefl_compress_block with dynamic codes. */
  method PutDynamic(w: BitWriter, t: CodeTables, lz: LzBuffer, ghost final: bool, ghost from: nat, ghost out: seq<byte>,
                    ghost saved: seq<byte>, ghost base: seq<bool>) returns (ok: bool, ghost content: seq<bool>)
    requires w.Has(saved, base) && t.Valid() && Ready(lz) && CountsReady(lz) && Apart(w, t, lz)
      && AllApply(lz.Codes(), |out|)
    modifies w, w.buf, t.litSizes, t.litCodes, t.distSizes, t.distCodes, lz.litCount
    ensures w.Has(saved, base + content) && old(w.len) <= w.len
    ensures Content(content, final, from, out, Expand(out, lz.Codes()))
    ensures (ok <==> w.len < LIMIT) && |content| <= 679000
    ensures Ready(lz) && lz.litCount[..] == old(lz.litCount[..])[256 := 1]
  {
    hide *;
    ReadyParts(lz);
    ghost var nl, nd, nc, cl, ts;
    nl, nd, nc, cl, ts := PutTables(w, t, lz, saved, base);
    ghost var lit, dst, cs := t.litSizes[..], t.distSizes[..], lz.Codes();
    InRange(lit, 256);
    ghost var head, body := HeaderBits(nl, nd, nc, cl, ts), BodyBits(lit, dst, cs) + Codeword(lit, 256);
    ok := CompressLzCodes(w, lz.buf, lz.code, t.litSizes, t.litCodes, t.distSizes, t.distCodes, cs, saved,
      base + LowBits(2, 2) + head);
    content := LowBits(2, 2) + (head + body);
    assert base + LowBits(2, 2) + head + body == base + content;
    DynamicBlock(final, lit, dst, nl, nd, nc, cl, ts, cs, from, out);
    TypeFirst(final, 2, head + body);
    ContentMeans(content, final, from, out, Expand(out, cs));
    DynamicFits(lit, dst, cs);
    assert |content| == 2 + |head| + (|BodyBits(lit, dst, cs)| + lit[256]);
  }

  lemma {:induction false} InRange(lens: seq<nat>, s: nat)
    requires HasCode(lens, s)
    ensures s < |lens|
  {
  }

  lemma {:induction false} PreparedSizes(lit: seq<nat>, dst: seq<nat>, nl: nat, nd: nat, nc: nat, cl: seq<nat>,
                                         ts: seq<Token>)
    requires Prepared(lit, dst, nl, nd, nc, cl, ts)
    ensures SentSizes(cl, nc)
  {
  }

  lemma {:induction false} ContentMeans(content: seq<bool>, final: bool, from: nat, out: seq<byte>, out2: seq<byte>)
    requires Means(LowBits(if final then 1 else 0, 1) + content, from, final, out, out2)
    ensures Content(content, final, from, out, out2)
  {
  }

  /** A finished buffer of codes. */
  ghost predicate Ready(lz: LzBuffer)
    reads lz, lz.buf
  {
    && lz.code <= lz.buf.Length == LZ_CODE_BUF_SIZE && lz.litCount != lz.distCount && lz.litCount.Length == 288
    && lz.distCount.Length == 32
    && AllOk(lz.Codes()) && lz.buf[..lz.code] == Image(lz.Codes())
  }

  ghost predicate CountsReady(lz: LzBuffer)
    requires Ready(lz)
    reads lz, lz.buf, lz.litCount, lz.distCount
  {
    lz.litCount[..] == LitCounts(lz.Codes()) && lz.distCount[..] == DistCounts(lz.Codes())
  }

  ghost predicate Apart(w: BitWriter, t: CodeTables, lz: LzBuffer)
  {
    && w.buf != lz.buf
    && lz.litCount !in {t.litSizes, t.litCodes, t.distSizes, t.distCodes}
    && lz.distCount !in {t.litSizes, t.litCodes, t.distSizes, t.distCodes}
  }

  method PutTables(w: BitWriter, t: CodeTables, lz: LzBuffer, ghost saved: seq<byte>, ghost base: seq<bool>)
    returns (ghost nl: nat, ghost nd: nat, ghost nc: nat, ghost cl: seq<nat>, ghost ts: seq<Token>)
    requires w.Has(saved, base) && t.Valid() && Ready(lz) && CountsReady(lz) && Apart(w, t, lz)
    modifies w, w.buf, t.litSizes, t.litCodes, t.distSizes, t.distCodes, lz.litCount
    ensures BodyTables(t.litSizes[..], t.litCodes[..], t.distSizes[..], t.distCodes[..], lz.Codes()) && w.buf != lz.buf
    ensures Prepared(t.litSizes[..], t.distSizes[..], nl, nd, nc, cl, ts)
    ensures HasCode(t.litSizes[..], 256) && AllEncodable(t.litSizes[..], t.distSizes[..], lz.Codes())
    ensures Ready(lz) && lz.code <= lz.buf.Length && AllOk(lz.Codes()) && lz.buf[..lz.code] == Image(lz.Codes())
    ensures 4 <= nc <= 19 == |cl| && TokensCoded(cl, ts) && nl >= 257 && nd >= 1
    ensures w.Has(saved, base + LowBits(2, 2) + HeaderBits(nl, nd, nc, cl, ts)) && old(w.len) <= w.len
    ensures lz.litCount[..] == old(lz.litCount[..])[256 := 1]
    ensures TableCost.CloseToBest(LitCounts(lz.Codes())[256 := 1], t.litSizes[..])
      && TableCost.CloseToBest(DistCounts(lz.Codes()), t.distSizes[..])
    ensures |HeaderBits(nl, nd, nc, cl, ts)| <= 4495 && |t.litSizes[..]| == 288 && |t.distSizes[..]| == 32
  {
    hide w.Has, CodeLengthsFor, CanonicalCodes, BlockCounts, Image, AllOk, Prepared, Encodable, TokensCoded, LitCounts,
      DistCounts, TableCost.CloseToBest, HeaderBits;
    ghost var lits, dists, cs := lz.litCount[..], lz.distCount[..], lz.Codes();
    CountsOfBlock(cs);
    lz.litCount[256] := 1;
    assert lz.litCount[..] == lits[256 := 1] && lz.distCount[..] == dists;
    nl, nd, nc, cl, ts := StartDynamicBlock(w, lz.litCount, t.litSizes, t.litCodes, lz.distCount, t.distSizes,
      t.distCodes, saved, base);
    assert lz.litCount[..] == lits[256 := 1] && lz.distCount[..] == dists;
    PreparedParts(t.litSizes[..], t.distSizes[..], nl, nd, nc, cl, ts);
    PreparedSizes(t.litSizes[..], t.distSizes[..], nl, nd, nc, cl, ts);
    HeaderSize(nl, nd, nc, cl, ts);
    CountedEncodable(t.litSizes[..], t.distSizes[..], cs);
  }

  /** tdefl_compress_block with fixed codes; this form never runs out of room. */
  method PutStatic(w: BitWriter, t: CodeTables, lz: LzBuffer, ghost final: bool, ghost from: nat, ghost out: seq<byte>,
                   ghost saved: seq<byte>, ghost base: seq<bool>) returns (ok: bool, ghost content: seq<bool>)
    requires w.Has(saved, base) && t.Valid() && Ready(lz) && Apart(w, t, lz) && AllApply(lz.Codes(), |out|)
    modifies w, w.buf, t.litSizes, t.litCodes, t.distSizes, t.distCodes
    ensures w.Has(saved, base + content) && old(w.len) <= w.len
    ensures Content(content, final, from, out, Expand(out, lz.Codes()))
    ensures ok <==> w.len < LIMIT
    ensures |content| <= 650127
    ensures Ready(lz)
  {
    hide *;
    ReadyParts(lz);
    ApartParts(w, t, lz);
    ghost var cs, data := lz.Codes(), lz.buf[..lz.code];
    StartStaticBlock(w, t, saved, base);
    assert lz.buf[..lz.code] == data;
    FixedEncodable(cs);
    FixedTables(t.litSizes[..], t.litCodes[..], t.distSizes[..], t.distCodes[..], cs);
    InRange(FixedLit(), 256);
    ghost var body := BodyBits(FixedLit(), FixedDist(), cs) + Codeword(FixedLit(), 256);
    ok := CompressLzCodes(w, lz.buf, lz.code, t.litSizes, t.litCodes, t.distSizes, t.distCodes, cs, saved,
      base + LowBits(1, 2));
    content := LowBits(1, 2) + body;
    assert base + LowBits(1, 2) + body == base + content;
    FixedBlock(final, cs, from, out);
    TypeFirst(final, 1, body);
    ContentMeans(content, final, from, out, Expand(out, cs));
    FixedFits(cs);
  }

  lemma {:induction false} FixedTables(lit: seq<nat>, litCodes: seq<nat>, dst: seq<nat>, distCodes: seq<nat>,
                                       cs: seq<LzCode>)
    requires CanonicalCodes(lit, litCodes) && CanonicalCodes(dst, distCodes) && AllEncodable(lit, dst, cs)
      && HasCode(lit, 256)
    ensures BodyTables(lit, litCodes, dst, distCodes, cs)
  {
  }

  lemma {:induction false} ReadyParts(lz: LzBuffer)
    requires Ready(lz)
    ensures lz.code <= lz.buf.Length == LZ_CODE_BUF_SIZE && AllOk(lz.Codes())
    ensures lz.buf[..lz.code] == Image(lz.Codes()) && |Image(lz.Codes())| == lz.code
  {
  }

  lemma {:induction false} ApartParts(w: BitWriter, t: CodeTables, lz: LzBuffer)
    requires Apart(w, t, lz)
    ensures w.buf != lz.buf
  {
  }

  // ---- stored blocks

  /** The bytes of a stored block, straight from the dictionary. */
  method PutStored(w: BitWriter, dict: array<byte>, dictPos: nat, total: nat, ghost data: seq<byte>, ghost final: bool,
                   ghost from: nat, ghost out: seq<byte>,
                   ghost saved: seq<byte>, ghost base: seq<bool>) returns (ghost content: seq<bool>)
    requires w.Has(saved, base) && dict != w.buf && dict.Length >= DICT_SIZE
    requires |data| == total < 65536 && (from + 1 - |base|) % 8 == 0
    requires forall i :: 0 <= i < total ==> dict[(dictPos + i) % DICT_SIZE] == data[i]
    modifies w, w.buf
    ensures w.Has(saved, base + content) && old(w.len) <= w.len
    ensures Content(content, final, from, out, out + data)
    ensures |content| <= 48 + 8 * total
  {
    hide w.Has, ToBits, Align;
    var n, m := total % 65536, 65535 - total % 65536;
    assert Pow2(2) == 4;
    Pow2Of16();
    hide Pow2;
    ToBitsMod(0, 2);
    ToBitsMod(n, 16);
    ToBitsMod(m, 16);
    ghost var z, pad := LowBits(0, 2), Padding(from + 3);
    ghost var l1, l2 := LowBits(n, 16), LowBits(m, 16);
    hide LowBits, BytesToBits;
    w.PutBits(0, 2, saved, base);
    SamePadding(from + 3, |base + z|);
    w.PadToByte(saved, base + z);
    w.PutBits(n, 16, saved, base + z + pad);
    w.PutBits(m, 16, saved, base + z + pad + l1);
    PutBytes(w, dict, dictPos, total, data, saved, base + z + pad + l1 + l2);
    content := z + (pad + l1 + l2 + BytesToBits(data));
    assert base + z + pad + l1 + l2 + BytesToBits(data) == base + content;
    StoredContent(content, data, final, from, out);
  }

  lemma {:induction false} SamePadding(pos: nat, n: nat)
    requires (pos - n) % 8 == 0
    ensures seq((8 - n % 8) % 8, _ => false) == Padding(pos) && |Padding(pos)| < 8
  {
    assert Align(pos) - pos == (8 - n % 8) % 8;
  }

  lemma {:induction false} StoredContent(content: seq<bool>, data: seq<byte>, final: bool, from: nat, out: seq<byte>)
    requires |data| < 65536
    requires content == LowBits(0, 2)
      + (Padding(from + 3) + LowBits(|data|, 16) + LowBits(65535 - |data| % 65536, 16) + BytesToBits(data))
    ensures Content(content, final, from, out, out + data)
  {
    hide Means, LowBits, BytesToBits, Padding, TypeBits;
    StoredBlock(final, data, from, out);
    TypeFirst(final, 0, StoredBits(from + 3, data));
  }

  method PutBytes(w: BitWriter, dict: array<byte>, dictPos: nat, total: nat, ghost data: seq<byte>,
                  ghost saved: seq<byte>, ghost base: seq<bool>)
    requires w.Has(saved, base) && dict != w.buf && dict.Length >= DICT_SIZE && |data| == total
    requires forall i :: 0 <= i < total ==> dict[(dictPos + i) % DICT_SIZE] == data[i]
    modifies w, w.buf
    ensures w.Has(saved, base + BytesToBits(data)) && old(w.len) <= w.len
  {
    hide w.Has, ToBits;
    var i := 0;
    assert base + BytesToBits([]) == base;
    while i < total
      invariant 0 <= i <= total && old(w.len) <= w.len
      invariant w.Has(saved, base + BytesToBits(data[..i]))
    {
      Pow2Of8();
      BytesAppend(data[..i], data[i]);
      assert data[..i + 1] == data[..i] + [data[i]];
      w.PutBits(dict[(dictPos + i) % DICT_SIZE], 8, saved, base + BytesToBits(data[..i]));
      assert base + BytesToBits(data[..i]) + ToBits(data[i], 8) == base + BytesToBits(data[..i + 1]);
      i := i + 1;
    }
    assert data[..total] == data;
  }

  // ---- choosing the form

  /** If the window still holds the bytes of the block, the dictionary has them. */
  ghost predicate InWindow(dict: seq<byte>, dictPos: nat, data: seq<byte>)
  {
    |dict| >= DICT_SIZE && |data| <= DICT_SIZE && forall i :: 0 <= i < |data| ==>
      dict[(dictPos + i) % DICT_SIZE] == data[i]
  }

  method PutCompressed(w: BitWriter, t: CodeTables, lz: LzBuffer, staticBlock: bool, ghost final: bool, ghost from: nat,
                       ghost out: seq<byte>,
                       ghost saved: seq<byte>, ghost base: seq<bool>) returns (ok: bool, ghost content: seq<bool>)
    requires w.Has(saved, base) && t.Valid() && Ready(lz) && CountsReady(lz) && Apart(w, t, lz)
      && AllApply(lz.Codes(), |out|)
    modifies w, w.buf, t.litSizes, t.litCodes, t.distSizes, t.distCodes, lz.litCount
    ensures w.Has(saved, base + content) && old(w.len) <= w.len
    ensures Content(content, final, from, out, Expand(out, lz.Codes()))
    ensures (ok <==> w.len < LIMIT) && Bounded(content)
    ensures Ready(lz)
  {
    hide w.Has, Ready, CountsReady, Content, AllApply, Expand;
    if staticBlock {
      ok, content := PutStatic(w, t, lz, final, from, out, saved, base);
    } else {
      ok, content := PutDynamic(w, t, lz, final, from, out, saved, base);
    }
  }

  /** What no block is longer than. */
  ghost predicate Bounded(content: seq<bool>)
  {
    |content| <= 679000
  }

  /** Where the bytes of the block are in the window, storing them bounds its length. */
  ghost predicate Short(content: seq<bool>, total: nat)
  {
    total > 0 ==> |content| <= 8 * total + 48
  }

  /** Everything did not fit behind base. */
  ghost predicate TooMuch(base: seq<bool>, tried: seq<bool>)
  {
    8 * LIMIT <= |base + tried|
  }

  /**
   The middle of tdefl_flush_block. Whichever form is chosen, the block means the bytes that the recorded codes stand
   for, and it leaves room in the output buffer; if its bytes could be stored, it takes hardly more room than they do.
   */
  method PutBlock(w: BitWriter, t: CodeTables, lz: LzBuffer, dict: array<byte>, dictPos: nat, behind: nat,
                  dictSize: nat, forceRaw: bool, forceStatic: bool, ghost final: bool, ghost from: nat,
                  ghost out: seq<byte>, ghost data: seq<byte>, ghost base: seq<bool>)
    returns (ghost content: seq<bool>)
    requires w.Has([], base) && |base| <= 32 && (from + 1 - |base|) % 8 == 0
    requires t.Valid() && Ready(lz) && CountsReady(lz) && Apart(w, t, lz) && dict !in {w.buf, lz.buf}
    requires AllApply(lz.Codes(), |out|) && Expand(out, lz.Codes()) == out + data && |data| == lz.totalBytes
    requires behind <= dictSize ==> InWindow(dict[..], dictPos, data)
    modifies w, w.buf, t.litSizes, t.litCodes, t.distSizes, t.distCodes, lz.litCount
    ensures w.Has([], base + content) && |content| <= 679000
    ensures Content(content, final, from, out, out + data)
    ensures 0 < |data| && behind <= dictSize ==> |content| <= 8 * |data| + 48
  {
    hide w.Has, Ready, CountsReady, Apart, InWindow, Content, AllApply, Expand;
    ghost var tried;
    content, tried := ChooseForm(w, t, lz, dict, dictPos, behind, dictSize, forceRaw, forceStatic, final, from, out,
                                 data, base);
  }

  /** Compressed, stored, or compressed again with the fixed codes; the last of these never happens. */
  method ChooseForm(w: BitWriter, t: CodeTables, lz: LzBuffer, dict: array<byte>, dictPos: nat, behind: nat,
                    dictSize: nat, forceRaw: bool, forceStatic: bool, ghost final: bool, ghost from: nat,
                    ghost out: seq<byte>, ghost data: seq<byte>, ghost base: seq<bool>)
    returns (ghost content: seq<bool>, ghost tried: seq<bool>)
    requires w.Has([], base) && |base| <= 32 && (from + 1 - |base|) % 8 == 0
    requires t.Valid() && Ready(lz) && CountsReady(lz) && Apart(w, t, lz) && dict !in {w.buf, lz.buf}
    requires AllApply(lz.Codes(), |out|) && Expand(out, lz.Codes()) == out + data && |data| == lz.totalBytes
    requires behind <= dictSize ==> InWindow(dict[..], dictPos, data)
    modifies w, w.buf, t.litSizes, t.litCodes, t.distSizes, t.distCodes, lz.litCount
    ensures w.Has([], base + content) && Bounded(content) && Bounded(tried)
    ensures Content(content, final, from, out, out + data)
    ensures behind <= dictSize ==> Short(content, |data|) || TooMuch(base, tried)
  {
    hide w.Has, Ready, CountsReady, BytesToBits, ToBits, Pow2, Content, AllApply, Expand, Bounded, Short, TooMuch;
    var savedLen, savedBits, savedBitsIn := w.len, w.bitBuffer, w.bitsIn;
    AtSaved(w, base);
    ghost var saved := w.buf[..savedLen];
    var total := lz.totalBytes;
    content, tried := [], [];
    NoContent();
    var useRawBlock, ok := forceRaw && behind <= dictSize, false;
    if !useRawBlock {
      ok, content := PutCompressed(w, t, lz, forceStatic || total < 48, final, from, out, saved, base);
      tried := content;
    }
    if (useRawBlock || (total > 0 && w.len - savedLen + 1 >= total)) && behind <= dictSize {
      Rewindable(w, saved, base, base + content, useRawBlock);
      w.Rewind(savedLen, savedBits, savedBitsIn, saved, base);
      content := PutStored(w, dict, dictPos, total, data, final, from, out, saved, base);
      StoredShort(content, total);
    } else if ok {
      NotLonger(w, saved, savedBitsIn, base, content, total);
    } else {
      NotFitting(w, saved, base, content);
      Rewindable(w, saved, base, base + content, false);
      w.Rewind(savedLen, savedBits, savedBitsIn, saved, base);
      ok, content := PutStatic(w, t, lz, final, from, out, saved, base);
      StaticBounded(content);
    }
    Weaker(w, saved, base + content);
  }

  lemma {:induction false} NoContent()
    ensures Bounded([])
  {
  }

  lemma {:induction false} StoredShort(content: seq<bool>, total: nat)
    requires |content| <= 48 + 8 * total && total <= DICT_SIZE
    ensures Bounded(content) && Short(content, total)
  {
  }

  lemma {:induction false} StaticBounded(content: seq<bool>)
    requires |content| <= 650127
    ensures Bounded(content)
  {
  }

  lemma {:induction false} NotFitting(w: BitWriter, saved: seq<byte>, base: seq<bool>, content: seq<bool>)
    requires w.Has(saved, base + content) && w.len >= LIMIT
    ensures TooMuch(base, content)
  {
  }

  /** A compressed block that is kept is shorter than its bytes, if these could have been stored instead. */
  lemma {:induction false} NotLonger(w: BitWriter, saved: seq<byte>, bitsIn: nat, base: seq<bool>, content: seq<bool>,
                                     total: nat)
    requires w.Has(saved, base + content) && w.len < LIMIT && |base| == 8 * |saved| + bitsIn && bitsIn < 8
    ensures total == 0 || w.len - |saved| + 1 < total ==> Short(content, total)
  {
    hide BytesToBits, ToBits;
  }

  lemma {:induction false} Rewindable(w: BitWriter, saved: seq<byte>, base: seq<bool>, base2: seq<bool>,
                                      untouched: bool)
    requires untouched ==> w.Has(saved, base)
    requires !untouched ==> w.Has(saved, base2)
    ensures w.Valid() && |saved| <= w.len && w.buf[..|saved|] == saved
  {
  }

  lemma {:induction false} AtSaved(w: BitWriter, base: seq<bool>)
    requires w.Has([], base) && |base| <= 680000
    ensures w.Valid() && w.len < LIMIT && w.Has(w.buf[..w.len], base) && w.Bits() == base
  {
  }

  lemma {:induction false} Weaker(w: BitWriter, saved: seq<byte>, base: seq<bool>)
    requires w.Has(saved, base)
    ensures w.Has([], base)
  {
  }

  // ---- before and after

  /** The codes recorded so far, made ready to be written. */
  method FinishCodes(lz: LzBuffer)
    requires lz.Valid()
    modifies lz`code, lz.buf
    ensures Ready(lz) && CountsReady(lz) && lz.Codes() == old(lz.Codes()) && lz.totalBytes == old(lz.totalBytes)
  {
    hide Recording, LitCounts, DistCounts, AllOk, Image;
    ghost var lit, dist := lz.litCount[..], lz.distCount[..];
    lz.Finish();
    assert lz.litCount[..] == lit && lz.distCount[..] == dist;
  }

  /** Behind the header h, wr has been read as blocks that stand for o, and more blocks will follow. */
  ghost predicate Prefixed(h: seq<bool>, wr: seq<bool>, o: seq<byte>)
  {
    h <= wr && forall bits :: wr <= bits ==> StreamAt(bits, |h|, []) == StreamAt(bits, |wr|, o)
  }

  /** Behind the header h, wr is a whole stream, and stands for o. */
  ghost predicate Whole(h: seq<bool>, wr: seq<bool>, o: seq<byte>)
  {
    h <= wr && forall bits :: wr <= bits ==> StreamAt(bits, |h|, []) == Got(o, |wr|)
  }

  lemma {:induction false} OnlyHeader(h: seq<bool>)
    ensures Prefixed(h, h, [])
  {
  }

  lemma {:induction false} StandsBehind(wr: seq<bool>, b: seq<bool>, bits: seq<bool>)
    requires wr + b <= bits
    ensures wr <= bits && Stands(b, bits, |wr|)
  {
    assert bits[..|wr + b|] == wr + b;
    assert bits[|wr|..][..|b|] == b;
  }

  lemma {:induction false} NextBlock(h: seq<bool>, wr: seq<bool>, b: seq<bool>, o: seq<byte>, o2: seq<byte>)
    requires Prefixed(h, wr, o) && Means(b, |wr|, false, o, o2)
    ensures Prefixed(h, wr + b, o2)
  {
    hide BlockAt;
    forall bits | wr + b <= bits
      ensures StreamAt(bits, |h|, []) == StreamAt(bits, |wr + b|, o2)
    {
      StandsBehind(wr, b, bits);
    }
  }

  lemma {:induction false} LastBlock(h: seq<bool>, wr: seq<bool>, b: seq<bool>, o: seq<byte>, o2: seq<byte>)
    requires Prefixed(h, wr, o) && Means(b, |wr|, true, o, o2)
    ensures Whole(h, wr + b, o2)
  {
    hide BlockAt;
    forall bits | wr + b <= bits
      ensures StreamAt(bits, |h|, []) == Got(o2, |wr + b|)
    {
      StandsBehind(wr, b, bits);
    }
  }
}
