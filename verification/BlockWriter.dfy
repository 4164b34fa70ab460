/** Writing compressed blocks: tables, header and body (tdefl_start_dynamic_block, tdefl_compress_lz_codes). */
module BlockWriting {
  import opened Bits
  import opened Canonical
  import opened LzCodes
  import opened LzBuffers
  import opened BitWriting
  import opened DeflateSpec
  import opened HuffmanCodes

  // ---- reading the LZ code buffer

  /** At byte p, flags holds the flags of grp and a one above all left places; later groups follow. */
  ghost predicate Reading(data: seq<byte>, p: nat, flags: nat, left: nat, grp: seq<LzCode>, later: seq<LzCode>)
  {
    && AllOk(grp) && AllOk(later) && |grp| <= left <= 8 && (|grp| < left ==> later == [])
    && flags == FromBits(Flags(grp)) + Pow2(left)
    && p <= |data| && data[p..] == Payload(grp) + Image(later)
  }

  lemma {:induction false} StartReading(data: seq<byte>, cs: seq<LzCode>)
    requires AllOk(cs) && data == Image(cs)
    ensures Reading(data, 0, 1, 0, [], cs)
  {
    assert Payload([]) + Image(cs) == Image(cs);
    assert Flags([]) == [];
  }

  lemma {:induction false} NextGroup(data: seq<byte>, p: nat, grp: seq<LzCode>, later: seq<LzCode>)
    returns (grp2: seq<LzCode>, later2: seq<LzCode>)
    requires Reading(data, p, 1, 0, grp, later) && p < |data|
    ensures grp == [] && grp2 != [] && later == grp2 + later2
      && Reading(data, p + 1, 256 + data[p] as nat, 8, grp2, later2)
  {
    hide Image, Payload, Group, CodeOk, FromBits, Pow2;
    NoPayload(later);
    assert data[p..] == Image(later) != [];
    grp2, later2 := FirstGroup(later);
    GroupParts(grp2);
    Pow2Of8();
    assert data[p] == data[p..][0] && data[p + 1..] == data[p..][1..];
  }

  lemma {:induction false} NoPayload(later: seq<LzCode>)
    requires AllOk(later)
    ensures Payload([]) + Image(later) == Image(later)
    ensures later == [] ==> Image(later) == []
  {
  }

  lemma {:induction false} FirstGroup(cs: seq<LzCode>) returns (a: seq<LzCode>, b: seq<LzCode>)
    requires AllOk(cs) && cs != []
    ensures cs == a + b && 0 < |a| <= 8 && (|a| < 8 ==> b == []) && AllOk(a) && AllOk(b)
    ensures Image(cs) == Group(a) + Image(b)
  {
    hide Group, CodeOk;
    if |cs| <= 8 {
      a, b := cs, [];
      assert Group(a) + [] == Group(a);
    } else {
      a, b := cs[..8], cs[8..];
    }
  }

  lemma {:induction false} GroupParts(a: seq<LzCode>)
    requires |a| <= 8 && AllOk(a)
    ensures Group(a)[0] == FromBits(Flags(a)) && Group(a)[1..] == Payload(a)
  {
  }

  /** Flags are left while there are bytes left. */
  lemma {:induction false} FlagsLeft(data: seq<byte>, p: nat, flags: nat, left: nat, grp: seq<LzCode>,
                                     later: seq<LzCode>)
    requires Reading(data, p, flags, left, grp, later)
    ensures flags == 1 <==> left == 0
    ensures p < |data| && left > 0 ==> grp != []
    ensures p == |data| ==> grp == [] && later == []
  {
    if later != [] {
      ImageAtLeast(later);
    }
    if grp == [] {
      assert Flags(grp) == [];
      assert Payload(grp) == [];
      assert Image([]) == [];
    } else {
      PayloadAtLeast(grp);
    }
    assert |data[p..]| == |data| - p;
  }

  /** The lowest flag, and what is left without it. */
  lemma {:induction false} TakeFlag(data: seq<byte>, p: nat, flags: nat, left: nat, grp: seq<LzCode>,
                                    later: seq<LzCode>)
    requires Reading(data, p, flags, left, grp, later) && grp != []
    ensures flags % 2 == (if grp[0].Match? then 1 else 0)
    ensures flags / 2 == FromBits(Flags(grp[1..])) + Pow2(left - 1)
    ensures data[p..] == CodeBytes(grp[0]) + (Payload(grp[1..]) + Image(later))
  {
    hide Payload, Image, FromBits, Pow2, CodeBytes, AllOk;
    var f := Flags(grp);
    assert f[1..] == Flags(grp[1..]);
    LowestFlag(f, left);
    PayloadFirst(grp);
    var a, b, c := CodeBytes(grp[0]), Payload(grp[1..]), Image(later);
    assert (a + b) + c == a + (b + c);
  }

  lemma {:induction false} LowestFlag(f: seq<bool>, left: nat)
    requires f != [] && |f| <= left
    ensures (FromBits(f) + Pow2(left)) % 2 == Bit(f[0])
    ensures (FromBits(f) + Pow2(left)) / 2 == FromBits(f[1..]) + Pow2(left - 1)
  {
  }

  lemma {:induction false} PayloadFirst(grp: seq<LzCode>)
    requires AllOk(grp) && grp != []
    ensures CodeOk(grp[0]) && AllOk(grp[1..]) && Payload(grp) == CodeBytes(grp[0]) + Payload(grp[1..])
  {
  }

  lemma {:induction false} NextCode(data: seq<byte>, p: nat, flags: nat, left: nat, grp: seq<LzCode>,
                                    later: seq<LzCode>)
    requires Reading(data, p, flags, left, grp, later) && grp != []
    ensures left > 0 && CodeOk(grp[0]) && flags % 2 == (if grp[0].Match? then 1 else 0)
    ensures p + |CodeBytes(grp[0])| <= |data| && data[p..p + |CodeBytes(grp[0])|] == CodeBytes(grp[0])
    ensures Reading(data, p + |CodeBytes(grp[0])|, flags / 2, left - 1, grp[1..], later)
  {
    hide CodeBytes, Payload, Image, FromBits, Pow2, Flags;
    TakeFlag(data, p, flags, left, grp, later);
    var n := |CodeBytes(grp[0])|;
    assert data[p..p + n] == data[p..][..n];
    assert data[p + n..] == data[p..][n..];
  }

  // ---- writing the body

  /** Sizes and canonical codes for every code of the list, and for the end of the block. */
  ghost predicate BodyTables(lit: seq<nat>, litCodes: seq<nat>, dst: seq<nat>, distCodes: seq<nat>, cs: seq<LzCode>)
  {
    && CanonicalCodes(lit, litCodes) && CanonicalCodes(dst, distCodes)
    && AllEncodable(lit, dst, cs) && HasCode(lit, 256)
  }

  /** TDEFL_PUT_BITS of a code word. */
  method PutSymbol(w: BitWriter, s: nat, sizes: array<nat>, codes: array<nat>, ghost saved: seq<byte>,
                   ghost base: seq<bool>)
    requires w.Has(saved, base) && CanonicalCodes(sizes[..], codes[..]) && HasCode(sizes[..], s)
    modifies w, w.buf
    ensures w.Has(saved, base + Codeword(sizes[..], s)) && old(w.len) <= w.len
  {
    hide ToBits, Codeword, w.Has;
    assert CanonicalCode(sizes[..], s, codes[..][s]);
    w.PutBits(codes[s], sizes[s], saved, base);
  }

  /** A symbol and its extra bits. */
  method PutField(w: BitWriter, s: nat, sizes: array<nat>, codes: array<nat>, v: nat, e: nat, ghost saved: seq<byte>,
                  ghost base: seq<bool>)
    requires w.Has(saved, base) && CanonicalCodes(sizes[..], codes[..]) && HasCode(sizes[..], s)
    modifies w, w.buf
    ensures w.Has(saved, base + FieldBits(sizes[..], s, v, e)) && old(w.len) <= w.len
  {
    hide ToBits, Codeword, w.Has, Pow2;
    PutSymbol(w, s, sizes, codes, saved, base);
    w.PutBits(v % Pow2(e), e, saved, base + Codeword(sizes[..], s));
    assert base + Codeword(sizes[..], s) + LowBits(v, e) == base + FieldBits(sizes[..], s, v, e);
  }

  method PutMatch(w: BitWriter, l: nat, d: nat, litSizes: array<nat>, litCodes: array<nat>, distSizes: array<nat>,
                  distCodes: array<nat>,
                  ghost saved: seq<byte>, ghost base: seq<bool>)
    requires w.Has(saved, base) && CanonicalCodes(litSizes[..], litCodes[..])
      && CanonicalCodes(distSizes[..], distCodes[..])
    requires CodeOk(Match(l + 3, d + 1)) && Encodable(litSizes[..], distSizes[..], Match(l + 3, d + 1))
    modifies w, w.buf
    ensures w.Has(saved, base + CodeBits(litSizes[..], distSizes[..], Match(l + 3, d + 1))) && old(w.len) <= w.len
  {
    hide w.Has, LenSym, DistSym, LenExtra, DistExtra, FieldBits, CanonicalCodes;
    PutField(w, LenSym(l), litSizes, litCodes, l, LenExtra(l), saved, base);
    ghost var a := FieldBits(litSizes[..], LenSym(l), l, LenExtra(l));
    PutField(w, DistSym(d), distSizes, distCodes, d, DistExtra(d), saved, base + a);
    assert (base + a) + FieldBits(distSizes[..], DistSym(d), d, DistExtra(d))
      == base + CodeBits(litSizes[..], distSizes[..], Match(l + 3, d + 1));
  }

  lemma {:induction false} BodyAppend(lit: seq<nat>, dst: seq<nat>, done: seq<LzCode>, c: LzCode)
    requires AllEncodable(lit, dst, done) && Encodable(lit, dst, c)
    ensures AllEncodable(lit, dst, done + [c])
      && BodyBits(lit, dst, done + [c]) == BodyBits(lit, dst, done) + CodeBits(lit, dst, c)
  {
    assert (done + [c])[..|done|] == done;
  }

  /** One code, as its bytes stand in the buffer. */
  method PutCode(w: BitWriter, buf: array<byte>, p: nat, isMatch: bool, litSizes: array<nat>, litCodes: array<nat>,
                 distSizes: array<nat>, distCodes: array<nat>,
                 ghost c: LzCode, ghost saved: seq<byte>, ghost base: seq<bool>) returns (next: nat)
    requires w.Has(saved, base) && buf != w.buf
    requires CanonicalCodes(litSizes[..], litCodes[..]) && CanonicalCodes(distSizes[..], distCodes[..])
    requires Encodable(litSizes[..], distSizes[..], c) && c.Match? == isMatch
    requires p + |CodeBytes(c)| <= buf.Length && buf[p..p + |CodeBytes(c)|] == CodeBytes(c)
    modifies w, w.buf
    ensures w.Has(saved, base + CodeBits(litSizes[..], distSizes[..], c)) && old(w.len) <= w.len
    ensures next == p + |CodeBytes(c)|
  {
    hide w.Has, LenSym, DistSym, LenExtra, DistExtra, FieldBits, Codeword, CanonicalCodes;
    if isMatch {
      var matchLen, matchDist := buf[p], buf[p + 1] as nat + 256 * buf[p + 2] as nat;
      assert buf[p..p + 3][0] == c.len - 3 && buf[p..p + 3][1] == (c.dist - 1) % 256
        && buf[p..p + 3][2] == (c.dist - 1) / 256;
      PutMatch(w, matchLen, matchDist, litSizes, litCodes, distSizes, distCodes, saved, base);
      next := p + 3;
    } else {
      assert buf[p..p + 1][0] == c.b;
      PutSymbol(w, buf[p], litSizes, litCodes, saved, base);
      next := p + 1;
    }
  }

  /** Where the loop over the buffer stands: done is written, the rest still to be read. */
  ghost predicate Writing(data: seq<byte>, p: nat, flags: nat, left: nat, cs: seq<LzCode>, done: seq<LzCode>,
                          grp: seq<LzCode>, later: seq<LzCode>)
  {
    cs == done + (grp + later) && Reading(data, p, flags, left, grp, later)
  }

  /** A new byte of flags, when those there were are used up. */
  lemma {:induction false} NewFlags(data: seq<byte>, p: nat, flags: nat, left: nat, cs: seq<LzCode>, done: seq<LzCode>,
                                    grp: seq<LzCode>, later: seq<LzCode>)
    returns (left2: nat, grp2: seq<LzCode>, later2: seq<LzCode>)
    requires Writing(data, p, flags, left, cs, done, grp, later) && p < |data|
    ensures flags == 1 ==> Writing(data, p + 1, 256 + data[p] as nat, left2, cs, done, grp2, later2)
    ensures flags != 1 ==> left2 == left && grp2 == grp && later2 == later
    ensures grp2 != []
  {
    hide Reading;
    FlagsLeft(data, p, flags, left, grp, later);
    left2, grp2, later2 := left, grp, later;
    if flags == 1 {
      left2 := 8;
      grp2, later2 := NextGroup(data, p, grp, later);
      assert grp + later == grp2 + later2;
    }
  }

  lemma {:induction false} OneCode(data: seq<byte>, p: nat, flags: nat, left: nat, cs: seq<LzCode>, done: seq<LzCode>,
                                   grp: seq<LzCode>, later: seq<LzCode>)
    requires Writing(data, p, flags, left, cs, done, grp, later) && grp != []
    ensures left > 0 && CodeOk(grp[0]) && (flags % 2 == 1 <==> grp[0].Match?) && |done| < |cs| && cs[|done|] == grp[0]
    ensures p + |CodeBytes(grp[0])| <= |data| && data[p..p + |CodeBytes(grp[0])|] == CodeBytes(grp[0])
    ensures Writing(data, p + |CodeBytes(grp[0])|, flags / 2, left - 1, cs, done + [grp[0]], grp[1..], later)
  {
    hide CodeBytes, Reading;
    NextCode(data, p, flags, left, grp, later);
    assert cs == (done + [grp[0]]) + (grp[1..] + later);
  }

  /** tdefl_compress_lz_codes, bit by bit: the codes of the buffer in the given tables, then the end of the block. */
  method CompressLzCodes(w: BitWriter, buf: array<byte>, end: nat, litSizes: array<nat>, litCodes: array<nat>,
                         distSizes: array<nat>, distCodes: array<nat>,
                         ghost cs: seq<LzCode>, ghost saved: seq<byte>, ghost base: seq<bool>) returns (ok: bool)
    requires w.Has(saved, base) && buf != w.buf
    requires BodyTables(litSizes[..], litCodes[..], distSizes[..], distCodes[..], cs)
    requires end <= buf.Length && AllOk(cs) && buf[..end] == Image(cs)
    modifies w, w.buf
    ensures w.Has(saved, base + (BodyBits(litSizes[..], distSizes[..], cs) + Codeword(litSizes[..], 256)))
    ensures ok <==> w.len < LIMIT
    ensures old(w.len) <= w.len
  {
    hide w.Has, Image, CodeBits, Encodable, CanonicalCodes, Codeword;
    ghost var lit, dst, data := litSizes[..], distSizes[..], buf[..end];
    var p, flags: nat := 0, 1;
    ghost var left: nat, done: seq<LzCode>, grp: seq<LzCode>, later := 0, [], [], cs;
    StartReading(data, cs);
    assert base + BodyBits(lit, dst, []) == base;
    while p < end
      invariant buf[..end] == data && p <= end && 0 <= flags
      invariant Writing(data, p, flags, left, cs, done, grp, later)
      invariant AllEncodable(lit, dst, done) && w.Has(saved, base + BodyBits(lit, dst, done)) && old(w.len) <= w.len
    {
      var p0, flags0 := p, flags;
      if flags == 1 {
        flags := 256 + buf[p] as nat;
        p := p + 1;
      }
      p, flags, left, done, grp, later :=
        PutNext(w, buf, end, p0, flags0, p, flags, litSizes, litCodes, distSizes, distCodes, left, cs, done, grp, later,
          saved, base);
    }
    hide Reading;
    FlagsLeft(data, p, flags, left, grp, later);
    assert done == cs;
    PutSymbol(w, 256, litSizes, litCodes, saved, base + BodyBits(lit, dst, cs));
    assert base + BodyBits(lit, dst, cs) + Codeword(lit, 256) == base + (BodyBits(lit, dst, cs) + Codeword(lit, 256));
    ok := w.len < LIMIT;
  }

  /** The part of the loop behind the fetching of flags: writes one code. */
  method PutNext(w: BitWriter, buf: array<byte>, end: nat, ghost p0: nat, ghost flags0: nat, p: nat, flags: nat,
                 litSizes: array<nat>, litCodes: array<nat>, distSizes: array<nat>, distCodes: array<nat>,
                 ghost left0: nat, ghost cs: seq<LzCode>, ghost done0: seq<LzCode>, ghost grp0: seq<LzCode>,
                 ghost later0: seq<LzCode>,
                 ghost saved: seq<byte>, ghost base: seq<bool>)
    returns (next: nat, flags': nat, ghost left: nat, ghost done: seq<LzCode>, ghost grp: seq<LzCode>,
      ghost later: seq<LzCode>)
    requires end <= buf.Length && buf != w.buf && p0 < end
    requires CanonicalCodes(litSizes[..], litCodes[..]) && CanonicalCodes(distSizes[..], distCodes[..])
      && AllEncodable(litSizes[..], distSizes[..], cs)
    requires Writing(buf[..end], p0, flags0, left0, cs, done0, grp0, later0)
    requires p == (if flags0 == 1 then p0 + 1 else p0)
      && flags == (if flags0 == 1 then 256 + buf[p0] as nat else flags0)
    requires AllEncodable(litSizes[..], distSizes[..], done0)
      && w.Has(saved, base + BodyBits(litSizes[..], distSizes[..], done0))
    modifies w, w.buf
    ensures Writing(buf[..end], next, flags', left, cs, done, grp, later) && p0 < next
    ensures AllEncodable(litSizes[..], distSizes[..], done)
      && w.Has(saved, base + BodyBits(litSizes[..], distSizes[..], done))
    ensures old(w.len) <= w.len
  {
    hide w.Has, Writing, CodeBits, Encodable, CanonicalCodes, BodyBits, CodeBytes;
    ghost var lit, dst, data := litSizes[..], distSizes[..], buf[..end];
    left, grp, later := NewFlags(data, p0, flags0, left0, cs, done0, grp0, later0);
    OneCode(data, p, flags, left, cs, done0, grp, later);
    ghost var c := grp[0];
    BodyAppend(lit, dst, done0, c);
    assert buf[p..p + |CodeBytes(c)|] == data[p..p + |CodeBytes(c)|];
    next := PutCode(w, buf, p, flags % 2 == 1, litSizes, litCodes, distSizes, distCodes, c, saved,
      base + BodyBits(lit, dst, done0));
    assert base + BodyBits(lit, dst, done0) + CodeBits(lit, dst, c)
      == base + (BodyBits(lit, dst, done0) + CodeBits(lit, dst, c));
    flags' := flags / 2;
    left, done, grp := left - 1, done0 + [c], grp[1..];
    assert |CodeBytes(c)| > 0;
  }
}
