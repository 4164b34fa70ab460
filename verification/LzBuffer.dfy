/** The buffer of LZ codes: groups of up to eight codes behind a byte of flags, and the symbol counts. */
module LzBuffers {
  import opened Bits
  import opened LzCodes
  import opened SymbolCounts

  const LZ_CODE_BUF_SIZE := 65536

  // ---- the layout

  function CodeBytes(c: LzCode): (r: seq<byte>)
    requires CodeOk(c)
    ensures |r| == (if c.Literal? then 1 else 3)
  {
    match c
    case Literal(b) => [b]
    case Match(len, dist) => [len - 3, (dist - 1) % 256, (dist - 1) / 256]
  }

  function Payload(cs: seq<LzCode>): seq<byte>
    requires AllOk(cs)
  {
    if cs == [] then [] else CodeBytes(cs[0]) + Payload(cs[1..])
  }

  function Flags(cs: seq<LzCode>): (r: seq<bool>)
    ensures |r| == |cs|
  {
    seq(|cs|, i requires 0 <= i < |cs| => cs[i].Match?)
  }

  /** A byte of flags, first code lowest, and the codes. */
  function Group(cs: seq<LzCode>): (r: seq<byte>)
    requires |cs| <= 8 && AllOk(cs)
    ensures |r| > 0
  {
    Pow2Of8();
    Pow2Mono(|cs|, 8);
    [FromBits(Flags(cs))] + Payload(cs)
  }

  /** The finished buffer. */
  function Image(cs: seq<LzCode>): seq<byte>
    requires AllOk(cs)
  {
    if cs == [] then []
    else if |cs| <= 8 then Group(cs)
    else Group(cs[..8]) + Image(cs[8..])
  }

  lemma {:induction false} PayloadAppend(cs: seq<LzCode>, c: LzCode)
    requires AllOk(cs + [c])
    ensures AllOk(cs) && CodeOk(c) && Payload(cs + [c]) == Payload(cs) + CodeBytes(c)
  {
    assert (cs + [c])[|cs|] == c;
    forall i | 0 <= i < |cs|
      ensures CodeOk(cs[i])
    {
      assert (cs + [c])[i] == cs[i];
    }
    if cs == [] {
      assert [] + [c] == [c] && [c][1..] == [];
    } else {
      PayloadAppend(cs[1..], c);
      assert (cs + [c])[1..] == cs[1..] + [c];
      assert CodeBytes(cs[0]) + (Payload(cs[1..]) + CodeBytes(c))
        == (CodeBytes(cs[0]) + Payload(cs[1..])) + CodeBytes(c);
    }
  }

  lemma {:induction false} PayloadAtLeast(cs: seq<LzCode>)
    requires AllOk(cs)
    ensures |Payload(cs)| >= |cs|
  {
    if cs != [] {
      PayloadAtLeast(cs[1..]);
    }
  }

  lemma {:induction false} ImageAtLeast(cs: seq<LzCode>)
    requires AllOk(cs)
    ensures |Image(cs)| >= |cs| && 8 * |Image(cs)| >= 9 * |cs|
    decreases |cs|
  {
    if 0 < |cs| <= 8 {
      PayloadAtLeast(cs);
    } else if |cs| > 8 {
      PayloadAtLeast(cs[..8]);
      ImageAtLeast(cs[8..]);
    }
  }

  /** A group behind full groups. */
  lemma {:induction false} ImageAppend(full: seq<LzCode>, grp: seq<LzCode>)
    requires |full| % 8 == 0 && 0 < |grp| <= 8 && AllOk(full) && AllOk(grp)
    ensures AllOk(full + grp) && Image(full + grp) == Image(full) + Group(grp)
    decreases |full|
  {
    hide Group, CodeOk;
    if full == [] {
      assert [] + grp == grp;
    } else {
      var a, b := full[..8], full[8..];
      FullFirst(a, b);
      FullFirst(a, b + grp);
      assert full == a + b && full + grp == a + (b + grp);
      ImageAppend(b, grp);
      assert Group(a) + (Image(b) + Group(grp)) == (Group(a) + Image(b)) + Group(grp);
    }
  }

  lemma {:induction false} FullFirst(a: seq<LzCode>, b: seq<LzCode>)
    requires |a| == 8 && AllOk(a) && AllOk(b)
    ensures AllOk(a + b) && Image(a + b) == Group(a) + Image(b)
  {
    hide Group, CodeOk;
    if b == [] {
      assert a + b == a && Group(a) + [] == Group(a);
    } else {
      assert (a + b)[..8] == a && (a + b)[8..] == b;
    }
  }

  // ---- recording

  /** The byte of flags under way: the flags of the group are its upper bits. */
  ghost predicate FlagsUnderWay(v: byte, grp: seq<LzCode>)
  {
    |grp| <= 8 && ToBits(v, 8)[8 - |grp|..] == Flags(grp)
  }

  lemma {:induction false} ShiftFlag(v: byte, grp: seq<LzCode>, c: LzCode)
    requires |grp| < 8 && FlagsUnderWay(v, grp)
    ensures v / 2 + (if c.Match? then 128 else 0) < 256
    ensures FlagsUnderWay(v / 2 + (if c.Match? then 128 else 0), grp + [c])
  {
    hide ToBits;
    var m := if c.Match? then 1 else 0;
    assert Pow2(1) == 2 && Pow2(7) == 128;
    ToBitsAppend(v / 2, 7, m, 1);
    ToBitsDrop(v, 8, 1);
    OneBit(m);
    var n := 8 - |grp|;
    assert ToBits(v / 2 + m * 128, 8) == ToBits(v, 8)[1..] + [c.Match?];
    assert (ToBits(v, 8)[1..] + [c.Match?])[n - 1..] == ToBits(v, 8)[n..] + [c.Match?];
    assert Flags(grp + [c]) == Flags(grp) + [c.Match?];
  }

  lemma {:induction false} OneBit(m: nat)
    requires m < 2
    ensures ToBits(m, 1) == [m == 1]
  {
    assert ToBits(m / 2, 0) == [];
  }

  /** Shifting out what is left over makes the byte of flags final. */
  lemma {:induction false} FinalFlags(v: byte, grp: seq<LzCode>)
    requires FlagsUnderWay(v, grp)
    ensures v / Pow2(8 - |grp|) == FromBits(Flags(grp)) < 256
  {
    hide ToBits;
    var n := 8 - |grp|;
    Pow2Of8();
    Pow2Add(n, |grp|);
    ToBitsDrop(v, 8, n);
    var q := v / Pow2(n);
    QuotientBelow(v, Pow2(n), Pow2(|grp|));
    FromTo(q, |grp|);
    Pow2Mono(|grp|, 8);
  }

  /** Where recording stands: full groups below flags, a group under way behind it. */
  ghost predicate Recording(buf: seq<byte>, code: nat, flags: nat, full: seq<LzCode>, grp: seq<LzCode>)
  {
    && |full| % 8 == 0 && |grp| < 8 && AllOk(full) && AllOk(grp)
    && flags == |Image(full)| && code == flags + 1 + |Payload(grp)| <= |buf|
    && buf[..flags] == Image(full) && FlagsUnderWay(buf[flags], grp)
    && buf[flags + 1..code] == Payload(grp)
  }

  /** The code's bytes and then its flag are stored. */
  lemma {:induction false} RecordOne(buf: seq<byte>, code: nat, flags: nat, full: seq<LzCode>, grp: seq<LzCode>,
                                     c: LzCode, buf2: seq<byte>)
    requires Recording(buf, code, flags, full, grp) && CodeOk(c)
    requires |buf2| == |buf| && code + |CodeBytes(c)| <= |buf|
    requires buf2[..flags] == buf[..flags] && buf2[flags + 1..code] == buf[flags + 1..code]
    requires buf2[code..code + |CodeBytes(c)|] == CodeBytes(c)
    requires buf2[flags] == buf[flags] / 2 + (if c.Match? then 128 else 0)
    ensures AllOk(grp + [c]) && FlagsUnderWay(buf2[flags], grp + [c])
    ensures buf2[flags + 1..code + |CodeBytes(c)|] == Payload(grp + [c])
    ensures |grp| < 7 ==> Recording(buf2, code + |CodeBytes(c)|, flags, full, grp + [c])
    ensures |grp| == 7 && code + |CodeBytes(c)| < |buf| ==>
              Recording(buf2, code + |CodeBytes(c)| + 1, code + |CodeBytes(c)|, full + (grp + [c]), [])
  {
    hide FlagsUnderWay, CodeBytes, Payload, Image;
    PayloadAppend(grp, c);
    ShiftFlag(buf[flags], grp, c);
    var n := code + |CodeBytes(c)|;
    assert buf2[flags + 1..n] == buf2[flags + 1..code] + buf2[code..n];
    if |grp| == 7 && n < |buf| {
      GroupFull(buf2, n, flags, full, grp + [c]);
    }
  }

  lemma {:induction false} GroupFull(buf: seq<byte>, n: nat, flags: nat, full: seq<LzCode>, grp: seq<LzCode>)
    requires |full| % 8 == 0 && |grp| == 8 && AllOk(full) && AllOk(grp)
    requires flags == |Image(full)| && n == flags + 1 + |Payload(grp)| < |buf|
    requires buf[..flags] == Image(full) && FlagsUnderWay(buf[flags], grp) && buf[flags + 1..n] == Payload(grp)
    ensures Recording(buf, n + 1, n, full + grp, [])
  {
    FullGroup(buf, n, flags, full, grp);
    hide Image, CodeOk, ToBits, Group;
    assert buf[n + 1..n + 1] == [] == Payload([]);
    assert ToBits(buf[n], 8)[8..] == [] == Flags([]);
  }

  lemma {:induction false} FullGroup(buf: seq<byte>, n: nat, flags: nat, full: seq<LzCode>, grp: seq<LzCode>)
    requires |full| % 8 == 0 && |grp| == 8 && AllOk(full) && AllOk(grp)
    requires flags == |Image(full)| && n == flags + 1 + |Payload(grp)| < |buf|
    requires buf[..flags] == Image(full) && FlagsUnderWay(buf[flags], grp) && buf[flags + 1..n] == Payload(grp)
    ensures AllOk(full + grp) && buf[..n] == Image(full + grp)
  {
    hide Image, Payload, CodeOk, ToBits, FromBits, FlagsUnderWay;
    FinalFlags(buf[flags], grp);
    ImageAppend(full, grp);
    assert Pow2(0) == 1;
    assert buf[..n] == buf[..flags] + ([buf[flags]] + buf[flags + 1..n]);
  }

  /** After the last shift, and without a byte of flags nobody needs, the buffer is the image of the codes. */
  lemma {:induction false} Finished(buf: seq<byte>, code: nat, flags: nat, full: seq<LzCode>, grp: seq<LzCode>,
                                    last: byte, buf2: seq<byte>)
    requires Recording(buf, code, flags, full, grp)
    requires last as int == buf[flags] as int / Pow2(8 - |grp|) && buf2 == buf[flags := last]
    ensures AllOk(full + grp)
    ensures buf2[..if |grp| == 0 then code - 1 else code] == Image(full + grp)
  {
    hide Image, CodeOk, FromBits, FlagsUnderWay;
    FinalFlags(buf[flags], grp);
    if grp == [] {
      assert full + grp == full;
      assert Payload([]) == [];
      assert buf2[..flags] == buf[..flags];
    } else {
      ImageAppend(full, grp);
      assert buf2[..code] == buf[..flags] + ([buf2[flags]] + buf[flags + 1..code]);
    }
  }

  // ---- the buffer itself

  class LzBuffer {
    const buf: array<byte>
    const litCount: array<nat>
    const distCount: array<nat>
    var code: nat
    var flags: nat
    var flagsLeft: nat
    var totalBytes: nat
    ghost var full: seq<LzCode>
    ghost var grp: seq<LzCode>

    ghost predicate Valid()
      reads this, buf, litCount, distCount
    {
      && buf.Length == LZ_CODE_BUF_SIZE && litCount != distCount
      && Recording(buf[..], code, flags, full, grp) && flagsLeft == 8 - |grp|
      && AllOk(Codes()) && litCount[..] == LitCounts(Codes()) && distCount[..] == DistCounts(Codes())
      && totalBytes == TotalLen(Codes())
    }

    /** The codes recorded since the last block. */
    ghost function Codes(): seq<LzCode>
      reads this
    {
      full + grp
    }

    constructor ()
      ensures Valid() && fresh(buf) && fresh(litCount) && fresh(distCount) && Codes() == [] && code == 1
        && totalBytes == 0
      ensures buf.Length == LZ_CODE_BUF_SIZE && litCount != distCount && litCount.Length == 288
        && distCount.Length == 32
    {
      buf := new byte[LZ_CODE_BUF_SIZE];
      litCount := new nat[288](_ => 0);
      distCount := new nat[32](_ => 0);
      new;
      Reset();
    }

    /** As after a block: nothing recorded, all counts zero. */
    method Reset()
      requires buf.Length == LZ_CODE_BUF_SIZE && litCount != distCount && litCount.Length == 288
        && distCount.Length == 32
      modifies this, litCount, distCount
      ensures Valid() && Codes() == [] && code == 1 && totalBytes == 0
    {
      forall s | 0 <= s < 288 { litCount[s] := 0; }
      forall s | 0 <= s < 32 { distCount[s] := 0; }
      code, flags, flagsLeft, totalBytes := 1, 0, 8, 0;
      full, grp := [], [];
      assert litCount[..] == seq(288, _ => 0) && distCount[..] == seq(32, _ => 0);
      NothingRecorded(buf[..]);
    }

    /** Keeps the byte of flags up to date after a code's bytes. */
    method ShiftFlags(isMatch: bool, ghost before: seq<byte>, ghost c: LzCode)
      requires buf.Length == LZ_CODE_BUF_SIZE == |before| && CodeOk(c) && c.Match? == isMatch && |CodeBytes(c)| <= code
      requires Recording(before, code - |CodeBytes(c)|, flags, full, grp) && flagsLeft == 8 - |grp|
        && code < LZ_CODE_BUF_SIZE
      requires buf[..] == before[..code - |CodeBytes(c)|] + CodeBytes(c) + before[code..]
      modifies this`code, this`flags, this`flagsLeft, this`full, this`grp, buf
      ensures Recording(buf[..], code, flags, full, grp) && flagsLeft == 8 - |grp|
      ensures Codes() == old(Codes()) + [c] && code <= old(code) + 1
    {
      hide FlagsUnderWay, CodeBytes, Payload, Image;
      ghost var n := |CodeBytes(c)|;
      assert buf[flags] == before[flags];
      ShiftFlag(before[flags], grp, c);
      buf[flags] := buf[flags] / 2 + (if isMatch then 128 else 0);
      RecordOne(before, code - n, flags, full, grp, c, buf[..]);
      flagsLeft := flagsLeft - 1;
      grp := grp + [c];
      assert full + grp == old(full + grp) + [c];
      if flagsLeft == 0 {
        flagsLeft := 8;
        flags := code;
        code := code + 1;
        full, grp := full + grp, [];
        assert full + grp == old(full + grp) + [c];
      }
    }

    /** tdefl_record_literal. */
    method RecordLiteral(lit: byte)
      requires Valid() && code + 2 <= LZ_CODE_BUF_SIZE
      modifies this, buf, litCount
      ensures Valid() && Codes() == old(Codes()) + [Literal(lit)] && code <= old(code) + 2
      ensures totalBytes == old(totalBytes) + 1
    {
      hide LitCounts, DistCounts, FlagsUnderWay, Payload, Image;
      ghost var before, cs := buf[..], Codes();
      CountsAppend(cs, Literal(lit));
      totalBytes := totalBytes + 1;
      buf[code] := lit;
      code := code + 1;
      ShiftFlags(false, before, Literal(lit));
      ghost var count := litCount[..];
      litCount[lit] := litCount[lit] + 1;
      assert litCount[..] == count[lit := count[lit] + 1];
      assert (cs + [Literal(lit)])[..|cs|] == cs;
    }

    /** tdefl_record_match. */
    method RecordMatch(matchLen: nat, matchDist: nat)
      requires Valid() && code + 4 <= LZ_CODE_BUF_SIZE && CodeOk(Match(matchLen, matchDist))
      modifies this, buf, litCount, distCount
      ensures Valid() && Codes() == old(Codes()) + [Match(matchLen, matchDist)] && code <= old(code) + 4
      ensures totalBytes == old(totalBytes) + matchLen
    {
      hide LitCounts, DistCounts, FlagsUnderWay, Payload, Image, LenSym, DistSym;
      ghost var before, cs, c := buf[..], Codes(), Match(matchLen, matchDist);
      var s, t := LenSym(matchLen - 3), DistSym(matchDist - 1);
      assert s == LitSym(c) && t == MatchSym(c);
      CountsAppend(cs, c);
      totalBytes := totalBytes + matchLen;
      StoreMatch(matchLen, matchDist, before);
      ShiftFlags(true, before, c);
      ghost var lits, dists := litCount[..], distCount[..];
      distCount[t] := distCount[t] + 1;
      litCount[s] := litCount[s] + 1;
      assert litCount[..] == lits[s := lits[s] + 1] && distCount[..] == dists[t := dists[t] + 1];
      assert (cs + [c])[..|cs|] == cs;
    }

    method StoreMatch(matchLen: nat, matchDist: nat, ghost before: seq<byte>)
      requires buf.Length == LZ_CODE_BUF_SIZE && code + 4 <= LZ_CODE_BUF_SIZE && CodeOk(Match(matchLen, matchDist))
        && before == buf[..]
      modifies this`code, buf
      ensures code == old(code) + 3
        && buf[..] == before[..code - 3] + CodeBytes(Match(matchLen, matchDist)) + before[code..]
    {
      buf[code] := matchLen - 3;
      buf[code + 1] := (matchDist - 1) % 256;
      buf[code + 2] := (matchDist - 1) / 256;
      code := code + 3;
    }

    /** What tdefl_flush_block does first: the last byte of flags is shifted down, or dropped if it has none. */
    method Finish()
      requires Valid()
      modifies this`code, buf
      ensures AllOk(Codes()) && code <= old(code) <= LZ_CODE_BUF_SIZE && buf[..code] == Image(Codes())
    {
      hide Image, FlagsUnderWay, Payload, LitCounts, DistCounts, Pow2, FromBits;
      ghost var before := buf[..];
      FinalFlags(buf[flags], grp);
      var last := buf[flags] as int / Pow2(flagsLeft);
      buf[flags] := last;
      Finished(before, code, flags, full, grp, last, buf[..]);
      if flagsLeft == 8 {
        code := code - 1;
      }
    }
  }

  lemma {:induction false} NothingRecorded(buf: seq<byte>)
    requires |buf| > 0
    ensures Recording(buf, 1, 0, [], [])
  {
    assert ToBits(buf[0], 8)[8..] == [] == Flags([]);
    assert buf[1..1] == [] == Payload([]);
  }
}
