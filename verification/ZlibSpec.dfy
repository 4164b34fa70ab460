/** The zlib format (RFC 1950) around a DEFLATE stream: two bytes in front, the Adler-32 of the data behind. */
module ZlibSpec {
  import opened Bits
  import opened DeflateSpec
  import opened DeflateBlocks
  import opened Adlers

  // ---- what a reader makes of a stream

  /** Section 2.2 of RFC 1950: the method is DEFLATE, no dictionary is asked for, and the check bits fit. */
  ghost predicate GoodHeader(cmf: nat, flg: nat)
  {
    (cmf * 256 + flg) % 31 == 0 && flg / 32 % 2 == 0 && cmf % 16 == 8
  }

  /** The headers of the four usual levels, and some with wrong check bits, a dictionary, or another method. */
  lemma {:induction false} HeaderExamples()
    ensures GoodHeader(0x78, 0x01) && GoodHeader(0x78, 0x5E) && GoodHeader(0x78, 0x9C) && GoodHeader(0x78, 0xDA)
    ensures !GoodHeader(0x78, 0x02) && !GoodHeader(0x01, 0x78) && !GoodHeader(0x78, 0x20) && !GoodHeader(0x79, 0x18)
  {
  }

  /** A number of n bytes, the first of them highest. */
  ghost function BigField(bits: seq<bool>, pos: nat, n: nat): (r: Read<nat>)
    ensures r.Got? ==> r.pos == pos + 8 * n && r.pos <= |bits|
  {
    if n == 0 then (if pos <= |bits| then Got(0, pos) else Fail)
    else
      var x := BigField(bits, pos, n - 1);
      if x == Fail then Fail
      else
        var s := Field(bits, x.pos, 8);
        if s == Fail then Fail else Got(256 * x.v + s.v, s.pos)
  }

  /** The data of a zlib stream whose check value is right. */
  ghost function ZlibAt(bits: seq<bool>): Read<seq<byte>>
  {
    var cmf, flg := Field(bits, 0, 8), Field(bits, 8, 8);
    if cmf == Fail || flg == Fail || !GoodHeader(cmf.v, flg.v) then Fail
    else
      var goal := StreamAt(bits, 16, []);
      if goal == Fail then Fail
      else
        var sum := BigField(bits, Align(goal.pos), 4);
        if sum == Fail || sum.v != Adler(INIT, goal.v) then Fail else Got(goal.v, sum.pos)
  }

  // ---- what a writer puts around it

  /** The header that tdefl writes, if it is asked to. */
  function HeadBits(zlib: bool): seq<bool>
  {
    if zlib then ToBits(0x78, 8) + ToBits(0x01, 8) else []
  }

  /** Four bytes, the highest first. */
  function SumBits(sum: nat): (r: seq<bool>)
    ensures |r| == 32
  {
    ToBits(sum / 0x100_0000 % 256, 8) + ToBits(sum / 0x1_0000 % 256, 8) + ToBits(sum / 0x100 % 256, 8)
      + ToBits(sum % 256, 8)
  }

  /** The checksum behind the stream. */
  function Trailer(zlib: bool, sum: nat): (r: seq<bool>)
    ensures |r| == if zlib then 32 else 0
  {
    if zlib then SumBits(sum) else []
  }

  lemma {:induction false} ByteThere(v: nat, bits: seq<bool>, pos: nat)
    requires v < 256 && pos + 8 <= |bits| && bits[pos..pos + 8] == ToBits(v, 8)
    ensures Field(bits, pos, 8) == Got(v, pos + 8)
  {
    Pow2Of8();
    FromTo(v, 8);
  }

  lemma {:induction false} HeadThere(bits: seq<bool>)
    requires HeadBits(true) <= bits
    ensures |HeadBits(true)| == 16 && Field(bits, 0, 8) == Got(0x78, 8) && Field(bits, 8, 8) == Got(0x01, 16)
    ensures GoodHeader(0x78, 0x01)
  {
    hide ToBits, Field;
    assert HeadBits(true)[..8] == ToBits(0x78, 8) && HeadBits(true)[8..] == ToBits(0x01, 8);
    assert bits[0..8] == HeadBits(true)[..8] && bits[8..16] == HeadBits(true)[8..];
    ByteThere(0x78, bits, 0);
    ByteThere(0x01, bits, 8);
  }

  lemma {:induction false} SumParts(sum: nat)
    ensures var w := SumBits(sum);
      && w[0..8] == ToBits(sum / 0x100_0000 % 256, 8) && w[8..16] == ToBits(sum / 0x1_0000 % 256, 8)
      && w[16..24] == ToBits(sum / 0x100 % 256, 8) && w[24..32] == ToBits(sum % 256, 8)
  {
    hide ToBits;
  }

  lemma {:induction false} SliceOf(bits: seq<bool>, pos: nat, n: nat, i: nat, j: nat)
    requires pos + n <= |bits| && i <= j <= n
    ensures bits[pos..pos + n][i..j] == bits[pos + i..pos + j]
  {
    var a, b := bits[pos..pos + n][i..j], bits[pos + i..pos + j];
    forall k | 0 <= k < |b|
      ensures a[k] == b[k]
    {
    }
  }

  lemma {:induction false} SumDigits(sum: nat)
    requires sum < 0x1_0000_0000
    ensures sum
      == 256 * (256 * (256 * (sum / 0x100_0000 % 256) + sum / 0x1_0000 % 256) + sum / 0x100 % 256) + sum % 256
  {
  }

  lemma {:induction false} SumThere(sum: nat, bits: seq<bool>, pos: nat)
    requires sum < 0x1_0000_0000 && pos + 32 <= |bits| && bits[pos..pos + 32] == SumBits(sum)
    ensures BigField(bits, pos, 4) == Got(sum, pos + 32)
  {
    hide ToBits, Field, SumBits, BigField;
    SumDigits(sum);
    SumParts(sum);
    SliceOf(bits, pos, 32, 0, 8);
    SliceOf(bits, pos, 32, 8, 16);
    SliceOf(bits, pos, 32, 16, 24);
    SliceOf(bits, pos, 32, 24, 32);
    var a, b, c, d := sum / 0x100_0000 % 256, sum / 0x1_0000 % 256, sum / 0x100 % 256, sum % 256;
    ByteThere(a, bits, pos);
    ByteThere(b, bits, pos + 8);
    ByteThere(c, bits, pos + 16);
    ByteThere(d, bits, pos + 24);
    FourBytes(sum, bits, pos, a, b, c, d);
  }

  lemma {:induction false} FourBytes(sum: nat, bits: seq<bool>, pos: nat, a: nat, b: nat, c: nat, d: nat)
    requires pos + 32 <= |bits| && Field(bits, pos, 8) == Got(a, pos + 8) && Field(bits, pos + 8, 8) == Got(b, pos + 16)
    requires Field(bits, pos + 16, 8) == Got(c, pos + 24) && Field(bits, pos + 24, 8) == Got(d, pos + 32)
    requires sum == 256 * (256 * (256 * a + b) + c) + d
    ensures BigField(bits, pos, 4) == Got(sum, pos + 32)
  {
    hide Field;
    assert BigField(bits, pos, 1) == Got(a, pos + 8);
    assert BigField(bits, pos, 2) == Got(256 * a + b, pos + 16);
    assert BigField(bits, pos, 3) == Got(256 * (256 * a + b) + c, pos + 24);
  }
}
