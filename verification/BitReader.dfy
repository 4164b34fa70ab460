/** tinfl's bit input: a bit buffer behind the input cursor, and the position in the stream it stands for. */
module BitReading {
  import opened Bits
  import opened DeflateSpec

  class BitReader {
    const input: seq<byte>
    var cur: nat
    var bitBuf: nat
    var numBits: nat

    ghost function Stream(): seq<bool>
    {
      BytesToBits(input)
    }

    /** The next bit of the stream. */
    ghost function Pos(): int
      reads this
    {
      8 * cur - numBits
    }

    /** The bit buffer holds the bits between the position and the cursor. */
    ghost predicate Valid()
      reads this
    {
      && cur <= |input| && numBits <= 8 * cur && numBits <= 32 && bitBuf < Pow2(numBits)
      && ToBits(bitBuf, numBits) == Stream()[8 * cur - numBits..8 * cur]
    }

    constructor (data: seq<byte>)
      ensures Valid() && input == data && Pos() == 0
    {
      input, cur, bitBuf, numBits := data, 0, 0, 0;
    }

    /** The next byte goes above the bits in the buffer. */
    method AddByte()
      requires Valid() && cur < |input| && numBits <= 24
      modifies this
      ensures Valid() && Pos() == old(Pos()) && cur == old(cur) + 1 && numBits == old(numBits) + 8
    {
      hide ToBits, BytesToBits, Pow2;
      Pow2Of8();
      ToBitsAppend(bitBuf, numBits, input[cur], 8);
      StreamByte(input, cur);
      ghost var s, p := Stream(), 8 * cur;
      assert s[p - numBits..p + 8] == s[p - numBits..p] + s[p..p + 8];
      bitBuf := bitBuf + input[cur] * Pow2(numBits);
      cur := cur + 1;
      numBits := numBits + 8;
    }

    /** The lowest bits are used up. */
    method Drop(n: nat)
      requires Valid() && n <= numBits
      modifies `bitBuf, `numBits
      ensures Valid() && Pos() == old(Pos()) + n && numBits == old(numBits) - n
    {
      hide ToBits, BytesToBits, Pow2;
      ToBitsDrop(bitBuf, numBits, n);
      Pow2Add(n, numBits - n);
      QuotientBelow(bitBuf, Pow2(n), Pow2(numBits - n));
      ghost var s, p := Stream(), 8 * cur;
      assert s[p - numBits..p][n..] == s[p - (numBits - n)..p];
      bitBuf := bitBuf / Pow2(n);
      numBits := numBits - n;
    }

    /** TINFL_NEED_BITS; it fails when the input ends first. */
    method NeedBits(n: nat) returns (ok: bool)
      requires Valid() && n <= 16
      modifies this
      ensures Valid() && Pos() == old(Pos())
      ensures ok <==> Pos() + n <= |Stream()|
      ensures ok ==> n <= numBits
    {
      while numBits < n
        invariant Valid() && Pos() == old(Pos())
        decreases n - numBits
      {
        if cur >= |input| { return false; }
        AddByte();
      }
      ok := true;
    }

    /** TINFL_GET_BITS. */
    method GetBits(n: nat) returns (ok: bool, v: nat)
      requires Valid() && n <= 16
      modifies this
      ensures Valid()
      ensures ok ==> Field(Stream(), old(Pos()), n) == Got(v, Pos()) && Pos() == old(Pos()) + n
      ensures !ok ==> Pos() == old(Pos()) && Field(Stream(), Pos(), n) == Fail
    {
      hide ToBits, BytesToBits, Pow2, FromBits;
      v := 0;
      ok := NeedBits(n);
      if ok {
        FrontField(Stream(), bitBuf, numBits, 8 * cur, n);
        v := bitBuf % Pow2(n);
        Drop(n);
      }
    }

    /** TINFL_SKIP_BITS up to the next byte. */
    method SkipToByte()
      requires Valid()
      modifies `bitBuf, `numBits
      ensures Valid() && Pos() % 8 == 0 && old(Pos()) <= Pos() < old(Pos()) + 8 && numBits % 8 == 0
    {
      hide ToBits, BytesToBits, Pow2;
      Drop(numBits % 8);
    }

    /** TINFL_GET_BITS(8) while there are bits, TINFL_GET_BYTE otherwise. */
    method GetByte() returns (ok: bool, v: nat)
      requires Valid()
      modifies this
      ensures Valid()
      ensures ok ==> Field(Stream(), old(Pos()), 8) == Got(v, Pos())
      ensures !ok ==> Pos() == old(Pos()) && Field(Stream(), Pos(), 8) == Fail
      ensures old(numBits) == 0 ==> numBits == 0
    {
      if numBits > 0 {
        ok, v := GetBits(8);
      } else if cur >= |input| {
        ok, v := false, 0;
      } else {
        v := input[cur];
        ByteField(input, cur);
        NoBitsHeld(input, cur + 1);
        cur := cur + 1;
        ok := true;
      }
    }

    /** Bytes that were read ahead are put back, and bits above those that are left are cleared. */
    method PutBack()
      requires Valid() && numBits % 8 == 0
      modifies this
      ensures Valid() && numBits == 0 && Pos() == old(Pos()) && 8 * cur == Pos()
    {
      GiveBack();
      NoBitsHeld(input, cur);
      hide ToBits, BytesToBits, Pow2;
      bitBuf := 0;
    }

    method GiveBack()
      requires cur <= |input| && numBits <= 8 * cur && numBits % 8 == 0
      modifies `cur, `numBits
      ensures cur <= |input| && numBits == 0 && Pos() == old(Pos())
    {
      ghost var p, k := Pos(), numBits / 8;
      while cur > 0 && numBits >= 8
        invariant 0 <= k && numBits == 8 * k && cur <= |input| && 8 * cur - numBits == p && p >= 0
        decreases k
      {
        cur := cur - 1;
        numBits := numBits - 8;
        k := k - 1;
      }
    }
  }

  lemma {:induction false} StreamByte(s: seq<byte>, i: nat)
    requires i < |s|
    ensures BytesToBits(s)[8 * i..8 * i + 8] == ToBits(s[i], 8)
  {
    hide ToBits;
    if i == 0 {
      assert BytesToBits(s)[..8] == ToBits(s[0], 8);
    } else {
      StreamByte(s[1..], i - 1);
      var t := BytesToBits(s[1..]);
      assert BytesToBits(s)[8..] == t;
      assert BytesToBits(s)[8 * i..8 * i + 8] == t[8 * (i - 1)..8 * (i - 1) + 8];
    }
  }

  lemma {:induction false} LowField(v: nat, n: nat, m: nat)
    requires m <= n
    ensures v % Pow2(m) == FromBits(ToBits(v, n)[..m])
  {
    ToBitsTake(v, n, m);
    ToBitsMod(v, m);
    FromTo(v % Pow2(m), m);
  }

  lemma {:induction false} FrontField(s: seq<bool>, v: nat, k: nat, end: nat, n: nat)
    requires n <= k <= end <= |s| && ToBits(v, k) == s[end - k..end]
    ensures Field(s, end - k, n) == Got(v % Pow2(n), end - k + n)
  {
    hide ToBits, Pow2, FromBits;
    LowField(v, k, n);
    assert s[end - k..end][..n] == s[end - k..end - k + n];
  }

  lemma {:induction false} ByteField(s: seq<byte>, i: nat)
    requires i < |s|
    ensures Field(BytesToBits(s), 8 * i, 8) == Got(s[i] as nat, 8 * i + 8)
  {
    hide ToBits, BytesToBits;
    StreamByte(s, i);
    Pow2Of8();
    FromTo(s[i], 8);
  }

  lemma {:induction false} NoBitsHeld(s: seq<byte>, i: nat)
    requires i <= |s|
    ensures BytesToBits(s)[8 * i..8 * i] == [] && Pow2(0) == 1
  {
  }
}
