/** tdefl's bit output: a bit buffer in front of a byte buffer that drops what does not fit. */
module BitWriting {
  import opened Bits

  const OUT_BUF_SIZE := 85196
  const LIMIT := OUT_BUF_SIZE - 16

  class BitWriter {
    const buf: array<byte>
    var len: nat
    var bitBuffer: nat
    var bitsIn: nat

    ghost predicate Valid()
      reads this
    {
      buf.Length == OUT_BUF_SIZE && len <= LIMIT && bitsIn < 8 && bitBuffer < Pow2(bitsIn)
    }

    /** All the bits written so far, as long as none was dropped. */
    ghost function Bits(): seq<bool>
      reads this, buf
      requires Valid()
    {
      BytesToBits(buf[..len]) + ToBits(bitBuffer, bitsIn)
    }

    /** How far the output has come. */
    ghost function Size(): nat
      reads this
    {
      8 * len + bitsIn
    }

    constructor ()
      ensures Valid() && fresh(buf) && len == bitsIn == bitBuffer == 0
    {
      buf := new byte[OUT_BUF_SIZE];
      len, bitBuffer, bitsIn := 0, 0, 0;
    }

    /**
     The bits of base have been written, except that bytes were dropped once the buffer was full;
     saved still stands in front.
     */
    ghost predicate Has(saved: seq<byte>, base: seq<bool>)
      reads this, buf
    {
      && Valid() && |saved| <= len && buf[..|saved|] == saved
      && Size() <= |base| && bitsIn == |base| % 8
      && (len < LIMIT ==> Bits() == base)
    }

    /** TDEFL_PUT_BITS. */
    method PutBits(b: nat, l: nat, ghost saved: seq<byte>, ghost base: seq<bool>)
      requires Has(saved, base) && b < Pow2(l)
      modifies `len, `bitBuffer, `bitsIn, buf
      ensures Has(saved, base + ToBits(b, l)) && old(len) <= len
      ensures old(len) < LIMIT && old(bitsIn) + l < 16 ==> Bits() == base + ToBits(b, l)
    {
      hide BytesToBits, ToBits, Pow2;
      ghost var before, a, x := buf[..len], ToBits(bitBuffer, bitsIn), ToBits(b, l);
      assert (BytesToBits(before) + a) + x == BytesToBits(before) + (a + x);
      ghost var want := BytesToBits(before) + (a + x);
      AddMod8(|base|, l);
      OrBits(b, l);
      Drain(want, before);
      assert old(len) < LIMIT ==> base + x == want;
      assert before[..|saved|] == saved;
      assert buf[..|saved|] == buf[..|before|][..|saved|];
    }

    /** The byte buffer is empty again; the bits that do not fill a byte stay. */
    method Restart()
      requires Valid()
      modifies `len
      ensures Has([], ToBits(bitBuffer, bitsIn)) && len == 0
    {
      hide ToBits;
      len := 0;
      assert buf[..0] == [];
      assert BytesToBits([]) + ToBits(bitBuffer, bitsIn) == ToBits(bitBuffer, bitsIn);
    }

    /** Forgets everything behind a saved position. */
    method Rewind(n: nat, b: nat, k: nat, ghost saved: seq<byte>, ghost base: seq<bool>)
      requires Valid() && n <= len && |saved| == n && buf[..n] == saved
      requires k < 8 && b < Pow2(k) && base == BytesToBits(saved) + ToBits(b, k)
      modifies `len, `bitBuffer, `bitsIn
      ensures Has(saved, base) && len == n
    {
      hide BytesToBits, ToBits, Pow2;
      len, bitBuffer, bitsIn := n, b, k;
      Mod8(n, k);
    }

    /** The new bits go above those that are there. */
    method OrBits(b: nat, l: nat)
      requires Valid() && b < Pow2(l)
      modifies `bitBuffer, `bitsIn
      ensures bitsIn == old(bitsIn) + l && bitBuffer < Pow2(bitsIn)
      ensures ToBits(bitBuffer, bitsIn) == ToBits(old(bitBuffer), old(bitsIn)) + ToBits(b, l)
    {
      hide ToBits, Pow2;
      ToBitsAppend(bitBuffer, bitsIn, b, l);
      bitBuffer := bitBuffer + b * Pow2(bitsIn);
      bitsIn := bitsIn + l;
    }

    /** The loop of TDEFL_PUT_BITS. */
    method Drain(ghost want: seq<bool>, ghost before: seq<byte>)
      requires buf.Length == OUT_BUF_SIZE && len <= LIMIT && bitBuffer < Pow2(bitsIn)
      requires |before| == len && buf[..len] == before
      requires len < LIMIT ==> BytesToBits(buf[..len]) + ToBits(bitBuffer, bitsIn) == want
      modifies `len, `bitBuffer, `bitsIn, buf
      ensures Valid() && old(len) <= len && buf[..old(len)] == before
      ensures len < LIMIT || (old(len) < LIMIT && old(bitsIn) < 16) ==> Bits() == want
      ensures Size() <= old(Size()) && bitsIn == old(bitsIn) % 8
    {
      hide BytesToBits, ToBits, Pow2;
      while bitsIn >= 8
        invariant buf.Length == OUT_BUF_SIZE && old(len) <= len <= LIMIT && bitBuffer < Pow2(bitsIn)
        invariant buf[..old(len)] == before
        invariant len < LIMIT || (old(len) < LIMIT && old(bitsIn) < 16) ==>
          BytesToBits(buf[..len]) + ToBits(bitBuffer, bitsIn) == want
        invariant old(bitsIn) < 16 && bitsIn >= 8 ==> len == old(len)
        invariant Size() <= old(Size()) && bitsIn % 8 == old(bitsIn) % 8
        decreases bitsIn
      {
        PutByte(want, before);
      }
    }

    /** One turn of the loop: the low byte goes to the byte buffer if there is room. */
    method PutByte(ghost want: seq<bool>, ghost before: seq<byte>)
      requires buf.Length == OUT_BUF_SIZE && len <= LIMIT && bitsIn >= 8 && bitBuffer < Pow2(bitsIn)
      requires |before| <= len && buf[..|before|] == before
      requires len < LIMIT ==> BytesToBits(buf[..len]) + ToBits(bitBuffer, bitsIn) == want
      modifies `len, `bitBuffer, `bitsIn, buf
      ensures len == (if old(len) < LIMIT then old(len) + 1 else old(len)) && bitsIn == old(bitsIn) - 8
        && bitBuffer < Pow2(bitsIn)
      ensures buf[..|before|] == before
      ensures old(len) < LIMIT ==> BytesToBits(buf[..len]) + ToBits(bitBuffer, bitsIn) == want
    {
      hide BytesToBits, ToBits, Pow2;
      LowByte(bitBuffer, bitsIn);
      HighPart(bitBuffer, bitsIn);
      if len < LIMIT {
        ghost var b, v, n := buf[..len], bitBuffer, bitsIn;
        BytesAppend(b, v % 256);
        assert want == (BytesToBits(b) + ToBits(v % 256, 8)) + ToBits(v / 256, n - 8);
        buf[len] := bitBuffer % 256;
        assert buf[..len + 1] == b + [v % 256];
        len := len + 1;
      }
      bitBuffer := bitBuffer / 256;
      bitsIn := bitsIn - 8;
    }

    /** TDEFL_PUT_BITS of zeros up to a byte boundary, as before a stored block. */
    method PadToByte(ghost saved: seq<byte>, ghost base: seq<bool>)
      requires Has(saved, base)
      modifies `len, `bitBuffer, `bitsIn, buf
      ensures Has(saved, base + seq((8 - |base| % 8) % 8, _ => false)) && old(len) <= len && bitsIn == 0
      ensures old(len) < LIMIT ==> Bits() == base + seq((8 - |base| % 8) % 8, _ => false)
    {
      hide ToBits, Pow2;
      ghost var n := (8 - bitsIn) % 8;
      NoBits(n);
      if bitsIn > 0 {
        PutBits(0, 8 - bitsIn, saved, base);
      } else {
        assert base + seq(0, _ => false) == base;
      }
    }
  }

  lemma {:induction false} Mod8(n: nat, k: nat)
    requires k < 8
    ensures (8 * n + k) % 8 == k
  {
  }

  lemma {:induction false} AddMod8(n: nat, l: nat)
    ensures (n % 8 + l) % 8 == (n + l) % 8
  {
  }

  lemma {:induction false} HighPart(v: nat, n: nat)
    requires n >= 8 && v < Pow2(n)
    ensures v / 256 < Pow2(n - 8)
  {
    Pow2Of8();
    Pow2Add(8, n - 8);
  }

  lemma {:induction false} NoBits(n: nat)
    ensures 0 < Pow2(n) && ToBits(0, n) == seq(n, _ => false)
  {
    if n > 0 {
      NoBits(n - 1);
      assert seq(n, _ => false) == [false] + seq(n - 1, _ => false);
    }
  }
}
