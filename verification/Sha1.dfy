/** SHA-1: the streaming buffer, the padding and the digest, for any compression function. */
module Sha1 {
  import opened Bits
  import opened DigestSpec

  type Words = s: seq<nat> | |s| == 5 witness [0, 0, 0, 0, 0]
  type Compression = (Words, seq<byte>) -> Words

  const INIT: Words := [0x67452301, 0xEFCDAB89, 0x98BADCFE, 0x10325476, 0xC3D2E1F0]

  /** The five words of section 6.1 of RFC 3174, low byte first: the nibbles count up, down, and in pairs. */
  lemma {:induction false} InitBytes()
    ensures LittleEndian(INIT[0], 4) == [0x01, 0x23, 0x45, 0x67] && LittleEndian(INIT[1], 4) == [0x89, 0xAB, 0xCD, 0xEF]
    ensures LittleEndian(INIT[2], 4) == [0xFE, 0xDC, 0xBA, 0x98] && LittleEndian(INIT[3], 4) == [0x76, 0x54, 0x32, 0x10]
    ensures LittleEndian(INIT[4], 4) == [0xF0, 0xE1, 0xD2, 0xC3]
  {
    hide LittleEndian;
    BytesOf(INIT[0], 0x01, 0x23, 0x45, 0x67);
    BytesOf(INIT[1], 0x89, 0xAB, 0xCD, 0xEF);
    BytesOf(INIT[2], 0xFE, 0xDC, 0xBA, 0x98);
    BytesOf(INIT[3], 0x76, 0x54, 0x32, 0x10);
    BytesOf(INIT[4], 0xF0, 0xE1, 0xD2, 0xC3);
  }

  /** The padded message: the length comes last, high byte first. */
  function Padded(msg: seq<byte>): seq<byte>
  {
    Filled(msg) + BigEndian(BitLength(msg), 8)
  }

  /** The padded message abc, as the standards' examples have it. */
  lemma {:induction false} PaddedExample()
    ensures Padded([0x61, 0x62, 0x63]) == [0x61, 0x62, 0x63, 0x80] + Zeros(52) + (Zeros(7) + [24])
  {
    CountExample();
    assert [0x61, 0x62, 0x63] + [0x80] + Zeros(52) == [0x61, 0x62, 0x63, 0x80] + Zeros(52);
    assert Filled([0x61, 0x62, 0x63]) == [0x61, 0x62, 0x63] + [0x80] + Zeros(52);
  }

  function WordsOut(s: seq<nat>): (r: seq<byte>)
    ensures |r| == 4 * |s|
  {
    if s == [] then [] else WordsOut(s[..|s| - 1]) + BigEndian(s[|s| - 1], 4)
  }

  /** Section 6 of RFC 3174 around the compression function. */
  function Digest(compress: Compression, msg: seq<byte>): (r: seq<byte>)
    ensures |r| == 20
  {
    WordsOut(Absorb(compress, INIT, Padded(msg)))
  }

  lemma {:induction false} WordOutAt(s: seq<nat>, i: nat)
    requires i < 4 * |s|
    ensures WordsOut(s)[i] == Shifted(s[i / 4], 3 - i % 4)
  {
    hide BigEndian, Shifted;
    var n := |s| - 1;
    if i < 4 * n {
      WordOutAt(s[..n], i);
    } else {
      WordBytes(s[n]);
    }
  }

  class Context {
    const compress: Compression
    var state: Words
    var count0: nat
    var count1: nat
    const buffer: array<byte>

    /** The bytes of msg have been taken. */
    ghost predicate Has(msg: seq<byte>)
      reads this, buffer
    {
      && buffer.Length == 64 && Counts(msg, count0, count1)
      && state == Absorb(compress, INIT, msg) && buffer[..|msg| % 64] == Tail(msg)
    }

    /** SHA1Init. */
    constructor (compress: Compression)
      ensures Has([]) && fresh(buffer) && this.compress == compress
    {
      this.compress := compress;
      state := INIT;
      count0 := 0;
      count1 := 0;
      buffer := new byte[64];
    }

    /** The count words, with the carry found by the sum having become smaller. */
    method AddLength(len: nat, ghost msg: seq<byte>, ghost more: seq<byte>)
      requires Counts(msg, count0, count1) && len == |more| < TWO32
      modifies this`count0, this`count1
      ensures Counts(msg + more, count0, count1)
    {
      hide Counts;
      CountsGrow(msg, more, count0, count1);
      var j := count0;
      CarryTwice(count1, if count0 + (len * 8) % TWO32 >= TWO32 then 1 else 0, len / 0x2000_0000);
      count0 := (count0 + (len * 8) % TWO32) % TWO32;
      if count0 < j { count1 := (count1 + 1) % TWO32; }
      count1 := (count1 + len / 0x2000_0000) % TWO32;
    }

    method Copy(data: array<byte>, from: nat, n: nat, to: nat)
      requires from + n <= data.Length && buffer.Length == 64 && to + n <= 64 && data != buffer
      modifies buffer
      ensures buffer[..to + n] == old(buffer[..to]) + data[from..from + n]
    {
      forall k | 0 <= k < n {
        buffer[to + k] := data[from + k];
      }
    }

    /** What has been compressed and what waits in the buffer. */
    ghost predicate Holds(done: seq<byte>)
      reads this, buffer
    {
      buffer.Length == 64 && state == Absorb(compress, INIT, done) && buffer[..|done| % 64] == Tail(done)
    }

    /** The block in the buffer is completed. */
    method FirstBlock(data: array<byte>, j: nat, ghost msg: seq<byte>) returns (i: nat)
      requires Holds(msg) && data != buffer && j == |msg| % 64 && 64 - j <= data.Length
      modifies this`state, buffer
      ensures i == 64 - j && Holds(msg + data[..i]) && |msg + data[..i]| % 64 == 0
    {
      hide Absorb, Tail;
      i := 64 - j;
      BlockFull(compress, INIT, msg, data[..i]);
      Copy(data, 0, i, j);
      assert buffer[..] == Tail(msg) + data[..i];
      state := compress(state, buffer[..]);
    }

    /** The first block from the buffer, the others from where they lie. */
    method Blocks(data: array<byte>, len: nat, j: nat, ghost msg: seq<byte>) returns (i: nat)
      requires Holds(msg) && len <= data.Length && data != buffer && j == |msg| % 64 && j + len > 63
      modifies this`state, buffer
      ensures i <= len < i + 64 && Holds(msg + data[..i]) && |msg + data[..i]| % 64 == 0
    {
      hide Absorb, Tail;
      i := FirstBlock(data, j, msg);
      while i + 63 < len
        invariant i <= len && Holds(msg + data[..i]) && |msg + data[..i]| % 64 == 0
        modifies this`state
      {
        NextBlock(compress, INIT, msg, data[..], i);
        state := compress(state, data[i..i + 64]);
        i := i + 64;
      }
    }

    /** The bytes that fill no block. */
    method Rest(data: array<byte>, i: nat, len: nat, j: nat, ghost done: seq<byte>)
      requires Holds(done) && i <= len <= data.Length && data != buffer && j == |done| % 64 && j + (len - i) < 64
      modifies buffer
      ensures Holds(done + data[i..len])
    {
      hide Absorb, Tail;
      TailGrows(compress, INIT, done, data[i..len]);
      Copy(data, i, len - i, j);
      assert |done + data[i..len]| % 64 == j + (len - i);
    }

    /** SHA1Update: however a message is split, the state is the same as after one call. */
    method Update(data: array<byte>, len: nat, ghost msg: seq<byte>)
      requires Has(msg) && len <= data.Length && data != buffer
      requires |msg| % 64 + len < TWO32
      modifies this, buffer
      ensures Has(msg + data[..len])
    {
      hide Counts, Absorb, Tail;
      var j := count0;
      Waiting(msg, count0, count1);
      assert Holds(msg);
      AddLength(len, msg, data[..len]);
      j := (j / 8) % 64;
      var i := 0;
      assert msg + data[..0] == msg;
      if j + len > 63 {
        i := Blocks(data, len, j, msg);
        j := 0;
      }
      assert msg + data[..i] + data[i..len] == msg + data[..len];
      Rest(data, i, len, j, msg + data[..i]);
    }

    /** One byte. */
    method UpdateByte(c: byte, ghost msg: seq<byte>)
      requires Has(msg)
      modifies this, buffer
      ensures Has(msg + [c])
    {
      var one := new byte[1](i => c);
      assert one[..1] == [c];
      Update(one, 1, msg);
    }

    /** 0200 and then zeros until 56 bytes of a block are used. */
    method Pad(ghost msg: seq<byte>)
      requires Has(msg)
      modifies this, buffer
      ensures Has(Filled(msg))
    {
      hide Has, Zeros, Filled;
      UpdateByte(0x80, msg);
      ghost var z := 0;
      ghost var padded := msg + [0x80];
      NoZeros(msg);
      var byteCount := ByteCount(padded);
      while byteCount != 56
        invariant Has(padded) && padded == msg + [0x80] + Zeros(z) && byteCount == |padded| % 64
        invariant z <= (55 - |msg|) % 64
        decreases 64 - z
      {
        Unfilled(msg, z);
        UpdateByte(0, padded);
        z := z + 1;
        padded := padded + [0];
        byteCount := ByteCount(padded);
      }
      FilledWhen(msg, z);
    }

    /** SHA1Final: the digest is that of the padded message. */
    method Final(ghost msg: seq<byte>) returns (digest: array<byte>)
      requires Has(msg)
      modifies this, buffer
      ensures fresh(digest) && digest.Length == 20 && digest[..] == Digest(compress, msg)
    {
      hide Counts, Absorb, BigEndian, WordsOut, Tail, BitLength;
      var finalcount := new byte[8];
      FinalCount(finalcount, msg);
      ghost var length := finalcount[..];
      Pad(msg);
      assert finalcount[..8] == length;
      Update(finalcount, 8, Filled(msg));
      digest := new byte[20];
      Output(digest, Padded(msg));
    }

    /** The position in the block, as the bits of the count tell it. */
    method ByteCount(ghost msg: seq<byte>) returns (n: nat)
      requires Has(msg)
      ensures n == |msg| % 64
    {
      Waiting(msg, count0, count1);
      n := (count0 / 8) % 64;
    }

    method FinalCount(finalcount: array<byte>, ghost msg: seq<byte>)
      requires Counts(msg, count0, count1) && finalcount.Length == 8
      modifies finalcount
      ensures finalcount[..] == BigEndian(BitLength(msg), 8)
    {
      hide *;
      for i := 0 to 8
        invariant forall k :: 0 <= k < i ==> finalcount[k] == BigEndian(BitLength(msg), 8)[k]
      {
        CountAt(msg, count0, count1, i);
        finalcount[i] := Shifted(if i >= 4 then count0 else count1, 3 - i % 4);
      }
    }

    /** The words of the state, high byte first; then the context is wiped. */
    method Output(digest: array<byte>, ghost msg: seq<byte>)
      requires Has(msg) && digest.Length == 20 && digest != buffer
      modifies digest, this, buffer
      ensures digest[..] == WordsOut(Absorb(compress, INIT, msg))
    {
      hide Absorb, Shifted;
      ghost var s := state;
      for i := 0 to 20
        invariant state == s && forall k :: 0 <= k < i ==> digest[k] == WordsOut(s)[k]
      {
        WordOutAt(s, i);
        digest[i] := Shifted(state[i / 4], 3 - i % 4);
      }
      state, count0, count1 := [0, 0, 0, 0, 0], 0, 0;
      forall k | 0 <= k < buffer.Length {
        buffer[k] := 0;
      }
    }
  }

  lemma {:induction false} CountAt(msg: seq<byte>, low: nat, high: nat, k: nat)
    requires Counts(msg, low, high) && k < 8
    ensures BigEndian(BitLength(msg), 8)[k] == Shifted(if k >= 4 then low else high, 3 - k % 4)
  {
    hide BigEndian, Shifted, BitLength, Counts;
    CountBytes(msg, low, high);
    if k >= 4 {
      WordBytes(low);
      assert BigEndian(BitLength(msg), 8)[k] == BigEndian(low, 4)[k - 4];
    } else {
      WordBytes(high);
    }
  }

  lemma {:induction false} NoZeros(msg: seq<byte>)
    ensures msg + [0x80] + Zeros(0) == msg + [0x80]
  {
  }

  lemma {:induction false} Unfilled(msg: seq<byte>, z: nat)
    requires z <= (55 - |msg|) % 64 && |msg + [0x80] + Zeros(z)| % 64 != 56
    ensures msg + [0x80] + Zeros(z + 1) == msg + [0x80] + Zeros(z) + [0]
    ensures z < (55 - |msg|) % 64
  {
  }

  lemma {:induction false} FilledWhen(msg: seq<byte>, z: nat)
    requires z <= (55 - |msg|) % 64 && |msg + [0x80] + Zeros(z)| % 64 == 56
    ensures msg + [0x80] + Zeros(z) == Filled(msg)
  {
    assert (|msg| + 1 + z) % 64 == 56;
  }

  lemma {:induction false} CarryTwice(x: nat, carry: nat, y: nat)
    ensures ((x + carry) % TWO32 + y) % TWO32 == (x + carry + y) % TWO32
    ensures x < TWO32 ==> (x + 0) % TWO32 == x
  {
  }
}
