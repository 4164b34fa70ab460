/** MD5: the streaming buffer, the padding and the digest, for any compression function. */
module Md5 {
  import opened Bits
  import opened DigestSpec

  type Words = s: seq<nat> | |s| == 4 witness [0, 0, 0, 0]
  type Compression = (Words, seq<byte>) -> Words

  const INIT: Words := [0x67452301, 0xEFCDAB89, 0x98BADCFE, 0x10325476]
  const INT_MAX := 0x7FFF_FFFF

  /** The four words as section 3.3 of RFC 1321 gives them, low byte first: the nibbles count up, and down again. */
  lemma {:induction false} InitBytes()
    ensures LittleEndian(INIT[0], 4) == [0x01, 0x23, 0x45, 0x67] && LittleEndian(INIT[1], 4) == [0x89, 0xAB, 0xCD, 0xEF]
    ensures LittleEndian(INIT[2], 4) == [0xFE, 0xDC, 0xBA, 0x98] && LittleEndian(INIT[3], 4) == [0x76, 0x54, 0x32, 0x10]
  {
    hide LittleEndian;
    BytesOf(INIT[0], 0x01, 0x23, 0x45, 0x67);
    BytesOf(INIT[1], 0x89, 0xAB, 0xCD, 0xEF);
    BytesOf(INIT[2], 0xFE, 0xDC, 0xBA, 0x98);
    BytesOf(INIT[3], 0x76, 0x54, 0x32, 0x10);
  }

  /** The padded message: the length comes last, low byte first. */
  function Padded(msg: seq<byte>): seq<byte>
  {
    Filled(msg) + LittleEndian(BitLength(msg), 8)
  }

  /** The padded message abc. */
  lemma {:induction false} PaddedExample()
    ensures Padded([0x61, 0x62, 0x63]) == [0x61, 0x62, 0x63, 0x80] + Zeros(52) + ([24] + Zeros(7))
  {
    CountExample();
    assert [0x61, 0x62, 0x63] + [0x80] + Zeros(52) == [0x61, 0x62, 0x63, 0x80] + Zeros(52);
    assert Filled([0x61, 0x62, 0x63]) == [0x61, 0x62, 0x63] + [0x80] + Zeros(52);
  }

  function WordsOut(s: seq<nat>): (r: seq<byte>)
    ensures |r| == 4 * |s|
  {
    if s == [] then [] else WordsOut(s[..|s| - 1]) + LittleEndian(s[|s| - 1], 4)
  }

  /** Section 3 of RFC 1321 around the compression function. */
  function Digest(compress: Compression, msg: seq<byte>): (r: seq<byte>)
    ensures |r| == 16
  {
    WordsOut(Absorb(compress, INIT, Padded(msg)))
  }

  lemma {:induction false} WordOutAt(s: seq<nat>, i: nat)
    requires i < 4 * |s|
    ensures WordsOut(s)[i] == Shifted(s[i / 4], i % 4)
  {
    hide LittleEndian, Shifted;
    var n := |s| - 1;
    if i < 4 * n {
      WordOutAt(s[..n], i);
    } else {
      WordBytes(s[n]);
    }
  }

  lemma {:induction false} CountAt(msg: seq<byte>, low: nat, high: nat, k: nat)
    requires Counts(msg, low, high) && k < 8
    ensures LittleEndian(BitLength(msg), 8)[k] == Shifted(if k >= 4 then high else low, k % 4)
  {
    hide LittleEndian, Shifted, BitLength, Counts;
    CountBytes(msg, low, high);
    if k >= 4 {
      WordBytes(high);
      assert LittleEndian(BitLength(msg), 8)[k] == LittleEndian(high, 4)[k - 4];
    } else {
      WordBytes(low);
    }
  }

  class State {
    const compress: Compression
    var count0: nat
    var count1: nat
    var abcd: Words
    const buf: array<byte>

    /** The bytes of msg have been taken. */
    ghost predicate Has(msg: seq<byte>)
      reads this, buf
    {
      Counts(msg, count0, count1) && Holds(msg)
    }

    /** What has been processed and what waits in the buffer. */
    ghost predicate Holds(done: seq<byte>)
      reads this, buf
    {
      buf.Length == 64 && abcd == Absorb(compress, INIT, done) && buf[..|done| % 64] == Tail(done)
    }

    /** md5_init. */
    constructor (compress: Compression)
      ensures Has([]) && fresh(buf) && this.compress == compress
    {
      this.compress := compress;
      count0 := 0;
      count1 := 0;
      abcd := INIT;
      buf := new byte[64];
    }

    /** The count words, with the carry found by the sum being less than what was added. */
    method AddLength(nbytes: nat, ghost msg: seq<byte>, ghost more: seq<byte>)
      requires Counts(msg, count0, count1) && nbytes == |more| <= INT_MAX
      modifies this`count0, this`count1
      ensures Counts(msg + more, count0, count1)
    {
      hide Counts;
      CountsGrow(msg, more, count0, count1);
      var nbits := (nbytes * 8) % TWO32;
      CarryLater(count1, nbytes / 0x2000_0000, if count0 + nbits >= TWO32 then 1 else 0);
      count1 := (count1 + nbytes / 0x2000_0000) % TWO32;
      count0 := (count0 + nbits) % TWO32;
      if count0 < nbits { count1 := (count1 + 1) % TWO32; }
    }

    method Copy(data: array<byte>, from: nat, n: nat, to: nat)
      requires from + n <= data.Length && buf.Length == 64 && to + n <= 64 && data != buf
      modifies buf
      ensures buf[..to + n] == old(buf[..to]) + data[from..from + n]
    {
      forall k | 0 <= k < n {
        buf[to + k] := data[from + k];
      }
    }

    /** An initial partial block; done if it does not fill up. */
    method Partial(data: array<byte>, nbytes: nat, offset: nat, ghost msg: seq<byte>) returns (copy: nat, done: bool)
      requires Holds(msg) && nbytes <= data.Length && data != buf && offset == |msg| % 64 && offset > 0
      modifies this`abcd, buf
      ensures copy <= nbytes && Holds(msg + data[..copy])
      ensures if done then copy == nbytes else |msg + data[..copy]| % 64 == 0
    {
      hide Absorb, Tail;
      copy := if offset + nbytes > 64 then 64 - offset else nbytes;
      Copy(data, 0, copy, offset);
      if offset + copy < 64 {
        TailGrows(compress, INIT, msg, data[..copy]);
        assert |msg + data[..copy]| % 64 == offset + copy;
        return copy, true;
      }
      BlockFull(compress, INIT, msg, data[..copy]);
      assert buf[..] == Tail(msg) + data[..copy];
      abcd := compress(abcd, buf[..]);
      done := false;
    }

    /** Full blocks from where they lie. */
    method Blocks(data: array<byte>, p0: nat, nbytes: nat, ghost msg: seq<byte>) returns (p: nat)
      requires p0 <= nbytes <= data.Length && Holds(msg + data[..p0]) && |msg + data[..p0]| % 64 == 0
      modifies this`abcd
      ensures p <= nbytes < p + 64 && Holds(msg + data[..p]) && |msg + data[..p]| % 64 == 0
    {
      hide Absorb, Tail;
      p := p0;
      while nbytes - p >= 64
        invariant p <= nbytes && Holds(msg + data[..p]) && |msg + data[..p]| % 64 == 0
      {
        NextBlock(compress, INIT, msg, data[..], p);
        abcd := compress(abcd, data[p..p + 64]);
        p := p + 64;
      }
    }

    /** A final partial block. */
    method Rest(data: array<byte>, p: nat, left: nat, ghost done: seq<byte>)
      requires Holds(done) && p + left <= data.Length && data != buf && |done| % 64 == 0 && left < 64
      modifies buf
      ensures Holds(done + data[p..p + left])
    {
      hide Absorb, Tail;
      TailGrows(compress, INIT, done, data[p..p + left]);
      Copy(data, p, left, 0);
      assert |done + data[p..p + left]| % 64 == left;
    }

    /** md5_append: however a message is split, the state is the same as after one call. */
    method Append(data: array<byte>, nbytes: int, ghost msg: seq<byte>)
      requires Has(msg) && nbytes <= data.Length && data != buf
      requires |msg| % 64 + nbytes <= INT_MAX
      modifies this, buf
      ensures nbytes <= 0 ==> Has(msg)
      ensures nbytes > 0 ==> Has(msg + data[..nbytes])
    {
      hide Counts, Absorb, Tail;
      Waiting(msg, count0, count1);
      var offset := (count0 / 8) % 64;
      if nbytes <= 0 { return; }
      AddLength(nbytes, msg, data[..nbytes]);
      var p := 0;
      assert msg + data[..0] == msg;
      if offset != 0 {
        var full;
        p, full := Partial(data, nbytes, offset, msg);
        if full { return; }
      }
      p := Blocks(data, p, nbytes, msg);
      assert msg + data[..p] + data[p..p + (nbytes - p)] == msg + data[..nbytes];
      if nbytes - p != 0 {
        Rest(data, p, nbytes - p, msg + data[..p]);
      } else {
        assert data[p..p + (nbytes - p)] == [];
        assert msg + data[..p] + [] == msg + data[..p];
      }
    }

    /** From 1 to 64 bytes of padding. */
    method Pad(ghost msg: seq<byte>)
      requires Has(msg)
      modifies this, buf
      ensures Has(Filled(msg))
    {
      hide Counts, Absorb, Tail;
      Waiting(msg, count0, count1);
      var pad := new byte[64](i => if i == 0 then 0x80 else 0);
      var n := (55 - count0 / 8) % 64 + 1;
      PadLength(msg, count0);
      assert msg + pad[..n] == Filled(msg);
      Append(pad, n, msg);
    }

    /** md5_finish: the digest is that of the padded message. */
    method Finish(ghost msg: seq<byte>) returns (digest: array<byte>)
      requires Has(msg)
      modifies this, buf
      ensures fresh(digest) && digest.Length == 16 && digest[..] == Digest(compress, msg)
      ensures Has(Padded(msg))
    {
      hide Counts, Absorb, LittleEndian, WordsOut, Tail, BitLength;
      var data := new byte[8];
      SaveLength(data, msg);
      ghost var length := data[..];
      Pad(msg);
      assert data[..8] == length;
      Append(data, 8, Filled(msg));
      digest := new byte[16];
      Output(digest, Padded(msg));
    }

    /** The length before padding. */
    method SaveLength(data: array<byte>, ghost msg: seq<byte>)
      requires Counts(msg, count0, count1) && data.Length == 8
      modifies data
      ensures data[..] == LittleEndian(BitLength(msg), 8)
    {
      hide *;
      for i := 0 to 8
        invariant forall k :: 0 <= k < i ==> data[k] == LittleEndian(BitLength(msg), 8)[k]
      {
        CountAt(msg, count0, count1, i);
        data[i] := Shifted(if i >= 4 then count1 else count0, i % 4);
      }
    }

    /** The words of the state, low byte first. */
    method Output(digest: array<byte>, ghost msg: seq<byte>)
      requires Has(msg) && digest.Length == 16 && digest != buf
      modifies digest
      ensures digest[..] == WordsOut(Absorb(compress, INIT, msg))
    {
      hide Absorb, Shifted;
      for i := 0 to 16
        invariant forall k :: 0 <= k < i ==> digest[k] == WordsOut(abcd)[k]
      {
        WordOutAt(abcd, i);
        digest[i] := Shifted(abcd[i / 4], i % 4);
      }
    }
  }

  lemma {:induction false} PadLength(msg: seq<byte>, low: nat)
    requires (low / 8) % 64 == |msg| % 64
    ensures (55 - low / 8) % 64 == (55 - |msg|) % 64
  {
  }

  lemma {:induction false} CarryLater(x: nat, y: nat, carry: nat)
    ensures ((x + y) % TWO32 + carry) % TWO32 == (x + carry + y) % TWO32
    ensures (x + y) % TWO32 == (x + 0 + y) % TWO32
  {
  }
}
