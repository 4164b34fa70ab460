/**
 Hashing in 64-byte blocks: section 4 of RFC 3174 and sections 3.1 and 3.2 of RFC 1321, for any
 compression function.
 */
module DigestSpec {
  import opened Bits

  const TWO32 := 0x1_0000_0000
  const TWO64 := 0x1_0000_0000_0000_0000

  /** The whole blocks of data, one after another. */
  function Absorb<S>(compress: (S, seq<byte>) -> S, s: S, data: seq<byte>): S
    decreases |data|
  {
    if |data| < 64 then s else Absorb(compress, compress(s, data[..64]), data[64..])
  }

  function Zeros(n: nat): (r: seq<byte>)
    ensures |r| == n
  {
    seq(n, i => 0)
  }

  /** A one bit, zeros up to 56 modulo 64. */
  function Filled(msg: seq<byte>): (r: seq<byte>)
    ensures |r| % 64 == 56
  {
    msg + [0x80] + Zeros((55 - |msg|) % 64)
  }

  function BigEndian(v: nat, n: nat): (r: seq<byte>)
    ensures |r| == n
  {
    if n == 0 then [] else BigEndian(v / 256, n - 1) + [v % 256]
  }

  function LittleEndian(v: nat, n: nat): (r: seq<byte>)
    ensures |r| == n
  {
    if n == 0 then [] else [v % 256] + LittleEndian(v / 256, n - 1)
  }

  /** The length of a message in bits, as far as 64 bits hold it. */
  function BitLength(msg: seq<byte>): (v: nat)
    ensures v < TWO64
  {
    (8 * |msg|) % TWO64
  }

  lemma {:induction false} ZeroBytes(n: nat)
    ensures BigEndian(0, n) == Zeros(n) && LittleEndian(0, n) == Zeros(n)
  {
    if n > 0 {
      ZeroBytes(n - 1);
      assert Zeros(n - 1) + [0] == Zeros(n) == [0] + Zeros(n - 1);
    }
  }

  /** 24 bits, in both orders of the bytes. */
  lemma {:induction false} CountExample()
    ensures BigEndian(BitLength([0x61, 0x62, 0x63]), 8) == Zeros(7) + [24]
    ensures LittleEndian(BitLength([0x61, 0x62, 0x63]), 8) == [24] + Zeros(7)
  {
    hide BigEndian, LittleEndian;
    ZeroBytes(7);
    LastByte(24, 8);
  }

  lemma {:induction false} AbsorbConcat<S>(compress: (S, seq<byte>) -> S, s: S, a: seq<byte>, b: seq<byte>)
    requires |a| % 64 == 0
    ensures Absorb(compress, s, a + b) == Absorb(compress, Absorb(compress, s, a), b)
    decreases |a|
  {
    if a == [] {
      assert a + b == b;
    } else {
      AbsorbConcat(compress, compress(s, a[..64]), a[64..], b);
      assert (a + b)[..64] == a[..64] && (a + b)[64..] == a[64..] + b;
    }
  }

  /** What does not fill a block. */
  function Tail(msg: seq<byte>): (r: seq<byte>)
    ensures |r| == |msg| % 64
  {
    msg[|msg| - |msg| % 64..]
  }

  /** More bytes, but no whole block. */
  lemma {:induction false} TailGrows<S>(compress: (S, seq<byte>) -> S, s: S, msg: seq<byte>, more: seq<byte>)
    requires |msg| % 64 + |more| < 64
    ensures Absorb(compress, s, msg + more) == Absorb(compress, s, msg) && Tail(msg + more) == Tail(msg) + more
  {
    var k := |msg| - |msg| % 64;
    var p, t := msg[..k], msg[k..];
    assert msg == p + t && msg + more == p + (t + more);
    AbsorbConcat(compress, s, p, t);
    AbsorbConcat(compress, s, p, t + more);
    assert |msg + more| % 64 == |msg| % 64 + |more|;
  }

  /** Bytes that complete a block. */
  lemma {:induction false} BlockFull<S>(compress: (S, seq<byte>) -> S, s: S, msg: seq<byte>, more: seq<byte>)
    requires |msg| % 64 + |more| == 64
    ensures Absorb(compress, s, msg + more) == compress(Absorb(compress, s, msg), Tail(msg) + more)
    ensures |msg + more| % 64 == 0 && Tail(msg + more) == []
  {
    var k := |msg| - |msg| % 64;
    var p, t := msg[..k], msg[k..];
    assert msg == p + t && msg + more == p + (t + more);
    AbsorbConcat(compress, s, p, t);
    AbsorbConcat(compress, s, p, t + more);
    assert (t + more)[..64] == t + more && (t + more)[64..] == [];
    assert |msg + more| == k + 64;
  }

  /** A whole block behind whole blocks. */
  lemma {:induction false} NextBlock<S>(compress: (S, seq<byte>) -> S, s: S, msg: seq<byte>, data: seq<byte>, i: nat)
    requires i + 64 <= |data| && |msg + data[..i]| % 64 == 0
    ensures Absorb(compress, s, msg + data[..i + 64]) == compress(Absorb(compress, s, msg + data[..i]), data[i..i + 64])
    ensures |msg + data[..i + 64]| % 64 == 0 && Tail(msg + data[..i + 64]) == []
  {
    hide Absorb;
    var done := msg + data[..i];
    BlockFull(compress, s, done, data[i..i + 64]);
    assert Tail(done) + data[i..i + 64] == data[i..i + 64];
    assert done + data[i..i + 64] == msg + data[..i + 64];
  }

  // ---- the two count words

  /** low and high hold the bit length. */
  predicate Counts(msg: seq<byte>, low: nat, high: nat)
  {
    low < TWO32 && high < TWO32 && high * TWO32 + low == BitLength(msg)
  }

  /** Adding the length of more bytes with a carry. */
  lemma {:induction false} CountsGrow(msg: seq<byte>, more: seq<byte>, low: nat, high: nat)
    requires Counts(msg, low, high) && |more| < TWO32
    ensures var bits := (8 * |more|) % TWO32;
      var low2 := (low + bits) % TWO32;
      && (low2 < low <==> low + bits >= TWO32) && (low2 < bits <==> low + bits >= TWO32)
      && Counts(msg + more, low2, (high + (if low + bits >= TWO32 then 1 else 0) + |more| / 0x2000_0000) % TWO32)
  {
    var n := |more|;
    var bits := (8 * n) % TWO32;
    assert 8 * n == bits + TWO32 * (n / 0x2000_0000);
    var total := 8 * |msg| + 8 * n;
    assert total == 8 * |msg + more|;
    var carry := if low + bits >= TWO32 then 1 else 0;
    var low2 := (low + bits) % TWO32;
    assert low + bits == low2 + TWO32 * carry;
    var h := high + carry + n / 0x2000_0000;
    assert high * TWO32 + low + 8 * n == h * TWO32 + low2;
    Wrapped(8 * |msg|, 8 * n);
    WrappedHigh(h, low2);
  }

  lemma {:induction false} Wrapped(x: nat, y: nat)
    ensures (x + y) % TWO64 == (x % TWO64 + y) % TWO64
  {
  }

  lemma {:induction false} WrappedHigh(h: nat, low: nat)
    requires low < TWO32
    ensures (h * TWO32 + low) % TWO64 == (h % TWO32) * TWO32 + low
  {
    var q := h / TWO32;
    assert h == q * TWO32 + h % TWO32;
    assert h * TWO32 + low == q * TWO64 + ((h % TWO32) * TWO32 + low);
  }

  /** How many bytes wait in the buffer. */
  lemma {:induction false} Waiting(msg: seq<byte>, low: nat, high: nat)
    requires Counts(msg, low, high)
    ensures (low / 8) % 64 == |msg| % 64
  {
    var n := |msg|;
    var q := (8 * n) / TWO64;
    assert 8 * n == q * TWO64 + high * TWO32 + low;
    assert low == 8 * (n - q * (TWO64 / 8) - high * (TWO32 / 8));
    var k := q * (TWO64 / 8 / 64) + high * (TWO32 / 8 / 64);
    assert low / 8 == n - 64 * k;
    SameRemainder(n, k);
  }

  lemma {:induction false} SameRemainder(n: nat, k: nat)
    requires n >= 64 * k
    ensures (n - 64 * k) % 64 == n % 64
  {
  }

  // ---- bytes of words

  function Shifted(w: nat, k: nat): byte
    requires k < 4
  {
    (if k == 0 then w else if k == 1 then w / 0x100 else if k == 2 then w / 0x1_0000 else w / 0x100_0000) % 256
  }

  lemma {:induction false} WordBytes(w: nat)
    ensures BigEndian(w, 4) == [Shifted(w, 3), Shifted(w, 2), Shifted(w, 1), Shifted(w, 0)]
    ensures LittleEndian(w, 4) == [Shifted(w, 0), Shifted(w, 1), Shifted(w, 2), Shifted(w, 3)]
  {
    var w1, w2, w3 := w / 256, w / 256 / 256, w / 256 / 256 / 256;
    assert w2 == w / 0x1_0000 && w3 == w / 0x100_0000;
    assert BigEndian(w3, 1) == [] + [w3 % 256];
    assert BigEndian(w2, 2) == [w3 % 256, w2 % 256];
    assert BigEndian(w1, 3) == [w3 % 256, w2 % 256, w1 % 256];
    assert LittleEndian(w3, 1) == [w3 % 256] + [];
    assert LittleEndian(w2, 2) == [w2 % 256, w3 % 256];
    assert LittleEndian(w1, 3) == [w1 % 256, w2 % 256, w3 % 256];
  }

  /** The bytes a word is made of. */
  lemma {:induction false} BytesOf(w: nat, a: byte, b: byte, c: byte, d: byte)
    requires w == a + 0x100 * (b + 0x100 * (c + 0x100 * d))
    ensures LittleEndian(w, 4) == [a, b, c, d]
  {
    hide LittleEndian;
    var y: nat := c + 0x100 * d;
    var x: nat := b + 0x100 * y;
    FirstOf(w, a, x, 4);
    FirstOf(x, b, y, 3);
    FirstOf(y, c, d, 2);
    FirstOf(d, d, 0, 1);
    NoByte(0);
  }

  lemma {:induction false} FirstOf(w: nat, a: byte, rest: nat, n: nat)
    requires w == a + 0x100 * rest && n > 0
    ensures LittleEndian(w, n) == [a] + LittleEndian(rest, n - 1)
  {
    hide LittleEndian;
    DivUnique(w, 0x100, rest, a);
    LastByte(w, n);
  }

  lemma {:induction false} NoByte(w: nat)
    ensures LittleEndian(w, 0) == []
  {
  }

  function Pow256(n: nat): (p: nat)
    ensures p > 0
  {
    if n == 0 then 1 else 256 * Pow256(n - 1)
  }

  /** Two numbers next to each other. */
  lemma {:induction false} Joined(h: nat, l: nat, m: nat, n: nat)
    requires l < Pow256(n)
    ensures BigEndian(h * Pow256(n) + l, m + n) == BigEndian(h, m) + BigEndian(l, n)
    ensures LittleEndian(h * Pow256(n) + l, n + m) == LittleEndian(l, n) + LittleEndian(h, m)
    decreases n
  {
    if n == 0 {
      assert h * 1 + 0 == h;
    } else {
      hide Pow256, BigEndian, LittleEndian;
      LowestApart(h, l, n);
      Joined(h, l / 256, m, n - 1);
      var v := h * Pow256(n) + l;
      LastByte(v, m + n);
      LastByte(l, n);
    }
  }

  lemma {:induction false} LastByte(v: nat, n: nat)
    requires n > 0
    ensures BigEndian(v, n) == BigEndian(v / 256, n - 1) + [v % 256]
    ensures LittleEndian(v, n) == [v % 256] + LittleEndian(v / 256, n - 1)
  {
  }

  lemma {:induction false} LowestApart(h: nat, l: nat, n: nat)
    requires n > 0 && l < Pow256(n)
    ensures var v := h * Pow256(n) + l;
      v / 256 == h * Pow256(n - 1) + l / 256 && v % 256 == l % 256 && l / 256 < Pow256(n - 1)
  {
    var p := Pow256(n - 1);
    assert Pow256(n) == 256 * p;
    hide Pow256;
    var q := h * p;
    assert h * (256 * p) == 256 * q;
    assert 256 * q + l == 256 * (q + l / 256) + l % 256;
  }

  lemma {:induction false} CountBytes(msg: seq<byte>, low: nat, high: nat)
    requires Counts(msg, low, high)
    ensures BigEndian(BitLength(msg), 8) == BigEndian(high, 4) + BigEndian(low, 4)
    ensures LittleEndian(BitLength(msg), 8) == LittleEndian(low, 4) + LittleEndian(high, 4)
  {
    hide BigEndian, LittleEndian;
    assert Pow256(2) == 65536;
    assert Pow256(4) == TWO32;
    Joined(high, low, 4, 4);
  }
}
