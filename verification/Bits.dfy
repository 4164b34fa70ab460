/** Bit strings, least significant bit first, as the DEFLATE bit buffers hold them. */
module Bits {
  type byte = x: int | 0 <= x < 256
  type u16 = x: int | 0 <= x < 65536

  function Pow2(n: nat): (p: nat)
    ensures p >= 1
  {
    if n == 0 then 1 else 2 * Pow2(n - 1)
  }

  lemma {:induction false} Pow2Add(a: nat, b: nat)
    ensures Pow2(a + b) == Pow2(a) * Pow2(b)
  {
    if a > 0 {
      Pow2Add(a - 1, b);
    }
  }

  lemma {:induction false} Pow2Mono(a: nat, b: nat)
    requires a <= b
    ensures Pow2(a) <= Pow2(b)
  {
    if a < b {
      Pow2Mono(a, b - 1);
    }
  }

  /** The n low bits of v, least significant first. */
  function ToBits(v: nat, n: nat): (r: seq<bool>)
    ensures |r| == n
  {
    if n == 0 then [] else [v % 2 == 1] + ToBits(v / 2, n - 1)
  }

  /** The n low bits of v, most significant first (the order Huffman codes are written in). */
  function MsbBits(v: nat, n: nat): (r: seq<bool>)
    ensures |r| == n
  {
    if n == 0 then [] else MsbBits(v / 2, n - 1) + [v % 2 == 1]
  }

  function Bit(b: bool): nat { if b then 1 else 0 }

  function FromBits(b: seq<bool>): (v: nat)
    ensures v < Pow2(|b|)
  {
    if b == [] then 0 else Bit(b[0]) + 2 * FromBits(b[1..])
  }

  function FromMsb(b: seq<bool>): (v: nat)
    ensures v < Pow2(|b|)
  {
    if b == [] then 0 else 2 * FromMsb(b[..|b| - 1]) + Bit(b[|b| - 1])
  }

  lemma {:induction false} FromTo(v: nat, n: nat)
    requires v < Pow2(n)
    ensures FromBits(ToBits(v, n)) == v
  {
    if n > 0 {
      FromTo(v / 2, n - 1);
      assert ToBits(v, n)[1..] == ToBits(v / 2, n - 1);
    }
  }

  lemma {:induction false} ToFrom(b: seq<bool>)
    ensures ToBits(FromBits(b), |b|) == b
  {
    if b != [] {
      ToFrom(b[1..]);
    }
  }

  lemma {:induction false} MsbOfFromMsb(b: seq<bool>)
    ensures MsbBits(FromMsb(b), |b|) == b
  {
    if b != [] {
      MsbOfFromMsb(b[..|b| - 1]);
    }
  }

  lemma {:induction false} FromMsbOfMsb(v: nat, n: nat)
    requires v < Pow2(n)
    ensures FromMsb(MsbBits(v, n)) == v
  {
    if n > 0 {
      FromMsbOfMsb(v / 2, n - 1);
      assert MsbBits(v, n)[..n - 1] == MsbBits(v / 2, n - 1);
    }
  }

  /** A most-significant-first string is cut by dividing its value. */
  lemma {:induction false} MsbPrefix(v: nat, n: nat, m: nat)
    requires m <= n
    ensures MsbBits(v, n)[..m] == MsbBits(v / Pow2(n - m), m)
  {
    if m < n {
      MsbPrefix(v / 2, n - 1, m);
      assert MsbBits(v, n)[..m] == MsbBits(v / 2, n - 1)[..m];
      DivDiv(v, 2, Pow2(n - 1 - m));
    } else {
      assert MsbBits(v, n)[..m] == MsbBits(v, n);
    }
  }

  lemma {:induction false} DivDiv(v: nat, a: nat, b: nat)
    requires a > 0 && b > 0
    ensures a * b > 0
    ensures v / a / b == v / (a * b)
  {
    var q := v / a / b;
    var r := v / a % b;
    var s := v % a;
    assert v / a == q * b + r;
    assert v == (q * b + r) * a + s;
    assert v == q * (a * b) + (r * a + s);
    assert r * a + s < a * b by {
      assert r + 1 <= b;
      assert (r + 1) * a <= b * a;
    }
    DivUnique(v, a * b, q, r * a + s);
  }

  lemma {:induction false} MulAtLeast(a: int, d: nat)
    requires a >= 1
    ensures a * d >= d
  {
    assert a * d == (a - 1) * d + d;
  }

  /** Cancelling a positive factor. */
  lemma {:induction false} MulCancel(p: nat, a: int, b: int)
    requires p > 0 && p * a <= p * b
    ensures a <= b
  {
    if a > b {
      MulAtLeast(a - b, p);
      MulDist(p, a, b);
    }
  }

  lemma {:induction false} CancelRight(a: int, b: int, p: nat)
    requires p > 0 && a * p <= b * p
    ensures a <= b
  {
    MulCancel(p, a, b);
  }

  lemma {:induction false} MulDist(p: int, a: int, b: int)
    ensures (a - b) * p == p * a - p * b
  {
  }

  lemma {:induction false} MulMono(p: nat, a: int, b: int)
    requires a <= b
    ensures p * a <= p * b
  {
    if a < b && p > 0 {
      MulAtLeast(b - a, p);
      MulDist(p, b, a);
    }
  }

  lemma {:induction false} DivUnique(v: int, d: nat, q: int, r: int)
    requires d > 0 && 0 <= r < d && v == q * d + r
    ensures v / d == q && v % d == r
  {
    var q', r' := v / d, v % d;
    assert v == d * q' + r';
    assert d * q' == q' * d;
    if q > q' {
      MulAtLeast(q - q', d);
    } else if q < q' {
      MulAtLeast(q' - q, d);
    }
  }

  lemma {:induction false} ToBitsTake(v: nat, n: nat, m: nat)
    requires m <= n
    ensures ToBits(v, n)[..m] == ToBits(v, m)
  {
    if m > 0 {
      ToBitsTake(v / 2, n - 1, m - 1);
      assert ToBits(v, n)[..m] == [v % 2 == 1] + ToBits(v / 2, n - 1)[..m - 1];
    }
  }

  lemma {:induction false} ToBitsDrop(v: nat, n: nat, m: nat)
    requires m <= n
    ensures ToBits(v, n)[m..] == ToBits(v / Pow2(m), n - m)
  {
    if m > 0 {
      ToBitsDrop(v / 2, n - 1, m - 1);
      assert ToBits(v, n)[m..] == ToBits(v / 2, n - 1)[m - 1..];
      DivDiv(v, 2, Pow2(m - 1));
    }
  }

  lemma {:induction false} ToBitsAt(v: nat, n: nat, i: nat)
    requires i < n
    ensures ToBits(v, n)[i] == (v / Pow2(i) % 2 == 1)
  {
    ToBitsDrop(v, n, i);
    assert ToBits(v, n)[i] == ToBits(v, n)[i..][0];
  }

  /** Masking with 2^n - 1 keeps the n low bits. */
  lemma {:induction false} ToBitsMod(v: nat, n: nat)
    ensures ToBits(v % Pow2(n), n) == ToBits(v, n)
  {
    if n > 0 {
      ModHalves(v, Pow2(n - 1));
      ToBitsMod(v / 2, n - 1);
    }
  }

  lemma {:induction false} ModHalves(v: nat, p: nat)
    requires p > 0
    ensures v % (2 * p) % 2 == v % 2
    ensures v % (2 * p) / 2 == v / 2 % p
  {
    var q, w := v / (2 * p), v % (2 * p);
    assert v == 2 * p * q + w;
    assert 2 * p * q == 2 * (q * p);
    assert v / 2 == q * p + w / 2;
    DivUnique(v / 2, p, q, w / 2);
  }

  lemma {:induction false} FromBitsConcat(a: seq<bool>, b: seq<bool>)
    ensures FromBits(a + b) == FromBits(a) + Pow2(|a|) * FromBits(b)
  {
    if a == [] {
      assert a + b == b;
    } else {
      FromBitsConcat(a[1..], b);
      assert (a + b)[1..] == a[1..] + b;
      MulAssoc2(Pow2(|a| - 1), FromBits(b));
    }
  }

  lemma {:induction false} MulAssoc2(p: int, v: int)
    ensures 2 * (p * v) == (2 * p) * v
  {
  }

  /** Or-ing new bits above a full low part appends them. */
  lemma {:induction false} ToBitsAppend(lo: nat, n: nat, hi: nat, m: nat)
    requires lo < Pow2(n) && hi < Pow2(m)
    ensures lo + hi * Pow2(n) < Pow2(n + m)
    ensures ToBits(lo + hi * Pow2(n), n + m) == ToBits(lo, n) + ToBits(hi, m)
  {
    var a, b := ToBits(lo, n), ToBits(hi, m);
    FromTo(lo, n);
    FromTo(hi, m);
    FromBitsConcat(a, b);
    assert Pow2(n) * hi == hi * Pow2(n);
    ToFrom(a + b);
  }

  function BytesToBits(s: seq<byte>): (r: seq<bool>)
    ensures |r| == 8 * |s|
  {
    if s == [] then [] else ToBits(s[0], 8) + BytesToBits(s[1..])
  }

  lemma {:induction false} BytesToBitsConcat(a: seq<byte>, b: seq<byte>)
    ensures BytesToBits(a + b) == BytesToBits(a) + BytesToBits(b)
  {
    hide ToBits;
    if a == [] {
      assert a + b == b;
    } else {
      BytesToBitsConcat(a[1..], b);
      assert (a + b)[1..] == a[1..] + b;
      var x, y, z := ToBits(a[0], 8), BytesToBits(a[1..]), BytesToBits(b);
      assert x + (y + z) == (x + y) + z;
    }
  }

  lemma {:induction false} OneByte(b: byte)
    ensures BytesToBits([b]) == ToBits(b, 8)
  {
    assert [b][1..] == [];
    assert BytesToBits([]) == [];
    assert ToBits(b, 8) + [] == ToBits(b, 8);
  }

  /** A byte at the end. */
  lemma {:induction false} BytesAppend(s: seq<byte>, b: byte)
    ensures BytesToBits(s + [b]) == BytesToBits(s) + ToBits(b, 8)
  {
    hide ToBits;
    BytesToBitsConcat(s, [b]);
    OneByte(b);
  }

  lemma {:induction false} Pow2Of8()
    ensures Pow2(8) == 256
  {
    Pow2Add(4, 4);
    assert Pow2(4) == 16;
  }

  lemma {:induction false} Pow2Of15()
    ensures Pow2(15) == 32768
  {
    Pow2Add(7, 8);
    Pow2Of8();
    assert Pow2(7) == 128;
  }

  /** The low byte comes first. */
  lemma {:induction false} LowByte(v: nat, n: nat)
    requires n >= 8
    ensures ToBits(v, n) == ToBits(v % 256, 8) + ToBits(v / 256, n - 8)
  {
    hide ToBits, Pow2;
    Pow2Of8();
    ToBitsTake(v, n, 8);
    ToBitsDrop(v, n, 8);
    ToBitsMod(v, 8);
    assert ToBits(v, n) == ToBits(v, n)[..8] + ToBits(v, n)[8..];
  }

  lemma {:induction false} QuotientBelow(v: nat, a: nat, b: nat)
    requires a > 0 && v < a * b
    ensures v / a < b
  {
    var d, r := v / a, v % a;
    assert v == a * d + r;
    if d >= b {
      MulMono(a, b, d);
    }
  }
}
