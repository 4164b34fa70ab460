/** Adler-32 with its remainders put off for up to 5552 bytes. */
module Adlers {
  import opened Bits

  const BASE := 65521
  const NMAX := 5552
  const INIT := 1

  /** A 32-bit sum wraps around. */
  function Add32(x: nat, y: nat): nat { (x + y) % 0x1_0000_0000 }

  function Next(s: (nat, nat), c: byte): (r: (nat, nat))
    ensures r.0 < BASE && r.1 < BASE
  {
    var x := (s.0 + c) % BASE;
    (x, (s.1 + x) % BASE)
  }

  /** Section 9 of RFC 1950 with a remainder after every byte. */
  function Sums(a: nat, b: nat, data: seq<byte>): (r: (nat, nat))
    ensures r.0 < BASE && r.1 < BASE
  {
    if data == [] then (a % BASE, b % BASE)
    else Next(Sums(a, b, data[..|data| - 1]), data[|data| - 1])
  }

  /** The checksum of data behind bytes whose checksum is adler; no bytes change nothing. */
  function Adler(adler: nat, data: seq<byte>): (r: nat)
    requires adler < 0x1_0000_0000
    ensures r < 0x1_0000_0000
  {
    if data == [] then adler
    else
      var (x, y) := Sums(adler % 65536, adler / 65536, data);
      y * 65536 + x
  }

  lemma {:induction false} SumsConcat(a: nat, b: nat, p: seq<byte>, q: seq<byte>)
    ensures Sums(a, b, p + q) == Sums(Sums(a, b, p).0, Sums(a, b, p).1, q)
  {
    hide Next;
    if q == [] {
      assert p + q == p;
    } else {
      assert (p + q)[..|p + q| - 1] == p + q[..|q| - 1];
      SumsConcat(a, b, p, q[..|q| - 1]);
    }
  }

  /** Checksumming in pieces is checksumming the whole. */
  lemma {:induction false} AdlerConcat(adler: nat, p: seq<byte>, q: seq<byte>)
    requires adler < 0x1_0000_0000
    ensures Adler(Adler(adler, p), q) == Adler(adler, p + q)
  {
    hide Sums;
    if p == [] {
      assert p + q == q;
    } else if q == [] {
      assert p + q == p;
    } else {
      SumsConcat(adler % 65536, adler / 65536, p, q);
      var (x, y) := Sums(adler % 65536, adler / 65536, p);
      Halves(x, y);
    }
  }

  lemma {:induction false} Halves(x: nat, y: nat)
    requires x < BASE
    ensures (y * 65536 + x) % 65536 == x && (y * 65536 + x) / 65536 == y
  {
  }

  // ---- the modulus: the largest prime below 65536

  /** No odd number from 3 up to d divides n. */
  predicate NoOddDivisor(n: nat, d: nat)
  {
    d < 3 || (n % d != 0 && NoOddDivisor(n, d - 2))
  }

  lemma {:induction false} TrialDivision()
    ensures NoOddDivisor(BASE, 127)
  {
    assert NoOddDivisor(65521, 15);
    assert NoOddDivisor(65521, 31);
    assert NoOddDivisor(65521, 47);
    assert NoOddDivisor(65521, 63);
    assert NoOddDivisor(65521, 79);
    assert NoOddDivisor(65521, 95);
    assert NoOddDivisor(65521, 111);
  }

  lemma {:induction false} FurtherDivision()
    ensures NoOddDivisor(BASE, 255)
  {
    TrialDivision();
    assert NoOddDivisor(65521, 143);
    assert NoOddDivisor(65521, 159);
    assert NoOddDivisor(65521, 175);
    assert NoOddDivisor(65521, 191);
    assert NoOddDivisor(65521, 207);
    assert NoOddDivisor(65521, 223);
    assert NoOddDivisor(65521, 239);
  }

  lemma {:induction false} NotDivided(n: nat, d: nat, k: nat)
    requires NoOddDivisor(n, d) && 3 <= k <= d && k % 2 == d % 2
    ensures n % k != 0
  {
    if k < d {
      NotDivided(n, d - 2, k);
    }
  }

  lemma {:induction false} NoFactor(k: nat)
    requires 2 <= k <= 255
    ensures BASE % k != 0
  {
    if k % 2 == 0 {
      var q, h := BASE / k, k / 2;
      assert BASE == k * q + BASE % k && k * q == 2 * (h * q);
    } else {
      FurtherDivision();
      NotDivided(BASE, 255, k);
    }
  }

  /** The modulus is a prime. */
  lemma {:induction false} BasePrime(a: nat, b: nat)
    requires 2 <= a && 2 <= b
    ensures a * b != BASE
  {
    if a > 255 && b > 255 {
      MulMono(a, 256, b);
      MulMono(256, 256, a);
    } else {
      var k, m := if a <= 255 then a else b, if a <= 255 then b else a;
      NoFactor(k);
      DivUnique(m * k, k, m, 0);
    }
  }

  /** And nothing between it and 65536 is. */
  lemma {:induction false} NoLargerPrime(n: nat) returns (a: nat, b: nat)
    requires BASE < n < 65536
    ensures 2 <= a && 2 <= b && a * b == n
  {
    if n % 2 == 0 {
      a, b := 2, n / 2;
    } else if n == 65523 || n == 65529 || n == 65535 {
      a, b := 3, n / 3;
    } else if n == 65525 {
      a, b := 5, 13105;
    } else if n == 65527 {
      a, b := 7, 9361;
    } else if n == 65531 {
      a, b := 19, 3449;
    } else {
      a, b := 13, 5041;
    }
  }

  /** The checksum of a text that is often used to show it. */
  lemma {:induction false} AdlerExample()
    ensures Adler(INIT, [0x57, 0x69, 0x6B, 0x69, 0x70, 0x65, 0x64, 0x69, 0x61]) == 0x11E6_0398
  {
    hide Next;
    var text: seq<byte> := [];
    var s := (1, 0);
    assert Sums(1, 0, text) == s;
    text, s := ExampleByte(text, s, 0x57);
    text, s := ExampleByte(text, s, 0x69);
    text, s := ExampleByte(text, s, 0x6B);
    text, s := ExampleByte(text, s, 0x69);
    text, s := ExampleByte(text, s, 0x70);
    text, s := ExampleByte(text, s, 0x65);
    text, s := ExampleByte(text, s, 0x64);
    text, s := ExampleByte(text, s, 0x69);
    text, s := ExampleByte(text, s, 0x61);
    assert text == [0x57, 0x69, 0x6B, 0x69, 0x70, 0x65, 0x64, 0x69, 0x61];
  }

  lemma {:induction false} ExampleByte(text: seq<byte>, s: (nat, nat), c: byte)
    returns (text2: seq<byte>, s2: (nat, nat))
    requires Sums(1, 0, text) == s && s.0 < 2000 && s.1 < 20000
    ensures text2 == text + [c] && s2 == (s.0 + c, s.1 + s.0 + c) && Sums(1, 0, text2) == s2
  {
    text2, s2 := text + [c], (s.0 + c, s.1 + s.0 + c);
    SumsNext(1, 0, text, c);
  }

  // ---- no overflow

  /** The most that the second sum can be after i bytes of 255 from any 16-bit start. */
  function Top(i: nat): nat
  {
    if i == 0 then 65535 else Top(i - 1) + 65535 + 255 * i
  }

  lemma {:induction false} TopClosed(i: nat)
    ensures 2 * Top(i) == 2 * 65535 * (i + 1) + 255 * (i * (i + 1))
  {
    if i > 0 {
      TopClosed(i - 1);
      assert i * (i + 1) == (i - 1) * i + 2 * i;
    }
  }

  lemma {:induction false} TopMono(i: nat, j: nat)
    requires i <= j
    ensures Top(i) <= Top(j)
  {
    if i < j {
      TopMono(i, j - 1);
    }
  }

  /** 5552 bytes never overflow 32 bits, and 5553 bytes can. */
  lemma {:induction false} BlockFits(i: nat)
    ensures Top(i) < 0x1_0000_0000 <==> i <= NMAX
  {
    TopClosed(NMAX);
    TopClosed(NMAX + 1);
    assert NMAX * (NMAX + 1) == 30830256;
    assert (NMAX + 1) * (NMAX + 2) == 30841362;
    if i <= NMAX {
      TopMono(i, NMAX);
    } else {
      TopMono(NMAX + 1, i);
    }
  }

  // ---- the loops

  /** s1 and s2 stand for the sums of data behind a and b, not reduced and not overflown. */
  ghost predicate Unreduced(a: nat, b: nat, data: seq<byte>, s1: nat, s2: nat, k: nat)
  {
    s1 <= 65535 + 255 * k && s2 <= Top(k) && (s1 % BASE, s2 % BASE) == Sums(a, b, data)
  }

  lemma {:induction false} OneMore(a: nat, b: nat, data: seq<byte>, c: byte, s1: nat, s2: nat, k: nat)
    requires Unreduced(a, b, data, s1, s2, k) && k < NMAX
    ensures var t1 := Add32(s1, c); var t2 := Add32(s2, t1);
      Unreduced(a, b, data + [c], t1, t2, k + 1)
  {
    hide Sums, Next, Top;
    Room(s1, s2, c, k);
    SumsNext(a, b, data, c);
    NextMod(s1, s2, c);
  }

  lemma {:induction false} Room(s1: nat, s2: nat, c: byte, k: nat)
    requires s1 <= 65535 + 255 * k && s2 <= Top(k) && k < NMAX
    ensures Add32(s1, c) == s1 + c <= 65535 + 255 * (k + 1)
    ensures Add32(s2, s1 + c) == s2 + s1 + c <= Top(k + 1)
  {
    BlockFits(k + 1);
    assert Top(k + 1) == Top(k) + 65535 + 255 * (k + 1);
    hide Top;
  }

  lemma {:induction false} NextMod(s1: nat, s2: nat, c: byte)
    ensures Next((s1 % BASE, s2 % BASE), c) == ((s1 + c) % BASE, (s2 + s1 + c) % BASE)
  {
    hide *;
    NextIs(s1, s2, c);
    ModAdd(s1, c);
    ModAdd(s2, (s1 + c) % BASE);
    ModAdd(s1 + c, s2);
    assert s2 + s1 + c == s1 + c + s2;
  }

  lemma {:induction false} NextIs(s1: nat, s2: nat, c: byte)
    ensures var x := (s1 % BASE + c) % BASE;
      Next((s1 % BASE, s2 % BASE), c) == (x, (s2 % BASE + x) % BASE)
  {
  }

  lemma {:induction false} SumsNext(a: nat, b: nat, data: seq<byte>, c: byte)
    ensures Sums(a, b, data + [c]) == Next(Sums(a, b, data), c)
  {
    assert (data + [c])[..|data|] == data;
  }

  lemma {:induction false} ModAdd(x: nat, y: nat)
    ensures (x % BASE + y) % BASE == (x + y) % BASE
  {
    var q := x / BASE;
    assert x == BASE * q + x % BASE;
    ModShift(x % BASE + y, q);
  }

  lemma {:induction false} ModShift(z: nat, q: nat)
    ensures (z + BASE * q) % BASE == z % BASE
    decreases q
  {
    if q > 0 {
      ModShift(z, q - 1);
      assert z + BASE * q == (z + BASE * (q - 1)) + BASE;
    }
  }

  /** One byte: s1 += *ptr, s2 += s1. */
  method AddByte(s1: nat, s2: nat, c: byte, ghost a: nat, ghost b: nat, ghost data: seq<byte>, ghost k: nat)
    returns (t1: nat, t2: nat)
    requires Unreduced(a, b, data, s1, s2, k) && k < NMAX
    ensures Unreduced(a, b, data + [c], t1, t2, k + 1)
  {
    hide Unreduced;
    OneMore(a, b, data, c, s1, s2, k);
    t1 := Add32(s1, c);
    t2 := Add32(s2, t1);
  }

  /** Eight bytes at a time while there are eight, then the rest. */
  method AddBlock(ptr: array<byte>, at: nat, len: nat, a0: nat, b0: nat, ghost a: nat, ghost b: nat,
                  ghost start: seq<byte>) returns (s1: nat, s2: nat)
    requires at + len <= ptr.Length && len <= NMAX && Unreduced(a, b, start, a0, b0, 0)
    ensures Unreduced(a, b, start + ptr[at..at + len], s1, s2, len)
  {
    hide Unreduced, Top;
    s1, s2 := a0, b0;
    var i := 0;
    ghost var data := start;
    while i + 7 < len
      invariant i <= len && data == start + ptr[at..at + i] && Unreduced(a, b, data, s1, s2, i)
    {
      for j := 0 to 8
        invariant data == start + ptr[at..at + i + j] && Unreduced(a, b, data, s1, s2, i + j)
      {
        s1, s2 := AddByte(s1, s2, ptr[at + i + j], a, b, data, i + j);
        data := data + [ptr[at + i + j]];
      }
      i := i + 8;
    }
    while i < len
      invariant i <= len && data == start + ptr[at..at + i] && Unreduced(a, b, data, s1, s2, i)
    {
      s1, s2 := AddByte(s1, s2, ptr[at + i], a, b, data, i);
      data := data + [ptr[at + i]];
      i := i + 1;
    }
  }

  lemma {:induction false} ReducedAgain(a: nat, b: nat, data: seq<byte>, s1: nat, s2: nat, k: nat)
    requires Unreduced(a, b, data, s1, s2, k)
    ensures Unreduced(a, b, data, s1 % BASE, s2 % BASE, 0)
    ensures (s1 % BASE, s2 % BASE) == Sums(a, b, data)
  {
    hide Sums;
  }

  lemma {:induction false} Starting(a: nat, b: nat)
    requires a <= 65535 && b <= 65535
    ensures Unreduced(a, b, [], a, b, 0)
  {
  }

  /** mz_adler32: the first block takes what does not fill 5552 bytes. */
  method MzAdler32(adler: nat, ptr: array?<byte>, length: nat) returns (r: nat)
    requires adler < 0x1_0000_0000 && (ptr != null ==> length <= ptr.Length)
    ensures ptr == null ==> r == INIT
    ensures ptr != null ==> r == Adler(adler, ptr[..length])
  {
    hide Unreduced, Top, Sums;
    if ptr == null { return INIT; }
    var s1: nat, s2: nat := adler % 65536, adler / 65536;
    ghost var a, b := s1, s2;
    Starting(a, b);
    var at: nat, left: nat, block: nat := 0, length, length % NMAX;
    assert ptr[..0] == [];
    while left > 0
      invariant at + left == length && (left > 0 ==> block <= left) && block <= NMAX && left % NMAX == block % NMAX
      invariant length == 0 ==> (s1, s2) == (adler % 65536, adler / 65536)
      invariant Unreduced(a, b, ptr[..at], s1, s2, 0)
      invariant at > 0 ==> (s1, s2) == Sums(a, b, ptr[..at])
      decreases left, NMAX - block
    {
      ghost var start := ptr[..at];
      s1, s2 := AddBlock(ptr, at, block, s1, s2, a, b, start);
      assert start + ptr[at..at + block] == ptr[..at + block];
      ReducedAgain(a, b, ptr[..at + block], s1, s2, block);
      s1, s2 := s1 % BASE, s2 % BASE;
      at := at + block;
      left := left - block;
      block := NMAX;
    }
    if length == 0 {
      assert (s1, s2) == (adler % 65536, adler / 65536);
    }
    r := Add32(s2 * 65536, s1);
  }
}
