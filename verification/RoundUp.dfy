/** kroundup32: the next power of two, by smearing the highest bit downwards. */
module RoundingUp {
  import opened Bits
  import opened Probing

  const TWO31 := 0x8000_0000
  const TWO32 := 0x1_0000_0000

  /** b | b >> k, bit by bit. */
  function OrShifted(b: seq<bool>, k: nat): (r: seq<bool>)
    ensures |r| == |b|
  {
    seq(|b|, i requires 0 <= i < |b| => b[i] || (i + k < |b| && b[i + k]))
  }

  /** Some bit of b from i on, but less than w further, is set. */
  ghost predicate AnyOf(b: seq<bool>, i: nat, w: nat)
  {
    exists j: nat :: i <= j < i + w && j < |b| && b[j]
  }

  ghost predicate Smeared(b: seq<bool>, c: seq<bool>, w: nat)
  {
    |c| == |b| && forall i: nat :: i < |b| ==> (c[i] <==> AnyOf(b, i, w))
  }

  lemma {:induction false} SmearedTwice(b: seq<bool>, c: seq<bool>, w: nat)
    requires Smeared(b, c, w)
    ensures Smeared(b, OrShifted(c, w), 2 * w)
  {
    forall i: nat | i < |b|
      ensures OrShifted(c, w)[i] <==> AnyOf(b, i, 2 * w)
    {
      if c[i] {
        var j: nat :| i <= j < i + w && j < |b| && b[j];
        assert AnyOf(b, i, 2 * w);
      } else if i + w < |b| && c[i + w] {
        var j: nat :| i + w <= j < i + w + w && j < |b| && b[j];
        assert AnyOf(b, i, 2 * w);
      }
    }
  }

  /** The number with the e lowest bits set. */
  lemma {:induction false} LowOnes(c: seq<bool>, e: nat)
    requires e <= |c| && forall i :: 0 <= i < |c| ==> (c[i] <==> i < e)
    ensures FromBits(c) == Pow2(e) - 1
  {
    if e > 0 {
      LowOnes(c[1..], e - 1);
    } else if c != [] {
      LowOnes(c[1..], 0);
    }
  }

  /** One more than the highest bit that is set. */
  lemma {:induction false} Width(b: seq<bool>) returns (e: nat)
    ensures e <= |b| && (forall i :: e <= i < |b| ==> !b[i]) && (e > 0 ==> b[e - 1])
    ensures FromBits(b) < Pow2(e) && (e > 0 ==> FromBits(b) >= Pow2(e - 1))
  {
    if b == [] {
      e := 0;
    } else {
      var d := Width(b[1..]);
      e := if d > 0 then d + 1 else if b[0] then 1 else 0;
    }
  }

  lemma {:induction false} SmearedOnes(b: seq<bool>, c: seq<bool>, w: nat, e: nat)
    requires Smeared(b, c, w) && w >= |b| && e <= |b|
    requires (forall i :: e <= i < |b| ==> !b[i]) && (e > 0 ==> b[e - 1])
    ensures FromBits(c) == Pow2(e) - 1
  {
    forall i: nat | i < |c|
      ensures c[i] <==> i < e
    {
      assert i < e ==> i <= e - 1 < i + w && AnyOf(b, i, w);
    }
    LowOnes(c, e);
  }

  lemma {:induction false} Pow2Of32()
    ensures Pow2(32) == TWO32 && Pow2(31) == TWO31
  {
    Pow2Add(8, 8);
    Pow2Of8();
    Pow2Add(16, 16);
    assert Pow2(32) == 2 * Pow2(31);
  }

  /** The next power of two; zero when there is none in 32 bits, or for zero. */
  method KRoundUp32(x: nat) returns (r: nat)
    requires x < TWO32
    ensures x == 0 || x > TWO31 ==> r == 0
    ensures 0 < x <= TWO31 ==> PowerOfTwo(r) && x <= r <= TWO31 && (r > 1 ==> r < 2 * x)
  {
    Pow2Of32();
    hide Pow2, ToBits, FromBits, Smeared;
    var v := (x + TWO32 - 1) % TWO32;
    var b := ToBits(v, 32);
    FromTo(v, 32);
    ghost var e := Width(b);
    var c := b;
    Unsmeared(b);
    SmearedTwice(b, c, 1);
    c := OrShifted(c, 1);
    SmearedTwice(b, c, 2);
    c := OrShifted(c, 2);
    SmearedTwice(b, c, 4);
    c := OrShifted(c, 4);
    SmearedTwice(b, c, 8);
    c := OrShifted(c, 8);
    SmearedTwice(b, c, 16);
    c := OrShifted(c, 16);
    SmearedOnes(b, c, 32, e);
    r := (FromBits(c) + 1) % TWO32;
    Rounded(x, v, e, r);
  }

  lemma {:induction false} Unsmeared(b: seq<bool>)
    ensures Smeared(b, b, 1)
  {
    forall i: nat | i < |b|
      ensures b[i] <==> AnyOf(b, i, 1)
    {
      if AnyOf(b, i, 1) {
        var j: nat :| i <= j < i + 1 && j < |b| && b[j];
      }
    }
  }

  lemma {:induction false} Rounded(x: nat, v: nat, e: nat, r: nat)
    requires x < TWO32 && v == (x + TWO32 - 1) % TWO32 && e <= 32 && v < Pow2(e) && (e > 0 ==> v >= Pow2(e - 1))
    requires r == Pow2(e) % TWO32
    ensures x == 0 || x > TWO31 ==> r == 0
    ensures 0 < x <= TWO31 ==> PowerOfTwo(r) && x <= r <= TWO31 && (r > 1 ==> r < 2 * x)
  {
    Pow2Of32();
    hide Pow2;
    if x == 0 || x > TWO31 {
      assert v >= TWO31;
      if e < 32 {
        Pow2Mono(e, 31);
      }
      assert e == 32;
    } else {
      assert v == x - 1 < TWO31;
      Pow2Mono(e, 31);
      assert Pow2(e) < TWO32;
      if e > 0 {
        Twice(e);
      } else {
        Zeroth();
      }
    }
  }

  lemma {:induction false} Twice(e: nat)
    requires e > 0
    ensures Pow2(e) == 2 * Pow2(e - 1)
  {
  }

  lemma {:induction false} Zeroth()
    ensures Pow2(0) == 1
  {
  }
}
