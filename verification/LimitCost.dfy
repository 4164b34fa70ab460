/** Limiting the longest code length to 15 makes the code little dearer. */
module LimitCost {
  import opened Bits
  import opened MinRedundancy
  import opened Optimality
  import opened LengthLists

  const LONGEST := 15

  lemma {:induction false} FibValues()
    ensures Fib(2) == 1 && Fib(3) == 2 && Fib(4) == 3 && Fib(5) == 5 && Fib(6) == 8 && Fib(7) == 13 && Fib(8) == 21
    ensures Fib(9) == 34 && Fib(10) == 55 && Fib(11) == 89 && Fib(12) == 144 && Fib(13) == 233 && Fib(14) == 377
      && Fib(15) == 610
  {
    assert Fib(3) == 2 && Fib(4) == 3;
    assert Fib(5) == 5 && Fib(6) == 8;
    assert Fib(7) == 13 && Fib(8) == 21;
    assert Fib(9) == 34 && Fib(10) == 55;
    assert Fib(11) == 89 && Fib(12) == 144;
    assert Fib(13) == 233 && Fib(14) == 377;
  }

  lemma {:induction false} Pow2Values()
    ensures Pow2(1) == 2 && Pow2(2) == 4 && Pow2(3) == 8 && Pow2(4) == 16 && Pow2(5) == 32 && Pow2(6) == 64
      && Pow2(7) == 128
    ensures Pow2(8) == 256 && Pow2(9) == 512 && Pow2(10) == 1024 && Pow2(11) == 2048 && Pow2(12) == 4096
    ensures Pow2(13) == 8192 && Pow2(14) == 16384
  {
    assert Pow2(3) == 8 && Pow2(6) == 64;
    assert Pow2(9) == 512 && Pow2(12) == 4096;
  }

  /** What a code can gain in length is paid for by the codes that take the room it leaves. */
  lemma {:induction false} RoomPays(l: nat)
    requires 1 <= l < LONGEST
    ensures 512 * (LONGEST - l) <= RoomOf(l, LONGEST) * Fib(l + 1)
  {
    FibValues();
    Pow2Values();
    hide Fib, Pow2;
    if l < 8 {
      assert RoomOf(l, LONGEST) >= 255 && 512 * (LONGEST - l) <= 14 * 512;
      if l == 1 {
        assert RoomOf(l, LONGEST) == 16383;
      } else if l == 2 {
        assert RoomOf(l, LONGEST) == 8191;
      } else if l == 3 {
        assert RoomOf(l, LONGEST) == 4095;
      } else if l == 4 {
        assert RoomOf(l, LONGEST) == 2047;
      } else if l == 5 {
        assert RoomOf(l, LONGEST) == 1023;
      } else if l == 6 {
        assert RoomOf(l, LONGEST) == 511;
      } else {
        assert RoomOf(l, LONGEST) == 255;
      }
    } else if l < 11 {
      assert RoomOf(l, LONGEST) == if l == 8 then 127 else if l == 9 then 63 else 31;
    } else {
      assert RoomOf(l, LONGEST) == if l == 11 then 15 else if l == 12 then 7 else if l == 13 then 3 else 1;
    }
  }

  /** One place: whatever its new length, its weight pays for it. */
  lemma {:induction false} PlaceCost(w: nat, o: nat, s: nat, sum: nat)
    requires 1 <= o && s <= LONGEST && w * Fib(o + 1) <= sum
    ensures 512 * (w * s) <= 512 * (w * o) + sum * RoomOf(if o > LONGEST then LONGEST else o, LONGEST)
  {
    hide Fib, RoomOf;
    var r := RoomOf(if o > LONGEST then LONGEST else o, LONGEST);
    if o >= LONGEST {
      MulMono(w, s, o);
      MulMono(sum, 0, r);
    } else {
      RoomPays(o);
      MulMono(w, s, LONGEST);
      MulMono(w, 512 * (LONGEST - o), r * Fib(o + 1));
      MulMono(r, w * Fib(o + 1), sum);
      Paid(w, r, Fib(o + 1), o, sum);
    }
  }

  lemma {:induction false} Paid(w: nat, r: nat, f: nat, o: nat, sum: nat)
    requires w * (512 * (LONGEST - o)) <= w * (r * f) && r * (w * f) <= r * sum
    ensures 512 * (w * LONGEST) <= 512 * (w * o) + sum * r
  {
    assert w * (r * f) == r * (w * f);
    assert w * (512 * (LONGEST - o)) == 512 * (w * LONGEST) - 512 * (w * o);
    assert r * sum == sum * r;
  }

  lemma {:induction false} CostSnoc(w: seq<nat>, l: seq<nat>, k: nat)
    requires k < |w| == |l|
    ensures Cost(w[..k + 1], l[..k + 1]) == Cost(w[..k], l[..k]) + w[k] * l[k]
  {
    assert w[..k + 1] == w[..k] + [w[k]] && l[..k + 1] == l[..k] + [l[k]];
    CostConcat(w[..k], [w[k]], l[..k], [l[k]]);
    assert [w[k]][1..] == [] && [l[k]][1..] == [];
  }

  /** The places in front pay with the room they leave. */
  lemma {:induction false} FrontCost(w: seq<nat>, o: seq<nat>, s: seq<nat>, k: nat)
    requires |w| == |o| == |s| && k <= |w| && Light(w, o)
    requires forall p :: 0 <= p < |o| ==> o[p] >= 1 && s[p] <= LONGEST
    ensures 512 * Cost(w[..k], s[..k]) <= 512 * Cost(w[..k], o[..k]) + Sum(w) * Room(Cut(o, LONGEST)[..k], LONGEST)
  {
    hide Fib, Sum, RoomOf;
    if k > 0 {
      hide Cost;
      FrontCost(w, o, s, k - 1);
      CostSnoc(w, s, k - 1);
      CostSnoc(w, o, k - 1);
      var c := Cut(o, LONGEST);
      PlaceCost(w[k - 1], o[k - 1], s[k - 1], Sum(w));
      assert c[..k][..k - 1] == c[..k - 1];
      Spread(Sum(w), Room(c[..k - 1], LONGEST), RoomOf(c[k - 1], LONGEST));
    }
  }

  lemma {:induction false} Spread(a: int, b: int, c: int)
    ensures a * (b + c) == a * b + a * c
  {
  }

  lemma {:induction false} CostMono(w: seq<nat>, a: seq<nat>, b: seq<nat>)
    requires |w| == |a| == |b| && forall p :: 0 <= p < |w| ==> a[p] <= b[p]
    ensures Cost(w, a) <= Cost(w, b)
  {
    if w != [] {
      CostMono(w[1..], a[1..], b[1..]);
      MulMono(w[0], a[0], b[0]);
    }
  }

  lemma {:induction false} CostSplit(w: seq<nat>, l: seq<nat>, k: nat)
    requires k <= |w| == |l|
    ensures Cost(w, l) == Cost(w[..k], l[..k]) + Cost(w[k..], l[k..])
  {
    CostConcat(w[..k], w[k..], l[..k], l[k..]);
    assert w[..k] + w[k..] == w && l[..k] + l[k..] == l;
  }

  /** The price of the limit: as many bits in 512 occurrences as there are codes, and a few more. */
  lemma {:induction false} LimitedCost(w: seq<nat>, o: seq<nat>, s: seq<nat>, d: nat)
    requires |w| == |o| && Light(w, o) && (forall p :: 0 <= p < |o| ==> o[p] >= 1)
    requires Shortened(o, s, LONGEST) && Few(|o|, LONGEST, d)
    ensures |s| == |o| && 512 * Cost(w, s) <= 512 * Cost(w, o) + Sum(w) * (|o| + Pow2(LONGEST - 1 - d))
  {
    hide Light, Cost, Room;
    var top :| ShortenedTo(o, s, LONGEST, top);
    var c, k := Cut(o, LONGEST), top + 1;
    FrontCost(w, o, s, k);
    CostSplit(w, s, k);
    CostSplit(w, o, k);
    CostMono(w[k..], s[k..], o[k..]);
    RoomInFront(c, top, |o|, d);
    MulMono(Sum(w), Room(c[..k], LONGEST), |o| + Pow2(LONGEST - 1 - d));
  }

  lemma {:induction false} RoomInFront(c: seq<nat>, top: int, n: nat, d: nat)
    requires -1 <= top < |c| && d < LONGEST && (top >= 0 ==> Room(c[..top], LONGEST) < n && c[top] > d)
    ensures Room(c[..top + 1], LONGEST) <= n + Pow2(LONGEST - 1 - d)
  {
    if top >= 0 {
      assert c[..top + 1][..top] == c[..top];
      if c[top] < LONGEST {
        Pow2Mono(LONGEST - c[top], LONGEST - 1 - d);
      }
    }
  }
}
