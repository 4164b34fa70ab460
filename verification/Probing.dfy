/** khash's probe sequence: triangular steps modulo a power of two visit every bucket. */
module Probing {
  import opened Bits

  function Triangle(s: nat): nat
  {
    s * (s + 1) / 2
  }

  /** The bucket looked at after s steps. */
  function Probe(k: nat, s: nat, n: nat): (i: nat)
    requires n > 0
    ensures i < n
  {
    (k + Triangle(s)) % n
  }

  ghost predicate PowerOfTwo(n: nat)
  {
    exists e: nat :: n == Pow2(e)
  }

  lemma {:induction false} Halves(s: nat)
    ensures s * (s + 1) % 2 == 0 && 2 * Triangle(s) == s * (s + 1)
  {
    if s % 2 == 0 {
      var h := s / 2;
      assert s == 2 * h && s * (s + 1) == 2 * (h * (s + 1));
    } else {
      var h := (s + 1) / 2;
      assert s + 1 == 2 * h && s * (s + 1) == 2 * (s * h);
    }
  }

  /** One more step. */
  lemma {:induction false} TriangleStep(s: nat)
    ensures Triangle(s + 1) == Triangle(s) + s + 1
  {
    Halves(s);
    Halves(s + 1);
    assert (s + 1) * (s + 2) == s * (s + 1) + 2 * (s + 1);
  }

  lemma {:induction false} ProbeStep(k: nat, s: nat, n: nat)
    requires n > 0
    ensures Probe(k, s + 1, n) == (Probe(k, s, n) + s + 1) % n
  {
    TriangleStep(s);
    var a := k + Triangle(s);
    ModAdd(a, s + 1, n);
  }

  lemma {:induction false} ModAdd(a: nat, b: nat, n: nat)
    requires n > 0
    ensures (a + b) % n == (a % n + b) % n
  {
    var q, r := a / n, a % n;
    assert a == n * q + r;
    var p, t := (r + b) / n, (r + b) % n;
    assert r + b == n * p + t;
    assert a + b == (q + p) * n + t;
    DivUnique(a + b, n, q + p, t);
  }

  /** A multiple of 2^e stays one when an odd factor is taken off. */
  lemma {:induction false} OddFactor(a: nat, b: nat, e: nat)
    requires a % 2 == 1 && a * b % Pow2(e) == 0
    ensures b % Pow2(e) == 0
  {
    if e > 0 {
      var p := Pow2(e - 1);
      var q := a * b / Pow2(e);
      assert a * b == Pow2(e) * q;
      assert Pow2(e) * q == 2 * (p * q);
      EvenFactor(a, b);
      var h := b / 2;
      assert b == 2 * h && a * b == 2 * (a * h);
      assert a * h == q * p + 0;
      DivUnique(a * h, p, q, 0);
      OddFactor(a, h, e - 1);
      assert h == p * (h / p);
      assert b == (h / p) * Pow2(e) + 0;
      DivUnique(b, Pow2(e), h / p, 0);
    }
  }

  lemma {:induction false} EvenFactor(a: nat, b: nat)
    requires a % 2 == 1 && a * b % 2 == 0
    ensures b % 2 == 0
  {
    var h := a / 2;
    assert a == 2 * h + 1;
    assert a * b == 2 * (h * b) + b;
  }

  /** Two numbers with the same remainder differ by a multiple. */
  lemma {:induction false} SameRemainder(x: nat, y: nat, n: nat) returns (q: nat)
    requires n > 0 && x <= y && x % n == y % n
    ensures y - x == n * q
  {
    var a, b := x / n, y / n;
    assert x == n * a + x % n && y == n * b + y % n;
    MulCancelDiff(n, a, b, x, y, x % n);
    q := b - a;
    MulDist(n, b, a);
  }

  lemma {:induction false} MulCancelDiff(n: nat, a: nat, b: nat, x: nat, y: nat, r: nat)
    requires n > 0 && x == n * a + r && y == n * b + r && x <= y
    ensures a <= b
  {
    MulCancel(n, a, b);
  }

  /** The first n probes are all different. */
  lemma {:induction false} ProbesDiffer(k: nat, a: nat, b: nat, n: nat, e: nat)
    requires n == Pow2(e) && a < b < n
    ensures Probe(k, a, n) != Probe(k, b, n)
  {
    if Probe(k, a, n) == Probe(k, b, n) {
      DifferByMultiple(k, a, b, n, e);
      NoMultiple(b - a, a + b + 1, n, e);
    }
  }

  lemma {:induction false} DifferByMultiple(k: nat, a: nat, b: nat, n: nat, e: nat)
    requires n == Pow2(e) && a < b && Probe(k, a, n) == Probe(k, b, n)
    ensures (b - a) * (a + b + 1) % Pow2(e + 1) == 0
  {
    Halves(a);
    Halves(b);
    TriangleMono(a, b);
    var q := SameRemainder(k + Triangle(a), k + Triangle(b), n);
    assert (b - a) * (a + b + 1) == b * (b + 1) - a * (a + 1);
    assert 2 * (n * q) == q * Pow2(e + 1) + 0;
    DivUnique((b - a) * (a + b + 1), Pow2(e + 1), q, 0);
  }

  lemma {:induction false} TriangleMono(a: nat, b: nat)
    requires a <= b
    ensures Triangle(a) <= Triangle(b)
  {
    if a < b {
      TriangleMono(a, b - 1);
      TriangleStep(b - 1);
    }
  }

  /** One of the two factors is odd, and the other is too small. */
  lemma {:induction false} NoMultiple(x: nat, y: nat, n: nat, e: nat)
    requires n == Pow2(e) && 0 < x < n && 0 < y < 2 * n && (x + y) % 2 == 1
    ensures x * y % Pow2(e + 1) != 0
  {
    if x % 2 == 1 {
      OddTimesSmall(x, y, e + 1);
    } else {
      Commutes(x, y);
      OddTimesSmall(y, x, e + 1);
    }
  }

  lemma {:induction false} OddTimesSmall(a: nat, b: nat, e: nat)
    requires a % 2 == 1 && 0 < b < Pow2(e)
    ensures a * b % Pow2(e) != 0
  {
    hide Pow2;
    DivUnique(b, Pow2(e), 0, b);
    if a * b % Pow2(e) == 0 {
      OddFactor(a, b, e);
    }
  }

  lemma {:induction false} Commutes(x: nat, y: nat)
    ensures x * y == y * x
  {
  }

  /** The buckets visited in the first s steps. */
  ghost function Visited(k: nat, s: nat, n: nat): (v: set<nat>)
    requires n > 0
    ensures forall i :: i in v <==> exists t: nat :: t < s && Probe(k, t, n) == i
  {
    set t: nat | 0 <= t < s :: Probe(k, t, n)
  }

  lemma {:induction false} VisitedCount(k: nat, s: nat, n: nat, e: nat)
    requires n == Pow2(e) && s <= n
    ensures |Visited(k, s, n)| == s
  {
    if s > 0 {
      VisitedCount(k, s - 1, n, e);
      var i := Probe(k, s - 1, n);
      if i in Visited(k, s - 1, n) {
        var t: nat :| t < s - 1 && Probe(k, t, n) == i;
        ProbesDiffer(k, t, s - 1, n, e);
      }
      assert Visited(k, s, n) == Visited(k, s - 1, n) + {i};
    }
  }

  /** The numbers below n. */
  ghost function Below(n: nat): (v: set<nat>)
    ensures forall i: nat :: i in v <==> i < n
    ensures |v| == n
  {
    if n == 0 then {} else Below(n - 1) + {n - 1}
  }

  lemma {:induction false} SubsetCount(a: set<nat>, b: set<nat>)
    requires a <= b
    ensures |a| <= |b|
    ensures |a| == |b| ==> a == b
  {
    if a != {} {
      var x :| x in a;
      SubsetCount(a - {x}, b - {x});
      if |a| == |b| {
        assert a == (a - {x}) + {x};
        assert b == (b - {x}) + {x};
      }
    } else if b != {} {
      var x :| x in b;
      assert |b| > 0;
    }
  }

  /** Every bucket is visited within n steps. */
  lemma {:induction false} VisitsAll(k: nat, n: nat, e: nat, i: nat) returns (s: nat)
    requires n == Pow2(e) && i < n
    ensures s < n && Probe(k, s, n) == i
  {
    VisitedCount(k, n, n, e);
    SubsetCount(Visited(k, n, n), Below(n));
    assert i in Visited(k, n, n);
    s :| s < n && Probe(k, s, n) == i;
  }

  /** The sequence is back where it began after 2n - 1 steps. */
  lemma {:induction false} ComesBack(k: nat, n: nat)
    requires n > 0
    ensures Probe(k, 2 * n - 1, n) == Probe(k, 0, n)
  {
    Halves(2 * n - 1);
    assert (2 * n - 1) * (2 * n) == 2 * ((2 * n - 1) * n);
    assert Triangle(2 * n - 1) == (2 * n - 1) * n;
    assert Triangle(0) == 0;
    var q, r := k / n, k % n;
    assert k == q * n + r;
    assert k + (2 * n - 1) * n == (q + (2 * n - 1)) * n + r;
    DivUnique(k + (2 * n - 1) * n, n, q + (2 * n - 1), r);
  }
}
