/**
 What the code lengths of MinRedundancy are worth: they fill the code space exactly, none is
 longer than 22, and no other lengths that fit the code space cost less.
 */
module Optimality {
  import opened Bits
  import opened MinRedundancy

  // ---- sums over the items that are left

  /** Every node takes over from its two items what it keeps, y, and gives away d. */
  ghost predicate TakesOver(x: seq<nat>, y: seq<nat>, d: seq<nat>, la: seq<nat>, t: nat)
  {
    && t + 1 < |la| && Takes(la, t) && la[t + 1] <= |x| && 0 <= Ra(la, t) && t < |y| && t < |d|
    && First(x, y, la, t) + Second(x, y, la, t) == y[t] + d[t]
  }

  lemma {:induction false} OnlyRoot(x: seq<nat>, y: seq<nat>, d: seq<nat>, la: seq<nat>, n: nat)
    requires FullRecord(la, n) && |x| == n && |y| == |d| == n - 1
    ensures Ra(la, n - 1) == n - 2 && la[n - 1] == n
    ensures Rest(x, y[..n - 1], la[n - 1], Ra(la, n - 1)) == Sum(d[n - 1..]) + y[n - 2]
  {
    assert y[..n - 1][n - 2..] == [y[n - 2]];
    assert [y[n - 2]][1..] == [];
    assert x[n..] == [] && d[n - 1..] == [];
  }

  /** Then the leaves' quantities add up to the root's and all that was given away. */
  lemma {:induction false} Telescope(x: seq<nat>, y: seq<nat>, d: seq<nat>, la: seq<nat>, n: nat, t: nat)
    requires FullRecord(la, n) && |x| == n && |y| == |d| == n - 1 && t <= n - 1
    requires forall s :: 0 <= s < n - 1 ==> TakesOver(x, y, d, la, s)
    ensures Ra(la, t) <= t
    ensures Rest(x, y[..t], la[t], Ra(la, t)) == Sum(d[t..]) + y[n - 2]
    decreases n - t
  {
    RaBelow(la, n, t);
    if t == n - 1 {
      OnlyRoot(x, y, d, la, n);
    } else {
      hide FullRecord, Sum, Rest, TakesOver;
      assert TakesOver(x, y, d, la, t);
      Telescope(x, y, d, la, n, t + 1);
      OneNode(x, y, d, la, n, t);
      SumDrop(d, t);
    }
  }

  lemma {:induction false} OneNode(x: seq<nat>, y: seq<nat>, d: seq<nat>, la: seq<nat>, n: nat, t: nat)
    requires FullRecord(la, n) && |x| == n && |y| == |d| == n - 1 && t < n - 1
    requires TakesOver(x, y, d, la, t)
    requires 0 <= Ra(la, t) <= t && 0 <= Ra(la, t + 1) <= t + 1 && la[t] <= n && la[t + 1] <= n
    ensures Rest(x, y[..t], la[t], Ra(la, t)) == d[t] + Rest(x, y[..t + 1], la[t + 1], Ra(la, t + 1))
  {
    hide FullRecord, Sum, Rest;
    RestStep(x, y[..t], la[t], Ra(la, t), la[t + 1]);
    RestGrows(x, y[..t], la[t + 1], Ra(la, t + 1), y[t]);
    assert y[..t] + [y[t]] == y[..t + 1];
  }

  function Cost(w: seq<nat>, l: seq<nat>): nat
    requires |w| == |l|
  {
    if w == [] then 0 else w[0] * l[0] + Cost(w[1..], l[1..])
  }

  /** Code space taken, in units of 2^-m. */
  function Kraft(l: seq<nat>, m: nat): nat
    requires forall i :: 0 <= i < |l| ==> l[i] <= m
  {
    if l == [] then 0 else Pow2(m - l[0]) + Kraft(l[1..], m)
  }

  function Products(w: seq<nat>, l: seq<nat>): (p: seq<nat>)
    requires |w| == |l|
    ensures |p| == |w|
  {
    seq(|w|, i requires 0 <= i < |w| => w[i] * l[i])
  }

  lemma {:induction false} CostIsSum(w: seq<nat>, l: seq<nat>)
    requires |w| == |l|
    ensures Cost(w, l) == Sum(Products(w, l))
  {
    if w != [] {
      CostIsSum(w[1..], l[1..]);
      assert Products(w, l)[1..] == Products(w[1..], l[1..]);
    }
  }

  function Shares(l: seq<nat>, m: nat): (p: seq<nat>)
    requires forall i :: 0 <= i < |l| ==> l[i] <= m
    ensures |p| == |l|
  {
    seq(|l|, i requires 0 <= i < |l| => Pow2(m - l[i]))
  }

  lemma {:induction false} KraftIsSum(l: seq<nat>, m: nat)
    requires forall i :: 0 <= i < |l| ==> l[i] <= m
    ensures Kraft(l, m) == Sum(Shares(l, m))
  {
    if l != [] {
      KraftIsSum(l[1..], m);
      assert Shares(l, m)[1..] == Shares(l[1..], m);
    }
  }

  /** The tree behind the lengths. */
  ghost predicate CodeTree(lens: seq<nat>, la: seq<nat>, dep: seq<nat>)
  {
    FullRecord(la, |lens|) && Depths(la, |lens|, dep) && LeafLengths(lens, la, dep)
  }

  lemma {:induction false} NodeItems(lens: seq<nat>, la: seq<nat>, dep: seq<nat>, t: nat)
    requires CodeTree(lens, la, dep) && t < |lens| - 1
    ensures Takes(la, t) && la[t + 1] <= |lens|
    ensures First(lens, dep, la, t) == dep[t] + 1 && Second(lens, dep, la, t) == dep[t] + 1
  {
    assert Takes(la, t) && ChildDepths(la, dep, t);
    assert la[t + 1] <= la[|lens| - 1];
  }

  lemma {:induction false} DepthBelow(lens: seq<nat>, la: seq<nat>, dep: seq<nat>, r: nat)
    requires CodeTree(lens, la, dep) && r < |lens| - 1
    ensures dep[r] <= |lens| - 2 - r
    decreases |lens| - r
  {
    if r < |lens| - 2 {
      var t := ParentOf(la, |lens|, r, |lens| - 1);
      assert ChildDepths(la, dep, t);
      DepthBelow(lens, la, dep, t);
    }
  }

  lemma {:induction false} LengthBelow(lens: seq<nat>, la: seq<nat>, dep: seq<nat>, i: nat)
    requires CodeTree(lens, la, dep) && i < |lens|
    ensures 1 <= lens[i] < |lens|
  {
    var t := LeafParent(la, |lens|, i, |lens| - 1);
    DepthBelow(lens, la, dep, t);
  }

  lemma {:induction false} NodeShares(lens: seq<nat>, la: seq<nat>, dep: seq<nat>, m: nat, t: nat)
    requires CodeTree(lens, la, dep) && t < |lens| - 1
    requires (forall i :: 0 <= i < |lens| ==> lens[i] <= m) && forall r :: 0 <= r < |dep| ==> dep[r] < m
    ensures TakesOver(Shares(lens, m), Shares(dep, m), seq(|lens| - 1, _ => 0), la, t)
  {
    NodeItems(lens, la, dep, t);
    assert Pow2(m - dep[t]) == 2 * Pow2(m - dep[t] - 1);
    assert First(Shares(lens, m), Shares(dep, m), la, t) == Pow2(m - First(lens, dep, la, t));
    assert Second(Shares(lens, m), Shares(dep, m), la, t) == Pow2(m - Second(lens, dep, la, t));
  }

  /** The lengths fill the code space exactly. */
  lemma {:induction false} KraftOne(lens: seq<nat>, la: seq<nat>, dep: seq<nat>, m: nat)
    requires CodeTree(lens, la, dep) && m >= |lens|
    ensures forall i :: 0 <= i < |lens| ==> 1 <= lens[i] <= m
    ensures Kraft(lens, m) == Pow2(m)
  {
    var n := |lens|;
    forall i | 0 <= i < n
      ensures 1 <= lens[i] <= m
    {
      LengthBelow(lens, la, dep, i);
    }
    forall r | 0 <= r < n - 1
      ensures dep[r] < m
    {
      DepthBelow(lens, la, dep, r);
    }
    var x, y, d := Shares(lens, m), Shares(dep, m), seq(n - 1, _ => 0);
    forall t | 0 <= t < n - 1
      ensures TakesOver(x, y, d, la, t)
    {
      NodeShares(lens, la, dep, m, t);
    }
    Telescope(x, y, d, la, n, 0);
    assert y[..0][0..] == [] && x[0..] == x && d[0..] == d;
    SumZero(d);
    KraftIsSum(lens, m);
  }

  /** The lengths cost what all the inner nodes weigh. */
  lemma {:induction false} CostOfTree(w: seq<nat>, inner: seq<nat>, lens: seq<nat>, la: seq<nat>, dep: seq<nat>)
    requires CodeTree(lens, la, dep) && |w| == |lens| && |inner| == |w| - 1 && GreedyRun(w, inner, la)
    ensures Cost(w, lens) == Sum(inner)
  {
    var n := |lens|;
    var x, y := Products(w, lens), Products(inner, dep);
    forall t | 0 <= t < n - 1
      ensures TakesOver(x, y, inner, la, t)
    {
      NodeCost(w, inner, lens, la, dep, t);
    }
    Telescope(x, y, inner, la, n, 0);
    assert y[..0][0..] == [] && x[0..] == x && inner[0..] == inner;
    CostIsSum(w, lens);
  }

  lemma {:induction false} NodeCost(w: seq<nat>, inner: seq<nat>, lens: seq<nat>, la: seq<nat>, dep: seq<nat>, t: nat)
    requires CodeTree(lens, la, dep) && |w| == |lens| && |inner| == |w| - 1 && GreedyRun(w, inner, la)
    requires t < |inner|
    ensures TakesOver(Products(w, lens), Products(inner, dep), inner, la, t)
  {
    NodeItems(lens, la, dep, t);
    assert Exact(w, inner, la, t);
    assert First(Products(w, lens), Products(inner, dep), la, t) == First(w, inner, la, t) * First(lens, dep, la, t);
    assert Second(Products(w, lens), Products(inner, dep), la, t) == Second(w, inner, la, t) * Second(lens, dep, la, t);
    Deeper(First(w, inner, la, t), Second(w, inner, la, t), dep[t]);
  }

  lemma {:induction false} Deeper(a: nat, b: nat, d: nat)
    ensures a * (d + 1) + b * (d + 1) == (a + b) * d + (a + b)
  {
  }

  // ---- no length exceeds 22

  function Fib(n: nat): nat
  {
    if n < 2 then n else Fib(n - 1) + Fib(n - 2)
  }

  lemma {:induction false} Deepest(lens: seq<nat>, la: seq<nat>, dep: seq<nat>, r: nat, s: nat)
    requires CodeTree(lens, la, dep) && r <= s < |lens| - 1
    ensures dep[r] >= dep[s]
    decreases |lens| - r
  {
    var n := |lens|;
    if s < n - 2 {
      var t := ParentOf(la, n, r, n - 1);
      var u := ParentOf(la, n, s, n - 1);
      assert ChildDepths(la, dep, t) && ChildDepths(la, dep, u);
      Deepest(lens, la, dep, t, u);
    }
  }

  /** A node is at least as heavy as its child and a grandchild through it together. */
  lemma {:induction false} Grandparent(w: seq<nat>, inner: seq<nat>, la: seq<nat>, g: nat, t: nat, p: nat)
    requires GreedyRun(w, inner, la) && g < t < p < |inner|
    requires Takes(la, t) && Ra(la, t) <= g < Ra(la, t + 1)
    requires Takes(la, p) && Ra(la, p) <= t < Ra(la, p + 1)
    ensures inner[p] >= inner[t] + inner[g]
  {
    assert Exact(w, inner, la, p) && Greedy(w, inner, la, t);
    assert la[t + 1] <= la[p] && Ra(la, t + 1) <= Ra(la, p);
    assert inner[g] == First(w, inner, la, t) || inner[g] == Second(w, inner, la, t);
  }

  /** Up the path from a node the weights outgrow the Fibonacci numbers. */
  lemma {:induction false} Climb(w: seq<nat>, inner: seq<nat>, lens: seq<nat>, la: seq<nat>, dep: seq<nat>, below: nat,
                                 t: nat, h: nat, k: nat)
    requires CodeTree(lens, la, dep) && |w| == |lens| && |inner| == |w| - 1 && GreedyRun(w, inner, la)
    requires t < |inner| && Outgrows(below, inner[t], h, k)
    requires forall p :: t < p < |inner| && Takes(la, p) && Ra(la, p) <= t < Ra(la, p + 1) ==>
      inner[p] >= inner[t] + below
    ensures inner[|inner| - 1] >= k * Fib(h + 1 + dep[t])
    decreases |inner| - t
  {
    var n := |lens|;
    if t < n - 2 {
      var p := ParentOf(la, n, t, n - 1);
      assert ChildDepths(la, dep, p);
      OutgrowsMore(below, inner[t], inner[p], h, k);
      forall q | p < q < |inner| && Takes(la, q) && Ra(la, q) <= p < Ra(la, q + 1)
        ensures inner[q] >= inner[p] + inner[t]
      {
        Grandparent(w, inner, la, t, p, q);
      }
      Climb(w, inner, lens, la, dep, inner[t], p, h + 1, k);
    }
  }

  ghost predicate Outgrows(a: nat, b: nat, h: nat, k: nat)
  {
    a >= k * Fib(h) && b >= k * Fib(h + 1)
  }

  lemma {:induction false} OutgrowsMore(a: nat, b: nat, c: nat, h: nat, k: nat)
    requires Outgrows(a, b, h, k) && c >= a + b
    ensures Outgrows(b, c, h + 1, k)
  {
    var x, y := Fib(h), Fib(h + 1);
    assert Fib(h + 2) == y + x;
    assert k * (y + x) == k * y + k * x;
  }

  lemma {:induction false} FibGrows(a: nat, b: nat)
    requires a <= b
    ensures Fib(a) <= Fib(b)
  {
    if a < b {
      FibGrows(a, b - 1);
    }
  }

  lemma {:induction false} Fib25()
    ensures Fib(25) > 65535
  {
    assert Fib(10) == 55 && Fib(11) == 89;
    assert Fib(12) == 144 && Fib(13) == 233;
    assert Fib(14) == 377 && Fib(15) == 610;
    assert Fib(16) == 987 && Fib(17) == 1597;
    assert Fib(18) == 2584 && Fib(19) == 4181;
    assert Fib(20) == 6765 && Fib(21) == 10946;
    assert Fib(22) == 17711 && Fib(23) == 28657;
  }

  /** What takes node t weighs at least as much more as each leaf that t took. */
  lemma {:induction false} LeafGrandparent(w: seq<nat>, inner: seq<nat>, la: seq<nat>, i: nat, t: nat, p: nat)
    requires GreedyRun(w, inner, la) && t < p < |inner| && i < |w|
    requires Takes(la, t) && la[t] <= i < la[t + 1]
    requires Takes(la, p) && Ra(la, p) <= t < Ra(la, p + 1)
    ensures inner[p] >= inner[t] + w[i]
  {
    assert Exact(w, inner, la, p) && Greedy(w, inner, la, t);
    assert la[t + 1] <= la[p] && Ra(la, t + 1) <= Ra(la, p);
    assert w[i] == First(w, inner, la, t) || w[i] == Second(w, inner, la, t);
  }

  /** A weight deep in the tree is small. */
  lemma {:induction false} DeepIsLight(w: seq<nat>, inner: seq<nat>, lens: seq<nat>, la: seq<nat>, dep: seq<nat>,
                                       i: nat)
    requires CodeTree(lens, la, dep) && |w| == |lens| && |inner| == |w| - 1 && GreedyRun(w, inner, la) && i < |w|
    ensures w[i] * Fib(lens[i] + 1) <= Sum(w)
  {
    var n := |lens|;
    var t := LeafParent(la, n, i, n - 1);
    assert Exact(w, inner, la, t);
    RootWeight(w, inner, la);
    assert Fib(1) == Fib(2) == 1;
    assert inner[t] >= w[i] && Outgrows(w[i], inner[t], 1, w[i]);
    forall p | t < p < |inner| && Takes(la, p) && Ra(la, p) <= t < Ra(la, p + 1)
      ensures inner[p] >= inner[t] + w[i]
    {
      LeafGrandparent(w, inner, la, i, t, p);
    }
    Climb(w, inner, lens, la, dep, w[i], t, 1, w[i]);
  }

  lemma {:induction false} OutgrowsFirst(a: nat, b: nat)
    requires a >= 2 && b >= a + 1
    ensures Outgrows(a, b, 3, 1)
  {
    assert Fib(3) == 2 && Fib(4) == 3;
  }

  /** The first node weighs at least 2, and what takes it at least 1 more. */
  lemma {:induction false} FirstWeights(w: seq<nat>, inner: seq<nat>, la: seq<nat>, p: nat)
    requires FullRecord(la, |w|) && |inner| == |w| - 1 && GreedyRun(w, inner, la)
    requires forall j :: 0 <= j < |w| ==> w[j] > 0
    requires 0 < p < |inner| && Takes(la, p) && Ra(la, p) <= 0 < Ra(la, p + 1)
    ensures inner[0] >= 2 && inner[p] >= inner[0] + 1
  {
    hide Sum, Rest, Weighs, Greedy;
    assert Takes(la, 0) && Exact(w, inner, la, 0) && Exact(w, inner, la, p);
    AllPositive(w, inner, la, |inner|);
  }

  lemma {:induction false} HeavyRoot(w: seq<nat>, inner: seq<nat>, lens: seq<nat>, la: seq<nat>, dep: seq<nat>)
    requires CodeTree(lens, la, dep) && |w| == |lens| > 2 && |inner| == |w| - 1 && GreedyRun(w, inner, la)
    requires forall j :: 0 <= j < |w| ==> w[j] > 0
    ensures inner[|inner| - 1] >= Fib(3 + dep[0])
  {
    hide Fib, GreedyRun;
    var n := |lens|;
    assert Takes(la, 0);
    var p := ParentOf(la, n, 0, n - 1);
    assert ChildDepths(la, dep, p);
    FirstWeights(w, inner, la, p);
    OutgrowsFirst(inner[0], inner[p]);
    forall q | p < q < |inner| && Takes(la, q) && Ra(la, q) <= p < Ra(la, q + 1)
      ensures inner[q] >= inner[p] + inner[0]
    {
      Grandparent(w, inner, la, 0, p, q);
    }
    Climb(w, inner, lens, la, dep, inner[0], p, 3, 1);
  }

  /** Positive weights that sum below 65536 give no length above 22. */
  lemma {:induction false} AtMost22(w: seq<nat>, inner: seq<nat>, lens: seq<nat>, la: seq<nat>, dep: seq<nat>, i: nat)
    requires CodeTree(lens, la, dep) && |w| == |lens| && |inner| == |w| - 1 && GreedyRun(w, inner, la)
    requires Sum(w) < 65536 && i < |w| && forall j :: 0 <= j < |w| ==> w[j] > 0
    ensures lens[i] <= 22
  {
    var t := LeafParent(la, |lens|, i, |lens| - 1);
    Deepest(lens, la, dep, 0, t);
    if |lens| > 2 {
      RootWeight(w, inner, la);
      HeavyRoot(w, inner, lens, la, dep);
      BelowFib(dep[0], Sum(w));
    }
  }

  lemma {:induction false} BelowFib(d: nat, v: nat)
    requires Fib(3 + d) <= v < 65536
    ensures d <= 21
  {
    hide Fib;
    if d > 21 {
      Fib25();
      FibGrows(25, 3 + d);
    }
  }

  lemma {:induction false} RootWeight(w: seq<nat>, inner: seq<nat>, la: seq<nat>)
    requires FullRecord(la, |w|) && |inner| == |w| - 1 && GreedyRun(w, inner, la)
    ensures inner[|inner| - 1] == Sum(w)
  {
    var k := |inner|;
    assert inner[Ra(la, k)..] == [inner[k - 1]];
    assert [inner[k - 1]][1..] == [];
    assert w[|w|..] == [];
  }

  lemma {:induction false} AllPositive(w: seq<nat>, inner: seq<nat>, la: seq<nat>, k: nat)
    requires GreedyRun(w, inner, la) && k <= |inner|
    requires forall j :: 0 <= j < |w| ==> w[j] > 0
    ensures forall r :: 0 <= r < k ==> inner[r] > 0
  {
    if k > 0 {
      AllPositive(w, inner, la, k - 1);
      assert Takes(la, k - 1) && Exact(w, inner, la, k - 1);
    }
  }

  // ---- no other lengths cost less

  ghost predicate KraftFits(l: seq<nat>, m: nat)
  {
    (forall i :: 0 <= i < |l| ==> l[i] <= m) && Kraft(l, m) <= Pow2(m)
  }

  lemma {:induction false} CostConcat(w: seq<nat>, v: seq<nat>, l: seq<nat>, k: seq<nat>)
    requires |w| == |l| && |v| == |k|
    ensures Cost(w + v, l + k) == Cost(w, l) + Cost(v, k)
  {
    if w == [] {
      assert w + v == v && l + k == k;
    } else {
      CostConcat(w[1..], v, l[1..], k);
      assert (w + v)[1..] == w[1..] + v && (l + k)[1..] == l[1..] + k;
    }
  }

  lemma {:induction false} KraftConcat(l: seq<nat>, k: seq<nat>, m: nat)
    requires (forall i :: 0 <= i < |l| ==> l[i] <= m) && forall i :: 0 <= i < |k| ==> k[i] <= m
    ensures forall i :: 0 <= i < |l + k| ==> (l + k)[i] <= m
    ensures Kraft(l + k, m) == Kraft(l, m) + Kraft(k, m)
  {
    if l == [] {
      assert l + k == k;
    } else {
      KraftConcat(l[1..], k, m);
      assert (l + k)[1..] == l[1..] + k;
    }
  }

  /** Changing one length. */
  lemma {:induction false} SetLength(w: seq<nat>, l: seq<nat>, i: nat, v: nat, m: nat)
    requires i < |l| == |w| && v <= m && forall j :: 0 <= j < |l| ==> l[j] <= m
    ensures Cost(w, l[i := v]) == Cost(w, l) + w[i] * v - w[i] * l[i]
    ensures Kraft(l[i := v], m) == Kraft(l, m) + Pow2(m - v) - Pow2(m - l[i])
  {
    if i == 0 {
      assert l[i := v][1..] == l[1..];
    } else {
      SetLength(w[1..], l[1..], i - 1, v, m);
      assert l[i := v][1..] == l[1..][i - 1 := v];
    }
  }

  /** Giving the longer of two lengths to the lighter item. */
  lemma {:induction false} SwapLengths(w: seq<nat>, l: seq<nat>, i: nat, j: nat, m: nat) returns (l': seq<nat>)
    requires i < |l| == |w| && j < |l| && i != j && KraftFits(l, m)
    requires w[i] <= w[j] && l[i] <= l[j]
    ensures l' == l[i := l[j]][j := l[i]]
    ensures Cost(w, l') <= Cost(w, l) && KraftFits(l', m)
  {
    l' := l[i := l[j]][j := l[i]];
    SetLength(w, l, i, l[j], m);
    SetLength(w, l[i := l[j]], j, l[i], m);
    Rearrange(w[i], w[j], l[i], l[j]);
  }

  lemma {:induction false} Rearrange(a: nat, b: nat, c: nat, d: nat)
    requires a <= b && c <= d
    ensures a * d + b * c <= a * c + b * d
  {
    MulMono(b - a, c, d);
    assert (b - a) * c == b * c - a * c && (b - a) * d == b * d - a * d;
  }

  /** A longest item. */
  lemma {:induction false} Longest(l: seq<nat>) returns (j: nat)
    requires l != []
    ensures j < |l| && forall k :: 0 <= k < |l| ==> l[k] <= l[j]
  {
    j := 0;
    for i := 1 to |l|
      invariant j < i && forall k :: 0 <= k < i ==> l[k] <= l[j]
    {
      if l[i] > l[j] {
        j := i;
      }
    }
  }

  /** The longest other item. */
  lemma {:induction false} LongestBut(l: seq<nat>, p: nat) returns (j: nat)
    requires |l| >= 2 && p < |l|
    ensures j < |l| && j != p && forall k :: 0 <= k < |l| && k != p ==> l[k] <= l[j]
  {
    j := if p == 0 then 1 else 0;
    for i := 0 to |l|
      invariant j < |l| && j != p && forall k :: 0 <= k < i && k != p ==> l[k] <= l[j]
    {
      if i != p && l[i] > l[j] {
        j := i;
      }
    }
  }

  /** In units of 2^-m, lengths up to s take multiples of 2^(m-s). */
  lemma {:induction false} KraftUnits(l: seq<nat>, s: nat, m: nat) returns (e: nat)
    requires s <= m && forall i :: 0 <= i < |l| ==> l[i] <= s
    ensures Kraft(l, m) == e * Pow2(m - s)
  {
    if l == [] {
      e := 0;
    } else {
      var f := KraftUnits(l[1..], s, m);
      e := f + Pow2(s - l[0]);
      Pow2Add(s - l[0], m - s);
      assert (f + Pow2(s - l[0])) * Pow2(m - s) == f * Pow2(m - s) + Pow2(s - l[0]) * Pow2(m - s);
    }
  }

  /** A single longest length can come down to the next longest one. */
  lemma {:induction false} Shorten(w: seq<nat>, l: seq<nat>, p: nat, s: nat, m: nat) returns (l': seq<nat>)
    requires p < |l| == |w| && KraftFits(l, m) && s <= l[p]
    requires forall k :: 0 <= k < |l| && k != p ==> l[k] <= s
    ensures l' == l[p := s] && KraftFits(l', m) && Cost(w, l') <= Cost(w, l)
  {
    l' := l[p := s];
    SetLength(w, l, p, s, m);
    MulMono(w[p], s, l[p]);
    var others := Without(l, p);
    var e := KraftUnits(others, s, m);
    KraftWithout(l, p, m);
    RoomForOne(e, Pow2(m - l[p]), s, m);
    KraftWithout(l', p, m);
    assert Without(l', p) == others;
  }

  function Without(s: seq<nat>, p: nat): (r: seq<nat>)
    requires p < |s|
    ensures |r| == |s| - 1 && forall k :: 0 <= k < |r| ==> r[k] == s[if k < p then k else k + 1]
  {
    s[..p] + s[p + 1..]
  }

  lemma {:induction false} CostWithout(w: seq<nat>, l: seq<nat>, p: nat)
    requires p < |l| == |w|
    ensures Cost(w, l) == w[p] * l[p] + Cost(Without(w, p), Without(l, p))
  {
    assert l == l[..p] + ([l[p]] + l[p + 1..]) && w == w[..p] + ([w[p]] + w[p + 1..]);
    CostConcat(w[..p], [w[p]] + w[p + 1..], l[..p], [l[p]] + l[p + 1..]);
    assert ([l[p]] + l[p + 1..])[1..] == l[p + 1..] && ([w[p]] + w[p + 1..])[1..] == w[p + 1..];
    CostConcat(w[..p], w[p + 1..], l[..p], l[p + 1..]);
  }

  lemma {:induction false} KraftWithout(l: seq<nat>, p: nat, m: nat)
    requires p < |l| && forall i :: 0 <= i < |l| ==> l[i] <= m
    ensures Kraft(l, m) == Pow2(m - l[p]) + Kraft(Without(l, p), m)
  {
    var a, b := l[..p], l[p + 1..];
    assert l == a + ([l[p]] + b);
    KraftConcat(a, [l[p]] + b, m);
    assert ([l[p]] + b)[1..] == b;
    KraftConcat(a, b, m);
  }

  /** A sum of multiples of 2^(m-s) that leaves any room leaves room for 2^(m-s). */
  lemma {:induction false} RoomForOne(e: nat, used: nat, s: nat, m: nat)
    requires s <= m && used > 0 && used + e * Pow2(m - s) <= Pow2(m)
    ensures (e + 1) * Pow2(m - s) <= Pow2(m)
    ensures Pow2(m - s) + e * Pow2(m - s) <= Pow2(m)
  {
    Pow2Add(s, m - s);
    var q := Pow2(m - s);
    Multiples(e, used, Pow2(s), q);
  }

  lemma {:induction false} Multiples(e: nat, used: nat, b: nat, q: nat)
    requires used > 0 && used + e * q <= b * q
    ensures (e + 1) * q <= b * q && q + e * q <= b * q
  {
    if e >= b {
      MulMono(q, b, e);
    } else {
      MulMono(q, e + 1, b);
    }
    assert (e + 1) * q == e * q + q;
  }

  /** Items p and q are the two lightest. */
  ghost predicate TwoLightest(w: seq<nat>, p: nat, q: nat)
  {
    && p < q < |w|
    && forall j :: 0 <= j < |w| && j != p && j != q ==> w[p] <= w[j] && w[q] <= w[j]
  }

  /** The two lightest items may be taken to be the longest, and equally long. */
  lemma {:induction false} Siblings(w: seq<nat>, l: seq<nat>, p: nat, q: nat, m: nat) returns (l': seq<nat>)
    requires |w| == |l| && TwoLightest(w, p, q) && KraftFits(l, m)
    ensures |l'| == |l| && KraftFits(l', m) && Cost(w, l') <= Cost(w, l)
    ensures l'[p] == l'[q] > 0
  {
    var j := Longest(l);
    l' := l;
    if j != p && j != q {
      l' := SwapLengths(w, l, p, j, m);
      j := p;
    }
    var other := if j == p then q else p;
    var k := LongestBut(l', j);
    if k != other {
      l' := SwapLengths(w, l', other, k, m);
    }
    l' := Shorten(w, l', j, l'[other], m);
    if l'[p] == 0 {
      TwoZeros(l', p, q, m);
    }
  }

  lemma {:induction false} TwoZeros(l: seq<nat>, p: nat, q: nat, m: nat)
    requires p < q < |l| && KraftFits(l, m) && l[p] == l[q]
    ensures l[p] > 0
  {
    KraftWithout(l, p, m);
    KraftWithout(Without(l, p), q - 1, m);
  }

  lemma {:induction false} JoinedSpace(l: seq<nat>, p: nat, q: nat, m: nat)
    requires p < q < |l| && KraftFits(l, m) && l[p] == l[q] > 0
    ensures KraftFits(Without(Without(l, q), p) + [l[p] - 1], m)
  {
    var s, l2 := l[p], Without(Without(l, q), p);
    KraftWithout(l, q, m);
    KraftWithout(Without(l, q), p, m);
    KraftConcat(l2, [s - 1], m);
    assert Pow2(m - (s - 1)) == 2 * Pow2(m - s);
    assert [s - 1][1..] == [];
  }

  /** Joining two equally long items into one that is a bit shorter. */
  lemma {:induction false} Join(w: seq<nat>, l: seq<nat>, p: nat, q: nat, m: nat) returns (l': seq<nat>)
    requires |w| == |l| && p < q < |l| && KraftFits(l, m) && l[p] == l[q] > 0
    ensures |l'| == |l| - 1 && KraftFits(l', m)
    ensures Cost(w, l) == Cost(Without(Without(w, q), p) + [w[p] + w[q]], l') + (w[p] + w[q])
  {
    JoinedSpace(l, p, q, m);
    hide KraftFits;
    var s := l[p];
    var w2, l2 := Without(Without(w, q), p), Without(Without(l, q), p);
    l' := l2 + [s - 1];
    CostWithout(w, l, q);
    CostWithout(Without(w, q), Without(l, q), p);
    CostConcat(w2, [w[p] + w[q]], l2, [s - 1]);
    assert Cost([w[p] + w[q]], [s - 1]) == (w[p] + w[q]) * (s - 1);
    Deeper(w[p], w[q], s - 1);
  }

  /** The weights left when node t is about to be made. */
  function Items(w: seq<nat>, inner: seq<nat>, la: seq<nat>, t: nat): seq<nat>
    requires Record(la, |w|, |inner|) && t <= |inner| && Ra(la, t) <= t
  {
    w[la[t]..] + inner[Ra(la, t)..t]
  }

  /** Taking two items off the fronts of two queues that stand one behind the other. */
  lemma {:induction false} Dequeue(a: seq<nat>, b: seq<nat>, i: nat) returns (p: nat, q: nat)
    requires i <= 2 && i <= |a| && 2 - i <= |b|
    ensures p < q < |a + b| && Without(Without(a + b, q), p) == a[i..] + b[2 - i..]
    ensures p == if i > 0 then 0 else |a|
    ensures q == if i == 2 then 1 else if i == 1 then |a| else |a| + 1
  {
    p := if i > 0 then 0 else |a|;
    q := if i == 2 then 1 else if i == 1 then |a| else |a| + 1;
    var x, y := Without(Without(a + b, q), p), a[i..] + b[2 - i..];
    forall k | 0 <= k < |y|
      ensures x[k] == y[k]
    {
    }
  }

  /** Node t joins the two lightest items. */
  lemma {:induction false} NextItems(w: seq<nat>, inner: seq<nat>, la: seq<nat>, t: nat) returns (p: nat, q: nat)
    requires GreedyRun(w, inner, la) && t < |inner| && Ra(la, t) <= t && Ra(la, t + 1) <= t + 1
    ensures TwoLightest(Items(w, inner, la, t), p, q)
    ensures var x := Items(w, inner, la, t);
      && x[p] + x[q] == inner[t]
      && Items(w, inner, la, t + 1) == Without(Without(x, q), p) + [inner[t]]
  {
    assert Takes(la, t);
    var a, b, i := w[la[t]..], inner[Ra(la, t)..t], la[t + 1] - la[t];
    p, q := Dequeue(a, b, i);
    ItemsLightest(w, inner, la, t, p, q);
    assert a[i..] == w[la[t + 1]..];
    InnerQueue(inner, Ra(la, t), 2 - i, t);
    QueuesMoved(w[la[t + 1]..], b[2 - i..], inner[t], inner[Ra(la, t + 1)..t + 1]);
  }

  lemma {:induction false} QueuesMoved(a: seq<nat>, b: seq<nat>, x: nat, c: seq<nat>)
    requires b + [x] == c
    ensures a + c == a + b + [x]
  {
  }

  lemma {:induction false} InnerQueue(inner: seq<nat>, r: nat, d: nat, t: nat)
    requires r + d <= t < |inner|
    ensures inner[r..t][d..] + [inner[t]] == inner[r + d..t + 1]
  {
    assert inner[r..t][d..] == inner[r + d..t];
  }

  lemma {:induction false} ItemsLightest(w: seq<nat>, inner: seq<nat>, la: seq<nat>, t: nat, p: nat, q: nat)
    requires GreedyRun(w, inner, la) && t < |inner| && Ra(la, t) <= t && Takes(la, t)
    requires var k := |w| - la[t];
      && p == (if la[t + 1] > la[t] then 0 else k)
      && q == (if la[t + 1] == la[t] + 2 then 1 else if la[t + 1] == la[t] + 1 then k else k + 1)
    ensures TwoLightest(Items(w, inner, la, t), p, q)
    ensures Items(w, inner, la, t)[p] + Items(w, inner, la, t)[q] == inner[t]
  {
    hide Sum, Weighs, Rest;
    assert Greedy(w, inner, la, t) && Exact(w, inner, la, t);
    var x := Items(w, inner, la, t);
    assert x[p] == First(w, inner, la, t) && x[q] == Second(w, inner, la, t);
    forall j | 0 <= j < |x| && j != p && j != q
      ensures x[p] <= x[j] && x[q] <= x[j]
    {
      if j < |w| - la[t] {
        assert x[j] == w[la[t] + j];
      } else {
        assert x[j] == inner[Ra(la, t) + j - (|w| - la[t])];
      }
    }
  }

  /** Any lengths for the items that are left cost at least what the nodes still to be made weigh. */
  lemma {:induction false} LowerBound(w: seq<nat>, inner: seq<nat>, la: seq<nat>, t: nat, l: seq<nat>, m: nat)
    requires FullRecord(la, |w|) && |inner| == |w| - 1 && GreedyRun(w, inner, la)
    requires t <= |inner| && Ra(la, t) <= t && |l| == |w| - t && KraftFits(l, m)
    ensures Cost(Items(w, inner, la, t), l) >= Sum(inner[t..])
    decreases |inner| - t
  {
    hide GreedyRun, Cost, KraftFits, Sum;
    if t < |inner| {
      hide FullRecord;
      RaBelow(la, |w|, t + 1);
      var p, q := NextItems(w, inner, la, t);
      var x := Items(w, inner, la, t);
      var l1 := Siblings(x, l, p, q, m);
      var l2 := Join(x, l1, p, q, m);
      LowerBound(w, inner, la, t + 1, l2, m);
      SumDrop(inner, t);
    } else {
      SumZero(inner[t..]);
    }
  }

  /** The lengths of the tree are the cheapest that fit. */
  lemma {:induction false} Cheapest(w: seq<nat>, inner: seq<nat>, lens: seq<nat>, la: seq<nat>, dep: seq<nat>,
                                    l: seq<nat>, m: nat)
    requires CodeTree(lens, la, dep) && |w| == |lens| == |l| && |inner| == |w| - 1 && GreedyRun(w, inner, la)
    requires KraftFits(l, m)
    ensures Cost(w, lens) <= Cost(w, l)
  {
    CostOfTree(w, inner, lens, la, dep);
    LowerBound(w, inner, la, 0, l, m);
    assert Items(w, inner, la, 0) == w && inner[0..] == inner;
  }

  // ---- the whole procedure

  /** No lengths that fit the code space cost less. */
  ghost predicate Minimal(w: seq<nat>, lens: seq<nat>)
  {
    |w| == |lens| && forall l, m :: |l| == |w| && KraftFits(l, m) ==> Cost(w, lens) <= Cost(w, l)
  }

  /** The lengths fill the code space exactly. */
  ghost predicate FillsExactly(lens: seq<nat>)
  {
    (forall i :: 0 <= i < |lens| ==> 1 <= lens[i] < |lens|) && Kraft(lens, |lens|) == Pow2(|lens|)
  }

  /** The longer a length, the lighter its weight. */
  ghost predicate Light(w: seq<nat>, lens: seq<nat>)
  {
    |w| == |lens| && forall i :: 0 <= i < |lens| ==> w[i] * Fib(lens[i] + 1) <= Sum(w)
  }

  ghost predicate Descending(lens: seq<nat>)
  {
    forall i, j :: 0 <= i <= j < |lens| ==> lens[i] >= lens[j]
  }

  lemma {:induction false} Descends(lens: seq<nat>, la: seq<nat>, dep: seq<nat>)
    requires CodeTree(lens, la, dep)
    ensures Descending(lens)
  {
    forall i, j | 0 <= i <= j < |lens|
      ensures lens[i] >= lens[j]
    {
      var t := LeafParent(la, |lens|, i, |lens| - 1);
      var u := LeafParent(la, |lens|, j, |lens| - 1);
      Deepest(lens, la, dep, t, u);
    }
  }

  lemma {:induction false} TreeIsGood(w: seq<nat>, inner: seq<nat>, lens: seq<nat>, la: seq<nat>, dep: seq<nat>)
    requires CodeTree(lens, la, dep) && |w| == |lens| && |inner| == |w| - 1
    requires Ascending(w) && Sum(w) < 65536 ==> GreedyRun(w, inner, la)
    ensures FillsExactly(lens) && Descending(lens)
    ensures Ascending(w) && Sum(w) < 65536 ==> Minimal(w, lens)
    ensures Ascending(w) && Sum(w) < 65536 && 0 !in w ==> forall i :: 0 <= i < |lens| ==> lens[i] <= 22
    ensures Ascending(w) && Sum(w) < 65536 ==> Light(w, lens)
  {
    KraftOne(lens, la, dep, |lens|);
    Descends(lens, la, dep);
    forall i | 0 <= i < |lens|
      ensures lens[i] < |lens|
    {
      LengthBelow(lens, la, dep, i);
    }
    if Ascending(w) && Sum(w) < 65536 {
      forall l, m | |l| == |w| && KraftFits(l, m)
        ensures Cost(w, lens) <= Cost(w, l)
      {
        Cheapest(w, inner, lens, la, dep, l, m);
      }
      forall i | 0 <= i < |lens|
        ensures w[i] * Fib(lens[i] + 1) <= Sum(w)
      {
        DeepIsLight(w, inner, lens, la, dep, i);
      }
      if 0 !in w {
        forall i | 0 <= i < |lens|
          ensures lens[i] <= 22
        {
          AtMost22(w, inner, lens, la, dep, i);
        }
      }
    }
  }

  /**
   tdefl_calculate_minimum_redundancy: weights in, code lengths out, in the same array. The
   code space is filled whatever the weights; the lengths are the cheapest, and none exceeds
   22, as long as the weights ascend and their sum fits 16 bits.
   */
  method CalculateMinimumRedundancy(A: array<SymFreq>)
    requires A.Length < 65536
    modifies A
    ensures forall i :: 0 <= i < A.Length ==> A[i].sym == old(A[i].sym)
    ensures A.Length == 1 ==> A[0].key == 1
    ensures A.Length >= 2 ==> FillsExactly(Keys(A[..])) && Descending(Keys(A[..]))
    ensures var w := old(Keys(A[..])); A.Length >= 2 && Ascending(w) && Sum(w) < 65536 ==>
      Minimal(w, Keys(A[..])) && Light(w, Keys(A[..])) && (0 !in w ==> forall i :: 0 <= i < A.Length ==> A[i].key <= 22)
  {
    if A.Length == 0 {
      return;
    } else if A.Length == 1 {
      A[0] := A[0].(key := 1);
      return;
    }
    ghost var w := Keys(A[..]);
    ghost var inner, la := MakeNodes(A, w);
    NodeDepths(A, la);
    ghost var dep := LeafDepths(A, la);
    TreeIsGood(w, inner, Keys(A[..]), la, dep);
    assert forall i :: 0 <= i < A.Length ==> Keys(A[..])[i] == A[i].key;
  }
}
