/** What limiting the longest code length does to a histogram of lengths (tdefl_huffman_enforce_max_code_size). */
module LengthLimit {
  import opened Bits

  const MAX_SUPPORTED := 32

  /** Code space taken by lengths 1..l, in units of 2^-m. */
  function Space(num: seq<int>, l: nat, m: nat): int
    requires l <= m && l < |num|
  {
    if l == 0 then 0 else Space(num, l - 1, m) + num[l] * Pow2(m - l)
  }

  /** Number of codes of lengths 1..l. */
  function Codes(num: seq<int>, l: nat): int
    requires l < |num|
  {
    if l == 0 then 0 else Codes(num, l - 1) + num[l]
  }

  ghost predicate NonNegative(num: seq<int>)
  {
    forall l :: 0 <= l < |num| ==> num[l] >= 0
  }

  lemma {:induction false} SpaceAgrees(a: seq<int>, b: seq<int>, l: nat, m: nat)
    requires l <= m && l < |a| && l < |b| && forall k :: 1 <= k <= l ==> a[k] == b[k]
    ensures Space(a, l, m) == Space(b, l, m) && Codes(a, l) == Codes(b, l)
  {
    if l > 0 {
      SpaceAgrees(a, b, l - 1, m);
    }
  }

  /** Changing one entry. */
  lemma {:induction false} SpaceSet(num: seq<int>, i: nat, v: int, l: nat, m: nat)
    requires 1 <= i <= l <= m && l < |num|
    ensures Space(num[i := v], l, m) == Space(num, l, m) + (v - num[i]) * Pow2(m - i)
    ensures Codes(num[i := v], l) == Codes(num, l) + v - num[i]
  {
    if i == l {
      SpaceAgrees(num, num[i := v], l - 1, m);
      var p := Pow2(m - l);
      assert v * p == num[i] * p + (v - num[i]) * p;
    } else {
      SpaceSet(num, i, v, l - 1, m);
    }
  }

  /** Doubling the unit. */
  lemma {:induction false} SpaceFiner(num: seq<int>, l: nat, m: nat)
    requires l <= m && l < |num|
    ensures Space(num, l, m + 1) == 2 * Space(num, l, m)
  {
    if l > 0 {
      SpaceFiner(num, l - 1, m);
      var p := Pow2(m - l);
      assert Pow2(m + 1 - l) == 2 * p;
      assert num[l] * (2 * p) == 2 * (num[l] * p);
    }
  }

  lemma {:induction false} SpacePositive(num: seq<int>, l: nat, m: nat)
    requires l <= m && l < |num| && NonNegative(num)
    ensures 0 <= Codes(num, l) <= Space(num, l, m)
  {
    if l > 0 {
      SpacePositive(num, l - 1, m);
      MulMono(num[l], 1, Pow2(m - l));
    }
  }

  /**
   Folding the codes longer than max into length max: at least as much space is taken as before,
   and what the shorter codes take still fits.
   */
  lemma {:induction false} FoldSpace(num: seq<int>, max: nat, l: nat)
    requires 1 <= max <= l < |num| && NonNegative(num)
    ensures Space(num, l, l) <= (Space(num, max - 1, max) + Codes(num, l) - Codes(num, max - 1)) * Pow2(l - max)
    ensures Space(num, l, l) >= Space(num, max - 1, max) * Pow2(l - max)
    decreases l
  {
    var s := Space(num, max - 1, max);
    var p := Pow2(l - max);
    if l == max {
      assert Codes(num, l) - Codes(num, max - 1) == num[l];
    } else {
      FoldSpace(num, max, l - 1);
      SpaceFiner(num, l - 1, l - 1);
      var q := Pow2(l - 1 - max);
      var c := Codes(num, l - 1) - Codes(num, max - 1);
      assert Space(num, l, l) == 2 * Space(num, l - 1, l - 1) + num[l];
      FinerUnits(s, c, num[l], q);
    }
  }

  lemma {:induction false} FinerUnits(s: int, c: int, n: nat, q: nat)
    requires q >= 1
    ensures s * (2 * q) == 2 * (s * q)
    ensures 2 * ((s + c) * q) + n <= (s + (c + n)) * (2 * q)
  {
    MulMono(n, 1, 2 * q);
    assert (s + (c + n)) * (2 * q) == 2 * ((s + c) * q) + n * (2 * q);
  }

  /** The sum of the entries above max. */
  function Tail(num: seq<int>, max: nat, l: nat): int
    requires max <= l < |num|
  {
    if l == max then 0 else Tail(num, max, l - 1) + num[l]
  }

  lemma {:induction false} CodesTail(num: seq<int>, max: nat, l: nat)
    requires max <= l < |num|
    ensures Codes(num, l) == Codes(num, max) + Tail(num, max, l)
  {
    if l > max {
      CodesTail(num, max, l - 1);
    }
  }

  /** The state in which the repair loop runs. */
  ghost predicate Repairable(num: seq<int>, max: nat, total: int)
  {
    && 1 <= max < |num| && NonNegative(num)
    && total == Space(num, max, max)
    && Pow2(max) <= total
    && Space(num, max - 1, max) <= Pow2(max)
    && Codes(num, max) <= Pow2(max)
  }

  /** There is a code to lengthen as long as too much space is taken. */
  lemma {:induction false} SomeShorter(num: seq<int>, max: nat, total: int, i: nat)
    requires Repairable(num, max, total) && total > Pow2(max)
    requires i < max && forall k :: i < k < max ==> num[k] == 0
    ensures num[max] > 0
    ensures i == 0 ==> false
  {
    if i == 0 {
      NoneShorter(num, max - 1, max);
    }
  }

  lemma {:induction false} NoneShorter(num: seq<int>, l: nat, m: nat)
    requires l <= m && l < |num| && forall k :: 1 <= k <= l ==> num[k] == 0
    ensures Space(num, l, m) == 0 && Codes(num, l) == 0
  {
    if l > 0 {
      NoneShorter(num, l - 1, m);
    }
  }

  /** One code of length max and one of length i less, two of length i + 1 more. */
  function Exchanged(num: seq<int>, max: nat, i: nat): (num': seq<int>)
    requires 1 <= i < max < |num|
    ensures |num'| == |num|
  {
    var a := num[max := num[max] - 1];
    a[i := a[i] - 1][i + 1 := a[i + 1] + 2]
  }

  /** One repair: a longest code is dropped next to a shorter one that becomes two. */
  lemma {:induction false} RepairStep(num: seq<int>, max: nat, total: int, i: nat) returns (num': seq<int>)
    requires Repairable(num, max, total) && total > Pow2(max)
    requires 1 <= i < max && num[i] > 0 && num[max] > 0
    ensures num' == Exchanged(num, max, i)
    ensures Repairable(num', max, total - 1)
    ensures Codes(num', max) == Codes(num, max)
  {
    var a := num[max := num[max] - 1];
    var b := a[i := num[i] - 1];
    num' := b[i + 1 := a[i + 1] + 2];
    SpaceSet(num, max, num[max] - 1, max, max);
    SpaceSet(a, i, num[i] - 1, max, max);
    SpaceSet(b, i + 1, a[i + 1] + 2, max, max);
    assert Pow2(max - i) == 2 * Pow2(max - i - 1);
    RepairBelow(num, max, i, num');
  }

  lemma {:induction false} RepairBelow(num: seq<int>, max: nat, i: nat, num': seq<int>)
    requires 1 <= i < max < |num|
    requires num' == Exchanged(num, max, i)
    ensures Space(num', max - 1, max) <= Space(num, max - 1, max)
  {
    var a := num[max := num[max] - 1];
    var b := a[i := num[i] - 1];
    SpaceSet(a, i, num[i] - 1, max - 1, max);
    SpaceAgrees(num, a, max - 1, max);
    assert Pow2(max - i) == 2 * Pow2(max - i - 1);
    if i + 1 < max {
      SpaceSet(b, i + 1, a[i + 1] + 2, max - 1, max);
    } else {
      SpaceAgrees(b, num', max - 1, max);
    }
  }

  /** A histogram of codeListLen lengths, none above MAX_SUPPORTED, that fill the code space exactly. */
  ghost predicate FullHistogram(num: seq<int>, codeListLen: int)
  {
    && |num| == MAX_SUPPORTED + 1 && NonNegative(num)
    && Codes(num, MAX_SUPPORTED) == codeListLen
    && Space(num, MAX_SUPPORTED, MAX_SUPPORTED) == Pow2(MAX_SUPPORTED)
  }

  /** After folding, the repair loop may start. */
  lemma {:induction false} Folded(num: seq<int>, codeListLen: int, max: nat, v: int)
    requires FullHistogram(num, codeListLen) && 1 <= max <= MAX_SUPPORTED && codeListLen <= Pow2(max)
    requires v == num[max] + Tail(num, max, MAX_SUPPORTED)
    ensures Repairable(num[max := v], max, Space(num[max := v], max, max))
    ensures Codes(num[max := v], max) == codeListLen
  {
    hide Space, Codes, Tail, Pow2;
    var l := MAX_SUPPORTED;
    var s := Space(num, max - 1, max);
    LastLength(num, max, v);
    FoldSpace(num, max, l);
    CodesTail(num, max, l);
    Pow2Add(max, l - max);
    SpaceSet(num, max, v, max, max);
    SpaceAgrees(num, num[max := v], max - 1, max);
    TailNonNegative(num, max, l);
    assert s + Codes(num, l) - Codes(num, max - 1) == s + v;
    var q := Pow2(l - max);
    CancelRight(s, Pow2(max), q);
    CancelRight(Pow2(max), s + v, q);
  }

  /** The last length by itself. */
  lemma {:induction false} LastLength(num: seq<int>, max: nat, v: int)
    requires 1 <= max < |num|
    ensures Space(num[max := v], max, max) == Space(num[max := v], max - 1, max) + v
    ensures Codes(num, max) == Codes(num, max - 1) + num[max]
  {
    assert Pow2(0) == 1;
  }

  lemma {:induction false} TailNonNegative(num: seq<int>, max: nat, l: nat)
    requires max <= l < |num| && NonNegative(num)
    ensures Tail(num, max, l) >= 0
  {
    if l > max {
      TailNonNegative(num, max, l - 1);
    }
  }
}
