/** Limiting the longest code length (tdefl_huffman_enforce_max_code_size). */
module CodeSizeLimit {
  import opened Bits
  import opened LengthLimit
  import opened LengthLists

  /** The loop that adds the longer lengths to entry max. */
  method Fold(num: array<int>, max: nat)
    requires num.Length == MAX_SUPPORTED + 1 && max <= MAX_SUPPORTED
    modifies num
    ensures num[..] == old(num[..])[max := old(num[max]) + Tail(old(num[..]), max, MAX_SUPPORTED)]
  {
    var i := max + 1;
    while i <= MAX_SUPPORTED
      invariant max + 1 <= i <= MAX_SUPPORTED + 1
      invariant num[..] == old(num[..])[max := old(num[max]) + Tail(old(num[..]), max, i - 1)]
    {
      num[max] := num[max] + num[i];
      i := i + 1;
    }
  }

  /** The space taken, in units of 2^-max; the source shifts where this multiplies. */
  method Total(num: array<int>, max: nat) returns (total: int)
    requires num.Length == MAX_SUPPORTED + 1 && max <= MAX_SUPPORTED
    ensures total == Space(num[..], max, max)
  {
    total := 0;
    var i := max;
    ghost var all := Space(num[..], max, max);
    while i > 0
      invariant 0 <= i <= max
      invariant total + Space(num[..], i, max) == all
    {
      total := total + num[i] * Pow2(max - i);
      i := i - 1;
    }
  }

  /**
   Where the repair loop stands: n codes take total, and the list c of their lengths has been
   changed up to place top.
   */
  ghost predicate Repairing(c: seq<nat>, num: seq<int>, max: nat, total: int, n: nat, top: int)
  {
    && Repairable(num, max, total) && Codes(num, max) == n
    && Repaired(c, Down(num, max), max, top, Room(c, max) + n - total)
  }

  lemma {:induction false} RepairStarts(num: seq<int>, codeListLen: nat, max: nat, f: seq<int>)
    requires FullHistogram(num, codeListLen) && 1 <= max <= MAX_SUPPORTED && codeListLen <= Pow2(max)
    requires f == num[max := num[max] + Tail(num, max, MAX_SUPPORTED)]
    ensures Repairing(Cut(Down(num, MAX_SUPPORTED), max), f, max, Space(f, max, max), codeListLen, -1)
  {
    hide FullHistogram, Space, Codes, Tail, Down, Room, Pow2;
    assert |num| == MAX_SUPPORTED + 1 && NonNegative(num) by { HistogramParts(num, codeListLen); }
    Folded(num, codeListLen, max, f[max]);
    FoldCuts(num, max, MAX_SUPPORTED, f[max]);
    DownShape(f, max);
    DownRoom(f, max, max);
    NotRepaired(Down(f, max), max);
  }

  lemma {:induction false} HistogramParts(num: seq<int>, codeListLen: int)
    requires FullHistogram(num, codeListLen)
    ensures |num| == MAX_SUPPORTED + 1 && NonNegative(num)
  {
  }

  lemma {:induction false} RepairGoesOn(c: seq<nat>, num: seq<int>, max: nat, total: int, n: nat, top: int, i: nat,
                                        num': seq<int>)
    requires Repairing(c, num, max, total, n, top) && total > Pow2(max)
    requires 1 <= i < max && num[i] > 0 && num[max] > 0 && forall k :: i < k < max ==> num[k] == 0
    requires num' == Exchanged(num, max, i)
    ensures Repairing(c, num', max, total - 1, n, if num[max] > top then num[max] else top)
  {
    hide Space, Codes, Down, Room, Pow2, Repairable, Repaired;
    RepairParts(num, max, total);
    var again := RepairStep(num, max, total, i);
    DownStep(num, max, i, num');
    DownRoom(num, max, max);
    RepairedMore(c, Down(num, max), max, top, Room(c, max) + n - total, num[max], i);
  }

  lemma {:induction false} RepairParts(num: seq<int>, max: nat, total: int)
    requires Repairable(num, max, total)
    ensures 1 <= max < |num| && NonNegative(num) && total == Space(num, max, max)
  {
  }

  /** When the space is filled exactly, the lengths have been shortened. */
  lemma {:induction false} RepairEnds(num: seq<int>, codeListLen: nat, max: nat, f: seq<int>, num': seq<int>, top: int)
    requires FullHistogram(num, codeListLen) && 1 <= max <= MAX_SUPPORTED && codeListLen <= Pow2(max)
    requires f == num[max := num[max] + Tail(num, max, MAX_SUPPORTED)]
    requires Repairing(Cut(Down(num, MAX_SUPPORTED), max), num', max, Pow2(max), codeListLen, top)
    ensures Shortened(Down(num, MAX_SUPPORTED), Down(num', max), max)
  {
    hide FullHistogram, Space, Codes, Tail, Down, Room, Pow2, Repairable;
    HistogramParts(num, codeListLen);
    Folded(num, codeListLen, max, f[max]);
    FoldCuts(num, max, MAX_SUPPORTED, f[max]);
    var c := Down(f, max);
    RepairParts(f, max, Space(f, max, max));
    DownShape(f, max);
    DownRoom(f, max, max);
    FewSpent(f, max, codeListLen);
    if top >= 0 {
      forall d: nat | Few(codeListLen, max, d)
        ensures c[top] > d
      {
        TopIsLong(num, f, max, codeListLen, d, top);
      }
    }
    EnoughTaken(Cut(Down(num, MAX_SUPPORTED), max), num', max, Pow2(max), codeListLen, top);
    assert ShortenedTo(Down(num, MAX_SUPPORTED), Down(num', max), max, top);
  }

  lemma {:induction false} FewSpent(f: seq<int>, max: nat, n: nat)
    requires max < |f| && Repairable(f, max, Space(f, max, max)) && Codes(f, max) == n
    ensures Space(f, max, max) - Pow2(max) <= n
  {
    SpacePositive(f, max - 1, max);
    assert Pow2(0) == 1;
    assert f[max] * Pow2(0) == f[max];
  }

  /** One turn of the repair loop. */
  method Repair(num: array<int>, max: nat, total: int, ghost c: seq<nat>, ghost n: nat, ghost top: int)
    returns (ghost top2: int)
    requires num.Length == MAX_SUPPORTED + 1
    requires Repairing(c, num[..], max, total, n, top) && total > Pow2(max)
    modifies num
    ensures Repairing(c, num[..], max, total - 1, n, top2)
  {
    hide Space, Codes, Down, Room, Pow2, Repairable, Repaired;
    ghost var before := num[..];
    RepairParts(before, max, total);
    var i := max - 1;
    while i > 0 && num[i] == 0
      invariant 0 <= i < max
      invariant forall k :: i < k < max ==> num[k] == 0
    {
      i := i - 1;
    }
    SomeShorter(before, max, total, i);
    RepairGoesOn(c, before, max, total, n, top, i, Exchanged(before, max, i));
    top2 := if before[max] > top then before[max] else top;
    num[max] := num[max] - 1;
    num[i] := num[i] - 1;
    num[i + 1] := num[i + 1] + 2;
    assert num[..] == Exchanged(before, max, i);
  }

  /**
   The whole procedure: whatever full histogram comes in, the same number of codes comes out,
   none longer than max, filling the code space exactly. No code gets longer, except that the
   longest of those that were short enough make room for the others.
   */
  method EnforceMaxCodeSize(num: array<int>, codeListLen: int, max: nat)
    requires num.Length == MAX_SUPPORTED + 1 && 1 <= max <= MAX_SUPPORTED
    requires codeListLen > 1 ==> FullHistogram(num[..], codeListLen) && codeListLen <= Pow2(max)
    modifies num
    ensures codeListLen <= 1 ==> num[..] == old(num[..])
    ensures codeListLen > 1 ==>
      && NonNegative(num[..])
      && Codes(num[..], max) == codeListLen
      && Space(num[..], max, max) == Pow2(max)
      && Shortened(Down(old(num[..]), MAX_SUPPORTED), Down(num[..], max), max)
  {
    hide FullHistogram, Space, Codes, Down, Room, Pow2, Repairing, Shortened, Tail;
    if codeListLen <= 1 {
      return;
    }
    ghost var o, c := num[..], Cut(Down(num[..], MAX_SUPPORTED), max);
    ghost var f := o[max := o[max] + Tail(o, max, MAX_SUPPORTED)];
    RepairStarts(o, codeListLen, max, f);
    Fold(num, max);
    var total := Total(num, max);
    ghost var top := -1;
    EnoughTaken(c, f, max, total, codeListLen, top);
    while total != Pow2(max)
      invariant Repairing(c, num[..], max, total, codeListLen, top) && total >= Pow2(max)
      decreases total
    {
      top := Repair(num, max, total, c, codeListLen, top);
      total := total - 1;
      EnoughTaken(c, num[..], max, total, codeListLen, top);
    }
    RepairEnds(o, codeListLen, max, f, num[..], top);
    EnoughTaken(c, num[..], max, total, codeListLen, top);
  }

  lemma {:induction false} EnoughTaken(c: seq<nat>, num: seq<int>, max: nat, total: int, n: nat, top: int)
    requires Repairing(c, num, max, total, n, top)
    ensures 1 <= max < |num| && NonNegative(num)
    ensures Pow2(max) <= total == Space(num, max, max) && Codes(num, max) == n
  {
  }
}
