/** xs_ptr_qsort: quicksort without recursion, with insertion sort for short segments. */
module QuickSort {
  import opened SortSpec
  import opened Bits

  const THRESHOLD := 8
  const STACK_SIZE := 64

  method Swap<T(!new)>(a: array<T>, i: nat, j: nat, ghost lo: nat, ghost hi: nat)
    requires lo <= i < hi && lo <= j < hi && hi <= a.Length
    modifies a
    ensures a[..] == Swapped(old(a[..]), i, j) && Permuted(old(a[..]), a[..], lo, hi)
  {
    SwapPermutes(a[..], i, j, lo, hi);
    a[i], a[j] := a[j], a[i];
  }

  // ---- short segments

  /** s is in order between lo and hi but for the element at k, which may be too small for its place. */
  ghost predicate OrderedButOne<T>(s: seq<T>, lo: nat, hi: nat, k: nat, proc: (T, T) -> int)
  {
    hi <= |s| && forall p, q :: lo <= p < q < hi && q != k ==> proc(s[p], s[q]) <= 0
  }

  ghost predicate Ordered<T>(s: seq<T>, lo: nat, hi: nat, proc: (T, T) -> int)
  {
    hi <= |s| && forall p, q :: lo <= p < q < hi ==> proc(s[p], s[q]) <= 0
  }

  lemma {:induction false} MovedDown<T(!new)>(s: seq<T>, lo: nat, hi: nat, k: nat, proc: (T, T) -> int)
    requires TotalPreorder(proc) && lo < k < hi <= |s| && OrderedButOne(s, lo, hi, k, proc) && proc(s[k], s[k - 1]) < 0
    ensures OrderedButOne(Swapped(s, k - 1, k), lo, hi, k - 1, proc)
  {
  }

  lemma {:induction false} InPlace<T(!new)>(s: seq<T>, lo: nat, hi: nat, k: nat, proc: (T, T) -> int)
    requires TotalPreorder(proc) && lo <= k < hi <= |s| && OrderedButOne(s, lo, hi, k, proc)
    requires k > lo ==> proc(s[k], s[k - 1]) >= 0
    ensures Ordered(s, lo, hi, proc)
  {
    forall p, q | lo <= p < q < hi
      ensures proc(s[p], s[q]) <= 0
    {
      if q == k && p < k - 1 {
        assert proc(s[p], s[k - 1]) <= 0;
      }
    }
  }

  /** The element at i moves down to its place. */
  method Insert<T(!new)>(a: array<T>, start: nat, i: nat, limit: nat, proc: (T, T) -> int)
    requires start < i < limit <= a.Length
    modifies a
    ensures Permuted(old(a[..]), a[..], start, limit)
    ensures TotalPreorder(proc) && Ordered(old(a[..]), start, i, proc) ==> Ordered(a[..], start, i + 1, proc)
  {
    hide Permuted, TotalPreorder, Ordered, OrderedButOne;
    ghost var s := a[..];
    ghost var good := TotalPreorder(proc) && Ordered(s, start, i, proc);
    PermutedSelf(s, start, limit);
    LastOut(s, start, i, proc);
    var j := i - 1;
    var atStart := false;
    while !atStart && proc(a[j + 1], a[j]) < 0
      invariant start <= j < i && Permuted(s, a[..], start, limit)
      invariant good ==> OrderedButOne(a[..], start, i + 1, if atStart then j else j + 1, proc)
      invariant atStart ==> j == start
      decreases !atStart, j
    {
      MoveDown(a, start, i, j, limit, proc, good, s);
      if j == start {
        atStart := true;
      } else {
        j := j - 1;
      }
    }
    if good {
      InPlace(a[..], start, i + 1, if atStart then j else j + 1, proc);
    }
  }

  lemma {:induction false} LastOut<T>(s: seq<T>, lo: nat, i: nat, proc: (T, T) -> int)
    requires i < |s|
    ensures Ordered(s, lo, i, proc) ==> OrderedButOne(s, lo, i + 1, i, proc)
  {
  }

  method MoveDown<T(!new)>(a: array<T>, start: nat, i: nat, j: nat, limit: nat, proc: (T, T) -> int, ghost good: bool,
    ghost s: seq<T>)
    requires start <= j < i < limit <= a.Length && Permuted(s, a[..], start, limit) && proc(a[j + 1], a[j]) < 0
    requires good ==> TotalPreorder(proc) && OrderedButOne(a[..], start, i + 1, j + 1, proc)
    modifies a
    ensures Permuted(s, a[..], start, limit)
    ensures good ==> OrderedButOne(a[..], start, i + 1, j, proc)
  {
    hide Permuted, TotalPreorder, OrderedButOne;
    ghost var before := a[..];
    if good {
      MovedDown(before, start, i + 1, j + 1, proc);
    }
    Swap(a, j, j + 1, start, limit);
    PermutedTrans(s, before, a[..], start, limit);
  }

  method InsertionSort<T(!new)>(a: array<T>, start: nat, limit: nat, proc: (T, T) -> int)
    requires start <= limit <= a.Length
    modifies a
    ensures Permuted(old(a[..]), a[..], start, limit)
    ensures TotalPreorder(proc) ==> Ordered(a[..], start, limit, proc)
  {
    hide Permuted;
    ghost var s := a[..];
    PermutedSelf(s, start, limit);
    var i := start + 1;
    while i < limit
      invariant start + 1 <= i && (i <= limit || limit <= start + 1) && Permuted(s, a[..], start, limit)
      invariant TotalPreorder(proc) ==> Ordered(a[..], start, if i < limit then i else limit, proc)
    {
      ghost var before := a[..];
      Insert(a, start, i, limit, proc);
      PermutedTrans(s, before, a[..], start, limit);
      i := i + 1;
    }
  }

  // ---- partitioning

  /** With the pivot at lo: up to i nothing is above it, from j on nothing is below it. */
  ghost predicate Parted<T>(s: seq<T>, lo: nat, i: int, j: int, hi: nat, proc: (T, T) -> int)
  {
    && lo < hi <= |s|
    && (forall k :: lo < k <= i && k < hi ==> proc(s[k], s[lo]) <= 0)
    && (forall k :: lo < k < hi && j <= k ==> proc(s[lo], s[k]) <= 0)
  }

  /** The elements at x and y exchanged if the one at y is below. */
  function InOrder<T>(s: seq<T>, x: nat, y: nat, proc: (T, T) -> int): (t: seq<T>)
    requires x < |s| && y < |s|
    ensures |t| == |s|
  {
    if proc(s[y], s[x]) < 0 then Swapped(s, x, y) else s
  }

  lemma {:induction false} MedianOfThree<T(!new)>(s: seq<T>, lo: nat, i: nat, j: nat, hi: nat, proc: (T, T) -> int)
    requires TotalPreorder(proc) && i == lo + 1 && i < j == hi - 1 && hi <= |s|
    ensures Parted(InOrder(InOrder(InOrder(s, i, j, proc), lo, j, proc), i, lo, proc), lo, i, j, hi, proc)
  {
    hide InOrder, TotalPreorder;
    var s1 := InOrder(s, i, j, proc);
    InOrderAt(s, i, j, proc);
    var s2 := InOrder(s1, lo, j, proc);
    InOrderAt(s1, lo, j, proc);
    Transitive(proc, s1[i], s1[j], s2[j]);
    InOrderAt(s2, i, lo, proc);
  }

  lemma {:induction false} InOrderAt<T(!new)>(s: seq<T>, x: nat, y: nat, proc: (T, T) -> int)
    requires TotalPreorder(proc) && x < |s| && y < |s| && x != y
    ensures var t := InOrder(s, x, y, proc);
      proc(t[x], t[y]) <= 0 && ((t[x] == s[x] && t[y] == s[y]) || (t[x] == s[y] && t[y] == s[x]))
      && forall k :: 0 <= k < |s| && k != x && k != y ==> t[k] == s[k]
  {
  }

  lemma {:induction false} Transitive<T(!new)>(proc: (T, T) -> int, x: T, y: T, z: T)
    requires TotalPreorder(proc)
    ensures proc(x, y) <= 0 && proc(y, z) <= 0 ==> proc(x, z) <= 0
    ensures proc(x, x) == 0
  {
  }

  /** Median of three: afterwards the pivot is not below its neighbour and not above the last element. */
  method ChoosePivot<T(!new)>(a: array<T>, start: nat, limit: nat, proc: (T, T) -> int)
    requires start + THRESHOLD <= limit <= a.Length
    modifies a
    ensures Permuted(old(a[..]), a[..], start, limit)
    ensures TotalPreorder(proc) ==> Parted(a[..], start, start + 1, limit - 1, limit, proc)
  {
    hide Permuted, Parted, TotalPreorder, InOrder;
    ghost var s := a[..];
    var mid := (limit - start) / 2 + start;
    Swap(a, mid, start, start, limit);
    var i, j := start + 1, limit - 1;
    if TotalPreorder(proc) {
      MedianOfThree(a[..], start, i, j, limit, proc);
    }
    SwapIf(a, i, j, start, limit, proc, s);
    SwapIf(a, start, j, start, limit, proc, s);
    SwapIf(a, i, start, start, limit, proc, s);
  }

  /** Afterwards the element at x is not above the one at y. */
  method SwapIf<T(!new)>(a: array<T>, x: nat, y: nat, start: nat, limit: nat, proc: (T, T) -> int, ghost s: seq<T>)
    requires start <= x < limit && start <= y < limit && limit <= a.Length && Permuted(s, a[..], start, limit)
    modifies a
    ensures Permuted(s, a[..], start, limit)
    ensures a[..] == InOrder(old(a[..]), x, y, proc)
  {
    hide Permuted;
    if proc(a[y], a[x]) < 0 {
      ghost var before := a[..];
      Swap(a, x, y, start, limit);
      PermutedTrans(s, before, a[..], start, limit);
    }
  }

  /** Upwards to the next element that is not below the pivot. */
  method Up<T(!new)>(a: array<T>, i0: int, start: nat, limit: nat, proc: (T, T) -> int) returns (i: int)
    requires start < i0 < limit <= a.Length
    ensures i0 < i <= limit && (i < limit ==> proc(a[start], a[i]) <= 0)
    ensures forall k :: i0 < k < i ==> proc(a[start], a[k]) > 0
  {
    i := i0 + 1;
    while i < limit && proc(a[start], a[i]) > 0
      invariant i0 < i <= limit && forall k :: i0 < k < i ==> proc(a[start], a[k]) > 0
    {
      i := i + 1;
    }
  }

  /** Downwards to the next element that is not above the pivot. */
  method Down<T(!new)>(a: array<T>, j0: int, start: nat, limit: nat, proc: (T, T) -> int) returns (j: int)
    requires start < j0 < limit <= a.Length
    ensures start - 1 <= j < j0 && (j >= start ==> proc(a[start], a[j]) >= 0)
    ensures forall k :: j < k < j0 ==> proc(a[start], a[k]) < 0
  {
    j := j0 - 1;
    while j >= start && proc(a[start], a[j]) < 0
      invariant start - 1 <= j < j0 && forall k :: j < k < j0 ==> proc(a[start], a[k]) < 0
    {
      j := j - 1;
    }
  }

  lemma {:induction false} FurtherParted<T(!new)>(s: seq<T>, lo: nat, i: int, j: int, hi: nat, i2: int, j2: int,
    proc: (T, T) -> int)
    requires TotalPreorder(proc) && Parted(s, lo, i, j, hi, proc) && lo < i < i2 <= hi && lo - 1 <= j2 < j
    requires forall k :: i < k < i2 ==> proc(s[lo], s[k]) > 0
    requires forall k :: j2 < k < j && lo < k < hi ==> proc(s[lo], s[k]) < 0
    ensures Parted(s, lo, i2 - 1, j2 + 1, hi, proc)
  {
  }

  lemma {:induction false} PartedSwap<T(!new)>(s: seq<T>, lo: nat, i: nat, j: nat, hi: nat, proc: (T, T) -> int)
    requires TotalPreorder(proc) && Parted(s, lo, i - 1, j + 1, hi, proc) && lo < i <= j < hi
    requires proc(s[lo], s[i]) <= 0 && proc(s[lo], s[j]) >= 0
    ensures Parted(Swapped(s, i, j), lo, i, j, hi, proc)
  {
  }

  /** The pivot goes between the parts. */
  lemma {:induction false} PivotPlaced<T(!new)>(s: seq<T>, lo: nat, i: nat, j: nat, hi: nat, proc: (T, T) -> int)
    requires TotalPreorder(proc) && Parted(s, lo, i - 1, j + 1, hi, proc) && lo <= j < i <= hi
    ensures Split(Swapped(s, lo, j), lo, j, i, hi, proc)
  {
    var t, v := Swapped(s, lo, j), s[lo];
    assert t[j] == v;
    forall k | lo <= k < i
      ensures proc(t[k], v) <= 0
    {
      assert k != lo && k != j ==> t[k] == s[k];
    }
    forall k | j <= k < hi
      ensures proc(v, t[k]) <= 0
    {
      assert k != j ==> t[k] == s[k];
    }
  }

  /** One segment is partitioned around a pivot; the rest is left alone. */
  method Partition<T(!new)>(a: array<T>, start: nat, limit: nat, proc: (T, T) -> int) returns (i: int, j: int)
    requires start + THRESHOLD <= limit <= a.Length
    modifies a
    ensures start <= j < i <= limit && Permuted(old(a[..]), a[..], start, limit)
    ensures TotalPreorder(proc) ==> Split(a[..], start, j, i, limit, proc)
  {
    hide Permuted, Parted, TotalPreorder, Split;
    ghost var s := a[..];
    ChoosePivot(a, start, limit, proc);
    i, j := start + 1, limit - 1;
    while true
      invariant start < i < limit && start < j < limit && i <= j + 1 && Permuted(s, a[..], start, limit)
      invariant TotalPreorder(proc) ==> Parted(a[..], start, i, j, limit, proc)
      decreases limit - i
    {
      var done;
      i, j, done := Exchange(a, i, j, start, limit, proc, s);
      if done { break; }
    }
    ghost var before := a[..];
    if TotalPreorder(proc) {
      PivotPlaced(before, start, i, j, limit, proc);
    }
    Swap(a, start, j, start, limit);
    PermutedTrans(s, before, a[..], start, limit);
  }

  /** Both scans, and an exchange unless they have met. */
  method Exchange<T(!new)>(a: array<T>, i0: int, j0: int, start: nat, limit: nat, proc: (T, T) -> int,
    ghost s: seq<T>) returns (i: int, j: int, done: bool)
    requires start < i0 < limit && start < j0 < limit && limit <= a.Length && Permuted(s, a[..], start, limit)
    requires TotalPreorder(proc) ==> Parted(a[..], start, i0, j0, limit, proc)
    modifies a
    ensures Permuted(s, a[..], start, limit) && i0 < i
    ensures done ==>
      start <= j < i <= limit && (TotalPreorder(proc) ==> Parted(a[..], start, i - 1, j + 1, limit, proc))
    ensures !done ==> start < i <= j < limit && (TotalPreorder(proc) ==> Parted(a[..], start, i, j, limit, proc))
  {
    hide Permuted, Parted, TotalPreorder;
    i := Up(a, i0, start, limit, proc);
    j := Down(a, j0, start, limit, proc);
    if TotalPreorder(proc) {
      FurtherParted(a[..], start, i0, j0, limit, i, j, proc);
    }
    if i >= limit { i := limit; }
    if j < start {
      j := start;
      if TotalPreorder(proc) {
        ClampedParted(a[..], start, i, limit, proc);
      }
    }
    done := i > j;
    if !done {
      ghost var before := a[..];
      if TotalPreorder(proc) {
        PartedSwap(before, start, i, j, limit, proc);
      }
      Swap(a, i, j, start, limit);
      PermutedTrans(s, before, a[..], start, limit);
    }
  }

  lemma {:induction false} ClampedParted<T(!new)>(s: seq<T>, lo: nat, i: int, hi: nat, proc: (T, T) -> int)
    requires Parted(s, lo, i - 1, lo, hi, proc)
    ensures Parted(s, lo, i - 1, lo + 1, hi, proc)
  {
  }

  // ---- the stack

  /** Two integers to a segment. */
  ghost predicate Stacked(stack: seq<int>, si: nat, segs: seq<Segment>)
  {
    && |stack| == STACK_SIZE && si == 2 * |segs| && si < STACK_SIZE
    && forall k :: 0 <= k < |segs| ==> stack[2 * k] == segs[k].lo && stack[2 * k + 1] == segs[k].hi
  }

  /** What is left to do; every turn makes it less. */
  ghost function Work(segs: seq<Segment>): nat
  {
    if segs == [] then 0
    else var g := segs[|segs| - 1];
      Work(segs[..|segs| - 1]) + 2 * (if g.hi > g.lo then g.hi - g.lo else 0) + 1
  }

  /** The segment at depth k has at most count / 2^k elements. */
  ghost predicate Shallow(segs: seq<Segment>, count: nat)
  {
    forall k :: 0 <= k < |segs| ==> segs[k].lo <= segs[k].hi && (segs[k].hi - segs[k].lo) * Pow2(k) <= count
  }

  /** A segment worth partitioning is never deeper than 27. */
  lemma {:induction false} DepthBound(d: nat, size: nat, count: nat)
    requires size >= THRESHOLD && size * Pow2(d) <= count < 0x8000_0000
    ensures d <= 27
  {
    if d > 27 {
      Pow2Mono(28, d);
      TwentyEight();
      MulMono(Pow2(d), 8, size);
    }
  }

  lemma {:induction false} TwentyEight()
    ensures Pow2(28) == 0x1000_0000
  {
    Pow2Add(8, 8);
    Pow2Of8();
    Pow2Add(16, 12);
    Pow2Add(6, 6);
    assert Pow2(6) == 64;
  }

  /** The smaller part, one level deeper, is small enough again. */
  lemma {:induction false} Halved(small: nat, large: nat, size: nat, d: nat, count: nat)
    requires small <= large && small + large <= size && size * Pow2(d) <= count
    ensures small * Pow2(d + 1) <= count && large * Pow2(d) <= count
  {
    var p := Pow2(d);
    MulMono(p, 2 * small, size);
    MulMono(p, large, size);
    assert small * (2 * p) == p * (2 * small) && large * p == p * large && size * p == p * size;
  }

  // ---- the whole sort

  /** t is s reordered, and only pairs within one of the segments may be out of order. */
  ghost predicate Pending<T(!new)>(s: seq<T>, t: seq<T>, segs: seq<Segment>, proc: (T, T) -> int)
  {
    && Permuted(s, t, 0, |s|) && Disjoint(segs, |t|) && Shallow(segs, |t|)
    && (TotalPreorder(proc) ==> OrderedBut(t, segs, proc))
  }

  lemma {:induction false} Started<T(!new)>(s: seq<T>, proc: (T, T) -> int)
    ensures Pending(s, s, [] + [Segment(0, |s|)], proc)
  {
    hide TotalPreorder;
    var segs := [] + [Segment(0, |s|)];
    assert Pow2(0) == 1;
    forall p, q | 0 <= p < q < |s|
      ensures Together(segs, p, q)
    {
      assert segs[0].lo <= p < q < segs[0].hi;
    }
  }

  lemma {:induction false} ShortDone<T(!new)>(s: seq<T>, t: seq<T>, u: seq<T>, segs: seq<Segment>, g: Segment,
    proc: (T, T) -> int)
    requires Pending(s, t, segs + [g], proc) && Permuted(t, u, g.lo, g.hi)
    requires TotalPreorder(proc) ==> Ordered(u, g.lo, g.hi, proc)
    ensures Pending(s, u, segs, proc)
  {
    hide TotalPreorder, OrderedBut, Permuted;
    assert Permuted(s, u, 0, |s|) && |u| == |t| by { Reordered(s, t, u, g.lo, g.hi); }
    assert (segs + [g])[|segs|] == g;
    assert Disjoint(segs, |u|) && Shallow(segs, |u|) by {
      forall k | 0 <= k < |segs|
        ensures segs[k] == (segs + [g])[k]
      {
      }
    }
    if TotalPreorder(proc) {
      SegmentReordered(t, u, segs, g, proc);
      SegmentSorted(u, segs, g, proc);
    }
  }

  lemma {:induction false} Reordered<T(!new)>(s: seq<T>, t: seq<T>, u: seq<T>, lo: nat, hi: nat)
    requires Permuted(s, t, 0, |s|) && Permuted(t, u, lo, hi)
    ensures Permuted(s, u, 0, |s|) && |u| == |t| == |s|
  {
    PermutedWider(t, u, lo, hi, 0, |s|);
    PermutedTrans(s, t, u, 0, |s|);
  }

  lemma {:induction false} LongSplit<T(!new)>(s: seq<T>, t: seq<T>, u: seq<T>, segs: seq<Segment>, g: Segment,
    large: Segment, small: Segment, j: nat, i: nat, proc: (T, T) -> int)
    requires Pending(s, t, segs + [g], proc) && Permuted(t, u, g.lo, g.hi) && g.lo <= j < i <= g.hi
    requires TotalPreorder(proc) ==> Split(u, g.lo, j, i, g.hi, proc)
    requires {large, small} == {Segment(g.lo, j), Segment(i, g.hi)} && large.lo <= large.hi && small.lo <= small.hi
    requires small.hi - small.lo <= large.hi - large.lo && small.hi - small.lo + large.hi - large.lo < g.hi - g.lo
    ensures Pending(s, u, segs + [large] + [small], proc)
  {
    hide TotalPreorder, OrderedBut, Permuted, Split, Shallow;
    assert Permuted(s, u, 0, |s|) && |u| == |t| by { Reordered(s, t, u, g.lo, g.hi); }
    SplitDisjoint(segs, g, large, small, j, i, |t|);
    SplitShallow(segs, g, large, small, |t|);
    if TotalPreorder(proc) {
      SegmentReordered(t, u, segs, g, proc);
      SegmentSplit(u, segs, g, large, small, j, i, proc);
    }
  }

  lemma {:induction false} SplitShallow(segs: seq<Segment>, g: Segment, large: Segment, small: Segment, count: nat)
    requires Shallow(segs + [g], count) && large.lo <= large.hi && small.lo <= small.hi && g.lo <= g.hi
    requires small.hi - small.lo <= large.hi - large.lo && small.hi - small.lo + large.hi - large.lo < g.hi - g.lo
    ensures Shallow(segs + [large] + [small], count)
  {
    var all, parts := segs + [g], segs + [large] + [small];
    assert all[|segs|] == g && parts[|segs|] == large && parts[|segs| + 1] == small;
    Halved(small.hi - small.lo, large.hi - large.lo, g.hi - g.lo, |segs|, count);
    forall k | 0 <= k < |parts|
      ensures parts[k].lo <= parts[k].hi && (parts[k].hi - parts[k].lo) * Pow2(k) <= count
    {
      if k < |segs| {
        assert parts[k] == all[k];
      }
    }
  }

  lemma {:induction false} PendingIn<T(!new)>(s: seq<T>, t: seq<T>, segs: seq<Segment>, proc: (T, T) -> int)
    requires Pending(s, t, segs, proc) && segs != []
    ensures var g := segs[|segs| - 1]; g.lo <= g.hi <= |t|
  {
  }

  lemma {:induction false} AllDone<T(!new)>(s: seq<T>, t: seq<T>, proc: (T, T) -> int)
    requires Pending(s, t, [], proc)
    ensures multiset(t) == multiset(s) && (TotalPreorder(proc) ==> Sorted(t, proc))
  {
    hide TotalPreorder;
    assert s[0..|s|] == s && t[0..|s|] == t;
  }

  lemma {:induction false} Unstacked(stack: seq<int>)
    requires |stack| == STACK_SIZE
    ensures Stacked(stack, 0, [])
  {
  }

  lemma {:induction false} StackedAt(stack: seq<int>, si: nat, segs: seq<Segment>)
    requires Stacked(stack, si, segs)
    ensures |stack| == STACK_SIZE && si == 2 * |segs| < STACK_SIZE
    ensures segs != [] ==> var g := segs[|segs| - 1];
      si >= 2 && stack[si - 2] == g.lo && stack[si - 1] == g.hi && Stacked(stack, si - 2, segs[..|segs| - 1])
  {
  }

  method Push(stack: array<int>, si: nat, lo: nat, hi: nat, ghost segs: seq<Segment>)
    requires Stacked(stack[..], si, segs) && si + 2 < STACK_SIZE
    modifies stack
    ensures Stacked(stack[..], si + 2, segs + [Segment(lo, hi)])
  {
    stack[si] := lo;
    stack[si + 1] := hi;
  }

  lemma {:induction false} WorkLess(segs: seq<Segment>, g: Segment)
    ensures Work(segs) < Work(segs + [g])
  {
    assert (segs + [g])[..|segs|] == segs;
  }

  lemma {:induction false} WorkSplit(segs: seq<Segment>, g: Segment, large: Segment, small: Segment)
    requires large.lo <= large.hi && small.lo <= small.hi
    requires small.hi - small.lo + large.hi - large.lo < g.hi - g.lo
    ensures Work(segs + [large] + [small]) < Work(segs + [g])
  {
    assert (segs + [g])[..|segs|] == segs && (segs + [large])[..|segs|] == segs;
    assert (segs + [large] + [small])[..|segs| + 1] == segs + [large];
  }

  /** While a segment is long enough to be partitioned, the stack has room for two entries more. */
  lemma {:induction false} RoomLeft<T(!new)>(s: seq<T>, t: seq<T>, segs: seq<Segment>, g: Segment, proc: (T, T) -> int)
    requires Pending(s, t, segs + [g], proc) && |t| < 0x8000_0000 && g.lo + THRESHOLD <= g.hi
    ensures 2 * |segs| + 2 <= 56
  {
    hide Permuted, Disjoint, TotalPreorder, OrderedBut;
    assert (segs + [g])[|segs|] == g;
    DepthBound(|segs|, g.hi - g.lo, |t|);
  }

  /** Sorting never outgrows the stack: -1 is not returned for any count that fits an int. */
  method QSort<T(!new)>(a: array<T>, proc: (T, T) -> int) returns (r: int)
    requires a.Length < 0x8000_0000
    modifies a
    ensures r == 0
    ensures multiset(a[..]) == multiset(old(a[..]))
    ensures TotalPreorder(proc) ==> Sorted(a[..], proc)
  {
    hide Stacked, Work, Shallow, Pending, Permuted, TotalPreorder, Split, Ordered, OrderedBut, Sorted, Disjoint;
    ghost var s := a[..];
    var stack := new int[STACK_SIZE];
    var si: nat, start, limit := 0, 0, a.Length;
    ghost var segs: seq<Segment> := [];
    Started(s, proc);
    Unstacked(stack[..]);
    while true
      invariant fresh(stack) && stack.Length == STACK_SIZE && 0 <= start <= limit <= a.Length
      invariant Stacked(stack[..], si, segs) && Pending(s, a[..], segs + [Segment(start, limit)], proc)
      decreases Work(segs + [Segment(start, limit)])
    {
      ghost var g := Segment(start, limit);
      ghost var before := a[..];
      if limit - start < THRESHOLD {
        InsertionSort(a, start, limit, proc);
        ShortDone(s, before, a[..], segs, g, proc);
        StackedAt(stack[..], si, segs);
        if si != 0 {
          assert segs == segs[..|segs| - 1] + [segs[|segs| - 1]];
          WorkLess(segs, g);
          PendingIn(s, a[..], segs, proc);
          si := si - 1;
          limit := stack[si];
          si := si - 1;
          start := stack[si];
          segs := segs[..|segs| - 1];
        } else {
          AllDone(s, a[..], proc);
          return 0;
        }
      } else {
        var i, j := Partition(a, start, limit, proc);
        RoomLeft(s, before, segs, g, proc);
        StackedAt(stack[..], si, segs);
        ghost var left, right := Segment(start, j), Segment(i, limit);
        if j - start > limit - i {
          LongSplit(s, before, a[..], segs, g, left, right, j, i, proc);
          WorkSplit(segs, g, left, right);
          Push(stack, si, start, j, segs);
          si := si + 2;
          start := i;
          segs := segs + [left];
        } else {
          LongSplit(s, before, a[..], segs, g, right, left, j, i, proc);
          WorkSplit(segs, g, right, left);
          Push(stack, si, i, limit, segs);
          si := si + 2;
          limit := j;
          segs := segs + [right];
        }
        StackedAt(stack[..], si, segs);
        if si >= STACK_SIZE { return -1; }
      }
    }
  }
}
