/** Orders given by a C comparison procedure, and what sorting in segments keeps. */
module SortSpec {
  /** proc agrees with a total preorder. */
  ghost predicate TotalPreorder<T(!new)>(proc: (T, T) -> int)
  {
    && (forall x, y :: proc(x, y) <= 0 <==> proc(y, x) >= 0)
    && (forall x, y, z :: proc(x, y) <= 0 && proc(y, z) <= 0 ==> proc(x, z) <= 0)
  }

  ghost predicate Sorted<T>(s: seq<T>, proc: (T, T) -> int)
  {
    forall p, q :: 0 <= p < q < |s| ==> proc(s[p], s[q]) <= 0
  }

  /** t has the elements of s between lo and hi in another order, and is the same elsewhere. */
  ghost predicate Permuted<T>(s: seq<T>, t: seq<T>, lo: nat, hi: nat)
  {
    && |s| == |t| && lo <= hi <= |s| && s[..lo] == t[..lo] && s[hi..] == t[hi..]
    && multiset(s[lo..hi]) == multiset(t[lo..hi])
  }

  function Swapped<T>(s: seq<T>, i: nat, j: nat): (t: seq<T>)
    requires i < |s| && j < |s|
    ensures |t| == |s|
  {
    s[i := s[j]][j := s[i]]
  }

  lemma {:induction false} PermutedSelf<T>(s: seq<T>, lo: nat, hi: nat)
    requires lo <= hi <= |s|
    ensures Permuted(s, s, lo, hi)
  {
  }

  lemma {:induction false} PermutedTrans<T>(s: seq<T>, t: seq<T>, u: seq<T>, lo: nat, hi: nat)
    requires Permuted(s, t, lo, hi) && Permuted(t, u, lo, hi)
    ensures Permuted(s, u, lo, hi)
  {
  }

  lemma {:induction false} SwapBag<T>(s: seq<T>, i: nat, j: nat)
    requires i < |s| && j < |s|
    ensures multiset(Swapped(s, i, j)) == multiset(s)
  {
  }

  lemma {:induction false} SwapPermutes<T>(s: seq<T>, i: nat, j: nat, lo: nat, hi: nat)
    requires lo <= i < hi && lo <= j < hi && hi <= |s|
    ensures Permuted(s, Swapped(s, i, j), lo, hi)
  {
    SwapBag(s[lo..hi], i - lo, j - lo);
    assert Swapped(s, i, j)[lo..hi] == Swapped(s[lo..hi], i - lo, j - lo);
  }

  /** A permutation of a part is one of any larger part. */
  lemma {:induction false} PermutedWider<T>(s: seq<T>, t: seq<T>, lo: nat, hi: nat, lo2: nat, hi2: nat)
    requires Permuted(s, t, lo, hi) && lo2 <= lo && hi <= hi2 <= |s|
    ensures Permuted(s, t, lo2, hi2)
  {
    assert s[lo2..hi2] == s[lo2..lo] + s[lo..hi] + s[hi..hi2];
    assert t[lo2..hi2] == t[lo2..lo] + t[lo..hi] + t[hi..hi2];
    assert s[lo2..lo] == s[..lo][lo2..] == t[..lo][lo2..] == t[lo2..lo];
    assert s[hi..hi2] == s[hi..][..hi2 - hi] == t[hi..][..hi2 - hi] == t[hi..hi2];
    assert s[..lo2] == s[..lo][..lo2] == t[..lo][..lo2] == t[..lo2];
    assert s[hi2..] == s[hi..][hi2 - hi..] == t[hi..][hi2 - hi..] == t[hi2..];
  }

  /** Where the element at q has come from. */
  lemma {:induction false} Origin<T>(s: seq<T>, t: seq<T>, lo: nat, hi: nat, q: nat) returns (p: nat)
    requires Permuted(s, t, lo, hi) && q < |t|
    ensures p < |s| && s[p] == t[q] && (lo <= q < hi <==> lo <= p < hi) && (!(lo <= q < hi) ==> p == q)
  {
    if lo <= q < hi {
      assert t[lo..hi][q - lo] == t[q];
      assert t[q] in multiset(t[lo..hi]);
      assert t[q] in s[lo..hi];
      var k :| 0 <= k < hi - lo && s[lo..hi][k] == t[q];
      p := lo + k;
    } else {
      p := q;
      assert q < lo ==> s[..lo][q] == t[..lo][q];
      assert q >= hi ==> s[hi..][q - hi] == t[hi..][q - hi];
    }
  }

  // ---- segments

  datatype Segment = Segment(lo: nat, hi: nat)

  /** Segments within n elements that do not overlap. */
  ghost predicate Disjoint(segs: seq<Segment>, n: nat)
  {
    && (forall i :: 0 <= i < |segs| ==> segs[i].lo <= segs[i].hi <= n)
    && (forall i, j :: 0 <= i < j < |segs| ==> segs[i].hi <= segs[j].lo || segs[j].hi <= segs[i].lo)
  }

  ghost predicate Together(segs: seq<Segment>, p: nat, q: nat)
  {
    exists i :: 0 <= i < |segs| && segs[i].lo <= p < q < segs[i].hi
  }

  /** All pairs are in order but those that lie in one segment. */
  ghost predicate OrderedBut<T>(s: seq<T>, segs: seq<Segment>, proc: (T, T) -> int)
  {
    forall p, q :: 0 <= p < q < |s| ==> Together(segs, p, q) || proc(s[p], s[q]) <= 0
  }

  /** Reordering one segment keeps that. */
  lemma {:induction false} SegmentReordered<T>(s: seq<T>, t: seq<T>, segs: seq<Segment>, g: Segment,
                                               proc: (T, T) -> int)
    requires Disjoint(segs + [g], |s|) && OrderedBut(s, segs + [g], proc) && Permuted(s, t, g.lo, g.hi)
    ensures OrderedBut(t, segs + [g], proc)
  {
    var all := segs + [g];
    assert all[|segs|] == g;
    forall p, q | 0 <= p < q < |t|
      ensures Together(all, p, q) || proc(t[p], t[q]) <= 0
    {
      var p0 := Origin(s, t, g.lo, g.hi, p);
      var q0 := Origin(s, t, g.lo, g.hi, q);
      if g.lo <= p && q < g.hi {
        assert Together(all, p, q);
      } else if Together(all, p0, q0) {
        var i :| 0 <= i < |all| && all[i].lo <= p0 < q0 < all[i].hi;
        if i < |segs| {
          NotInBoth(segs, g, |s|, i, p0);
          NotInBoth(segs, g, |s|, i, q0);
          assert Together(all, p, q);
        }
      }
    }
  }

  lemma {:induction false} NotInBoth(segs: seq<Segment>, g: Segment, n: nat, i: nat, p: nat)
    requires Disjoint(segs + [g], n) && i < |segs| && (segs + [g])[i].lo <= p < (segs + [g])[i].hi
    ensures !(g.lo <= p < g.hi)
  {
    assert (segs + [g])[|segs|] == g;
  }

  /** A sorted segment can be dropped. */
  lemma {:induction false} SegmentSorted<T>(s: seq<T>, segs: seq<Segment>, g: Segment, proc: (T, T) -> int)
    requires OrderedBut(s, segs + [g], proc) && g.lo <= g.hi <= |s| && Sorted(s[g.lo..g.hi], proc)
    ensures OrderedBut(s, segs, proc)
  {
    var all := segs + [g];
    forall p, q | 0 <= p < q < |s|
      ensures Together(segs, p, q) || proc(s[p], s[q]) <= 0
    {
      if Together(all, p, q) {
        var i :| 0 <= i < |all| && all[i].lo <= p < q < all[i].hi;
        if i < |segs| {
          assert segs[i] == all[i];
          assert Together(segs, p, q);
        } else {
          assert s[g.lo..g.hi][p - g.lo] == s[p] && s[g.lo..g.hi][q - g.lo] == s[q];
        }
      }
    }
  }

  /** The parts of a partitioned segment: up to j all are below those from i on, and between are equal to all. */
  ghost predicate Split<T>(s: seq<T>, lo: nat, j: nat, i: nat, hi: nat, proc: (T, T) -> int)
  {
    && lo <= j < i <= hi <= |s|
    && forall p, q :: lo <= p < q < hi && !(q < j) && !(i <= p) ==> proc(s[p], s[q]) <= 0
  }

  lemma {:induction false} SegmentSplit<T>(s: seq<T>, segs: seq<Segment>, g: Segment, a: Segment, b: Segment, j: nat,
                                           i: nat, proc: (T, T) -> int)
    requires OrderedBut(s, segs + [g], proc) && Split(s, g.lo, j, i, g.hi, proc)
    requires {a, b} == {Segment(g.lo, j), Segment(i, g.hi)}
    ensures OrderedBut(s, segs + [a] + [b], proc)
  {
    var all, new_ := segs + [g], segs + [a] + [b];
    assert new_[|segs|] == a && new_[|segs| + 1] == b;
    assert a == Segment(g.lo, j) || b == Segment(g.lo, j);
    assert a == Segment(i, g.hi) || b == Segment(i, g.hi);
    forall p, q | 0 <= p < q < |s|
      ensures Together(new_, p, q) || proc(s[p], s[q]) <= 0
    {
      if Together(all, p, q) {
        var k :| 0 <= k < |all| && all[k].lo <= p < q < all[k].hi;
        if k < |segs| {
          assert new_[k] == all[k];
          assert Together(new_, p, q);
        } else if q < j || i <= p {
          assert Together(new_, p, q);
        }
      }
    }
  }

  lemma {:induction false} SplitDisjoint(segs: seq<Segment>, g: Segment, a: Segment, b: Segment, j: nat, i: nat, n: nat)
    requires Disjoint(segs + [g], n) && g.lo <= j < i <= g.hi
    requires {a, b} == {Segment(g.lo, j), Segment(i, g.hi)}
    ensures Disjoint(segs + [a] + [b], n)
  {
    var all, new_ := segs + [g], segs + [a] + [b];
    assert all[|segs|] == g && new_[|segs|] == a && new_[|segs| + 1] == b;
    assert a == Segment(g.lo, j) || b == Segment(g.lo, j);
    assert a == Segment(i, g.hi) || b == Segment(i, g.hi);
    forall x | 0 <= x < |new_|
      ensures new_[x].lo <= new_[x].hi <= n
    {
      assert x < |segs| ==> new_[x] == all[x];
    }
    forall x, y | 0 <= x < y < |new_|
      ensures new_[x].hi <= new_[y].lo || new_[y].hi <= new_[x].lo
    {
      assert x < |segs| ==> new_[x] == all[x];
      assert y < |segs| ==> new_[y] == all[y];
      if x < |segs| && y >= |segs| {
        assert all[x].hi <= g.lo || g.hi <= all[x].lo;
      }
    }
  }
}
