/**
 The symbols that occur, with their counts, in the order of the counts (the first part of
 tdefl_optimize_huffman_table).
 */
module SymbolsInUse {
  import opened MinRedundancy
  import opened RadixSort

  ghost predicate Holds(t: seq<SymFreq>, c: nat)
  {
    exists p :: 0 <= p < |t| && t[p].sym == c
  }

  /** s lists the symbols below k that occur, with their counts. */
  ghost predicate UsedList(count: seq<nat>, s: seq<SymFreq>, k: nat)
  {
    && k <= |count| && SymbolsAscend(s)
    && (forall i :: 0 <= i < |s| ==> s[i].sym < k && s[i].key == count[s[i].sym] > 0)
    && (forall c :: 0 <= c < k && count[c] > 0 ==> Holds(s, c))
    && Sum(Keys(s)) == Sum(count[..k])
  }

  lemma {:induction false} UsedListSkips(count: seq<nat>, s: seq<SymFreq>, k: nat)
    requires k < |count| && UsedList(count, s, k) && count[k] == 0
    ensures UsedList(count, s, k + 1)
  {
    assert count[..k + 1] == count[..k] + [count[k]];
    SumAppend(count[..k], count[k]);
  }

  lemma {:induction false} UsedListGrows(count: seq<nat>, s: seq<SymFreq>, k: nat, x: SymFreq)
    requires k < |count| && UsedList(count, s, k) && count[k] > 0
    requires x.key == count[k] && x.sym == k
    ensures UsedList(count, s + [x], k + 1)
  {
    assert count[..k + 1] == count[..k] + [count[k]];
    SumAppend(count[..k], count[k]);
    var t := s + [x];
    assert Keys(t) == Keys(s) + [x.key];
    SumAppend(Keys(s), x.key);
    HoldsMore(count, s, k, x);
    assert SymbolsAscend(t);
  }

  lemma {:induction false} HoldsMore(count: seq<nat>, s: seq<SymFreq>, k: nat, x: SymFreq)
    requires k < |count| && x.sym == k && forall c :: 0 <= c < k && count[c] > 0 ==> Holds(s, c)
    ensures forall c :: 0 <= c < k + 1 && count[c] > 0 ==> Holds(s + [x], c)
  {
    var t := s + [x];
    forall c | 0 <= c < k + 1 && count[c] > 0
      ensures Holds(t, c)
    {
      if c < k {
        assert Holds(s, c);
        var i :| 0 <= i < |s| && s[i].sym == c;
        assert t[i].sym == c;
      } else {
        assert t[|s|].sym == c;
      }
    }
  }

  method CollectUsed(count: array<nat>) returns (syms: seq<SymFreq>)
    requires count.Length <= 288 && Sum(count[..]) < 65536
    ensures UsedList(count[..], syms, count.Length)
  {
    ghost var cs := count[..];
    syms := [];
    var i := 0;
    while i < count.Length
      invariant 0 <= i <= count.Length
      invariant UsedList(cs, syms, i)
    {
      SumAtLeast(cs, i);
      if count[i] > 0 {
        UsedListGrows(cs, syms, i, SymFreq(count[i], i));
        syms := syms + [SymFreq(count[i], i)];
      } else {
        UsedListSkips(cs, syms, i);
      }
      i := i + 1;
    }
  }

  lemma {:induction false} SumAtLeast(s: seq<nat>, i: nat)
    requires i < |s|
    ensures s[i] <= Sum(s)
  {
    if i > 0 {
      SumAtLeast(s[1..], i - 1);
    }
  }

  lemma {:induction false} SumWithout(t: seq<SymFreq>, p: nat)
    requires p < |t|
    ensures Sum(Keys(t)) == Sum(Keys(t[..p] + t[p + 1..])) + t[p].key
  {
    var u := t[..p] + t[p + 1..];
    if p == 0 {
      assert Keys(t)[1..] == Keys(u);
    } else {
      SumWithout(t[1..], p - 1);
      assert Keys(t)[1..] == Keys(t[1..]);
      assert u[1..] == t[1..][..p - 1] + t[1..][p..];
      assert Keys(u)[1..] == Keys(u[1..]);
    }
  }

  /** The same entries have the same sum. */
  lemma {:induction false} SameEntriesSum(s: seq<SymFreq>, t: seq<SymFreq>)
    requires multiset(s) == multiset(t)
    ensures Sum(Keys(s)) == Sum(Keys(t))
    decreases |s|
  {
    assert |multiset(s)| == |s| && |multiset(t)| == |t|;
    if s != [] {
      var n := |s| - 1;
      assert s[n] in multiset(t);
      var p :| 0 <= p < |t| && t[p] == s[n];
      RemovedBoth(s, t, p);
      SameEntriesSum(s[..n], t[..p] + t[p + 1..]);
      SumWithout(t, p);
      SumWithout(s, n);
      assert s[..n] + s[n + 1..] == s[..n];
    }
  }

  /** After sorting: every used symbol once, in order of its count. */
  ghost predicate UsedOnce(count: seq<nat>, t: seq<SymFreq>)
  {
    && (forall p, q :: 0 <= p < q < |t| ==> t[p].sym != t[q].sym)
    && (forall p :: 0 <= p < |t| ==> t[p].sym < |count| && count[t[p].sym] > 0)
    && (forall c :: 0 <= c < |count| && count[c] > 0 ==> Holds(t, c))
  }

  /** The symbols stand in the order of their counts. */
  ghost predicate InCountOrder(count: seq<nat>, t: seq<SymFreq>)
  {
    && (forall p :: 0 <= p < |t| ==> t[p].sym < |count|)
    && (forall p, q :: 0 <= p < q < |t| ==> count[t[p].sym] <= count[t[q].sym])
  }

  lemma {:induction false} SortedCounts(count: seq<nat>, s: seq<SymFreq>, t: seq<SymFreq>)
    requires UsedList(count, s, |count|) && SortOf(s, t)
    ensures InCountOrder(count, t)
  {
    SameMembers(s, t);
    forall p, q | 0 <= p < q < |t|
      ensures count[t[p].sym] <= count[t[q].sym]
    {
      assert KeyOrder(t[p], t[q]) && t[p] in s && t[q] in s;
    }
  }

  lemma {:induction false} SameMembers(s: seq<SymFreq>, t: seq<SymFreq>)
    requires multiset(s) == multiset(t)
    ensures |s| == |t| && (forall p :: 0 <= p < |t| ==> t[p] in s) && forall i :: 0 <= i < |s| ==> s[i] in t
  {
    assert |multiset(s)| == |s| && |multiset(t)| == |t|;
    forall p | 0 <= p < |t|
      ensures t[p] in s
    {
      assert t[p] in multiset(t);
    }
    forall i | 0 <= i < |s|
      ensures s[i] in t
    {
      assert s[i] in multiset(s);
    }
  }

  lemma {:induction false} SortedOnce(count: seq<nat>, s: seq<SymFreq>, t: seq<SymFreq>)
    requires UsedList(count, s, |count|) && SortOf(s, t)
    ensures |t| == |s| && UsedOnce(count, t)
    ensures forall p :: 0 <= p < |t| ==> t[p].key == count[t[p].sym]
  {
    SameMembers(s, t);
    forall p, q | 0 <= p < q < |t|
      ensures t[p].sym != t[q].sym
    {
      assert KeyOrder(t[p], t[q]) && t[p] in s && t[q] in s;
    }
    forall c | 0 <= c < |count| && count[c] > 0
      ensures Holds(t, c)
    {
      assert Holds(s, c);
      var i :| 0 <= i < |s| && s[i].sym == c;
      assert s[i] in t;
    }
  }

  lemma {:induction false} SortedKeys(count: seq<nat>, s: seq<SymFreq>, t: seq<SymFreq>)
    requires UsedList(count, s, |count|) && SortOf(s, t)
    ensures Ascending(Keys(t)) && Sum(Keys(t)) == Sum(count) && 0 !in Keys(t)
  {
    SameEntriesSum(s, t);
    SameMembers(s, t);
    assert count[..|count|] == count;
    forall i, j | 0 <= i <= j < |t|
      ensures Keys(t)[i] <= Keys(t)[j]
    {
      if i < j {
        assert KeyOrder(t[i], t[j]);
      }
    }
    forall p | 0 <= p < |t|
      ensures Keys(t)[p] != 0
    {
      assert t[p] in s;
    }
  }

  /** A quantity of the used symbols, summed in the order of the list or over all symbols. */
  lemma {:induction false} SumOverUsed(t: seq<SymFreq>, g: seq<nat>, x: seq<nat>)
    requires |x| == |t| && forall p :: 0 <= p < |t| ==> t[p].sym < |g| && x[p] == g[t[p].sym]
    requires forall p, q :: 0 <= p < q < |t| ==> t[p].sym != t[q].sym
    requires forall c :: 0 <= c < |g| && g[c] != 0 ==> Holds(t, c)
    ensures Sum(x) == Sum(g)
  {
    hide Sum;
    if t == [] {
      SumZero(x);
      forall c | 0 <= c < |g|
        ensures g[c] == 0
      {
        assert !Holds(t, c);
      }
      SumZero(g);
    } else {
      var n := |t| - 1;
      var s, h := t[n].sym, g[t[n].sym := 0];
      HoldsFewer(t, g, h);
      SumOverUsed(t[..n], h, x[..n]);
      SumAppend(x[..n], x[n]);
      assert x[..n] + [x[n]] == x;
      SumSet(g, s, 0);
    }
  }

  lemma {:induction false} HoldsFewer(t: seq<SymFreq>, g: seq<nat>, h: seq<nat>)
    requires t != [] && t[|t| - 1].sym < |g| && h == g[t[|t| - 1].sym := 0]
    requires forall c :: 0 <= c < |g| && g[c] != 0 ==> Holds(t, c)
    ensures forall c :: 0 <= c < |h| && h[c] != 0 ==> Holds(t[..|t| - 1], c)
  {
    var n := |t| - 1;
    forall c | 0 <= c < |h| && h[c] != 0
      ensures Holds(t[..n], c)
    {
      assert Holds(t, c);
      var p :| 0 <= p < |t| && t[p].sym == c;
      assert t[..n][p].sym == c;
    }
  }

  method SortUsed(count: array<nat>) returns (syms: array<SymFreq>)
    requires count.Length <= 288 && Sum(count[..]) < 65536
    ensures fresh(syms) && syms.Length <= count.Length && UsedOnce(count[..], syms[..])
    ensures InCountOrder(count[..], syms[..])
    ensures forall p :: 0 <= p < syms.Length ==> syms[p].key == count[syms[p].sym]
    ensures Ascending(Keys(syms[..])) && Sum(Keys(syms[..])) < 65536 && 0 !in Keys(syms[..])
  {
    var used := CollectUsed(count);
    var syms0 := new SymFreq[|used|](j requires 0 <= j < |used| => used[j]);
    var syms1 := new SymFreq[|used|];
    assert syms0[..] == used;
    syms := RadixSortSyms(syms0, syms1);
    SortedOnce(count[..], used, syms[..]);
    SortedCounts(count[..], used, syms[..]);
    SortedKeys(count[..], used, syms[..]);
    FewUsed(count[..], used, count.Length);
  }

  lemma {:induction false} FewUsed(count: seq<nat>, s: seq<SymFreq>, k: nat)
    requires (forall i, j :: 0 <= i < j < |s| ==> s[i].sym < s[j].sym) && forall i :: 0 <= i < |s| ==> s[i].sym < k
    ensures |s| <= k
    decreases k
  {
    if s != [] {
      FewUsed(count, s[..|s| - 1], s[|s| - 1].sym);
    }
  }
}
