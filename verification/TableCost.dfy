/** What a code table of limited length costs, measured by any other table for the same symbols. */
module TableCost {
  import opened Bits
  import opened MinRedundancy
  import opened Optimality
  import opened LengthLists
  import opened LimitCost
  import opened SymbolsInUse

  /** The weights w get minimum-redundancy lengths o, and these are limited to s. */
  ghost predicate GoodLengths(w: seq<nat>, o: seq<nat>, s: seq<nat>, limit: nat)
  {
    && |w| == |o| == |s|
    && (|w| == 1 ==> s[0] == 1)
    && (|w| >= 2 ==> Minimal(w, o) && Light(w, o) && (forall p :: 0 <= p < |o| ==> o[p] >= 1) && Shortened(o, s, limit))
  }

  /** A table that could be used instead, with a code for every symbol. */
  ghost predicate Alternative(count: seq<nat>, fix: seq<nat>, m: nat)
  {
    |fix| == |count| && KraftFits(fix, m) && forall c :: 0 <= c < |fix| ==> fix[c] >= 1
  }

  /**
   For 512 occurrences of symbols the table takes hardly more bits than any alternative: at most as many
   more as the alphabet has symbols, and those of one code that is shorter than n codes of length 15 need.
   */
  ghost predicate CloseToBest(count: seq<nat>, sizes: seq<nat>)
  {
    && |sizes| == |count|
    && forall fix, m, d :: Alternative(count, fix, m) && Few(|count|, LONGEST, d) ==>
         512 * Cost(count, sizes) <= 512 * Cost(count, fix) + Sum(count) * (|count| + Pow2(LONGEST - 1 - d))
  }

  /** l gives the symbols of t their entries in a. */
  ghost predicate Entries(t: seq<SymFreq>, a: seq<nat>, l: seq<nat>)
  {
    |l| == |t| && forall p :: 0 <= p < |t| ==> t[p].sym < |a| && l[p] == a[t[p].sym]
  }

  function EntriesOf(t: seq<SymFreq>, a: seq<nat>): (l: seq<nat>)
    requires forall p :: 0 <= p < |t| ==> t[p].sym < |a|
    ensures Entries(t, a, l)
  {
    seq(|t|, p requires 0 <= p < |t| => a[t[p].sym])
  }

  lemma {:induction false} UsedCost(count: seq<nat>, t: seq<SymFreq>, sizes: seq<nat>, w: seq<nat>, l: seq<nat>)
    requires UsedOnce(count, t) && |sizes| == |count| && Entries(t, count, w) && Entries(t, sizes, l)
    ensures Cost(w, l) == Cost(count, sizes)
  {
    hide Sum, Cost;
    CostIsSum(w, l);
    CostIsSum(count, sizes);
    var g := Products(count, sizes);
    forall c | 0 <= c < |g| && g[c] != 0
      ensures Holds(t, c)
    {
      assert count[c] != 0;
    }
    SumOverUsed(t, g, Products(w, l));
  }

  lemma {:induction false} UsedWeight(count: seq<nat>, t: seq<SymFreq>, w: seq<nat>)
    requires UsedOnce(count, t) && Entries(t, count, w)
    ensures Sum(w) == Sum(count)
  {
    SumOverUsed(t, count, w);
  }

  lemma {:induction false} SumMono(a: seq<nat>, b: seq<nat>)
    requires |a| == |b| && forall i :: 0 <= i < |a| ==> a[i] <= b[i]
    ensures Sum(a) <= Sum(b)
  {
    if a != [] {
      SumMono(a[1..], b[1..]);
    }
  }

  lemma {:induction false} UsedKraft(count: seq<nat>, t: seq<SymFreq>, fix: seq<nat>, l: seq<nat>, m: nat)
    requires UsedOnce(count, t) && |fix| == |count| && KraftFits(fix, m) && Entries(t, fix, l)
    ensures KraftFits(l, m)
  {
    hide Sum, Kraft, Pow2;
    var all := Shares(fix, m);
    var g := seq(|all|, c requires 0 <= c < |all| => if count[c] > 0 then all[c] else 0);
    forall c | 0 <= c < |g| && g[c] != 0
      ensures Holds(t, c)
    {
      assert count[c] != 0;
    }
    KraftIsSum(fix, m);
    KraftIsSum(l, m);
    SumOverUsed(t, g, Shares(l, m));
    SumMono(g, all);
  }

  /** Against one alternative. */
  lemma {:induction false} AgainstOne(count: seq<nat>, t: seq<SymFreq>, sizes: seq<nat>, w: seq<nat>, o: seq<nat>,
                                      s: seq<nat>, fix: seq<nat>, m: nat, d: nat)
    requires UsedOnce(count, t) && |t| <= |count| == |sizes| && Entries(t, count, w) && Entries(t, sizes, s)
    requires GoodLengths(w, o, s, LONGEST) && Alternative(count, fix, m) && Few(|count|, LONGEST, d)
    ensures 512 * Cost(count, sizes) <= 512 * Cost(count, fix) + Sum(count) * (|count| + Pow2(LONGEST - 1 - d))
  {
    hide UsedOnce, Entries, Cost, Sum, KraftFits, Pow2, Light, Shortened;
    InTable(count, t, w);
    var l := EntriesOf(t, fix);
    UsedCost(count, t, sizes, w, s);
    UsedCost(count, t, fix, w, l);
    UsedKraft(count, t, fix, l, m);
    UsedWeight(count, t, w);
    if |w| >= 2 {
      assert Few(|o|, LONGEST, d);
      LimitedCost(w, o, s, d);
      MulMono(Sum(w), |o| + Pow2(LONGEST - 1 - d), |count| + Pow2(LONGEST - 1 - d));
    } else {
      AtMostOne(t, fix, w, s, l);
      MulMono(Sum(count), 0, |count| + Pow2(LONGEST - 1 - d));
      assert Sum(count) * 0 == 0;
    }
  }

  lemma {:induction false} InTable(count: seq<nat>, t: seq<SymFreq>, w: seq<nat>)
    requires UsedOnce(count, t) && Entries(t, count, w)
    ensures |w| == |t|
    ensures forall p :: 0 <= p < |t| ==> t[p].sym < |count|
  {
  }

  lemma {:induction false} AtMostOne(t: seq<SymFreq>, fix: seq<nat>, w: seq<nat>, s: seq<nat>, l: seq<nat>)
    requires |w| == |s| == |t| <= 1 && (|w| == 1 ==> s[0] == 1) && Entries(t, fix, l) && forall c :: 0 <= c < |fix| ==>
      fix[c] >= 1
    ensures Cost(w, s) <= Cost(w, l)
  {
    CostMono(w, s, l);
  }

  /** The table of limited minimum-redundancy lengths is close to the best. */
  lemma {:induction false} CloseEnough(count: seq<nat>, t: seq<SymFreq>, sizes: seq<nat>, w: seq<nat>, o: seq<nat>,
                                       s: seq<nat>)
    requires UsedOnce(count, t) && |t| <= |count| == |sizes| && Entries(t, count, w) && Entries(t, sizes, s)
    requires GoodLengths(w, o, s, LONGEST)
    ensures CloseToBest(count, sizes)
  {
    hide GoodLengths, Entries, UsedOnce, Cost, Sum, Pow2;
    forall fix, m, d | Alternative(count, fix, m) && Few(|count|, LONGEST, d)
      ensures 512 * Cost(count, sizes) <= 512 * Cost(count, fix) + Sum(count) * (|count| + Pow2(LONGEST - 1 - d))
    {
      AgainstOne(count, t, sizes, w, o, s, fix, m, d);
    }
  }
}
