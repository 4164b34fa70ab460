/** The stable two-pass radix sort of symbol frequencies (tdefl_radix_sort_syms). */
module RadixSort {
  import opened MinRedundancy

  /** Pass p looks at byte p of the key. */
  function Digit(x: SymFreq, pass: nat): (d: nat)
    requires pass < 2
    ensures d < 256
  {
    if pass == 0 then x.key % 256 else x.key / 256
  }

  /** How many of the first k entries have digit d. */
  function Seen(s: seq<SymFreq>, pass: nat, d: nat, k: nat): (c: nat)
    requires pass < 2 && k <= |s|
    ensures c <= k
  {
    if k == 0 then 0 else Seen(s, pass, d, k - 1) + (if Digit(s[k - 1], pass) == d then 1 else 0)
  }

  /** Where the entries with digit d start. */
  function Start(s: seq<SymFreq>, pass: nat, d: nat): nat
    requires pass < 2
  {
    if d == 0 then 0 else Start(s, pass, d - 1) + Seen(s, pass, d - 1, |s|)
  }

  /** Where entry i goes. */
  function Place(s: seq<SymFreq>, pass: nat, i: nat): nat
    requires pass < 2 && i < |s|
  {
    Start(s, pass, Digit(s[i], pass)) + Seen(s, pass, Digit(s[i], pass), i)
  }

  /** The order in which a pass puts entries i and j. */
  ghost predicate Before(s: seq<SymFreq>, pass: nat, i: nat, j: nat)
    requires pass < 2 && i < |s| && j < |s|
  {
    Digit(s[i], pass) < Digit(s[j], pass) || (Digit(s[i], pass) == Digit(s[j], pass) && i < j)
  }

  lemma {:induction false} SeenGrows(s: seq<SymFreq>, pass: nat, d: nat, i: nat, j: nat)
    requires pass < 2 && i <= j <= |s|
    ensures Seen(s, pass, d, i) <= Seen(s, pass, d, j)
    ensures i < j && Digit(s[i], pass) == d ==> Seen(s, pass, d, i) < Seen(s, pass, d, j)
  {
    if i < j {
      SeenGrows(s, pass, d, i, j - 1);
    }
  }

  lemma {:induction false} StartGrows(s: seq<SymFreq>, pass: nat, d: nat, e: nat)
    requires pass < 2 && d < e
    ensures Start(s, pass, d) + Seen(s, pass, d, |s|) <= Start(s, pass, e)
  {
    if d + 1 < e {
      StartGrows(s, pass, d, e - 1);
    }
  }

  /** Entries in order go to places in order. */
  lemma {:induction false} PlacesInOrder(s: seq<SymFreq>, pass: nat, i: nat, j: nat)
    requires pass < 2 && i < |s| && j < |s| && Before(s, pass, i, j)
    ensures Place(s, pass, i) < Place(s, pass, j)
  {
    var d, e := Digit(s[i], pass), Digit(s[j], pass);
    if d < e {
      SeenGrows(s, pass, d, i, |s|);
      StartGrows(s, pass, d, e);
    } else {
      SeenGrows(s, pass, d, i, j);
    }
  }

  /** Entries with a digit below d, among the first k. */
  function Below(s: seq<SymFreq>, pass: nat, d: nat, k: nat): (c: nat)
    requires pass < 2 && k <= |s|
    ensures c <= k
    ensures d >= 256 ==> c == k
  {
    if k == 0 then 0 else Below(s, pass, d, k - 1) + (if Digit(s[k - 1], pass) < d then 1 else 0)
  }

  lemma {:induction false} BelowStep(s: seq<SymFreq>, pass: nat, d: nat, k: nat)
    requires pass < 2 && k <= |s|
    ensures Below(s, pass, d + 1, k) == Below(s, pass, d, k) + Seen(s, pass, d, k)
  {
    if k > 0 {
      BelowStep(s, pass, d, k - 1);
    }
  }

  lemma {:induction false} NoneBelow(s: seq<SymFreq>, pass: nat, k: nat)
    requires pass < 2 && k <= |s|
    ensures Below(s, pass, 0, k) == 0
  {
    if k > 0 {
      NoneBelow(s, pass, k - 1);
    }
  }

  lemma {:induction false} StartIsBelow(s: seq<SymFreq>, pass: nat, d: nat)
    requires pass < 2
    ensures Start(s, pass, d) == Below(s, pass, d, |s|)
  {
    if d > 0 {
      StartIsBelow(s, pass, d - 1);
      BelowStep(s, pass, d - 1, |s|);
    } else {
      NoneBelow(s, pass, |s|);
    }
  }

  lemma {:induction false} PlaceInRange(s: seq<SymFreq>, pass: nat, i: nat)
    requires pass < 2 && i < |s|
    ensures Place(s, pass, i) < |s|
  {
    var d := Digit(s[i], pass);
    SeenGrows(s, pass, d, i, |s|);
    StartIsBelow(s, pass, d + 1);
    assert Start(s, pass, d + 1) == Start(s, pass, d) + Seen(s, pass, d, |s|);
  }

  lemma {:induction false} RankAt(s: seq<SymFreq>, pass: nat, d: nat, r: nat, k: nat) returns (i: nat)
    requires pass < 2 && k <= |s| && r < Seen(s, pass, d, k)
    ensures i < k && Digit(s[i], pass) == d && Seen(s, pass, d, i) == r
  {
    if Digit(s[k - 1], pass) == d && Seen(s, pass, d, k - 1) == r {
      i := k - 1;
    } else {
      i := RankAt(s, pass, d, r, k - 1);
    }
  }

  lemma {:induction false} DigitAt(s: seq<SymFreq>, pass: nat, p: nat, d: nat) returns (e: nat)
    requires pass < 2 && p < Start(s, pass, d)
    ensures e < d && Start(s, pass, e) <= p < Start(s, pass, e + 1)
  {
    if Start(s, pass, d - 1) <= p {
      e := d - 1;
    } else {
      e := DigitAt(s, pass, p, d - 1);
    }
  }

  /** Every place is somebody's. */
  lemma {:induction false} Occupant(s: seq<SymFreq>, pass: nat, p: nat) returns (i: nat)
    requires pass < 2 && p < |s|
    ensures i < |s| && Place(s, pass, i) == p
  {
    StartIsBelow(s, pass, 256);
    var d := DigitAt(s, pass, p, 256);
    i := RankAt(s, pass, d, p - Start(s, pass, d), |s|);
  }

  /** t is s after one pass. */
  ghost predicate Passed(s: seq<SymFreq>, t: seq<SymFreq>, pass: nat)
    requires pass < 2
  {
    |t| == |s| && forall i :: 0 <= i < |s| ==> Place(s, pass, i) < |t| && t[Place(s, pass, i)] == s[i]
  }

  /** Two places of the result hold two entries in the order of the pass. */
  lemma {:induction false} PassOrder(s: seq<SymFreq>, t: seq<SymFreq>, pass: nat, p: nat, q: nat)
    returns (i: nat, j: nat)
    requires pass < 2 && Passed(s, t, pass) && p < q < |t|
    ensures i < |s| && j < |s| && t[p] == s[i] && t[q] == s[j] && Before(s, pass, i, j)
  {
    hide Place, Digit;
    i := Occupant(s, pass, p);
    j := Occupant(s, pass, q);
    if Before(s, pass, j, i) {
      PlacesInOrder(s, pass, j, i);
    }
  }

  /** t holds s[i] at f[i]. */
  ghost predicate Rearranged(s: seq<SymFreq>, t: seq<SymFreq>, f: seq<nat>)
  {
    && |s| == |t| == |f|
    && (forall i :: 0 <= i < |f| ==> f[i] < |t| && t[f[i]] == s[i])
    && (forall i, j :: 0 <= i < j < |f| ==> f[i] != f[j])
  }

  lemma {:induction false} Removed(t: seq<SymFreq>, p: nat)
    requires p < |t|
    ensures multiset(t) == multiset(t[..p] + t[p + 1..]) + multiset{t[p]}
  {
    assert t == t[..p] + [t[p]] + t[p + 1..];
  }

  lemma {:induction false} RearrangedEntries(s: seq<SymFreq>, t: seq<SymFreq>, f: seq<nat>)
    requires Rearranged(s, t, f)
    ensures multiset(s) == multiset(t)
    decreases |s|
  {
    if s != [] {
      var n, p := |s| - 1, f[|s| - 1];
      var f' := seq(n, i requires 0 <= i < n => if f[i] < p then f[i] else f[i] - 1);
      RearrangedEntries(s[..n], t[..p] + t[p + 1..], f');
      assert s == s[..n] + [s[n]];
      Removed(t, p);
    }
  }

  lemma {:induction false} PassKeepsEntries(s: seq<SymFreq>, t: seq<SymFreq>, pass: nat)
    requires pass < 2 && Passed(s, t, pass)
    ensures multiset(s) == multiset(t)
  {
    var f := seq(|s|, i requires 0 <= i < |s| => Place(s, pass, i));
    forall i, j | 0 <= i < j < |f|
      ensures f[i] != f[j]
    {
      if Before(s, pass, i, j) {
        PlacesInOrder(s, pass, i, j);
      } else {
        PlacesInOrder(s, pass, j, i);
      }
    }
    RearrangedEntries(s, t, f);
  }

  lemma {:induction false} RemovedBoth(s: seq<SymFreq>, t: seq<SymFreq>, p: nat)
    requires multiset(s) == multiset(t) && s != [] && p < |t| && t[p] == s[|s| - 1]
    ensures multiset(s[..|s| - 1]) == multiset(t[..p] + t[p + 1..])
  {
    var n, x := |s| - 1, t[p];
    assert s == s[..n] + [x];
    Removed(t, p);
    assert multiset(s[..n]) == multiset(s) - multiset{x};
    assert multiset(t[..p] + t[p + 1..]) == multiset(t) - multiset{x};
  }

  /** The same entries have each digit equally often. */
  lemma {:induction false} SameEntriesSeen(s: seq<SymFreq>, t: seq<SymFreq>, pass: nat, d: nat)
    requires pass < 2 && multiset(s) == multiset(t)
    ensures Seen(s, pass, d, |s|) == Seen(t, pass, d, |t|)
    decreases |s|
  {
    assert |multiset(s)| == |s| && |multiset(t)| == |t|;
    if s != [] {
      var n := |s| - 1;
      assert s[n] in multiset(t);
      var p :| 0 <= p < |t| && t[p] == s[n];
      RemovedBoth(s, t, p);
      SameEntriesSeen(s[..n], t[..p] + t[p + 1..], pass, d);
      SeenPrefix(s, pass, d, n, n);
      SeenWithout(t, pass, d, p, |t|);
    }
  }

  lemma {:induction false} SeenPrefix(s: seq<SymFreq>, pass: nat, d: nat, m: nat, k: nat)
    requires pass < 2 && k <= m <= |s|
    ensures Seen(s[..m], pass, d, k) == Seen(s, pass, d, k)
  {
    if k > 0 {
      SeenPrefix(s, pass, d, m, k - 1);
    }
  }

  lemma {:induction false} SeenWithout(t: seq<SymFreq>, pass: nat, d: nat, p: nat, k: nat)
    requires pass < 2 && p < |t| && k <= |t|
    ensures var u := t[..p] + t[p + 1..];
      Seen(t, pass, d, k) == if k <= p then Seen(u, pass, d, k)
        else Seen(u, pass, d, k - 1) + (if Digit(t[p], pass) == d then 1 else 0)
  {
    if k > 0 {
      SeenWithout(t, pass, d, p, k - 1);
    }
  }

  /** Ascending keys, equal keys in the order of their symbols. */
  ghost predicate KeyOrder(x: SymFreq, y: SymFreq)
  {
    x.key < y.key || (x.key == y.key && x.sym < y.sym)
  }

  ghost predicate InOrder(t: seq<SymFreq>)
  {
    forall p, q :: 0 <= p < q < |t| ==> KeyOrder(t[p], t[q])
  }

  ghost predicate SymbolsAscend(s: seq<SymFreq>)
  {
    forall i, j :: 0 <= i < j < |s| ==> s[i].sym < s[j].sym
  }

  /** What the sort promises: the same entries, in order. */
  ghost predicate SortOf(s: seq<SymFreq>, t: seq<SymFreq>)
  {
    multiset(t) == multiset(s) && InOrder(t)
  }

  lemma {:induction false} OnePass(s: seq<SymFreq>, t: seq<SymFreq>)
    requires Passed(s, t, 0) && SymbolsAscend(s)
    requires forall i :: 0 <= i < |s| ==> s[i].key < 256
    ensures SortOf(s, t)
  {
    forall p, q | 0 <= p < q < |t|
      ensures KeyOrder(t[p], t[q])
    {
      var i, j := PassOrder(s, t, 0, p, q);
      LowDigit(s[i]);
      LowDigit(s[j]);
    }
    PassKeepsEntries(s, t, 0);
  }

  lemma {:induction false} LowDigit(x: SymFreq)
    requires x.key < 256
    ensures Digit(x, 0) == x.key
  {
  }

  lemma {:induction false} TwoPasses(s: seq<SymFreq>, t: seq<SymFreq>, u: seq<SymFreq>)
    requires Passed(s, t, 0) && Passed(t, u, 1) && SymbolsAscend(s)
    ensures SortOf(s, u)
  {
    forall p, q | 0 <= p < q < |u|
      ensures KeyOrder(u[p], u[q])
    {
      var i, j := PassOrder(t, u, 1, p, q);
      if Digit(t[i], 1) == Digit(t[j], 1) {
        var k, l := PassOrder(s, t, 0, i, j);
        assert t[i].key == 256 * Digit(t[i], 1) + Digit(s[k], 0);
        assert t[j].key == 256 * Digit(t[j], 1) + Digit(s[l], 0);
      }
    }
    PassKeepsEntries(s, t, 0);
    PassKeepsEntries(t, u, 1);
  }

  // ---- the loops

  /** hist[256 p + d] counts the entries whose byte p is d. */
  ghost predicate Histogram(hist: seq<nat>, s: seq<SymFreq>, k: nat)
    requires k <= |s|
  {
    && |hist| == 512
    && (forall d :: 0 <= d < 256 ==> hist[d] == Seen(s, 0, d, k))
    && (forall d :: 0 <= d < 256 ==> hist[256 + d] == Seen(s, 1, d, k))
  }

  /** The half of the histogram that a pass uses. */
  ghost predicate Counted(hist: seq<nat>, s: seq<SymFreq>, pass: nat)
    requires pass < 2
  {
    |hist| == 512 && forall d :: 0 <= d < 256 ==> hist[(if pass == 0 then 0 else 256) + d] == Seen(s, pass, d, |s|)
  }

  method CountDigits(syms: array<SymFreq>) returns (hist: array<nat>)
    ensures fresh(hist) && Histogram(hist[..], syms[..], syms.Length)
  {
    hist := new nat[512](_ => 0);
    var i := 0;
    while i < syms.Length
      invariant 0 <= i <= syms.Length
      invariant Histogram(hist[..], syms[..], i)
    {
      var freq := syms[i].key;
      hist[freq % 256] := hist[freq % 256] + 1;
      hist[256 + freq / 256] := hist[256 + freq / 256] + 1;
      i := i + 1;
    }
  }

  lemma {:induction false} HistogramAt(hist: seq<nat>, s: seq<SymFreq>, pass: nat, d: nat)
    requires pass < 2 && d < 256 && Counted(hist, s, pass)
    ensures 0 <= 256 * pass + d < 512 && hist[256 * pass + d] == Seen(s, pass, d, |s|)
  {
  }

  /** The next free place of each digit, when k entries have been put. */
  ghost predicate FreePlaces(offsets: seq<nat>, s: seq<SymFreq>, pass: nat, k: nat)
    requires pass < 2 && k <= |s|
  {
    |offsets| == 256 && forall d :: 0 <= d < 256 ==> offsets[d] == Start(s, pass, d) + Seen(s, pass, d, k)
  }

  method Offsets(hist: array<nat>, pass: nat, ghost s: seq<SymFreq>) returns (offsets: array<nat>)
    requires pass < 2 && Counted(hist[..], s, pass)
    ensures fresh(offsets) && FreePlaces(offsets[..], s, pass, 0)
  {
    offsets := new nat[256](_ => 0);
    var i, curOfs := 0, 0;
    while i < 256
      invariant 0 <= i <= 256 && curOfs == Start(s, pass, i)
      invariant forall d :: 0 <= d < i ==> offsets[d] == Start(s, pass, d)
    {
      HistogramAt(hist[..], s, pass, i);
      offsets[i] := curOfs;
      curOfs := curOfs + hist[256 * pass + i];
      i := i + 1;
    }
  }

  /** The first k entries of s have been put in their places. */
  ghost predicate PassedUpTo(s: seq<SymFreq>, t: seq<SymFreq>, pass: nat, k: nat)
    requires pass < 2 && k <= |s|
  {
    |t| == |s| && forall i :: 0 <= i < k ==> Place(s, pass, i) < |t| && t[Place(s, pass, i)] == s[i]
  }

  lemma {:induction false} PassStep(s: seq<SymFreq>, t: seq<SymFreq>, pass: nat, k: nat)
    requires pass < 2 && k < |s| && PassedUpTo(s, t, pass, k)
    ensures Place(s, pass, k) < |t|
    ensures PassedUpTo(s, t[Place(s, pass, k) := s[k]], pass, k + 1)
  {
    PlaceInRange(s, pass, k);
    forall j | 0 <= j < k
      ensures Place(s, pass, j) != Place(s, pass, k)
    {
      if Before(s, pass, k, j) {
        PlacesInOrder(s, pass, k, j);
      } else {
        PlacesInOrder(s, pass, j, k);
      }
    }
  }

  method PutEntry(x: SymFreq, target: array<SymFreq>, offsets: array<nat>, pass: nat, ghost s: seq<SymFreq>,
                  ghost i: nat)
    requires pass < 2 && i < |s| && s[i] == x
    requires FreePlaces(offsets[..], s, pass, i) && PassedUpTo(s, target[..], pass, i)
    modifies target, offsets
    ensures FreePlaces(offsets[..], s, pass, i + 1) && PassedUpTo(s, target[..], pass, i + 1)
  {
    var d := if pass == 0 then x.key % 256 else x.key / 256;
    assert d == Digit(x, pass);
    ghost var before := target[..];
    PassStep(s, before, pass, i);
    target[offsets[d]] := x;
    assert target[..] == before[Place(s, pass, i) := x];
    offsets[d] := offsets[d] + 1;
  }

  /** One pass from cur into new. */
  method Pass(cur: array<SymFreq>, target: array<SymFreq>, hist: array<nat>, pass: nat)
    requires pass < 2 && cur != target && cur.Length == target.Length
    requires Counted(hist[..], cur[..], pass)
    modifies target
    ensures Passed(cur[..], target[..], pass)
  {
    ghost var s := cur[..];
    var offsets := Offsets(hist, pass, s);
    var i := 0;
    while i < cur.Length
      invariant 0 <= i <= |s|
      invariant FreePlaces(offsets[..], s, pass, i) && PassedUpTo(s, target[..], pass, i)
    {
      PutEntry(cur[i], target, offsets, pass, s, i);
      i := i + 1;
    }
  }

  /** When every high byte is zero the second pass is not needed. */
  lemma {:induction false} AllLow(s: seq<SymFreq>, k: nat)
    requires k <= |s| && Seen(s, 1, 0, k) == k
    ensures forall i :: 0 <= i < k ==> s[i].key < 256
  {
    if k > 0 {
      AllLow(s, k - 1);
    }
  }

  /** tdefl_radix_sort_syms: the sorted entries end up in one of the two arrays. */
  method RadixSortSyms(syms0: array<SymFreq>, syms1: array<SymFreq>) returns (sorted: array<SymFreq>)
    requires syms0 != syms1 && syms0.Length == syms1.Length && SymbolsAscend(syms0[..])
    modifies syms0, syms1
    ensures sorted == syms0 || sorted == syms1
    ensures SortOf(old(syms0[..]), sorted[..])
  {
    var numSyms := syms0.Length;
    var hist := CountDigits(syms0);
    var totalPasses := 2;
    if numSyms == hist[256] {
      totalPasses := 1;
    }
    ghost var s := syms0[..];
    Pass(syms0, syms1, hist, 0);
    if totalPasses == 1 {
      AllLow(s, |s|);
      OnePass(s, syms1[..]);
      return syms1;
    }
    ghost var t := syms1[..];
    PassKeepsEntries(s, t, 0);
    forall d
      ensures Seen(s, 1, d, |s|) == Seen(t, 1, d, |t|)
    {
      SameEntriesSeen(s, t, 1, d);
    }
    Pass(syms1, syms0, hist, 1);
    TwoPasses(s, t, syms0[..]);
    return syms0;
  }
}
