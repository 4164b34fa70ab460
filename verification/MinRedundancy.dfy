/**
 Code lengths of minimum redundancy, computed in place (tdefl_calculate_minimum_redundancy).
 The array holds n weights in ascending order; afterwards it holds their code lengths.
 */
module MinRedundancy {
  import opened Bits

  datatype SymFreq = SymFreq(key: u16, sym: u16)

  /**
   The record of a run: before inner node t is made, la[t] leaves and Ra(la, t) earlier inner
   nodes have been given a parent. Node t takes two of them.
   */
  function Ra(la: seq<nat>, t: nat): int
    requires t < |la|
  {
    2 * t - la[t]
  }

  /** Node t takes two items, and only inner nodes made before it. */
  ghost predicate Takes(la: seq<nat>, t: nat)
    requires t + 1 < |la|
  {
    la[t] <= la[t + 1] <= la[t] + 2 && 0 <= Ra(la, t + 1) <= t
  }

  /** la is a record of the first k nodes over n leaves. */
  ghost predicate Record(la: seq<nat>, n: nat, k: nat)
  {
    && |la| == k + 1 && la[0] == 0 && Ra(la, k) <= k
    && (forall t :: 0 <= t < k ==> Takes(la, t))
    && (forall s, t :: 0 <= s <= t <= k ==> la[s] <= la[t] <= n && 0 <= Ra(la, s) <= Ra(la, t))
  }

  /** The weights of two items taken, when the leaves up to leaf' and as many inner nodes as needed are. */
  function Pick1(w: seq<nat>, inner: seq<nat>, leaf: nat, root: nat, leaf': nat): nat
    requires leaf <= leaf' <= leaf + 2 && leaf' <= |w| && root + 2 - (leaf' - leaf) <= |inner|
  {
    if leaf' > leaf then w[leaf] else inner[root]
  }

  function Pick2(w: seq<nat>, inner: seq<nat>, leaf: nat, root: nat, leaf': nat): nat
    requires leaf <= leaf' <= leaf + 2 && leaf' <= |w| && root + 2 - (leaf' - leaf) <= |inner|
  {
    if leaf' == leaf + 2 then w[leaf + 1] else if leaf' == leaf + 1 then inner[root] else inner[root + 1]
  }

  /** The weights of the two items that node t takes. */
  function First(w: seq<nat>, inner: seq<nat>, la: seq<nat>, t: nat): nat
    requires t + 1 < |la| && la[t + 1] <= |w| && 0 <= Ra(la, t) && Takes(la, t) && t <= |inner|
  {
    Pick1(w, inner, la[t], Ra(la, t), la[t + 1])
  }

  function Second(w: seq<nat>, inner: seq<nat>, la: seq<nat>, t: nat): nat
    requires t + 1 < |la| && la[t + 1] <= |w| && 0 <= Ra(la, t) && Takes(la, t) && t <= |inner|
  {
    Pick2(w, inner, la[t], Ra(la, t), la[t + 1])
  }

  /** Node t weighs what its two items weigh, in 16 bits. */
  ghost predicate Weighs(w: seq<nat>, inner: seq<nat>, la: seq<nat>, t: nat)
    requires Record(la, |w|, |inner|) && t < |inner|
  {
    assert Takes(la, t);
    inner[t] == (First(w, inner, la, t) + Second(w, inner, la, t)) % 65536
  }

  /** Node t took the two lightest items there were. */
  ghost predicate Greedy(w: seq<nat>, inner: seq<nat>, la: seq<nat>, t: nat)
    requires Record(la, |w|, |inner|) && t < |inner|
  {
    assert Takes(la, t);
    var a, b := First(w, inner, la, t), Second(w, inner, la, t);
    && (la[t + 1] < |w| ==> a <= w[la[t + 1]] && b <= w[la[t + 1]])
    && (Ra(la, t + 1) < t ==> a <= inner[Ra(la, t + 1)] && b <= inner[Ra(la, t + 1)])
  }

  ghost predicate Ascending(w: seq<nat>)
  {
    forall i, j :: 0 <= i <= j < |w| ==> w[i] <= w[j]
  }

  /** A record together with the weights of the inner nodes. */
  ghost predicate Run(w: seq<nat>, inner: seq<nat>, la: seq<nat>)
  {
    && Record(la, |w|, |inner|)
    && (forall t :: 0 <= t < |inner| ==> Weighs(w, inner, la, t))
  }

  function Sum(s: seq<nat>): nat
  {
    if s == [] then 0 else s[0] + Sum(s[1..])
  }

  lemma {:induction false} SumAppend(s: seq<nat>, x: nat)
    ensures Sum(s + [x]) == Sum(s) + x
  {
    if s != [] {
      SumAppend(s[1..], x);
      assert (s + [x])[1..] == s[1..] + [x];
    }
  }

  lemma {:induction false} SumDrop(s: seq<nat>, i: nat)
    requires i < |s|
    ensures Sum(s[i..]) == s[i] + Sum(s[i + 1..])
  {
    assert s[i..][1..] == s[i + 1..];
  }

  lemma {:induction false} SumSet(s: seq<nat>, i: nat, v: nat)
    requires i < |s|
    ensures Sum(s[i := v]) == Sum(s) - s[i] + v
  {
    if i == 0 {
      assert s[0 := v][1..] == s[1..];
    } else {
      SumSet(s[1..], i - 1, v);
      assert s[i := v][1..] == s[1..][i - 1 := v];
    }
  }

  lemma {:induction false} SumZero(d: seq<nat>)
    requires forall i :: 0 <= i < |d| ==> d[i] == 0
    ensures Sum(d) == 0
  {
    if d != [] {
      SumZero(d[1..]);
    }
  }

  function Keys(a: seq<SymFreq>): (k: seq<nat>)
    ensures |k| == |a|
    ensures forall i :: 0 <= i < |k| ==> k[i] < 65536
  {
    seq(|a|, i requires 0 <= i < |a| => a[i].key)
  }

  /** The inner nodes that node t took point to it. */
  ghost predicate Points(a: seq<SymFreq>, la: seq<nat>, t: nat)
    requires t + 1 < |la| && t < |a| && Takes(la, t)
  {
    forall r :: 0 <= r && Ra(la, t) <= r < Ra(la, t + 1) ==> a[r].key == t
  }

  /** What the array holds while node |inner| is about to be made. */
  ghost predicate PhaseOne(a: seq<SymFreq>, w: seq<nat>, inner: seq<nat>, la: seq<nat>, leaf: int, root: int)
  {
    var k := |inner|;
    && |a| == |w| && Run(w, inner, la)
    && 1 <= k < |a|
    && leaf == la[k] && root == Ra(la, k)
    && (forall t :: 0 <= t < k ==> Takes(la, t) && Points(a, la, t))
    && (forall r :: root <= r < k ==> a[r].key == inner[r])
    && (forall i :: leaf <= i < |a| ==> a[i].key == w[i])
  }

  /** Making node k: two items were taken, and a' is the array after it. */
  lemma {:induction false} NodeMade(a: seq<SymFreq>, a': seq<SymFreq>, w: seq<nat>, inner: seq<nat>, la: seq<nat>,
                                    leaf: int, root: int, leaf': int, root': int)
    requires PhaseOne(a, w, inner, la, leaf, root) && |a'| == |a| && |inner| + 1 < |a|
    requires leaf <= leaf' <= |a| && 0 <= root <= root' <= |inner| && leaf' + root' == 2 * |inner| + 2
    requires var k := |inner|;
      && (forall r :: 0 <= r < root ==> a'[r] == a[r])
      && (forall r :: root <= r < root' ==> a'[r].key == k)
      && (forall r :: root' <= r < k ==> a'[r] == a[r])
      && (forall i :: k < i < |a| ==> a'[i] == a[i])
    requires a'[|inner|].key == (Pick1(w, inner, leaf, root, leaf') + Pick2(w, inner, leaf, root, leaf')) % 65536
    ensures PhaseOne(a', w, inner + [a'[|inner|].key], la + [leaf'], leaf', root')
  {
    var k := |inner|;
    var la' := la + [leaf'];
    RunGrows(w, inner, la, leaf', a'[k].key);
    forall t | 0 <= t < k + 1
      ensures Takes(la', t) && Points(a', la', t)
    {
      assert Takes(la', t);
      if t < k {
        assert Takes(la, t) && Points(a, la, t);
        assert Ra(la, t + 1) <= Ra(la, k);
      }
    }
  }

  lemma {:induction false} RunGrows(w: seq<nat>, inner: seq<nat>, la: seq<nat>, leaf: nat, c: nat)
    requires Run(w, inner, la) && la[|inner|] <= leaf <= la[|inner|] + 2 && leaf <= |w|
    requires 0 <= 2 * (|inner| + 1) - leaf <= |inner|
    requires c == (Pick1(w, inner, la[|inner|], Ra(la, |inner|), leaf)
      + Pick2(w, inner, la[|inner|], Ra(la, |inner|), leaf)) % 65536
    ensures Run(w, inner + [c], la + [leaf])
  {
    hide Sum;
    var la' := la + [leaf];
    RecordGrows(la, leaf, |w|, |inner|);
    forall t | 0 <= t < |inner| + 1
      ensures Weighs(w, inner + [c], la', t)
    {
      assert Takes(la', t);
      if t < |inner| {
        assert Weighs(w, inner, la, t) && Takes(la, t);
      }
    }
  }

  lemma {:induction false} RecordGrows(la: seq<nat>, leaf: nat, n: nat, k: nat)
    requires Record(la, n, k) && la[k] <= leaf <= la[k] + 2 && leaf <= n
    requires 0 <= 2 * (k + 1) - leaf <= k
    ensures Record(la + [leaf], n, k + 1)
  {
    var la' := la + [leaf];
    forall t | 0 <= t < k + 1
      ensures Takes(la', t)
    {
      if t < k {
        assert Takes(la, t);
      }
    }
    forall s, t | 0 <= s <= t <= k + 1
      ensures la'[s] <= la'[t] <= n && 0 <= Ra(la', s) <= Ra(la', t)
    {
      if s <= k {
        assert la[s] <= la[k] <= n && 0 <= Ra(la, s) <= Ra(la, k);
      }
      if t <= k {
        assert la[s] <= la[t] <= n && 0 <= Ra(la, s) <= Ra(la, t);
      }
    }
  }

  /** The lightest item that is left went into node next, on top of base. */
  ghost predicate Took(a: seq<SymFreq>, a': seq<SymFreq>, next: nat, leaf: nat, root: nat, leaf': nat, root': nat,
                       base: nat)
  {
    && |a| == |a'| && next < |a| && leaf <= |a| && root <= next
    && (leaf == |a| || (root < next && a[root].key < a[leaf].key) <==> leaf' == leaf)
    && (leaf' > leaf ==>
          && (leaf', root') == (leaf + 1, root) && leaf < |a|
          && a' == a[next := a'[next]] && a'[next].key == (base + a[leaf].key) % 65536)
    && (leaf' <= leaf ==>
          && (leaf', root') == (leaf, root + 1) && root < next
          && a' == a[next := a'[next]][root := a[root].(key := next % 65536)]
          && a'[next].key == (base + a[root].key) % 65536)
  }

  method Take(A: array<SymFreq>, next: nat, leaf0: nat, root0: nat, base: nat) returns (leaf: nat, root: nat)
    requires next < A.Length && root0 <= next && leaf0 <= A.Length && (next < leaf0 || leaf0 == A.Length)
    requires leaf0 == A.Length ==> root0 < next
    modifies A
    ensures Took(old(A[..]), A[..], next, leaf0, root0, leaf, root, base)
    ensures forall i :: 0 <= i < A.Length ==> A[i].sym == old(A[i].sym)
  {
    leaf, root := leaf0, root0;
    if leaf >= A.Length || (root < next && A[root].key < A[leaf].key) {
      A[next] := A[next].(key := (base + A[root].key) % 65536);
      A[root] := A[root].(key := next % 65536);
      root := root + 1;
    } else {
      A[next] := A[next].(key := (base + A[leaf].key) % 65536);
      leaf := leaf + 1;
    }
  }

  /** Two items taken make a node. */
  lemma {:induction false} TookTwo(a: seq<SymFreq>, b: seq<SymFreq>, c: seq<SymFreq>, w: seq<nat>, inner: seq<nat>,
                                   la: seq<nat>,
                                   leaf0: nat, root0: nat, leaf1: nat, root1: nat, leaf2: nat, root2: nat)
    requires |inner| + 1 < |a| < 65536 && PhaseOne(a, w, inner, la, leaf0, root0) && root0 < |inner|
    requires Took(a, b, |inner|, leaf0, root0, leaf1, root1, 0)
    requires Took(b, c, |inner|, leaf1, root1, leaf2, root2, b[|inner|].key)
    ensures PhaseOne(c, w, inner + [c[|inner|].key], la + [leaf2], leaf2, root2)
  {
    TookKeys(a, b, c, w, inner, la, leaf0, root0, leaf1, root1, leaf2, root2);
    NodeMade(a, c, w, inner, la, leaf0, root0, leaf2, root2);
  }

  lemma {:induction false} TookKeys(a: seq<SymFreq>, b: seq<SymFreq>, c: seq<SymFreq>, w: seq<nat>, inner: seq<nat>,
                                    la: seq<nat>,
                                    leaf0: nat, root0: nat, leaf1: nat, root1: nat, leaf2: nat, root2: nat)
    requires |inner| + 1 < |a| < 65536 && PhaseOne(a, w, inner, la, leaf0, root0) && root0 < |inner|
    requires Took(a, b, |inner|, leaf0, root0, leaf1, root1, 0)
    requires Took(b, c, |inner|, leaf1, root1, leaf2, root2, b[|inner|].key)
    ensures leaf0 <= leaf2 <= leaf0 + 2 && leaf2 <= |a| && root0 <= root2 <= |inner| && leaf2 + root2 == 2 * |inner| + 2
    ensures c[|inner|].key == (Pick1(w, inner, leaf0, root0, leaf2) + Pick2(w, inner, leaf0, root0, leaf2)) % 65536
  {
    var next := |inner|;
    assert b[next].key == if leaf1 > leaf0 then w[leaf0] else inner[root0];
    assert c[next].key == (b[next].key + if leaf2 > leaf1 then w[leaf1] else inner[root1]) % 65536;
  }

  /** One node: the two lightest of the leaves and inner nodes that are left. */
  method MakeNode(A: array<SymFreq>, next: nat, leaf0: nat, root0: nat, ghost w: seq<nat>, ghost inner: seq<nat>,
                  ghost la: seq<nat>)
    returns (leaf: nat, root: nat)
    requires |inner| == next && next + 1 < A.Length < 65536
    requires PhaseOne(A[..], w, inner, la, leaf0, root0) && root0 < next
    modifies A
    ensures PhaseOne(A[..], w, inner + [A[next].key], la + [leaf], leaf, root) && root < next + 1
    ensures Sum(w) < 65536 && GreedyRun(w, inner, la) ==> GreedyRun(w, inner + [A[next].key], la + [leaf])
    ensures forall i :: 0 <= i < A.Length ==> A[i].sym == old(A[i].sym)
  {
    hide Sum, Weighs, Points, Pick1, Pick2, Greedy, Exact, Rest;
    ghost var a := A[..];
    leaf, root := Take(A, next, leaf0, root0, 0);
    ghost var b, leaf1, root1 := A[..], leaf, root;
    leaf, root := Take(A, next, leaf, root, A[next].key);
    TookTwo(a, b, A[..], w, inner, la, leaf0, root0, leaf1, root1, leaf, root);
    TookKeys(a, b, A[..], w, inner, la, leaf0, root0, leaf1, root1, leaf, root);
    if Sum(w) < 65536 && GreedyRun(w, inner, la) {
      TookLightest(a, b, A[..], w, inner, la, leaf0, root0, leaf1, root1, leaf, root);
      NoOverflow(w, inner, la, leaf, A[next].key);
      GreedyGrows(w, inner, la, leaf, A[next].key);
    }
  }

  /** What the items that are left weigh. */
  function Rest(w: seq<nat>, inner: seq<nat>, leaf: nat, root: nat): nat
    requires leaf <= |w| && root <= |inner|
  {
    Sum(w[leaf..]) + Sum(inner[root..])
  }

  lemma {:induction false} RestStep(w: seq<nat>, inner: seq<nat>, leaf: nat, root: nat, leaf': nat)
    requires leaf <= leaf' <= leaf + 2 && leaf' <= |w| && root + 2 - (leaf' - leaf) <= |inner|
    ensures Rest(w, inner, leaf, root) == Pick1(w, inner, leaf, root, leaf') + Pick2(w, inner, leaf, root, leaf')
                                          + Rest(w, inner, leaf', root + 2 - (leaf' - leaf))
  {
    if leaf' > leaf {
      SumDrop(w, leaf);
    } else {
      SumDrop(inner, root + 1);
    }
    if leaf' > leaf + 1 {
      SumDrop(w, leaf + 1);
    } else {
      SumDrop(inner, root);
    }
  }

  /** Without overflow, every node took the two lightest items and weighs what they do. */
  ghost predicate GreedyRun(w: seq<nat>, inner: seq<nat>, la: seq<nat>)
  {
    && Run(w, inner, la)
    && Ascending(w) && Ascending(inner)
    && (forall t :: 0 <= t < |inner| ==> Greedy(w, inner, la, t) && Exact(w, inner, la, t))
    && Rest(w, inner, la[|inner|], Ra(la, |inner|)) == Sum(w)
  }

  ghost predicate Exact(w: seq<nat>, inner: seq<nat>, la: seq<nat>, t: nat)
    requires Record(la, |w|, |inner|) && t < |inner|
  {
    assert Takes(la, t);
    inner[t] == First(w, inner, la, t) + Second(w, inner, la, t)
  }

  /** Two items taken one after the other are the two lightest. */
  ghost predicate Lightest(w: seq<nat>, inner: seq<nat>, leaf: nat, root: nat, leaf': nat)
    requires leaf <= leaf' <= leaf + 2 && leaf' <= |w| && root + 2 - (leaf' - leaf) <= |inner|
  {
    var root' := root + 2 - (leaf' - leaf);
    var a, b := Pick1(w, inner, leaf, root, leaf'), Pick2(w, inner, leaf, root, leaf');
    && (leaf' < |w| ==> a <= w[leaf'] && b <= w[leaf'])
    && (root' < |inner| ==> a <= inner[root'] && b <= inner[root'])
  }

  lemma {:induction false} TookLightest(a: seq<SymFreq>, b: seq<SymFreq>, c: seq<SymFreq>, w: seq<nat>, inner: seq<nat>,
                                        la: seq<nat>,
                                        leaf0: nat, root0: nat, leaf1: nat, root1: nat, leaf2: nat, root2: nat)
    requires |inner| + 1 < |a| < 65536 && PhaseOne(a, w, inner, la, leaf0, root0) && root0 < |inner|
    requires Took(a, b, |inner|, leaf0, root0, leaf1, root1, 0)
    requires Took(b, c, |inner|, leaf1, root1, leaf2, root2, b[|inner|].key)
    requires Ascending(w) && Ascending(inner)
    ensures Lightest(w, inner, leaf0, root0, leaf2)
  {
    assert forall i :: leaf0 <= i < |w| ==> a[i].key == w[i];
    assert forall i :: leaf1 <= i < |w| ==> b[i].key == w[i];
    assert forall r :: root1 <= r < |inner| ==> b[r].key == inner[r];
  }

  /** Weights below 65536 in all do not overflow. */
  lemma {:induction false} NoOverflow(w: seq<nat>, inner: seq<nat>, la: seq<nat>, leaf: nat, c: nat)
    requires GreedyRun(w, inner, la) && Sum(w) < 65536
    requires la[|inner|] <= leaf <= la[|inner|] + 2 && leaf <= |w| && 0 <= 2 * (|inner| + 1) - leaf <= |inner|
    requires c == (Pick1(w, inner, la[|inner|], Ra(la, |inner|), leaf)
      + Pick2(w, inner, la[|inner|], Ra(la, |inner|), leaf)) % 65536
    ensures c == Pick1(w, inner, la[|inner|], Ra(la, |inner|), leaf)
      + Pick2(w, inner, la[|inner|], Ra(la, |inner|), leaf)
    ensures Sum(w) == c + Rest(w, inner, leaf, 2 * (|inner| + 1) - leaf)
  {
    RestStep(w, inner, la[|inner|], Ra(la, |inner|), leaf);
  }

  lemma {:induction false} RestGrows(w: seq<nat>, inner: seq<nat>, leaf: nat, root: nat, c: nat)
    requires leaf <= |w| && root <= |inner|
    ensures Rest(w, inner + [c], leaf, root) == Rest(w, inner, leaf, root) + c
  {
    assert (inner + [c])[root..] == inner[root..] + [c];
    SumAppend(inner[root..], c);
  }

  lemma {:induction false} GreedyGrows(w: seq<nat>, inner: seq<nat>, la: seq<nat>, leaf: nat, c: nat)
    requires GreedyRun(w, inner, la) && Run(w, inner + [c], la + [leaf])
    requires la[|inner|] <= leaf <= la[|inner|] + 2 && leaf <= |w| && 0 <= 2 * (|inner| + 1) - leaf <= |inner|
    requires Lightest(w, inner, la[|inner|], Ra(la, |inner|), leaf)
    requires c == Pick1(w, inner, la[|inner|], Ra(la, |inner|), leaf)
      + Pick2(w, inner, la[|inner|], Ra(la, |inner|), leaf)
    requires Sum(w) == c + Rest(w, inner, leaf, 2 * (|inner| + 1) - leaf)
    ensures GreedyRun(w, inner + [c], la + [leaf])
  {
    var k := |inner|;
    var la', inner' := la + [leaf], inner + [c];
    RestGrows(w, inner, leaf, 2 * (k + 1) - leaf, c);
    GreedyAscends(w, inner, la, leaf, c);
    GreedyNew(w, inner, la, leaf, c);
    forall t | 0 <= t < k + 1
      ensures Greedy(w, inner', la', t) && Exact(w, inner', la', t)
    {
      if t < k {
        GreedyKept(w, inner, la, leaf, c, t);
      }
    }
  }

  lemma {:induction false} GreedyNew(w: seq<nat>, inner: seq<nat>, la: seq<nat>, leaf: nat, c: nat)
    requires Run(w, inner, la) && Run(w, inner + [c], la + [leaf])
    requires la[|inner|] <= leaf <= la[|inner|] + 2 && leaf <= |w| && 0 <= 2 * (|inner| + 1) - leaf <= |inner|
    requires Lightest(w, inner, la[|inner|], Ra(la, |inner|), leaf)
    requires c == Pick1(w, inner, la[|inner|], Ra(la, |inner|), leaf)
      + Pick2(w, inner, la[|inner|], Ra(la, |inner|), leaf)
    ensures Greedy(w, inner + [c], la + [leaf], |inner|) && Exact(w, inner + [c], la + [leaf], |inner|)
  {
    assert Takes(la + [leaf], |inner|);
  }

  lemma {:induction false} GreedyKept(w: seq<nat>, inner: seq<nat>, la: seq<nat>, leaf: nat, c: nat, t: nat)
    requires Run(w, inner, la) && Run(w, inner + [c], la + [leaf])
    requires t < |inner| && Greedy(w, inner, la, t) && Exact(w, inner, la, t)
    ensures Greedy(w, inner + [c], la + [leaf], t) && Exact(w, inner + [c], la + [leaf], t)
  {
    assert Takes(la, t) && Takes(la + [leaf], t);
  }

  /** A later node is never lighter. */
  lemma {:induction false} GreedyAscends(w: seq<nat>, inner: seq<nat>, la: seq<nat>, leaf: nat, c: nat)
    requires GreedyRun(w, inner, la)
    requires la[|inner|] <= leaf <= la[|inner|] + 2 && leaf <= |w| && 0 <= 2 * (|inner| + 1) - leaf <= |inner|
    requires c == Pick1(w, inner, la[|inner|], Ra(la, |inner|), leaf)
      + Pick2(w, inner, la[|inner|], Ra(la, |inner|), leaf)
    ensures Ascending(inner + [c])
  {
    if inner != [] {
      var t := |inner| - 1;
      assert Takes(la, t) && Greedy(w, inner, la, t) && Exact(w, inner, la, t);
      assert inner[t] <= c;
    }
  }

  /** The first node takes the first two leaves. */
  lemma {:induction false} FirstNode(w: seq<nat>, c: nat)
    requires |w| >= 2 && c == (w[0] + w[1]) % 65536
    ensures Run(w, [c], [0, 2])
    ensures Ascending(w) && Sum(w) < 65536 ==> GreedyRun(w, [c], [0, 2])
  {
    hide Sum;
    assert Takes([0, 2], 0);
    assert Weighs(w, [c], [0, 2], 0);
    if Ascending(w) && Sum(w) < 65536 {
      FirstSum(w);
      FirstRest(w, c);
      assert Greedy(w, [c], [0, 2], 0) && Exact(w, [c], [0, 2], 0);
    }
  }

  lemma {:induction false} FirstSum(w: seq<nat>)
    requires |w| >= 2
    ensures Sum(w) == w[0] + w[1] + Sum(w[2..])
  {
    SumDrop(w, 0);
    SumDrop(w, 1);
    assert w[0..] == w;
  }

  lemma {:induction false} FirstRest(w: seq<nat>, c: nat)
    requires |w| >= 2
    ensures Rest(w, [c], 2, 0) == Sum(w[2..]) + c
  {
    SumAppend([], c);
    assert [] + [c] == [c] && [c][0..] == [c];
  }

  /** First phase: the nodes are made, each in a place its items no longer need. */
  method MakeNodes(A: array<SymFreq>, ghost w: seq<nat>) returns (ghost inner: seq<nat>, ghost la: seq<nat>)
    requires 2 <= A.Length < 65536 && w == Keys(A[..])
    modifies A
    ensures |inner| == A.Length - 1
    ensures PhaseOne(A[..], w, inner, la, A.Length, A.Length - 2)
    ensures Ascending(w) && Sum(w) < 65536 ==> GreedyRun(w, inner, la)
    ensures forall i :: 0 <= i < A.Length ==> A[i].sym == old(A[i].sym)
  {
    var n := A.Length;
    A[0] := A[0].(key := (A[0].key + A[1].key) % 65536);
    var root: nat, leaf: nat := 0, 2;
    var next: nat := 1;
    inner, la := [A[0].key], [0, 2];
    FirstNode(w, A[0].key);
    assert Takes(la, 0);
    while next < n - 1
      invariant 1 <= next <= n - 1 && |inner| == next
      invariant PhaseOne(A[..], w, inner, la, leaf, root)
      invariant root < next
      invariant Ascending(w) && Sum(w) < 65536 ==> GreedyRun(w, inner, la)
      invariant forall i :: 0 <= i < n ==> A[i].sym == old(A[i].sym)
    {
      leaf, root := MakeNode(A, next, leaf, root, w, inner, la);
      inner, la := inner + [A[next].key], la + [leaf];
      next := next + 1;
    }
  }

  // ---- second phase: depths of the inner nodes

  /** A record of the whole tree: all n leaves and all inner nodes but the last have a parent. */
  ghost predicate FullRecord(la: seq<nat>, n: nat)
  {
    n >= 2 && Record(la, n, n - 1) && la[n - 1] == n
  }

  /** dep gives every node's depth below node n - 2. */
  ghost predicate Depths(la: seq<nat>, n: nat, dep: seq<nat>)
    requires FullRecord(la, n)
  {
    && |dep| == n - 1 && dep[n - 2] == 0
    && forall t :: 0 <= t < n - 1 ==> Takes(la, t) && ChildDepths(la, dep, t)
  }

  ghost predicate ChildDepths(la: seq<nat>, dep: seq<nat>, t: nat)
    requires t + 1 < |la| && t < |dep| && Takes(la, t)
  {
    forall r :: 0 <= r && Ra(la, t) <= r < Ra(la, t + 1) ==> dep[r] == dep[t] + 1
  }

  /** The node that took inner node r. */
  lemma {:induction false} ParentOf(la: seq<nat>, n: nat, r: nat, k: nat) returns (t: nat)
    requires Record(la, n, k) && r < Ra(la, k)
    ensures r < t < k && Takes(la, t) && Ra(la, t) <= r < Ra(la, t + 1)
    decreases k
  {
    t := k;
    while r < Ra(la, t)
      invariant t <= k && r < Ra(la, k)
      invariant t < k ==> r < Ra(la, t + 1)
      decreases t
    {
      t := t - 1;
    }
    assert Takes(la, t);
  }

  /** The node that took leaf i. */
  lemma {:induction false} LeafParent(la: seq<nat>, n: nat, i: nat, k: nat) returns (t: nat)
    requires Record(la, n, k) && i < la[k]
    ensures t < k && Takes(la, t) && la[t] <= i < la[t + 1]
  {
    t := k;
    while i < la[t]
      invariant t <= k
      invariant t < k ==> i < la[t + 1]
      decreases t
    {
      t := t - 1;
    }
    assert Takes(la, t);
  }

  /** Node pointers below next, depths above. */
  ghost predicate PhaseTwo(a: seq<SymFreq>, la: seq<nat>, n: nat, next: int)
    requires FullRecord(la, n) && |a| == n
  {
    && -1 <= next < n - 2 && a[n - 2].key == 0
    && (forall t :: 0 <= t < n - 1 ==> Takes(la, t) && PointsOrDepths(a, la, t, next))
    && (forall r :: next < r < n - 1 ==> a[r].key <= n - 2 - r)
  }

  ghost predicate PointsOrDepths(a: seq<SymFreq>, la: seq<nat>, t: nat, next: int)
    requires t + 1 < |la| && t < |a| && Takes(la, t)
  {
    forall r :: 0 <= r && Ra(la, t) <= r < Ra(la, t + 1) ==> a[r].key == if r <= next then t else a[t].key + 1
  }

  lemma {:induction false} RootSet(a: seq<SymFreq>, a': seq<SymFreq>, la: seq<nat>, n: nat)
    requires n >= 2 && |a| == n && a' == a[n - 2 := a[n - 2].(key := 0)] && FullRecord(la, n)
    requires forall t :: 0 <= t < n - 1 ==> Takes(la, t) && Points(a, la, t)
    ensures PhaseTwo(a', la, n, n - 3)
  {
    var next := n - 3;
    assert a'[n - 2].key == 0;
    forall r | next < r < n - 1
      ensures a'[r].key <= n - 2 - r
    {
      assert r == n - 2;
    }
    forall t | 0 <= t < n - 1
      ensures Takes(la, t) && PointsOrDepths(a', la, t, next)
    {
      assert Takes(la, t) && Points(a, la, t);
    }
  }

  method NodeDepths(A: array<SymFreq>, ghost la: seq<nat>)
    requires 2 <= A.Length < 65536 && FullRecord(la, A.Length)
    requires forall t :: 0 <= t < A.Length - 1 ==> Takes(la, t) && Points(A[..], la, t)
    modifies A
    ensures PhaseTwo(A[..], la, A.Length, -1)
    ensures forall i :: 0 <= i < A.Length ==> A[i].sym == old(A[i].sym)
  {
    hide FullRecord, PhaseTwo, Points, Takes;
    var n := A.Length;
    ghost var before := A[..];
    A[n - 2] := A[n - 2].(key := 0);
    var next := n - 3;
    RootSet(before, A[..], la, n);
    while next >= 0
      invariant -1 <= next && PhaseTwo(A[..], la, n, next)
      invariant forall i :: 0 <= i < n ==> A[i].sym == old(A[i].sym)
    {
      NodeDepth(A, la, next);
      next := next - 1;
    }
  }

  /** A parent's depth is known before its children's are. */
  method NodeDepth(A: array<SymFreq>, ghost la: seq<nat>, next: nat)
    requires 2 <= A.Length < 65536 && FullRecord(la, A.Length) && PhaseTwo(A[..], la, A.Length, next)
    modifies A
    ensures PhaseTwo(A[..], la, A.Length, next - 1)
    ensures forall i :: 0 <= i < A.Length ==> A[i].sym == old(A[i].sym)
  {
    ghost var n := A.Length;
    ghost var mid := A[..];
    ghost var p := ParentOf(la, n, next, n - 1);
    assert PointsOrDepths(mid, la, p, next);
    A[next] := A[next].(key := A[A[next].key].key + 1);
    DepthSet(mid, A[..], la, n, next, p);
  }

  lemma {:induction false} DepthSet(a: seq<SymFreq>, a': seq<SymFreq>, la: seq<nat>, n: nat, next: nat, p: nat)
    requires FullRecord(la, n) && |a| == |a'| == n && next < n - 2 && PhaseTwo(a, la, n, next)
    requires next < p < n - 1 && Takes(la, p) && Ra(la, p) <= next < Ra(la, p + 1)
    requires a' == a[next := a'[next]] && a'[next].key == a[p].key + 1
    ensures PhaseTwo(a', la, n, next - 1)
  {
    forall t | 0 <= t < n - 1
      ensures Takes(la, t) && PointsOrDepths(a', la, t, next - 1)
    {
      assert Takes(la, t) && PointsOrDepths(a, la, t, next);
      OneParent(la, n, next, p, t);
    }
  }

  lemma {:induction false} OneParent(la: seq<nat>, n: nat, r: nat, p: nat, t: nat)
    requires FullRecord(la, n) && p < n - 1 && t < n - 1
    requires Ra(la, p) <= r < Ra(la, p + 1)
    ensures Ra(la, t) <= r < Ra(la, t + 1) ==> p == t
  {
    if p < t {
      assert Ra(la, p + 1) <= Ra(la, t);
    } else if t < p {
      assert Ra(la, t + 1) <= Ra(la, p);
    }
  }

  // ---- third phase: depths of the leaves, level by level from the top

  /** The leaves of node t that lie beyond next have their depth. */
  ghost predicate LeavesDone(a: seq<SymFreq>, la: seq<nat>, dep: seq<nat>, t: nat, next: int)
    requires t + 1 < |la| && t < |dep| && la[t + 1] <= |a|
  {
    forall i :: la[t] <= i < la[t + 1] && next < i ==> a[i].key == dep[t] + 1
  }

  /**
   Level d is about to be filled: its nodes start at root and run down, its places are avbl,
   and the level above has the nodes from root + 1 to p - 1.
   */
  ghost predicate Level(a: seq<SymFreq>, la: seq<nat>, dep: seq<nat>, d: nat, p: nat, root: int, next: int, avbl: int)
    requires FullRecord(la, |a|)
  {
    var n := |a|;
    && Depths(la, n, dep)
    && -1 <= root <= n - 2 && root <= next <= n - 1 && avbl == next - root && p <= n - 1
    && (d == 0 ==> root == n - 2 && next == n - 1 && p == n - 1)
    && (d > 0 ==> root + 1 == Ra(la, p) && next + 1 == la[p] && root + 1 <= p && d + p <= n)
    && (forall r :: 0 <= r <= root ==> dep[r] >= d && a[r].key == dep[r])
    && (d > 0 ==> forall r :: root < r < p ==> dep[r] == d - 1)
    && (forall t :: 0 <= t < n - 1 ==> LeavesDone(a, la, dep, t, next))
  }

  /** The nodes of level d are those taken by the level above. */
  lemma {:induction false} LevelNodes(a: seq<SymFreq>, la: seq<nat>, dep: seq<nat>, d: nat, p: nat, root: int,
                                      next: int, avbl: int)
    requires FullRecord(la, |a|) && Level(a, la, dep, d, p, root, next, avbl)
    ensures 0 <= Ra(la, root + 1) <= root + 1
    ensures forall r :: 0 <= r <= root ==> (dep[r] == d <==> Ra(la, root + 1) <= r)
  {
    var n := |a|;
    if root >= 0 {
      assert Takes(la, root);
    }
    forall r | 0 <= r <= root
      ensures dep[r] == d <==> Ra(la, root + 1) <= r
    {
      if r < n - 2 {
        var t := ParentOf(la, n, r, n - 1);
        assert ChildDepths(la, dep, t);
        if t <= root {
          assert Ra(la, t + 1) <= Ra(la, root + 1);
        } else {
          assert Ra(la, root + 1) <= Ra(la, t);
        }
      }
    }
  }

  /** Level d has been filled. */
  lemma {:induction false} LevelFilled(a: seq<SymFreq>, a': seq<SymFreq>, la: seq<nat>, dep: seq<nat>, d: nat, p: nat,
                                       root: int, next: int, avbl: int, root': int, next': int)
    requires FullRecord(la, |a|) && Level(a, la, dep, d, p, root, next, avbl) && avbl > 0
    requires |a'| == |a| && root' + 1 == Ra(la, root + 1) && -1 <= root' <= root
    requires next' == next - (avbl - (root - root')) && next' <= next
    requires forall i :: 0 <= i <= next' || next < i < |a| ==> a'[i] == a[i]
    requires forall i :: next' < i <= next && 0 <= i ==> a'[i].key == d
    ensures Level(a', la, dep, d + 1, root + 1, root', next', 2 * (root - root'))
    ensures d > 0 ==> root + 1 < p
  {
    var n := |a|;
    LevelNodes(a, la, dep, d, p, root, next, avbl);
    forall t | 0 <= t < n - 1
      ensures LeavesDone(a', la, dep, t, next')
    {
      assert LeavesDone(a, la, dep, t, next);
      if t <= root {
        assert la[t + 1] <= la[root + 1];
      }
      if t > root && d > 0 && t >= p {
        assert la[p] <= la[t];
      }
    }
  }

  /** The code length of every leaf is one more than the depth of the node that took it. */
  ghost predicate LeafLengths(a: seq<nat>, la: seq<nat>, dep: seq<nat>)
    requires FullRecord(la, |a|) && |dep| == |a| - 1
  {
    forall t, i :: 0 <= t < |a| - 1 && la[t] <= i < la[t + 1] ==> a[i] == dep[t] + 1
  }

  lemma {:induction false} RaBelow(la: seq<nat>, n: nat, p: nat)
    requires FullRecord(la, n) && p < n
    ensures p == 0 || Ra(la, p) < p
  {
    if p > 0 {
      assert Takes(la, p - 1);
    }
  }

  lemma {:induction false} AllFilled(a: seq<SymFreq>, la: seq<nat>, dep: seq<nat>, d: nat, p: nat, root: int, next: int)
    requires FullRecord(la, |a|) && Level(a, la, dep, d, p, root, next, 0)
    ensures LeafLengths(Keys(a), la, dep)
  {
    RaBelow(la, |a|, p);
    forall t, i | 0 <= t < |a| - 1 && la[t] <= i < la[t + 1]
      ensures Keys(a)[i] == dep[t] + 1
    {
      assert LeavesDone(a, la, dep, t, next);
    }
  }

  /** The places of a level that its nodes leave free become leaves. */
  method FillLeaves(A: array<SymFreq>, next0: int, avbl0: int, used: int, dpth: nat) returns (next: int)
    requires used <= avbl0 && -1 <= next0 - (avbl0 - used) && next0 < A.Length && dpth < 65536
    modifies A
    ensures next == next0 - (avbl0 - used)
    ensures forall i :: 0 <= i <= next || next0 < i < A.Length ==> A[i] == old(A[i])
    ensures forall i :: next < i <= next0 ==> A[i].key == dpth && A[i].sym == old(A[i].sym)
  {
    next := next0;
    var avbl := avbl0;
    while avbl > used
      invariant avbl >= used && next0 - next == avbl0 - avbl
      invariant forall i :: 0 <= i <= next || next0 < i < A.Length ==> A[i] == old(A[i])
      invariant forall i :: next < i <= next0 ==> A[i].key == dpth && A[i].sym == old(A[i].sym)
    {
      A[next] := A[next].(key := dpth);
      next, avbl := next - 1, avbl - 1;
    }
  }

  /** One level: its nodes are counted, its other places become leaves. */
  method FillLevel(A: array<SymFreq>, dpth: nat, root0: int, next0: int, avbl: int, ghost la: seq<nat>,
                   ghost dep: seq<nat>, ghost p: nat)
    returns (root: int, next: int, used: nat)
    requires 2 <= A.Length < 65536 && FullRecord(la, A.Length)
    requires Level(A[..], la, dep, dpth, p, root0, next0, avbl) && avbl > 0
    modifies A
    ensures Level(A[..], la, dep, dpth + 1, root0 + 1, root, next, 2 * used)
    ensures dpth > 0 ==> root0 + 1 < p
    ensures forall i :: 0 <= i < A.Length ==> A[i].sym == old(A[i].sym)
  {
    ghost var a := A[..];
    root, used := root0, 0;
    LevelNodes(a, la, dep, dpth, p, root, next0, avbl);
    while root >= 0 && A[root].key == dpth
      invariant Ra(la, root0 + 1) - 1 <= root <= root0 && used == root0 - root
    {
      used, root := used + 1, root - 1;
    }
    next := FillLeaves(A, next0, avbl, used, dpth);
    LevelFilled(a, A[..], la, dep, dpth, p, root0, next0, avbl, root, next);
  }

  method LeafDepths(A: array<SymFreq>, ghost la: seq<nat>) returns (ghost dep: seq<nat>)
    requires 2 <= A.Length < 65536 && FullRecord(la, A.Length) && PhaseTwo(A[..], la, A.Length, -1)
    modifies A
    ensures Depths(la, A.Length, dep) && LeafLengths(Keys(A[..]), la, dep)
    ensures forall i :: 0 <= i < A.Length ==> A[i].sym == old(A[i].sym)
  {
    var n := A.Length;
    var avbl, used, dpth := 1, 0, 0;
    var root, next := n - 2, n - 1;
    dep := Keys(A[..])[..n - 1];
    ghost var p: nat := n - 1;
    forall t | 0 <= t < n - 1
      ensures Takes(la, t) && ChildDepths(la, dep, t)
      ensures LeavesDone(A[..], la, dep, t, next)
    {
      assert Takes(la, t) && PointsOrDepths(A[..], la, t, -1);
      assert la[t + 1] <= la[n - 1];
      assert Ra(la, t + 1) <= Ra(la, n - 1);
    }
    while avbl > 0
      invariant 0 <= dpth && used == 0
      invariant Level(A[..], la, dep, dpth, p, root, next, avbl)
      invariant forall i :: 0 <= i < n ==> A[i].sym == old(A[i].sym)
      decreases p, if dpth == 0 then 1 else 0
    {
      ghost var root0 := root;
      root, next, used := FillLevel(A, dpth, root, next, avbl, la, dep, p);
      p := root0 + 1;
      avbl, dpth, used := 2 * used, dpth + 1, 0;
    }
    AllFilled(A[..], la, dep, dpth, p, root, next);
  }
}
