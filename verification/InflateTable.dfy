/**
 The two-level decode table of tinfl: a 10-bit look-up, and a tree for longer code words.
 Code words are abstract here: w[s] is the code word of symbol s, empty when s is unused.
 */
module InflateTable {
  import opened Bits

  const FAST_BITS := 10
  const FAST_SIZE := 1024
  const TREE_SIZE := 576

  ghost predicate PrefixFreeWords(w: seq<seq<bool>>)
  {
    forall s, t :: 0 <= s < |w| && 0 <= t < |w| && w[s] != [] && w[s] <= w[t] ==> s == t
  }

  ghost predicate ShortWords(w: seq<seq<bool>>)
  {
    forall s :: 0 <= s < |w| ==> |w[s]| <= 15
  }

  ghost predicate Readable(bits: seq<bool>, w: seq<seq<bool>>)
  {
    exists s :: 0 <= s < |w| && w[s] != [] && w[s] <= bits
  }

  ghost predicate Total(w: seq<seq<bool>>)
  {
    forall bits :: |bits| >= 15 ==> Readable(bits, w)
  }

  /** A negative entry e refers to the tree node for the bit string p. */
  ghost predicate NodeAt(e: int, nodes: seq<seq<bool>>, p: seq<bool>)
  {
    exists n :: 0 <= n < |nodes| && e == -1 - 2 * n && nodes[n] == p
  }

  ghost predicate LookEntry(e: int, b: seq<bool>, nodes: seq<seq<bool>>, w: seq<seq<bool>>, paths: seq<seq<bool>>)
  {
    && (e < 0 ==> NodeAt(e, nodes, b))
    && (e > 0 ==> e % 512 < |w| && w[e % 512] != [] && w[e % 512] <= b && |w[e % 512]| == e / 512)
    && (e == 0 ==> forall q :: q in paths && q != [] ==> !(q <= b) && !(b <= q))
  }

  ghost predicate TreeEntry(e: int, p: seq<bool>, nodes: seq<seq<bool>>, w: seq<seq<bool>>, paths: seq<seq<bool>>)
  {
    && (e < 0 ==> NodeAt(e, nodes, p))
    && (e > 0 ==> e < |w| && w[e] == p)
    && (e == 0 ==> (|w| > 0 && w[0] == p) || forall q :: q in paths ==> !(p <= q))
  }

  /** p is a proper beginning of a code word: an inner node of the code tree. */
  ghost predicate Inner(p: seq<bool>, w: seq<seq<bool>>)
  {
    exists s :: 0 <= s < |w| && p < w[s]
  }

  ghost predicate NodeOk(p: seq<bool>, w: seq<seq<bool>>, paths: seq<seq<bool>>)
  {
    && FAST_BITS <= |p|
    && Inner(p, w)
    && (exists q :: q in paths && p <= q)
  }

  ghost predicate Distinct<T>(s: seq<T>)
  {
    forall i, j :: 0 <= i < j < |s| ==> s[i] != s[j]
  }

  ghost predicate NodesOk(nodes: seq<seq<bool>>, w: seq<seq<bool>>, paths: seq<seq<bool>>)
  {
    Distinct(nodes) && forall n :: 0 <= n < |nodes| ==> NodeOk(nodes[n], w, paths)
  }

  /** The look-up slot that the low bits b select. */
  function At(look: seq<int>, b: seq<bool>): int
    requires |look| == FAST_SIZE && |b| == FAST_BITS
  {
    Index(b);
    look[FromBits(b)]
  }

  lemma {:induction false} Index(b: seq<bool>)
    requires |b| == FAST_BITS
    ensures FromBits(b) < FAST_SIZE
  {
  }

  ghost predicate LookOk(look: seq<int>, nodes: seq<seq<bool>>, w: seq<seq<bool>>, paths: seq<seq<bool>>)
  {
    |look| == FAST_SIZE && forall b: seq<bool> :: |b| == FAST_BITS ==> LookEntry(At(look, b), b, nodes, w, paths)
  }

  function Slot(n: nat, c: bool): nat { 2 * n + Bit(c) }

  ghost predicate TreeOk(tree: seq<int>, nodes: seq<seq<bool>>, w: seq<seq<bool>>, paths: seq<seq<bool>>)
  {
    && |tree| == TREE_SIZE
    && 2 * |nodes| <= TREE_SIZE
    && (forall n, c :: 0 <= n < |nodes| ==> TreeEntry(tree[Slot(n, c)], nodes[n] + [c], nodes, w, paths))
    && (forall i :: 2 * |nodes| <= i < TREE_SIZE ==> tree[i] == 0)
  }

  /**
   What holds while the table is filled: paths lists the code words entered so far, the last
   of them possibly only in part.
   */
  ghost predicate Inv(look: seq<int>, tree: seq<int>, nodes: seq<seq<bool>>, w: seq<seq<bool>>, paths: seq<seq<bool>>)
  {
    && LookOk(look, nodes, w, paths)
    && TreeOk(tree, nodes, w, paths)
    && NodesOk(nodes, w, paths)
  }

  // ---- growing one part at a time

  lemma {:induction false} NodeAtGrows(e: int, nodes: seq<seq<bool>>, p: seq<bool>, more: seq<seq<bool>>)
    requires NodeAt(e, nodes, p)
    ensures NodeAt(e, nodes + more, p)
  {
    var n :| 0 <= n < |nodes| && e == -1 - 2 * n && nodes[n] == p;
    assert (nodes + more)[n] == p;
  }

  /** Two code words at the front of one string are the same symbol's. */
  lemma {:induction false} OneWord(w: seq<seq<bool>>, s: nat, t: nat, c: seq<bool>)
    requires PrefixFreeWords(w)
    requires s < |w| && t < |w| && w[s] != [] && w[t] != []
    requires w[s] <= c && w[t] <= c
    ensures s == t
  {
    var (short, long) := if |w[s]| <= |w[t]| then (s, t) else (t, s);
    assert w[short] <= w[long];
  }

  /** A proper beginning of a code word is not at or below another one. */
  lemma {:induction false} NotInside(w: seq<seq<bool>>, s: nat, t: nat, p: seq<bool>)
    requires PrefixFreeWords(w) && s < |w| && t < |w| && w[s] != [] && p < w[t]
    ensures !(w[s] <= p)
  {
  }

  /** A node is never at or below a code word. */
  lemma {:induction false} NodeAboveWords(e: int, p: seq<bool>, nodes: seq<seq<bool>>, w: seq<seq<bool>>,
                                          paths: seq<seq<bool>>, s: nat)
    requires PrefixFreeWords(w) && NodesOk(nodes, w, paths)
    requires NodeAt(e, nodes, p)
    requires s < |w| && w[s] != []
    ensures !(w[s] <= p)
  {
    var n :| 0 <= n < |nodes| && e == -1 - 2 * n && nodes[n] == p;
    assert NodeOk(nodes[n], w, paths);
    var t :| 0 <= t < |w| && p < w[t];
    NotInside(w, s, t, p);
  }

  /** The look-up entry for a string that a path starts with, or continues. */
  lemma {:induction false} LookFinds(e: int, b: seq<bool>, nodes: seq<seq<bool>>, w: seq<seq<bool>>,
                                     paths: seq<seq<bool>>, s: nat)
    requires PrefixFreeWords(w) && |w| <= 512
    requires LookEntry(e, b, nodes, w, paths) && NodesOk(nodes, w, paths)
    requires s < |w| && w[s] != [] && (w[s] <= b || b < w[s])
    requires e == 0 ==> w[s] in paths
    ensures w[s] <= b ==> e == 512 * |w[s]| + s
    ensures b < w[s] ==> NodeAt(e, nodes, b) && e < 0
  {
    if e > 0 {
      OneWord(w, e % 512, s, if b < w[s] then w[s] else b);
    } else if e < 0 {
      NodeAboveWords(e, b, nodes, w, paths, s);
    }
  }

  /** The tree entry for a string that a code word starts with. */
  lemma {:induction false} TreeFinds(e: int, p: seq<bool>, nodes: seq<seq<bool>>, w: seq<seq<bool>>,
                                     paths: seq<seq<bool>>, s: nat)
    requires PrefixFreeWords(w)
    requires TreeEntry(e, p, nodes, w, paths) && NodesOk(nodes, w, paths)
    requires s < |w| && p != [] && p <= w[s]
    requires e == 0 ==> w[s] in paths
    ensures p == w[s] ==> e == s
    ensures p < w[s] ==> NodeAt(e, nodes, p) && e < 0
  {
    if e < 0 {
      NodeAboveWords(e, p, nodes, w, paths, s);
    } else if e < |w| && w[e] == p {
      OneWord(w, e, s, w[s]);
    }
  }

  /** A new path of at most |b| bits that b does not start with. */
  lemma {:induction false} LookKeeps(e: int, b: seq<bool>, nodes: seq<seq<bool>>, w: seq<seq<bool>>,
                                     paths: seq<seq<bool>>, q: seq<bool>)
    requires LookEntry(e, b, nodes, w, paths) && |q| <= |b| && !(q <= b)
    ensures LookEntry(e, b, nodes, w, paths + [q])
  {
    assert b <= q ==> b == q;
  }

  /** Entering a code word of at most 10 bits. */
  lemma {:induction false} GrowShort(look: seq<int>, look': seq<int>, tree: seq<int>, nodes: seq<seq<bool>>,
                                     w: seq<seq<bool>>, paths: seq<seq<bool>>, s: nat)
    requires Inv(look, tree, nodes, w, paths) && s < |w| <= 512 && 0 < |w[s]| <= FAST_BITS
    requires |look'| == FAST_SIZE
    requires forall b: seq<bool> :: |b| == FAST_BITS ==> At(look', b) == if w[s] <= b then 512 * |w[s]| + s
      else At(look, b)
    ensures Inv(look', tree, nodes, w, paths + [w[s]])
  {
    var paths' := paths + [w[s]];
    forall b: seq<bool> | |b| == FAST_BITS
      ensures LookEntry(At(look', b), b, nodes, w, paths')
    {
      assert LookEntry(At(look, b), b, nodes, w, paths);
      if w[s] <= b {
        Packed(|w[s]|, s);
      } else {
        LookKeeps(At(look, b), b, nodes, w, paths, w[s]);
      }
    }
    TreeKeeps(tree, nodes, w, paths, paths');
    NodesKeep(nodes, w, paths, w[s]);
  }

  lemma {:induction false} Packed(l: nat, s: nat)
    requires s < 512
    ensures (512 * l + s) % 512 == s && (512 * l + s) / 512 == l
  {
  }

  lemma {:induction false} TreeKeeps(tree: seq<int>, nodes: seq<seq<bool>>, w: seq<seq<bool>>, paths: seq<seq<bool>>,
                                     paths': seq<seq<bool>>)
    requires TreeOk(tree, nodes, w, paths) && NodesOk(nodes, w, paths)
    requires forall q :: q in paths' ==> q in paths || |q| <= FAST_BITS
    ensures TreeOk(tree, nodes, w, paths')
  {
    forall n, c | 0 <= n < |nodes|
      ensures TreeEntry(tree[Slot(n, c)], nodes[n] + [c], nodes, w, paths')
    {
      assert NodeOk(nodes[n], w, paths);
    }
  }

  lemma {:induction false} NodesKeep(nodes: seq<seq<bool>>, w: seq<seq<bool>>, paths: seq<seq<bool>>, q: seq<bool>)
    requires NodesOk(nodes, w, paths)
    ensures NodesOk(nodes, w, paths + [q])
  {
    forall n | 0 <= n < |nodes|
      ensures NodeOk(nodes[n], w, paths + [q])
    {
      assert NodeOk(nodes[n], w, paths);
      var r :| r in paths && nodes[n] <= r;
      assert r in paths + [q];
    }
  }

  // ---- entering a longer code word: down from the look-up slot, one bit at a time

  /** Paths grow at their end: q continues the last entered path. */
  lemma {:induction false} LookExtends(e: int, b: seq<bool>, nodes: seq<seq<bool>>, w: seq<seq<bool>>,
                                       base: seq<seq<bool>>, p: seq<bool>, q: seq<bool>)
    requires LookEntry(e, b, nodes, w, base + [p]) && 0 < |b| <= |p| && p <= q
    ensures LookEntry(e, b, nodes, w, base + [q])
  {
    if e == 0 {
      assert p in base + [p];
      assert b <= q ==> b <= p;
      assert p != [] && q <= b ==> p <= b;
      forall r | r in base + [q] && r != []
        ensures !(r <= b) && !(b <= r)
      {
        if r in base {
          assert r in base + [p];
        }
      }
    }
  }

  lemma {:induction false} TreeExtends(e: int, r: seq<bool>, nodes: seq<seq<bool>>, w: seq<seq<bool>>,
                                       base: seq<seq<bool>>, p: seq<bool>, q: seq<bool>)
    requires TreeEntry(e, r, nodes, w, base + [p]) && p <= q && |q| == |p| + 1 && r != q
    ensures TreeEntry(e, r, nodes, w, base + [q])
  {
    assert r <= q ==> r <= p;
    assert p in base + [p];
    assert forall x :: x in base ==> x in base + [p];
  }

  lemma {:induction false} NodesExtend(nodes: seq<seq<bool>>, w: seq<seq<bool>>, base: seq<seq<bool>>, p: seq<bool>,
                                       q: seq<bool>)
    requires NodesOk(nodes, w, base + [p]) && p <= q
    ensures NodesOk(nodes, w, base + [q])
  {
    forall n | 0 <= n < |nodes|
      ensures NodeOk(nodes[n], w, base + [q])
    {
      assert NodeOk(nodes[n], w, base + [p]);
      var r :| r in base + [p] && nodes[n] <= r;
      var r' := if r in base then r else q;
      assert r' in base + [q] && nodes[n] <= r';
    }
  }

  /** A string with an empty tree entry has no node yet. */
  lemma {:induction false} NoNode(p: seq<bool>, nodes: seq<seq<bool>>, w: seq<seq<bool>>, paths: seq<seq<bool>>)
    requires NodesOk(nodes, w, paths)
    requires forall q :: q in paths ==> !(p <= q)
    ensures p !in nodes
  {
    forall n | 0 <= n < |nodes|
      ensures nodes[n] != p
    {
      assert NodeOk(nodes[n], w, paths);
    }
  }

  lemma {:induction false} AddNode(nodes: seq<seq<bool>>, p: seq<bool>, w: seq<seq<bool>>, paths: seq<seq<bool>>,
                                   s: nat)
    requires NodesOk(nodes, w, paths) && p !in nodes
    requires s < |w| && FAST_BITS <= |p| && p < w[s] && p in paths
    ensures NodesOk(nodes + [p], w, paths)
  {
    assert NodeOk(p, w, paths);
  }

  lemma {:induction false} LookMoreNodes(e: int, b: seq<bool>, nodes: seq<seq<bool>>, p: seq<bool>, w: seq<seq<bool>>,
                                         paths: seq<seq<bool>>)
    requires LookEntry(e, b, nodes, w, paths)
    ensures LookEntry(e, b, nodes + [p], w, paths)
  {
    if e < 0 {
      NodeAtGrows(e, nodes, b, [p]);
    }
  }

  lemma {:induction false} TreeMoreNodes(e: int, r: seq<bool>, nodes: seq<seq<bool>>, p: seq<bool>, w: seq<seq<bool>>,
                                         paths: seq<seq<bool>>)
    requires TreeEntry(e, r, nodes, w, paths)
    ensures TreeEntry(e, r, nodes + [p], w, paths)
  {
    if e < 0 {
      NodeAtGrows(e, nodes, r, [p]);
    }
  }

  /** The tree after a node for p was added; the new node's two entries are empty. */
  lemma {:induction false} TreeAddNode(tree: seq<int>, nodes: seq<seq<bool>>, p: seq<bool>, w: seq<seq<bool>>,
                                       paths: seq<seq<bool>>)
    requires TreeOk(tree, nodes, w, paths) && 2 * |nodes| + 2 <= TREE_SIZE
    requires forall q :: q in paths ==> |q| <= |p| || !(p <= q)
    ensures TreeOk(tree, nodes + [p], w, paths)
  {
    var nodes' := nodes + [p];
    forall n, c | 0 <= n < |nodes'|
      ensures TreeEntry(tree[Slot(n, c)], nodes'[n] + [c], nodes', w, paths)
    {
      if n < |nodes| {
        TreeMoreNodes(tree[Slot(n, c)], nodes[n] + [c], nodes, p, w, paths);
      } else {
        assert (p + [c])[..|p|] == p;
      }
    }
  }

  lemma {:induction false} IndexInjective(a: seq<bool>, b: seq<bool>)
    requires |a| == |b| && FromBits(a) == FromBits(b)
    ensures a == b
  {
    ToFrom(a);
    ToFrom(b);
  }

  /** Setting the one tree entry for q, the last path growing from p to q. */
  lemma {:induction false} TreeSetEntry(tree: seq<int>, nodes: seq<seq<bool>>, w: seq<seq<bool>>, base: seq<seq<bool>>,
                                        p: seq<bool>, bit: bool, n: nat, e: int)
    requires TreeOk(tree, nodes, w, base + [p]) && Distinct(nodes)
    requires n < |nodes| && nodes[n] == p
    requires TreeEntry(e, p + [bit], nodes, w, base + [p + [bit]])
    ensures TreeOk(tree[Slot(n, bit) := e], nodes, w, base + [p + [bit]])
  {
    var q := p + [bit];
    var tree' := tree[Slot(n, bit) := e];
    forall m, c | 0 <= m < |nodes|
      ensures TreeEntry(tree'[Slot(m, c)], nodes[m] + [c], nodes, w, base + [q])
    {
      if Slot(m, c) != Slot(n, bit) {
        OtherLabel(nodes, n, bit, m, c);
        TreeExtends(tree[Slot(m, c)], nodes[m] + [c], nodes, w, base, p, q);
      }
    }
  }

  lemma {:induction false} OtherLabel(nodes: seq<seq<bool>>, n: nat, b: bool, m: nat, c: bool)
    requires Distinct(nodes) && n < |nodes| && m < |nodes| && Slot(m, c) != Slot(n, b)
    ensures nodes[m] + [c] != nodes[n] + [b]
  {
    assert (nodes[m] + [c])[..|nodes[m]|] == nodes[m] && (nodes[m] + [c])[|nodes[m]|] == c;
    assert (nodes[n] + [b])[..|nodes[n]|] == nodes[n] && (nodes[n] + [b])[|nodes[n]|] == b;
  }

  /** Starting down a longer code word at a look-up slot that is in use, or gets its first node. */
  lemma {:induction false} EnterRoot(look: seq<int>, tree: seq<int>, nodes: seq<seq<bool>>, w: seq<seq<bool>>,
                                     base: seq<seq<bool>>, s: nat)
    returns (b: seq<bool>, look': seq<int>, nodes': seq<seq<bool>>)
    requires PrefixFreeWords(w) && |w| <= 512 && Inv(look, tree, nodes, w, base)
    requires s < |w| && FAST_BITS < |w[s]|
    requires At(look, w[s][..FAST_BITS]) == 0 ==> 2 * |nodes| + 2 <= TREE_SIZE
    ensures b == w[s][..FAST_BITS] && FromBits(b) < FAST_SIZE
    ensures At(look, b) == 0 ==> nodes' == nodes + [b] && look' == look[FromBits(b) := -1 - 2 * |nodes|]
    ensures At(look, b) != 0 ==> nodes' == nodes && look' == look && NodeAt(At(look, b), nodes, b)
    ensures Inv(look', tree, nodes', w, base + [b])
  {
    b := w[s][..FAST_BITS];
    Index(b);
    TreeKeeps(tree, nodes, w, base, base + [b]);
    NodesKeep(nodes, w, base, b);
    if At(look, b) == 0 {
      nodes' := nodes + [b];
      look' := look[FromBits(b) := -1 - 2 * |nodes|];
      assert LookEntry(At(look, b), b, nodes, w, base);
      TreeAddNode(tree, nodes, b, w, base + [b]);
      NoNode(b, nodes, w, base);
      AddNode(nodes, b, w, base + [b], s);
      assert nodes'[|nodes|] == b;
    } else {
      nodes', look' := nodes, look;
      assert LookEntry(At(look, b), b, nodes, w, base);
      LookFinds(At(look, b), b, nodes, w, base, s);
    }
    forall c: seq<bool> | |c| == FAST_BITS
      ensures LookEntry(At(look', c), c, nodes', w, base + [b])
    {
      EnterRootLook(look, nodes, w, base, b, c, look', nodes');
    }
  }

  lemma {:induction false} EnterRootLook(look: seq<int>, nodes: seq<seq<bool>>, w: seq<seq<bool>>, base: seq<seq<bool>>,
                                         b: seq<bool>, c: seq<bool>, look': seq<int>, nodes': seq<seq<bool>>)
    requires LookOk(look, nodes, w, base) && |b| == |c| == FAST_BITS && |look'| == FAST_SIZE
    requires NodeAt(At(look', b), nodes', b) && At(look', b) < 0
    requires nodes' == nodes || nodes' == nodes + [b]
    requires forall i :: 0 <= i < FAST_SIZE && i != FromBits(b) ==> look'[i] == look[i]
    ensures LookEntry(At(look', c), c, nodes', w, base + [b])
  {
    if c != b {
      if FromBits(b) == FromBits(c) {
        IndexInjective(b, c);
      }
      LookKeeps(At(look, c), c, nodes, w, base, b);
      LookMoreNodes(At(look, c), c, nodes, b, w, base + [b]);
    }
  }

  /** One bit down a longer code word: to the child that is there, or gets its node. */
  lemma {:induction false} EnterChild(look: seq<int>, tree: seq<int>, nodes: seq<seq<bool>>, w: seq<seq<bool>>,
                                      base: seq<seq<bool>>, s: nat, d: nat, n: nat)
    returns (q: seq<bool>, tree': seq<int>, nodes': seq<seq<bool>>)
    requires PrefixFreeWords(w) && |w| <= 512
    requires s < |w| && FAST_BITS <= d && d + 1 < |w[s]|
    requires Inv(look, tree, nodes, w, base + [w[s][..d]])
    requires n < |nodes| && nodes[n] == w[s][..d]
    requires tree[Slot(n, w[s][d])] == 0 ==> 2 * |nodes| + 2 <= TREE_SIZE
    ensures q == w[s][..d + 1]
    ensures tree[Slot(n, w[s][d])] == 0 ==> nodes' == nodes + [q] && tree' == tree[Slot(n, w[s][d]) := -1 - 2 * |nodes|]
    ensures tree[Slot(n, w[s][d])] != 0 ==> nodes' == nodes && tree' == tree && NodeAt(tree[Slot(n, w[s][d])], nodes, q)
    ensures Inv(look, tree', nodes', w, base + [q])
  {
    var p := w[s][..d];
    var e := tree[Slot(n, w[s][d])];
    q := w[s][..d + 1];
    assert q == p + [w[s][d]];
    assert TreeEntry(e, nodes[n] + [w[s][d]], nodes, w, base + [p]);
    if e == 0 {
      nodes' := nodes + [q];
      tree' := tree[Slot(n, w[s][d]) := -1 - 2 * |nodes|];
      NewChild(tree, nodes, w, base, s, p, w[s][d], n);
    } else {
      TreeFinds(e, q, nodes, w, base + [p], s);
      NodesExtend(nodes, w, base, p, q);
      nodes', tree' := nodes, tree[Slot(n, w[s][d]) := e];
      TreeSetEntry(tree, nodes, w, base, p, w[s][d], n, e);
    }
    LookGoesOn(look, nodes, w, base, p, q, nodes');
  }

  lemma {:induction false} NewChild(tree: seq<int>, nodes: seq<seq<bool>>, w: seq<seq<bool>>, base: seq<seq<bool>>,
                                    s: nat, p: seq<bool>, bit: bool, n: nat)
    requires PrefixFreeWords(w) && TreeOk(tree, nodes, w, base + [p]) && NodesOk(nodes, w, base + [p])
    requires s < |w| && p + [bit] < w[s]
    requires n < |nodes| && nodes[n] == p && tree[Slot(n, bit)] == 0 && 2 * |nodes| + 2 <= TREE_SIZE
    ensures TreeOk(tree[Slot(n, bit) := -1 - 2 * |nodes|], nodes + [p + [bit]], w, base + [p + [bit]])
    ensures NodesOk(nodes + [p + [bit]], w, base + [p + [bit]])
  {
    var q := p + [bit];
    assert TreeEntry(tree[Slot(n, bit)], nodes[n] + [bit], nodes, w, base + [p]);
    assert NodeOk(nodes[n], w, base + [p]);
    EmptyChild(q, nodes, w, base + [p], s);
    TreeAddNode(tree, nodes, q, w, base + [p]);
    NodesExtend(nodes, w, base, p, q);
    AddNode(nodes, q, w, base + [q], s);
    assert (nodes + [q])[n] == p && (nodes + [q])[|nodes|] == q;
    TreeSetEntry(tree, nodes + [q], w, base, p, bit, n, -1 - 2 * |nodes|);
  }

  /** An empty entry under a node: nothing there yet. */
  lemma {:induction false} EmptyChild(q: seq<bool>, nodes: seq<seq<bool>>, w: seq<seq<bool>>, paths: seq<seq<bool>>,
                                      s: nat)
    requires PrefixFreeWords(w) && NodesOk(nodes, w, paths) && q != []
    requires TreeEntry(0, q, nodes, w, paths)
    requires s < |w| && q < w[s]
    ensures q !in nodes
    ensures forall r :: r in paths ==> !(q <= r)
  {
    if w[0] == q {
      OneWord(w, 0, s, w[s]);
    }
    NoNode(q, nodes, w, paths);
  }

  lemma {:induction false} LookGoesOn(look: seq<int>, nodes: seq<seq<bool>>, w: seq<seq<bool>>, base: seq<seq<bool>>,
                                      p: seq<bool>, q: seq<bool>, nodes': seq<seq<bool>>)
    requires LookOk(look, nodes, w, base + [p]) && FAST_BITS <= |p| && p <= q
    requires nodes' == nodes || nodes' == nodes + [q]
    ensures LookOk(look, nodes', w, base + [q])
  {
    forall b: seq<bool> | |b| == FAST_BITS
      ensures LookEntry(At(look, b), b, nodes', w, base + [q])
    {
      LookExtends(At(look, b), b, nodes, w, base, p, q);
      LookMoreNodes(At(look, b), b, nodes, q, w, base + [q]);
    }
  }

  /** The last bit of a longer code word: its symbol goes into the tree. */
  lemma {:induction false} EnterLeaf(look: seq<int>, tree: seq<int>, nodes: seq<seq<bool>>, w: seq<seq<bool>>,
                                     base: seq<seq<bool>>, s: nat, d: nat, n: nat)
    requires s < |w| && FAST_BITS <= d && d + 1 == |w[s]|
    requires Inv(look, tree, nodes, w, base + [w[s][..d]])
    requires n < |nodes| && nodes[n] == w[s][..d]
    ensures Inv(look, tree[Slot(n, w[s][d]) := s], nodes, w, base + [w[s]])
  {
    var p := w[s][..d];
    assert w[s] == p + [w[s][d]];
    NodesExtend(nodes, w, base, p, w[s]);
    TreeSetEntry(tree, nodes, w, base, p, w[s][d], n, s);
    LookGoesOn(look, nodes, w, base, p, w[s], nodes);
  }

  // ---- the tree never outgrows its array

  lemma {:induction false} DistinctBelow(f: seq<nat>, n: nat)
    requires Distinct(f) && forall i :: 0 <= i < |f| ==> f[i] < n
    ensures |f| <= n
  {
    if f != [] {
      assert f[0] < n;
      if i :| 0 <= i < |f| && f[i] == n - 1 {
        var g := f[..i] + f[i + 1..];
        assert forall j :: 0 <= j < |g| ==> g[j] == f[if j < i then j else j + 1];
        DistinctBelow(g, n - 1);
      } else {
        DistinctBelow(f, n - 1);
      }
    }
  }

  /** The word reached from p by one 0 bit and then 1 bits only. */
  ghost predicate LastOnLeft(p: seq<bool>, x: seq<bool>)
  {
    |p| < |x| && p <= x && !x[|p|] && forall i :: |p| < i < |x| ==> x[i]
  }

  lemma {:induction false} LeftLeaf(p: seq<bool>, w: seq<seq<bool>>) returns (s: nat)
    requires PrefixFreeWords(w) && Total(w)
    requires Inner(p, w)
    ensures s < |w| && LastOnLeft(p, w[s])
  {
    var t :| 0 <= t < |w| && p < w[t];
    var bits := p + [false] + seq(15, _ => true);
    assert Readable(bits, w);
    s :| 0 <= s < |w| && w[s] != [] && w[s] <= bits;
    hide PrefixFreeWords, Total, Readable;
    NotInside(w, s, t, p);
    ThenOnes(p, w[s], bits);
  }

  lemma {:induction false} ThenOnes(p: seq<bool>, x: seq<bool>, bits: seq<bool>)
    requires bits == p + [false] + seq(15, _ => true) && x <= bits && !(x <= p)
    ensures LastOnLeft(p, x)
  {
    assert p == bits[..|p|];
    assert x == bits[..|x|];
  }

  lemma {:induction false} LeftLeaves(ns: seq<seq<bool>>, w: seq<seq<bool>>) returns (f: seq<nat>)
    requires PrefixFreeWords(w) && Total(w)
    requires forall i :: 0 <= i < |ns| ==> Inner(ns[i], w)
    ensures |f| == |ns|
    ensures forall i :: 0 <= i < |f| ==> f[i] < |w| && LastOnLeft(ns[i], w[f[i]])
  {
    hide PrefixFreeWords, Total, LastOnLeft, Inner;
    f := [];
    for k := 0 to |ns|
      invariant |f| == k
      invariant forall i :: 0 <= i < k ==> f[i] < |w| && LastOnLeft(ns[i], w[f[i]])
    {
      var s := LeftLeaf(ns[k], w);
      f := f + [s];
    }
  }

  /** Different inner nodes have different last-on-left words: a complete code has fewer nodes than words. */
  lemma {:induction false} FewNodes(ns: seq<seq<bool>>, w: seq<seq<bool>>)
    requires PrefixFreeWords(w) && Total(w) && Distinct(ns)
    requires forall i :: 0 <= i < |ns| ==> Inner(ns[i], w)
    ensures |ns| <= |w|
  {
    var f := LeftLeaves(ns, w);
    forall i, j | 0 <= i < j < |f|
      ensures f[i] != f[j]
    {
      if f[i] == f[j] {
        SameLeft(ns[i], ns[j], w[f[i]]);
      }
    }
    DistinctBelow(f, |w|);
  }

  lemma {:induction false} SameLeft(p: seq<bool>, q: seq<bool>, x: seq<bool>)
    requires LastOnLeft(p, x) && LastOnLeft(q, x)
    ensures p == q
  {
    assert |p| == |q| by {
      assert !x[|p|] && !x[|q|];
    }
  }

  /** A table with a single code word: the nodes are cuts of that word. */
  lemma {:induction false} FewCuts(ns: seq<seq<bool>>, x: seq<bool>)
    requires Distinct(ns) && |x| <= 15
    requires forall i :: 0 <= i < |ns| ==> ns[i] < x
    ensures |ns| <= 15
  {
    var f := seq(|ns|, i requires 0 <= i < |ns| => |ns[i]|);
    forall i, j | 0 <= i < j < |f|
      ensures f[i] != f[j]
    {
      assert ns[i] == x[..|ns[i]|] && ns[j] == x[..|ns[j]|];
    }
    DistinctBelow(f, 15);
  }

  /** At most one symbol has a code word. */
  ghost predicate Single(w: seq<seq<bool>>)
  {
    forall s, t :: 0 <= s < |w| && 0 <= t < |w| && w[s] != [] && w[t] != [] ==> s == t
  }

  /** Before a node is added there is room for it. */
  lemma {:induction false} NodeRoom(nodes: seq<seq<bool>>, w: seq<seq<bool>>, paths: seq<seq<bool>>, p: seq<bool>,
                                    s: nat)
    requires PrefixFreeWords(w) && ShortWords(w) && |w| <= 288 && (Total(w) || Single(w))
    requires NodesOk(nodes, w, paths) && p !in nodes && s < |w| && p < w[s]
    ensures 2 * |nodes| + 2 <= TREE_SIZE
  {
    var ns := nodes + [p];
    forall i | 0 <= i < |ns|
      ensures Inner(ns[i], w)
    {
      if i < |nodes| {
        assert NodeOk(nodes[i], w, paths);
      }
    }
    if Total(w) {
      FewNodes(ns, w);
    } else {
      FewCuts(ns, w[s]);
    }
  }
}
