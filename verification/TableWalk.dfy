/** What a decode table of tinfl makes of a bit string. */
module TableWalks {
  import opened Bits
  import opened InflateTable
  import opened HuffTables

  /** Down the tree from entry e, after d bits of y. */
  function Walk(tree: seq<int>, y: seq<bool>, e: int, d: nat): (r: (int, nat))
    requires |tree| == TREE_SIZE && d <= |y|
    ensures d <= r.1 <= |y|
    decreases |y| - d
  {
    if e >= 0 || d == |y| then (e, d)
    else
      var i := -e - 1 + Bit(y[d]);
      if i < TREE_SIZE then Walk(tree, y, tree[i], d + 1) else (e, d)
  }

  /** A symbol and the length of its code word. */
  function LookUp(look: seq<int>, tree: seq<int>, y: seq<bool>): (int, nat)
    requires |look| == FAST_SIZE && |tree| == TREE_SIZE && |y| >= FAST_BITS
  {
    var e := At(look, y[..FAST_BITS]);
    if e >= 0 then (e % 512, e / 512) else Walk(tree, y, e, FAST_BITS)
  }

  /** The table holds all of the words. */
  ghost predicate Full(look: seq<int>, tree: seq<int>, nodes: seq<seq<bool>>, w: seq<seq<bool>>)
  {
    GoodWords(w) && Inv(look, tree, nodes, w, w)
  }

  /** One step down from the node for y[..d]. */
  lemma {:induction false} Step(look: seq<int>, tree: seq<int>, nodes: seq<seq<bool>>, w: seq<seq<bool>>, y: seq<bool>,
                                e: int, d: nat)
    requires Full(look, tree, nodes, w) && e < 0 && d < |y| && NodeAt(e, nodes, y[..d])
    ensures 0 <= -e - 1 + Bit(y[d]) < TREE_SIZE && d <= 14
    ensures TreeEntry(tree[-e - 1 + Bit(y[d])], y[..d + 1], nodes, w, w)
  {
    hide LookOk, TreeEntry, PrefixFreeWords;
    var n :| 0 <= n < |nodes| && e == -1 - 2 * n && nodes[n] == y[..d];
    NodeShort(nodes[n], w);
    assert TreeEntry(tree[Slot(n, y[d])], nodes[n] + [y[d]], nodes, w, w);
    assert y[..d] + [y[d]] == y[..d + 1];
  }

  lemma {:induction false} NodeShort(p: seq<bool>, w: seq<seq<bool>>)
    requires NodeOk(p, w, w) && ShortWords(w)
    ensures |p| <= 14
  {
  }

  /** The walk follows a code word to its end. */
  lemma {:induction false} WalkFinds(look: seq<int>, tree: seq<int>, nodes: seq<seq<bool>>, w: seq<seq<bool>>,
                                     y: seq<bool>, e: int, d: nat, s: nat)
    requires Full(look, tree, nodes, w) && |tree| == TREE_SIZE && e < 0 && s < |w| && w[s] <= y && d < |w[s]|
      && NodeAt(e, nodes, y[..d])
    ensures Walk(tree, y, e, d) == (s, |w[s]|)
    decreases |y| - d
  {
    hide LookOk, TreeOk, TreeEntry, NodeAt, NodesOk;
    Step(look, tree, nodes, w, y, e, d);
    var p := y[..d + 1];
    assert y[..|w[s]|] == w[s];
    assert p <= w[s];
    TreeFinds(tree[-e - 1 + Bit(y[d])], p, nodes, w, w, s);
    if d + 1 < |w[s]| {
      assert p < w[s];
      WalkFinds(look, tree, nodes, w, y, tree[-e - 1 + Bit(y[d])], d + 1, s);
    } else {
      assert p == w[s];
    }
  }

  /** On a proper beginning of a code word the walk does not come to an end. */
  lemma {:induction false} WalkStays(look: seq<int>, tree: seq<int>, nodes: seq<seq<bool>>, w: seq<seq<bool>>,
                                     y: seq<bool>, e: int, d: nat, s: nat)
    requires Full(look, tree, nodes, w) && |tree| == TREE_SIZE && e < 0 && s < |w| && y < w[s] && d <= |y|
      && NodeAt(e, nodes, y[..d])
    ensures Walk(tree, y, e, d).0 < 0
    decreases |y| - d
  {
    hide LookOk, TreeOk, TreeEntry, NodeAt, NodesOk;
    if d < |y| {
      Step(look, tree, nodes, w, y, e, d);
      var p := y[..d + 1];
      assert p < w[s];
      TreeFinds(tree[-e - 1 + Bit(y[d])], p, nodes, w, w, s);
      WalkStays(look, tree, nodes, w, y, tree[-e - 1 + Bit(y[d])], d + 1, s);
    }
  }

  /** Whatever the bits are, the walk stays in the tree, and on fifteen of them it ends. */
  lemma {:induction false} WalkEnds(look: seq<int>, tree: seq<int>, nodes: seq<seq<bool>>, w: seq<seq<bool>>,
                                    y: seq<bool>, e: int, d: nat)
    requires Full(look, tree, nodes, w) && |tree| == TREE_SIZE && |y| >= 15 && d <= 15
    requires if e < 0 then NodeAt(e, nodes, y[..d]) && d < 15 else e == 0 || e < |w|
    ensures var r := Walk(tree, y, e, d); 0 <= r.0 && (r.0 == 0 || r.0 < |w|) && r.1 <= 15
    decreases |y| - d
  {
    hide LookOk, TreeOk, NodesOk;
    if e < 0 {
      Step(look, tree, nodes, w, y, e, d);
      var e2 := tree[-e - 1 + Bit(y[d])];
      if e2 < 0 && d + 1 == 15 {
        NodeDepth(look, tree, nodes, w, y[..15], e2);
      }
      WalkEnds(look, tree, nodes, w, y, e2, d + 1);
    }
  }

  lemma {:induction false} NodeDepth(look: seq<int>, tree: seq<int>, nodes: seq<seq<bool>>, w: seq<seq<bool>>,
                                     p: seq<bool>, e: int)
    requires Full(look, tree, nodes, w) && NodeAt(e, nodes, p)
    ensures |p| < 15
  {
    var n :| 0 <= n < |nodes| && e == -1 - 2 * n && nodes[n] == p;
    assert NodeOk(nodes[n], w, w);
  }

  /** More bits do not change where the walk ends. */
  lemma {:induction false} WalkLonger(tree: seq<int>, y: seq<bool>, k: nat, e: int, d: nat)
    requires |tree| == TREE_SIZE && d <= k <= |y| && Walk(tree, y[..k], e, d).0 >= 0
    ensures Walk(tree, y, e, d) == Walk(tree, y[..k], e, d)
    decreases k - d
  {
    if e < 0 && d < k && -e - 1 + Bit(y[d]) < TREE_SIZE {
      WalkLonger(tree, y, k, tree[-e - 1 + Bit(y[d])], d + 1);
    }
  }

  /** The look-up slot for the front of y, when code word s is compatible with it. */
  lemma {:induction false} SlotFinds(look: seq<int>, tree: seq<int>, nodes: seq<seq<bool>>, w: seq<seq<bool>>,
                                     y: seq<bool>, s: nat)
    requires Full(look, tree, nodes, w) && |look| == FAST_SIZE && |y| >= FAST_BITS && s < |w| && w[s] != []
    requires w[s] <= y || y[..FAST_BITS] < w[s]
    ensures |w[s]| <= FAST_BITS ==> At(look, y[..FAST_BITS]) == 512 * |w[s]| + s
    ensures |w[s]| > FAST_BITS ==>
      At(look, y[..FAST_BITS]) < 0 && NodeAt(At(look, y[..FAST_BITS]), nodes, y[..FAST_BITS])
  {
    hide TreeOk, NodeAt, NodesOk;
    var b := y[..FAST_BITS];
    assert LookEntry(At(look, b), b, nodes, w, w);
    if w[s] <= y {
      assert y[..|w[s]|] == w[s];
      assert |w[s]| <= FAST_BITS ==> b[..|w[s]|] == w[s];
      assert |w[s]| > FAST_BITS ==> w[s][..FAST_BITS] == b;
    }
    LookFinds(At(look, b), b, nodes, w, w, s);
  }

  /** The table finds the code word that stands in front. */
  lemma {:induction false} LookUpFinds(look: seq<int>, tree: seq<int>, nodes: seq<seq<bool>>, w: seq<seq<bool>>,
                                       y: seq<bool>, s: nat)
    requires Full(look, tree, nodes, w) && |look| == FAST_SIZE && |tree| == TREE_SIZE && |y| >= FAST_BITS
    requires s < |w| && w[s] != [] && w[s] <= y
    ensures LookUp(look, tree, y) == (s, |w[s]|)
  {
    hide Full, NodeAt;
    SlotFinds(look, tree, nodes, w, y, s);
    if |w[s]| > FAST_BITS {
      WalkFinds(look, tree, nodes, w, y, At(look, y[..FAST_BITS]), FAST_BITS, s);
    } else {
      SymbolBelow(look, tree, nodes, w, s);
    }
  }

  lemma {:induction false} SymbolBelow(look: seq<int>, tree: seq<int>, nodes: seq<seq<bool>>, w: seq<seq<bool>>, s: nat)
    requires Full(look, tree, nodes, w) && s < |w|
    ensures s < 512
  {
  }

  lemma {:induction false} LookUpBounds(look: seq<int>, tree: seq<int>, nodes: seq<seq<bool>>, w: seq<seq<bool>>,
                                        y: seq<bool>)
    requires Full(look, tree, nodes, w) && |look| == FAST_SIZE && |tree| == TREE_SIZE && |y| >= 15
    ensures var r := LookUp(look, tree, y); 0 <= r.0 && (r.0 == 0 || r.0 < |w|) && r.1 <= 15
  {
    var b := y[..FAST_BITS];
    assert LookEntry(At(look, b), b, nodes, w, w);
    if At(look, b) < 0 {
      WalkEnds(look, tree, nodes, w, y, At(look, b), FAST_BITS);
    }
  }

  /** A symbol other than 0 comes only from its own code word. */
  lemma {:induction false} WalkSound(look: seq<int>, tree: seq<int>, nodes: seq<seq<bool>>, w: seq<seq<bool>>,
                                     y: seq<bool>, e: int, d: nat)
    requires Full(look, tree, nodes, w) && |tree| == TREE_SIZE && d <= |y|
    requires if e < 0 then NodeAt(e, nodes, y[..d]) else TreeEntry(e, y[..d], nodes, w, w)
    ensures var r := Walk(tree, y, e, d); r.0 > 0 ==> r.0 < |w| && w[r.0] == y[..r.1]
    decreases |y| - d
  {
    hide LookOk, TreeOk, NodesOk;
    if e < 0 && d < |y| {
      Step(look, tree, nodes, w, y, e, d);
      WalkSound(look, tree, nodes, w, y, tree[-e - 1 + Bit(y[d])], d + 1);
    }
  }

  lemma {:induction false} LookUpSound(look: seq<int>, tree: seq<int>, nodes: seq<seq<bool>>, w: seq<seq<bool>>,
                                       y: seq<bool>)
    requires Full(look, tree, nodes, w) && |look| == FAST_SIZE && |tree| == TREE_SIZE && |y| >= FAST_BITS
    ensures var r := LookUp(look, tree, y); r.0 > 0 ==> r.0 < |w| && w[r.0] != [] && w[r.0] <= y && |w[r.0]| == r.1
  {
    hide TreeOk, NodesOk, Walk;
    var b := y[..FAST_BITS];
    var e := At(look, b);
    assert LookEntry(e, b, nodes, w, w);
    if e < 0 {
      WalkSound(look, tree, nodes, w, y, e, FAST_BITS);
    }
  }

  // ---- how many bits are enough

  /** The test of TINFL_HUFF_BITBUF_FILL, with k real bits at the front of y. */
  ghost predicate Enough(look: seq<int>, tree: seq<int>, y: seq<bool>, k: nat)
    requires |look| == FAST_SIZE && |tree| == TREE_SIZE && |y| >= FAST_BITS && k <= |y|
  {
    var e := At(look, y[..FAST_BITS]);
    if e >= 0 then e / 512 != 0 && k >= e / 512
    else k > FAST_BITS && Walk(tree, y[..k], e, FAST_BITS).0 >= 0
  }

  lemma {:induction false} EnoughFits(look: seq<int>, tree: seq<int>, y: seq<bool>, k: nat)
    requires |look| == FAST_SIZE && |tree| == TREE_SIZE && |y| >= FAST_BITS && k <= |y| && Enough(look, tree, y, k)
    ensures LookUp(look, tree, y).1 <= k
  {
    var e := At(look, y[..FAST_BITS]);
    if e < 0 {
      WalkLonger(tree, y, k, e, FAST_BITS);
    }
  }

  /** A whole code word is enough. */
  lemma {:induction false} WholeIsEnough(look: seq<int>, tree: seq<int>, nodes: seq<seq<bool>>, w: seq<seq<bool>>,
                                         y: seq<bool>, k: nat, s: nat)
    requires Full(look, tree, nodes, w) && |look| == FAST_SIZE && |tree| == TREE_SIZE && |y| >= FAST_BITS && k <= |y|
    requires s < |w| && w[s] != [] && w[s] <= y[..k]
    ensures Enough(look, tree, y, k)
  {
    hide Full, NodeAt;
    assert w[s] <= y;
    SlotFinds(look, tree, nodes, w, y, s);
    if |w[s]| > FAST_BITS {
      assert y[..k][..FAST_BITS] == y[..FAST_BITS];
      WalkFinds(look, tree, nodes, w, y[..k], At(look, y[..FAST_BITS]), FAST_BITS, s);
    } else {
      SymbolBelow(look, tree, nodes, w, s);
    }
  }

  /** Part of a code word is not. */
  lemma {:induction false} PartIsNotEnough(look: seq<int>, tree: seq<int>, nodes: seq<seq<bool>>, w: seq<seq<bool>>,
                                           y: seq<bool>, k: nat, s: nat)
    requires Full(look, tree, nodes, w) && |look| == FAST_SIZE && |tree| == TREE_SIZE && |y| >= FAST_BITS && k <= |y|
    requires s < |w| && y[..k] < w[s]
    ensures !Enough(look, tree, y, k)
  {
    hide TreeOk, NodesOk;
    var b := y[..FAST_BITS];
    var e := At(look, b);
    assert LookEntry(e, b, nodes, w, w);
    if e < 0 && k > FAST_BITS {
      assert y[..k][..FAST_BITS] == b;
      WalkStays(look, tree, nodes, w, y[..k], e, FAST_BITS, s);
    }
  }

  // ---- bits that are no code word

  /** Without a code word in front, the look-up slot is empty unless a longer code word begins with its bits. */
  lemma {:induction false} NoWordLook(look: seq<int>, tree: seq<int>, nodes: seq<seq<bool>>, w: seq<seq<bool>>,
                                      y: seq<bool>)
    requires Full(look, tree, nodes, w) && |look| == FAST_SIZE && |y| >= FAST_BITS
    requires forall s :: 0 <= s < |w| && w[s] != [] ==> !(w[s] <= y)
    ensures var e := At(look, y[..FAST_BITS]);
      && e <= 0 && (e < 0 ==> NodeAt(e, nodes, y[..FAST_BITS]))
      && (e < 0 <==> Inner(y[..FAST_BITS], w))
  {
    hide TreeOk;
    var b := y[..FAST_BITS];
    var e := At(look, b);
    assert LookEntry(e, b, nodes, w, w);
    if e < 0 {
      NodeInner(e, b, nodes, w);
    }
    if Inner(b, w) {
      var s :| 0 <= s < |w| && b < w[s];
      assert w[s] in w;
    }
    assert forall s :: 0 <= s < |w| && w[s] <= b ==> w[s] <= y;
  }

  lemma {:induction false} NodeInner(e: int, p: seq<bool>, nodes: seq<seq<bool>>, w: seq<seq<bool>>)
    requires NodesOk(nodes, w, w) && NodeAt(e, nodes, p)
    ensures Inner(p, w)
  {
    var n :| 0 <= n < |nodes| && e == -1 - 2 * n && nodes[n] == p;
    assert NodeOk(nodes[n], w, w);
  }

  /** The walk stops with symbol 0 at the first bit that leads away from every code word. */
  lemma {:induction false} StrayWalk(look: seq<int>, tree: seq<int>, nodes: seq<seq<bool>>, w: seq<seq<bool>>,
                                     y: seq<bool>, e: int, d: nat, s: nat, k: nat)
    requires Full(look, tree, nodes, w) && |tree| == TREE_SIZE && e < 0 && s < |w|
    requires d <= k < |y| && y[..k] < w[s] && NodeAt(e, nodes, y[..d])
    requires forall t :: 0 <= t < |w| ==> !(y[..k + 1] <= w[t])
    ensures Walk(tree, y, e, d) == (0, k + 1)
    decreases k - d
  {
    hide LookOk, TreeOk, NodeAt, NodesOk;
    Step(look, tree, nodes, w, y, e, d);
    var p, e2 := y[..d + 1], tree[-e - 1 + Bit(y[d])];
    if d < k {
      assert y[..k][..d + 1] == p;
      TreeFinds(e2, p, nodes, w, w, s);
      StrayWalk(look, tree, nodes, w, y, e2, d + 1, s, k);
    } else {
      NothingThere(e2, p, nodes, w);
    }
  }

  lemma {:induction false} NothingThere(e: int, p: seq<bool>, nodes: seq<seq<bool>>, w: seq<seq<bool>>)
    requires NodesOk(nodes, w, w) && TreeEntry(e, p, nodes, w, w) && forall t :: 0 <= t < |w| ==> !(p <= w[t])
    ensures e == 0
  {
    if e < 0 {
      NodeInner(e, p, nodes, w);
    }
  }
}
