/** Building the decode table of tinfl from code lengths, and walking it. */
module HuffTables {
  import opened Bits
  import opened Canonical
  import opened InflateTable

  function Words(lens: seq<nat>): (w: seq<seq<bool>>)
    ensures |w| == |lens|
  {
    seq(|lens|, s requires 0 <= s < |lens| => Codeword(lens, s))
  }

  lemma {:induction false} UsedAtMost(lens: seq<nat>, l: nat)
    ensures Used(lens, l) <= UsedSymbols(lens, l) * Pow2(l)
    ensures UsedSymbols(lens, l) <= UsedSymbols(lens, l + 1)
  {
    if l > 0 {
      UsedAtMost(lens, l - 1);
      MoreCodes(UsedSymbols(lens, l - 1), Count(lens, l), Pow2(l - 1));
    }
  }

  lemma {:induction false} MoreCodes(u: nat, c: nat, p: nat)
    requires p >= 1
    ensures 2 * (u * p) + c <= (u + c) * (2 * p)
  {
    MulMono(c, 1, 2 * p);
    assert (u + c) * (2 * p) == 2 * (u * p) + c * (2 * p);
  }

  lemma {:induction false} UsedMono(lens: seq<nat>, l: nat, m: nat)
    requires 1 <= l <= m
    ensures Count(lens, l) <= UsedSymbols(lens, m)
  {
    if l < m {
      UsedMono(lens, l, m - 1);
    }
  }

  lemma {:induction false} UsedTwo(lens: seq<nat>, l: nat, k: nat, m: nat)
    requires 1 <= l < k <= m
    ensures Count(lens, l) + Count(lens, k) <= UsedSymbols(lens, m)
  {
    if k < m {
      UsedTwo(lens, l, k, m - 1);
    } else {
      UsedMono(lens, l, m - 1);
    }
  }

  lemma {:induction false} CountMonoLe(lens: seq<nat>, l: nat, a: nat, b: nat)
    requires a <= b <= |lens|
    ensures CountUpTo(lens, l, a) <= CountUpTo(lens, l, b)
  {
    if a < b {
      CountMonoLe(lens, l, a, b - 1);
    }
  }

  lemma {:induction false} CountOne(lens: seq<nat>, s: nat)
    requires s < |lens|
    ensures Count(lens, lens[s]) >= 1
  {
    CountMonoLe(lens, lens[s], s + 1, |lens|);
  }

  lemma {:induction false} CountTwo(lens: seq<nat>, s: nat, t: nat)
    requires s < t < |lens| && lens[s] == lens[t]
    ensures Count(lens, lens[s]) >= 2
  {
    CountMonoLe(lens, lens[s], s + 1, t);
    CountMonoLe(lens, lens[s], t + 1, |lens|);
  }

  /** Two used symbols are counted twice. */
  lemma {:induction false} TwoUsed(lens: seq<nat>, s: nat, t: nat)
    requires ValidLengths(lens) && s < t < |lens| && lens[s] > 0 && lens[t] > 0
    ensures UsedSymbols(lens, MAX_LEN) >= 2
  {
    CountOne(lens, s);
    CountOne(lens, t);
    if lens[s] == lens[t] {
      CountTwo(lens, s, t);
      UsedMono(lens, lens[s], MAX_LEN);
    } else if lens[s] < lens[t] {
      UsedTwo(lens, lens[s], lens[t], MAX_LEN);
    } else {
      UsedTwo(lens, lens[t], lens[s], MAX_LEN);
    }
  }

  /** What the table construction needs of the code words. */
  ghost predicate GoodWords(w: seq<seq<bool>>)
  {
    PrefixFreeWords(w) && ShortWords(w) && |w| <= 288 && (Total(w) || Single(w))
  }

  lemma {:induction false} AcceptedFits(lens: seq<nat>)
    requires Accepts(lens)
    ensures Fits(lens)
  {
    hide Used, UsedSymbols, Pow2;
    if !Complete(lens) {
      UsedAtMost(lens, MAX_LEN);
      MulMono(Pow2(MAX_LEN), UsedSymbols(lens, MAX_LEN), 1);
      TimesCommute(UsedSymbols(lens, MAX_LEN), Pow2(MAX_LEN));
    }
  }

  lemma {:induction false} TimesCommute(a: int, b: int)
    ensures a * b == b * a
  {
  }

  lemma {:induction false} AcceptedWords(lens: seq<nat>)
    requires ValidLengths(lens) && Accepts(lens) && |lens| <= 288
    ensures Fits(lens) && GoodWords(Words(lens))
  {
    var w := Words(lens);
    AcceptedFits(lens);
    forall s, t | 0 <= s < |w| && 0 <= t < |w| && w[s] != [] && w[s] <= w[t]
      ensures s == t
    {
      PrefixFree(lens, s, t);
    }
    if Complete(lens) {
      forall bits: seq<bool> | |bits| >= 15
        ensures Readable(bits, w)
      {
        var s := CompleteDecodes(lens, bits);
        assert w[s] <= bits && w[s] != [];
      }
    } else {
      forall s, t | 0 <= s < |w| && 0 <= t < |w| && w[s] != [] && w[t] != []
        ensures s == t
      {
        if s < t {
          TwoUsed(lens, s, t);
        } else if t < s {
          TwoUsed(lens, t, s);
        }
      }
    }
  }

  lemma {:induction false} FrontIndex(x: seq<bool>, b: seq<bool>)
    requires |x| <= |b|
    ensures x <= b <==> FromBits(b) % Pow2(|x|) == FromBits(x)
  {
    var f := b[..|x|];
    assert b == f + b[|x|..];
    FromBitsConcat(f, b[|x|..]);
    assert Pow2(|x|) * FromBits(b[|x|..]) == FromBits(b[|x|..]) * Pow2(|x|);
    DivUnique(FromBits(b), Pow2(|x|), FromBits(b[|x|..]), FromBits(f));
    if FromBits(f) == FromBits(x) {
      IndexInjective(f, x);
    }
    assert x <= b <==> x == f;
  }

  /** Between r and r + p nothing else has r's remainder. */
  lemma {:induction false} NextSame(v: nat, r: nat, p: nat)
    requires p > 0 && r <= v < r + p && v % p == r % p
    ensures v == r
  {
    var q, m := r / p, r % p;
    assert r == p * q + m;
    if m + (v - r) < p {
      assert v == q * p + (m + (v - r));
      DivUnique(v, p, q, m + (v - r));
    } else {
      assert v == (q + 1) * p + (m + (v - r) - p);
      DivUnique(v, p, q + 1, m + (v - r) - p);
    }
  }

  lemma {:induction false} SkipOne(r: nat, p: nat)
    requires p > 0
    ensures (r + p) % p == r % p
  {
    DivUnique(r + p, p, r / p + 1, r % p);
  }

  /** Every slot below rc with remainder rev holds k, the others are as in look. */
  ghost predicate Filled(a: seq<int>, look: seq<int>, rc: nat, p: nat, rev: nat, k: int)
    requires p > 0
  {
    |a| == |look| && forall v :: 0 <= v < |a| ==> a[v] == if v < rc && v % p == rev then k else look[v]
  }

  lemma {:induction false} FillStart(look: seq<int>, p: nat, rev: nat, k: int)
    requires rev < p
    ensures rev % p == rev && Filled(look, look, rev, p, rev, k)
  {
    forall v | 0 <= v <= rev
      ensures v % p == v
    {
      DivUnique(v, p, 0, v);
    }
  }

  lemma {:induction false} FillStep(a: seq<int>, look: seq<int>, rc: nat, p: nat, rev: nat, k: int)
    requires p > 0 && rc < |a| && rc % p == rev && Filled(a, look, rc, p, rev, k)
    ensures Filled(a[rc := k], look, rc + p, p, rev, k)
  {
    forall v | 0 <= v < |a|
      ensures a[rc := k][v] == if v < rc + p && v % p == rev then k else look[v]
    {
      if rc <= v < rc + p && v % p == rev {
        NextSame(v, rc, p);
      }
    }
  }

  lemma {:induction false} FilledAt(a: seq<int>, look: seq<int>, rc: nat, x: seq<bool>, k: int)
    requires |look| == FAST_SIZE <= rc && |x| <= FAST_BITS
    requires Filled(a, look, rc, Pow2(|x|), FromBits(x), k)
    ensures forall b: seq<bool> :: |b| == FAST_BITS ==> At(a, b) == if x <= b then k else At(look, b)
  {
    forall b: seq<bool> | |b| == FAST_BITS
      ensures At(a, b) == if x <= b then k else At(look, b)
    {
      Index(b);
      FrontIndex(x, b);
    }
  }

  lemma {:induction false} RootRoom(look: seq<int>, tree: seq<int>, nodes: seq<seq<bool>>, w: seq<seq<bool>>,
                                    paths: seq<seq<bool>>, s: nat)
    requires GoodWords(w) && Inv(look, tree, nodes, w, paths)
    requires s < |w| && FAST_BITS < |w[s]| && At(look, w[s][..FAST_BITS]) == 0
    ensures 2 * |nodes| + 2 <= TREE_SIZE
  {
    var b := w[s][..FAST_BITS];
    assert LookEntry(At(look, b), b, nodes, w, paths);
    NoNode(b, nodes, w, paths);
    NodeRoom(nodes, w, paths, b, s);
  }

  lemma {:induction false} ChildRoom(look: seq<int>, tree: seq<int>, nodes: seq<seq<bool>>, w: seq<seq<bool>>,
                                     paths: seq<seq<bool>>, s: nat, bit: bool, n: nat)
    requires GoodWords(w) && Inv(look, tree, nodes, w, paths)
    requires s < |w| && n < |nodes| && nodes[n] + [bit] < w[s]
    requires tree[Slot(n, bit)] == 0
    ensures 2 * |nodes| + 2 <= TREE_SIZE
  {
    assert TreeEntry(tree[Slot(n, bit)], nodes[n] + [bit], nodes, w, paths);
    EmptyChild(nodes[n] + [bit], nodes, w, paths, s);
    NodeRoom(nodes, w, paths, nodes[n] + [bit], s);
  }

  /** Shifting the code word down by one moves to its next bit. */
  lemma {:induction false} WalkBit(x: seq<bool>, d: nat)
    requires 0 < d < |x|
    ensures FromBits(x[d - 1..]) / 2 == FromBits(x[d..])
    ensures FromBits(x[d..]) % 2 == Bit(x[d])
  {
    assert x[d - 1..][1..] == x[d..];
  }

  lemma {:induction false} HighBits(x: seq<bool>)
    requires FAST_BITS <= |x|
    ensures FromBits(x) / 512 == FromBits(x[FAST_BITS - 1..])
  {
    var lo, hi := x[..FAST_BITS - 1], x[FAST_BITS - 1..];
    assert x == lo + hi;
    FromBitsConcat(lo, hi);
    Pow2Of9();
    DivUnique(FromBits(x), 512, FromBits(hi), FromBits(lo));
  }

  lemma {:induction false} Pow2Of9()
    ensures Pow2(9) == 512
  {
    Pow2Add(4, 5);
    assert Pow2(4) == 16 && Pow2(5) == 32;
  }

  lemma {:induction false} LowIndex(x: seq<bool>)
    requires FAST_BITS <= |x|
    ensures FromBits(x) % FAST_SIZE == FromBits(x[..FAST_BITS])
  {
    FrontIndex(x[..FAST_BITS], x);
  }

  /** Unused symbols leave the table alone. */
  lemma {:induction false} SkipUnused(look: seq<int>, tree: seq<int>, nodes: seq<seq<bool>>, w: seq<seq<bool>>,
                                      paths: seq<seq<bool>>)
    requires Inv(look, tree, nodes, w, paths)
    ensures Inv(look, tree, nodes, w, paths + [[]])
  {
    forall b: seq<bool> | |b| == FAST_BITS
      ensures LookEntry(At(look, b), b, nodes, w, paths + [[]])
    {
      assert LookEntry(At(look, b), b, nodes, w, paths);
    }
    TreeKeeps(tree, nodes, w, paths, paths + [[]]);
    NodesKeep(nodes, w, paths, []);
  }

  lemma {:induction false} EmptyTable(look: seq<int>, tree: seq<int>, w: seq<seq<bool>>)
    requires |look| == FAST_SIZE && |tree| == TREE_SIZE
    requires (forall i :: 0 <= i < |look| ==> look[i] == 0) && forall i :: 0 <= i < |tree| ==> tree[i] == 0
    ensures Inv(look, tree, [], w, [])
  {
    forall b: seq<bool> | |b| == FAST_BITS
      ensures LookEntry(At(look, b), b, [], w, [])
    {
      Index(b);
    }
  }

  /** How many symbols have each length. */
  method CountLengths(codeSize: seq<nat>) returns (totalSyms: array<nat>)
    requires ValidLengths(codeSize)
    ensures fresh(totalSyms) && totalSyms.Length == 16
    ensures forall l :: 0 <= l < 16 ==> totalSyms[l] == Count(codeSize, l)
  {
    totalSyms := new nat[16](_ => 0);
    var i := 0;
    while i < |codeSize|
      invariant 0 <= i <= |codeSize|
      invariant forall l :: 0 <= l < 16 ==> totalSyms[l] == CountUpTo(codeSize, l, i)
    {
      totalSyms[codeSize[i]] := totalSyms[codeSize[i]] + 1;
      i := i + 1;
    }
  }

  /** The codes to hand out next, after the first s symbols. */
  ghost predicate NextCodes(lens: seq<nat>, s: nat, nextCode: seq<nat>)
    requires s <= |lens|
  {
    |nextCode| == 17 && forall l :: 0 < l <= MAX_LEN ==> nextCode[l] == NextCode(lens, l) + CountUpTo(lens, l, s)
  }

  /** The first code of each length, and whether tinfl accepts the lengths. */
  lemma {:induction false} OneLength(lens: seq<nat>, i: nat)
    requires i >= 1
    ensures UsedSymbols(lens, i) == UsedSymbols(lens, i - 1) + Count(lens, i)
    ensures NextCode(lens, i + 1) == 2 * (NextCode(lens, i) + Count(lens, i)) == 2 * Used(lens, i)
  {
  }

  lemma {:induction false} NoLengths(lens: seq<nat>)
    ensures NextCode(lens, 0) == NextCode(lens, 1) == 0 && UsedSymbols(lens, 0) == 0
  {
  }

  method FirstCodes(codeSize: seq<nat>) returns (nextCode: array<nat>, ok: bool)
    requires ValidLengths(codeSize)
    ensures fresh(nextCode) && nextCode.Length == 17
    ensures forall l :: 0 <= l <= MAX_LEN ==> nextCode[l] == NextCode(codeSize, l)
    ensures ok <==> Accepts(codeSize)
  {
    hide NextCode, Count, UsedSymbols, Used, Pow2;
    NoLengths(codeSize);
    var totalSyms := CountLengths(codeSize);
    nextCode := new nat[17](_ => 0);
    var usedSyms, total := 0, 0;
    var i := 1;
    while i <= 15
      invariant 1 <= i <= 16
      invariant forall l :: 0 <= l < 16 ==> totalSyms[l] == Count(codeSize, l)
      invariant usedSyms == UsedSymbols(codeSize, i - 1)
      invariant total == NextCode(codeSize, i)
      invariant forall l :: 0 <= l <= i && l <= MAX_LEN ==> nextCode[l] == NextCode(codeSize, l)
    {
      OneLength(codeSize, i);
      usedSyms := usedSyms + totalSyms[i];
      total := 2 * (total + totalSyms[i]);
      nextCode[i + 1] := total;
      i := i + 1;
    }
    Pow2Of15();
    OneLength(codeSize, 15);
    ok := !(65536 != total && usedSyms > 1);
  }

  lemma {:induction false} WordsParts(w: seq<seq<bool>>)
    requires GoodWords(w)
    ensures PrefixFreeWords(w) && |w| <= 288
  {
  }

  lemma {:induction false} SlotThere(look: seq<int>, tree: seq<int>, nodes: seq<seq<bool>>, w: seq<seq<bool>>,
                                     paths: seq<seq<bool>>, n: nat, c: bool)
    requires Inv(look, tree, nodes, w, paths) && n < |nodes|
    ensures Slot(n, c) < |tree|
  {
  }

  class HuffTable {
    const lookUp: array<int>
    const tree: array<int>
    ghost var nodes: seq<seq<bool>>

    ghost predicate Valid()
    {
      lookUp.Length == FAST_SIZE && tree.Length == TREE_SIZE && lookUp != tree
    }

    ghost predicate Holds(w: seq<seq<bool>>, paths: seq<seq<bool>>)
      requires Valid()
      reads this, lookUp, tree
    {
      Inv(lookUp[..], tree[..], nodes, w, paths)
    }

    constructor ()
      ensures Valid() && fresh(lookUp) && fresh(tree)
    {
      lookUp := new int[FAST_SIZE];
      tree := new int[TREE_SIZE];
      nodes := [];
    }

    /** Puts symbol s into every look-up slot whose low bits are its code word. */
    method FillShort(rev: nat, size: nat, s: nat, ghost w: seq<seq<bool>>, ghost paths: seq<seq<bool>>)
      requires Valid() && Holds(w, paths)
      requires s < |w| <= 288 && |w[s]| == size && 0 < size <= FAST_BITS && FromBits(w[s]) == rev
      modifies lookUp
      ensures Holds(w, paths + [w[s]])
    {
      var k := 512 * size + s;
      var p := Pow2(size);
      var rc := rev;
      ghost var look := lookUp[..];
      FillStart(look, p, rev, k);
      while rc < FAST_SIZE
        invariant rev <= rc && rc % p == rev
        invariant Filled(lookUp[..], look, rc, p, rev, k)
      {
        ghost var before := lookUp[..];
        FillStep(before, look, rc, p, rev, k);
        lookUp[rc] := k;
        assert lookUp[..] == before[rc := k];
        SkipOne(rc, p);
        rc := rc + p;
      }
      FilledAt(lookUp[..], look, rc, w[s], k);
      GrowShort(look, lookUp[..], tree[..], nodes, w, paths, s);
    }

    /** One tree level: follows the entry, or gives it the next free node. */
    method Descend(s: nat, cur: int, next: int, ghost d: nat, ghost n: nat, ghost w: seq<seq<bool>>,
                   ghost paths: seq<seq<bool>>)
      returns (treeCur: int, treeNext: int, ghost m: nat)
      requires Valid() && GoodWords(w)
      requires s < |w| && FAST_BITS <= d && d + 1 < |w[s]| && Holds(w, paths + [w[s][..d]])
      requires n < |nodes| && nodes[n] == w[s][..d] && cur == -1 - Slot(n, w[s][d])
      requires next == -1 - 2 * |nodes|
      modifies `nodes, tree
      ensures Holds(w, paths + [w[s][..d + 1]])
      ensures m < |nodes| && treeCur == -1 - 2 * m && nodes[m] == w[s][..d + 1]
      ensures treeNext == -1 - 2 * |nodes|
    {
      hide Inv, GoodWords;
      WordsParts(w);
      SlotThere(lookUp[..], tree[..], nodes, w, paths + [w[s][..d]], n, w[s][d]);
      treeCur, treeNext := cur, next;
      if tree[-treeCur - 1] == 0 {
        assert w[s][..d + 1] == nodes[n] + [w[s][d]];
        ChildRoom(lookUp[..], tree[..], nodes, w, paths + [w[s][..d]], s, w[s][d], n);
      }
      ghost var q, tree', nodes' := EnterChild(lookUp[..], tree[..], nodes, w, paths, s, d, n);
      if tree[-treeCur - 1] == 0 {
        tree[-treeCur - 1] := treeNext;
        treeCur := treeNext;
        treeNext := treeNext - 2;
      } else {
        treeCur := tree[-treeCur - 1];
      }
      nodes := nodes';
      assert tree[..] == tree';
      m :| m < |nodes| && treeCur == -1 - 2 * m && nodes[m] == q;
    }

    /** The look-up slot of a longer code word: its tree node, added if it is missing. */
    method EnterTop(rev: nat, s: nat, next: int, ghost w: seq<seq<bool>>, ghost paths: seq<seq<bool>>)
      returns (treeCur: int, treeNext: int, ghost n: nat)
      requires Valid() && Holds(w, paths) && GoodWords(w)
      requires s < |w| && FAST_BITS < |w[s]| && FromBits(w[s]) == rev
      requires next == -1 - 2 * |nodes|
      modifies `nodes, lookUp
      ensures Holds(w, paths + [w[s][..FAST_BITS]])
      ensures n < |nodes| && treeCur == -1 - 2 * n && nodes[n] == w[s][..FAST_BITS]
      ensures treeNext == -1 - 2 * |nodes|
    {
      treeNext := next;
      LowIndex(w[s]);
      treeCur := lookUp[rev % FAST_SIZE];
      if treeCur == 0 {
        RootRoom(lookUp[..], tree[..], nodes, w, paths, s);
      }
      ghost var p, look', nodes' := EnterRoot(lookUp[..], tree[..], nodes, w, paths, s);
      if treeCur == 0 {
        lookUp[rev % FAST_SIZE] := treeNext;
        treeCur := treeNext;
        treeNext := treeNext - 2;
      }
      nodes := nodes';
      assert lookUp[..] == look';
      n :| n < |nodes| && treeCur == -1 - 2 * n && nodes[n] == p;
    }

    /** The last bit: the symbol itself goes into the entry. */
    method SetLeaf(s: nat, cur: int, ghost d: nat, ghost n: nat, ghost w: seq<seq<bool>>, ghost paths: seq<seq<bool>>)
      requires Valid() && s < |w| && FAST_BITS <= d && d + 1 == |w[s]| && Holds(w, paths + [w[s][..d]])
      requires n < |nodes| && nodes[n] == w[s][..d] && cur == -1 - Slot(n, w[s][d])
      modifies tree
      ensures Holds(w, paths + [w[s]])
    {
      ghost var before := tree[..];
      tree[-cur - 1] := s;
      assert tree[..] == before[Slot(n, w[s][d]) := s];
      EnterLeaf(lookUp[..], before, nodes, w, paths, s, d, n);
    }

    /** Puts symbol s at the end of its walk through the tree, adding the nodes that are missing. */
    method EnterLong(rev: nat, size: nat, s: nat, next: int, ghost w: seq<seq<bool>>, ghost paths: seq<seq<bool>>)
      returns (treeNext: int)
      requires Valid() && Holds(w, paths) && GoodWords(w)
      requires s < |w| && |w[s]| == size && FAST_BITS < size && FromBits(w[s]) == rev
      requires next == -1 - 2 * |nodes|
      modifies this, lookUp, tree
      ensures Holds(w, paths + [w[s]])
      ensures treeNext == -1 - 2 * |nodes|
    {
      hide Inv, GoodWords, FromBits;
      var treeCur;
      ghost var n: nat;
      treeCur, treeNext, n := EnterTop(rev, s, next, w, paths);
      var rc := rev / 512;
      var j := size;
      ghost var d := FAST_BITS;
      HighBits(w[s]);
      while j > FAST_BITS + 1
        invariant d == FAST_BITS + size - j && FAST_BITS <= d < size
        invariant rc == FromBits(w[s][d - 1..])
        invariant Holds(w, paths + [w[s][..d]])
        invariant n < |nodes| && treeCur == -1 - 2 * n && nodes[n] == w[s][..d]
        invariant treeNext == -1 - 2 * |nodes|
      {
        WalkBit(w[s], d);
        rc := rc / 2;
        treeCur := treeCur - rc % 2;
        treeCur, treeNext, n := Descend(s, treeCur, treeNext, d, n, w, paths);
        d := d + 1;
        j := j - 1;
      }
      WalkBit(w[s], d);
      rc := rc / 2;
      treeCur := treeCur - rc % 2;
      SetLeaf(s, treeCur, d, n, w, paths);
    }

    /** Enters one symbol that is in use. */
    method Enter(code: nat, size: nat, s: nat, next: int, ghost w: seq<seq<bool>>, ghost paths: seq<seq<bool>>)
      returns (treeNext: int)
      requires Valid() && Holds(w, paths) && GoodWords(w)
      requires s < |w| && |w[s]| == size && 0 < size && w[s] == MsbBits(code, size)
      requires next == -1 - 2 * |nodes|
      modifies this, lookUp, tree
      ensures Holds(w, paths + [w[s]])
      ensures treeNext == -1 - 2 * |nodes|
    {
      treeNext := next;
      var rev := ReverseCode(code, size);
      FromTo(rev, size);
      if size <= FAST_BITS {
        FillShort(rev, size, s, w, paths);
      } else {
        treeNext := EnterLong(rev, size, s, next, w, paths);
      }
    }

    /** The next symbol of the table; code is its code when it is in use. */
    method EnterNext(codeSize: seq<nat>, s: nat, code: nat, next: int) returns (treeNext: int)
      requires Valid() && s < |codeSize|
      requires GoodWords(Words(codeSize)) && Holds(Words(codeSize), Words(codeSize)[..s])
      requires next == -1 - 2 * |nodes|
      requires codeSize[s] > 0 ==> code == CodeVal(codeSize, s)
      modifies this, lookUp, tree
      ensures Holds(Words(codeSize), Words(codeSize)[..s + 1])
      ensures treeNext == -1 - 2 * |nodes|
    {
      ghost var w := Words(codeSize);
      assert w[..s + 1] == w[..s] + [w[s]];
      assert w[s] == Codeword(codeSize, s);
      if codeSize[s] == 0 {
        assert w[s] == [];
        SkipUnused(lookUp[..], tree[..], nodes, w, w[..s]);
        treeNext := next;
      } else {
        treeNext := Enter(code, codeSize[s], s, next, w, w[..s]);
      }
    }

    method Clear(ghost w: seq<seq<bool>>)
      requires Valid()
      modifies this, lookUp, tree
      ensures Holds(w, []) && nodes == []
    {
      forall i | 0 <= i < FAST_SIZE {
        lookUp[i] := 0;
      }
      forall i | 0 <= i < TREE_SIZE {
        tree[i] := 0;
      }
      nodes := [];
      EmptyTable(lookUp[..], tree[..], w);
    }

    /** Fills the table for the given code lengths, or refuses them. */
    method Build(codeSize: seq<nat>) returns (ok: bool)
      requires Valid() && ValidLengths(codeSize) && |codeSize| <= 288
      modifies this, lookUp, tree
      ensures ok <==> Accepts(codeSize)
      ensures ok ==> Holds(Words(codeSize), Words(codeSize))
    {
      var nextCode;
      nextCode, ok := FirstCodes(codeSize);
      if !ok {
        return;
      }
      ghost var w := Words(codeSize);
      AcceptedWords(codeSize);
      Clear(w);
      var treeNext, s := -1, 0;
      while s < |codeSize|
        invariant 0 <= s <= |codeSize|
        invariant Holds(w, w[..s])
        invariant treeNext == -1 - 2 * |nodes|
        invariant NextCodes(codeSize, s, nextCode[..])
      {
        var code := nextCode[codeSize[s]];
        treeNext := EnterNext(codeSize, s, code, treeNext);
        if codeSize[s] != 0 {
          nextCode[codeSize[s]] := code + 1;
        }
        s := s + 1;
      }
      assert w[..|w|] == w;
    }
  }
}
