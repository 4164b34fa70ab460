/** tinfl's table decoding (TINFL_HUFF_DECODE) against the code that the table was built for. */
module HuffDecoding {
  import opened Bits
  import opened Canonical
  import opened InflateTable
  import opened HuffTables
  import opened TableWalks
  import opened Lenient
  import opened DeflateSpec
  import opened BitReading

  // ---- decoding

  /** t is the table for the code with these lengths. */
  ghost predicate Decoder(t: HuffTable, lens: seq<nat>)
    reads t, t.lookUp, t.tree
  {
    t.Valid() && ValidLengths(lens) && Fits(lens) && Accepts(lens)
      && Full(t.lookUp[..], t.tree[..], t.nodes, Words(lens))
  }

  /** The bits of the buffer, with zeros above. */
  ghost function Buffered(bitBuf: nat): (y: seq<bool>)
    ensures |y| == 32
  {
    ToBits(bitBuf, 32)
  }

  lemma {:induction false} LowTen(v: nat)
    ensures v % FAST_SIZE == FromBits(Buffered(v)[..FAST_BITS])
  {
    hide ToBits, FromBits, Pow2;
    Pow2Add(5, 5);
    ThirtyTwo();
    LowField(v, 32, FAST_BITS);
  }

  lemma {:induction false} ThirtyTwo()
    ensures Pow2(5) == 32
  {
  }

  lemma {:induction false} BitOf(v: nat, d: nat)
    requires d < 32
    ensures v / Pow2(d) % 2 == Bit(Buffered(v)[d])
  {
    hide ToBits, Pow2;
    ToBitsAt(v, 32, d);
  }

  /** The loop of TINFL_HUFF_DECODE through the tree. */
  method DownTheTree(t: HuffTable, bitBuf: nat, e: int, ghost lens: seq<nat>) returns (temp: int, codeLen: nat)
    requires Decoder(t, lens) && e < 0 && NodeAt(e, t.nodes, Buffered(bitBuf)[..FAST_BITS])
    ensures (temp, codeLen) == Walk(t.tree[..], Buffered(bitBuf), e, FAST_BITS) && temp >= 0
  {
    hide Full, NodeAt, ToBits, Buffered, TreeEntry;
    ghost var y, look, tree, w := Buffered(bitBuf), t.lookUp[..], t.tree[..], Words(lens);
    TreeSize(look, tree, t.nodes, w);
    temp, codeLen := e, FAST_BITS;
    while temp < 0
      invariant FAST_BITS <= codeLen <= 15
      invariant if temp < 0 then NodeAt(temp, t.nodes, y[..codeLen]) && codeLen < 15 else true
      invariant Walk(tree, y, temp, codeLen) == Walk(tree, y, e, FAST_BITS)
      decreases 15 - codeLen
    {
      Step(look, tree, t.nodes, w, y, temp, codeLen);
      BitOf(bitBuf, codeLen);
      var next := t.tree[-temp - 1 + bitBuf / Pow2(codeLen) % 2];
      assert next == tree[-temp - 1 + Bit(y[codeLen])];
      EntryNode(next, y[..codeLen + 1], look, tree, t.nodes, w);
      temp := next;
      codeLen := codeLen + 1;
    }
  }

  lemma {:induction false} TreeSize(look: seq<int>, tree: seq<int>, nodes: seq<seq<bool>>, w: seq<seq<bool>>)
    requires Full(look, tree, nodes, w)
    ensures |look| == FAST_SIZE && |tree| == TREE_SIZE && |w| <= 288
  {
  }

  lemma {:induction false} EntryNode(e: int, p: seq<bool>, look: seq<int>, tree: seq<int>, nodes: seq<seq<bool>>,
                                     w: seq<seq<bool>>)
    requires Full(look, tree, nodes, w) && TreeEntry(e, p, nodes, w, w)
    ensures e < 0 ==> NodeAt(e, nodes, p) && |p| < 15
  {
    if e < 0 {
      NodeDepth(look, tree, nodes, w, p, e);
    }
  }

  lemma {:induction false} SlotNode(look: seq<int>, tree: seq<int>, nodes: seq<seq<bool>>, w: seq<seq<bool>>,
                                    b: seq<bool>)
    requires Full(look, tree, nodes, w) && |look| == FAST_SIZE && |b| == FAST_BITS
    ensures At(look, b) < 0 ==> NodeAt(At(look, b), nodes, b)
  {
    assert LookEntry(At(look, b), b, nodes, w, w);
  }

  /** The part of TINFL_HUFF_DECODE behind the filling of the bit buffer. */
  method Resolve(t: HuffTable, bitBuf: nat, ghost lens: seq<nat>) returns (sym: nat, codeLen: nat)
    requires Decoder(t, lens)
    ensures t.lookUp.Length == FAST_SIZE && t.tree.Length == TREE_SIZE
    ensures (sym, codeLen) == LookUp(t.lookUp[..], t.tree[..], Buffered(bitBuf))
    ensures codeLen <= 15 && (sym == 0 || sym < |lens|)
  {
    hide Full, NodeAt, ToBits, Buffered, FromBits, Walk;
    ghost var y, look, tree, w := Buffered(bitBuf), t.lookUp[..], t.tree[..], Words(lens);
    TreeSize(look, tree, t.nodes, w);
    LowTen(bitBuf);
    LookUpBounds(look, tree, t.nodes, w, y);
    SlotNode(look, tree, t.nodes, w, y[..FAST_BITS]);
    var temp := t.lookUp[bitBuf % FAST_SIZE];
    assert temp == At(look, y[..FAST_BITS]);
    if temp >= 0 {
      sym, codeLen := temp % 512, temp / 512;
    } else {
      temp, codeLen := DownTheTree(t, bitBuf, temp, lens);
      sym := temp;
    }
  }

  /** The inner loop of TINFL_HUFF_BITBUF_FILL: down the tree as far as the bits at hand go. */
  method DownAsFar(t: HuffTable, bitBuf: nat, numBits: nat, e: int, ghost lens: seq<nat>) returns (temp: int)
    requires Decoder(t, lens) && e < 0 && NodeAt(e, t.nodes, Buffered(bitBuf)[..FAST_BITS]) && FAST_BITS < numBits <= 32
    ensures temp == Walk(t.tree[..], Buffered(bitBuf)[..numBits], e, FAST_BITS).0
  {
    hide Full, NodeAt, ToBits, Buffered, TreeEntry;
    ghost var y, look, tree, w := Buffered(bitBuf), t.lookUp[..], t.tree[..], Words(lens);
    TreeSize(look, tree, t.nodes, w);
    temp := e;
    var codeLen := FAST_BITS;
    while temp < 0 && numBits >= codeLen + 1
      invariant FAST_BITS <= codeLen <= 15 && codeLen <= numBits
      invariant if temp < 0 then NodeAt(temp, t.nodes, y[..codeLen]) && codeLen < 15 else true
      invariant Walk(tree, y[..numBits], temp, codeLen) == Walk(tree, y[..numBits], e, FAST_BITS)
      decreases 15 - codeLen
    {
      Step(look, tree, t.nodes, w, y, temp, codeLen);
      BitOf(bitBuf, codeLen);
      var next := t.tree[-temp - 1 + bitBuf / Pow2(codeLen) % 2];
      assert next == tree[-temp - 1 + Bit(y[codeLen])];
      EntryNode(next, y[..codeLen + 1], look, tree, t.nodes, w);
      temp := next;
      codeLen := codeLen + 1;
    }
  }

  /** Whether the bits at hand decode. */
  method IsEnough(t: HuffTable, bitBuf: nat, numBits: nat, ghost lens: seq<nat>) returns (enough: bool)
    requires Decoder(t, lens) && numBits <= 32
    ensures t.lookUp.Length == FAST_SIZE && t.tree.Length == TREE_SIZE
    ensures enough <==> Enough(t.lookUp[..], t.tree[..], Buffered(bitBuf), numBits)
  {
    hide Full, NodeAt, ToBits, Buffered, FromBits, Walk;
    ghost var y, look, tree, w := Buffered(bitBuf), t.lookUp[..], t.tree[..], Words(lens);
    TreeSize(look, tree, t.nodes, w);
    LowTen(bitBuf);
    SlotNode(look, tree, t.nodes, w, y[..FAST_BITS]);
    var temp := t.lookUp[bitBuf % FAST_SIZE];
    assert temp == At(look, y[..FAST_BITS]);
    enough := false;
    if temp >= 0 {
      var codeLen := temp / 512;
      enough := codeLen != 0 && numBits >= codeLen;
    } else if numBits > FAST_BITS {
      temp := DownAsFar(t, bitBuf, numBits, temp, lens);
      enough := temp >= 0;
    }
  }

  /** What stands in front of the stream stands in the bit buffer, as far as it goes. */
  lemma {:induction false} InBuffer(bits: seq<bool>, bitBuf: nat, numBits: nat, end: nat, lens: seq<nat>, s: nat)
    requires numBits <= end <= |bits| && numBits <= 32 && ToBits(bitBuf, numBits) == bits[end - numBits..end]
    requires Decodes(lens, bits[end - numBits..], s)
    ensures s < |Words(lens)| && Words(lens)[s] != [] && Words(lens)[s] == Codeword(lens, s)
    ensures |Words(lens)[s]| <= numBits ==> Words(lens)[s] <= Buffered(bitBuf)[..numBits]
    ensures |Words(lens)[s]| > numBits ==> Buffered(bitBuf)[..numBits] < Words(lens)[s] && end < |bits|
  {
    hide ToBits, Codeword;
    var w, rest := Words(lens)[s], bits[end - numBits..];
    ToBitsTake(bitBuf, 32, numBits);
    assert Buffered(bitBuf)[..numBits] == rest[..numBits];
    assert rest[..|w|] == w;
    if |w| <= numBits {
      assert rest[..numBits][..|w|] == w;
    } else {
      assert w[..numBits] == rest[..numBits];
    }
  }

  /** The symbol at the reader's position, if there is one, and whether the bits at hand are enough for it. */
  lemma {:induction false} AtHand(r: BitReader, t: HuffTable, lens: seq<nat>)
    requires r.Valid() && Decoder(t, lens) && r.numBits <= 32 && t.lookUp.Length == FAST_SIZE
      && t.tree.Length == TREE_SIZE
    requires SymbolAt(lens, r.Stream(), r.Pos()).Got?
    ensures var s := SymbolAt(lens, r.Stream(), r.Pos());
      s.v < |lens| && lens[s.v] > 0 && s.pos == r.Pos() + lens[s.v] && lens[s.v] <= 15
      && (lens[s.v] <= r.numBits ==>
            LookUp(t.lookUp[..], t.tree[..], Buffered(r.bitBuf)) == (s.v, lens[s.v])
            && Enough(t.lookUp[..], t.tree[..], Buffered(r.bitBuf), r.numBits))
      && (lens[s.v] > r.numBits ==>
            !Enough(t.lookUp[..], t.tree[..], Buffered(r.bitBuf), r.numBits) && r.cur < |r.input|)
  {
    hide ToBits, BytesToBits, Full, Buffered, LookUp, Enough, Fits, Accepts;
    var s := SymbolAt(lens, r.Stream(), r.Pos()).v;
    var look, tree, w, y := t.lookUp[..], t.tree[..], Words(lens), Buffered(r.bitBuf);
    InBuffer(r.Stream(), r.bitBuf, r.numBits, 8 * r.cur, lens, s);
    if lens[s] <= r.numBits {
      assert w[s] <= y;
      LookUpFinds(look, tree, t.nodes, w, y, s);
      WholeIsEnough(look, tree, t.nodes, w, y, r.numBits, s);
    } else {
      PartIsNotEnough(look, tree, t.nodes, w, y, r.numBits, s);
    }
  }

  lemma {:induction false} SliceFront(bits: seq<bool>, a: nat, b: nat, k: nat)
    requires a <= b <= |bits| && k <= b - a
    ensures bits[a..][..k] == bits[a..b][..k]
  {
  }

  lemma {:induction false} StandsInFront(r: BitReader, lens: seq<nat>, s: nat)
    requires r.Valid() && ValidLengths(lens) && r.numBits <= 32 && s < |lens| && lens[s] > 0
    requires Codeword(lens, s) <= Buffered(r.bitBuf) && |Codeword(lens, s)| <= r.numBits
    ensures SymbolAt(lens, r.Stream(), r.Pos()).Got?
  {
    hide BytesToBits, ToBits, Codeword;
    var n, end, bits := r.numBits, 8 * r.cur, r.Stream();
    var w := Codeword(lens, s);
    ToBitsTake(r.bitBuf, 32, n);
    assert Buffered(r.bitBuf)[..n] == bits[end - n..end];
    assert w == Buffered(r.bitBuf)[..n][..|w|];
    SliceFront(bits, end - n, end, |w|);
    assert Decodes(lens, bits[end - n..], s);
  }

  /** Where no code word stands, only an incomplete code gives a symbol, and that is 0. */
  lemma {:induction false} Unassigned(r: BitReader, t: HuffTable, lens: seq<nat>)
    requires r.Valid() && Decoder(t, lens) && r.numBits <= 32 && t.lookUp.Length == FAST_SIZE
      && t.tree.Length == TREE_SIZE
    requires LookUp(t.lookUp[..], t.tree[..], Buffered(r.bitBuf)).1 <= r.numBits
    requires SymbolAt(lens, r.Stream(), r.Pos()) == Fail
    ensures LookUp(t.lookUp[..], t.tree[..], Buffered(r.bitBuf)).0 <= 0 && OneCode(lens)
  {
    hide ToBits, BytesToBits, Full, Buffered, LookUp, SymbolAt, Fits, Complete, Codeword, UsedSymbols, Enough;
    var look, tree, w, y := t.lookUp[..], t.tree[..], Words(lens), Buffered(r.bitBuf);
    LookUpSound(look, tree, t.nodes, w, y);
    var s := LookUp(look, tree, y).0;
    if s > 0 {
      WordOf(lens, s);
      StandsInFront(r, lens, s);
    }
    if Complete(lens) {
      var c := CompleteDecodes(lens, y);
      WordOf(lens, c);
      LookUpFinds(look, tree, t.nodes, w, y, c);
      StandsInFront(r, lens, c);
    }
  }

  lemma {:induction false} WordOf(lens: seq<nat>, s: nat)
    requires s < |lens|
    ensures |Words(lens)| == |lens| && Words(lens)[s] == (if lens[s] > 0 then Codeword(lens, s) else [])
  {
  }

  // ---- bits that are no code word

  /** The only code word of an incomplete code is all zeros. */
  lemma {:induction false} OnlyWord(lens: seq<nat>, s: nat)
    requires ValidLengths(lens) && OneCode(lens) && s < |lens| && lens[s] > 0
    ensures Longest(lens) == lens[s] && Codeword(lens, s) == seq(lens[s], _ => false)
    ensures forall t :: 0 <= t < |lens| && t != s ==> lens[t] == 0
  {
    forall t | 0 <= t < |lens| && t != s
      ensures lens[t] == 0
    {
      if lens[t] > 0 {
        TwoUsed(lens, if s < t then s else t, if s < t then t else s);
      }
    }
    NoneBefore(lens, s, s);
    NoneShorter(lens, s, lens[s]);
    ZeroWord(lens[s]);
  }

  lemma {:induction false} NoneBefore(lens: seq<nat>, s: nat, k: nat)
    requires k <= s < |lens| && forall t :: 0 <= t < |lens| && t != s ==> lens[t] == 0
    ensures lens[s] > 0 ==> CountUpTo(lens, lens[s], k) == 0
  {
    if k > 0 {
      NoneBefore(lens, s, k - 1);
    }
  }

  lemma {:induction false} NoneOf(lens: seq<nat>, l: nat, k: nat)
    requires k <= |lens| && forall t :: 0 <= t < k ==> lens[t] != l
    ensures CountUpTo(lens, l, k) == 0
  {
    if k > 0 {
      NoneOf(lens, l, k - 1);
    }
  }

  lemma {:induction false} NoneShorter(lens: seq<nat>, s: nat, l: nat)
    requires s < |lens| && l <= lens[s] && forall t :: 0 <= t < |lens| && t != s ==> lens[t] == 0
    ensures NextCode(lens, l) == 0
  {
    if l > 1 {
      NoneShorter(lens, s, l - 1);
      NoneOf(lens, l - 1, |lens|);
    }
  }

  lemma {:induction false} ZeroWord(n: nat)
    ensures MsbBits(0, n) == seq(n, _ => false)
  {
    if n > 0 {
      ZeroWord(n - 1);
    }
  }

  /** The bits at hand are those that come next. */
  lemma {:induction false} BitsAtHand(r: BitReader)
    requires r.Valid() && r.numBits <= 32
    ensures r.Pos() >= 0 && r.Pos() + r.numBits <= |r.Stream()|
    ensures var z := Zeros(r.Stream(), r.Pos());
      && (forall i :: 0 <= i < z && i < r.numBits ==> !Buffered(r.bitBuf)[i])
      && (z < r.numBits ==> Buffered(r.bitBuf)[z])
  {
    hide ToBits, BytesToBits;
    ToBitsTake(r.bitBuf, 32, r.numBits);
    var b := r.Stream()[8 * r.cur - r.numBits..8 * r.cur];
    assert forall i :: 0 <= i < r.numBits ==> Buffered(r.bitBuf)[..r.numBits][i] == b[i];
  }

  /** Zeros enough for the only code word are that code word. */
  lemma {:induction false} WordOfZeros(lens: seq<nat>, bits: seq<bool>, pos: nat)
    requires ValidLengths(lens) && OneCode(lens) && pos <= |bits| && SymbolAt(lens, bits, pos) == Fail
    ensures Longest(lens) > 0 ==> Zeros(bits, pos) < Longest(lens) <= 15
  {
    hide Longest, Zeros, SymbolAt, OneCode;
    if Longest(lens) > 0 {
      var s :| 0 <= s < |lens| && lens[s] == Longest(lens);
      if Zeros(bits, pos) >= lens[s] {
        ZerosDecode(lens, bits, pos, s);
      }
    }
  }

  lemma {:induction false} ZerosDecode(lens: seq<nat>, bits: seq<bool>, pos: nat, s: nat)
    requires ValidLengths(lens) && OneCode(lens) && pos <= |bits| && s < |lens| && 0 < lens[s] <= Zeros(bits, pos)
    ensures SymbolAt(lens, bits, pos).Got?
  {
    hide Longest, Codeword, Zeros;
    OnlyWord(lens, s);
    assert bits[pos..][..lens[s]] == seq(lens[s], _ => false);
    assert Decodes(lens, bits[pos..], s);
  }

  lemma {:induction false} WordsAre(lens: seq<nat>) returns (s: nat)
    requires ValidLengths(lens) && OneCode(lens)
    ensures |Words(lens)| == |lens|
    ensures Longest(lens) == 0 ==> forall t :: 0 <= t < |lens| ==> Words(lens)[t] == []
    ensures Longest(lens) > 0 ==> s < |lens| && Words(lens)[s] == seq(Longest(lens), _ => false)
    ensures Longest(lens) > 0 ==> forall t :: 0 <= t < |lens| && t != s ==> Words(lens)[t] == []
  {
    hide Longest, Codeword;
    s := 0;
    if Longest(lens) > 0 {
      s :| 0 <= s < |lens| && lens[s] == Longest(lens);
      OnlyWord(lens, s);
    }
  }

  /** The tree of the only code word is entered. */
  predicate InTree(lens: seq<nat>, z: nat)
  {
    Longest(lens) > FAST_BITS && z >= FAST_BITS
  }

  /** Bits that leave the only code word at z, or any bits if there is none. */
  lemma {:induction false} StrayLookUp(look: seq<int>, tree: seq<int>, nodes: seq<seq<bool>>, lens: seq<nat>,
                                       y: seq<bool>, n: nat, z: nat)
    requires Full(look, tree, nodes, Words(lens)) && |look| == FAST_SIZE && |tree| == TREE_SIZE
    requires ValidLengths(lens) && OneCode(lens) && |y| == 32 && n <= 32
    requires Longest(lens) > 0 ==> z < n && z < Longest(lens) && y[z] && forall i :: 0 <= i < z ==> !y[i]
    ensures LookUp(look, tree, y) == (0, if InTree(lens, z) then z + 1 else 0)
    ensures Enough(look, tree, y, n) <==> InTree(lens, z)
  {
    hide Full, Words, OneCode, ValidLengths, Longest, NodeAt, Walk;
    var w, b := Words(lens), y[..FAST_BITS];
    var s := WordsAre(lens);
    assert forall t :: 0 <= t < |w| && w[t] != [] ==> !(w[t] <= y) && (z < n ==> !(y[..z + 1] <= w[t])) by {
      if Longest(lens) > 0 {
        assert !w[s][z] && y[..z + 1][z];
      }
    }
    NoWordLook(look, tree, nodes, w, y);
    if InTree(lens, z) {
      assert b < w[s] && y[..z] < w[s];
      StrayWalk(look, tree, nodes, w, y, At(look, b), FAST_BITS, s, z);
      assert y[..n][..z + 1] == y[..z + 1] && y[..n][..z] == y[..z] && y[..n][..FAST_BITS] == b;
      StrayWalk(look, tree, nodes, w, y[..n], At(look, b), FAST_BITS, s, z);
    } else {
      if Inner(b, w) {
        InnerMeans(w, lens, s, b, y, z);
      }
    }
  }

  lemma {:induction false} InnerMeans(w: seq<seq<bool>>, lens: seq<nat>, s: nat, b: seq<bool>, y: seq<bool>, z: nat)
    requires Inner(b, w) && |y| == 32 && b == y[..FAST_BITS]
    requires Longest(lens) == 0 ==> forall t :: 0 <= t < |w| ==> w[t] == []
    requires Longest(lens) > 0 ==> s < |w| && w[s] == seq(Longest(lens), _ => false) && z < 32 && y[z]
    requires Longest(lens) > 0 ==> forall t :: 0 <= t < |w| && t != s ==> w[t] == []
    ensures InTree(lens, z)
  {
    hide Longest;
    var t :| 0 <= t < |w| && b < w[t];
    assert t == s && |w[s]| > FAST_BITS;
    assert forall i :: 0 <= i < FAST_BITS ==> b[i] == w[s][i];
  }

  /** Only a part of the only code word is at hand. */
  lemma {:induction false} StrayPart(look: seq<int>, tree: seq<int>, nodes: seq<seq<bool>>, lens: seq<nat>,
                                     y: seq<bool>, n: nat)
    requires Full(look, tree, nodes, Words(lens)) && |look| == FAST_SIZE && |tree| == TREE_SIZE
    requires ValidLengths(lens) && OneCode(lens) && |y| == 32
    requires n < Longest(lens) <= 15 && forall i :: 0 <= i < n ==> !y[i]
    ensures !Enough(look, tree, y, n)
  {
    hide Full, Words, OneCode, ValidLengths, Longest, Walk;
    var s := WordsAre(lens);
    assert y[..n] < Words(lens)[s];
    PartIsNotEnough(look, tree, nodes, Words(lens), y, n, s);
  }

  /** Bits at the reader's position that are no code word, and whether those at hand are enough to tell. */
  lemma {:induction false} StrayAtHand(r: BitReader, t: HuffTable, lens: seq<nat>)
    requires r.Valid() && Decoder(t, lens) && r.numBits <= 32 && t.lookUp.Length == FAST_SIZE
      && t.tree.Length == TREE_SIZE
    requires SymbolAt(lens, r.Stream(), r.Pos()) == Fail && OneCode(lens)
    ensures r.Pos() >= 0
    ensures var z := Zeros(r.Stream(), r.Pos());
      && (Enough(t.lookUp[..], t.tree[..], Buffered(r.bitBuf), r.numBits) <==> InTree(lens, z) && z < r.numBits)
      && (InTree(lens, z) ==> z < 15)
      && (r.numBits >= 15 || (InTree(lens, z) && z < r.numBits) ==>
            LookUp(t.lookUp[..], t.tree[..], Buffered(r.bitBuf)) == (0, if InTree(lens, z) then z + 1 else 0))
  {
    hide ToBits, BytesToBits, Full, Buffered, LookUp, Enough, Fits, Accepts, OneCode, Longest, Zeros, SymbolAt;
    BitsAtHand(r);
    var bits, p, n, y := r.Stream(), r.Pos(), r.numBits, Buffered(r.bitBuf);
    var z := Zeros(bits, p);
    WordOfZeros(lens, bits, p);
    if Longest(lens) > 0 && n <= z {
      StrayPart(t.lookUp[..], t.tree[..], t.nodes, lens, y, n);
    } else {
      StrayLookUp(t.lookUp[..], t.tree[..], t.nodes, lens, y, n, z);
    }
  }

  /** At the end of the input, with too few bits at hand, there is no symbol. */
  lemma {:induction false} NothingTaken(r: BitReader, t: HuffTable, lens: seq<nat>)
    requires r.Valid() && Decoder(t, lens) && r.numBits < 15 && t.lookUp.Length == FAST_SIZE
      && t.tree.Length == TREE_SIZE
    requires !Enough(t.lookUp[..], t.tree[..], Buffered(r.bitBuf), r.numBits) && r.cur >= |r.input|
    ensures TakenAt(lens, r.Stream(), r.Pos()) == Fail
  {
    hide ToBits, BytesToBits, Decoder, Buffered, LookUp, Enough, OneCode, Longest, Zeros, SymbolAt;
    if SymbolAt(lens, r.Stream(), r.Pos()).Got? {
      AtHand(r, t, lens);
    } else if OneCode(lens) {
      StrayAtHand(r, t, lens);
      assert |r.Stream()| == 8 * |r.input|;
    }
  }

  /** What the table gives for enough bits is the symbol taken. */
  lemma {:induction false} SymbolTaken(r: BitReader, t: HuffTable, lens: seq<nat>)
    requires r.Valid() && Decoder(t, lens) && r.numBits <= 32 && t.lookUp.Length == FAST_SIZE
      && t.tree.Length == TREE_SIZE
    requires r.numBits >= 15 || Enough(t.lookUp[..], t.tree[..], Buffered(r.bitBuf), r.numBits)
    ensures var l := LookUp(t.lookUp[..], t.tree[..], Buffered(r.bitBuf));
      && l.0 >= 0 && l.1 <= r.numBits && r.Pos() >= 0
      && TakenAt(lens, r.Stream(), r.Pos()) == Got(l.0 as nat, r.Pos() as nat + l.1)
  {
    hide ToBits, BytesToBits, Full, Buffered, LookUp, Enough, OneCode, Longest, Zeros, SymbolAt, Fits, Accepts;
    var y := Buffered(r.bitBuf);
    if r.numBits < 15 {
      EnoughFits(t.lookUp[..], t.tree[..], y, r.numBits);
    } else {
      LookUpBounds(t.lookUp[..], t.tree[..], t.nodes, Words(lens), y);
    }
    if SymbolAt(lens, r.Stream(), r.Pos()).Got? {
      AtHand(r, t, lens);
    } else {
      Unassigned(r, t, lens);
      StrayAtHand(r, t, lens);
      BitsAtHand(r);
    }
  }

  /** TINFL_HUFF_BITBUF_FILL: never asks for a byte that the next symbol does not need. */
  method FillBits(r: BitReader, t: HuffTable, ghost lens: seq<nat>) returns (ok: bool)
    requires r.Valid() && Decoder(t, lens) && r.numBits < 15
    modifies r
    ensures r.Valid() && r.Pos() == old(r.Pos()) && t.lookUp.Length == FAST_SIZE && t.tree.Length == TREE_SIZE
    ensures ok ==> r.numBits >= 15 || Enough(t.lookUp[..], t.tree[..], Buffered(r.bitBuf), r.numBits)
    ensures !ok ==> TakenAt(lens, r.Stream(), r.Pos()) == Fail
  {
    hide Full, Decoder, Enough, Buffered, ToBits, BytesToBits, TakenAt;
    ok := true;
    var done := false;
    TablesSized(t, lens);
    while !done
      invariant r.Valid() && r.Pos() == old(r.Pos()) && Decoder(t, lens) && (!done ==> r.numBits < 15)
      invariant done ==> r.numBits >= 15 || Enough(t.lookUp[..], t.tree[..], Buffered(r.bitBuf), r.numBits)
      decreases !done, 15 - r.numBits
    {
      var enough := IsEnough(t, r.bitBuf, r.numBits, lens);
      if enough {
        done := true;
      } else {
        if r.cur >= |r.input| {
          NothingTaken(r, t, lens);
          return false;
        }
        r.AddByte();
        done := r.numBits >= 15;
      }
    }
  }

  lemma {:induction false} TablesSized(t: HuffTable, lens: seq<nat>)
    requires Decoder(t, lens)
    ensures t.lookUp.Length == FAST_SIZE && t.tree.Length == TREE_SIZE
  {
  }

  /** TINFL_HUFF_DECODE takes the symbol, code word or not, or fails where there are too few bits. */
  method HuffDecode(r: BitReader, t: HuffTable, ghost lens: seq<nat>) returns (ok: bool, sym: nat)
    requires r.Valid() && Decoder(t, lens)
    modifies r
    ensures r.Valid() && old(r.Pos()) <= r.Pos() && (sym == 0 || sym < |lens|)
    ensures ok <==> TakenAt(lens, r.Stream(), old(r.Pos())).Got?
    ensures ok ==> TakenAt(lens, r.Stream(), old(r.Pos())) == Got(sym, r.Pos())
  {
    hide Full, Decoder, Enough, Buffered, ToBits, BytesToBits, TakenAt;
    ok, sym := true, 0;
    TablesSized(t, lens);
    if r.numBits < 15 {
      if |r.input| - r.cur < 2 {
        ok := FillBits(r, t, lens);
        if !ok { return; }
      } else {
        r.AddByte();
        r.AddByte();
      }
    }
    sym := TakeSymbol(r, t, lens);
  }

  /** Resolves a symbol from the bits at hand and drops its code word. */
  method TakeSymbol(r: BitReader, t: HuffTable, ghost lens: seq<nat>) returns (sym: nat)
    requires r.Valid() && Decoder(t, lens) && t.lookUp.Length == FAST_SIZE && t.tree.Length == TREE_SIZE
    requires r.numBits >= 15 || Enough(t.lookUp[..], t.tree[..], Buffered(r.bitBuf), r.numBits)
    modifies r
    ensures r.Valid() && 0 <= old(r.Pos()) <= r.Pos() && (sym == 0 || sym < |lens|) && r.cur == old(r.cur)
    ensures TakenAt(lens, r.Stream(), old(r.Pos())) == Got(sym, r.Pos() as nat)
  {
    hide Full, Decoder, Enough, Buffered, ToBits, BytesToBits, TakenAt, LookUp;
    SymbolTaken(r, t, lens);
    var codeLen;
    sym, codeLen := Resolve(t, r.bitBuf, lens);
    r.Drop(codeLen);
  }
}
