/**
 The hash chains of tdefl: what they hold, and which earlier places a search sees. Places are kept in 16 bits, and 0
 stands for none.
 */
module HashChains {
  import opened Bits
  import opened LzCodes
  import opened LzParse

  const CHAINS := 32768

  /** The chain of three bytes. */
  function Key(a: byte, b: byte, c: byte): bv15
  {
    (Bits15(a) << 10) ^ (Bits15(b) << 5) ^ Bits15(c)
  }

  function Bits15(b: byte): bv15
  {
    b as bv15
  }

  function KeyAt(src: seq<byte>, p: nat): (k: nat)
    requires p + 2 < |src|
    ensures k < CHAINS
  {
    Key(src[p], src[p + 1], src[p + 2]) as nat
  }

  /** A third byte comes to two. */
  lemma {:induction false} RollsOn(h: bv15, b: byte, c: byte, d: byte)
    requires Rolling(h, b, c)
    ensures (h << 5) ^ Bits15(d) == Key(b, c, d) && Rolling(Key(b, c, d), c, d)
  {
    hide Bits15;
    ThreeShifted(Bits15(b), Bits15(c), Bits15(d));
  }

  lemma {:induction false} ThreeShifted(x: bv15, y: bv15, z: bv15)
    ensures ((x << 10) ^ (y << 5) ^ z) << 5 == (y << 10) ^ (z << 5)
  {
  }

  lemma {:induction false} TwoShifted(x: bv15, y: bv15)
    ensures ((x << 5) ^ y) << 5 == (x << 10) ^ (y << 5)
  {
  }

  lemma {:induction false} StartsRolling(b: byte, c: byte)
    ensures Rolling((Bits15(b) << 5) ^ Bits15(c), b, c)
  {
    hide Bits15;
    TwoShifted(Bits15(b), Bits15(c));
  }

  /** The last of the places from base on and before n that belong to a chain, in 16 bits. */
  ghost function Head(src: seq<byte>, base: nat, n: nat, key: nat): u16
    requires n > base ==> n + 2 <= |src|
    decreases n
  {
    if n <= base then 0 else if KeyAt(src, n - 1) == key then (n - 1) % 65536 else Head(src, base, n - 1, key)
  }

  /** All places from base on and before n have entered their chains, and those still in the ring can be followed. */
  ghost predicate Chained(hash: seq<u16>, next: seq<u16>, src: seq<byte>, base: nat, n: nat)
  {
    && |hash| == CHAINS && |next| == DICT_SIZE && base <= n && (n > base ==> n + 2 <= |src|)
    && (forall k: nat :: k < CHAINS ==> hash[k] == Head(src, base, n, k))
    && (forall p :: base <= p < n < p + DICT_SIZE ==> Follows(next, src, base, p))
  }

  /** From place p the chain goes on to the one before it. */
  ghost predicate Follows(next: seq<u16>, src: seq<byte>, base: nat, p: nat)
    requires |next| == DICT_SIZE && p + 2 < |src|
  {
    next[p % DICT_SIZE] == Head(src, base, p, KeyAt(src, p))
  }

  lemma {:induction false} Sizes(hash: seq<u16>, next: seq<u16>, src: seq<byte>, base: nat, n: nat)
    requires Chained(hash, next, src, base, n)
    ensures |next| == DICT_SIZE && base <= n && (n > base ==> n + 2 <= |src|)
  {
  }

  /** How far places have entered their chains when so many bytes are there. */
  function Entered(size: nat, base: nat): nat
  {
    if size >= base + 2 then size - 2 else base
  }

  /** The two bytes that come before the next one have entered the key. */
  ghost predicate Rolling(h: bv15, b: byte, c: byte)
  {
    h << 5 == (Bits15(b) << 10) ^ (Bits15(c) << 5)
  }

  lemma {:induction false} NoneChained(hash: seq<u16>, next: seq<u16>, src: seq<byte>, base: nat)
    requires |hash| == CHAINS && |next| == DICT_SIZE && forall i :: 0 <= i < CHAINS ==> hash[i] == 0
    ensures Chained(hash, next, src, base, base)
  {
  }

  /** One place enters its chain. */
  lemma {:induction false} Enter(hash: seq<u16>, next: seq<u16>, src: seq<byte>, base: nat, n: nat, key: nat)
    requires Chained(hash, next, src, base, n) && n + 3 <= |src| && key == KeyAt(src, n)
    ensures Chained(hash[key := n % 65536], next[n % DICT_SIZE := hash[key]], src, base, n + 1)
  {
    hide KeyAt;
    var hash2, next2 := hash[key := n % 65536], next[n % DICT_SIZE := hash[key]];
    forall k: nat | k < CHAINS
      ensures hash2[k] == Head(src, base, n + 1, k)
    {
      assert hash[k] == Head(src, base, n, k);
    }
    forall p | base <= p < n + 1 < p + DICT_SIZE
      ensures Follows(next2, src, base, p)
    {
      if p < n {
        assert Follows(next, src, base, p);
        ModApart(p, n);
      }
    }
  }

  lemma {:induction false} HeadLonger(src: seq<byte>, more: seq<byte>, base: nat, n: nat, key: nat)
    requires n > base ==> n + 2 <= |src|
    ensures Head(src + more, base, n, key) == Head(src, base, n, key)
    decreases n
  {
    if n > base {
      HeadLonger(src, more, base, n - 1, key);
    }
  }

  /** More bytes change nothing. */
  lemma {:induction false} ChainedLonger(hash: seq<u16>, next: seq<u16>, src: seq<byte>, more: seq<byte>, base: nat,
                                         n: nat)
    requires Chained(hash, next, src, base, n)
    ensures Chained(hash, next, src + more, base, n)
  {
    hide Head, Key;
    forall k: nat | k < CHAINS
      ensures hash[k] == Head(src + more, base, n, k)
    {
      HeadLonger(src, more, base, n, k);
    }
    forall p | base <= p < n < p + DICT_SIZE
      ensures Follows(next, src + more, base, p)
    {
      assert Follows(next, src, base, p);
      HeadLonger(src, more, base, p, KeyAt(src, p));
    }
  }

  // ---- what a search sees

  /** How many of the places after q and before p belong to a chain. */
  ghost function Between(src: seq<byte>, q: nat, p: nat, key: nat): nat
    requires p > q + 1 ==> p + 2 <= |src|
    decreases p
  {
    if p <= q + 1 then 0 else Between(src, q, p - 1, key) + (if KeyAt(src, p - 1) == key then 1 else 0)
  }

  /** None of the places from q on and before p that belong to a chain looks like none in 16 bits. */
  ghost predicate Visible(src: seq<byte>, q: nat, p: nat, key: nat)
    requires p > q ==> p + 2 <= |src|
  {
    forall i :: q <= i < p && KeyAt(src, i) == key ==> i % 65536 != 0
  }

  /** The nearest place before p. */
  lemma {:induction false} Nearest(src: seq<byte>, base: nat, q: nat, p: nat, key: nat) returns (r: nat)
    requires base <= q < p && p + 2 <= |src| && KeyAt(src, q) == key
    ensures q <= r < p && KeyAt(src, r) == key && Head(src, base, p, key) == r % 65536
    ensures r > q ==> Between(src, q, r, key) < Between(src, q, p, key)
    decreases p
  {
    hide KeyAt;
    if KeyAt(src, p - 1) == key {
      r := p - 1;
    } else {
      r := Nearest(src, base, q, p - 1, key);
    }
  }

  lemma {:induction false} WholeDistance(pos: nat, r: nat, m: nat)
    requires r <= pos <= r + m && m < 65536
    ensures (pos - r % 65536) % 65536 == pos - r && r % 65536 % DICT_SIZE == r % DICT_SIZE
  {
    var k := r / 65536;
    assert r == 65536 * k + r % 65536;
    assert pos - r % 65536 == (pos - r) + 65536 * k;
    ModMultiple(r % 65536, 2 * k);
  }

  /** From place p a walk comes to q if few enough of its chain's places lie between. */
  lemma {:induction false} Reached(hash: seq<u16>, w: Walk, src: seq<byte>, base: nat, n: nat, q: nat, p: nat, k: nat)
    requires Chained(hash, w.next, src, base, n) && base <= q < p <= w.lookaheadPos && p < n
    requires w.lookaheadPos - q <= w.maxDist && w.maxDist <= DICT_SIZE && n < w.lookaheadPos - w.maxDist + DICT_SIZE
    requires KeyAt(src, q) == KeyAt(src, p) && Visible(src, q, p, KeyAt(src, p))
      && Between(src, q, p, KeyAt(src, p)) < k
    ensures w.lookaheadPos - q in Candidates(w, p % DICT_SIZE, k)
    decreases p
  {
    hide KeyAt;
    var key := KeyAt(src, p);
    var r := Nearest(src, base, q, p, key);
    assert Follows(w.next, src, base, p);
    WholeDistance(w.lookaheadPos, r, w.maxDist);
    var more := Candidates(w, r % DICT_SIZE, k - 1);
    assert Candidates(w, p % DICT_SIZE, k) == [w.lookaheadPos - r] + more;
    if r > q {
      Reached(hash, w, src, base, n, q, r, k - 1);
      var i :| 0 <= i < |more| && more[i] == w.lookaheadPos - q;
      assert ([w.lookaheadPos - r] + more)[i + 1] == w.lookaheadPos - q;
    } else {
      assert ([w.lookaheadPos - r] + more)[0] == w.lookaheadPos - q;
    }
  }

  /** The first three bytes are the same. */
  ghost predicate SameStart(src: seq<byte>, q: nat, p: nat)
    requires q <= p && p + 2 < |src|
  {
    src[q] == src[p] && src[q + 1] == src[p + 1] && src[q + 2] == src[p + 2]
  }

  lemma {:induction false} SameKey(src: seq<byte>, q: nat, p: nat)
    requires q <= p && p + 2 < |src| && SameStart(src, q, p)
    ensures KeyAt(src, q) == KeyAt(src, p)
  {
    hide Key;
  }

  /**
   A search that has beaten the first k candidates has found something at least as long as what starts at any earlier
   place of the window with the same first three bytes, if fewer than k places of their chain lie between.
   */
  lemma {:induction false} NothingMissed(hash: seq<u16>, w: Walk, src: seq<byte>, base: nat, n: nat, q: nat, k: nat,
                                         len: nat)
    requires Chained(hash, w.next, src, base, n) && base <= q < w.lookaheadPos < n
    requires w.lookaheadPos - q <= w.maxDist && w.maxDist <= DICT_SIZE && n < w.lookaheadPos - w.maxDist + DICT_SIZE
    requires SameStart(src, q, w.lookaheadPos)
    requires Visible(src, q, w.lookaheadPos, KeyAt(src, q)) && Between(src, q, w.lookaheadPos, KeyAt(src, q)) < k
    requires Beats(w, src, k, len)
    ensures !Repeats(src, w.lookaheadPos, len + 1, w.lookaheadPos - q)
  {
    hide Chained, Repeats, Candidates, KeyAt, Between, Visible, SameStart;
    Sizes(hash, w.next, src, base, n);
    SameKey(src, q, w.lookaheadPos);
    Reached(hash, w, src, base, n, q, w.lookaheadPos, k);
    var v := Candidates(w, w.lookaheadPos % DICT_SIZE, k);
    var i :| 0 <= i < |v| && v[i] == w.lookaheadPos - q;
  }
}
