/** From symbol counts to canonical codes of limited length (tdefl_optimize_huffman_table). */
module HuffmanCodes {
  import opened Bits
  import opened Canonical
  import opened MinRedundancy
  import opened Optimality
  import opened LengthLimit
  import opened LengthLists
  import opened CodeSizeLimit
  import opened LimitCost
  import opened TableCost
  import opened SymbolsInUse

  // ---- the histogram of the lengths

  lemma {:induction false} KraftScale(l: seq<nat>, m: nat, k: nat)
    requires forall i :: 0 <= i < |l| ==> l[i] <= m
    ensures Kraft(l, m + k) == Kraft(l, m) * Pow2(k)
  {
    if l != [] {
      KraftScale(l[1..], m, k);
      Pow2Add(m - l[0], k);
      AddTimes(Pow2(m - l[0]), Kraft(l[1..], m), Pow2(k));
    }
  }

  lemma {:induction false} AddTimes(a: int, b: int, c: int)
    ensures (a + b) * c == a * c + b * c
  {
  }

  /** A full code space is full in any unit. */
  lemma {:induction false} FullAt(l: seq<nat>, n: nat, m: nat)
    requires (forall i :: 0 <= i < |l| ==> l[i] <= n && l[i] <= m) && Kraft(l, n) == Pow2(n)
    ensures Kraft(l, m) == Pow2(m)
  {
    if n <= m {
      KraftScale(l, n, m - n);
      Pow2Add(n, m - n);
    } else {
      KraftScale(l, m, n - m);
      Pow2Add(m, n - m);
      CancelRight(Kraft(l, m), Pow2(m), Pow2(n - m));
      CancelRight(Pow2(m), Kraft(l, m), Pow2(n - m));
    }
  }

  /** num counts the lengths of a list. */
  ghost predicate Counts(num: seq<int>, l: seq<nat>)
  {
    && |num| == MAX_SUPPORTED + 1 && NonNegative(num)
    && (forall i :: 0 <= i < |l| ==> 1 <= l[i] <= MAX_SUPPORTED)
    && (forall v :: 0 <= v <= MAX_SUPPORTED ==> num[v] == Count(l, v))
    && Codes(num, MAX_SUPPORTED) == |l|
    && Space(num, MAX_SUPPORTED, MAX_SUPPORTED) == Kraft(l, MAX_SUPPORTED)
  }

  lemma {:induction false} CountsGrow(num: seq<int>, l: seq<nat>, v: nat)
    requires Counts(num, l) && 1 <= v <= MAX_SUPPORTED
    ensures Counts(num[v := num[v] + 1], l + [v])
  {
    SpaceSet(num, v, num[v] + 1, MAX_SUPPORTED, MAX_SUPPORTED);
    KraftConcat(l, [v], MAX_SUPPORTED);
    assert [v][1..] == [];
    assert Kraft([v], MAX_SUPPORTED) == Pow2(MAX_SUPPORTED - v);
    forall u | 0 <= u <= MAX_SUPPORTED
      ensures num[v := num[v] + 1][u] == Count(l + [v], u)
    {
      CountAppend(l, v, u, |l|);
    }
  }

  lemma {:induction false} CountAppend(l: seq<nat>, v: nat, u: nat, k: nat)
    requires k <= |l|
    ensures CountUpTo(l + [v], u, k) == CountUpTo(l, u, k)
  {
    if k > 0 {
      CountAppend(l, v, u, k - 1);
    }
  }

  lemma {:induction false} DownNothing(num: seq<int>)
    requires |num| == MAX_SUPPORTED + 1 && forall i :: 0 <= i < |num| ==> num[i] == 0
    ensures Down(num, MAX_SUPPORTED) == [] && Counts(num, [])
  {
    DownSkips(num, 0, MAX_SUPPORTED);
    CountsNothing(num, MAX_SUPPORTED);
  }

  /** The next length of a falling list goes to the end. */
  lemma {:induction false} DownGrows(num: seq<int>, keys: seq<nat>, i: nat)
    requires i < |keys| && Counts(num, keys[..i]) && Descending(keys) && 1 <= keys[i] <= MAX_SUPPORTED
    requires Down(num, MAX_SUPPORTED) == keys[..i]
    ensures |num| == MAX_SUPPORTED + 1
    ensures Down(num[keys[i] := num[keys[i]] + 1], MAX_SUPPORTED) == keys[..i + 1]
  {
    hide Down;
    var v := keys[i];
    forall k | 1 <= k < v
      ensures num[k] == 0
    {
      CountNone(keys[..i], k, i);
    }
    DownAppends(num, v, MAX_SUPPORTED);
    assert keys[..i + 1] == keys[..i] + [v];
  }

  lemma {:induction false} CountsNothing(num: seq<int>, l: nat)
    requires |num| == MAX_SUPPORTED + 1 && l <= MAX_SUPPORTED && forall i :: 0 <= i < |num| ==> num[i] == 0
    ensures Codes(num, l) == 0 && Space(num, l, MAX_SUPPORTED) == 0
  {
    if l > 0 {
      CountsNothing(num, l - 1);
    }
  }

  method CountCodes(syms: array<SymFreq>) returns (num: array<int>)
    requires forall i :: 0 <= i < syms.Length ==> 1 <= syms[i].key <= MAX_SUPPORTED
    ensures fresh(num) && Counts(num[..], Keys(syms[..]))
    ensures Descending(Keys(syms[..])) ==> Down(num[..], MAX_SUPPORTED) == Keys(syms[..])
  {
    hide Counts, Down, Descending;
    num := new int[MAX_SUPPORTED + 1](_ => 0);
    DownNothing(num[..]);
    ghost var keys := Keys(syms[..]);
    assert keys[..0] == [];
    var i := 0;
    while i < syms.Length
      invariant 0 <= i <= syms.Length
      invariant num.Length == MAX_SUPPORTED + 1 && Counts(num[..], keys[..i])
      invariant Descending(keys) ==> Down(num[..], MAX_SUPPORTED) == keys[..i]
    {
      ghost var before := num[..];
      if Descending(keys) {
        DownGrows(before, keys, i);
      }
      CountsGrow(before, keys[..i], keys[i]);
      num[syms[i].key] := num[syms[i].key] + 1;
      assert num[..] == before[keys[i] := before[keys[i]] + 1];
      assert keys[..i + 1] == keys[..i] + [keys[i]];
      i := i + 1;
    }
    assert keys[..i] == keys;
  }

  // ---- lengths back to the symbols

  /** Of two symbols in use, the one that occurs more often has no longer a code. */
  ghost predicate FrequentShorter(count: seq<nat>, sizes: seq<nat>)
  {
    |sizes| == |count| && forall c, d :: 0 <= c < |count| && 0 <= d < |count| && count[c] > count[d] > 0 ==>
      sizes[c] <= sizes[d]
  }

  lemma {:induction false} CountUpToSet(lens: seq<nat>, c: nat, v: nat, l: nat, k: nat)
    requires c < |lens| && k <= |lens| && lens[c] == 0 && v > 0 && l > 0
    ensures CountUpTo(lens[c := v], l, k) == CountUpTo(lens, l, k) + (if c < k && l == v then 1 else 0)
  {
    if k > 0 {
      CountUpToSet(lens, c, v, l, k - 1);
    }
  }

  lemma {:induction false} CountSet(lens: seq<nat>, c: nat, v: nat, l: nat)
    requires c < |lens| && lens[c] == 0 && v > 0 && l > 0
    ensures Count(lens[c := v], l) == Count(lens, l) + (if l == v then 1 else 0)
  {
    CountUpToSet(lens, c, v, l, |lens|);
  }

  lemma {:induction false} CountNone(lens: seq<nat>, l: nat, k: nat)
    requires k <= |lens| && l > 0 && forall i :: 0 <= i < k ==> lens[i] != l
    ensures CountUpTo(lens, l, k) == 0
  {
    if k > 0 {
      CountNone(lens, l, k - 1);
    }
  }

  /** Lengths have been given to the symbols from place j on. */
  ghost predicate Assigned(lens: seq<nat>, t: seq<SymFreq>, j: nat, n: nat, max: nat)
  {
    && |lens| == n && j <= |t|
    && (forall p :: 0 <= p < |t| ==> t[p].sym < n)
    && (forall p :: j <= p < |t| ==> 1 <= lens[t[p].sym] <= max)
    && (forall c :: 0 <= c < n && lens[c] != 0 ==> GivenTo(t, j, c))
  }

  ghost predicate GivenTo(t: seq<SymFreq>, j: nat, c: nat)
  {
    exists p :: j <= p < |t| && t[p].sym == c
  }

  /** The symbols from place j on have the lengths of the list, in its order. */
  ghost predicate InList(lens: seq<nat>, t: seq<SymFreq>, j: nat, list: seq<nat>)
  {
    && j + |list| == |t| && (forall p :: 0 <= p < |t| ==> t[p].sym < |lens|)
    && (forall p :: j <= p < |t| ==> lens[t[p].sym] == list[p - j])
  }

  lemma {:induction false} SymbolBelow(lens: seq<nat>, t: seq<SymFreq>, j: nat, list: seq<nat>)
    requires InList(lens, t, j, list) && 0 < j
    ensures j <= |t| && t[j - 1].sym < |lens|
  {
  }

  lemma {:induction false} ListGrows(lens: seq<nat>, t: seq<SymFreq>, j: nat, k: nat, i: nat, rest: seq<nat>)
    requires InList(lens, t, j, Times(k, i) + rest) && 0 < j && forall p, q :: 0 <= p < q < |t| ==> t[p].sym != t[q].sym
    ensures j <= |t| && t[j - 1].sym < |lens|
    ensures InList(lens[t[j - 1].sym := i], t, j - 1, Times(k + 1, i) + rest)
  {
    assert Times(k + 1, i) + rest == [i] + (Times(k, i) + rest);
  }

  /** The lengths below i have been given out, to the symbols from place j on. */
  ghost predicate UpTo(lens: seq<nat>, t: seq<SymFreq>, num: seq<int>, i: nat, j: nat, limit: nat)
  {
    && limit < |num| && 1 <= i <= limit + 1 && j <= |t| && Assigned(lens, t, j, |lens|, limit)
    && CountsSoFar(lens, num, i, 0, limit) && InList(lens, t, j, Down(num, i - 1))
  }

  /** No lengths yet. */
  lemma {:induction false} NoneAssigned(lens: seq<nat>, t: seq<SymFreq>, num: seq<int>, count: seq<nat>, limit: nat)
    requires |lens| == |count| && UsedOnce(count, t) && limit < |num| && forall c :: 0 <= c < |lens| ==> lens[c] == 0
    ensures UpTo(lens, t, num, 1, |t|, limit)
  {
    forall l | 1 <= l <= limit
      ensures Count(lens, l) == 0
    {
      CountNone(lens, l, |lens|);
    }
  }

  lemma {:induction false} Monotone(count: seq<nat>, t: seq<SymFreq>, lens: seq<nat>, list: seq<nat>)
    requires UsedOnce(count, t) && InCountOrder(count, t) && |lens| == |count| && InList(lens, t, 0, list)
    requires forall p, q :: 0 <= p < q < |list| ==> list[p] >= list[q]
    ensures FrequentShorter(count, lens)
  {
    forall c, d | 0 <= c < |count| && 0 <= d < |count| && count[c] > count[d] > 0
      ensures lens[c] <= lens[d]
    {
      assert Holds(t, c) && Holds(t, d);
      var p :| 0 <= p < |t| && t[p].sym == c;
      var q :| 0 <= q < |t| && t[q].sym == d;
      assert p != q;
    }
  }

  lemma {:induction false} AssignOne(lens: seq<nat>, t: seq<SymFreq>, j: nat, n: nat, max: nat, v: nat)
    requires Assigned(lens, t, j, n, max) && j > 0 && 1 <= v <= max
    requires forall p, q :: 0 <= p < q < |t| ==> t[p].sym != t[q].sym
    ensures lens[t[j - 1].sym] == 0
    ensures Assigned(lens[t[j - 1].sym := v], t, j - 1, n, max)
  {
    var x := t[j - 1].sym;
    var lens' := lens[x := v];
    forall c | 0 <= c < n && lens'[c] != 0
      ensures GivenTo(t, j - 1, c)
    {
      if c != x {
        assert GivenTo(t, j, c);
        var p :| j <= p < |t| && t[p].sym == c;
      } else {
        assert t[j - 1].sym == c;
      }
    }
  }

  /** So many symbols have each length: all of them below i, and done of length i. */
  ghost predicate CountsSoFar(lens: seq<nat>, num: seq<int>, i: nat, done: int, limit: nat)
    requires limit < |num|
  {
    forall l :: 1 <= l <= limit ==> Count(lens, l) == if l < i then num[l] else if l == i then done else 0
  }

  lemma {:induction false} CountsOneMore(lens: seq<nat>, num: seq<int>, i: nat, done: int, limit: nat, c: nat)
    requires limit < |num| && 1 <= i <= limit && CountsSoFar(lens, num, i, done, limit)
    requires c < |lens| && lens[c] == 0
    ensures CountsSoFar(lens[c := i], num, i, done + 1, limit)
  {
    forall l | 1 <= l <= limit
      ensures Count(lens[c := i], l) == if l < i then num[l] else if l == i then done + 1 else 0
    {
      CountSet(lens, c, i, l);
    }
  }

  lemma {:induction false} CodesMono(num: seq<int>, i: nat, j: nat)
    requires i <= j < |num| && NonNegative(num)
    ensures Codes(num, i) <= Codes(num, j)
  {
    if i < j {
      CodesMono(num, i, j - 1);
    }
  }

  /** The symbols of one length, from place j down. */
  method AssignLength(syms: array<SymFreq>, howMany: nat, i: nat, j0: nat, sizes: array<nat>, ghost t: seq<SymFreq>,
                      ghost num: seq<int>, limit: nat)
    returns (j: nat)
    requires howMany <= j0 && 1 <= i <= limit < |num| && num[i] == howMany
    requires syms[..] == t && forall p, q :: 0 <= p < q < |t| ==> t[p].sym != t[q].sym
    requires UpTo(sizes[..], t, num, i, j0, limit)
    modifies sizes
    ensures j == j0 - howMany && UpTo(sizes[..], t, num, i + 1, j, limit)
  {
    hide Assigned, InList, Count;
    j := j0;
    assert Times(0, i) + Down(num, i - 1) == Down(num, i - 1);
    var l := howMany;
    while l > 0
      invariant 0 <= l <= howMany && j == j0 - (howMany - l)
      invariant Assigned(sizes[..], t, j, sizes.Length, limit)
      invariant CountsSoFar(sizes[..], num, i, howMany - l, limit)
      invariant InList(sizes[..], t, j, Times(howMany - l, i) + Down(num, i - 1))
    {
      ghost var before := sizes[..];
      ListGrows(before, t, j, howMany - l, i, Down(num, i - 1));
      AssignOne(before, t, j, sizes.Length, limit, i);
      CountsOneMore(before, num, i, howMany - l, limit, t[j - 1].sym);
      SymbolBelow(before, t, j, Times(howMany - l, i) + Down(num, i - 1));
      j := j - 1;
      sizes[syms[j].sym] := i;
      assert sizes[..] == before[t[j].sym := i];
      l := l - 1;
    }
  }

  /** What the table promises: exactly the symbols that occur have a code, and tinfl takes the lengths. */
  ghost predicate CodeLengthsFor(count: seq<nat>, sizes: seq<nat>, limit: nat)
  {
    && |sizes| == |count|
    && (forall c :: 0 <= c < |count| ==> sizes[c] <= limit && (sizes[c] > 0 <==> count[c] > 0))
    && Accepts(sizes)
  }

  method AssignSizes(syms: array<SymFreq>, num: array<int>, limit: nat, sizes: array<nat>, ghost count: seq<nat>)
    requires num.Length == MAX_SUPPORTED + 1 && 1 <= limit <= MAX_SUPPORTED
    requires NonNegative(num[..]) && Codes(num[..], limit) == syms.Length
    requires sizes.Length == |count| && UsedOnce(count, syms[..])
    modifies sizes
    ensures forall c :: 0 <= c < |count| ==> sizes[c] <= limit && (sizes[c] > 0 <==> count[c] > 0)
    ensures forall l :: 1 <= l <= limit ==> Count(sizes[..], l) == num[l]
    ensures InCountOrder(count, syms[..]) ==> FrequentShorter(count, sizes[..])
    ensures InList(sizes[..], syms[..], 0, Down(num[..], limit))
  {
    hide InList, Down, UpTo, UsedOnce, InCountOrder, FrequentShorter, Count, Codes;
    ghost var t, nm := syms[..], num[..];
    forall c | 0 <= c < sizes.Length {
      sizes[c] := 0;
    }
    NoneAssigned(sizes[..], t, nm, count, limit);
    DifferentSymbols(count, t);
    NoCodesYet(nm);
    var i, j := 1, syms.Length;
    while i <= limit
      invariant 1 <= i <= limit + 1
      invariant 0 <= j && j == |t| - Codes(nm, i - 1)
      invariant UpTo(sizes[..], t, nm, i, j, limit)
    {
      CodesMono(nm, i, limit);
      CodesStep(nm, i);
      j := AssignLength(syms, num[i], i, j, sizes, t, nm, limit);
      i := i + 1;
    }
    assert syms[..] == t && num[..] == nm;
    AllAssigned(sizes[..], t, nm, count, limit);
  }

  lemma {:induction false} DifferentSymbols(count: seq<nat>, t: seq<SymFreq>)
    requires UsedOnce(count, t)
    ensures forall p, q :: 0 <= p < q < |t| ==> t[p].sym != t[q].sym
  {
  }

  lemma {:induction false} NoCodesYet(num: seq<int>)
    requires num != []
    ensures Codes(num, 0) == 0
  {
  }

  lemma {:induction false} CodesStep(num: seq<int>, i: nat)
    requires 1 <= i < |num|
    ensures Codes(num, i) == Codes(num, i - 1) + num[i]
  {
  }

  lemma {:induction false} AllAssigned(lens: seq<nat>, t: seq<SymFreq>, num: seq<int>, count: seq<nat>, limit: nat)
    requires |lens| == |count| && NonNegative(num) && UpTo(lens, t, num, limit + 1, 0, limit) && UsedOnce(count, t)
    ensures forall c :: 0 <= c < |count| ==> lens[c] <= limit && (lens[c] > 0 <==> count[c] > 0)
    ensures forall l :: 1 <= l <= limit ==> Count(lens, l) == num[l]
    ensures InCountOrder(count, t) ==> FrequentShorter(count, lens)
    ensures InList(lens, t, 0, Down(num, limit))
  {
    hide FrequentShorter, InCountOrder, Down;
    forall c | 0 <= c < |count|
      ensures lens[c] <= limit && (lens[c] > 0 <==> count[c] > 0)
    {
      if lens[c] > 0 {
        assert GivenTo(t, 0, c);
      }
      if count[c] > 0 {
        assert Holds(t, c);
      }
    }
    if InCountOrder(count, t) {
      DownShape(num, limit);
      Monotone(count, t, lens, Down(num, limit));
    }
  }

  // ---- tinfl accepts the lengths

  lemma {:induction false} SpaceIsUsed(lens: seq<nat>, num: seq<int>, l: nat)
    requires l < |num| && forall k :: 1 <= k <= l ==> Count(lens, k) == num[k]
    ensures Used(lens, l) == Space(num, l, l)
    ensures UsedSymbols(lens, l) == Codes(num, l)
  {
    if l > 0 {
      SpaceIsUsed(lens, num, l - 1);
      SpaceFiner(num, l - 1, l - 1);
      assert Pow2(0) == 1;
    }
  }

  lemma {:induction false} UsedAbove(lens: seq<nat>, limit: nat, m: nat)
    requires limit <= m && forall k :: limit < k <= m ==> Count(lens, k) == 0
    ensures Used(lens, m) == Used(lens, limit) * Pow2(m - limit)
    ensures UsedSymbols(lens, m) == UsedSymbols(lens, limit)
  {
    if limit < m {
      hide Count;
      UsedAbove(lens, limit, m - 1);
      Doubled(Used(lens, limit), Pow2(m - 1 - limit));
    }
  }

  lemma {:induction false} Accepted(lens: seq<nat>, num: seq<int>, limit: nat)
    requires 1 <= limit <= MAX_LEN < |num| && forall c :: 0 <= c < |lens| ==> lens[c] <= limit
    requires forall l :: 1 <= l <= limit ==> Count(lens, l) == num[l]
    requires Codes(num, limit) <= 1 || Space(num, limit, limit) == Pow2(limit)
    ensures Accepts(lens)
  {
    hide Used, Space, Codes, UsedSymbols, Pow2;
    SpaceIsUsed(lens, num, limit);
    forall k | limit < k <= MAX_LEN
      ensures Count(lens, k) == 0
    {
      CountNone(lens, k, |lens|);
    }
    UsedAbove(lens, limit, MAX_LEN);
    Pow2Add(limit, MAX_LEN - limit);
  }

  /** The histogram of a minimum-redundancy code is full. */
  lemma {:induction false} CountsAreFull(num: seq<int>, lens: seq<nat>)
    requires Counts(num, lens) && FillsExactly(lens)
    ensures FullHistogram(num, |lens|)
  {
    FullAt(lens, |lens|, MAX_SUPPORTED);
  }

  lemma {:induction false} CountsOfOne(num: seq<int>, lens: seq<nat>, limit: nat)
    requires Counts(num, lens) && 1 <= limit <= MAX_SUPPORTED && |lens| <= 1
    requires |lens| == 1 ==> lens[0] == 1
    ensures Codes(num, limit) == |lens|
  {
    CodesFrom(num, lens, 1, limit);
  }

  lemma {:induction false} CodesFrom(num: seq<int>, lens: seq<nat>, l: nat, limit: nat)
    requires Counts(num, lens) && l == 1 <= limit <= MAX_SUPPORTED && |lens| <= 1
    requires |lens| == 1 ==> lens[0] == 1
    ensures Codes(num, limit) == |lens|
  {
    if limit > 1 {
      CodesFrom(num, lens, l, limit - 1);
      CountNone(lens, limit, |lens|);
    } else {
      assert num[1] == Count(lens, 1) == |lens|;
    }
  }

  // ---- the codes

  ghost predicate CanonicalCode(sizes: seq<nat>, c: nat, code: nat)
    requires c < |sizes|
  {
    sizes[c] > 0 ==> code < Pow2(sizes[c]) && ToBits(code, sizes[c]) == Codeword(sizes, c)
  }

  /** Every symbol in use has its canonical code word, first bit lowest. */
  ghost predicate CanonicalCodes(sizes: seq<nat>, codes: seq<nat>)
  {
    |codes| == |sizes| && forall c :: 0 <= c < |sizes| ==> CanonicalCode(sizes, c, codes[c])
  }

  /** The codes to hand out next, after the first k symbols. */
  ghost predicate FreeCodes(nextCode: seq<nat>, lens: seq<nat>, k: nat, limit: nat)
    requires k <= |lens|
  {
    |nextCode| == limit + 1 && forall l :: 1 <= l <= limit ==> nextCode[l] == NextCode(lens, l) + CountUpTo(lens, l, k)
  }

  method FirstCode(num: array<int>, limit: nat, ghost lens: seq<nat>) returns (nextCode: array<nat>)
    requires 1 <= limit < num.Length && forall l :: 1 <= l <= limit ==> Count(lens, l) == num[l]
    ensures fresh(nextCode) && FreeCodes(nextCode[..], lens, 0, limit)
  {
    hide CountUpTo, Count;
    nextCode := new nat[limit + 1](_ => 0);
    var j := 0;
    var i := 2;
    while i <= limit
      invariant 2 <= i <= limit + 1 || limit == 1
      invariant j == NextCode(lens, i - 1)
      invariant forall l :: 1 <= l < i && l <= limit ==> nextCode[l] == NextCode(lens, l)
    {
      j := 2 * (j + num[i - 1]);
      nextCode[i] := j;
      i := i + 1;
    }
  }

  method AssignCode(nextCode: array<nat>, codeSize: nat, ghost lens: seq<nat>, ghost i: nat, ghost limit: nat)
    returns (revCode: nat)
    requires i < |lens| && 0 < codeSize == lens[i] <= limit && FreeCodes(nextCode[..], lens, i, limit)
    modifies nextCode
    ensures FreeCodes(nextCode[..], lens, i + 1, limit)
    ensures CanonicalCode(lens, i, revCode)
  {
    var code := nextCode[codeSize];
    assert code == CodeVal(lens, i);
    nextCode[codeSize] := code + 1;
    revCode := ReverseCode(code, codeSize);
  }

  method AssignCodes(num: array<int>, limit: nat, sizes: array<nat>, codes: array<nat>)
    requires 1 <= limit < num.Length && sizes.Length == codes.Length && sizes != codes
    requires forall l :: 1 <= l <= limit ==> Count(sizes[..], l) == num[l]
    requires forall c :: 0 <= c < sizes.Length ==> sizes[c] <= limit
    modifies codes
    ensures CanonicalCodes(sizes[..], codes[..])
  {
    ghost var lens := sizes[..];
    var nextCode := FirstCode(num, limit, lens);
    var i := 0;
    while i < sizes.Length
      invariant 0 <= i <= sizes.Length
      invariant FreeCodes(nextCode[..], lens, i, limit)
      invariant forall c :: 0 <= c < i ==> CanonicalCode(lens, c, codes[c])
    {
      if sizes[i] != 0 {
        codes[i] := AssignCode(nextCode, sizes[i], lens, i, limit);
      }
      i := i + 1;
    }
  }

  /**
   tdefl_optimize_huffman_table for a dynamic table: from counts whose sum fits 16 bits to
   lengths that tinfl accepts, for exactly the symbols that occur and none longer for a more
   frequent one, and their canonical codes. With the limit at 15 the table is close to the best.
   */
  method OptimizeHuffmanTable(count: array<nat>, limit: nat, sizes: array<nat>, codes: array<nat>)
    requires count.Length <= 288 && Sum(count[..]) < 65536
    requires sizes.Length == codes.Length == count.Length && sizes != codes && count != sizes && count != codes
    requires 1 <= limit <= MAX_LEN && count.Length <= Pow2(limit)
    modifies sizes, codes
    ensures CodeLengthsFor(count[..], sizes[..], limit) && FrequentShorter(count[..], sizes[..])
    ensures limit == LONGEST ==> CloseToBest(count[..], sizes[..])
    ensures CanonicalCodes(sizes[..], codes[..])
  {
    hide CodeLengthsFor, FrequentShorter, CloseToBest, CanonicalCodes, UsedOnce, InCountOrder, Ascending, Sum, Count,
      Pow2;
    ghost var cs := count[..];
    var syms := SortUsed(count);
    var num := SizeSymbols(syms, limit, sizes, cs);
    assert count[..] == cs;
    LengthsBelow(cs, sizes[..], limit);
    AssignCodes(num, limit, sizes, codes);
  }

  lemma {:induction false} LengthsBelow(count: seq<nat>, sizes: seq<nat>, limit: nat)
    requires CodeLengthsFor(count, sizes, limit)
    ensures forall c :: 0 <= c < |sizes| ==> sizes[c] <= limit
  {
  }

  /** The keys are the counts of the symbols, in ascending order. */
  ghost predicate CountKeys(count: seq<nat>, t: seq<SymFreq>)
  {
    && Entries(t, count, Keys(t)) && |t| <= |count|
    && Ascending(Keys(t)) && Sum(Keys(t)) < 65536 && 0 !in Keys(t)
  }

  method SizeSymbols(syms: array<SymFreq>, limit: nat, sizes: array<nat>, ghost count: seq<nat>)
    returns (num: array<int>)
    requires syms.Length <= sizes.Length == |count| <= Pow2(limit) && 1 <= limit <= MAX_LEN && |count| < 65536
    requires UsedOnce(count, syms[..]) && InCountOrder(count, syms[..]) && CountKeys(count, syms[..])
    modifies syms, sizes
    ensures CodeLengthsFor(count, sizes[..], limit) && FrequentShorter(count, sizes[..])
    ensures limit == LONGEST ==> CloseToBest(count, sizes[..])
    ensures fresh(num) && num.Length == MAX_SUPPORTED + 1 && forall l :: 1 <= l <= limit ==>
      Count(sizes[..], l) == num[l]
  {
    hide UsedOnce, InCountOrder, FrequentShorter, CloseToBest, GoodLengths, Space, Codes, Down, InList, Accepts, Count,
      Pow2, Ascending, Sum;
    ghost var w, before := Keys(syms[..]), syms[..];
    ghost var o;
    num, o := LimitedLengths(syms, limit, count);
    AssignSizes(syms, num, limit, sizes, count);
    Accepted(sizes[..], num[..], limit);
    if limit == LONGEST {
      SameEntries(syms[..], before, count, w);
      ListEntries(syms[..], sizes[..], Down(num[..], limit));
      CloseEnough(count, syms[..], sizes[..], w, o, Down(num[..], limit));
    }
  }

  lemma {:induction false} SameEntries(t: seq<SymFreq>, s: seq<SymFreq>, count: seq<nat>, w: seq<nat>)
    requires |t| == |s| && (forall p :: 0 <= p < |s| ==> t[p].sym == s[p].sym) && Entries(s, count, w)
    ensures Entries(t, count, w)
  {
  }

  lemma {:induction false} ListEntries(t: seq<SymFreq>, sizes: seq<nat>, list: seq<nat>)
    requires InList(sizes, t, 0, list)
    ensures Entries(t, sizes, list)
  {
  }

  /** The sorted symbols lose their counts and get lengths; the histogram is brought below the limit. */
  method LimitedLengths(syms: array<SymFreq>, limit: nat, ghost count: seq<nat>)
    returns (num: array<int>, ghost o: seq<nat>)
    requires syms.Length <= Pow2(limit) && 1 <= limit <= MAX_LEN && syms.Length < 65536
    requires UsedOnce(count, syms[..]) && InCountOrder(count, syms[..]) && CountKeys(count, syms[..])
    modifies syms
    ensures UsedOnce(count, syms[..]) && InCountOrder(count, syms[..])
    ensures forall p :: 0 <= p < syms.Length ==> syms[p].sym == old(syms[p].sym)
    ensures fresh(num) && num.Length == MAX_SUPPORTED + 1
    ensures NonNegative(num[..]) && Codes(num[..], limit) == syms.Length
    ensures syms.Length <= 1 || Space(num[..], limit, limit) == Pow2(limit)
    ensures GoodLengths(old(Keys(syms[..])), o, Down(num[..], limit), limit)
  {
    hide UsedOnce, InCountOrder, Minimal, Light, FillsExactly, Counts, Space, Codes, Down, Pow2, Sum, Shortened;
    ghost var before, w := syms[..], Keys(syms[..]);
    CalculateMinimumRedundancy(syms);
    SameSymbols(count, before, syms[..]);
    o := Keys(syms[..]);
    LengthsInRange(o);
    forall i | 0 <= i < syms.Length
      ensures 1 <= syms[i].key <= MAX_SUPPORTED
    {
      assert Keys(syms[..])[i] == syms[i].key;
    }
    num := CountCodes(syms);
    CountsShape(num[..], o);
    ghost var nm := num[..];
    if syms.Length > 1 {
      CountsAreFull(num[..], o);
    } else {
      CountsOfOne(num[..], o, limit);
      DownOfOne(num[..], o, limit);
    }
    EnforceMaxCodeSize(num, syms.Length, limit);
    DownShape(num[..], limit);
  }

  lemma {:induction false} LengthsInRange(o: seq<nat>)
    ensures FillsExactly(o) ==> forall i :: 0 <= i < |o| ==> o[i] >= 1
  {
  }

  lemma {:induction false} CountsShape(num: seq<int>, l: seq<nat>)
    requires Counts(num, l)
    ensures |num| == MAX_SUPPORTED + 1 && NonNegative(num)
  {
  }

  lemma {:induction false} DownOfOne(num: seq<int>, o: seq<nat>, limit: nat)
    requires Counts(num, o) && Down(num, MAX_SUPPORTED) == o && 1 <= limit <= MAX_SUPPORTED && |o| <= 1
    requires |o| == 1 ==> o[0] == 1
    ensures Down(num, limit) == o
  {
    forall k | limit < k <= MAX_SUPPORTED
      ensures num[k] == 0
    {
      CountNone(o, k, |o|);
    }
    DownSkips(num, limit, MAX_SUPPORTED);
  }

  lemma {:induction false} SameSymbols(count: seq<nat>, s: seq<SymFreq>, t: seq<SymFreq>)
    requires UsedOnce(count, s) && InCountOrder(count, s) && |s| == |t| && forall i :: 0 <= i < |s| ==>
      t[i].sym == s[i].sym
    ensures UsedOnce(count, t) && InCountOrder(count, t)
  {
    forall c | 0 <= c < |count| && count[c] > 0
      ensures Holds(t, c)
    {
      assert Holds(s, c);
      var p :| 0 <= p < |s| && s[p].sym == c;
      assert t[p].sym == c;
    }
  }

  /** tdefl_optimize_huffman_table for a static table: the lengths are there already. */
  method OptimizeStaticTable(sizes: array<nat>, codes: array<nat>)
    requires sizes.Length == codes.Length && sizes != codes && ValidLengths(sizes[..])
    modifies codes
    ensures CanonicalCodes(sizes[..], codes[..])
  {
    hide CanonicalCodes;
    var num := new int[MAX_LEN + 1](_ => 0);
    var i := 0;
    while i < sizes.Length
      invariant 0 <= i <= sizes.Length && ValidLengths(sizes[..])
      invariant forall l :: 0 <= l <= MAX_LEN ==> num[l] == CountUpTo(sizes[..], l, i)
    {
      assert sizes[..][i] == sizes[i] <= MAX_LEN;
      num[sizes[i]] := num[sizes[i]] + 1;
      i := i + 1;
    }
    assert forall c :: 0 <= c < sizes.Length ==> sizes[..][c] == sizes[c];
    AssignCodes(num, MAX_LEN, sizes, codes);
  }
}
