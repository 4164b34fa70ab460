/** Canonical Huffman codes (section 3.2.2 of RFC 1951), as both sides of miniz assign them. */
module Canonical {
  import opened Bits

  const MAX_LEN := 15

  /** Code lengths of a table: 0 marks an unused symbol. */
  ghost predicate ValidLengths(lens: seq<nat>)
  {
    forall i :: 0 <= i < |lens| ==> lens[i] <= MAX_LEN
  }

  /** Number of symbols among the first k with code length l. */
  function CountUpTo(lens: seq<nat>, l: nat, k: nat): (c: nat)
    requires k <= |lens|
    ensures c <= k
  {
    if k == 0 then 0 else CountUpTo(lens, l, k - 1) + (if lens[k - 1] == l then 1 else 0)
  }

  function Count(lens: seq<nat>, l: nat): nat
  {
    CountUpTo(lens, l, |lens|)
  }

  /** First code of length l: the recurrence both tdefl and tinfl run. */
  function NextCode(lens: seq<nat>, l: nat): nat
  {
    if l <= 1 then 0 else 2 * (NextCode(lens, l - 1) + Count(lens, l - 1))
  }

  /** The space used by codes up to length l, in units of 2^-l. */
  function Used(lens: seq<nat>, l: nat): nat
  {
    if l == 0 then 0 else NextCode(lens, l) + Count(lens, l)
  }

  /** Kraft inequality. */
  ghost predicate Fits(lens: seq<nat>)
  {
    Used(lens, MAX_LEN) <= Pow2(MAX_LEN)
  }

  /** Kraft sum exactly one. */
  ghost predicate Complete(lens: seq<nat>)
  {
    Used(lens, MAX_LEN) == Pow2(MAX_LEN)
  }

  function CodeVal(lens: seq<nat>, s: nat): nat
    requires s < |lens|
  {
    NextCode(lens, lens[s]) + CountUpTo(lens, lens[s], s)
  }

  /** The code word of symbol s, in transmission order. */
  function Codeword(lens: seq<nat>, s: nat): (w: seq<bool>)
    requires s < |lens|
    ensures |w| == lens[s]
  {
    MsbBits(CodeVal(lens, s), lens[s])
  }

  /** Symbol s is what a decoder reads at the front of bits. */
  predicate Decodes(lens: seq<nat>, bits: seq<bool>, s: nat)
  {
    s < |lens| && lens[s] > 0 && Codeword(lens, s) <= bits
  }

  lemma {:induction false} CountMono(lens: seq<nat>, l: nat, a: nat, b: nat)
    requires a < b <= |lens| && lens[a] == l
    ensures CountUpTo(lens, l, a) < CountUpTo(lens, l, b)
  {
    if b > a + 1 {
      CountMono(lens, l, a, b - 1);
    }
  }

  lemma {:induction false} NextCodeGrows(lens: seq<nat>, l: nat, m: nat)
    requires 1 <= l < m
    ensures NextCode(lens, m) >= Pow2(m - l) * Used(lens, l)
  {
    if m > l + 1 {
      NextCodeGrows(lens, l, m - 1);
      var p, u := Pow2(m - 1 - l), Used(lens, l);
      assert Pow2(m - l) == 2 * p;
      MulAssoc2(p, u);
    } else {
      assert Pow2(1) == 2 * Pow2(0);
    }
  }

  lemma {:induction false} UsedBound(lens: seq<nat>, l: nat)
    requires Fits(lens) && 1 <= l <= MAX_LEN
    ensures Used(lens, l) <= Pow2(l)
  {
    if l < MAX_LEN {
      NextCodeGrows(lens, l, MAX_LEN);
      Pow2Add(MAX_LEN - l, l);
      MulCancel(Pow2(MAX_LEN - l), Used(lens, l), Pow2(l));
    }
  }

  lemma {:induction false} CodeValBound(lens: seq<nat>, s: nat)
    requires s < |lens| && lens[s] > 0
    ensures CodeVal(lens, s) < Used(lens, lens[s])
    ensures ValidLengths(lens) && Fits(lens) ==> CodeVal(lens, s) < Pow2(lens[s])
  {
    CountMono(lens, lens[s], s, |lens|);
    if ValidLengths(lens) && Fits(lens) {
      UsedBound(lens, lens[s]);
    }
  }

  lemma {:induction false} SameRank(lens: seq<nat>, s: nat, t: nat)
    requires s < |lens| && t < |lens| && lens[s] == lens[t]
    requires CodeVal(lens, s) == CodeVal(lens, t)
    ensures s == t
  {
    if s < t {
      CountMono(lens, lens[s], s, t);
    } else if t < s {
      CountMono(lens, lens[s], t, s);
    }
  }

  lemma {:induction false} DivAtLeast(v: nat, p: nat, u: nat)
    requires p > 0 && v >= p * u
    ensures v / p >= u
  {
    var q, r := v / p, v % p;
    assert v == p * q + r;
    if q < u {
      MulMono(p, q + 1, u);
    }
  }

  /** Equal beginnings of code words have equal values. */
  lemma {:induction false} CutValue(a: nat, l: nat, v: nat, m: nat)
    requires l <= m && a < Pow2(l) && v < Pow2(m)
    requires MsbBits(a, l) == MsbBits(v, m)[..l]
    ensures a == v / Pow2(m - l)
  {
    MsbPrefix(v, m, l);
    DivBelow(v, Pow2(m - l), Pow2(l), m, l);
    FromMsbOfMsb(a, l);
    FromMsbOfMsb(v / Pow2(m - l), l);
  }

  /** No code word is the beginning of another one. */
  lemma {:induction false} PrefixFree(lens: seq<nat>, s: nat, t: nat)
    requires ValidLengths(lens) && Fits(lens)
    requires s < |lens| && t < |lens| && lens[s] > 0 && lens[t] > 0
    requires Codeword(lens, s) <= Codeword(lens, t)
    ensures s == t
  {
    CodeValBound(lens, s);
    CodeValBound(lens, t);
    var l, m := lens[s], lens[t];
    assert l <= m && MsbBits(CodeVal(lens, t), m)[..l] == MsbBits(CodeVal(lens, s), l);
    CutValue(CodeVal(lens, s), l, CodeVal(lens, t), m);
    if l == m {
      assert Pow2(0) == 1;
      SameRank(lens, s, t);
    } else {
      LongerAbove(lens, l, m, CodeVal(lens, t));
    }
  }

  /** A code longer than l, cut to l bits, is no code of length l. */
  lemma {:induction false} LongerAbove(lens: seq<nat>, l: nat, m: nat, v: nat)
    requires 1 <= l < m && v >= NextCode(lens, m)
    ensures v / Pow2(m - l) >= Used(lens, l)
  {
    NextCodeGrows(lens, l, m);
    DivAtLeast(v, Pow2(m - l), Used(lens, l));
  }

  lemma {:induction false} DivBelow(v: nat, p: nat, q: nat, m: nat, l: nat)
    requires l <= m && p == Pow2(m - l) && q == Pow2(l) && v < Pow2(m)
    ensures v / p < q
  {
    Pow2Add(m - l, l);
    QuotientBelow(v, p, q);
  }

  /** A decoder never has a choice. */
  lemma {:induction false} DecodesUnique(lens: seq<nat>, bits: seq<bool>, s: nat, t: nat)
    requires ValidLengths(lens) && Fits(lens)
    requires Decodes(lens, bits, s) && Decodes(lens, bits, t)
    ensures s == t
  {
    if lens[s] <= lens[t] {
      assert Codeword(lens, s) <= Codeword(lens, t);
      PrefixFree(lens, s, t);
    } else {
      assert Codeword(lens, t) <= Codeword(lens, s);
      PrefixFree(lens, t, s);
    }
  }

  lemma {:induction false} RankExists(lens: seq<nat>, l: nat, r: nat, k: nat) returns (s: nat)
    requires k <= |lens| && r < CountUpTo(lens, l, k)
    ensures s < k && lens[s] == l && CountUpTo(lens, l, s) == r
  {
    if lens[k - 1] == l && CountUpTo(lens, l, k - 1) == r {
      s := k - 1;
    } else {
      s := RankExists(lens, l, r, k - 1);
    }
  }

  lemma {:induction false} MsbStep(bits: seq<bool>, l: nat)
    requires l < |bits|
    ensures FromMsb(bits[..l + 1]) == 2 * FromMsb(bits[..l]) + Bit(bits[l])
  {
    assert bits[..l + 1][..l] == bits[..l];
  }

  lemma {:induction false} FoundAt(lens: seq<nat>, bits: seq<bool>, l: nat) returns (s: nat)
    requires ValidLengths(lens) && |bits| >= MAX_LEN && 1 <= l <= MAX_LEN
    requires NextCode(lens, l) <= FromMsb(bits[..l]) < Used(lens, l)
    ensures Decodes(lens, bits, s)
  {
    s := RankExists(lens, l, FromMsb(bits[..l]) - NextCode(lens, l), |lens|);
    MsbOfFromMsb(bits[..l]);
  }

  lemma {:induction false} LongerCodes(lens: seq<nat>, bits: seq<bool>, l: nat)
    requires 1 <= l < |bits| && FromMsb(bits[..l]) >= Used(lens, l)
    ensures FromMsb(bits[..l + 1]) >= NextCode(lens, l + 1)
  {
    MsbStep(bits, l);
  }

  /** Searching lengths l, l+1, ... finds the symbol of a complete code. */
  lemma {:induction false} FindFrom(lens: seq<nat>, bits: seq<bool>, l: nat) returns (s: nat)
    requires ValidLengths(lens) && Complete(lens)
    requires |bits| >= MAX_LEN && 1 <= l <= MAX_LEN
    requires FromMsb(bits[..l]) >= NextCode(lens, l)
    ensures Decodes(lens, bits, s)
    decreases MAX_LEN - l
  {
    hide NextCode, Used, FromMsb, Decodes, ValidLengths;
    if FromMsb(bits[..l]) < Used(lens, l) {
      s := FoundAt(lens, bits, l);
    } else if l < MAX_LEN {
      LongerCodes(lens, bits, l);
      s := FindFrom(lens, bits, l + 1);
    } else {
      assert false;
    }
  }

  /** A complete code decodes every bit string that is long enough. */
  lemma {:induction false} CompleteDecodes(lens: seq<nat>, bits: seq<bool>) returns (s: nat)
    requires ValidLengths(lens) && Complete(lens)
    requires |bits| >= MAX_LEN
    ensures Decodes(lens, bits, s)
  {
    s := FindFrom(lens, bits, 1);
  }

  /** Symbols with a length of at most l. */
  function UsedSymbols(lens: seq<nat>, l: nat): nat
  {
    if l == 0 then 0 else UsedSymbols(lens, l - 1) + Count(lens, l)
  }

  /**
   The test tinfl makes before it builds a table. Section 3.2.7 of RFC 1951 allows a single code word for distances
   only; that the other codes of a block may have a single one, too, is tinfl's leniency, and the reference decoder
   shares it.
   */
  ghost predicate Accepts(lens: seq<nat>)
  {
    Complete(lens) || UsedSymbols(lens, MAX_LEN) <= 1
  }

  lemma {:induction false} MsbCons(v: nat, n: nat)
    ensures MsbBits(v, n + 1) == [v / Pow2(n) % 2 == 1] + MsbBits(v, n)
  {
    if n > 0 {
      MsbCons(v / 2, n - 1);
      DivDiv(v, 2, Pow2(n - 1));
    }
  }

  /** The bit reversal loop, written once on each side of miniz. */
  method ReverseCode(code: nat, size: nat) returns (rev: nat)
    ensures rev < Pow2(size)
    ensures ToBits(rev, size) == MsbBits(code, size)
  {
    rev := 0;
    var c, l := code, size;
    while l > 0
      invariant 0 <= l <= size
      invariant c == code / Pow2(size - l)
      invariant rev < Pow2(size - l)
      invariant ToBits(rev, size - l) == MsbBits(code, size - l)
    {
      MsbCons(code, size - l);
      DivDiv(code, Pow2(size - l), 2);
      rev := 2 * rev + c % 2;
      l, c := l - 1, c / 2;
    }
  }
}
