/** khash's flag words: two bits for every bucket, sixteen buckets to a 32-bit word. */
module PackedFlags {
  import opened Bits

  datatype State = Live | Deleted | Empty | Both

  // ---- single bits of a word

  function SetBit(w: nat, k: nat): nat
  {
    if w / Pow2(k) % 2 == 1 then w else w + Pow2(k)
  }

  function ClearBit(w: nat, k: nat): nat
  {
    if w / Pow2(k) % 2 == 1 && w >= Pow2(k) then w - Pow2(k) else w
  }

  lemma {:induction false} SetHalf(w: nat, k: nat)
    requires k > 0
    ensures SetBit(w, k) / 2 == SetBit(w / 2, k - 1) && SetBit(w, k) % 2 == w % 2
  {
    DivDiv(w, 2, Pow2(k - 1));
    assert Pow2(k) == 2 * Pow2(k - 1);
    hide Pow2;
  }

  lemma {:induction false} SetLowest(w: nat, n: nat)
    requires n > 0
    ensures ToBits(SetBit(w, 0), n) == ToBits(w, n)[0 := true]
  {
    assert Pow2(0) == 1;
    var v := SetBit(w, 0);
    assert v / 2 == w / 2 && v % 2 == 1;
    assert ToBits(v, n) == [true] + ToBits(w / 2, n - 1);
  }

  lemma {:induction false} SetBitBits(w: nat, k: nat, n: nat)
    requires k < n
    ensures ToBits(SetBit(w, k), n) == ToBits(w, n)[k := true]
  {
    if k > 0 {
      SetHalf(w, k);
      SetBitBits(w / 2, k - 1, n - 1);
      hide SetBit;
      var v := SetBit(w, k);
      assert ToBits(v, n) == [v % 2 == 1] + ToBits(v / 2, n - 1);
      assert ToBits(w, n) == [w % 2 == 1] + ToBits(w / 2, n - 1);
    } else {
      SetLowest(w, n);
    }
  }

  lemma {:induction false} ClearBitBits(w: nat, k: nat, n: nat)
    requires k < n
    ensures ToBits(ClearBit(w, k), n) == ToBits(w, n)[k := false]
  {
    if k > 0 {
      DivDiv(w, 2, Pow2(k - 1));
      ClearBitBits(w / 2, k - 1, n - 1);
      HalfAbove(w, Pow2(k - 1));
      assert ClearBit(w, k) / 2 == ClearBit(w / 2, k - 1) && ClearBit(w, k) % 2 == w % 2;
    } else {
      assert Pow2(0) == 1;
    }
  }

  lemma {:induction false} HalfAbove(w: nat, p: nat)
    requires p > 0
    ensures w >= 2 * p <==> w / 2 >= p
  {
  }

  // ---- the array of words

  /** The two bits of bucket i: deleted below, empty above. */
  ghost function Flag(words: seq<nat>, i: nat): State
    requires i / 16 < |words|
  {
    var b := ToBits(words[i / 16], 32);
    var j := 2 * (i % 16);
    if b[j] then (if b[j + 1] then Both else Deleted) else if b[j + 1] then Empty else Live
  }

  /** __ac_fsize. */
  function FlagWords(m: nat): (n: nat)
    ensures m > 0 && (m < 16 || m % 16 == 0) ==> forall i :: 0 <= i < m ==> i / 16 < n
  {
    if m < 16 then 1 else m / 16
  }

  lemma {:induction false} TwoBits(w: nat, j: nat)
    requires j < 16
    ensures w / Pow2(2 * j) % 2 == Bit(ToBits(w, 32)[2 * j])
    ensures w / Pow2(2 * j) / 2 % 2 == Bit(ToBits(w, 32)[2 * j + 1])
  {
    hide ToBits;
    ToBitsAt(w, 32, 2 * j);
    ToBitsAt(w, 32, 2 * j + 1);
    Pow2Add(2 * j, 1);
    assert Pow2(1) == 2;
    DivDiv(w, Pow2(2 * j), 2);
  }

  /** __ac_isempty. */
  method IsEmpty(words: array<nat>, i: nat) returns (r: bool)
    requires i / 16 < words.Length
    ensures r <==> Flag(words[..], i) in {Empty, Both}
  {
    hide ToBits, Pow2;
    TwoBits(words[i / 16], i % 16);
    r := words[i / 16] / Pow2(2 * (i % 16)) / 2 % 2 == 1;
  }

  /** __ac_isdel. */
  method IsDel(words: array<nat>, i: nat) returns (r: bool)
    requires i / 16 < words.Length
    ensures r <==> Flag(words[..], i) in {Deleted, Both}
  {
    hide ToBits, Pow2;
    TwoBits(words[i / 16], i % 16);
    r := words[i / 16] / Pow2(2 * (i % 16)) % 2 == 1;
  }

  /** __ac_iseither. */
  method IsEither(words: array<nat>, i: nat) returns (r: bool)
    requires i / 16 < words.Length
    ensures r <==> Flag(words[..], i) != Live
  {
    hide ToBits, Pow2;
    TwoBits(words[i / 16], i % 16);
    r := words[i / 16] / Pow2(2 * (i % 16)) % 4 != 0;
  }

  /** words2 is words but for the flags of bucket i. */
  ghost predicate Changed(words: seq<nat>, words2: seq<nat>, i: nat, s: State)
  {
    && |words2| == |words| && i / 16 < |words| && Flag(words2, i) == s
    && forall k: nat :: k / 16 < |words| && k != i ==> Flag(words2, k) == Flag(words, k)
  }

  /** A new word that differs in the bits of one bucket only. */
  lemma {:induction false} OneBucket(words: seq<nat>, words2: seq<nat>, i: nat, s: State)
    requires |words2| == |words| && i / 16 < |words| && Flag(words2, i) == s
    requires forall q :: 0 <= q < |words| && q != i / 16 ==> words2[q] == words[q]
    requires forall j :: 0 <= j < 32 && j / 2 != i % 16 ==>
      ToBits(words2[i / 16], 32)[j] == ToBits(words[i / 16], 32)[j]
    ensures Changed(words, words2, i, s)
  {
    hide ToBits;
    forall k: nat | k / 16 < |words| && k != i
      ensures Flag(words2, k) == Flag(words, k)
    {
      if k / 16 == i / 16 {
        assert k % 16 != i % 16;
        assert (2 * (k % 16)) / 2 != i % 16 && (2 * (k % 16) + 1) / 2 != i % 16;
      }
    }
  }

  /** __ac_set_isdel_true, on a bucket that is in use. */
  method SetIsDelTrue(words: array<nat>, i: nat)
    requires i / 16 < words.Length && Flag(words[..], i) == Live
    modifies words
    ensures Changed(old(words[..]), words[..], i, Deleted)
  {
    hide ToBits, SetBit;
    SetBitBits(words[i / 16], 2 * (i % 16), 32);
    words[i / 16] := SetBit(words[i / 16], 2 * (i % 16));
    OneBucket(old(words[..]), words[..], i, Deleted);
  }

  /** __ac_set_isempty_false, on an empty bucket. */
  method SetIsEmptyFalse(words: array<nat>, i: nat)
    requires i / 16 < words.Length && Flag(words[..], i) == Empty
    modifies words
    ensures Changed(old(words[..]), words[..], i, Live)
  {
    hide ToBits, ClearBit;
    ClearBitBits(words[i / 16], 2 * (i % 16) + 1, 32);
    words[i / 16] := ClearBit(words[i / 16], 2 * (i % 16) + 1);
    OneBucket(old(words[..]), words[..], i, Live);
  }

  /** __ac_set_isboth_false. */
  method SetIsBothFalse(words: array<nat>, i: nat)
    requires i / 16 < words.Length
    modifies words
    ensures Changed(old(words[..]), words[..], i, Live)
  {
    hide ToBits, ClearBit;
    var j := 2 * (i % 16);
    ClearBitBits(words[i / 16], j, 32);
    ClearBitBits(ClearBit(words[i / 16], j), j + 1, 32);
    words[i / 16] := ClearBit(ClearBit(words[i / 16], j), j + 1);
    OneBucket(old(words[..]), words[..], i, Live);
  }

  // ---- all empty

  /** n pairs of bits 01, lowest first: memset with 0xaa. */
  function Pairs(n: nat): nat
  {
    if n == 0 then 0 else 2 + 4 * Pairs(n - 1)
  }

  lemma {:induction false} PairsBits(n: nat, j: nat)
    requires j < n
    ensures !ToBits(Pairs(n), 2 * n)[2 * j] && ToBits(Pairs(n), 2 * n)[2 * j + 1]
  {
    var w := Pairs(n);
    assert w / 2 / 2 == Pairs(n - 1) && w % 2 == 0 && w / 2 % 2 == 1;
    assert ToBits(w, 2 * n) == [false] + ([true] + ToBits(Pairs(n - 1), 2 * n - 2));
    if j > 0 {
      PairsBits(n - 1, j - 1);
    }
  }

  lemma {:induction false} PairsWord()
    ensures Pairs(16) == 0xaaaaaaaa
  {
    assert Pairs(4) == 0xaa;
    assert Pairs(8) == 0xaaaa;
    assert Pairs(12) == 0xaaaaaa;
  }

  ghost predicate AllEmpty(words: seq<nat>)
  {
    forall i: nat :: i / 16 < |words| ==> Flag(words, i) == Empty
  }

  /** Fresh flag words for n buckets, or the old ones again: memset(flags, 0xaa, ...). */
  method Fill(words: array<nat>)
    modifies words
    ensures AllEmpty(words[..])
  {
    PairsWord();
    forall q | 0 <= q < words.Length { words[q] := 0xaaaaaaaa; }
    forall i: nat | i / 16 < words.Length
      ensures Flag(words[..], i) == Empty
    {
      PairsBits(16, i % 16);
    }
  }
}
