/** How often each symbol occurs in a list of LZ codes. */
module SymbolCounts {
  import opened LzCodes
  import opened MinRedundancy

  /** The literal/length symbol of a code. */
  function LitSym(c: LzCode): (s: nat)
    requires CodeOk(c)
    ensures s < 286 && s != 256
  {
    if c.Literal? then c.b else LenSym(c.len - 3)
  }

  /** The distance symbol of a match. */
  function MatchSym(c: LzCode): (s: nat)
    requires CodeOk(c) && c.Match?
    ensures s < 30
  {
    DistSym(c.dist - 1)
  }

  function Bump(s: seq<nat>, i: nat): (r: seq<nat>)
    requires i < |s|
    ensures |r| == |s|
  {
    s[i := s[i] + 1]
  }

  function LitCounts(cs: seq<LzCode>): (r: seq<nat>)
    requires AllOk(cs)
    ensures |r| == 288
  {
    if cs == [] then seq(288, _ => 0) else Bump(LitCounts(cs[..|cs| - 1]), LitSym(cs[|cs| - 1]))
  }

  function DistCounts(cs: seq<LzCode>): (r: seq<nat>)
    requires AllOk(cs)
    ensures |r| == 32
  {
    if cs == [] then seq(32, _ => 0)
    else
      var c := cs[|cs| - 1];
      if c.Literal? then DistCounts(cs[..|cs| - 1]) else Bump(DistCounts(cs[..|cs| - 1]), MatchSym(c))
  }

  lemma {:induction false} CountsAppend(cs: seq<LzCode>, c: LzCode)
    requires AllOk(cs) && CodeOk(c)
    ensures AllOk(cs + [c]) && LitCounts(cs + [c]) == Bump(LitCounts(cs), LitSym(c))
    ensures DistCounts(cs + [c]) == if c.Literal? then DistCounts(cs) else Bump(DistCounts(cs), MatchSym(c))
  {
    hide LitSym, MatchSym, CodeOk;
    assert (cs + [c])[..|cs|] == cs;
  }

  function Matches(cs: seq<LzCode>): nat
  {
    if cs == [] then 0 else Matches(cs[..|cs| - 1]) + (if cs[|cs| - 1].Match? then 1 else 0)
  }

  lemma {:induction false} BumpSum(s: seq<nat>, i: nat)
    requires i < |s|
    ensures Sum(Bump(s, i)) == Sum(s) + 1
  {
    SumSet(s, i, s[i] + 1);
  }

  lemma {:induction false} CountSums(cs: seq<LzCode>)
    requires AllOk(cs)
    ensures Sum(LitCounts(cs)) == |cs| && Sum(DistCounts(cs)) == Matches(cs) <= |cs|
  {
    hide LitSym, MatchSym, Sum, Bump;
    if cs == [] {
      SumZero(LitCounts(cs));
      SumZero(DistCounts(cs));
    } else {
      var c := cs[|cs| - 1];
      CountSums(cs[..|cs| - 1]);
      BumpSum(LitCounts(cs[..|cs| - 1]), LitSym(c));
      if c.Match? {
        BumpSum(DistCounts(cs[..|cs| - 1]), MatchSym(c));
      }
    }
  }

  /** Symbols that no code has. */
  lemma {:induction false} NeverCounted(cs: seq<LzCode>)
    requires AllOk(cs)
    ensures LitCounts(cs)[256] == LitCounts(cs)[286] == LitCounts(cs)[287] == 0
    ensures DistCounts(cs)[30] == DistCounts(cs)[31] == 0
  {
    hide LitSym, MatchSym;
    if cs != [] {
      NeverCounted(cs[..|cs| - 1]);
    }
  }

  /** Every symbol of c has been counted. */
  ghost predicate Counted(lit: seq<nat>, dist: seq<nat>, c: LzCode)
    requires |lit| == 288 && |dist| == 32 && CodeOk(c)
  {
    lit[LitSym(c)] > 0 && (c.Match? ==> dist[MatchSym(c)] > 0)
  }

  lemma {:induction false} AllCounted(cs: seq<LzCode>, i: nat)
    requires AllOk(cs) && i < |cs|
    ensures Counted(LitCounts(cs), DistCounts(cs), cs[i])
  {
    hide LitSym, MatchSym;
    if i < |cs| - 1 {
      AllCounted(cs[..|cs| - 1], i);
    }
  }
}
