/** File names of an archive: case folding and the order of folded names. */
module ZipNames {
  import opened Bits

  type Name = seq<byte>

  /** MZ_TOLOWER. */
  function Fold(c: byte): byte { if 65 <= c <= 90 then c + 32 else c }

  /** The letter that is 'A' and so on, without regard to case. */
  function Letter(upper: bool, n: nat): byte
    requires n < 26
  {
    (if upper then 'A' as int else 'a' as int) + n
  }

  /** Two characters are one to the archive exactly if they are the same or one letter in both cases. */
  lemma {:induction false} FoldJoins(c: byte, d: byte)
    ensures Fold(c) == Fold(d) <==>
      c == d || exists n: nat, u: bool :: n < 26 && c == Letter(u, n) && d == Letter(!u, n)
  {
    if Fold(c) == Fold(d) && c != d {
      if c < d {
        assert c == Letter(true, c - 65) && d == Letter(!true, c - 65);
      } else {
        assert d == Letter(true, d - 65) && c == Letter(false, d - 65);
        assert d == Letter(!false, d - 65);
      }
    }
  }

  function Lower(s: Name): (t: Name)
    ensures |t| == |s|
    ensures forall i :: 0 <= i < |s| ==> t[i] == Fold(s[i])
  {
    seq(|s|, i requires 0 <= i < |s| => Fold(s[i]))
  }

  /** Dictionary order: the first difference decides, or else the length. */
  predicate Before(a: Name, b: Name)
  {
    if b == [] then false
    else if a == [] then true
    else if a[0] == b[0] then Before(a[1..], b[1..])
    else a[0] < b[0]
  }

  lemma {:induction false} OneOfThree(a: Name, b: Name)
    ensures Before(a, b) ==> !Before(b, a) && a != b
    ensures !Before(a, b) && !Before(b, a) ==> a == b
  {
    if a != [] && b != [] {
      if a[0] == b[0] {
        OneOfThree(a[1..], b[1..]);
        assert a == [a[0]] + a[1..] && b == [b[0]] + b[1..];
      }
    }
  }

  lemma {:induction false} BeforeTrans(a: Name, b: Name, c: Name)
    requires !Before(b, a) && !Before(c, b)
    ensures !Before(c, a)
  {
    if a != [] && b != [] && c != [] {
      if a[0] == b[0] && b[0] == c[0] {
        BeforeTrans(a[1..], b[1..], c[1..]);
      }
    }
  }

  /** Behind a common start the rest decides. */
  lemma {:induction false} BeforeSkip(a: Name, b: Name, k: nat)
    requires k <= |a| && k <= |b| && a[..k] == b[..k]
    ensures Before(a, b) == Before(a[k..], b[k..])
  {
    if k > 0 {
      assert a[0] == a[..k][0] == b[..k][0] == b[0];
      assert a[1..][..k - 1] == a[..k][1..] && b[1..][..k - 1] == b[..k][1..];
      BeforeSkip(a[1..], b[1..], k - 1);
      assert a[1..][k - 1..] == a[k..] && b[1..][k - 1..] == b[k..];
    } else {
      assert a[0..] == a && b[0..] == b;
    }
  }

  /** Where the scan of two names stops: at the end of the shorter one or at a difference. */
  ghost predicate Stops(a: Name, b: Name, k: nat)
  {
    && k <= |a| && k <= |b| && a[..k] == b[..k]
    && (k == |a| || k == |b| || a[k] != b[k])
  }

  lemma {:induction false} StopDecides(a: Name, b: Name, k: nat)
    requires Stops(a, b, k)
    ensures Before(a, b) == (if k == |a| || k == |b| then |a| < |b| else a[k] < b[k])
    ensures a == b <==> k == |a| == |b|
  {
    BeforeSkip(a, b, k);
    if k == |a| && k == |b| {
      assert a == a[..k] && b == b[..k];
    }
  }
}
