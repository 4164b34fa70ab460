/** The lengths that a histogram stands for, longest first, and the room that each leaves for longer ones. */
module LengthLists {
  import opened Bits
  import opened LengthLimit

  function Times(n: int, l: nat): (r: seq<nat>)
    ensures |r| == if n > 0 then n else 0
    ensures forall p :: 0 <= p < |r| ==> r[p] == l
  {
    seq(if n > 0 then n else 0, _ => l)
  }

  /** The lengths up to l, longest first. */
  function Down(num: seq<int>, l: nat): seq<nat>
    requires l < |num|
  {
    if l == 0 then [] else Times(num[l], l) + Down(num, l - 1)
  }

  lemma {:induction false} DownShape(num: seq<int>, l: nat)
    requires l < |num| && NonNegative(num)
    ensures |Down(num, l)| == Codes(num, l)
    ensures forall p :: 0 <= p < |Down(num, l)| ==> 1 <= Down(num, l)[p] <= l
    ensures forall p, q :: 0 <= p < q < |Down(num, l)| ==> Down(num, l)[p] >= Down(num, l)[q]
  {
    if l > 0 {
      DownShape(num, l - 1);
    }
  }

  lemma {:induction false} DownAgrees(a: seq<int>, b: seq<int>, l: nat)
    requires l < |a| && l < |b| && forall k :: 1 <= k <= l ==> a[k] == b[k]
    ensures Down(a, l) == Down(b, l)
  {
    if l > 0 {
      DownAgrees(a, b, l - 1);
    }
  }

  lemma {:induction false} DownSkips(num: seq<int>, i: nat, l: nat)
    requires i <= l < |num| && forall k :: i < k <= l ==> num[k] == 0
    ensures Down(num, l) == Down(num, i)
  {
    if i < l {
      DownSkips(num, i, l - 1);
      assert Times(0, l) + Down(num, l - 1) == Down(num, l - 1);
    }
  }

  /** A length no longer than those there goes to the end. */
  lemma {:induction false} DownAppends(num: seq<int>, v: nat, l: nat)
    requires 1 <= v <= l < |num| && NonNegative(num) && forall k :: 1 <= k < v ==> num[k] == 0
    ensures Down(num[v := num[v] + 1], l) == Down(num, l) + [v]
  {
    var num' := num[v := num[v] + 1];
    if v == l {
      DownSkips(num, 0, l - 1);
      DownSkips(num', 0, l - 1);
      assert Times(num[l] + 1, l) + [] == Times(num[l], l) + [] + [l];
    } else {
      DownAppends(num, v, l - 1);
      assert Times(num[l], l) + (Down(num, l - 1) + [v]) == Times(num[l], l) + Down(num, l - 1) + [v];
    }
  }

  // ---- cutting the lengths off

  function Cut(s: seq<nat>, m: nat): (r: seq<nat>)
    ensures |r| == |s|
    ensures forall p :: 0 <= p < |s| ==> r[p] == if s[p] > m then m else s[p]
  {
    seq(|s|, p requires 0 <= p < |s| => if s[p] > m then m else s[p])
  }

  lemma {:induction false} CutLonger(num: seq<int>, m: nat, l: nat)
    requires m <= l < |num| && NonNegative(num)
    ensures Tail(num, m, l) >= 0 && Cut(Down(num, l), m) == Times(Tail(num, m, l), m) + Down(num, m)
  {
    DownShape(num, m);
    if l == m {
      assert Times(0, m) == [];
    } else {
      CutLonger(num, m, l - 1);
      var t := Tail(num, m, l - 1);
      assert Cut(Times(num[l], l) + Down(num, l - 1), m) == Times(num[l], m) + Cut(Down(num, l - 1), m);
      assert Times(num[l], m) + Times(t, m) == Times(t + num[l], m);
    }
  }

  /** Folding cuts. */
  lemma {:induction false} FoldCuts(num: seq<int>, m: nat, l: nat, v: int)
    requires 1 <= m <= l < |num| && NonNegative(num) && v == num[m] + Tail(num, m, l)
    ensures Down(num[m := v], m) == Cut(Down(num, l), m)
  {
    CutLonger(num, m, l);
    DownAgrees(num[m := v], num, m - 1);
    var t := Tail(num, m, l);
    assert Times(v, m) == Times(t, m) + Times(num[m], m);
    assert Times(t, m) + (Times(num[m], m) + Down(num, m - 1)) == Times(v, m) + Down(num, m - 1);
  }

  // ---- room

  /** How often a code of length l can take up another one before it is m long. */
  function RoomOf(l: nat, m: nat): nat
  {
    if l >= m then 0 else Pow2(m - l) - 1
  }

  function Room(s: seq<nat>, m: nat): nat
  {
    if s == [] then 0 else Room(s[..|s| - 1], m) + RoomOf(s[|s| - 1], m)
  }

  lemma {:induction false} RoomConcat(a: seq<nat>, b: seq<nat>, m: nat)
    ensures Room(a + b, m) == Room(a, m) + Room(b, m)
  {
    if b == [] {
      assert a + b == a;
    } else {
      assert (a + b)[..|a + b| - 1] == a + b[..|b| - 1];
      RoomConcat(a, b[..|b| - 1], m);
    }
  }

  lemma {:induction false} RoomTimes(n: nat, l: nat, m: nat)
    ensures Room(Times(n, l), m) == n * RoomOf(l, m)
  {
    if n > 0 {
      RoomTimes(n - 1, l, m);
      assert Times(n, l)[..n - 1] == Times(n - 1, l);
      assert n * RoomOf(l, m) == (n - 1) * RoomOf(l, m) + RoomOf(l, m);
    }
  }

  lemma {:induction false} RoomPrefix(s: seq<nat>, k: nat, m: nat)
    requires k <= |s|
    ensures Room(s[..k], m) <= Room(s, m) && Room(s, m) == Room(s[..k], m) + Room(s[k..], m)
  {
    RoomConcat(s[..k], s[k..], m);
    assert s[..k] + s[k..] == s;
  }

  /** All the room together is the space taken less one for each code. */
  lemma {:induction false} DownRoom(num: seq<int>, l: nat, m: nat)
    requires l <= m && l < |num| && NonNegative(num)
    ensures Room(Down(num, l), m) == Space(num, l, m) - Codes(num, l)
  {
    if l > 0 {
      DownRoom(num, l - 1, m);
      RoomConcat(Times(num[l], l), Down(num, l - 1), m);
      RoomTimes(num[l], l, m);
      RoomFull(num[l], l, m);
    }
  }

  lemma {:induction false} RoomFull(n: nat, l: nat, m: nat)
    requires l <= m
    ensures n * RoomOf(l, m) == n * Pow2(m - l) - n
  {
    assert Pow2(0) == 1;
    assert n * (Pow2(m - l) - 1) == n * Pow2(m - l) - n;
  }

  lemma {:induction false} NoRoom(s: seq<nat>, m: nat)
    requires forall p :: 0 <= p < |s| ==> s[p] >= m
    ensures Room(s, m) == 0
  {
    if s != [] {
      NoRoom(s[..|s| - 1], m);
    }
  }

  // ---- repairing

  lemma {:induction false} DownFrom(num: seq<int>, l: nat)
    requires 1 <= l < |num|
    ensures Down(num, l) == Times(num[l], l) + Down(num, l - 1)
  {
  }

  /** What an exchange changes. */
  lemma {:induction false} ExchangedAt(num: seq<int>, max: nat, i: nat, num': seq<int>)
    requires 1 <= i < max < |num| && num' == Exchanged(num, max, i) && forall k :: i < k < max ==> num[k] == 0
    ensures num'[i] == num[i] - 1 && forall k :: 0 <= k < i ==> num'[k] == num[k]
    ensures i + 1 == max ==> num'[max] == num[max] + 1
    ensures i + 1 < max ==> num'[max] == num[max] - 1 && num'[i + 1] == 2
    ensures forall k :: i + 1 < k < max ==> num'[k] == 0
  {
  }

  /** What one turn of the repair loop does to the list. */
  lemma {:induction false} DownStep(num: seq<int>, max: nat, i: nat, num': seq<int>)
    requires 1 <= i < max < |num| && NonNegative(num) && num[i] > 0 && num[max] > 0
    requires num' == Exchanged(num, max, i) && forall k :: i < k < max ==> num[k] == 0
    ensures var t, s := num[max], Down(num, max);
      t < |s| && s[t] == i && (forall p :: 0 <= p < t ==> s[p] == max)
      && Down(num', max) == s[t - 1 := i + 1][t := i + 1]
  {
    hide Down, Exchanged, Times;
    ExchangedAt(num, max, i, num');
    var t, n := num[max], num[i];
    var low := Down(num, i - 1);
    DownSkips(num, i, max - 1);
    DownAgrees(num', num, i - 1);
    DownFrom(num, max);
    DownFrom(num, i);
    DownFrom(num', i);
    DownFrom(num', max);
    if i + 1 < max {
      DownSkips(num', i + 1, max - 1);
      DownFrom(num', i + 1);
    }
    ListStep(t, n, i, max, low);
  }

  lemma {:induction false} ListStep(t: nat, n: nat, i: nat, max: nat, low: seq<nat>)
    requires t > 0 && n > 0 && i < max
    ensures var s := Times(t, max) + (Times(n, i) + low);
      t < |s| && s[t] == i && (forall p :: 0 <= p < t ==> s[p] == max)
      && s[t - 1 := i + 1][t := i + 1]
         == if i + 1 == max then Times(t + 1, max) + (Times(n - 1, i) + low)
            else Times(t - 1, max) + (Times(2, i + 1) + (Times(n - 1, i) + low))
  {
  }

  /**
   Repairing turns the list c into s: behind place top nothing has changed, and the places before it had
   less room than has been spent.
   */
  ghost predicate Repaired(c: seq<nat>, s: seq<nat>, m: nat, top: int, spent: int)
  {
    && |s| == |c| && -1 <= top < |c|
    && (forall p :: 0 <= p < |s| ==> s[p] <= m) && (forall p :: top < p < |s| ==> s[p] == c[p])
    && (top >= 0 ==> Room(c[..top], m) < spent)
  }

  lemma {:induction false} NotRepaired(c: seq<nat>, m: nat)
    requires forall p :: 0 <= p < |c| ==> c[p] <= m
    ensures Repaired(c, c, m, -1, 0)
  {
  }

  lemma {:induction false} RepairedMore(c: seq<nat>, s: seq<nat>, m: nat, top: int, spent: int, t: nat, i: nat)
    requires Repaired(c, s, m, top, spent) && Room(c, m) - Room(s, m) == spent
    requires 1 <= t < |s| && i < m && forall p :: 0 <= p < t ==> s[p] == m
    ensures Repaired(c, s[t - 1 := i + 1][t := i + 1], m, if t > top then t else top, spent + 1)
  {
    if t > top {
      RoomPrefix(c, t, m);
      RoomPrefix(s, t, m);
      NoRoom(s[..t], m);
      assert c[t..] == s[t..];
    }
  }

  /** A place that is touched has a length above d, if there are few enough codes. */
  lemma {:induction false} TopIsLong(num: seq<int>, f: seq<int>, m: nat, n: nat, d: nat, top: nat)
    requires FullHistogram(num, n) && 1 <= d < m <= MAX_SUPPORTED && n <= Pow2(m - d)
    requires f == num[m := num[m] + Tail(num, m, MAX_SUPPORTED)] && NonNegative(f) && Codes(f, m) == n
    requires top < n == |Down(f, m)| && Room(Down(f, m)[..top], m) < Space(f, m, m) - Pow2(m)
    ensures Down(f, m)[top] > d
  {
    hide Space, Codes, Tail, Down, Room, Pow2;
    var c := Down(f, m);
    DownShape(f, m);
    DownSplit(f, d, m);
    DownShape(f, d);
    var a := n - Codes(f, d);
    if a <= top {
      RoomPrefix(c[..top], a, m);
      assert c[..top][..a] == c[..a];
      DownRoom(f, m, m);
      DownRoom(f, d, m);
      RoomPrefix(c, a, m);
      SpaceShort(num, f, m, d);
    }
  }

  lemma {:induction false} DownSplit(num: seq<int>, d: nat, l: nat)
    requires d <= l < |num| && NonNegative(num)
    ensures var a := Codes(num, l) - Codes(num, d);
      0 <= a <= |Down(num, l)| && Down(num, l)[a..] == Down(num, d) && forall p :: 0 <= p < a ==> Down(num, l)[p] > d
  {
    DownShape(num, l);
    if l > d {
      DownShape(num, l - 1);
      DownSplit(num, d, l - 1);
      var x, y := Times(num[l], l), Down(num, l - 1);
      var a := Codes(num, l - 1) - Codes(num, d);
      assert (x + y)[num[l] + a..] == y[a..];
    } else {
      assert Down(num, l)[0..] == Down(num, l);
    }
  }

  lemma {:induction false} SpaceScale(num: seq<int>, l: nat, m: nat, k: nat)
    requires l <= m && l < |num|
    ensures Space(num, l, m + k) == Space(num, l, m) * Pow2(k)
  {
    hide Space;
    if k > 0 {
      SpaceScale(num, l, m, k - 1);
      SpaceFiner(num, l, m + k - 1);
      Doubled(Space(num, l, m), Pow2(k - 1));
    }
  }

  lemma {:induction false} SpaceMore(num: seq<int>, d: nat, l: nat, m: nat)
    requires d <= l <= m && l < |num| && NonNegative(num)
    ensures Space(num, l, m) >= Space(num, d, m) + (Codes(num, l) - Codes(num, d)) && Codes(num, l) >= Codes(num, d)
  {
    if d < l {
      SpaceMore(num, d, l - 1, m);
      MulMono(num[l], 1, Pow2(m - l));
    }
  }

  lemma {:induction false} NoneAbove(num: seq<int>, d: nat, l: nat, k: nat)
    requires d < k <= l < |num| && NonNegative(num) && Codes(num, l) == Codes(num, d)
    ensures num[k] == 0
  {
    if k < l {
      SpaceMore(num, d, l - 1, l);
      NoneAbove(num, d, l - 1, k);
    } else {
      SpaceMore(num, d, l - 1, l);
    }
  }

  lemma {:induction false} SpaceSkips(num: seq<int>, d: nat, l: nat, m: nat)
    requires d <= l <= m && l < |num| && forall k :: d < k <= l ==> num[k] == 0
    ensures Space(num, l, m) == Space(num, d, m)
  {
    if d < l {
      SpaceSkips(num, d, l - 1, m);
    }
  }

  lemma {:induction false} TailSkips(num: seq<int>, m: nat, l: nat)
    requires m <= l < |num| && forall k :: m < k <= l ==> num[k] == 0
    ensures Tail(num, m, l) == 0
  {
    if m < l {
      TailSkips(num, m, l - 1);
    }
  }

  lemma {:induction false} Doubled(x: int, p: int)
    ensures 2 * (x * p) == x * (2 * p)
  {
  }

  lemma {:induction false} OneLess(u: int, q: int, p: nat)
    requires u < q
    ensures u * p <= q * p - p
  {
    MulMono(p, u, q - 1);
    assert p * (q - 1) == p * q - p && p * u == u * p && p * q == q * p;
  }

  lemma {:induction false} Cancels(u: int, q: int, p: nat)
    requires p > 0 && u * p <= q * p
    ensures u <= q
  {
    assert p * u == u * p && p * q == q * p;
    MulCancel(p, u, q);
  }

  lemma {:induction false} NotLess(u: int, q: int, p: nat)
    requires u >= q
    ensures u * p >= q * p
  {
    MulMono(p, q, u);
    assert p * u == u * p && p * q == q * p;
  }

  /** If lengths up to d fill the space, there are no others. */
  lemma {:induction false} OnlyShort(num: seq<int>, f: seq<int>, m: nat, d: nat)
    requires |num| == MAX_SUPPORTED + 1 && NonNegative(num)
      && Space(num, MAX_SUPPORTED, MAX_SUPPORTED) == Pow2(MAX_SUPPORTED)
    requires 1 <= d < m <= MAX_SUPPORTED && f == num[m := num[m] + Tail(num, m, MAX_SUPPORTED)]
    requires Space(num, d, d) >= Pow2(d)
    ensures Space(f, m, m) <= Pow2(m)
  {
    hide Space, Codes, Tail, Pow2;
    var u, q, big := Space(num, d, d), Pow2(d), MAX_SUPPORTED;
    SpaceScale(num, d, d, big - d);
    Pow2Add(d, big - d);
    var p := Pow2(big - d);
    NotLess(u, q, p);
    SpaceMore(num, d, big, big);
    AllShort(num, f, m, d);
    SpaceScale(num, d, d, m - d);
    Pow2Add(d, m - d);
    Cancels(u, q, p);
    NotLess(q, u, Pow2(m - d));
  }

  lemma {:induction false} AllShort(num: seq<int>, f: seq<int>, m: nat, d: nat)
    requires 1 <= d < m <= MAX_SUPPORTED && |num| == MAX_SUPPORTED + 1 && NonNegative(num)
    requires Codes(num, MAX_SUPPORTED) == Codes(num, d)
    requires f == num[m := num[m] + Tail(num, m, MAX_SUPPORTED)]
    ensures Space(f, m, m) == Space(num, d, m)
  {
    hide Space, Codes, Tail;
    forall k | d < k <= MAX_SUPPORTED
      ensures num[k] == 0
    {
      NoneAbove(num, d, MAX_SUPPORTED, k);
    }
    TailSkips(num, m, MAX_SUPPORTED);
    assert f == num;
    SpaceSkips(num, d, m, m);
  }

  /** Lengths up to d leave at least one unit of 2^-d, as there are longer ones. */
  lemma {:induction false} SpaceShort(num: seq<int>, f: seq<int>, m: nat, d: nat)
    requires |num| == MAX_SUPPORTED + 1 && NonNegative(num)
      && Space(num, MAX_SUPPORTED, MAX_SUPPORTED) == Pow2(MAX_SUPPORTED)
    requires 1 <= d < m <= MAX_SUPPORTED && f == num[m := num[m] + Tail(num, m, MAX_SUPPORTED)]
    requires Space(f, m, m) > Pow2(m)
    ensures Space(f, d, m) <= Pow2(m) - Pow2(m - d)
  {
    hide Space, Pow2;
    if Space(num, d, d) >= Pow2(d) {
      OnlyShort(num, f, m, d);
    } else {
      SpaceAgrees(num, f, d, m);
      SpaceScale(num, d, d, m - d);
      Pow2Add(d, m - d);
      OneLess(Space(num, d, d), Pow2(d), Pow2(m - d));
    }
  }

  /** n codes of length m take no more space than one of length d. */
  ghost predicate Few(n: nat, m: nat, d: nat)
  {
    1 <= d < m && n <= Pow2(m - d)
  }

  /**
   s is the list o with every length limited to m, except that the places up to top may have any lengths
   up to m: those before it leave less room than there are codes, and the one at top is no short one.
   */
  ghost predicate ShortenedTo(o: seq<nat>, s: seq<nat>, m: nat, top: int)
  {
    var c := Cut(o, m);
    && |s| == |o| && -1 <= top < |o|
    && (forall p :: 0 <= p < |s| ==> s[p] <= m) && (forall p :: top < p < |s| ==> s[p] == c[p])
    && (top >= 0 ==> Room(c[..top], m) < |o| && forall d: nat :: Few(|o|, m, d) ==> c[top] > d)
  }

  ghost predicate Shortened(o: seq<nat>, s: seq<nat>, m: nat)
  {
    exists top :: ShortenedTo(o, s, m, top)
  }
}
