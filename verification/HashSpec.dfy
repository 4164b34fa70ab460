/** What an open-addressing table with tombstones stands for, and what lookups in it rely on. */
module HashSpec {
  import opened Bits
  import opened Probing
  import opened PackedFlags

  /** Bucket b is reached by probing for hash value h before any empty bucket. */
  ghost predicate ReachIn(h: nat, st: seq<State>, b: nat, s: nat)
  {
    |st| > 0 && Probe(h, s, |st|) == b && forall t: nat :: t < s ==> st[Probe(h, t, |st|)] != Empty
  }

  ghost predicate Reach(h: nat, st: seq<State>, b: nat)
  {
    exists s: nat :: ReachIn(h, st, b, s)
  }

  ghost function LiveSet(st: seq<State>): (r: set<nat>)
    ensures forall i: nat :: i in r <==> i < |st| && st[i] == Live
  {
    set i: nat | 0 <= i < |st| && st[i] == Live
  }

  ghost function NonEmptySet(st: seq<State>): (r: set<nat>)
    ensures forall i: nat :: i in r <==> i < |st| && st[i] != Empty
  {
    set i: nat | 0 <= i < |st| && st[i] != Empty
  }

  ghost predicate FoundAt<K, V>(ks: seq<K>, vs: seq<V>, at: set<nat>, k: K, v: V)
  {
    exists i :: i in at && i < |ks| && i < |vs| && ks[i] == k && vs[i] == v
  }

  /** The entries at these places are exactly those of the map, each key once. */
  ghost predicate Content<K, V>(m: map<K, V>, ks: seq<K>, vs: seq<V>, at: set<nat>)
  {
    && (forall i :: i in at ==> i < |ks| && i < |vs| && ks[i] in m && m[ks[i]] == vs[i])
    && (forall k :: k in m ==> FoundAt(ks, vs, at, k, m[k]))
    && (forall i, j :: i in at && j in at && i != j ==> ks[i] != ks[j])
  }

  /** As many places as entries. */
  lemma {:induction false} ContentSize<K, V>(m: map<K, V>, ks: seq<K>, vs: seq<V>, at: set<nat>)
    requires Content(m, ks, vs, at)
    ensures |m| == |at|
    decreases at
  {
    if at == {} {
      NoContent(m, ks, vs);
    } else {
      var i :| i in at;
      OneEntryLess(m, ks, vs, at, i);
      ContentSize(m - {ks[i]}, ks, vs, at - {i});
    }
  }

  lemma {:induction false} NoContent<K, V>(m: map<K, V>, ks: seq<K>, vs: seq<V>)
    requires Content(m, ks, vs, {})
    ensures m == map[]
  {
    forall k, v
      ensures !FoundAt(ks, vs, {}, k, v)
    {
    }
  }

  lemma {:induction false} OneEntryLess<K, V>(m: map<K, V>, ks: seq<K>, vs: seq<V>, at: set<nat>, i: nat)
    requires Content(m, ks, vs, at) && i in at
    ensures ks[i] in m && |m - {ks[i]}| == |m| - 1 && Content(m - {ks[i]}, ks, vs, at - {i})
  {
    var m2 := m - {ks[i]};
    assert m2.Keys == m.Keys - {ks[i]} && |m.Keys| == |m| && |m2.Keys| == |m2|;
    forall k | k in m2
      ensures FoundAt(ks, vs, at - {i}, k, m2[k])
    {
      assert FoundAt(ks, vs, at, k, m[k]);
    }
  }

  /** A lookup table: every live key can be reached. */
  ghost predicate Searchable<K>(hash: K -> nat, ks: seq<K>, st: seq<State>)
  {
    |st| <= |ks| && forall i: nat :: i < |st| && st[i] == Live ==> Reach(hash(ks[i]), st, i)
  }

  /** No bucket has both flags set. */
  ghost predicate Proper(st: seq<State>)
  {
    Both !in st
  }

  // ---- lookups

  /** The first n probes for h, as far as they were made, met neither an empty bucket nor key k. */
  ghost predicate Missed<K>(h: nat, ks: seq<K>, st: seq<State>, k: K, s: nat)
  {
    0 < |st| <= |ks| && forall t: nat :: t < s ==>
      st[Probe(h, t, |st|)] != Empty && !(st[Probe(h, t, |st|)] == Live && ks[Probe(h, t, |st|)] == k)
  }

  /** No live bucket has key k. */
  ghost predicate Absent<K>(ks: seq<K>, st: seq<State>, k: K)
  {
    |st| <= |ks| && forall b: nat :: b < |st| && st[b] == Live ==> ks[b] != k
  }

  /** A search that comes to an empty bucket shows that the key is absent. */
  lemma {:induction false} AbsentAtEmpty<K>(hash: K -> nat, ks: seq<K>, st: seq<State>, k: K, s: nat)
    requires Searchable(hash, ks, st) && Missed(hash(k), ks, st, k, s) && st[Probe(hash(k), s, |st|)] == Empty
    ensures Absent(ks, st, k)
  {
    forall b: nat | b < |st| && st[b] == Live
      ensures ks[b] != k
    {
      var s2: nat :| ReachIn(hash(ks[b]), st, b, s2);
    }
  }

  lemma {:induction false} AbsentAfterAll<K>(hash: K -> nat, ks: seq<K>, st: seq<State>, k: K, s: nat, e: nat)
    requires |st| == Pow2(e) && Missed(hash(k), ks, st, k, s) && s >= |st|
    ensures Absent(ks, st, k)
  {
    forall b: nat | b < |st| && st[b] == Live
      ensures ks[b] != k
    {
      var s2 := VisitsAll(hash(k), |st|, e, b);
    }
  }

  /** A search that is back at its first bucket has seen them all. */
  lemma {:induction false} BackMeansAll(h: nat, n: nat, e: nat, s: nat)
    requires n == Pow2(e) && s > 0 && Probe(h, s, n) == Probe(h, 0, n)
    ensures s >= n
  {
    if s < n {
      ProbesDiffer(h, 0, s, n, e);
    }
  }

  /** Nothing stays in the map under an absent key. */
  lemma {:induction false} NotThere<K, V>(m: map<K, V>, ks: seq<K>, vs: seq<V>, st: seq<State>, k: K)
    requires Content(m, ks, vs, LiveSet(st)) && Absent(ks, st, k)
    ensures k !in m
  {
  }

  // ---- one bucket changes

  /** A bucket that is no longer empty, or never was, hides nothing. */
  lemma {:induction false} ReachKept(h: nat, st: seq<State>, st2: seq<State>, b: nat, i: nat)
    requires Reach(h, st, b) && |st2| == |st| && i < |st| && st2 == st[i := st2[i]] && st2[i] != Empty
    ensures Reach(h, st2, b)
  {
    var s: nat :| ReachIn(h, st, b, s);
    assert ReachIn(h, st2, b, s);
  }

  lemma {:induction false} SearchableKept<K>(hash: K -> nat, ks: seq<K>, st: seq<State>, st2: seq<State>, i: nat)
    requires Searchable(hash, ks, st) && |st2| == |st| && i < |st| && st2 == st[i := st2[i]] && st2[i] == Deleted
    ensures Searchable(hash, ks, st2)
  {
    forall b: nat | b < |st2| && st2[b] == Live
      ensures Reach(hash(ks[b]), st2, b)
    {
      ReachKept(hash(ks[b]), st, st2, b, i);
    }
  }

  /** An entry put where probing for it leads. */
  lemma {:induction false} SearchableAdd<K>(hash: K -> nat, ks: seq<K>, st: seq<State>, k: K, i: nat)
    requires Searchable(hash, ks, st) && i < |st| && st[i] != Live && Reach(hash(k), st, i)
    ensures Searchable(hash, ks[i := k], st[i := Live])
  {
    var ks2, st2 := ks[i := k], st[i := Live];
    forall b: nat | b < |st2| && st2[b] == Live
      ensures Reach(hash(ks2[b]), st2, b)
    {
      ReachKept(hash(ks2[b]), st, st2, b, i);
    }
  }

  /** A new entry, at a new place. */
  lemma {:induction false} ContentAdd<K, V>(m: map<K, V>, ks: seq<K>, vs: seq<V>, at: set<nat>, i: nat, k: K, v: V)
    requires Content(m, ks, vs, at) && i !in at && k !in m && i < |ks| && i < |vs|
    ensures Content(m[k := v], ks[i := k], vs[i := v], at + {i})
  {
    var ks2, vs2, at2 := ks[i := k], vs[i := v], at + {i};
    var m2 := m[k := v];
    forall q | q in m2
      ensures FoundAt(ks2, vs2, at2, q, m2[q])
    {
      if q == k {
        assert i in at2 && ks2[i] == q;
      } else {
        assert FoundAt(ks, vs, at, q, m[q]);
        var j :| j in at && j < |ks| && j < |vs| && ks[j] == q && vs[j] == m[q];
        assert j in at2 && ks2[j] == q;
      }
    }
  }

  /** An entry and its place go together. */
  lemma {:induction false} ContentRemove<K, V>(m: map<K, V>, ks: seq<K>, vs: seq<V>, at: set<nat>, i: nat)
    requires Content(m, ks, vs, at) && i in at
    ensures i < |ks| && Content(m - {ks[i]}, ks, vs, at - {i})
  {
    var k := ks[i];
    forall q | q in m - {k}
      ensures FoundAt(ks, vs, at - {i}, q, (m - {k})[q])
    {
      assert FoundAt(ks, vs, at, q, m[q]);
      var j :| j in at && j < |ks| && j < |vs| && ks[j] == q && vs[j] == m[q];
      assert j in at - {i};
    }
  }

  /** What stands at other places does not matter. */
  ghost predicate SameAt<K, V>(ks: seq<K>, vs: seq<V>, ks2: seq<K>, vs2: seq<V>, at: set<nat>)
  {
    forall i :: i in at ==> i < |ks| && i < |vs| && i < |ks2| && i < |vs2| && ks2[i] == ks[i] && vs2[i] == vs[i]
  }

  lemma {:induction false} ContentSame<K, V>(m: map<K, V>, ks: seq<K>, vs: seq<V>, ks2: seq<K>, vs2: seq<V>,
                                             at: set<nat>)
    requires Content(m, ks, vs, at) && SameAt(ks, vs, ks2, vs2, at)
    ensures Content(m, ks2, vs2, at)
  {
    forall q | q in m
      ensures FoundAt(ks2, vs2, at, q, m[q])
    {
      assert FoundAt(ks, vs, at, q, m[q]);
      var j :| j in at && j < |ks| && j < |vs| && ks[j] == q && vs[j] == m[q];
      assert ks2[j] == q && vs2[j] == m[q];
    }
  }

  /** Another value for a key that is there. */
  lemma {:induction false} ContentUpdate<K, V>(m: map<K, V>, ks: seq<K>, vs: seq<V>, at: set<nat>, i: nat, v: V)
    requires Content(m, ks, vs, at) && i in at
    ensures i < |ks| && i < |vs| && Content(m[ks[i] := v], ks, vs[i := v], at)
  {
    ContentRemove(m, ks, vs, at, i);
    ContentAdd(m - {ks[i]}, ks, vs, at - {i}, i, ks[i], v);
    assert (m - {ks[i]})[ks[i] := v] == m[ks[i] := v];
    assert at - {i} + {i} == at && ks[i := ks[i]] == ks;
  }
}
