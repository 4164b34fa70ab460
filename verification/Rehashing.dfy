/** What khash's in-place rehash keeps: placed entries, pending entries and the one in hand. */
module Rehashing {
  import opened Probing
  import opened PackedFlags
  import opened HashSpec

  /** The pending entries are live in st, the placed ones in st2; together they are those of m. */
  ghost predicate Moving<K, V>(hash: K -> nat, m: map<K, V>, ks: seq<K>, vs: seq<V>, st: seq<State>, st2: seq<State>)
  {
    && Proper(st) && Fresh(st2) && |st| <= |ks| && |st| <= |vs| && |st2| <= |ks| && |st2| <= |vs|
    && LiveSet(st) !! LiveSet(st2)
    && Searchable(hash, ks, st2)
    && Content(m, ks, vs, LiveSet(st) + LiveSet(st2))
  }

  /** New flags know no deleted buckets. */
  ghost predicate Fresh(st2: seq<State>)
  {
    forall i: nat :: i < |st2| ==> st2[i] in {Live, Empty}
  }

  /** The number of entries that are placed or pending. */
  ghost function Entries(st: seq<State>, st2: seq<State>): nat
  {
    |LiveSet(st) + LiveSet(st2)|
  }

  /** An entry is in hand: the others are placed or pending. */
  ghost predicate InHand<K, V>(hash: K -> nat, m: map<K, V>, ks: seq<K>, vs: seq<V>, st: seq<State>, st2: seq<State>,
                               k: K, v: V)
  {
    k in m && m[k] == v && Moving(hash, m - {k}, ks, vs, st, st2)
  }

  /** A pending entry is taken into the hand. */
  lemma {:induction false} TakeUp<K, V>(hash: K -> nat, m: map<K, V>, ks: seq<K>, vs: seq<V>, st: seq<State>,
                                        st2: seq<State>, j: nat)
    requires Moving(hash, m, ks, vs, st, st2) && j < |st| && st[j] == Live
    ensures InHand(hash, m, ks, vs, st[j := Deleted], st2, ks[j], vs[j])
    ensures Entries(st[j := Deleted], st2) == Entries(st, st2) - 1
    ensures |LiveSet(st[j := Deleted])| == |LiveSet(st)| - 1
  {
    hide Searchable, Content;
    var u := LiveSet(st) + LiveSet(st2);
    assert j in LiveSet(st) && j in u;
    InMap(m, ks, vs, u, j);
    ContentRemove(m, ks, vs, u, j);
    assert LiveSet(st[j := Deleted]) == LiveSet(st) - {j};
    assert LiveSet(st[j := Deleted]) + LiveSet(st2) == u - {j};
  }

  lemma {:induction false} InMap<K, V>(m: map<K, V>, ks: seq<K>, vs: seq<V>, at: set<nat>, j: nat)
    requires Content(m, ks, vs, at) && j in at
    ensures j < |ks| && j < |vs| && ks[j] in m && m[ks[j]] == vs[j]
  {
  }

  /** The entry in hand takes the place of a pending one, which comes into the hand. */
  lemma {:induction false} Kick<K, V>(hash: K -> nat, m: map<K, V>, ks: seq<K>, vs: seq<V>, st: seq<State>,
                                      st2: seq<State>, k: K, v: V, i: nat)
    requires InHand(hash, m, ks, vs, st, st2, k, v)
    requires i < |st| && i < |st2| && st[i] == Live && st2[i] == Empty && Reach(hash(k), st2, i)
    ensures InHand(hash, m, ks[i := k], vs[i := v], st[i := Deleted], st2[i := Live], ks[i], vs[i])
    ensures Entries(st[i := Deleted], st2[i := Live]) == Entries(st, st2)
    ensures |LiveSet(st[i := Deleted])| == |LiveSet(st)| - 1
  {
    hide Searchable, Content, Reach;
    var u, k2, v2 := LiveSet(st) + LiveSet(st2), ks[i], vs[i];
    assert i in u;
    InMap(m - {k}, ks, vs, u, i);
    ContentRemove(m - {k}, ks, vs, u, i);
    ContentAdd(m - {k} - {k2}, ks, vs, u - {i}, i, k, v);
    assert (m - {k} - {k2})[k := v] == m - {k2};
    SearchableAdd(hash, ks, st2, k, i);
    assert LiveSet(st[i := Deleted]) == LiveSet(st) - {i};
    assert LiveSet(st2[i := Live]) == LiveSet(st2) + {i};
    assert LiveSet(st[i := Deleted]) + LiveSet(st2[i := Live]) == u == u - {i} + {i};
  }

  /** The entry in hand goes where nothing is pending. */
  lemma {:induction false} PutDown<K, V>(hash: K -> nat, m: map<K, V>, ks: seq<K>, vs: seq<V>, st: seq<State>,
                                         st2: seq<State>, k: K, v: V, i: nat)
    requires InHand(hash, m, ks, vs, st, st2, k, v)
    requires i < |st2| && !(i < |st| && st[i] == Live) && st2[i] == Empty && Reach(hash(k), st2, i)
    ensures Moving(hash, m, ks[i := k], vs[i := v], st, st2[i := Live])
    ensures Entries(st, st2[i := Live]) == Entries(st, st2) + 1
  {
    hide Searchable, Content, Reach;
    var u := LiveSet(st) + LiveSet(st2);
    assert i !in u;
    ContentAdd(m - {k}, ks, vs, u, i, k, v);
    assert (m - {k})[k := v] == m;
    SearchableAdd(hash, ks, st2, k, i);
    assert LiveSet(st2[i := Live]) == LiveSet(st2) + {i};
    assert LiveSet(st) + LiveSet(st2[i := Live]) == u + {i};
  }

  /** With fewer entries than buckets there is an empty bucket. */
  lemma {:induction false} RoomLeft(st: seq<State>, st2: seq<State>) returns (b: nat)
    requires Fresh(st2) && Entries(st, st2) < |st2|
    ensures b < |st2| && st2[b] == Empty
  {
    SubsetCount(LiveSet(st2), LiveSet(st) + LiveSet(st2));
    var free := Below(|st2|) - LiveSet(st2);
    assert free + LiveSet(st2) == Below(|st2|);
    b :| b in free;
  }

  /** Before anything has been moved. */
  lemma {:induction false} NothingMoved<K, V>(hash: K -> nat, m: map<K, V>, ks: seq<K>, vs: seq<V>, st: seq<State>,
                                              st2: seq<State>)
    requires Proper(st) && Content(m, ks, vs, LiveSet(st)) && |st| <= |ks| && |st| <= |vs| && |st2| <= |ks|
      && |st2| <= |vs|
    requires forall i: nat :: i < |st2| ==> st2[i] == Empty
    ensures Moving(hash, m, ks, vs, st, st2) && Entries(st, st2) == |LiveSet(st)|
  {
    hide Content;
    assert LiveSet(st2) == {};
    assert LiveSet(st) + LiveSet(st2) == LiveSet(st);
  }

  /** When nothing is pending any more. */
  lemma {:induction false} AllMoved<K, V>(hash: K -> nat, m: map<K, V>, ks: seq<K>, vs: seq<V>, st: seq<State>,
                                          st2: seq<State>)
    requires Moving(hash, m, ks, vs, st, st2) && forall i: nat :: i < |st| ==> st[i] != Live
    ensures Proper(st2) && Searchable(hash, ks, st2) && Content(m, ks, vs, LiveSet(st2))
    ensures |LiveSet(st2)| == |NonEmptySet(st2)| == Entries(st, st2)
  {
    hide Content, Searchable;
    assert LiveSet(st) == {};
    assert LiveSet(st) + LiveSet(st2) == LiveSet(st2);
    assert NonEmptySet(st2) == LiveSet(st2);
  }
}
