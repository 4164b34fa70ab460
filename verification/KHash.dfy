/** khash: open addressing with triangular probing, tombstones, packed flags and in-place rehashing. */
module KHash {
  import opened Bits
  import opened Probing
  import opened PackedFlags
  import opened HashSpec
  import opened RoundingUp
  import opened Rehashing

  /** n * 0.77 + 0.5, cut to an integer. */
  function Upper(n: nat): (u: nat)
    ensures n >= 4 ==> 0 < u < n
  {
    (77 * n + 50) / 100
  }

  /** The states of the first n buckets. */
  ghost function States(words: seq<nat>, n: nat): (st: seq<State>)
    requires forall i: nat :: i < n ==> i / 16 < |words|
    ensures |st| == n
  {
    seq(n, i requires 0 <= i < n => Flag(words, i))
  }

  /** Enough words for n buckets. */
  ghost predicate Words(words: seq<nat>, n: nat)
  {
    forall i: nat :: i < n ==> i / 16 < |words|
  }

  lemma {:induction false} StatesChanged(words: seq<nat>, words2: seq<nat>, n: nat, i: nat, s: State)
    requires Words(words, n) && i < n && Changed(words, words2, i, s)
    ensures Words(words2, n) && States(words2, n) == States(words, n)[i := s]
  {
    hide Flag;
    forall j | 0 <= j < n
      ensures States(words2, n)[j] == States(words, n)[i := s][j]
    {
      assert j / 16 < |words|;
    }
  }

  /** Counts, reachability and content. */
  ghost predicate Table<K, V>(hash: K -> nat, m: map<K, V>, ks: seq<K>, vs: seq<V>, st: seq<State>, size: nat,
                              nOccupied: nat)
  {
    && Proper(st)
    && size == |LiveSet(st)| && nOccupied == |NonEmptySet(st)|
    && Searchable(hash, ks, st)
    && Content(m, ks, vs, LiveSet(st))
  }

  /** A new entry in a bucket that probing for its key leads to. */
  lemma {:induction false} TableAdd<K, V>(hash: K -> nat, m: map<K, V>, ks: seq<K>, vs: seq<V>, st: seq<State>,
                                          size: nat, nOccupied: nat, key: K, x: nat)
    requires Table(hash, m, ks, vs, st, size, nOccupied) && Absent(ks, st, key)
    requires x < |st| && x < |vs| && st[x] != Live && Reach(hash(key), st, x)
    ensures key !in m
    ensures Table(hash, m[key := vs[x]], ks[x := key], vs, st[x := Live], size + 1,
      nOccupied + (if st[x] == Empty then 1 else 0))
  {
    hide Content, Searchable, Reach;
    NotThere(m, ks, vs, st, key);
    SearchableAdd(hash, ks, st, key, x);
    NotLive(st, x);
    ContentAdd(m, ks, vs, LiveSet(st), x, key, vs[x]);
    NowLive(st, x);
    ProperSet(st, x, Live);
    assert vs[x := vs[x]] == vs;
  }

  lemma {:induction false} TableRemove<K, V>(hash: K -> nat, m: map<K, V>, ks: seq<K>, vs: seq<V>, st: seq<State>,
                                             size: nat, nOccupied: nat, x: nat)
    requires Table(hash, m, ks, vs, st, size, nOccupied) && x < |st| && x < |ks| && st[x] == Live
    ensures size > 0 && Table(hash, m - {ks[x]}, ks, vs, st[x := Deleted], size - 1, nOccupied)
  {
    hide Content, Searchable;
    ContentRemove(m, ks, vs, LiveSet(st), x);
    SearchableKept(hash, ks, st, st[x := Deleted], x);
    NowDeleted(st, x);
    ProperSet(st, x, Deleted);
  }

  lemma {:induction false} TableUpdate<K, V>(hash: K -> nat, m: map<K, V>, ks: seq<K>, vs: seq<V>, st: seq<State>,
                                             size: nat, nOccupied: nat, x: nat, v: V)
    requires Table(hash, m, ks, vs, st, size, nOccupied) && x < |st| && x < |ks| && x < |vs| && st[x] == Live
    ensures Table(hash, m[ks[x] := v], ks, vs[x := v], st, size, nOccupied)
  {
    hide Content, Searchable;
    ContentUpdate(m, ks, vs, LiveSet(st), x, v);
  }

  lemma {:induction false} NowLive(st: seq<State>, i: nat)
    requires i < |st| && st[i] != Live
    ensures LiveSet(st[i := Live]) == LiveSet(st) + {i} && |LiveSet(st[i := Live])| == |LiveSet(st)| + 1
    ensures NonEmptySet(st[i := Live]) == NonEmptySet(st) + {i}
    ensures |NonEmptySet(st[i := Live])| == |NonEmptySet(st)| + (if st[i] == Empty then 1 else 0)
  {
    if st[i] != Empty {
      assert NonEmptySet(st) + {i} == NonEmptySet(st);
    }
  }

  lemma {:induction false} NowDeleted(st: seq<State>, i: nat)
    requires i < |st| && st[i] == Live
    ensures LiveSet(st[i := Deleted]) == LiveSet(st) - {i} && |LiveSet(st[i := Deleted])| == |LiveSet(st)| - 1
    ensures NonEmptySet(st[i := Deleted]) == NonEmptySet(st)
  {
  }

  class HashTable<K(0, ==), V(0)> {
    const hash: K -> nat
    var nBuckets: nat
    var size: nat
    var nOccupied: nat
    var upperBound: nat
    var flags: array<nat>
    var keys: array<K>
    var vals: array<V>
    ghost var m: map<K, V>

    /** The objects that the table is made of. */
    ghost function Repr(): set<object>
      reads this
    {
      {this, flags, keys, vals}
    }

    ghost predicate Apart()
      reads this
    {
      && (keys as object) != vals && (flags as object) != keys && (flags as object) != vals
    }

    /** The flags of all buckets. */
    ghost function St(): (st: seq<State>)
      reads this, flags
      requires Words(flags[..], nBuckets)
      ensures |st| == nBuckets
    {
      States(flags[..], nBuckets)
    }

    ghost predicate Sized()
      reads this, flags
    {
      && PowerOfTwo(nBuckets) && 4 <= nBuckets <= TWO31 && Words(flags[..], nBuckets)
      && nBuckets <= keys.Length && nBuckets <= vals.Length && upperBound == Upper(nBuckets)
    }

    /** Counts, reachability and content of a table that has buckets. */
    ghost predicate Tabled()
      reads this, flags, keys, vals
    {
      Sized() && Table(hash, m, keys[..], vals[..], St(), size, nOccupied)
    }

    ghost predicate Valid()
      reads this, flags, keys, vals
    {
      && Apart()
      && if nBuckets == 0 then size == nOccupied == upperBound == 0 && m == map[] else Tabled()
    }

    /** kh_size is the number of entries. */
    lemma {:induction false} SizeIsCount()
      requires Valid()
      ensures size == |m|
    {
      hide Flag, States, Searchable;
      if nBuckets > 0 {
        ContentSize(m, keys[..], vals[..], LiveSet(St()));
      }
    }

    /** kh_init: no buckets yet. */
    constructor (h: K -> nat)
      ensures Valid() && m == map[] && hash == h && fresh(Repr())
    {
      hash := h;
      nBuckets, size, nOccupied, upperBound := 0, 0, 0, 0;
      flags, keys, vals := new nat[0], new K[0], new V[0];
      m := map[];
    }

    // ---- searching

    method EmptyAt(i: nat) returns (r: bool)
      requires Sized() && i < nBuckets && Proper(St())
      ensures r <==> St()[i] == Empty
    {
      hide Flag;
      r := IsEmpty(flags, i);
      assert St()[i] == Flag(flags[..], i);
    }

    method DeletedAt(i: nat) returns (r: bool)
      requires Sized() && i < nBuckets && Proper(St())
      ensures r <==> St()[i] == Deleted
    {
      hide Flag;
      r := IsDel(flags, i);
      assert St()[i] == Flag(flags[..], i);
    }

    method EitherAt(i: nat) returns (r: bool)
      requires Sized() && i < nBuckets
      ensures r <==> St()[i] != Live
    {
      hide Flag;
      r := IsEither(flags, i);
      assert St()[i] == Flag(flags[..], i);
    }

    /** The loop condition of kh_get and kh_put, the other way round. */
    method Stops(i: nat, key: K) returns (stop: bool)
      requires Sized() && i < nBuckets && Proper(St())
      ensures stop <==> St()[i] == Empty || (St()[i] == Live && keys[i] == key)
    {
      hide States;
      var empty := EmptyAt(i);
      var del := DeletedAt(i);
      stop := empty || (!del && keys[i] == key);
    }

    /** Where a search stands after some steps. */
    ghost predicate Searching(key: K, i: nat, step: nat, stop: bool)
      reads this, flags, keys
    {
      && Sized() && i == Probe(hash(key), step, nBuckets)
      && Missed(hash(key), keys[..], St(), key, step)
      && (stop <==> St()[i] == Empty || (St()[i] == Live && keys[i] == key))
    }

    /** One step of a search; back at the first bucket, the key is absent. */
    method NextBucket(key: K, i0: nat, step0: nat, last: nat) returns (i: nat, step: nat, stop: bool, back: bool)
      requires Tabled() && Searching(key, i0, step0, false) && last == Probe(hash(key), 0, nBuckets)
        && step0 < 2 * nBuckets - 1
      ensures Searching(key, i, step, stop) && step == step0 + 1 && (back <==> i == last)
      ensures back ==> Absent(keys[..], St(), key) && step >= nBuckets
      ensures !back ==> step < 2 * nBuckets - 1
    {
      hide Flag, States, Content, Searchable, Probe, LiveSet, NonEmptySet;
      ghost var e: nat :| nBuckets == Pow2(e);
      ghost var h := hash(key);
      ProbeStep(h, step0, nBuckets);
      MissedMore(h, keys[..], St(), key, step0);
      ComesBack(h, nBuckets);
      hide Missed, Pow2;
      step := step0 + 1;
      i := (i0 + step) % nBuckets;
      back := i == last;
      if back {
        BackMeansAll(h, nBuckets, e, step);
        AbsentAfterAll(hash, keys[..], St(), key, step, e);
      }
      stop := Stops(i, key);
    }

    /** kh_get: the key's bucket, or the number of buckets if it is absent. */
    method Get(key: K) returns (x: nat)
      requires Valid()
      ensures x == nBuckets <==> key !in m
      ensures key in m ==> x < nBuckets && Words(flags[..], nBuckets) && St()[x] == Live
      ensures key in m ==> x < keys.Length && x < vals.Length && keys[x] == key && vals[x] == m[key]
    {
      if nBuckets == 0 { return 0; }
      hide PowerOfTwo, Flag, States, Content, Searchable, Probe, LiveSet, NonEmptySet, Missed;
      ghost var h := hash(key);
      var i: nat := hash(key) % nBuckets;
      var last, step: nat, back := i, 0, false;
      StartProbe(h, keys[..], St(), key);
      var stop := Stops(i, key);
      while !stop
        invariant last == Probe(h, 0, nBuckets) && Searching(key, i, step, stop) && step < 2 * nBuckets - 1
        decreases 2 * nBuckets - step
      {
        i, step, stop, back := NextBucket(key, i, step, last);
        if back {
          NotThere(m, keys[..], vals[..], St(), key);
          return nBuckets;
        }
      }
      x := Outcome(key, i, step);
    }

    /** What the bucket that ended a search says. */
    method Outcome(key: K, i: nat, ghost step: nat) returns (x: nat)
      requires Tabled() && Searching(key, i, step, true)
      ensures x == nBuckets <==> key !in m
      ensures key in m ==> x < nBuckets && St()[x] == Live && keys[x] == key && vals[x] == m[key]
    {
      hide Flag, Content, Searchable, Probe, LiveSet, NonEmptySet, Missed;
      ghost var st := St();
      var either := EitherAt(i);
      if either {
        AbsentAtEmpty(hash, keys[..], st, key, step);
        NotThere(m, keys[..], vals[..], st, key);
        return nBuckets;
      }
      LiveEntry(m, keys[..], vals[..], st, i);
      x := i;
    }

    // ---- putting

    /** The last deleted bucket that the search has passed, if it has passed any. */
    ghost predicate Site(key: K, site: nat, step: nat)
      reads this, flags
    {
      && Sized()
      && (if site == nBuckets then forall t: nat :: t < step ==> St()[Probe(hash(key), t, nBuckets)] != Deleted
          else site < nBuckets && St()[site] == Deleted && Reach(hash(key), St(), site))
    }

    /** A bucket for the key: its own, one that may take it, or, in a full table, any. */
    ghost predicate BucketFor(key: K, x: nat)
      reads this, flags, keys
    {
      && Sized() && x < nBuckets
      && (if St()[x] == Live && keys[x] == key then true
          else Absent(keys[..], St(), key)
               && (if St()[x] == Live then forall b: nat :: b < nBuckets ==> St()[b] == Live
                   else Reach(hash(key), St(), x)))
    }

    method Passed(key: K, i: nat, step: nat, site0: nat) returns (site: nat)
      requires Sized() && Proper(St()) && Searching(key, i, step, false) && Site(key, site0, step)
      ensures Site(key, site, step + 1)
    {
      hide Flag, States, Probe, PowerOfTwo;
      site := site0;
      var del := DeletedAt(i);
      ReachedNow(hash(key), keys[..], St(), key, step);
      if del {
        site := i;
      }
    }

    /** The search of kh_put. */
    method BucketToPut(key: K) returns (x: nat)
      requires Tabled()
      ensures BucketFor(key, x)
    {
      hide PowerOfTwo, Flag, States, Content, Searchable, Probe, LiveSet, NonEmptySet, Missed, Site, BucketFor, Reach;
      var i: nat := hash(key) % nBuckets;
      StartProbe(hash(key), keys[..], St(), key);
      var empty := EmptyAt(i);
      if empty {
        EndsHere(key, i, 0);
        x := i;
      } else {
        x := ProbeOn(key, i);
      }
    }

    /** The loop of that search, which keeps the last deleted bucket in site. */
    method ProbeOn(key: K, last: nat) returns (x: nat)
      requires Tabled() && last == Probe(hash(key), 0, nBuckets) && Missed(hash(key), keys[..], St(), key, 0)
      ensures BucketFor(key, x)
    {
      hide PowerOfTwo, Flag, States, Content, Searchable, Probe, LiveSet, NonEmptySet, Missed, Site, BucketFor, Reach;
      var site: nat, i: nat, step: nat, back := nBuckets, last, 0, false;
      var stop := Stops(i, key);
      NoSite(key);
      while !stop
        invariant Searching(key, i, step, stop) && Site(key, site, step) && step < 2 * nBuckets - 1
        decreases 2 * nBuckets - step
      {
        site := Passed(key, i, step, site);
        i, step, stop, back := NextBucket(key, i, step, last);
        if back {
          EndsBack(key, i, step, site);
          return if site != nBuckets then site else i;
        }
      }
      var empty := EmptyAt(i);
      EndsHere(key, i, step);
      if empty && site != nBuckets {
        EndsAtSite(key, i, step, site);
        return site;
      }
      x := i;
    }

    lemma {:induction false} NoSite(key: K)
      requires Sized()
      ensures Site(key, nBuckets, 0)
    {
    }

    /** The search ended at the key or at an empty bucket. */
    lemma {:induction false} EndsHere(key: K, i: nat, step: nat)
      requires Tabled() && Searching(key, i, step, true)
      ensures BucketFor(key, i)
    {
      hide Flag, States, Content, Searchable, Probe, LiveSet, NonEmptySet, PowerOfTwo;
      if St()[i] == Empty {
        AbsentAtEmpty(hash, keys[..], St(), key, step);
        ReachedNow(hash(key), keys[..], St(), key, step);
      }
    }

    lemma {:induction false} EndsAtSite(key: K, i: nat, step: nat, site: nat)
      requires Tabled() && Searching(key, i, step, true) && St()[i] == Empty && Site(key, site, step)
        && site != nBuckets
      ensures BucketFor(key, site)
    {
      hide Flag, States, Content, Searchable, Probe, LiveSet, NonEmptySet, PowerOfTwo;
      AbsentAtEmpty(hash, keys[..], St(), key, step);
    }

    /** The search has come round: the key is absent, and without a deleted bucket the table is full. */
    lemma {:induction false} EndsBack(key: K, i: nat, step: nat, site: nat)
      requires Tabled() && i < nBuckets && Missed(hash(key), keys[..], St(), key, step) && step >= nBuckets
        && i == Probe(hash(key), 0, nBuckets)
      requires Absent(keys[..], St(), key) && Site(key, site, step)
      ensures BucketFor(key, if site != nBuckets then site else i)
    {
      hide Flag, States, Content, Searchable, Probe, LiveSet, NonEmptySet, Pow2;
      if site == nBuckets {
        ghost var e: nat :| nBuckets == Pow2(e);
        forall b: nat | b < nBuckets
          ensures St()[b] == Live
        {
          var t := VisitsAll(hash(key), nBuckets, e, b);
          assert St()[b] in St();
        }
      }
    }

    method Write(key: K, x: nat)
      requires Sized() && Apart() && x < nBuckets
      modifies keys, flags
      ensures Sized() && St() == old(St())[x := Live] && keys[..] == old(keys[..])[x := key]
        && vals[..] == old(vals[..])
    {
      hide PowerOfTwo, Flag, States;
      ghost var words := flags[..];
      keys[x] := key;
      SetIsBothFalse(flags, x);
      StatesChanged(words, flags[..], nBuckets, x, Live);
    }

    /** The key moves into a bucket that it may take. */
    method Occupy(key: K, x: nat)
      requires Tabled() && Apart() && BucketFor(key, x) && St()[x] != Live
      modifies this`size, this`nOccupied, this`m, keys, flags
      ensures Tabled() && m == old(m)[key := vals[x]] && key !in old(m) && St()[x] == Live && keys[x] == key
      ensures size == old(size) + 1 && nOccupied == old(nOccupied) + (if old(St()[x]) == Empty then 1 else 0)
      ensures vals[..] == old(vals[..])
    {
      hide PowerOfTwo, Flag, States, Reach, Absent, Table;
      ghost var ks, vs, st := keys[..], vals[..], St();
      TableAdd(hash, m, ks, vs, st, size, nOccupied, key, x);
      TableProper(hash, m, ks, vs, st, size, nOccupied);
      var empty := EmptyAt(x);
      Write(key, x);
      size := size + 1;
      if empty {
        nOccupied := nOccupied + 1;
      }
      m := m[key := vals[x]];
      assert keys[..] == ks[x := key] && vals[..] == vs;
    }

    /** kh_put once there is room, or the table has got as large as it can. */
    method PutInto(key: K) returns (x: nat, ret: int)
      requires Tabled() && Apart()
      modifies this`size, this`nOccupied, this`m, keys, flags
      ensures Tabled() && x < nBuckets && St()[x] == Live
      ensures ret in {0, 1, 2} && (ret == 0 <==> m == old(m) && size == old(size) && nOccupied == old(nOccupied))
      ensures key in old(m) ==> ret == 0 && keys[x] == key
      ensures key !in old(m) && old(size) < nBuckets ==> ret != 0 && keys[x] == key && m == old(m)[key := vals[x]]
      ensures key !in old(m) && old(size) == nBuckets ==> ret == 0 && keys[x] != key
      ensures size <= old(size) + 1 && nOccupied <= old(nOccupied) + 1 && vals[..] == old(vals[..])
    {
      hide PowerOfTwo, Flag, States, Content, Searchable, Probe, LiveSet, NonEmptySet, BucketFor;
      x := BucketToPut(key);
      BucketCases(key, x);
      var empty := EmptyAt(x);
      var del := DeletedAt(x);
      if empty {
        Occupy(key, x);
        ret := 1;
      } else if del {
        Occupy(key, x);
        ret := 2;
      } else {
        ret := 0;
      }
    }

    /** What a bucket for a key may be. */
    lemma {:induction false} BucketCases(key: K, x: nat)
      requires Tabled() && BucketFor(key, x)
      ensures x < nBuckets && (key in m ==> St()[x] == Live && keys[x] == key)
      ensures key !in m && St()[x] == Live ==> keys[x] != key && size == nBuckets
      ensures key !in m && St()[x] != Live ==> size < nBuckets
    {
      hide PowerOfTwo, Flag, States, Searchable, Probe, NonEmptySet, Reach;
      var st := St();
      if st[x] == Live {
        LiveEntry(m, keys[..], vals[..], st, x);
        if keys[x] != key {
          NotThere(m, keys[..], vals[..], st, key);
          assert LiveSet(st) == Below(nBuckets);
        }
      } else {
        NotThere(m, keys[..], vals[..], st, key);
        assert LiveSet(st) <= Below(nBuckets) - {x};
        SubsetCount(LiveSet(st), Below(nBuckets) - {x});
      }
    }

    /** kh_val(h, x) = v. */
    method SetVal(x: nat, v: V)
      requires Valid() && x < nBuckets && Words(flags[..], nBuckets) && St()[x] == Live
      modifies this`m, vals
      ensures Valid() && x < keys.Length && m == old(m)[keys[x] := v]
    {
      hide PowerOfTwo, Flag, States, Table;
      ghost var ks, vs, st := keys[..], vals[..], St();
      TableUpdate(hash, m, ks, vs, st, size, nOccupied, x, v);
      vals[x] := v;
      m := m[keys[x] := v];
      assert vals[..] == vs[x := v] && keys[..] == ks;
    }

    /** kh_del: the entry goes, and its bucket stays marked. */
    method Del(x: nat)
      requires Valid()
      modifies this`size, this`m, flags
      ensures Valid() && nBuckets == old(nBuckets)
      ensures var live := x < nBuckets && Words(old(flags[..]), nBuckets)
        && States(old(flags[..]), nBuckets)[x] == Live;
        m == if live && x < keys.Length then old(m) - {keys[x]} else old(m)
    {
      hide PowerOfTwo, Flag, States, Content, Searchable, Probe, LiveSet, NonEmptySet;
      if x < nBuckets {
        var either := EitherAt(x);
        if !either {
          Remove(x);
        }
      }
    }

    method Remove(x: nat)
      requires Tabled() && Apart() && x < nBuckets && St()[x] == Live
      modifies this`size, this`m, flags
      ensures Tabled() && m == old(m) - {keys[x]}
    {
      hide PowerOfTwo, Flag, States, Table;
      ghost var ks, vs, st, words := keys[..], vals[..], St(), flags[..];
      TableRemove(hash, m, ks, vs, st, size, nOccupied, x);
      FlagThere(x);
      SetIsDelTrue(flags, x);
      StatesChanged(words, flags[..], nBuckets, x, Deleted);
      size := size - 1;
      m := m - {keys[x]};
      assert keys[..] == ks && vals[..] == vs;
    }

    lemma {:induction false} FlagThere(x: nat)
      requires Sized() && x < nBuckets
      ensures x / 16 < flags.Length && Flag(flags[..], x) == St()[x]
    {
      hide Flag;
    }

    /** kh_clear. */
    method Clear()
      requires Valid()
      modifies this`size, this`nOccupied, this`m, flags
      ensures Valid() && m == map[] && nBuckets == old(nBuckets)
    {
      hide PowerOfTwo, Flag, States, Table;
      if nBuckets > 0 {
        Fill(flags);
        m := map[];
        size, nOccupied := 0, 0;
        ClearedStates(flags[..], nBuckets);
        EmptyTable(hash, keys[..], vals[..], St(), m);
      }
    }

    // ---- rehashing

    /** Where the rehash into n buckets stands; mm leaves out an entry that is in hand. */
    ghost predicate Rehashed(n: nat, newFlags: array<nat>)
      reads this, flags, newFlags
    {
      && Words(flags[..], nBuckets) && Words(newFlags[..], n) && PowerOfTwo(n)
      && nBuckets <= keys.Length && nBuckets <= vals.Length && n <= keys.Length && n <= vals.Length
      && flags != newFlags && Apart() && (newFlags as object) != keys && (newFlags as object) != vals
    }

    ghost function NewSt(n: nat, newFlags: array<nat>): seq<State>
      reads newFlags
      requires Words(newFlags[..], n)
    {
      States(newFlags[..], n)
    }

    /** Probing in the new flags, which always have room. */
    method FindEmpty(newFlags: array<nat>, n: nat, key: K) returns (i: nat)
      requires Rehashed(n, newFlags) && Fresh(NewSt(n, newFlags)) && Entries(St(), NewSt(n, newFlags)) < n
      ensures i < n && NewSt(n, newFlags)[i] == Empty && Reach(hash(key), NewSt(n, newFlags), i)
    {
      hide Flag, States, Probe, Entries, Pow2;
      ghost var st2, h := NewSt(n, newFlags), hash(key);
      ghost var b := RoomLeft(St(), st2);
      ghost var e: nat :| n == Pow2(e);
      ghost var s := VisitsAll(h, n, e, b);
      var step: nat := 0;
      i := hash(key) % n;
      FirstProbe(h, n);
      var empty := NewEmptyAt(newFlags, n, i);
      while !empty
        invariant step <= s && i == Probe(h, step, n) && (empty <==> st2[i] == Empty)
        invariant forall t: nat :: t < step ==> st2[Probe(h, t, n)] != Empty
        decreases s - step
      {
        ProbeStep(h, step, n);
        step := step + 1;
        i := (i + step) % n;
        empty := NewEmptyAt(newFlags, n, i);
      }
      assert ReachIn(h, st2, i, step);
    }

    method NewEmptyAt(newFlags: array<nat>, n: nat, i: nat) returns (r: bool)
      requires Words(newFlags[..], n) && i < n && Fresh(NewSt(n, newFlags))
      ensures r <==> NewSt(n, newFlags)[i] == Empty
    {
      hide Flag;
      r := IsEmpty(newFlags, i);
      assert NewSt(n, newFlags)[i] == Flag(newFlags[..], i);
    }

    /** The first j old buckets have nothing pending. */
    ghost predicate Emptied(j: nat)
      reads this, flags
      requires Words(flags[..], nBuckets)
    {
      forall i: nat :: i < j && i < nBuckets ==> St()[i] != Live
    }

    /** Entry in hand goes to bucket i, where another is pending, which comes into the hand. */
    method Swap(newFlags: array<nat>, n: nat, key: K, val: V, i: nat, ghost j: nat) returns (key2: K, val2: V)
      requires Rehashed(n, newFlags) && InHand(hash, m, keys[..], vals[..], St(), NewSt(n, newFlags), key, val)
      requires i < n && NewSt(n, newFlags)[i] == Empty && Reach(hash(key), NewSt(n, newFlags), i) && i < nBuckets
        && St()[i] == Live && Emptied(j)
      modifies keys, vals, flags, newFlags
      ensures Rehashed(n, newFlags) && InHand(hash, m, keys[..], vals[..], St(), NewSt(n, newFlags), key2, val2)
      ensures Entries(St(), NewSt(n, newFlags)) == old(Entries(St(), NewSt(n, newFlags)))
      ensures |LiveSet(St())| < old(|LiveSet(St())|) && Emptied(j)
    {
      hide PowerOfTwo, Flag, States, Reach, InHand, Entries, LiveSet;
      ghost var ks, vs, st, st2, w, w2 := keys[..], vals[..], St(), NewSt(n, newFlags), flags[..], newFlags[..];
      Kick(hash, m, ks, vs, st, st2, key, val, i);
      FlagAt(w2, n, i);
      SetIsEmptyFalse(newFlags, i);
      StatesChanged(w2, newFlags[..], n, i, Live);
      key2, val2 := keys[i], vals[i];
      keys[i] := key;
      vals[i] := val;
      assert flags[..] == w;
      FlagAt(w, nBuckets, i);
      SetIsDelTrue(flags, i);
      StatesChanged(w, flags[..], nBuckets, i, Deleted);
      assert keys[..] == ks[i := key] && vals[..] == vs[i := val];
    }

    /** Entry in hand goes to bucket i, where nothing is pending. */
    method SetDown(newFlags: array<nat>, n: nat, key: K, val: V, i: nat, ghost j: nat)
      requires Rehashed(n, newFlags) && InHand(hash, m, keys[..], vals[..], St(), NewSt(n, newFlags), key, val)
      requires i < n && NewSt(n, newFlags)[i] == Empty && Reach(hash(key), NewSt(n, newFlags), i)
        && !(i < nBuckets && St()[i] == Live) && Emptied(j)
      modifies keys, vals, newFlags
      ensures Rehashed(n, newFlags) && Moving(hash, m, keys[..], vals[..], St(), NewSt(n, newFlags))
      ensures Entries(St(), NewSt(n, newFlags)) == old(Entries(St(), NewSt(n, newFlags))) + 1 && Emptied(j)
    {
      hide PowerOfTwo, Flag, States, Reach, InHand, Moving, Entries, LiveSet;
      ghost var ks, vs, st, st2, w, w2 := keys[..], vals[..], St(), NewSt(n, newFlags), flags[..], newFlags[..];
      PutDown(hash, m, ks, vs, st, st2, key, val, i);
      FlagAt(w2, n, i);
      SetIsEmptyFalse(newFlags, i);
      StatesChanged(w2, newFlags[..], n, i, Live);
      keys[i] := key;
      vals[i] := val;
      assert flags[..] == w && keys[..] == ks[i := key] && vals[..] == vs[i := val];
    }

    /** The kick-out process for the entry of bucket j: it ends, and everything that was pending or placed still is. */
    method KickOut(newFlags: array<nat>, n: nat, key0: K, val0: V, ghost j: nat)
      requires Rehashed(n, newFlags) && InHand(hash, m, keys[..], vals[..], St(), NewSt(n, newFlags), key0, val0)
      requires Entries(St(), NewSt(n, newFlags)) < n && Emptied(j)
      modifies keys, vals, flags, newFlags
      ensures Rehashed(n, newFlags) && Moving(hash, m, keys[..], vals[..], St(), NewSt(n, newFlags))
      ensures Entries(St(), NewSt(n, newFlags)) == old(Entries(St(), NewSt(n, newFlags))) + 1 && Emptied(j)
    {
      hide PowerOfTwo, Flag, States, Reach, InHand, Moving, Entries, LiveSet, Emptied, Proper, Fresh;
      var key, val := key0, val0;
      while true
        invariant Rehashed(n, newFlags) && InHand(hash, m, keys[..], vals[..], St(), NewSt(n, newFlags), key, val)
        invariant Entries(St(), NewSt(n, newFlags)) == old(Entries(St(), NewSt(n, newFlags))) && Emptied(j)
        decreases |LiveSet(St())|
      {
        HandFresh(hash, m, keys[..], vals[..], St(), NewSt(n, newFlags), key, val);
        var i := FindEmpty(newFlags, n, key);
        var pending := false;
        if i < nBuckets {
          var either := OldEitherAt(i);
          pending := !either;
        }
        if pending {
          key, val := Swap(newFlags, n, key, val, i, j);
        } else {
          SetDown(newFlags, n, key, val, i, j);
          return;
        }
      }
    }

    method OldEitherAt(i: nat) returns (r: bool)
      requires Words(flags[..], nBuckets) && i < nBuckets
      ensures r <==> St()[i] != Live
    {
      hide Flag;
      r := IsEither(flags, i);
      assert St()[i] == Flag(flags[..], i);
    }

    /** One old bucket's entry is taken up and finds its place. */
    method MoveOne(newFlags: array<nat>, n: nat, j: nat)
      requires Rehashed(n, newFlags) && Moving(hash, m, keys[..], vals[..], St(), NewSt(n, newFlags))
      requires j < nBuckets && St()[j] == Live && Emptied(j) && Entries(St(), NewSt(n, newFlags)) <= n
      modifies keys, vals, flags, newFlags
      ensures Rehashed(n, newFlags) && Moving(hash, m, keys[..], vals[..], St(), NewSt(n, newFlags))
      ensures Entries(St(), NewSt(n, newFlags)) == old(Entries(St(), NewSt(n, newFlags))) && Emptied(j + 1)
    {
      hide PowerOfTwo, Flag, States, InHand, Moving, Entries, LiveSet, Proper, Fresh;
      ghost var ks, vs, st, st2, w, w2 := keys[..], vals[..], St(), NewSt(n, newFlags), flags[..], newFlags[..];
      TakeUp(hash, m, ks, vs, st, st2, j);
      var key, val := keys[j], vals[j];
      FlagAt(w, nBuckets, j);
      SetIsDelTrue(flags, j);
      StatesChanged(w, flags[..], nBuckets, j, Deleted);
      assert newFlags[..] == w2 && keys[..] == ks && vals[..] == vs;
      KickOut(newFlags, n, key, val, j + 1);
    }

    /** The loop over the old buckets. */
    method MoveAll(newFlags: array<nat>, n: nat)
      requires Rehashed(n, newFlags) && Moving(hash, m, keys[..], vals[..], St(), NewSt(n, newFlags))
      requires Entries(St(), NewSt(n, newFlags)) == size <= n
      modifies keys, vals, flags, newFlags
      ensures Rehashed(n, newFlags) && Table(hash, m, keys[..], vals[..], NewSt(n, newFlags), size, size)
    {
      hide PowerOfTwo, Flag, States, InHand, Moving, Entries, LiveSet, NonEmptySet, Proper, Fresh, Content, Searchable;
      var j: nat := 0;
      while j != nBuckets
        invariant 0 <= j <= nBuckets && Rehashed(n, newFlags)
          && Moving(hash, m, keys[..], vals[..], St(), NewSt(n, newFlags))
        invariant Entries(St(), NewSt(n, newFlags)) == size && Emptied(j)
        decreases nBuckets - j
      {
        var either := OldEitherAt(j);
        if !either {
          MoveOne(newFlags, n, j);
        }
        j := j + 1;
      }
      AllMoved(hash, m, keys[..], vals[..], St(), NewSt(n, newFlags));
    }

    // ---- changing the size

    /** krealloc of the keys: the first entries are kept. */
    method ReallocKeys(n: nat)
      requires Valid() && nBuckets <= n
      modifies this`keys
      ensures Valid() && fresh(keys) && keys.Length == n
    {
      hide PowerOfTwo, Flag, States, Table;
      ghost var ks, vs, st := keys[..], vals[..], St();
      var newKeys := new K[n];
      forall i | 0 <= i < (if keys.Length < n then keys.Length else n) { newKeys[i] := keys[i]; }
      if nBuckets > 0 {
        assert forall i :: 0 <= i < nBuckets ==> newKeys[..][i] == ks[i];
        TableSame(hash, m, ks, vs, newKeys[..], vs, st, size, nOccupied);
        assert vals[..] == vs && St() == st;
      }
      keys := newKeys;
    }

    method ReallocVals(n: nat)
      requires Valid() && nBuckets <= n
      modifies this`vals
      ensures Valid() && fresh(vals) && vals.Length == n
    {
      hide PowerOfTwo, Flag, States, Table;
      ghost var ks, vs, st := keys[..], vals[..], St();
      var newVals := new V[n];
      forall i | 0 <= i < (if vals.Length < n then vals.Length else n) { newVals[i] := vals[i]; }
      if nBuckets > 0 {
        assert forall i :: 0 <= i < nBuckets ==> newVals[..][i] == vs[i];
        TableSame(hash, m, ks, vs, ks, newVals[..], st, size, nOccupied);
        assert keys[..] == ks && St() == st;
      }
      vals := newVals;
    }

    /** The rehash itself: the table is the same with n buckets, and has no deleted ones. */
    method Rehash(n: nat)
      requires Valid() && PowerOfTwo(n) && 4 <= n <= TWO31 && size < Upper(n) && n <= keys.Length && n <= vals.Length
      modifies this`flags, this`nBuckets, this`nOccupied, this`upperBound, flags, keys, vals
      ensures Valid() && nBuckets == n && nOccupied == size && fresh(flags)
    {
      hide PowerOfTwo, Flag, States, Table, Moving, Entries;
      var newFlags := new nat[FlagWords(n)];
      Fill(newFlags);
      EnoughWords(n, newFlags[..]);
      StartMoving(newFlags, n);
      MoveAll(newFlags, n);
      flags := newFlags;
      nBuckets := n;
      nOccupied := size;
      upperBound := Upper(n);
    }

    lemma {:induction false} StartMoving(newFlags: array<nat>, n: nat)
      requires Valid() && Words(newFlags[..], n) && AllEmpty(newFlags[..]) && n <= keys.Length && n <= vals.Length
      ensures Words(flags[..], nBuckets) && Moving(hash, m, keys[..], vals[..], St(), NewSt(n, newFlags))
      ensures Entries(St(), NewSt(n, newFlags)) == size
        && (nBuckets > 0 ==> nBuckets <= keys.Length && nBuckets <= vals.Length)
    {
      hide PowerOfTwo, Flag, States, Searchable;
      ClearedStates(newFlags[..], n);
      if nBuckets == 0 {
        assert St() == [] && LiveSet([]) == {};
      }
      NothingMoved(hash, m, keys[..], vals[..], St(), NewSt(n, newFlags));
    }

    /** krealloc after a shrink; it is taken to succeed. */
    method Shrink(n: nat)
      requires Valid() && nBuckets == n
      modifies this`keys, this`vals
      ensures Valid() && fresh(keys) && fresh(vals)
    {
      hide PowerOfTwo, Flag, States, Table;
      ReallocKeys(n);
      ReallocVals(n);
    }

    /**
     kh_resize. The content never changes. It fails only if an allocation does; otherwise either the
     new size is too small for the entries, or the table has it, without deleted buckets.
     */
    method Resize(want: nat, flagsOk: bool, keysOk: bool, valsOk: bool) returns (ok: bool)
      requires Valid() && want < TWO32
      modifies this`flags, this`keys, this`vals, this`nBuckets, this`nOccupied, this`upperBound, flags, keys, vals
      ensures Valid() && fresh(Repr() - old(Repr()))
      ensures !ok ==> !(flagsOk && keysOk && valsOk)
      ensures !ok ==> nBuckets == old(nBuckets) && nOccupied == old(nOccupied)
      ensures ok ==> var n := NewSize(want);
        if size >= Upper(n) then nBuckets == old(nBuckets) && nOccupied == old(nOccupied)
        else nBuckets == n && nOccupied == size
    {
      hide PowerOfTwo, Flag, States, Table, Valid;
      var r := KRoundUp32(want);
      RoundsTo(want, r);
      var n := if r < 4 then 4 else r;
      if size >= Upper(n) { return true; }
      if !flagsOk { return false; }
      if nBuckets < n {
        if !keysOk { return false; }
        ReallocKeys(n);
        if !valsOk { return false; }
        ReallocVals(n);
      }
      ArraysLongEnough(n);
      var before := nBuckets;
      Rehash(n);
      if before > n {
        Shrink(n);
      }
      ok := true;
    }

    lemma {:induction false} ArraysLongEnough(n: nat)
      requires Valid() && n > 0 && (nBuckets < n ==> n == keys.Length && n == vals.Length)
      ensures n <= keys.Length && n <= vals.Length
    {
    }

    /** What kh_put does first when all the buckets it may use are occupied. */
    method MakeRoom(flagsOk: bool, keysOk: bool, valsOk: bool) returns (ok: bool)
      requires Valid()
      modifies this`flags, this`keys, this`vals, this`nBuckets, this`nOccupied, this`upperBound, flags, keys, vals
      ensures Valid() && fresh(Repr() - old(Repr()))
      ensures !ok ==> !(flagsOk && keysOk && valsOk) && nBuckets == old(nBuckets)
      ensures ok ==> nBuckets > 0 && (size < TWO31 ==> size < nBuckets)
    {
      hide PowerOfTwo, Flag, States, Table;
      SizeBelow();
      ok := true;
      if nOccupied >= upperBound {
        if nBuckets > 2 * size % TWO32 {
          if nBuckets > 0 {
            SameSize(nBuckets);
          }
          ok := Resize(nBuckets - 1, flagsOk, keysOk, valsOk);
        } else {
          if nBuckets < TWO31 {
            NextSize(nBuckets);
          }
          ok := Resize(nBuckets + 1, flagsOk, keysOk, valsOk);
        }
      }
      SizeBelow();
    }

    lemma {:induction false} SizeBelow()
      requires Valid()
      ensures size <= nBuckets <= TWO31 && nOccupied >= size
        && (nBuckets > 0 ==> PowerOfTwo(nBuckets) && 4 <= nBuckets && upperBound == Upper(nBuckets))
      ensures nBuckets == 0 ==> upperBound == nOccupied == 0
    {
      hide PowerOfTwo, Flag, States, Content, Searchable;
      if nBuckets > 0 {
        var st := St();
        SubsetCount(LiveSet(st), Below(nBuckets));
        SubsetCount(LiveSet(st), NonEmptySet(st));
      }
    }

    /**
     kh_put. A key that is there is found; one that is not gets a bucket, unless an allocation fails,
     or the table has 2^31 buckets and every one of them is in use. In that last case, and only then,
     the bucket returned is another key's.
     */
    method Put(key: K, flagsOk: bool, keysOk: bool, valsOk: bool) returns (x: nat, ret: int)
      requires Valid()
      modifies this, flags, keys, vals
      ensures Valid() && fresh(Repr() - old(Repr()))
      ensures ret == -1 ==> !(flagsOk && keysOk && valsOk) && m == old(m) && x == nBuckets
      ensures ret != -1 ==>
        x < nBuckets && x < keys.Length && x < vals.Length && Words(flags[..], nBuckets) && St()[x] == Live
      ensures ret != -1 ==> (keys[x] == key <==> key in old(m) || old(size) < TWO31)
      ensures ret != -1 && key in old(m) ==> ret == 0 && m == old(m)
      ensures ret != -1 && key !in old(m) && old(size) < TWO31 ==> ret in {1, 2} && m == old(m)[key := vals[x]]
      ensures ret != -1 && key !in old(m) && old(size) == TWO31 ==> ret == 0 && m == old(m)
      ensures old(size) <= TWO31
    {
      hide PowerOfTwo, Flag, States, Table;
      SizeBelow();
      var ok := MakeRoom(flagsOk, keysOk, valsOk);
      if !ok { return nBuckets, -1; }
      SizeBelow();
      x, ret := PutInto(key);
    }

    /** What a bucket in use holds is in the map. */
    lemma {:induction false} LiveIsThere(x: nat)
      requires Valid() && x < nBuckets && Words(flags[..], nBuckets) && St()[x] == Live
      ensures x < keys.Length && keys[x] in m
    {
      hide Flag, States, Searchable;
      assert x in LiveSet(St());
    }

    /**
     kh_put and then kh_val, as every user stores a value. At the limit, and only there, it is another key's
     value that is overwritten.
     */
    method Store(key: K, v: V, flagsOk: bool, keysOk: bool, valsOk: bool) returns (ret: int)
      requires Valid()
      modifies this, flags, keys, vals
      ensures Valid() && fresh(Repr() - old(Repr()))
      ensures ret == -1 ==> !(flagsOk && keysOk && valsOk) && m == old(m)
      ensures ret != -1 && (key in old(m) || old(size) < TWO31) ==> m == old(m)[key := v]
      ensures ret != -1 && key !in old(m) && old(size) == TWO31 ==>
        key !in m && exists k :: k in old(m) && m == old(m)[k := v]
    {
      hide Tabled, Words, St;
      var x;
      x, ret := Put(key, flagsOk, keysOk, valsOk);
      if ret != -1 {
        LiveIsThere(x);
        SetVal(x, v);
      }
    }
  }

  /**
   The limit is reached: 2^31 different keys, whatever the hash function, and the next one is not
   stored. The bucket returned for it holds one of the others.
   */
  method FullTable(h: nat -> nat) returns (t: HashTable<nat, nat>, x: nat, ret: int)
    ensures t.Valid() && t.size == TWO31 && TWO31 !in t.m && ret == 0
    ensures x < t.nBuckets && x < t.keys.Length && t.keys[x] != TWO31
  {
    hide HashTable.Valid, HashTable.St, Words;
    t := new HashTable(h);
    t.SizeIsCount();
    var i := 0;
    while i < TWO31
      invariant 0 <= i <= TWO31 && t.Valid() && fresh(t.Repr())
      invariant t.size == |t.m| == i && forall k: nat :: k in t.m ==> k < i
    {
      PutNext(t, i);
      i := i + 1;
    }
    x, ret := t.Put(TWO31, true, true, true);
    t.SizeIsCount();
  }

  /** The next new key is stored. */
  method PutNext(t: HashTable<nat, nat>, i: nat)
    requires t.Valid() && t.size == |t.m| == i < TWO31 && forall k: nat :: k in t.m ==> k < i
    modifies t, t.flags, t.keys, t.vals
    ensures t.Valid() && fresh(t.Repr() - old(t.Repr()))
    ensures t.size == |t.m| == i + 1 && forall k: nat :: k in t.m ==> k < i + 1
  {
    hide HashTable.Valid, HashTable.St, Words;
    var x, ret := t.Put(i, true, true, true);
    t.SizeIsCount();
  }

  /** Asking for one bucket less asks for the same size, and that takes at least half as many entries. */
  lemma {:induction false} SameSize(n: nat)
    requires PowerOfTwo(n) && 4 <= n <= TWO31
    ensures NewSize(n - 1) == n && n <= 2 * Upper(n)
  {
    OneRounding(n - 1, Rounded32(n - 1), n);
  }

  /** Asking for one bucket more asks for twice as many, or for the first four. */
  lemma {:induction false} NextSize(n: nat)
    requires n < TWO31 && (n == 0 || (PowerOfTwo(n) && n >= 4))
    ensures NewSize(n + 1) == (if n == 0 then 4 else 2 * n) && Upper(NewSize(n + 1)) > n
  {
    if n == 0 {
      assert Pow2(0) == 1;
      OneRounding(1, Rounded32(1), 1);
    } else {
      Doubled(n);
      OneRounding(n + 1, Rounded32(n + 1), 2 * n);
    }
  }

  lemma {:induction false} Doubled(n: nat)
    requires PowerOfTwo(n) && n < TWO31
    ensures PowerOfTwo(2 * n) && 2 * n <= TWO31
  {
    var e: nat :| n == Pow2(e);
    assert Pow2(e + 1) == 2 * n;
    Pow2Of32();
    assert PowerOfTwo(TWO31);
    PowersApart(n, TWO31);
  }

  /** The size that is asked for, rounded as kroundup32 and the minimum have it. */
  ghost function NewSize(want: nat): (n: nat)
    requires want < TWO32
    ensures PowerOfTwo(n) && 4 <= n <= TWO31
  {
    assert PowerOfTwo(4) by { assert Pow2(2) == 4; }
    if want == 0 || want > TWO31 then 4 else var r := Rounded32(want); if r < 4 then 4 else r
  }

  /** The least power of two that is not below x. */
  ghost function Rounded32(x: nat): (r: nat)
    requires 0 < x <= TWO31
    ensures PowerOfTwo(r) && x <= r <= TWO31 && (r > 1 ==> r < 2 * x)
  {
    Pow2Of32();
    RoundedExists(x, 31);
    var r: nat :| PowerOfTwo(r) && x <= r <= TWO31 && (r > 1 ==> r < 2 * x);
    r
  }

  lemma {:induction false} RoundedExists(x: nat, e: nat)
    requires 0 < x <= Pow2(e)
    ensures exists r: nat :: PowerOfTwo(r) && x <= r <= Pow2(e) && (r > 1 ==> r < 2 * x)
  {
    if e == 0 || x > Pow2(e - 1) {
      assert PowerOfTwo(Pow2(e));
    } else {
      RoundedExists(x, e - 1);
    }
  }

  /** Different powers of two are at least a factor of two apart. */
  lemma {:induction false} PowersApart(p: nat, q: nat)
    requires PowerOfTwo(p) && PowerOfTwo(q) && p < q
    ensures 2 * p <= q
  {
    var d: nat :| p == Pow2(d);
    var e: nat :| q == Pow2(e);
    if d >= e {
      Pow2Mono(e, d);
    } else {
      Pow2Mono(d + 1, e);
    }
  }

  lemma {:induction false} OneRounding(x: nat, r: nat, q: nat)
    requires x > 0 && PowerOfTwo(r) && PowerOfTwo(q) && x <= r && x <= q && (r > 1 ==> r < 2 * x)
      && (q > 1 ==> q < 2 * x)
    ensures r == q
  {
    if r < q {
      PowersApart(r, q);
    } else if q < r {
      PowersApart(q, r);
    }
  }

  lemma {:induction false} RoundsTo(want: nat, r: nat)
    requires want < TWO32 && (want == 0 || want > TWO31 ==> r == 0)
    requires 0 < want <= TWO31 ==> PowerOfTwo(r) && want <= r <= TWO31 && (r > 1 ==> r < 2 * want)
    ensures NewSize(want) == if r < 4 then 4 else r
  {
    if 0 < want <= TWO31 {
      OneRounding(want, r, Rounded32(want));
    }
  }

  lemma {:induction false} EnoughWords(n: nat, words: seq<nat>)
    requires PowerOfTwo(n) && n >= 4 && |words| == FlagWords(n)
    ensures Words(words, n)
  {
    if n >= 16 {
      Sixteenths(n);
    }
  }

  lemma {:induction false} Sixteenths(n: nat)
    requires PowerOfTwo(n) && n >= 16
    ensures n % 16 == 0
  {
    var e: nat :| n == Pow2(e);
    assert Pow2(3) == 8 && Pow2(4) == 16;
    hide Pow2;
    if e < 4 {
      Pow2Mono(e, 3);
    } else {
      Pow2Add(4, e - 4);
      DivUnique(n, 16, Pow2(e - 4), 0);
    }
  }

  lemma {:induction false} TableSame<K, V>(hash: K -> nat, m: map<K, V>, ks: seq<K>, vs: seq<V>, ks2: seq<K>,
                                           vs2: seq<V>, st: seq<State>, size: nat, nOccupied: nat)
    requires Table(hash, m, ks, vs, st, size, nOccupied) && |st| <= |ks2| && |st| <= |vs2| && |st| <= |vs|
    requires forall i :: 0 <= i < |st| ==> ks2[i] == ks[i] && vs2[i] == vs[i]
    ensures Table(hash, m, ks2, vs2, st, size, nOccupied)
  {
    hide Reach;
    ContentSame(m, ks, vs, ks2, vs2, LiveSet(st));
  }

  lemma {:induction false} HandFresh<K, V>(hash: K -> nat, m: map<K, V>, ks: seq<K>, vs: seq<V>, st: seq<State>,
                                           st2: seq<State>, k: K, v: V)
    requires InHand(hash, m, ks, vs, st, st2, k, v)
    ensures Fresh(st2)
  {
  }

  lemma {:induction false} FlagAt(words: seq<nat>, n: nat, i: nat)
    requires Words(words, n) && i < n
    ensures i / 16 < |words| && Flag(words, i) == States(words, n)[i]
  {
    hide Flag;
  }

  lemma {:induction false} FirstProbe(h: nat, n: nat)
    requires n > 0
    ensures Probe(h, 0, n) == h % n
  {
    assert Triangle(0) == 0;
  }

  lemma {:induction false} EmptyTable<K, V>(hash: K -> nat, ks: seq<K>, vs: seq<V>, st: seq<State>, m: map<K, V>)
    requires (forall i: nat :: i < |st| ==> st[i] == Empty) && |st| <= |ks| && m == map[]
    ensures Table(hash, m, ks, vs, st, 0, 0)
  {
    assert LiveSet(st) == {} && NonEmptySet(st) == {};
  }

  lemma {:induction false} TableProper<K, V>(hash: K -> nat, m: map<K, V>, ks: seq<K>, vs: seq<V>, st: seq<State>,
                                             size: nat, nOccupied: nat)
    requires Table(hash, m, ks, vs, st, size, nOccupied)
    ensures Proper(st)
  {
  }

  lemma {:induction false} ClearedStates(words: seq<nat>, n: nat)
    requires AllEmpty(words) && Words(words, n)
    ensures forall i: nat :: i < n ==> States(words, n)[i] == Empty
    ensures Proper(States(words, n))
  {
    hide Flag;
  }

  lemma {:induction false} NotLive(st: seq<State>, x: nat)
    requires x < |st| && st[x] != Live
    ensures x !in LiveSet(st)
  {
  }

  lemma {:induction false} ProperSet(st: seq<State>, x: nat, s: State)
    requires Proper(st) && x < |st| && s != Both
    ensures Proper(st[x := s])
  {
  }

  lemma {:induction false} ReachedNow<K>(h: nat, ks: seq<K>, st: seq<State>, key: K, step: nat)
    requires Missed(h, ks, st, key, step)
    ensures Reach(h, st, Probe(h, step, |st|))
  {
    assert ReachIn(h, st, Probe(h, step, |st|), step);
  }

  lemma {:induction false} StartProbe<K>(h: nat, ks: seq<K>, st: seq<State>, key: K)
    requires 0 < |st| <= |ks|
    ensures Probe(h, 0, |st|) == h % |st| && Missed(h, ks, st, key, 0)
  {
    assert Triangle(0) == 0;
  }

  lemma {:induction false} MissedMore<K>(h: nat, ks: seq<K>, st: seq<State>, key: K, step: nat)
    requires Missed(h, ks, st, key, step) && |st| > 0
    requires var i := Probe(h, step, |st|); st[i] != Empty && !(st[i] == Live && i < |ks| && ks[i] == key)
    ensures Missed(h, ks, st, key, step + 1)
  {
  }

  lemma {:induction false} LiveEntry<K, V>(m: map<K, V>, ks: seq<K>, vs: seq<V>, st: seq<State>, i: nat)
    requires Content(m, ks, vs, LiveSet(st)) && i < |st| && st[i] == Live
    ensures i < |ks| && i < |vs| && ks[i] in m && m[ks[i]] == vs[i]
  {
    assert i in LiveSet(st);
  }
}
