/** What writing to a connection does: bytes taken by the socket, bytes kept in the write cache. */
module WriteSpec {
  import opened Bits

  const CAP := 1_000_000
  const INT_MAX := 0x7FFF_FFFF
  const WRITE_BUSY := -20005
  const CACHE_FULL := -108

  /** The world's answers in the order they are asked for: polls, sends, error codes, allocations. */
  type World = nat -> int

  /** memory: the cache has been allocated; at: the number of answers used. */
  datatype State = State(taken: seq<byte>, cache: seq<byte>, blocked: bool, errnum: int, memory: bool, at: nat)

  /** All bytes accepted so far, in the order the peer will see them. */
  function Stream(s: State): seq<byte> { s.taken + s.cache }

  /** A send takes any prefix, or fails. */
  function Taken(answer: int, amt: nat): (n: int)
    ensures -1 <= n <= amt
  {
    if answer < 0 then -1 else if answer < amt then answer else amt
  }

  function Least(x: nat, y: nat): (z: nat)
    ensures z <= x && z <= y && (z == x || z == y)
  {
    if x < y then x else y
  }

  /** Bytes go to the end of the cache, if the cap and memory allow. */
  function Keep(world: World, s: State, bytes: seq<byte>): (r: (State, bool))
  {
    if |bytes| + |s.cache| > CAP then
      (s.(errnum := CACHE_FULL), false)
    else if !s.memory && bytes == [] then
      (s.(errnum := CACHE_FULL), false)
    else if !s.memory && world(s.at) == 0 then
      (s.(errnum := CACHE_FULL, at := s.at + 1), false)
    else
      (s.(cache := s.cache + bytes, memory := true, at := if s.memory then s.at else s.at + 1,
          errnum := if s.errnum == 0 then WRITE_BUSY else s.errnum), true)
  }

  /** After a short send: what is left of the chunk is kept, unless it lies in the cache already. */
  function Short(world: World, s: State, rest: seq<byte>, n: int, own: bool): (r: (State, bool))
  {
    var (s1, kept) := if own then (s, false) else Keep(world, s, rest);
    if n > 0 then
      (s1.(errnum := WRITE_BUSY), kept)
    else
      var e := world(s1.at);
      (s1.(at := s1.at + 1, errnum := if e == 0 then WRITE_BUSY else e), kept)
  }

  /** Sending from offset tot on. The result is the count that is reported. */
  function Push(world: World, s: State, bytes: seq<byte>, own: bool, tot: nat): (r: (State, nat))
    requires tot <= |bytes|
    ensures r.1 <= |bytes|
    decreases |bytes| - tot
  {
    if tot == |bytes| then
      (s, tot)
    else
      var amt := Least(|bytes| - tot, INT_MAX);
      var n := Taken(world(s.at), amt);
      var k := if n > 0 then n else 0;
      var s1 := s.(taken := s.taken + bytes[tot..tot + k], at := s.at + 1);
      if n == 0 then
        (s1, 0)
      else if n == amt then
        Push(world, s1, bytes, own, tot + amt)
      else
        var (s2, kept) := Short(world, s1, bytes[tot + k..tot + amt], n, own);
        (s2, if kept then tot + amt else tot + k)
  }

  /** xs_conn_cachepurge: the cache is sent from where it lies. */
  function Purge(world: World, s: State): (r: (State, bool))
  {
    if s.cache == [] then
      (s, true)
    else
      var (s1, w) := Push(world, s.(errnum := 0), s.cache, true, 0);
      if w == |s.cache| then
        (s1.(cache := [], blocked := false), true)
      else
        (s1.(cache := s.cache[w..]), false)
  }

  /** xs_conn_cachefill without force. */
  function Fill(world: World, s: State, bytes: seq<byte>): (r: (State, bool))
  {
    if s.cache == [] && !s.blocked then
      (s, false)
    else if s.blocked && |bytes| + |s.cache| <= CAP then
      Keep(world, s, bytes)
    else
      var s0 := s.(at := s.at + 1);
      if world(s.at) == 0 then
        Keep(world, s0, bytes)
      else
        var (s1, done) := Purge(world, s0);
        if done then (s1, false) else Keep(world, s1, bytes)
  }

  /** xs_conn_write_ of bytes that do not lie in the cache. */
  function Write(world: World, s: State, bytes: seq<byte>): (r: (State, nat))
    ensures r.1 <= |bytes|
  {
    var (s1, kept) := Fill(world, s.(errnum := 0), bytes);
    if kept then (s1, |bytes|) else Push(world, s1, bytes, false, 0)
  }

  // ---- conservation

  /** The cap holds, and bytes are cached only in allocated memory. */
  ghost predicate Capped(s: State)
  {
    |s.cache| <= CAP && (!s.memory ==> s.cache == [])
  }

  /** What was reported is what the stream gained, in order. */
  ghost predicate Conserves(s: State, bytes: seq<byte>, r: (State, nat))
  {
    r.1 <= |bytes| && Stream(r.0) == Stream(s) + bytes[..r.1]
  }

  /** What one send that can take everything amounts to. */
  lemma {:induction false} OnePush(world: World, s: State, bytes: seq<byte>, own: bool)
    returns (n: int, k: nat, s1: State)
    requires 0 < |bytes| <= INT_MAX
    ensures -1 <= n <= |bytes| && n == Taken(world(s.at), |bytes|) && k == (if n > 0 then n else 0)
    ensures s1 == s.(taken := s.taken + bytes[..k], at := s.at + 1)
    ensures Push(world, s, bytes, own, 0) == (
      if n == 0 then (s1, 0)
      else if n == |bytes| then (s1, |bytes|)
      else var (s2, kept) := Short(world, s1, bytes[k..], n, own); (s2, if kept then |bytes| else k))
  {
    hide Short;
    n := Taken(world(s.at), |bytes|);
    k := if n > 0 then n else 0;
    assert bytes[0..0 + k] == bytes[..k];
    s1 := s.(taken := s.taken + bytes[..k], at := s.at + 1);
    assert bytes[0 + k..0 + |bytes|] == bytes[k..];
    assert n == |bytes| ==> Push(world, s1, bytes, own, |bytes|) == (s1, |bytes|);
  }

  lemma {:induction false} ShortKeeps(world: World, s: State, rest: seq<byte>, n: int, own: bool)
    requires Capped(s)
    ensures var (t, kept) := Short(world, s, rest, n, own);
      && Capped(t) && t.taken == s.taken && (own ==> !kept && t.memory == s.memory)
      && t.cache == (if kept then s.cache + rest else s.cache)
  {
    hide Keep;
    KeepKeeps(world, s, rest);
  }

  /** A cached sending only moves bytes from the cache's front to the socket. */
  lemma {:induction false} PurgeKeeps(world: World, s: State)
    requires Capped(s)
    ensures var (t, done) := Purge(world, s);
      Stream(t) == Stream(s) && Capped(t) && |t.cache| <= |s.cache| && t.memory == s.memory && (done <==> t.cache == [])
  {
    hide Push, Short;
    if s.cache != [] {
      var n, k, s1 := OnePush(world, s.(errnum := 0), s.cache, true);
      var rest := s.cache[k..];
      ShortKeeps(world, s1, rest, n, true);
      var (t, done) := Purge(world, s);
      assert t.cache == rest && t.taken == s.taken + s.cache[..k];
      assert s.taken + s.cache[..k] + rest == s.taken + s.cache;
    }
  }

  lemma {:induction false} KeepKeeps(world: World, s: State, bytes: seq<byte>)
    requires Capped(s)
    ensures var (t, kept) := Keep(world, s, bytes);
      Capped(t) && t.taken == s.taken && t.cache == (if kept then s.cache + bytes else s.cache)
  {
  }

  /** Before anything is sent directly: all is kept, or the cache is empty, or the cap is in the way. */
  lemma {:induction false} FillKeeps(world: World, s: State, bytes: seq<byte>)
    requires Capped(s)
    ensures var (t, kept) := Fill(world, s, bytes);
      && Capped(t) && |t.cache| <= |s.cache| + |bytes|
      && Stream(t) == (if kept then Stream(s) + bytes else Stream(s))
      && (!kept && t.cache != [] ==> s.cache != [] && |t.cache| <= |s.cache| && |s.cache| + |bytes| > CAP)
  {
    hide Purge, Keep, Capped;
    KeepKeeps(world, s, bytes);
    var s0 := s.(at := s.at + 1);
    assert Capped(s0) by { SameCapped(s, s0); }
    KeepKeeps(world, s0, bytes);
    PurgeKeeps(world, s0);
    var (s1, done) := Purge(world, s0);
    KeepKeeps(world, s1, bytes);
    KeepFits(world, s, bytes);
    KeepFits(world, s0, bytes);
    KeepFits(world, s1, bytes);
    assert s.taken + (s.cache + bytes) == s.taken + s.cache + bytes;
    assert s1.taken + (s1.cache + bytes) == s1.taken + s1.cache + bytes;
  }

  lemma {:induction false} SameCapped(s: State, t: State)
    requires Capped(s) && t.cache == s.cache && t.memory == s.memory
    ensures Capped(t)
  {
  }

  lemma {:induction false} KeepFits(world: World, s: State, bytes: seq<byte>)
    requires Capped(s)
    ensures s.cache != [] && |s.cache| + |bytes| <= CAP ==> Keep(world, s, bytes).1
  {
  }

  lemma {:induction false} PushNone(world: World, s: State, own: bool)
    ensures Push(world, s, [], own, 0) == (s, 0)
  {
  }

  /** Sending a chunk that fits an int. */
  lemma {:induction false} PushKeeps(world: World, s: State, bytes: seq<byte>) returns (k: nat)
    requires Capped(s) && |bytes| <= INT_MAX
    ensures var (t, r) := Push(world, s, bytes, false, 0);
      Direct(s, bytes, t, r, k) && Capped(t)
  {
    hide Push, Short;
    k := 0;
    if bytes == [] {
      assert Push(world, s, bytes, false, 0) == (s, 0) by { PushNone(world, s, false); }
    } else {
      var n, s1;
      n, k, s1 := OnePush(world, s, bytes, false);
      ShortKeeps(world, s1, bytes[k..], n, false);
    }
    assert bytes[k..|bytes|] == bytes[k..] && bytes[k..k] == [];
  }

  /** k bytes were taken directly, and the rest of those reported went to the cache. */
  ghost predicate Direct(s: State, bytes: seq<byte>, t: State, r: nat, k: nat)
  {
    && k <= r <= |bytes|
    && t.taken == s.taken + bytes[..k] && t.cache == s.cache + bytes[k..r]
  }

  lemma {:induction false} DirectStream(s: State, bytes: seq<byte>, t: State, r: nat, k: nat)
    requires Direct(s, bytes, t, r, k) && s.cache == []
    ensures Stream(t) == Stream(s) + bytes[..r]
  {
    assert bytes[..k] + bytes[k..r] == bytes[..r];
    assert t.cache == bytes[k..r];
    Associative(s.taken, bytes[..k], bytes[k..r]);
    assert s.taken + [] == s.taken;
  }

  lemma {:induction false} Associative(a: seq<byte>, b: seq<byte>, c: seq<byte>)
    ensures (a + b) + c == a + (b + c)
  {
  }

  lemma {:induction false} DirectBag(s: State, bytes: seq<byte>, t: State, r: nat, k: nat)
    requires Direct(s, bytes, t, r, k)
    ensures multiset(Stream(t)) == multiset(Stream(s)) + multiset(bytes[..r])
  {
    assert bytes[..k] + bytes[k..r] == bytes[..r];
  }

  /** The caller's side of it: the bytes fit an int, and behind cached bytes they fit the cap. */
  ghost predicate Fits(s: State, len: nat)
  {
    if s.cache == [] then len <= INT_MAX else |s.cache| + len <= CAP
  }

  /** Every write that fits adds exactly the bytes it reports, behind all earlier ones. */
  lemma {:induction false} WriteConserves(world: World, s: State, bytes: seq<byte>)
    requires Capped(s) && Fits(s, |bytes|)
    ensures Conserves(s, bytes, Write(world, s, bytes)) && Capped(Write(world, s, bytes).0)
  {
    hide Fill, Push, Direct, Capped;
    var s0 := s.(errnum := 0);
    SameCapped(s, s0);
    var (s1, kept) := Fill(world, s0, bytes);
    FillKeeps(world, s0, bytes);
    if kept {
      assert bytes[..|bytes|] == bytes;
    } else {
      var k := PushKeeps(world, s1, bytes);
      var (t, r) := Push(world, s1, bytes, false, 0);
      DirectStream(s1, bytes, t, r, k);
    }
  }

  /** Even beyond the cap nothing is lost or made up; only the order can go. */
  lemma {:induction false} NothingLost(world: World, s: State, bytes: seq<byte>)
    requires Capped(s) && |bytes| <= INT_MAX
    ensures var (t, r) := Write(world, s, bytes);
      Capped(t) && multiset(Stream(t)) == multiset(Stream(s)) + multiset(bytes[..r])
  {
    hide Fill, Push, Direct, Capped;
    var s0 := s.(errnum := 0);
    SameCapped(s, s0);
    var (s1, kept) := Fill(world, s0, bytes);
    FillKeeps(world, s0, bytes);
    if kept {
      assert bytes[..|bytes|] == bytes;
    } else {
      var k := PushKeeps(world, s1, bytes);
      var (t, r) := Push(world, s1, bytes, false, 0);
      DirectBag(s1, bytes, t, r, k);
    }
  }

  lemma {:induction false} PushCapped(world: World, s: State, bytes: seq<byte>, tot: nat)
    requires Capped(s) && tot <= |bytes|
    ensures Capped(Push(world, s, bytes, false, tot).0)
    decreases |bytes| - tot
  {
    hide Short;
    if tot < |bytes| {
      var amt := Least(|bytes| - tot, INT_MAX);
      var n := Taken(world(s.at), amt);
      var k := if n > 0 then n else 0;
      var s1 := s.(taken := s.taken + bytes[tot..tot + k], at := s.at + 1);
      if n == amt {
        PushCapped(world, s1, bytes, tot + amt);
      } else {
        ShortKeeps(world, s1, bytes[tot + k..tot + amt], n, false);
      }
    }
  }

  /** The cache never outgrows the cap. */
  lemma {:induction false} WriteCapped(world: World, s: State, bytes: seq<byte>)
    requires Capped(s)
    ensures Capped(Write(world, s, bytes).0)
  {
    hide Fill, Push;
    var s0 := s.(errnum := 0);
    FillKeeps(world, s0, bytes);
    PushCapped(world, Fill(world, s0, bytes).0, bytes, 0);
  }

  // ---- when the order is kept

  /** The poll says no, and the send takes one byte. */
  lemma {:induction false} Overtaken(s: State, bytes: seq<byte>)
    requires Capped(s) && s.cache != [] && |s.cache| + |bytes| > CAP && bytes[0] != s.cache[0]
    ensures !Conserves(s, bytes, Write((at: nat) => at - s.at, s, bytes))
  {
    var world: World := (at: nat) => at - s.at;
    var s0 := s.(errnum := 0);
    var s1 := s0.(at := s.at + 1, errnum := CACHE_FULL);
    assert Fill(world, s0, bytes) == (s1, false);
    var (t, r) := Write(world, s, bytes);
    var amt := Least(|bytes|, INT_MAX);
    assert t == Push(world, s1, bytes, false, 0).0;
    FirstTaken(world, s1, bytes);
    assert t.taken[|s.taken|] == bytes[0];
    assert Stream(s)[|s.taken|] == s.cache[0];
    assert (Stream(s) + bytes[..r])[|s.taken|] == Stream(s)[|s.taken|];
  }

  lemma {:induction false} TakenGrows(world: World, s: State, bytes: seq<byte>, own: bool, tot: nat)
    requires tot <= |bytes|
    ensures s.taken <= Push(world, s, bytes, own, tot).0.taken
    decreases |bytes| - tot
  {
    if tot < |bytes| {
      var amt := Least(|bytes| - tot, INT_MAX);
      var n := Taken(world(s.at), amt);
      if n == amt {
        TakenGrows(world, s.(taken := s.taken + bytes[tot..tot + amt], at := s.at + 1), bytes, own, tot + amt);
      }
    }
  }

  lemma {:induction false} FirstTaken(world: World, s: State, bytes: seq<byte>)
    requires bytes != [] && world(s.at) == 1
    ensures s.taken + bytes[..1] <= Push(world, s, bytes, false, 0).0.taken
  {
    var amt := Least(|bytes|, INT_MAX);
    assert Taken(world(s.at), amt) == 1;
    assert bytes[0..0 + 1] == bytes[..1];
    if amt == 1 {
      TakenGrows(world, s.(taken := s.taken + bytes[..1], at := s.at + 1), bytes, false, 1);
    }
  }

  /** All of the first chunk is taken, then the socket closes: 0 is reported. */
  lemma {:induction false} Unreported(s: State, bytes: seq<byte>)
    requires Capped(s) && s.cache == [] && |bytes| > INT_MAX
    ensures !Conserves(s, bytes,
      Write((at: nat) => if at == (if s.blocked then s.at + 1 else s.at) then INT_MAX else 0, s, bytes))
  {
    var world: World := (at: nat) => if at == (if s.blocked then s.at + 1 else s.at) then INT_MAX else 0;
    var s0 := s.(errnum := 0);
    var s1 := if s.blocked then s0.(at := s.at + 1, errnum := CACHE_FULL) else s0;
    assert Fill(world, s0, bytes) == (s1, false);
    var s2 := s1.(taken := s1.taken + bytes[0..INT_MAX], at := s1.at + 1);
    assert Push(world, s1, bytes, false, 0) == Push(world, s2, bytes, false, INT_MAX);
    assert world(s2.at) == 0;
    assert bytes[INT_MAX..INT_MAX + 0] == [];
    assert Push(world, s2, bytes, false, INT_MAX).1 == 0;
    assert |Push(world, s2, bytes, false, INT_MAX).0.taken| == |s.taken| + INT_MAX;
    assert bytes[..0] == [];
  }

  /** A count that a write can have in any world, whatever the bytes. */
  ghost predicate AlwaysConserves(s: State, len: nat)
  {
    forall world: World, bytes: seq<byte> :: |bytes| == len ==> Conserves(s, bytes, Write(world, s, bytes))
  }

  /** The order survives every behaviour of the socket exactly if the write fits. */
  lemma {:induction false} ConservedExactly(s: State, len: nat)
    requires Capped(s)
    ensures AlwaysConserves(s, len) <==> Fits(s, len)
  {
    hide Conserves, Write;
    if Fits(s, len) {
      forall world: World, bytes: seq<byte> | |bytes| == len
        ensures Conserves(s, bytes, Write(world, s, bytes))
      {
        WriteConserves(world, s, bytes);
      }
    } else {
      var b: byte := if s.cache != [] && s.cache[0] == 0 then 1 else 0;
      var bytes: seq<byte> := seq(len, i => b);
      assert |bytes| == len;
      if s.cache == [] {
        Unreported(s, bytes);
      } else {
        Overtaken(s, bytes);
      }
    }
  }

  // ---- what leaves the cache

  /** As many bytes as the next send takes, if it is offered that many. */
  function Accepted(world: World, at: nat, amt: nat): (n: nat)
    ensures n <= amt
  {
    if world(at) < 0 then 0 else Least(world(at), amt)
  }

  /** One send is offered the whole cache; what it takes leaves the cache from the front, and nothing else changes. */
  lemma {:induction false} PurgeSends(world: World, s: State)
    requires Capped(s) && s.cache != []
    ensures var n := Accepted(world, s.at, |s.cache|); var (t, done) := Purge(world, s);
      && t.taken == s.taken + s.cache[..n] && t.cache == s.cache[n..] && t.memory == s.memory
      && (done <==> n == |s.cache|) && t.blocked == (s.blocked && !done)
      && t.at == s.at + (if world(s.at) < 0 then 2 else 1)
  {
    hide Push, Short;
    var n, k, s1 := OnePush(world, s.(errnum := 0), s.cache, true);
    assert k == Accepted(world, s.at, |s.cache|);
    ShortOwn(world, s1, s.cache[k..], n);
    assert s.cache[|s.cache|..] == [];
  }

  lemma {:induction false} ShortOwn(world: World, s: State, rest: seq<byte>, n: int)
    ensures var (t, kept) := Short(world, s, rest, n, true);
      && !kept && t.taken == s.taken && t.cache == s.cache && t.blocked == s.blocked && t.memory == s.memory
      && t.at == (if n > 0 then s.at else s.at + 1)
  {
  }

  /** k purges one after another. */
  function Purges(world: World, s: State, k: nat): State
    decreases k
  {
    if k == 0 then s else Purges(world, Purge(world, s).0, k - 1)
  }

  /** While every send takes at least a byte, as many purges as there are cached bytes empty the cache. */
  lemma {:induction false} PurgesEmpty(world: World, s: State, k: nat)
    requires Capped(s) && |s.cache| <= k && forall at: nat :: world(at) >= 1
    ensures var t := Purges(world, s, k); t.cache == [] && t.taken == Stream(s)
    decreases k
  {
    hide Purge;
    if k > 0 {
      PurgeKeeps(world, s);
      if s.cache != [] {
        PurgeSends(world, s);
      }
      PurgesEmpty(world, Purge(world, s).0, k - 1);
    } else {
      assert s.taken + [] == s.taken;
    }
  }

  // ---- what a write sends

  /** With nothing cached, one send is offered all; the rest is kept if it fits, and none of it is if it does not. */
  lemma {:induction false} WriteSends(world: World, s: State, bytes: seq<byte>)
    requires Capped(s) && s.cache == [] && !s.blocked && 0 < |bytes| <= INT_MAX
    ensures var n := Accepted(world, s.at, |bytes|); var (t, r) := Write(world, s, bytes);
      && t.taken == s.taken + bytes[..n]
      && ((t.cache == bytes[n..] && r == |bytes|) || (t.cache == [] && r == n))
      && (|bytes| - n <= CAP && s.memory && world(s.at) != 0 ==> t.cache == bytes[n..] && r == |bytes|)
      && (world(s.at) == 0 ==> t.cache == [] && r == 0)
      && (n == |bytes| ==> t.errnum == 0) && (0 < n < |bytes| ==> t.errnum == WRITE_BUSY)
  {
    hide Push, Short;
    var s0 := s.(errnum := 0);
    var n, k, s1 := OnePush(world, s0, bytes, false);
    assert k == Accepted(world, s.at, |bytes|);
    ShortKeeps(world, s1, bytes[k..], n, false);
    ShortFits(world, s1, bytes[k..], n);
    assert [] + bytes[k..] == bytes[k..];
    assert bytes[|bytes|..] == [];
  }

  lemma {:induction false} ShortFits(world: World, s: State, rest: seq<byte>, n: int)
    ensures |rest| + |s.cache| <= CAP && s.memory ==> Short(world, s, rest, n, false).1
    ensures n > 0 ==> Short(world, s, rest, n, false).0.errnum == WRITE_BUSY
  {
  }

  /** Behind cached bytes that cannot be sent now, or are not to be, the new ones are kept without a send. */
  lemma {:induction false} WriteWaits(world: World, s: State, bytes: seq<byte>)
    requires Capped(s) && s.cache != [] && |s.cache| + |bytes| <= CAP && (s.blocked || world(s.at) == 0)
    ensures var (t, r) := Write(world, s, bytes);
      t.taken == s.taken && t.cache == s.cache + bytes && r == |bytes| && t.errnum == WRITE_BUSY
  {
    hide Purge;
    KeepFits(world, s.(errnum := 0), bytes);
    KeepFits(world, s.(errnum := 0, at := s.at + 1), bytes);
  }

  /** If the socket can be written to and takes everything, the cached bytes go first and the new ones behind them. */
  lemma {:induction false} WriteThrough(world: World, s: State, bytes: seq<byte>)
    requires Capped(s) && s.cache != [] && !s.blocked && |bytes| <= INT_MAX
    requires forall at: nat :: world(at) >= |s.cache| + |bytes|
    ensures var (t, r) := Write(world, s, bytes);
      t.taken == Stream(s) + bytes && t.cache == [] && r == |bytes|
  {
    hide Push, Short, Purge;
    var s0 := s.(errnum := 0, at := s.at + 1);
    PurgeSends(world, s0);
    PurgeKeeps(world, s0);
    var s1 := Purge(world, s0).0;
    assert Fill(world, s.(errnum := 0), bytes) == (s1, false);
    if bytes == [] {
      PushNone(world, s1, false);
      assert Stream(s) + bytes == Stream(s);
    } else {
      var n, k, s2 := OnePush(world, s1, bytes, false);
      assert bytes[..k] == bytes;
    }
  }

  // ---- runs

  /** The states and reports of one write after another. */
  function Writes(world: World, s: State, all: seq<seq<byte>>): (r: (State, seq<byte>))
    decreases |all|
  {
    if all == [] then
      (s, [])
    else
      var (s1, n) := Write(world, s, all[0]);
      var (s2, rest) := Writes(world, s1, all[1..]);
      (s2, all[0][..n] + rest)
  }

  /** Every write fits when its turn comes. */
  ghost predicate AllFit(world: World, s: State, all: seq<seq<byte>>)
    decreases |all|
  {
    all == [] || (Fits(s, |all[0]|) && AllFit(world, Write(world, s, all[0]).0, all[1..]))
  }

  lemma {:induction false} RunConserves(world: World, s: State, all: seq<seq<byte>>)
    requires Capped(s) && AllFit(world, s, all)
    ensures var (t, reported) := Writes(world, s, all);
      Capped(t) && Stream(t) == Stream(s) + reported
    decreases |all|
  {
    hide Write, Fits;
    if all != [] {
      WriteConserves(world, s, all[0]);
      var (s1, n) := Write(world, s, all[0]);
      RunConserves(world, s1, all[1..]);
      var (s2, rest) := Writes(world, s1, all[1..]);
      assert Stream(s) + all[0][..n] + rest == Stream(s) + (all[0][..n] + rest);
    } else {
      assert Stream(s) + [] == Stream(s);
    }
  }

  /** After any run of writes that fit, purging gets all that was reported to a socket that takes a byte at a time. */
  lemma {:induction false} RunArrives(world: World, later: World, s: State, all: seq<seq<byte>>)
    requires Capped(s) && AllFit(world, s, all) && forall at: nat :: later(at) >= 1
    ensures var (t, reported) := Writes(world, s, all);
      Purges(later, t, |t.cache|).taken == Stream(s) + reported
  {
    hide Write, Fits, Purge;
    RunConserves(world, s, all);
    var t := Writes(world, s, all).0;
    PurgesEmpty(later, t, |t.cache|);
  }
}
