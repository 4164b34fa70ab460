/** The write side of a connection: xs_conn_write_, its cache and the socket. */
module Connections {
  import opened Bits
  import opened WriteSpec
  import opened GrowArrays

  /** The socket and everything else that answers differently each time. */
  class Net {
    const world: World
    var at: nat
    var taken: seq<byte>

    constructor (world: World)
      ensures this.world == world && at == 0 && taken == []
    {
      this.world := world;
      at := 0;
      taken := [];
    }

    method Ask() returns (answer: int)
      modifies `at
      ensures answer == world(old(at)) && at == old(at) + 1
    {
      answer := world(at);
      at := at + 1;
    }

    /** send: some prefix is taken, or -1. */
    method Send(bytes: seq<byte>) returns (n: int)
      modifies this
      ensures n == Taken(world(old(at)), |bytes|) && at == old(at) + 1
      ensures taken == old(taken) + bytes[..if n > 0 then n else 0]
    {
      var answer := Ask();
      n := Taken(answer, |bytes|);
      taken := taken + bytes[..if n > 0 then n else 0];
    }
  }

  /** Where the bytes to be written lie: at the start of the cache, or outside it. */
  datatype Buffer = Cached | Outside(bytes: seq<byte>)

  class Connection {
    const net: Net
    const wcache: GrowArray<byte>
    var errnum: int
    var blocked: bool

    ghost predicate Valid()
      reads this, wcache
    {
      wcache.Valid()
    }

    ghost function Abs(): State
      requires Valid()
      reads this, net, wcache, wcache.data
    {
      State(net.taken, wcache.Contents(), blocked, errnum, wcache.data.Length > 0, net.at)
    }

    constructor (net: Net)
      ensures Valid() && this.net == net && fresh(wcache) && fresh(wcache.data)
      ensures Abs() == State(net.taken, [], false, 0, false, net.at)
    {
      this.net := net;
      wcache := new GrowArray<byte>();
      errnum := 0;
      blocked := false;
    }

    /** The bytes a buffer stands for. */
    ghost function BytesOf(buf: Buffer): seq<byte>
      requires Valid()
      reads this, wcache, wcache.data
    {
      if buf.Cached? then wcache.Contents() else buf.bytes
    }

    method InRange(buf: Buffer, offset: nat) returns (r: bool)
      ensures r == (buf.Cached? && offset < wcache.data.Length)
    {
      r := buf.Cached? && offset < wcache.data.Length;
    }

    /** The adding part of xs_conn_cachefill. */
    method AddToCache(bytes: seq<byte>) returns (kept: bool)
      requires Valid()
      modifies this, net, wcache, wcache.data
      ensures Valid() && (wcache.data == old(wcache.data) || fresh(wcache.data))
      ensures (Abs(), kept) == Keep(net.world, old(Abs()), bytes)
    {
      kept := false;
      if |bytes| + wcache.count <= CAP {
        var memory := true;
        if wcache.data.Length == 0 && bytes != [] {
          var answer := net.Ask();
          memory := answer != 0;
        }
        kept := wcache.Add(bytes, memory);
      }
      if !kept {
        errnum := CACHE_FULL;
      } else if errnum == 0 {
        errnum := WRITE_BUSY;
      }
    }

    /** xs_conn_cachefill for len bytes from offset on. */
    method CacheFill(buf: Buffer, offset: nat, len: nat, force: bool) returns (kept: bool)
      requires Valid() && offset + len <= |BytesOf(buf)| && (buf.Cached? ==> len > 0)
      requires !force ==> offset == 0 && len == |BytesOf(buf)|
      modifies this, net, wcache, wcache.data
      ensures Valid() && (wcache.data == old(wcache.data) || fresh(wcache.data))
      ensures buf.Cached? ==> !kept && Abs() == old(Abs()) && wcache.data == old(wcache.data)
      ensures buf.Outside? && force ==> (Abs(), kept) == Keep(net.world, old(Abs()), buf.bytes[offset..offset + len])
      ensures buf.Outside? && !force ==> (Abs(), kept) == Fill(net.world, old(Abs()), buf.bytes)
      decreases if buf.Cached? then 0 else 1, 1
    {
      hide Purge, Keep;
      kept := false;
      var inside := InRange(buf, offset);
      if (force || wcache.count != 0 || blocked) && !inside {
        assert !force ==> buf.bytes[offset..offset + len] == buf.bytes;
        var full := force || (blocked && len + wcache.count <= CAP);
        if !full {
          var writable := net.Ask();
          full := writable == 0;
        }
        if !full {
          var err := CachePurge();
          full := err != 0;
        }
        if full {
          kept := AddToCache(buf.bytes[offset..offset + len]);
        }
      }
    }

    /** xs_conn_cachepurge: 0 if the cache has been emptied. */
    method CachePurge() returns (err: int)
      requires Valid()
      modifies this, net, wcache, wcache.data
      ensures Valid() && (wcache.data == old(wcache.data) || fresh(wcache.data))
      ensures (Abs(), err == 0) == Purge(net.world, old(Abs()))
      ensures old(Capped(Abs()) && Abs().cache != []) ==>
        var c := old(Abs().cache);
        var n := Accepted(net.world, old(net.at), |c|);
        net.taken == old(net.taken) + c[..n] && Abs().cache == c[n..] && (err == 0 <==> n == |c|)
      ensures old(Abs().cache) == [] ==> err == 0 && Abs() == old(Abs())
      decreases 0, 5
    {
      hide Push;
      var tot := wcache.count;
      if tot == 0 { return 0; }
      ghost var s := Abs();
      if Capped(s) {
        PurgeSends(net.world, s);
      }
      var wtot := WriteFrom(Cached, tot);
      if wtot == tot {
        wcache.count := 0;
        blocked := false;
        return 0;
      }
      assert s.cache[..0] + s.cache[0 + wtot..] == s.cache[wtot..];
      wcache.Remove(0, wtot);
      err := -1;
    }

    /** xs_conn_write_; sending from the cache leaves the cache itself alone. */
    method WriteFrom(buf: Buffer, len: nat) returns (r: nat)
      requires Valid() && len == |BytesOf(buf)| && (buf.Cached? ==> len > 0)
      modifies this, net, wcache, wcache.data
      ensures Valid() && (wcache.data == old(wcache.data) || fresh(wcache.data))
      ensures r <= len
      ensures buf.Outside? ==> (Abs(), r) == Write(net.world, old(Abs()), buf.bytes)
      ensures buf.Cached? ==> (Abs(), r) == Push(net.world, old(Abs()).(errnum := 0), old(Abs()).cache, true, 0)
      ensures buf.Cached? ==> wcache.Contents() == old(wcache.Contents())
      decreases if buf.Cached? then 0 else 1, 4
    {
      hide Push, Fill, Short;
      ghost var bytes := BytesOf(buf);
      errnum := 0;
      var kept := CacheFill(buf, 0, len, false);
      if kept { return len; }
      ghost var s := Abs();
      var tot := 0;
      var more := true;
      while more && tot < len
        invariant Valid() && tot <= len && (wcache.data == old(wcache.data) || fresh(wcache.data))
        invariant buf.Cached? ==> Abs().cache == bytes
        invariant more ==> Push(net.world, s, bytes, buf.Cached?, 0) == Push(net.world, Abs(), bytes, buf.Cached?, tot)
        invariant !more ==> Push(net.world, s, bytes, buf.Cached?, 0) == (Abs(), tot)
        decreases more, len - tot
      {
        tot, more := SendSome(buf, tot, len, bytes);
      }
      PushEnds(net.world, Abs(), bytes, buf.Cached?);
      r := tot;
    }

    /** xs_conn_write: what fits is taken or kept in order, whatever the socket does. */
    method WriteBytes(bytes: seq<byte>) returns (r: nat)
      requires Valid() && Capped(Abs())
      modifies this, net, wcache, wcache.data
      ensures Valid() && (wcache.data == old(wcache.data) || fresh(wcache.data))
      ensures Capped(Abs()) && (Abs(), r) == Write(net.world, old(Abs()), bytes)
      ensures Fits(old(Abs()), |bytes|) ==> r <= |bytes| && Stream(Abs()) == Stream(old(Abs())) + bytes[..r]
      ensures |bytes| <= INT_MAX ==>
        r <= |bytes| && multiset(Stream(Abs())) == multiset(Stream(old(Abs()))) + multiset(bytes[..r])
    {
      hide Write, Fits, Capped, Stream;
      ghost var s := Abs();
      r := WriteFrom(Outside(bytes), |bytes|);
      WriteCapped(net.world, s, bytes);
      if Fits(s, |bytes|) {
        WriteConserves(net.world, s, bytes);
      }
      if |bytes| <= INT_MAX {
        NothingLost(net.world, s, bytes);
      }
    }

    /** One call of send, for as much as an int can hold. */
    method Submit(buf: Buffer, tot: nat, len: nat, ghost bytes: seq<byte>) returns (amt: nat, n: int)
      requires Valid() && bytes == BytesOf(buf) && len == |bytes| && tot < len
      modifies net
      ensures Valid() && BytesOf(buf) == bytes && amt == Least(len - tot, INT_MAX)
      ensures n == Taken(net.world(old(net.at)), amt)
      ensures var s := old(Abs());
        Abs() == s.(taken := s.taken + bytes[tot..tot + if n > 0 then n else 0], at := s.at + 1)
    {
      amt := if len - tot > INT_MAX then INT_MAX else len - tot;
      var chunk;
      if buf.Cached? {
        SliceOfFront(wcache.data, len, tot, tot + amt);
        chunk := wcache.data[tot..tot + amt];
      } else {
        chunk := buf.bytes[tot..tot + amt];
      }
      n := net.Send(chunk);
      assert chunk[..if n > 0 then n else 0] == bytes[tot..tot + if n > 0 then n else 0];
    }

    /** One turn of the sending loop. */
    method SendSome(buf: Buffer, tot0: nat, len: nat, ghost bytes: seq<byte>) returns (tot: nat, more: bool)
      requires Valid() && bytes == BytesOf(buf) && len == |bytes| && tot0 < len
      modifies this, net, wcache, wcache.data
      ensures Valid() && (wcache.data == old(wcache.data) || fresh(wcache.data))
      ensures tot <= len && (more ==> tot > tot0) && (buf.Cached? ==> Abs().cache == bytes)
      ensures Push(net.world, old(Abs()), bytes, buf.Cached?, tot0)
        == if more then Push(net.world, Abs(), bytes, buf.Cached?, tot) else (Abs(), tot)
      decreases if buf.Cached? then 0 else 1, 3
    {
      hide Push, Short, Taken;
      ghost var s := Abs();
      tot := tot0;
      var amt, n := Submit(buf, tot, len, bytes);
      PushStep(net.world, s, bytes, buf.Cached?, tot0);
      if n == 0 { return 0, false; }
      tot := tot + (if n > 0 then n else 0);
      more := n == amt;
      if !more {
        amt := amt - (if n > 0 then n else 0);
        var kept := KeepRest(buf, tot, amt, n, bytes);
        if kept { tot := tot + amt; }
      }
    }

    /** After a short send: the rest of the chunk, and the error. */
    method KeepRest(buf: Buffer, tot: nat, amt: nat, n: int, ghost bytes: seq<byte>) returns (kept: bool)
      requires Valid() && bytes == BytesOf(buf) && tot + amt <= |bytes| && amt > 0
      modifies this, net, wcache, wcache.data
      ensures Valid() && (wcache.data == old(wcache.data) || fresh(wcache.data))
      ensures (Abs(), kept) == Short(net.world, old(Abs()), bytes[tot..tot + amt], n, buf.Cached?)
      ensures buf.Cached? ==> Abs().cache == bytes && !kept
      decreases if buf.Cached? then 0 else 1, 2
    {
      hide Keep;
      kept := CacheFill(buf, tot, amt, true);
      if n > 0 {
        errnum := WRITE_BUSY;
      } else {
        var e := net.Ask();
        errnum := if e == 0 then WRITE_BUSY else e;
      }
    }
  }

  lemma {:induction false} SliceOfFront(a: array<byte>, len: nat, i: nat, j: nat)
    requires i <= j <= len <= a.Length
    ensures a[..len][i..j] == a[i..j]
  {
  }

  lemma {:induction false} PushEnds(world: World, s: State, bytes: seq<byte>, own: bool)
    ensures Push(world, s, bytes, own, |bytes|) == (s, |bytes|)
  {
  }

  lemma {:induction false} PushStep(world: World, s: State, bytes: seq<byte>, own: bool, tot: nat)
    requires tot < |bytes|
    ensures var amt := Least(|bytes| - tot, INT_MAX);
      var n := Taken(world(s.at), amt);
      var k := if n > 0 then n else 0;
      var s1 := s.(taken := s.taken + bytes[tot..tot + k], at := s.at + 1);
      Push(world, s, bytes, own, tot) == (
        if n == 0 then (s1, 0)
        else if n == amt then Push(world, s1, bytes, own, tot + amt)
        else var (s2, kept) := Short(world, s1, bytes[tot + k..tot + amt], n, own);
          (s2, if kept then tot + amt else tot + k))
  {
  }
}
