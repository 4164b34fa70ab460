/** xs_array: a growing array, as the write cache uses it. */
module GrowArrays {
  class GrowArray<T(0)> {
    // No memory yet is an array of length 0.
    var data: array<T>
    var count: nat

    ghost predicate Valid()
      reads this
    {
      count <= data.Length
    }

    ghost function Contents(): (s: seq<T>)
      requires Valid()
      reads this, data
      ensures |s| == count
    {
      data[..count]
    }

    constructor ()
      ensures Valid() && fresh(data) && data.Length == 0 && Contents() == []
    {
      data := new T[0];
      count := 0;
    }

    /** Only the first allocation may fail cleanly; calloc says whether it does. */
    method MakeSpace(space: nat, calloc: bool) returns (err: bool)
      requires Valid() && 0 < space < 0x4000_0000
      modifies this
      ensures Valid() && Contents() == old(Contents()) && count == old(count)
      ensures err <==> old(data.Length) == 0 && !calloc
      ensures err ==> data == old(data)
      ensures !err ==> data.Length >= space && (data == old(data) || fresh(data))
    {
      var ns := data.Length;
      if space >= ns {
        if ns == 0 && !calloc { return true; }
        ns := if ns * 2 > space then ns * 2 else space;
        var p := new T[ns];
        var old_ := data;
        forall i | 0 <= i < old_.Length {
          p[i] := old_[i];
        }
        data := p;
      }
      err := false;
    }

    /** Elements at the end; a null result is a failure, and so is adding nothing to no memory. */
    method Add(src: seq<T>, calloc: bool) returns (ok: bool)
      requires Valid() && count + |src| < 0x4000_0000
      modifies this, data
      ensures Valid() && (data == old(data) || fresh(data))
      ensures ok <==> old(data.Length) > 0 || (src != [] && calloc)
      ensures Contents() == if ok then old(Contents()) + src else old(Contents())
      ensures data.Length > 0 <==> ok
    {
      ghost var before := Contents();
      var err := false;
      if count + |src| > data.Length {
        err := MakeSpace(count + |src|, calloc);
      }
      if err || data.Length == 0 { return false; }
      var n := count;
      forall i | 0 <= i < |src| {
        data[n + i] := src[i];
      }
      count := n + |src|;
      assert data[..n] == before;
      assert data[n..count] == src;
      ok := true;
    }

    /** The elements behind the gap move down. */
    method Remove(before: nat, n: nat)
      requires Valid() && before + n <= count
      modifies this, data
      ensures Valid() && data == old(data)
      ensures Contents() == old(Contents())[..before] + old(Contents())[before + n..]
    {
      ghost var c := Contents();
      if n < count {
        var total := count;
        forall i | before <= i < total - n {
          data[i] := data[i + n];
        }
        assert data[..before] == c[..before];
        assert data[before..count - n] == c[before + n..];
      }
      count := count - n;
      assert n == |c| ==> c[..before] + c[before + n..] == [];
    }
  }
}
