/** The ZIP reader's name index: heapsort of the entries by folded name, and lookup. */
module ZipIndexes {
  import opened Bits
  import opened SortSpec
  import opened ZipNames

  /** What a central directory record says about an entry; lengths are 16 bits wide. */
  datatype Entry = Entry(name: Name, comment: Name)

  ghost predicate Proper(entries: seq<Entry>)
  {
    |entries| <= 0xFFFF && forall i :: 0 <= i < |entries| ==>
      |entries[i].name| <= 0xFFFF && |entries[i].comment| <= 0xFFFF
  }

  ghost function Key(entries: seq<Entry>, i: nat): Name
  {
    if i < |entries| then Lower(entries[i].name) else []
  }

  /** The entry x does not come after the entry y. */
  ghost predicate NotAfter(entries: seq<Entry>, x: nat, y: nat)
  {
    !Before(Key(entries, y), Key(entries, x))
  }

  lemma {:induction false} NotAfterLaws(entries: seq<Entry>, x: nat, y: nat, z: nat)
    ensures NotAfter(entries, x, y) || NotAfter(entries, y, x)
    ensures NotAfter(entries, x, y) && NotAfter(entries, y, z) ==> NotAfter(entries, x, z)
    ensures NotAfter(entries, x, x)
  {
    var a, b, c := Key(entries, x), Key(entries, y), Key(entries, z);
    OneOfThree(a, b);
    OneOfThree(a, a);
    if NotAfter(entries, x, y) && NotAfter(entries, y, z) {
      BeforeTrans(a, b, c);
    }
  }

  // ---- the heap

  ghost predicate Indices(entries: seq<Entry>, s: seq<nat>)
  {
    forall i :: 0 <= i < |s| ==> s[i] < |entries|
  }

  /** The element at c does not come after its parent. */
  ghost predicate Under(entries: seq<Entry>, s: seq<nat>, c: nat)
  {
    0 < c < |s| && NotAfter(entries, s[c], s[(c - 1) / 2])
  }

  /** Within lo and end no parent comes before its children. */
  ghost predicate Heap(entries: seq<Entry>, s: seq<nat>, lo: nat, end: nat)
  {
    end <= |s| && forall c :: 2 * lo < c < end ==> Under(entries, s, c)
  }

  /** The same but for the element at hole, whose children are in order with its parent. */
  ghost predicate HeapBut(entries: seq<Entry>, s: seq<nat>, lo: nat, end: nat, hole: nat)
  {
    && end <= |s| && lo <= hole
    && (forall c :: 2 * lo < c < end && (c - 1) / 2 != hole ==> Under(entries, s, c))
    && (forall c :: 2 * lo < c < end && (c - 1) / 2 == hole && hole > 2 * lo ==>
      NotAfter(entries, s[c], s[(hole - 1) / 2]))
  }

  /** The larger child moves up, and the hole down. */
  lemma {:induction false} Sunk(entries: seq<Entry>, s: seq<nat>, lo: nat, end: nat, root: nat, child: nat)
    requires HeapBut(entries, s, lo, end, root) && (child == 2 * root + 1 || child == 2 * root + 2) && child < end
    requires !NotAfter(entries, s[child], s[root])
    requires forall c :: (c == 2 * root + 1 || c == 2 * root + 2) && c < end ==> NotAfter(entries, s[c], s[child])
    ensures HeapBut(entries, Swapped(s, root, child), lo, end, child)
  {
    hide NotAfter;
    var t := Swapped(s, root, child);
    NotAfterLaws(entries, s[child], s[root], s[root]);
    forall c | 2 * lo < c < end && (c - 1) / 2 != child
      ensures Under(entries, t, c)
    {
      assert (c - 1) / 2 != root ==> Under(entries, s, c);
      if c == root {
        assert NotAfter(entries, s[child], s[(root - 1) / 2]);
      } else if (c - 1) / 2 == root {
        assert c == 2 * root + 1 || c == 2 * root + 2;
      }
    }
    forall c | 2 * lo < c < end && (c - 1) / 2 == child && child > 2 * lo
      ensures NotAfter(entries, t[c], t[(child - 1) / 2])
    {
      assert Under(entries, s, c);
      assert (child - 1) / 2 == root;
    }
  }

  lemma {:induction false} Settled(entries: seq<Entry>, s: seq<nat>, lo: nat, end: nat, root: nat)
    requires HeapBut(entries, s, lo, end, root)
    requires forall c :: (c == 2 * root + 1 || c == 2 * root + 2) && c < end ==> NotAfter(entries, s[c], s[root])
    ensures Heap(entries, s, lo, end)
  {
    hide NotAfter;
    forall c | 2 * lo < c < end
      ensures Under(entries, s, c)
    {
      if (c - 1) / 2 == root {
        assert c == 2 * root + 1 || c == 2 * root + 2;
      }
    }
  }

  /** A heap from start + 1 on is one from start on but for start itself. */
  lemma {:induction false} Opened(entries: seq<Entry>, s: seq<nat>, start: nat, end: nat)
    requires Heap(entries, s, start + 1, end)
    ensures HeapBut(entries, s, start, end, start)
  {
    hide NotAfter;
    forall c | 2 * start < c < end && (c - 1) / 2 != start
      ensures Under(entries, s, c)
    {
      assert c > 2 * (start + 1);
    }
  }

  /** Nothing comes after the root. */
  lemma {:induction false} RootLast(entries: seq<Entry>, s: seq<nat>, end: nat, i: nat)
    requires Heap(entries, s, 0, end) && i < end
    ensures NotAfter(entries, s[i], s[0])
  {
    hide NotAfter;
    if i == 0 {
      NotAfterLaws(entries, s[0], s[0], s[0]);
    } else {
      assert Under(entries, s, i);
      RootLast(entries, s, end, (i - 1) / 2);
      NotAfterLaws(entries, s[i], s[(i - 1) / 2], s[0]);
    }
  }

  // ---- sorting

  /** From m on all are in order, and none of those comes before one of the first m. */
  ghost predicate SortedFrom(entries: seq<Entry>, s: seq<nat>, m: nat)
  {
    forall p, q :: 0 <= p < q < |s| && m <= q ==> NotAfter(entries, s[p], s[q])
  }

  lemma {:induction false} RestSorted(entries: seq<Entry>, s: seq<nat>, t: seq<nat>, m: nat)
    requires SortedFrom(entries, s, m) && Permuted(s, t, 0, m)
    ensures SortedFrom(entries, t, m)
  {
    hide NotAfter;
    forall p, q | 0 <= p < q < |t| && m <= q
      ensures NotAfter(entries, t[p], t[q])
    {
      var p0 := Origin(s, t, 0, m, p);
      var q0 := Origin(s, t, 0, m, q);
    }
  }

  /** The root goes to the end of the heap. */
  lemma {:induction false} RootPlaced(entries: seq<Entry>, s: seq<nat>, end: nat)
    requires end < |s| && Heap(entries, s, 0, end + 1) && SortedFrom(entries, s, end + 1)
    ensures var t := Swapped(s, end, 0);
      SortedFrom(entries, t, end) && HeapBut(entries, t, 0, end, 0)
  {
    hide NotAfter;
    var t := Swapped(s, end, 0);
    forall c | 0 < c < end && (c - 1) / 2 != 0
      ensures Under(entries, t, c)
    {
      assert Under(entries, s, c);
    }
    forall p, q | 0 <= p < q < |t| && end <= q
      ensures NotAfter(entries, t[p], t[q])
    {
      if q == end {
        RootLast(entries, s, end + 1, if p == 0 then end else p);
      } else {
        assert NotAfter(entries, s[if p == 0 then end else if p == end then 0 else p], s[q]);
      }
    }
  }

  /** In order by folded name. */
  ghost predicate InNameOrder(entries: seq<Entry>, s: seq<nat>)
  {
    forall p, q :: 0 <= p < q < |s| ==> NotAfter(entries, s[p], s[q])
  }

  /** Every entry once. */
  ghost predicate AllOnce(entries: seq<Entry>, s: seq<nat>)
  {
    |s| == |entries| && multiset(s) == multiset(seq(|entries|, i requires 0 <= i < |entries| => i))
  }

  lemma {:induction false} OnceMeans(entries: seq<Entry>, s: seq<nat>)
    requires AllOnce(entries, s)
    ensures Indices(entries, s)
    ensures forall i: nat :: i < |entries| ==> i in s
  {
    var id := seq(|entries|, i requires 0 <= i < |entries| => i);
    forall k | 0 <= k < |s|
      ensures s[k] < |entries|
    {
      assert s[k] in multiset(s);
      assert s[k] in id;
    }
    forall i: nat | i < |entries|
      ensures i in s
    {
      assert id[i] == i;
      assert i in multiset(id);
    }
  }

  // ---- lookup

  predicate Separator(c: byte) { c == 47 || c == 92 || c == 58 }

  /** What follows the last separator. */
  function Base(name: Name): (r: Name)
    ensures |r| <= |name|
  {
    if name == [] then []
    else if Separator(name[|name| - 1]) then []
    else Base(name[..|name| - 1]) + [name[|name| - 1]]
  }

  ghost predicate Same(a: Name, b: Name, caseSensitive: bool)
  {
    if caseSensitive then a == b else Lower(a) == Lower(b)
  }

  /** An entry that a lookup may return; an empty comment is not looked at. */
  ghost predicate Matches(e: Entry, name: Name, comment: Name, ignorePath: bool, caseSensitive: bool)
  {
    && (comment == [] || Same(e.comment, comment, caseSensitive))
    && Same(if ignorePath then Base(e.name) else e.name, name, caseSensitive)
  }

  ghost predicate HasKey(entries: seq<Entry>, name: Name)
  {
    exists i :: 0 <= i < |entries| && Lower(entries[i].name) == Lower(name)
  }

  /** Both lookups give the same answer in every archive. */
  ghost predicate AlwaysAgree(name: Name)
  {
    forall entries :: Proper(entries) ==> (HasKey(entries, name[..|name| % 0x1_0000_0000]) <==> HasKey(entries, name))
  }

  /** The length survives being cut to 32 bits, or what is left is too long for any entry. */
  ghost predicate LengthSafe(name: Name)
  {
    |name| < 0x1_0000_0000 || |name| % 0x1_0000_0000 > 0xFFFF
  }

  lemma {:induction false} AgreeExactly(name: Name)
    ensures AlwaysAgree(name) <==> LengthSafe(name)
  {
    hide Lower, Proper;
    var cut := name[..|name| % 0x1_0000_0000];
    if |name| < 0x1_0000_0000 {
      assert cut == name;
    } else {
      forall entries | Proper(entries)
        ensures !HasKey(entries, name) && (|cut| > 0xFFFF ==> !HasKey(entries, cut))
      {
        NoLongKey(entries, name);
        NoLongKey(entries, cut);
      }
      if |cut| <= 0xFFFF {
        var entries := [Entry(cut, [])];
        assert Proper(entries) by { OneEntry(cut); }
        assert Lower(entries[0].name) == Lower(cut);
        assert HasKey(entries, cut) && !HasKey(entries, name);
      }
    }
  }

  lemma {:induction false} OneEntry(cut: Name)
    requires |cut| <= 0xFFFF
    ensures Proper([Entry(cut, [])])
  {
  }

  lemma {:induction false} NoLongKey(entries: seq<Entry>, name: Name)
    requires Proper(entries)
    ensures |name| > 0xFFFF ==> !HasKey(entries, name)
  {
    hide Lower;
  }

  lemma {:induction false} BaseShorter(name: Name, k: nat)
    requires k <= |name| && (forall i :: k <= i < |name| ==> !Separator(name[i])) && (k == 0 || Separator(name[k - 1]))
    ensures Base(name) == name[k..]
  {
    if k < |name| {
      BaseShorter(name[..|name| - 1], k);
      assert name[k..] == name[..|name| - 1][k..] + [name[|name| - 1]];
    }
  }

  /** A name without its path: nothing in it ends a directory's name, and what is in front of it, if anything, does. */
  lemma {:induction false} BaseIsLast(name: Name)
    ensures var n := |Base(name)|;
      && name[|name| - n..] == Base(name) && (forall c :: c in Base(name) ==> c as char !in {'/', '\\', ':'})
      && (n < |name| ==> name[|name| - n - 1] as char in {'/', '\\', ':'})
  {
    if name != [] && !Separator(name[|name| - 1]) {
      var dir := name[..|name| - 1];
      BaseIsLast(dir);
      assert name == dir + [name[|name| - 1]];
    }
  }

  class ZipReader {
    const entries: seq<Entry>
    // Empty if the archive was opened without sorting.
    const sorted: array<nat>

    ghost predicate Valid()
      reads sorted
    {
      && Proper(entries)
      && (sorted.Length > 0 ==> AllOnce(entries, sorted[..]) && InNameOrder(entries, sorted[..]))
    }

    /** The index is made when the central directory is read. */
    constructor (entries: seq<Entry>, sort: bool)
      requires Proper(entries)
      ensures Valid() && fresh(sorted) && this.entries == entries
      ensures sorted.Length == if sort then |entries| else 0
    {
      this.entries := entries;
      sorted := new nat[if sort then |entries| else 0](i => i);
      new;
      if sort {
        assert sorted[..] == seq(|entries|, i requires 0 <= i < |entries| => i);
        SortByName();
      }
    }

    /** mz_zip_reader_filename_less. */
    method Less(l: nat, r: nat) returns (less: bool)
      requires l < |entries| && r < |entries|
      ensures less == !NotAfter(entries, r, l)
    {
      hide Before;
      var pl, pr := entries[l].name, entries[r].name;
      var k := Scan(pl, pr);
      StopDecides(Lower(pl), Lower(pr), k);
      less := if k == |pl| || k == |pr| then |pl| < |pr| else Fold(pl[k]) < Fold(pr[k]);
    }

    static method Scan(a: Name, b: Name) returns (k: nat)
      ensures Stops(Lower(a), Lower(b), k)
    {
      k := 0;
      while k < |a| && k < |b| && Fold(a[k]) == Fold(b[k])
        invariant k <= |a| && k <= |b| && Lower(a)[..k] == Lower(b)[..k]
      {
        k := k + 1;
      }
    }

    /** The element at start sinks to where it belongs. */
    method SiftDown(start: nat, end: nat)
      requires start < end <= sorted.Length && Indices(entries, sorted[..])
        && HeapBut(entries, sorted[..], start, end, start)
      modifies sorted
      ensures Permuted(old(sorted[..]), sorted[..], 0, end)
      ensures Indices(entries, sorted[..]) && Heap(entries, sorted[..], start, end)
    {
      hide Permuted, Heap, HeapBut, NotAfter, Indices;
      ghost var s := sorted[..];
      PermutedSelf(s, 0, end);
      var root := start;
      while true
        invariant root < end && Indices(entries, sorted[..]) && HeapBut(entries, sorted[..], start, end, root)
        invariant Permuted(s, sorted[..], 0, end)
        decreases end - root
      {
        var child, done := Compare(root, end);
        if done {
          Settled(entries, sorted[..], start, end, root);
          return;
        }
        Sunk(entries, sorted[..], start, end, root, child);
        SwapAt(root, child, end, s);
        root := child;
      }
    }

    /** The larger child; done if there is none or it does not come after the root. */
    method Compare(root: nat, end: nat) returns (child: nat, done: bool)
      requires root < end <= sorted.Length && Indices(entries, sorted[..])
      ensures done ==> forall c :: (c == 2 * root + 1 || c == 2 * root + 2) && c < end ==>
        NotAfter(entries, sorted[c], sorted[root])
      ensures !done ==>
        (child == 2 * root + 1 || child == 2 * root + 2) && child < end
          && !NotAfter(entries, sorted[child], sorted[root])
      ensures !done ==> forall c :: (c == 2 * root + 1 || c == 2 * root + 2) && c < end ==>
        NotAfter(entries, sorted[c], sorted[child])
    {
      hide NotAfter;
      child := root * 2 + 1;
      if child >= end { return child, true; }
      if child + 1 < end {
        var second := Less(sorted[child], sorted[child + 1]);
        NotAfterLaws(entries, sorted[child], sorted[child + 1], sorted[root]);
        NotAfterLaws(entries, sorted[child + 1], sorted[child], sorted[root]);
        if second { child := child + 1; }
      }
      NotAfterLaws(entries, sorted[child], sorted[child], sorted[child]);
      var below := Less(sorted[root], sorted[child]);
      done := !below;
    }

    method SwapAt(i: nat, j: nat, end: nat, ghost s: seq<nat>)
      requires i < end && j < end <= sorted.Length && Indices(entries, sorted[..]) && Permuted(s, sorted[..], 0, end)
      modifies sorted
      ensures sorted[..] == Swapped(old(sorted[..]), i, j)
      ensures Indices(entries, sorted[..]) && Permuted(s, sorted[..], 0, end)
    {
      hide Permuted;
      ghost var before := sorted[..];
      SwapPermutes(before, i, j, 0, end);
      sorted[i], sorted[j] := sorted[j], sorted[i];
      assert sorted[..] == Swapped(before, i, j);
      PermutedTrans(s, before, sorted[..], 0, end);
    }

    /** The heapsort. */
    method SortByName()
      requires sorted.Length == |entries| && AllOnce(entries, sorted[..])
      modifies sorted
      ensures AllOnce(entries, sorted[..]) && InNameOrder(entries, sorted[..])
    {
      hide Permuted, Heap, HeapBut, NotAfter, Indices, SortedFrom, AllOnce, InNameOrder;
      ghost var s := sorted[..];
      var size := sorted.Length;
      OnceMeans(entries, s);
      PermutedSelf(s, 0, size);
      var start := (size - 2) / 2;
      NoParents(entries, s, start + 1);
      while start >= 0
        invariant -1 <= start && start * 2 <= size - 2 && Indices(entries, sorted[..])
          && Permuted(s, sorted[..], 0, size)
        invariant Heap(entries, sorted[..], start + 1, size)
      {
        ghost var before := sorted[..];
        Opened(entries, before, start, size);
        SiftDown(start, size);
        PermutedTrans(s, before, sorted[..], 0, size);
        start := start - 1;
      }
      var end := size - 1;
      NoneSorted(entries, sorted[..]);
      while end > 0
        invariant -1 <= end < size && Indices(entries, sorted[..]) && Permuted(s, sorted[..], 0, size)
        invariant Heap(entries, sorted[..], 0, end + 1) && SortedFrom(entries, sorted[..], end + 1)
      {
        ghost var before := sorted[..];
        RootPlaced(entries, before, end);
        SwapAt(end, 0, size, s);
        ghost var swapped := sorted[..];
        SiftDown(0, end);
        RestSorted(entries, swapped, sorted[..], end);
        PermutedWider(swapped, sorted[..], 0, end, 0, size);
        PermutedTrans(s, swapped, sorted[..], 0, size);
        end := end - 1;
      }
      FullySorted(entries, sorted[..], end + 1);
      OnceKept(entries, s, sorted[..]);
    }

    // ---- lookup

    /** mz_zip_reader_filename_compare, with its 32-bit subtraction of lengths. */
    static method CompareNames(a: Name, r: Name, rLen: nat) returns (comp: int)
      requires |a| <= 0xFFFF && rLen < 0x1_0000_0000 && rLen <= |r|
      ensures comp == 0 <==> Lower(a) == Lower(r[..rLen])
      ensures rLen < 0x8000_0000 ==> (comp < 0 <==> Before(Lower(a), Lower(r[..rLen])))
    {
      hide Before;
      var k := Scan(a, r[..rLen]);
      StopDecides(Lower(a), Lower(r[..rLen]), k);
      if k == |a| || k == rLen {
        var d := (|a| - rLen) % 0x1_0000_0000;
        comp := if d >= 0x8000_0000 then d - 0x1_0000_0000 else d;
      } else {
        comp := Fold(a[k]) - Fold(r[k]);
      }
    }

    /** mz_zip_reader_locate_file_binary_search: the name's length is cut to 32 bits. */
    method BinarySearch(name: Name) returns (r: int)
      requires Valid() && sorted.Length > 0
      ensures var cut := name[..|name| % 0x1_0000_0000];
        && (r >= 0 ==> r < |entries| && Lower(entries[r].name) == Lower(cut))
        && (r < 0 ==> r == -1 && forall i :: 0 <= i < |entries| ==> Lower(entries[i].name) != Lower(cut))
    {
      hide Before, Lower, InNameOrder, AllOnce, Proper;
      var len := |name| % 0x1_0000_0000;
      ghost var cut := name[..len];
      OnceMeans(entries, sorted[..]);
      var l, h := 0, sorted.Length - 1;
      while l <= h
        invariant 0 <= l <= sorted.Length && -1 <= h < sorted.Length
        invariant forall i :: 0 <= i < sorted.Length && !(l <= i <= h) ==> Key(entries, sorted[i]) != Lower(cut)
      {
        var m := (l + h) / 2;
        var index := sorted[m];
        ProperAt(entries, index);
        var comp := CompareNames(entries[index].name, name, len);
        if comp == 0 { return index; }
        if comp < 0 {
          RuledOut(entries, sorted[..], m, cut, true);
          l := m + 1;
        } else {
          RuledOut(entries, sorted[..], m, cut, false);
          h := m - 1;
        }
      }
      NoneLeft(entries, sorted[..], cut);
      r := -1;
    }

    /** The scan of mz_zip_reader_locate_file: the first entry that matches. */
    method LinearSearch(name: Name, comment: Name, ignorePath: bool, caseSensitive: bool) returns (r: int)
      requires Proper(entries)
      ensures -1 <= r < |entries|
      ensures r >= 0 ==> Matches(entries[r], name, comment, ignorePath, caseSensitive)
      ensures forall i :: 0 <= i < (if r >= 0 then r else |entries|) ==>
        !Matches(entries[i], name, comment, ignorePath, caseSensitive)
    {
      hide Matches;
      if |name| > 0xFFFF || |comment| > 0xFFFF {
        forall i | 0 <= i < |entries|
          ensures !Matches(entries[i], name, comment, ignorePath, caseSensitive)
        {
          TooLong(entries[i], name, comment, ignorePath, caseSensitive);
        }
        return -1;
      }
      var i := 0;
      while i < |entries|
        invariant i <= |entries|
        invariant forall j :: 0 <= j < i ==> !Matches(entries[j], name, comment, ignorePath, caseSensitive)
      {
        var found := CheckEntry(entries[i], name, comment, ignorePath, caseSensitive);
        if found { return i; }
        i := i + 1;
      }
      r := -1;
    }

    static method StringEqual(a: Name, b: Name, caseSensitive: bool) returns (r: bool)
      requires |a| == |b|
      ensures r == Same(a, b, caseSensitive)
    {
      if caseSensitive { return a == b; }
      var i := 0;
      while i < |a|
        invariant i <= |a| && forall j :: 0 <= j < i ==> Fold(a[j]) == Fold(b[j])
      {
        if Fold(a[i]) != Fold(b[i]) {
          assert Lower(a)[i] != Lower(b)[i];
          return false;
        }
        i := i + 1;
      }
      r := true;
    }

    static method CheckEntry(e: Entry, name: Name, comment: Name, ignorePath: bool,
      caseSensitive: bool) returns (found: bool)
      ensures found == Matches(e, name, comment, ignorePath, caseSensitive)
    {
      hide Lower, Base;
      if |e.name| < |name| { return false; }
      if comment != [] {
        if |e.comment| != |comment| { return false; }
        var same := StringEqual(comment, e.comment, caseSensitive);
        if !same { return false; }
      }
      var file := e.name;
      if ignorePath && |file| > 0 {
        var ofs := |file| - 1;
        while ofs >= 0 && !Separator(file[ofs])
          invariant -1 <= ofs < |file| && forall i :: ofs < i < |file| ==> !Separator(file[i])
        {
          ofs := ofs - 1;
        }
        ofs := ofs + 1;
        BaseShorter(file, ofs);
        file := file[ofs..];
      } else if ignorePath {
        BaseShorter(file, 0);
      }
      if |file| != |name| { return false; }
      found := StringEqual(name, file, caseSensitive);
    }

    /** mz_zip_reader_locate_file: a match is found exactly if there is one. */
    method Locate(name: Name, comment: Name, noComment: bool, ignorePath: bool, caseSensitive: bool) returns (r: int)
      requires Valid() && (noComment ==> comment == [])
      ensures -1 <= r < |entries|
      ensures LengthSafe(name) ==>
        && (r >= 0 ==> Matches(entries[r], name, comment, ignorePath, caseSensitive))
        && (r < 0 ==> forall i :: 0 <= i < |entries| ==> !Matches(entries[i], name, comment, ignorePath, caseSensitive))
    {
      if !ignorePath && !caseSensitive && noComment && sorted.Length > 0 {
        r := BinarySearch(name);
        if LengthSafe(name) {
          AgreeExactly(name);
          assert r >= 0 ==> HasKey(entries, name[..|name| % 0x1_0000_0000]);
        }
      } else {
        r := LinearSearch(name, comment, ignorePath, caseSensitive);
      }
    }
  }

  lemma {:induction false} NoParents(entries: seq<Entry>, s: seq<nat>, start: nat)
    requires 2 * start >= |s| - 1
    ensures Heap(entries, s, start, |s|)
  {
  }

  lemma {:induction false} NoneSorted(entries: seq<Entry>, s: seq<nat>)
    ensures SortedFrom(entries, s, |s|)
  {
  }

  lemma {:induction false} FullySorted(entries: seq<Entry>, s: seq<nat>, m: nat)
    requires SortedFrom(entries, s, m) && m <= 1
    ensures InNameOrder(entries, s)
  {
  }

  lemma {:induction false} OnceKept(entries: seq<Entry>, s: seq<nat>, t: seq<nat>)
    requires AllOnce(entries, s) && Permuted(s, t, 0, |s|)
    ensures AllOnce(entries, t)
  {
    assert s[0..|s|] == s && t[0..|s|] == t;
  }

  lemma {:induction false} ProperAt(entries: seq<Entry>, i: nat)
    requires Proper(entries) && i < |entries|
    ensures |entries[i].name| <= 0xFFFF
  {
  }

  /** Half of the index cannot hold the name any more. */
  lemma {:induction false} RuledOut(entries: seq<Entry>, s: seq<nat>, m: nat, cut: Name, low: bool)
    requires Proper(entries) && Indices(entries, s) && InNameOrder(entries, s) && m < |s|
      && Key(entries, s[m]) != Lower(cut)
    requires |cut| < 0x8000_0000 ==> (low <==> Before(Key(entries, s[m]), Lower(cut)))
    ensures forall i :: 0 <= i < |s| && (if low then i <= m else i >= m) ==> Key(entries, s[i]) != Lower(cut)
  {
    hide Before;
    forall i | 0 <= i < |s| && (if low then i <= m else i >= m)
      ensures Key(entries, s[i]) != Lower(cut)
    {
      if |cut| < 0x8000_0000 {
        OneOfThree(Key(entries, s[m]), Lower(cut));
        assert i < m ==> NotAfter(entries, s[i], s[m]);
        assert i > m ==> NotAfter(entries, s[m], s[i]);
      } else {
        assert |Key(entries, s[i])| <= 0xFFFF;
      }
    }
  }

  lemma {:induction false} NoneLeft(entries: seq<Entry>, s: seq<nat>, cut: Name)
    requires AllOnce(entries, s) && forall k :: 0 <= k < |s| ==> Key(entries, s[k]) != Lower(cut)
    ensures forall i :: 0 <= i < |entries| ==> Lower(entries[i].name) != Lower(cut)
  {
    hide Lower, AllOnce;
    OnceMeans(entries, s);
    forall i | 0 <= i < |entries|
      ensures Lower(entries[i].name) != Lower(cut)
    {
      var j: nat := i;
      assert j in s;
      var k :| 0 <= k < |s| && s[k] == j;
      assert Key(entries, s[k]) == Lower(entries[i].name);
    }
  }

  lemma {:induction false} TooLong(e: Entry, name: Name, comment: Name, ignorePath: bool, caseSensitive: bool)
    requires |e.name| <= 0xFFFF && |e.comment| <= 0xFFFF && (|name| > 0xFFFF || |comment| > 0xFFFF)
    ensures !Matches(e, name, comment, ignorePath, caseSensitive)
  {
    var file := if ignorePath then Base(e.name) else e.name;
    assert |Lower(file)| == |file| && |Lower(name)| == |name|;
    assert |Lower(e.comment)| == |e.comment| && |Lower(comment)| == |comment|;
  }
}
