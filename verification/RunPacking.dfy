/** Packing runs of code lengths (sections 3.2.7 of RFC 1951): what tdefl writes and tinfl expands. */
module RunPacking {
  datatype Option<+T> = None | Some(value: T)

  /** A code-length symbol, with its extra bits as a number. */
  datatype Token = Token(code: nat, extra: nat)

  function ExtraBits(code: nat): nat
  {
    if code == 16 then 2 else if code == 17 then 3 else if code == 18 then 7 else 0
  }

  ghost predicate TokenOk(t: Token)
  {
    && t.code <= 18
    && t.extra < (if t.code == 16 then 4 else if t.code == 17 then 8 else if t.code == 18 then 128 else 1)
  }

  function Repeat(x: nat, n: nat): (r: seq<nat>)
    ensures |r| == n && forall i :: 0 <= i < n ==> r[i] == x
  {
    seq(n, _ => x)
  }

  /** What one symbol adds, as tinfl expands it. */
  function ExpandToken(a: seq<nat>, t: Token): Option<seq<nat>>
  {
    if t.code < 16 then Some(a + [t.code])
    else if t.code == 16 then (if a == [] then None else Some(a + Repeat(a[|a| - 1], 3 + t.extra)))
    else if t.code == 17 then Some(a + Repeat(0, 3 + t.extra))
    else Some(a + Repeat(0, 11 + t.extra))
  }

  function Unpack(ts: seq<Token>): Option<seq<nat>>
  {
    if ts == [] then Some([])
    else match Unpack(ts[..|ts| - 1])
      case None => None
      case Some(a) => ExpandToken(a, ts[|ts| - 1])
  }

  /** The byte array tdefl keeps: a code, followed by its extra value when it has one. */
  function Flat(ts: seq<Token>): seq<nat>
  {
    if ts == [] then []
    else
      var t := ts[|ts| - 1];
      Flat(ts[..|ts| - 1]) + (if t.code >= 16 then [t.code, t.extra] else [t.code])
  }

  function Uses(ts: seq<Token>, c: nat): nat
  {
    if ts == [] then 0 else Uses(ts[..|ts| - 1], c) + (if ts[|ts| - 1].code == c then 1 else 0)
  }

  lemma {:induction false} Append(ts: seq<Token>, t: Token)
    ensures Unpack(ts + [t]) == (match Unpack(ts) case None => None case Some(a) => ExpandToken(a, t))
    ensures Flat(ts + [t]) == Flat(ts) + (if t.code >= 16 then [t.code, t.extra] else [t.code])
    ensures forall c :: Uses(ts + [t], c) == Uses(ts, c) + (if t.code == c then 1 else 0)
  {
    assert (ts + [t])[..|ts|] == ts;
  }

  /** What is kept while packing: the array, the symbol counts, and the lengths they stand for. */
  ghost predicate Packing(ts: seq<Token>, packed: seq<nat>, count: seq<nat>, done: seq<nat>)
  {
    && (forall i :: 0 <= i < |ts| ==> TokenOk(ts[i]))
    && packed == Flat(ts) && |packed| <= |done|
    && Unpack(ts) == Some(done)
    && |count| == 19 && (forall c :: 0 <= c < 19 ==> count[c] == Uses(ts, c))
  }

  /** One more symbol. */
  method Emit(t: Token, packed0: seq<nat>, count: array<nat>, ghost ts0: seq<Token>, ghost done: seq<nat>)
    returns (packed: seq<nat>, ghost ts: seq<Token>)
    requires TokenOk(t) && Packing(ts0, packed0, count[..], done)
    requires t.code == 16 ==> done != []
    modifies count
    ensures ts == ts0 + [t] && packed == packed0 + (if t.code >= 16 then [t.code, t.extra] else [t.code])
    ensures ExpandToken(done, t).Some? && Packing(ts, packed, count[..], ExpandToken(done, t).value)
  {
    Append(ts0, t);
    ts := ts0 + [t];
    count[t.code] := count[t.code] + 1;
    packed := packed0 + (if t.code >= 16 then [t.code, t.extra] else [t.code]);
  }

  /** TDEFL_RLE_PREV_CODE_SIZE: writes out the pending repeats of prev. */
  method FlushRepeats(prev: nat, howMany: nat, packed0: seq<nat>, count: array<nat>, ghost ts0: seq<Token>,
                      ghost done: seq<nat>)
    returns (packed: seq<nat>, ghost ts: seq<Token>)
    requires howMany <= 6 && Packing(ts0, packed0, count[..], done)
    requires howMany > 0 ==> 0 < prev < 16 && done != [] && done[|done| - 1] == prev
    modifies count
    ensures Packing(ts, packed, count[..], done + Repeat(prev, howMany))
  {
    packed, ts := packed0, ts0;
    if howMany < 3 {
      var n := howMany;
      assert done + Repeat(prev, 0) == done;
      while n > 0
        invariant 0 <= n <= howMany
        invariant Packing(ts, packed, count[..], done + Repeat(prev, howMany - n))
      {
        packed, ts := Emit(Token(prev, 0), packed, count, ts, done + Repeat(prev, howMany - n));
        assert done + Repeat(prev, howMany - n) + [prev] == done + Repeat(prev, howMany - n + 1);
        n := n - 1;
      }
    } else {
      packed, ts := Emit(Token(16, howMany - 3), packed, count, ts, done);
    }
  }

  /** TDEFL_RLE_ZERO_CODE_SIZE: writes out the pending zeros. */
  method FlushZeros(howMany: nat, packed0: seq<nat>, count: array<nat>, ghost ts0: seq<Token>, ghost done: seq<nat>)
    returns (packed: seq<nat>, ghost ts: seq<Token>)
    requires howMany <= 138 && Packing(ts0, packed0, count[..], done)
    modifies count
    ensures Packing(ts, packed, count[..], done + Repeat(0, howMany))
  {
    packed, ts := packed0, ts0;
    if howMany < 3 {
      var n := howMany;
      assert done + Repeat(0, 0) == done;
      while n > 0
        invariant 0 <= n <= howMany
        invariant Packing(ts, packed, count[..], done + Repeat(0, howMany - n))
      {
        packed, ts := Emit(Token(0, 0), packed, count, ts, done + Repeat(0, howMany - n));
        assert done + Repeat(0, howMany - n) + [0] == done + Repeat(0, howMany - n + 1);
        n := n - 1;
      }
    } else if howMany <= 10 {
      packed, ts := Emit(Token(17, howMany - 3), packed, count, ts, done);
    } else {
      packed, ts := Emit(Token(18, howMany - 11), packed, count, ts, done);
    }
  }

  /** Between two lengths: what was written, and the one run that is pending. */
  ghost predicate Pending(sizes: seq<nat>, i: nat, done: seq<nat>, zeros: nat, repeats: nat, prev: nat)
  {
    && i <= |sizes| && zeros < 138 && repeats < 6 && (zeros == 0 || repeats == 0)
    && (if i == 0 then prev == 255 else prev == sizes[i - 1])
    && sizes[..i] == done + Repeat(0, zeros) + Repeat(prev, repeats)
    && (zeros > 0 ==> prev == 0)
    && (repeats > 0 ==> 0 < prev < 16 && done != [] && done[|done| - 1] == prev)
  }

  /** Packs all the lengths; expanding the packed form gives them back. */
  method PackCodeSizes(sizes: seq<nat>, count: array<nat>) returns (packed: seq<nat>, ghost ts: seq<Token>)
    requires count.Length == 19 && forall i :: 0 <= i < |sizes| ==> sizes[i] < 16
    modifies count
    ensures Packing(ts, packed, count[..], sizes)
  {
    forall c | 0 <= c < 19 {
      count[c] := 0;
    }
    packed, ts := [], [];
    ghost var done: seq<nat> := [];
    var zeros, repeats, prev := 0, 0, 255;
    var i := 0;
    while i < |sizes|
      invariant 0 <= i <= |sizes| && 0 <= zeros && 0 <= repeats && 0 <= prev
      invariant Packing(ts, packed, count[..], done)
      invariant Pending(sizes, i, done, zeros, repeats, prev)
    {
      packed, zeros, repeats, ts, done := PackOne(sizes, i, packed, count, zeros, repeats, prev, ts, done);
      prev := sizes[i];
      i := i + 1;
    }
    assert sizes[..i] == sizes;
    if repeats > 0 {
      packed, ts := FlushRepeats(prev, repeats, packed, count, ts, done);
      assert done + Repeat(0, 0) == done;
    } else {
      packed, ts := FlushZeros(zeros, packed, count, ts, done);
      assert done + Repeat(0, zeros) + Repeat(prev, 0) == done + Repeat(0, zeros);
    }
  }

  method PackOne(sizes: seq<nat>, i: nat, packed0: seq<nat>, count: array<nat>, zeros0: nat, repeats0: nat, prev: nat,
                 ghost ts0: seq<Token>, ghost done0: seq<nat>)
    returns (packed: seq<nat>, zeros: nat, repeats: nat, ghost ts: seq<Token>, ghost done: seq<nat>)
    requires i < |sizes| && sizes[i] < 16
    requires Packing(ts0, packed0, count[..], done0) && Pending(sizes, i, done0, zeros0, repeats0, prev)
    modifies count
    ensures Packing(ts, packed, count[..], done) && Pending(sizes, i + 1, done, zeros, repeats, sizes[i])
  {
    hide Packing;
    packed, zeros, repeats, ts, done := packed0, zeros0, repeats0, ts0, done0;
    assert sizes[..i + 1] == sizes[..i] + [sizes[i]];
    var codeSize := sizes[i];
    if codeSize == 0 {
      packed, ts := FlushRepeats(prev, repeats, packed, count, ts, done);
      done := done + Repeat(prev, repeats);
      repeats := 0;
      zeros := zeros + 1;
      if zeros == 138 {
        packed, ts := FlushZeros(zeros, packed, count, ts, done);
        done := done + Repeat(0, zeros);
        zeros := 0;
      }
    } else {
      packed, ts := FlushZeros(zeros, packed, count, ts, done);
      done := done + Repeat(0, zeros);
      zeros := 0;
      if codeSize != prev {
        packed, ts := FlushRepeats(prev, repeats, packed, count, ts, done);
        done := done + Repeat(prev, repeats);
        repeats := 0;
        packed, ts := Emit(Token(codeSize, 0), packed, count, ts, done);
        done := done + [codeSize];
      } else {
        repeats := repeats + 1;
        if repeats == 6 {
          packed, ts := FlushRepeats(prev, repeats, packed, count, ts, done);
          done := done + Repeat(prev, repeats);
          repeats := 0;
        }
      }
    }
  }
}
