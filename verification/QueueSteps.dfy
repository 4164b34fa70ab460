/**
 xs_queue as a step system: every thread is at one place in push or pop, and one step is one access
 to shared memory. Behind the wrapped indices stand tickets that never wrap.
 */
module QueueSteps {
  import opened Bits

  /** Where a thread is. w and r are indices it has read; w0, r0 and ticket are the tickets behind them. */
  datatype Place<T> =
    | Idle
    | PushStart(v: T, blocking: bool)
    | PushTop(v: T, blocking: bool)
    | PushGotW(v: T, blocking: bool, w: nat, w0: nat)
    | PushCas(v: T, blocking: bool, w: nat, w0: nat, r: nat, r0: nat)
    | Claimed(v: T, w: nat, ticket: nat)
    | Copied(v: T, w: nat, ticket: nat)
    | Published
    | PopStart(blocking: bool)
    | PopTop(blocking: bool)
    | PopGotR(blocking: bool, r: nat, r0: nat)
    | PopCopy(blocking: bool, r: nat, r0: nat)
    | PopCas(blocking: bool, r: nat, r0: nat, data: T)
    | Taken

  /** The shared memory, the threads, the tickets, the values by ticket, and what pops have returned. */
  datatype Queue<T> = Queue(space: nat, slots: seq<T>, writeInd: nat, availInd: nat, readInd: nat, depth: int,
                            threads: seq<Place<T>>, write: nat, avail: nat, read: nat, vals: seq<T>, popped: seq<T>)

  datatype Action<T> = CallPush(t: nat, v: T, blocking: bool) | CallPop(t: nat, blocking: bool) | Go(t: nat)

  /** The index after i. */
  function Next(i: nat, space: nat): nat
  {
    if i + 1 == space then 0 else i + 1
  }

  /** xs_queue_create2, with the given threads outside of the queue. */
  function Create<T>(space: nat, slots: seq<T>, threads: nat): Queue<T>
  {
    Queue(space, slots, 0, 0, 0, 0, seq(threads, _ => Idle), 0, 0, 0, [], [])
  }

  function Move<T>(q: Queue<T>, t: nat, p: Place<T>): Queue<T>
    requires t < |q.threads|
  {
    q.(threads := q.threads[t := p])
  }

  /** The steps of xs_queue_push. */
  function PushStep<T>(q: Queue<T>, t: nat): Queue<T>
    requires t < |q.threads|
  {
    match q.threads[t]
    case PushStart(v, b) =>
      if q.depth + 1 >= q.space then (if b then q else Move(q, t, Idle)) else Move(q, t, PushTop(v, b))
    case PushTop(v, b) => Move(q, t, PushGotW(v, b, q.writeInd, q.write))
    case PushGotW(v, b, w, w0) =>
      // without room, a push that does not block gives up; one that blocks goes on to its exchange all the same
      if Next(w, q.space) == q.readInd && !b then Move(q, t, Idle)
        else Move(q, t, PushCas(v, b, w, w0, q.readInd, q.read))
    case PushCas(v, b, w, w0, r, r0) =>
      if q.writeInd == w then
        Move(q, t, Claimed(v, w, q.write)).(writeInd := Next(w, q.space), write := q.write + 1, vals := q.vals + [v])
      else Move(q, t, PushTop(v, b))
    case Claimed(v, w, k) => if w < |q.slots| then Move(q, t, Copied(v, w, k)).(slots := q.slots[w := v]) else q
    case Copied(v, w, k) =>
      if q.availInd == w then Move(q, t, Published).(availInd := Next(w, q.space), avail := q.avail + 1) else q
    case Published => Move(q, t, Idle).(depth := q.depth + 1)
    case _ => q
  }

  /** The steps of xs_queue_pop. */
  function PopStep<T>(q: Queue<T>, t: nat): Queue<T>
    requires t < |q.threads|
  {
    match q.threads[t]
    case PopStart(b) => Move(q, t, if q.depth == 0 then Idle else PopTop(b))
    case PopTop(b) => Move(q, t, PopGotR(b, q.readInd, q.read))
    case PopGotR(b, r, r0) => Move(q, t, if r == q.availInd then Idle else PopCopy(b, r, r0))
    case PopCopy(b, r, r0) => if r < |q.slots| then Move(q, t, PopCas(b, r, r0, q.slots[r])) else q
    case PopCas(b, r, r0, data) =>
      if q.readInd == r then Move(q, t, Taken).(readInd := Next(r, q.space), read := q.read + 1,
        popped := q.popped + [data])
      else Move(q, t, if b then PopTop(b) else Idle)
    case Taken => Move(q, t, Idle).(depth := q.depth - 1)
    case _ => q
  }

  predicate Pushing<T>(p: Place<T>)
  {
    p.PushStart? || p.PushTop? || p.PushGotW? || p.PushCas? || p.Claimed? || p.Copied? || p.Published?
  }

  function Step<T>(q: Queue<T>, a: Action<T>): Queue<T>
  {
    if a.t >= |q.threads| then q
    else match a
      case CallPush(t, v, b) => if q.threads[t].Idle? then Move(q, t, PushStart(v, b)) else q
      case CallPop(t, b) => if q.threads[t].Idle? then Move(q, t, PopStart(b)) else q
      case Go(t) => if Pushing(q.threads[t]) then PushStep(q, t) else PopStep(q, t)
  }

  function Run<T>(q: Queue<T>, acts: seq<Action<T>>): Queue<T>
  {
    if acts == [] then q else Step(Run(q, acts[..|acts| - 1]), acts[|acts| - 1])
  }

  // ---- safety

  function CountPublished<T>(ps: seq<Place<T>>): nat
  {
    if ps == [] then 0 else CountPublished(ps[..|ps| - 1]) + (if ps[|ps| - 1].Published? then 1 else 0)
  }

  function CountTaken<T>(ps: seq<Place<T>>): nat
  {
    if ps == [] then 0 else CountTaken(ps[..|ps| - 1]) + (if ps[|ps| - 1].Taken? then 1 else 0)
  }

  /** The indices are the tickets, wrapped, and the tickets keep their order and distance. */
  ghost predicate Tickets<T>(q: Queue<T>)
  {
    && q.space >= 1 && |q.slots| == q.space
    && q.writeInd == q.write % q.space && q.availInd == q.avail % q.space && q.readInd == q.read % q.space
    && q.read <= q.avail <= q.write <= q.read + q.space - 1
    && |q.vals| == q.write
  }

  /** The slots that can be read hold their claimants' values, and what was popped came in the order of the claims. */
  ghost predicate Values<T>(q: Queue<T>)
    requires Tickets(q)
  {
    && q.popped == q.vals[..q.read]
    && forall k: nat :: q.read <= k < q.avail ==> Holds(q, k)
  }

  ghost predicate Holds<T>(q: Queue<T>, k: nat)
    requires q.space >= 1 && |q.slots| == q.space && k < |q.vals|
  {
    q.slots[k % q.space] == q.vals[k]
  }

  /** What a thread's own variables say, as long as nobody has gone past it. */
  ghost predicate PlaceOk<T>(q: Queue<T>, p: Place<T>)
    requires Tickets(q)
  {
    match p
    case PushGotW(v, b, w, w0) => w == w0 % q.space && w0 <= q.write
    case PushCas(v, b, w, w0, r, r0) =>
      w == w0 % q.space && w0 <= q.write && r == r0 % q.space && r0 <= q.read
      && w0 + 1 <= r0 + q.space && (q.write == w0 ==> r0 <= w0) && (Next(w, q.space) == r ==> b)
    case Claimed(v, w, k) => w == k % q.space && q.avail <= k < q.write && q.vals[k] == v
    case Copied(v, w, k) => w == k % q.space && q.avail <= k < q.write && q.vals[k] == v && q.slots[w] == v
    case PopGotR(b, r, r0) => r == r0 % q.space && r0 <= q.read
    case PopCopy(b, r, r0) => r == r0 % q.space && r0 <= q.read && (q.read == r0 ==> r0 < q.avail)
    case PopCas(b, r, r0, data) => r == r0 % q.space && r0 <= q.read
      && (q.read == r0 ==> r0 < q.avail && data == q.vals[r0])
    case _ => true
  }

  predicate Claims<T>(p: Place<T>)
  {
    p.Claimed? || p.Copied?
  }

  ghost predicate Places<T>(q: Queue<T>)
    requires Tickets(q)
  {
    && (forall i :: 0 <= i < |q.threads| ==> PlaceOk(q, q.threads[i]))
    && (forall i, j :: 0 <= i < j < |q.threads| && Claims(q.threads[i]) && Claims(q.threads[j]) ==>
      q.threads[i].ticket != q.threads[j].ticket)
  }

  /** The depth counts what can be read, but for pushes and pops that have not counted themselves yet. */
  ghost predicate DepthOk<T>(q: Queue<T>)
  {
    q.depth == q.avail - q.read - CountPublished(q.threads) + CountTaken(q.threads)
  }

  ghost predicate Safe<T>(q: Queue<T>)
  {
    Tickets(q) && Values(q) && Places(q) && DepthOk(q)
  }

  // ---- arithmetic of wrapped indices

  lemma {:induction false} NextTicket(k: nat, n: nat)
    requires n >= 1
    ensures Next(k % n, n) == (k + 1) % n
  {
    var q, r := k / n, k % n;
    assert k == n * q + r;
    if r + 1 == n {
      assert k + 1 == (q + 1) * n + 0;
      DivUnique(k + 1, n, q + 1, 0);
    } else {
      assert k + 1 == q * n + (r + 1);
      DivUnique(k + 1, n, q, r + 1);
    }
  }

  /** Tickets that are less than a lap apart have different indices. */
  lemma {:induction false} SameIndex(j: nat, k: nat, n: nat)
    requires n >= 1 && j <= k < j + n && j % n == k % n
    ensures j == k
  {
    var a, r, d := j / n, j % n, k - j;
    assert j == n * a + r && n * a == a * n;
    if r + d < n {
      DivUnique(k, n, a, r + d);
    } else {
      assert (a + 1) * n == a * n + n;
      DivUnique(k, n, a + 1, r + d - n);
    }
  }

  // ---- counting threads

  lemma {:induction false} CountsMove<T>(ps: seq<Place<T>>, t: nat, p: Place<T>)
    requires t < |ps|
    ensures CountPublished(ps[t := p])
      == CountPublished(ps) - (if ps[t].Published? then 1 else 0) + (if p.Published? then 1 else 0)
    ensures CountTaken(ps[t := p]) == CountTaken(ps) - (if ps[t].Taken? then 1 else 0) + (if p.Taken? then 1 else 0)
  {
    var n := |ps| - 1;
    if t < n {
      CountsMove(ps[..n], t, p);
      assert ps[t := p][..n] == ps[..n][t := p];
    } else {
      assert ps[t := p][..n] == ps[..n];
    }
  }

  lemma {:induction false} CountsIdle<T>(n: nat, x: T)
    ensures CountPublished(seq<Place<T>>(n, _ => Idle)) == 0 && CountTaken(seq<Place<T>>(n, _ => Idle)) == 0
  {
    if n > 0 {
      CountsIdle(n - 1, x);
      assert seq<Place<T>>(n, _ => Idle)[..n - 1] == seq<Place<T>>(n - 1, _ => Idle);
    }
  }

  // ---- every step but the bad ones keeps the queue safe

  /** An exchange that goes wrong: a claim without room, or a take of what is not there. */
  ghost predicate Bad<T>(q: Queue<T>, a: Action<T>)
    requires Safe(q)
  {
    a.Go? && a.t < |q.threads| &&
    match q.threads[a.t]
    case PushCas(v, b, w, w0, r, r0) => q.writeInd == w && q.write == q.read + q.space - 1
    case PopCas(b, r, r0, data) => q.readInd == r && (q.read == q.avail || data != q.vals[q.read])
    case _ => false
  }

  /** A thread's place changes, and the depth with it if need be. */
  lemma {:induction false} KeepLocal<T>(q: Queue<T>, t: nat, p: Place<T>, depth: int)
    requires Safe(q) && t < |q.threads| && !Claims(p) && PlaceOk(q, p)
    requires depth == q.depth - (if p.Published? then 1 else 0) + (if q.threads[t].Published? then 1 else 0)
                      + (if p.Taken? then 1 else 0) - (if q.threads[t].Taken? then 1 else 0)
    ensures Safe(Move(q, t, p).(depth := depth))
  {
    var q2 := Move(q, t, p).(depth := depth);
    CountsMove(q.threads, t, p);
    forall k: nat | q2.read <= k < q2.avail
      ensures Holds(q2, k)
    {
      assert Holds(q, k);
    }
    forall i | 0 <= i < |q2.threads|
      ensures PlaceOk(q2, q2.threads[i])
    {
      assert PlaceOk(q, q.threads[i]);
    }
  }

  /** A push claims the next ticket. */
  lemma {:induction false} KeepClaim<T>(q: Queue<T>, t: nat)
    requires Safe(q) && t < |q.threads| && q.threads[t].PushCas? && q.writeInd == q.threads[t].w
      && q.write < q.read + q.space - 1
    ensures Safe(PushStep(q, t))
  {
    hide CountPublished, CountTaken;
    var q2 := PushStep(q, t);
    NextTicket(q.write, q.space);
    CountsMove(q.threads, t, q2.threads[t]);
    forall k: nat | q2.read <= k < q2.avail
      ensures Holds(q2, k)
    {
      assert Holds(q, k);
    }
    forall i | 0 <= i < |q2.threads|
      ensures PlaceOk(q2, q2.threads[i])
    {
      assert PlaceOk(q, q.threads[i]);
    }
    assert q2.vals[..q2.read] == q.vals[..q.read];
  }

  /** A claimed slot is written. */
  lemma {:induction false} KeepCopy<T>(q: Queue<T>, t: nat)
    requires Safe(q) && t < |q.threads| && q.threads[t].Claimed?
    ensures Safe(PushStep(q, t))
  {
    var q2, k0 := PushStep(q, t), q.threads[t].ticket;
    assert PlaceOk(q, q.threads[t]);
    CountsMove(q.threads, t, q2.threads[t]);
    forall k: nat | q2.read <= k < q2.avail
      ensures Holds(q2, k)
    {
      assert Holds(q, k);
      if k % q.space == k0 % q.space {
        SameIndex(k, k0, q.space);
      }
    }
    forall i | 0 <= i < |q2.threads|
      ensures PlaceOk(q2, q2.threads[i])
    {
      assert PlaceOk(q, q.threads[i]);
      if i != t && q.threads[i].Copied? {
        ApartTickets(q, i, t);
      }
    }
  }

  /** Two claims under way have different slots. */
  lemma {:induction false} ApartTickets<T>(q: Queue<T>, i: nat, t: nat)
    requires Safe(q) && i < |q.threads| && t < |q.threads| && i != t && Claims(q.threads[i]) && Claims(q.threads[t])
    ensures q.threads[i].w != q.threads[t].w
  {
    assert PlaceOk(q, q.threads[i]) && PlaceOk(q, q.threads[t]);
    var j, k := q.threads[i].ticket, q.threads[t].ticket;
    if j % q.space == k % q.space {
      if j <= k {
        SameIndex(j, k, q.space);
      } else {
        SameIndex(k, j, q.space);
      }
    }
  }

  /** Slots become available in the order of the claims. */
  lemma {:induction false} KeepPublish<T>(q: Queue<T>, t: nat)
    requires Safe(q) && t < |q.threads| && q.threads[t].Copied? && q.availInd == q.threads[t].w
    ensures Safe(PushStep(q, t))
  {
    var q2, k0 := PushStep(q, t), q.threads[t].ticket;
    assert PlaceOk(q, q.threads[t]);
    SameIndex(q.avail, k0, q.space);
    NextTicket(q.avail, q.space);
    CountsMove(q.threads, t, q2.threads[t]);
    forall k: nat | q2.read <= k < q2.avail
      ensures Holds(q2, k)
    {
      assert k < q.avail ==> Holds(q, k);
    }
    forall i | 0 <= i < |q2.threads|
      ensures PlaceOk(q2, q2.threads[i])
    {
      assert PlaceOk(q, q.threads[i]);
      assert i != t && Claims(q.threads[i]) ==> q.threads[i].ticket != k0;
    }
  }

  /** A pop takes the oldest value. */
  lemma {:induction false} KeepTake<T>(q: Queue<T>, t: nat)
    requires Safe(q) && t < |q.threads| && q.threads[t].PopCas? && q.readInd == q.threads[t].r
    requires q.read < q.avail && q.threads[t].data == q.vals[q.read]
    ensures Safe(PopStep(q, t))
  {
    var q2 := PopStep(q, t);
    NextTicket(q.read, q.space);
    CountsMove(q.threads, t, q2.threads[t]);
    assert q.vals[..q.read + 1] == q.vals[..q.read] + [q.vals[q.read]];
    forall k: nat | q2.read <= k < q2.avail
      ensures Holds(q2, k)
    {
      assert Holds(q, k);
    }
    forall i | 0 <= i < |q2.threads|
      ensures PlaceOk(q2, q2.threads[i])
    {
      assert PlaceOk(q, q.threads[i]);
    }
  }

  lemma {:induction false} PushKeeps<T>(q: Queue<T>, t: nat)
    requires Safe(q) && t < |q.threads| && Pushing(q.threads[t]) && !Bad(q, Go(t))
    ensures Safe(PushStep(q, t))
  {
    hide Values, DepthOk, CountPublished, CountTaken;
    assert PlaceOk(q, q.threads[t]);
    match q.threads[t] {
      case PushStart(v, b) =>
        KeepLocal(q, t, Idle, q.depth);
        KeepLocal(q, t, PushTop(v, b), q.depth);
      case PushTop(v, b) => KeepLocal(q, t, PushGotW(v, b, q.writeInd, q.write), q.depth);
      case PushGotW(v, b, w, w0) =>
        if Next(w, q.space) == q.readInd && !b {
          KeepLocal(q, t, Idle, q.depth);
        } else {
          KeepLocal(q, t, PushCas(v, b, w, w0, q.readInd, q.read), q.depth);
        }
      case PushCas(v, b, w, w0, r, r0) =>
        if q.writeInd == w {
          KeepClaim(q, t);
        } else {
          KeepLocal(q, t, PushTop(v, b), q.depth);
        }
      case Claimed(v, w, k) => KeepCopy(q, t);
      case Copied(v, w, k) =>
        if q.availInd == w {
          KeepPublish(q, t);
        }
      case Published => KeepLocal(q, t, Idle, q.depth + 1);
    }
  }

  lemma {:induction false} PopKeeps<T>(q: Queue<T>, t: nat)
    requires Safe(q) && t < |q.threads| && !Pushing(q.threads[t]) && !Bad(q, Go(t))
    ensures Safe(PopStep(q, t))
  {
    hide DepthOk, CountPublished, CountTaken;
    assert PlaceOk(q, q.threads[t]);
    match q.threads[t] {
      case Idle =>
      case PopStart(b) =>
        KeepLocal(q, t, Idle, q.depth);
        KeepLocal(q, t, PopTop(b), q.depth);
      case PopTop(b) => KeepLocal(q, t, PopGotR(b, q.readInd, q.read), q.depth);
      case PopGotR(b, r, r0) =>
        if r == q.availInd {
          KeepLocal(q, t, Idle, q.depth);
        } else {
          KeepLocal(q, t, PopCopy(b, r, r0), q.depth);
        }
      case PopCopy(b, r, r0) =>
        assert q.read == r0 ==> Holds(q, r0);
        KeepLocal(q, t, PopCas(b, r, r0, q.slots[r]), q.depth);
      case PopCas(b, r, r0, data) =>
        if q.readInd == r {
          KeepTake(q, t);
        } else {
          KeepLocal(q, t, if b then PopTop(b) else Idle, q.depth);
        }
      case Taken => KeepLocal(q, t, Idle, q.depth - 1);
    }
  }

  /** Every step that is not bad keeps the queue safe. */
  lemma {:induction false} StepKeeps<T>(q: Queue<T>, a: Action<T>)
    requires Safe(q) && !Bad(q, a)
    ensures Safe(Step(q, a))
  {
    hide Safe, Bad, PushStep, PopStep;
    if a.t < |q.threads| {
      match a {
        case CallPush(t, v, b) =>
          if q.threads[t].Idle? {
            CallKeeps(q, t, PushStart(v, b));
          }
        case CallPop(t, b) =>
          if q.threads[t].Idle? {
            CallKeeps(q, t, PopStart(b));
          }
        case Go(t) =>
          if Pushing(q.threads[t]) {
            PushKeeps(q, t);
          } else {
            PopKeeps(q, t);
          }
      }
    }
  }

  lemma {:induction false} CallKeeps<T>(q: Queue<T>, t: nat, p: Place<T>)
    requires Safe(q) && t < |q.threads| && q.threads[t].Idle? && (p.PushStart? || p.PopStart?)
    ensures Safe(Move(q, t, p))
  {
    KeepLocal(q, t, p, q.depth);
  }

  /** And a bad step does not. */
  lemma {:induction false} BadBreaks<T>(q: Queue<T>, a: Action<T>)
    requires Safe(q) && Bad(q, a)
    ensures !Safe(Step(q, a))
  {
    var q2 := Step(q, a);
    if q.threads[a.t].PopCas? && q.read < q.avail {
      var cut := q2.vals[..q2.read];
      assert q2.popped[q.read] == q.threads[a.t].data && cut[q.read] == q.vals[q.read];
    }
  }

  // ---- when steps are bad

  /** Between a thread's reading of an index and its exchange, the index has gone round a whole lap. */
  ghost predicate Overtaken<T>(q: Queue<T>, a: Action<T>)
  {
    a.Go? && a.t < |q.threads| &&
    match q.threads[a.t]
    case PushCas(v, b, w, w0, r, r0) => q.write >= w0 + q.space
    case PopCas(b, r, r0, data) => q.read >= r0 + q.space
    case _ => false
  }

  /** A push that blocks has seen no room, and makes its exchange before anything was popped. */
  ghost predicate ClaimsWithoutRoom<T>(q: Queue<T>, a: Action<T>)
  {
    a.Go? && a.t < |q.threads| &&
    match q.threads[a.t]
    case PushCas(v, b, w, w0, r, r0) => b && Next(w, q.space) == r && q.write == w0 && q.read == r0
    case _ => false
  }

  /** Apart from being overtaken, only that makes a step bad, and it always does. */
  lemma {:induction false} OnlyHazards<T>(q: Queue<T>, a: Action<T>)
    requires Safe(q)
    ensures Bad(q, a) ==> Overtaken(q, a) || ClaimsWithoutRoom(q, a)
    ensures ClaimsWithoutRoom(q, a) ==> Bad(q, a)
  {
    hide Values, DepthOk, CountPublished, CountTaken;
    if a.Go? && a.t < |q.threads| {
      assert PlaceOk(q, q.threads[a.t]);
      match q.threads[a.t] {
        case PushCas(v, b, w, w0, r, r0) =>
          NextTicket(w0, q.space);
          if q.writeInd == w && q.write < w0 + q.space {
            SameIndex(w0, q.write, q.space);
          }
          LapRemainder(r0, q.space);
          if q.write == w0 && Next(w, q.space) == r && w0 + 1 < r0 + q.space {
            SameIndex(r0, w0 + 1, q.space);
          }
        case PopCas(b, r, r0, data) =>
          if q.readInd == r && q.read < r0 + q.space {
            SameIndex(r0, q.read, q.space);
          }
        case _ =>
      }
    }
  }

  lemma {:induction false} LapRemainder(k: nat, n: nat)
    requires n >= 1
    ensures (k + n) % n == k % n
  {
    var a, r := k / n, k % n;
    assert k + n == (a + 1) * n + r;
    DivUnique(k + n, n, a + 1, r);
  }

  // ---- runs

  lemma {:induction false} Initially<T>(space: nat, slots: seq<T>, threads: nat, x: T)
    requires space >= 1 && |slots| == space
    ensures Safe(Create(space, slots, threads))
  {
    CountsIdle(threads, x);
  }

  /** No step of the run was bad while the queue was safe. */
  ghost predicate NeverBad<T>(q: Queue<T>, acts: seq<Action<T>>)
  {
    acts == [] || (var n := |acts| - 1;
    NeverBad(q, acts[..n]) && (Safe(Run(q, acts[..n])) ==> !Bad(Run(q, acts[..n]), acts[n])))
  }

  ghost predicate AlwaysSafe<T>(q: Queue<T>, acts: seq<Action<T>>)
  {
    Safe(Run(q, acts)) && (acts == [] || AlwaysSafe(q, acts[..|acts| - 1]))
  }

  /** Exactly the runs without bad steps are safe throughout. */
  lemma {:induction false} SafeRuns<T>(q: Queue<T>, acts: seq<Action<T>>)
    requires Safe(q)
    ensures AlwaysSafe(q, acts) <==> NeverBad(q, acts)
  {
    hide Safe, Bad, Step;
    if acts != [] {
      var n := |acts| - 1;
      SafeRuns(q, acts[..n]);
      var q1 := Run(q, acts[..n]);
      if NeverBad(q, acts[..n]) {
        if Bad(q1, acts[n]) {
          BadBreaks(q1, acts[n]);
        } else {
          StepKeeps(q1, acts[n]);
        }
      }
    }
  }

  /** Nobody is overtaken by a lap, and no push goes on without room. */
  ghost predicate Clean<T>(q: Queue<T>, acts: seq<Action<T>>)
  {
    acts == [] || (var n := |acts| - 1;
    Clean(q, acts[..n]) && !Overtaken(Run(q, acts[..n]), acts[n]) && !ClaimsWithoutRoom(Run(q, acts[..n]), acts[n]))
  }

  /** Whatever the interleaving, what has been popped is what was claimed first, in that order. */
  lemma {:induction false} FirstInFirstOut<T>(q: Queue<T>, acts: seq<Action<T>>)
    requires Safe(q) && Clean(q, acts)
    ensures Safe(Run(q, acts)) && Run(q, acts).popped <= Run(q, acts).vals
  {
    hide Bad, Step, Places, DepthOk, Overtaken, ClaimsWithoutRoom;
    if acts != [] {
      var n := |acts| - 1;
      FirstInFirstOut(q, acts[..n]);
      OnlyHazards(Run(q, acts[..n]), acts[n]);
      StepKeeps(Run(q, acts[..n]), acts[n]);
    }
  }

  // ---- pushes that do not block

  predicate Blocks<T>(p: Place<T>)
  {
    match p
    case PushStart(v, b) => b
    case PushTop(v, b) => b
    case PushGotW(v, b, w, w0) => b
    case PushCas(v, b, w, w0, r, r0) => b
    case _ => false
  }

  ghost predicate NobodyBlocks<T>(q: Queue<T>)
  {
    forall i :: 0 <= i < |q.threads| ==> !Blocks(q.threads[i])
  }

  /** No exchange of the run comes a whole lap after its index was read. */
  ghost predicate NeverOvertaken<T>(q: Queue<T>, acts: seq<Action<T>>)
  {
    acts == [] || (var n := |acts| - 1; NeverOvertaken(q, acts[..n]) && !Overtaken(Run(q, acts[..n]), acts[n]))
  }

  /** If no push is called to block, none claims without room. */
  lemma {:induction false} NobodyClaims<T>(q: Queue<T>, a: Action<T>)
    requires NobodyBlocks(q) && (a.CallPush? ==> !a.blocking)
    ensures !ClaimsWithoutRoom(q, a) && NobodyBlocks(Step(q, a))
  {
  }

  /** So any number of threads may push and pop as long as no push blocks and nobody is overtaken by a lap. */
  lemma {:induction false} NonblockingSafe<T>(q: Queue<T>, acts: seq<Action<T>>)
    requires Safe(q) && NobodyBlocks(q) && NeverOvertaken(q, acts)
    requires forall i :: 0 <= i < |acts| && acts[i].CallPush? ==> !acts[i].blocking
    ensures Clean(q, acts) && NobodyBlocks(Run(q, acts))
    ensures Safe(Run(q, acts)) && Run(q, acts).popped <= Run(q, acts).vals
  {
    hide Safe, Bad, Step, Overtaken, ClaimsWithoutRoom, NobodyBlocks;
    if acts != [] {
      var n := |acts| - 1;
      NonblockingSafe(q, acts[..n]);
      NobodyClaims(Run(q, acts[..n]), acts[n]);
    }
    FirstInFirstOut(q, acts);
  }

  // ---- one thread pushes, one thread pops

  predicate Popping<T>(p: Place<T>)
  {
    p.PopStart? || p.PopTop? || p.PopGotR? || p.PopCopy? || p.PopCas? || p.Taken?
  }

  /** Thread 0 only pushes, thread 1 only pops. */
  predicate ForPair<T>(a: Action<T>)
  {
    match a
    case CallPush(t, v, b) => t == 0
    case CallPop(t, b) => t == 1
    case Go(t) => true
  }

  /** Neither of the two is ever overtaken, and the pusher has room from the moment it has found the queue not full. */
  ghost predicate Pair<T>(q: Queue<T>)
  {
    && |q.threads| == 2
    && (q.threads[0].Idle? || Pushing(q.threads[0])) && (q.threads[1].Idle? || Popping(q.threads[1]))
    && (match q.threads[0]
        case PushTop(v, b) => q.avail == q.write && q.write + 1 < q.read + q.space
        case PushGotW(v, b, w, w0) => w0 == q.write == q.avail && q.write + 1 < q.read + q.space
        case PushCas(v, b, w, w0, r, r0) => w0 == q.write == q.avail && q.write + 1 < q.read + q.space
        case Claimed(v, w, k) => q.write == q.avail + 1
        case Copied(v, w, k) => q.write == q.avail + 1
        case _ => q.avail == q.write)
    && (match q.threads[1]
        case PopGotR(b, r, r0) => r0 == q.read
        case PopCopy(b, r, r0) => r0 == q.read
        case PopCas(b, r, r0, data) => r0 == q.read
        case _ => true)
  }

  lemma {:induction false} PairNotBad<T>(q: Queue<T>, a: Action<T>)
    requires Safe(q) && Pair(q)
    ensures !Bad(q, a)
  {
    hide Values, DepthOk, CountPublished, CountTaken;
    if a.t < 2 {
      assert PlaceOk(q, q.threads[a.t]);
    }
  }

  /** With nothing of the pusher's in flight, the depth is no less than what is in the queue. */
  lemma {:induction false} PairDepth<T>(q: Queue<T>)
    requires Safe(q) && Pair(q) && !q.threads[0].Published?
    ensures q.depth >= q.avail - q.read
  {
    var ps := q.threads;
    assert ps[..1][..0] == [] && ps[..1] == [ps[0]];
    assert CountPublished(ps[..1]) == 0 && CountPublished(ps) == 0;
  }

  lemma {:induction false} PairPush<T>(q: Queue<T>)
    requires Safe(q) && Pair(q) && Pushing(q.threads[0])
    ensures Pair(PushStep(q, 0))
  {
    hide Values, DepthOk, CountPublished, CountTaken;
    assert PlaceOk(q, q.threads[0]);
    if !q.threads[0].Published? {
      PairDepth(q);
    }
  }

  lemma {:induction false} PairPop<T>(q: Queue<T>)
    requires Safe(q) && Pair(q) && !Bad(q, Go(1))
    ensures Pair(PopStep(q, 1))
  {
    hide Values, DepthOk, CountPublished, CountTaken;
  }

  lemma {:induction false} PairStep<T>(q: Queue<T>, a: Action<T>)
    requires Safe(q) && Pair(q) && ForPair(a)
    ensures Safe(Step(q, a)) && Pair(Step(q, a))
  {
    hide Safe, Bad;
    PairNotBad(q, a);
    StepKeeps(q, a);
    if a.Go? && a.t == 0 && Pushing(q.threads[0]) {
      PairPush(q);
    } else if a.Go? && a.t == 1 {
      PairPop(q);
    }
  }

  /** One pusher and one popper are safe in every run, blocking or not, however their steps fall. */
  lemma {:induction false} PairSafe<T>(space: nat, slots: seq<T>, acts: seq<Action<T>>, x: T)
    requires space >= 1 && |slots| == space && forall i :: 0 <= i < |acts| ==> ForPair(acts[i])
    ensures var q := Run(Create(space, slots, 2), acts); Safe(q) && Pair(q) && q.popped <= q.vals
  {
    hide Step, Places, DepthOk;
    if acts == [] {
      Initially(space, slots, 2, x);
    } else {
      PairSafe(space, slots, acts[..|acts| - 1], x);
      PairStep(Run(Create(space, slots, 2), acts[..|acts| - 1]), acts[|acts| - 1]);
    }
  }
}
