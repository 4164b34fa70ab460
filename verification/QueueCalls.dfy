/** Calls of the queue from beginning to end, and runs that show what can go wrong. */
module QueueCalls {
  import opened Bits
  import opened QueueSteps

  // ---- no push drops its value

  /** A push of v that has not claimed a place yet. */
  ghost predicate Asking<T>(p: Place<T>, v: T, blocking: bool)
  {
    match p
    case PushStart(x, b) => x == v && b == blocking
    case PushTop(x, b) => x == v && b == blocking
    case PushGotW(x, b, w, w0) => x == v && b == blocking
    case PushCas(x, b, w, w0, r, r0) => x == v && b == blocking
    case _ => false
  }

  /** A push of v that has. */
  ghost predicate Storing<T>(p: Place<T>, v: T)
  {
    match p
    case Claimed(x, w, k) => x == v
    case Copied(x, w, k) => x == v
    case Published => true
    case _ => false
  }

  /** What a longer sequence has more. */
  function Added<T>(a: seq<T>, b: seq<T>): seq<T>
  {
    if |a| <= |b| then b[|a|..] else []
  }

  /** The values that thread t's own steps have claimed places for. */
  function ClaimedBy<T>(q: Queue<T>, acts: seq<Action<T>>, t: nat): seq<T>
  {
    if acts == [] then [] else
      var n := |acts| - 1;
      var q1 := Run(q, acts[..n]);
      ClaimedBy(q, acts[..n], t) + (if acts[n].Go? && acts[n].t == t then Added(q1.vals, Step(q1, acts[n]).vals)
        else [])
  }

  /** The values that thread t's own steps have taken. */
  function TakenBy<T>(q: Queue<T>, acts: seq<Action<T>>, t: nat): seq<T>
  {
    if acts == [] then [] else
      var n := |acts| - 1;
      var q1 := Run(q, acts[..n]);
      TakenBy(q, acts[..n], t)
      + (if acts[n].Go? && acts[n].t == t then Added(q1.popped, Step(q1, acts[n]).popped) else [])
  }

  /** Thread t is in one call all the while, and may return from it with the last step. */
  ghost predicate InCall<T>(q: Queue<T>, acts: seq<Action<T>>, t: nat)
  {
    acts == [] || (var n := |acts| - 1; var q1 := Run(q, acts[..n]);
    InCall(q, acts[..n], t) && t < |q1.threads| && !q1.threads[t].Idle?)
  }

  /** The next step of thread t sees the queue full. */
  predicate SeesFull<T>(q: Queue<T>, t: nat)
    requires t < |q.threads|
  {
    match q.threads[t]
    case PushStart(v, b) => q.depth + 1 >= q.space
    case PushGotW(v, b, w, w0) => Next(w, q.space) == q.readInd
    case _ => false
  }

  /** The next step of thread t sees the queue empty. */
  predicate SeesEmpty<T>(q: Queue<T>, t: nat)
    requires t < |q.threads|
  {
    match q.threads[t]
    case PopStart(b) => q.depth == 0
    case PopGotR(b, r, r0) => r == q.availInd
    case _ => false
  }

  /** The next step of thread t is an exchange that fails. */
  predicate LosesExchange<T>(q: Queue<T>, t: nat)
    requires t < |q.threads|
  {
    q.threads[t].PopCas? && q.readInd != q.threads[t].r
  }

  lemma {:induction false} OthersStay<T>(q: Queue<T>, a: Action<T>, t: nat)
    requires t < |q.threads| && (a.t != t || (!a.Go? && !q.threads[t].Idle?))
    ensures |Step(q, a).threads| == |q.threads| && Step(q, a).threads[t] == q.threads[t]
  {
  }

  /** One step of a push: it goes on, or stores its value, or gives up having seen the queue full. */
  lemma {:induction false} PushGoes<T>(q: Queue<T>, t: nat, v: T, b: bool)
    requires t < |q.threads| && (Asking(q.threads[t], v, b) || Storing(q.threads[t], v))
    ensures var q2 := Step(q, Go(t)); var p, more := q2.threads[t], Added(q.vals, q2.vals);
      && |q2.threads| == |q.threads|
      && (if Storing(q.threads[t], v) then more == [] && (p.Idle? || Storing(p, v))
          else if p.Idle? then more == [] && !b && SeesFull(q, t)
          else (Asking(p, v, b) && more == []) || (Storing(p, v) && more == [v]))
  {
  }

  /**
   Every push, in every run: until it claims a place it has stored nothing; from then on it has stored its value, once;
   and it returns without having done so only if it does not block and its last step has seen the queue full.
   */
  lemma {:induction false} PushStores<T>(q: Queue<T>, acts: seq<Action<T>>, t: nat, v: T, b: bool)
    requires t < |q.threads| && q.threads[t] == PushStart(v, b) && InCall(q, acts, t)
    ensures |Run(q, acts).threads| == |q.threads|
    ensures var p, own := Run(q, acts).threads[t], ClaimedBy(q, acts, t);
      if p.Idle? then own == [v] || (own == [] && !b && SeesFull(Run(q, acts[..|acts| - 1]), t))
      else (Asking(p, v, b) && own == []) || (Storing(p, v) && own == [v])
  {
    hide Step, Added, SeesFull;
    if acts != [] {
      var n := |acts| - 1;
      PushStores(q, acts[..n], t, v, b);
      var q1 := Run(q, acts[..n]);
      if acts[n] == Go(t) {
        PushGoes(q1, t, v, b);
      } else {
        OthersStay(q1, acts[n], t);
      }
    }
  }

  /** A pop that has not taken anything yet. */
  predicate Looking<T>(p: Place<T>, blocking: bool)
  {
    match p
    case PopStart(b) => b == blocking
    case PopTop(b) => b == blocking
    case PopGotR(b, r, r0) => b == blocking
    case PopCopy(b, r, r0) => b == blocking
    case PopCas(b, r, r0, data) => b == blocking
    case _ => false
  }

  /** The next step of thread t's pop has a reason to return with nothing. */
  predicate GivesUp<T>(q: Queue<T>, t: nat, blocking: bool)
    requires t < |q.threads|
  {
    SeesEmpty(q, t) || (!blocking && LosesExchange(q, t))
  }

  /** One step of a pop: it goes on, or takes one value, or gives up for a reason. */
  lemma {:induction false} PopGoes<T>(q: Queue<T>, t: nat, b: bool)
    requires t < |q.threads| && (Looking(q.threads[t], b) || q.threads[t].Taken?)
    ensures var q2 := Step(q, Go(t)); var p, more := q2.threads[t], Added(q.popped, q2.popped);
      && |q2.threads| == |q.threads|
      && (if q.threads[t].Taken? then more == [] && p.Idle?
          else if p.Idle? then more == [] && GivesUp(q, t, b)
          else (Looking(p, b) && more == [])
               || (p.Taken? && q.threads[t].PopCas? && more == [q.threads[t].data]))
  {
  }

  /**
   Every pop, in every run: it returns with exactly one value, or with none, and then its last step has seen the queue
   empty, or it does not block and has lost its exchange.
   */
  lemma {:induction false} PopTakes<T>(q: Queue<T>, acts: seq<Action<T>>, t: nat, b: bool)
    requires t < |q.threads| && q.threads[t] == PopStart(b) && InCall(q, acts, t)
    ensures |Run(q, acts).threads| == |q.threads|
    ensures var p, own := Run(q, acts).threads[t], TakenBy(q, acts, t);
      if p.Idle? then
        |own| == 1 || (own == [] && GivesUp(Run(q, acts[..|acts| - 1]), t, b))
      else (Looking(p, b) && own == []) || (p.Taken? && |own| == 1)
  {
    hide Step, Added, GivesUp;
    if acts != [] {
      var n := |acts| - 1;
      PopTakes(q, acts[..n], t, b);
      var q1 := Run(q, acts[..n]);
      if acts[n] == Go(t) {
        PopGoes(q1, t, b);
      } else {
        OthersStay(q1, acts[n], t);
      }
    }
  }

  // ---- calls while the others stand still

  /** A call and n steps of its thread. */
  function Alone<T>(a: Action<T>, n: nat): seq<Action<T>>
  {
    if n == 0 then [a] else Alone(a, n - 1) + [Go(a.t)]
  }

  lemma {:induction false} AloneStep<T>(q: Queue<T>, a: Action<T>, n: nat)
    ensures Run(q, Alone(a, 0)) == Step(q, a)
    ensures Run(q, Alone(a, n + 1)) == Step(Run(q, Alone(a, n)), Go(a.t))
  {
    hide Step;
    assert [a][..0] == [] && Run(q, []) == q;
    assert Alone(a, n + 1)[..|Alone(a, n)|] == Alone(a, n);
  }

  /** The queue after a push of v that has had room. */
  function WithPushed<T>(q: Queue<T>, v: T): Queue<T>
    requires q.writeInd < |q.slots|
  {
    var n := Next(q.writeInd, q.space);
    q.(slots := q.slots[q.writeInd := v], writeInd := n, availInd := n, depth := q.depth + 1,
       write := q.write + 1, avail := q.avail + 1, vals := q.vals + [v])
  }

  /** The queue after a pop that has found something. */
  function WithPopped<T>(q: Queue<T>): Queue<T>
    requires q.readInd < |q.slots|
  {
    q.(readInd := Next(q.readInd, q.space), depth := q.depth - 1, read := q.read + 1,
       popped := q.popped + [q.slots[q.readInd]])
  }

  lemma {:induction false} PushEnters<T>(q: Queue<T>, t: nat, v: T, b: bool)
    requires t < |q.threads| && q.threads[t] == Idle && q.depth + 1 < q.space && Next(q.writeInd, q.space) != q.readInd
    ensures Run(q, Alone(CallPush(t, v, b), 3)) == Move(q, t, PushCas(v, b, q.writeInd, q.write, q.readInd, q.read))
  {
    var a := CallPush(t, v, b);
    hide Run, Alone;
    AloneStep(q, a, 0);
    assert Run(q, Alone(a, 0)) == Move(q, t, PushStart(v, b));
    assert Run(q, Alone(a, 1)) == Move(q, t, PushTop(v, b));
    AloneStep(q, a, 1);
    assert Run(q, Alone(a, 2)) == Move(q, t, PushGotW(v, b, q.writeInd, q.write));
    AloneStep(q, a, 2);
  }

  lemma {:induction false} PushAlone<T>(q: Queue<T>, t: nat, v: T, b: bool)
    requires t < |q.threads| && q.threads[t] == Idle && q.depth + 1 < q.space
    requires q.writeInd == q.availInd < |q.slots| && Next(q.writeInd, q.space) != q.readInd
    ensures Run(q, Alone(CallPush(t, v, b), 7)) == WithPushed(q, v)
  {
    var a := CallPush(t, v, b);
    hide Run, Alone, Next;
    PushEnters(q, t, v, b);
    AloneStep(q, a, 3);
    AloneStep(q, a, 4);
    AloneStep(q, a, 5);
    AloneStep(q, a, 6);
    assert Run(q, Alone(a, 7)).threads == q.threads;
  }

  lemma {:induction false} PopBegins<T>(q: Queue<T>, t: nat, b: bool)
    requires t < |q.threads| && q.threads[t] == Idle
    requires q.depth != 0 && q.readInd != q.availInd && q.readInd < |q.slots|
    ensures Run(q, Alone(CallPop(t, b), 4)) == Move(q, t, PopCas(b, q.readInd, q.read, q.slots[q.readInd]))
  {
    var a: Action<T> := CallPop(t, b);
    hide Run, Alone, Next;
    AloneStep(q, a, 0);
    assert Run(q, Alone(a, 1)) == Move(q, t, PopTop(b));
    AloneStep(q, a, 1);
    assert Run(q, Alone(a, 2)) == Move(q, t, PopGotR(b, q.readInd, q.read));
    AloneStep(q, a, 2);
    assert Run(q, Alone(a, 3)) == Move(q, t, PopCopy(b, q.readInd, q.read));
    AloneStep(q, a, 3);
  }

  lemma {:induction false} PopAlone<T>(q: Queue<T>, t: nat, b: bool)
    requires t < |q.threads| && q.threads[t] == Idle
    requires q.depth != 0 && q.readInd != q.availInd && q.readInd < |q.slots|
    ensures Run(q, Alone(CallPop(t, b), 6)) == WithPopped(q)
  {
    var a: Action<T> := CallPop(t, b);
    hide Run, Alone;
    PopBegins(q, t, b);
    AloneStep(q, a, 4);
    AloneStep(q, a, 5);
    assert Run(q, Alone(a, 6)).threads == q.threads;
  }

  /** A safe queue in which no push and no pop is between its claim and its count. */
  ghost predicate Quiet<T>(q: Queue<T>)
  {
    Safe(q) && q.avail == q.write && q.depth == q.avail - q.read
  }

  /** A push alone stores its value if there is room; without room it changes nothing, unless it blocks. */
  lemma {:induction false} QuietPush<T>(q: Queue<T>, t: nat, v: T, b: bool)
    requires Quiet(q) && t < |q.threads| && q.threads[t] == Idle
    ensures q.depth + 1 < q.space ==>
      q.writeInd < |q.slots| && Run(q, Alone(CallPush(t, v, b), 7)) == WithPushed(q, v)
    ensures q.depth + 1 >= q.space && !b ==> Run(q, Alone(CallPush(t, v, b), 1)) == q
  {
    var a := CallPush(t, v, b);
    hide Run, Alone, Values, Places, DepthOk;
    if q.depth + 1 < q.space {
      NextTicket(q.write, q.space);
      if Next(q.writeInd, q.space) == q.readInd {
        SameIndex(q.read, q.write + 1, q.space);
      }
      PushAlone(q, t, v, b);
    } else {
      AloneStep(q, a, 0);
      assert b || Run(q, Alone(a, 1)).threads == q.threads;
    }
  }

  /** A pop alone takes the oldest value that has not been taken, if there is one, and otherwise changes nothing. */
  lemma {:induction false} QuietPop<T>(q: Queue<T>, t: nat, b: bool)
    requires Quiet(q) && t < |q.threads| && q.threads[t] == Idle
    ensures q.depth > 0 ==>
      && q.read < |q.vals| && q.readInd < |q.slots| && q.slots[q.readInd] == q.vals[q.read]
      && Run(q, Alone(CallPop(t, b), 6)) == WithPopped(q)
    ensures q.depth == 0 ==> Run(q, Alone(CallPop(t, b), 1)) == q
  {
    var a: Action<T> := CallPop(t, b);
    hide Run, Alone, Places, DepthOk;
    if q.depth > 0 {
      assert Holds(q, q.read);
      if q.readInd == q.availInd {
        SameIndex(q.read, q.avail, q.space);
      }
      PopAlone(q, t, b);
    } else {
      AloneStep(q, a, 0);
      assert Run(q, Alone(a, 1)).threads == q.threads;
    }
  }

  lemma {:induction false} RunConcat<T>(q: Queue<T>, a: seq<Action<T>>, b: seq<Action<T>>)
    ensures Run(q, a + b) == Run(Run(q, a), b)
  {
    hide Step;
    if b == [] {
      assert a + b == a;
    } else {
      var n := |b| - 1;
      RunConcat(q, a, b[..n]);
      assert (a + b)[..|a| + n] == a + b[..n];
    }
  }

  // ---- two pushers that block

  lemma {:induction false} RunMore<T>(q: Queue<T>, acts: seq<Action<T>>, a: Action<T>)
    ensures Run(q, acts + [a]) == Step(Run(q, acts), a)
  {
    assert (acts + [a])[..|acts|] == acts;
  }

  /** One more step of a run of three threads on a queue with two slots. */
  lemma {:induction false} One(acts0: seq<Action<int>>, q0: Queue<int>, a: Action<int>)
    returns (acts: seq<Action<int>>, q: Queue<int>)
    requires q0 == Run(Create(2, [0, 0], 3), acts0)
    ensures q == Step(q0, a) == Run(Create(2, [0, 0], 3), acts)
  {
    acts, q := acts0 + [a], Step(q0, a);
    RunMore(Create(2, [0, 0], 3), acts0, a);
  }

  lemma {:induction false} BothStart() returns (acts: seq<Action<int>>, q: Queue<int>)
    ensures q == Run(Create(2, [0, 0], 3), acts)
    ensures q == Queue(2, [0, 0], 0, 0, 0, 0, [PushTop(7, true), PushTop(8, true), Idle], 0, 0, 0, [], [])
  {
    acts, q := [], Create(2, [0, 0], 3);
    assert q.threads == [Idle, Idle, Idle];
    hide Run;
    acts, q := One(acts, q, CallPush(0, 7, true));
    acts, q := One(acts, q, CallPush(1, 8, true));
    acts, q := One(acts, q, Go(0));
    acts, q := One(acts, q, Go(1));
  }

  lemma {:induction false} FirstClaims() returns (acts: seq<Action<int>>, q: Queue<int>)
    ensures q == Run(Create(2, [0, 0], 3), acts)
    ensures q == Queue(2, [0, 0], 1, 0, 0, 0, [Claimed(7, 0, 0), PushTop(8, true), Idle], 1, 0, 0, [7], [])
  {
    hide Run;
    acts, q := BothStart();
    acts, q := One(acts, q, Go(0));
    acts, q := One(acts, q, Go(0));
    acts, q := One(acts, q, Go(0));
  }

  lemma {:induction false} FirstReturns() returns (acts: seq<Action<int>>, q: Queue<int>)
    ensures q == Run(Create(2, [0, 0], 3), acts)
    ensures q == Queue(2, [7, 0], 1, 1, 0, 1, [Idle, PushTop(8, true), Idle], 1, 1, 0, [7], [])
  {
    hide Run;
    acts, q := FirstClaims();
    acts, q := One(acts, q, Go(0));
    acts, q := One(acts, q, Go(0));
    acts, q := One(acts, q, Go(0));
  }

  lemma {:induction false} SecondClaims() returns (acts: seq<Action<int>>, q: Queue<int>)
    ensures q == Run(Create(2, [0, 0], 3), acts)
    ensures q == Queue(2, [7, 0], 0, 1, 0, 1, [Idle, Claimed(8, 1, 1), Idle], 2, 1, 0, [7, 8], [])
  {
    hide Run;
    acts, q := FirstReturns();
    acts, q := One(acts, q, Go(1));
    acts, q := One(acts, q, Go(1));
    acts, q := One(acts, q, Go(1));
  }

  lemma {:induction false} SecondReturns() returns (acts: seq<Action<int>>, q: Queue<int>)
    ensures q == Run(Create(2, [0, 0], 3), acts)
    ensures q == Queue(2, [7, 8], 0, 0, 0, 2, [Idle, Idle, Idle], 2, 2, 0, [7, 8], [])
  {
    hide Run;
    acts, q := SecondClaims();
    acts, q := One(acts, q, Go(1));
    acts, q := One(acts, q, Go(1));
    acts, q := One(acts, q, Go(1));
  }

  /**
   Two pushes that block and one place: the second push sees no room, goes on to its exchange, and
   the full queue then looks empty. Both pushes have returned, and a pop finds nothing.
   */
  lemma {:induction false} BlockedPushesHide() returns (acts: seq<Action<int>>, q: Queue<int>)
    ensures q == Run(Create(2, [0, 0], 3), acts) && !Safe(q)
    ensures q.threads == [Idle, Idle, PopGotR(false, 0, 0)] && q.vals == [7, 8] && q.popped == []
    ensures PopStep(q, 2).threads[2] == Idle && PopStep(q, 2).popped == []
  {
    hide Run, Values, Places, DepthOk;
    acts, q := SecondReturns();
    acts, q := One(acts, q, CallPop(2, false));
    acts, q := One(acts, q, Go(2));
    acts, q := One(acts, q, Go(2));
  }

  // ---- a pop that is overtaken by a lap

  /** A run goes on. */
  lemma {:induction false} Then(acts0: seq<Action<int>>, q0: Queue<int>, more: seq<Action<int>>)
    returns (acts: seq<Action<int>>, q: Queue<int>)
    requires q0 == Run(Create(2, [0, 0], 3), acts0)
    ensures q == Run(q0, more) == Run(Create(2, [0, 0], 3), acts)
  {
    acts, q := acts0 + more, Run(q0, more);
    RunConcat(Create(2, [0, 0], 3), acts0, more);
  }

  /** Thread 0 has copied the first value and not yet made its exchange. */
  lemma {:induction false} AboutToTake() returns (acts: seq<Action<int>>, q: Queue<int>)
    ensures q == Run(Create(2, [0, 0], 3), acts)
    ensures q == Queue(2, [7, 0], 1, 1, 0, 1, [PopCas(false, 0, 0, 7), Idle, Idle], 1, 1, 0, [7], [])
  {
    acts, q := [], Create(2, [0, 0], 3);
    assert q.threads == [Idle, Idle, Idle];
    hide Run;
    PushAlone(q, 1, 7, false);
    acts, q := Then(acts, q, Alone(CallPush(1, 7, false), 7));
    PopBegins(q, 0, false);
    acts, q := Then(acts, q, Alone(CallPop(0, false), 4));
  }

  lemma {:induction false} PoppedTwice(q: Queue<int>)
    requires q.vals == [7, 8, 9] && q.popped == [7, 8, 7] && q.read == 3
    ensures !Safe(q)
  {
    assert q.vals[..3][2] != q.popped[2];
  }

  /**
   Nobody blocks. While thread 0 stands before its exchange, thread 1 goes round the queue once; then the exchange
   succeeds, and the first value has been popped twice, the third never.
   */
  lemma {:induction false} OvertakenPopsTwice() returns (acts: seq<Action<int>>, q: Queue<int>)
    ensures q == Run(Create(2, [0, 0], 3), acts) && NobodyBlocks(q) && Overtaken(q, Go(0))
    ensures Step(q, Go(0)).vals == [7, 8, 9] && Step(q, Go(0)).popped == [7, 8, 7]
    ensures Step(q, Go(0)).read == Step(q, Go(0)).avail == 3 && !Safe(Step(q, Go(0)))
  {
    hide Run;
    acts, q := AboutToTake();
    PopAlone(q, 1, false);
    acts, q := Then(acts, q, Alone(CallPop(1, false), 6));
    PushAlone(q, 1, 8, false);
    acts, q := Then(acts, q, Alone(CallPush(1, 8, false), 7));
    PopAlone(q, 1, false);
    acts, q := Then(acts, q, Alone(CallPop(1, false), 6));
    PushAlone(q, 1, 9, false);
    acts, q := Then(acts, q, Alone(CallPush(1, 9, false), 7));
    assert q == Queue(2, [9, 8], 1, 1, 0, 1, [PopCas(false, 0, 0, 7), Idle, Idle], 3, 3, 2, [7, 8, 9], [7, 8]);
    hide Safe;
    PoppedTwice(Step(q, Go(0)));
  }
}
