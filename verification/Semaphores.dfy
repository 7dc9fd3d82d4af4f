/** One open semaphore of Kernel/semaphore.c and any number of processes that wait on it and post it. A
    step is one atomic action of one process: an exchange, a read of the value, a decrement, the release of
    the lock, or a whole region with the scheduler disabled. */
module Semaphores {
  import opened Arithmetic

  /** The next action of a process; `Swap` and `Peek` are the two halves of checkSem. */
  datatype Pc = Out | Swap | Peek | Queue | Take | Unlock

  /** `held` counts for each process the waits that returned to it less its posts; `takes` and `posts` count
      over all of them since the semaphore was opened at `initial`. */
  datatype Sem = Sem(value: nat, lock: nat, pc: seq<Pc>, held: seq<int>, initial: nat, posts: nat, takes: nat)

  datatype Action = Wait(p: nat) | Post(p: nat) | Go(p: nat)

  ghost predicate Shape(s: Sem) { |s.pc| == |s.held| && s.lock <= 1 && s.value < MODULUS }

  function Opened(n: nat, value: nat): (s: Sem)
    requires value < MODULUS
    ensures Shape(s)
  {
    Sem(value, 0, seq(n, i => Out), seq(n, i => 0), value, 0, 0)
  }

  /** The next action of `p` in sem_wait. */
  function Advance(s: Sem, p: nat): (t: Sem)
    requires Shape(s) && p < |s.pc|
    ensures Shape(t) && |t.pc| == |s.pc|
  {
    match s.pc[p]
    case Out => s
    case Swap => s.(lock := 1, pc := s.pc[p := if s.lock == 0 then Peek else Queue])
    case Peek => s.(pc := s.pc[p := if s.value > 0 then Take else Queue])
    case Queue => s.(lock := 1, pc := s.pc[p := if s.lock == 0 && s.value > 0 then Take else Swap])
    case Take => s.(value := (s.value + MODULUS - 1) % MODULUS, takes := s.takes + 1, pc := s.pc[p := Unlock])
    case Unlock => s.(lock := 0, pc := s.pc[p := Out], held := s.held[p := s.held[p] + 1])
  }

  function Step(s: Sem, a: Action): (t: Sem)
    requires Shape(s)
    ensures Shape(t) && |t.pc| == |s.pc|
  {
    if a.p >= |s.pc| then s
    else if a.Go? then Advance(s, a.p)
    else if s.pc[a.p] != Out then s
    else if a.Wait? then s.(pc := s.pc[a.p := Swap])
    else s.(value := (s.value + 1) % MODULUS, posts := s.posts + 1, held := s.held[a.p := s.held[a.p] - 1])
  }

  /** The process has won the lock and not given it back. */
  predicate Won(pc: Pc) { pc.Peek? || pc.Take? || pc.Unlock? }

  /** At most one process has won the lock, and it is then taken; whoever is past the check finds a value to
      take; and the value is what was there, plus the posts, less what was taken. */
  ghost predicate Inv(s: Sem) {
    && Shape(s)
    && (forall p :: 0 <= p < |s.pc| && Won(s.pc[p]) ==> s.lock == 1)
    && (forall p, q :: 0 <= p < q < |s.pc| ==> !(Won(s.pc[p]) && Won(s.pc[q])))
    && (forall p :: 0 <= p < |s.pc| && s.pc[p].Take? ==> s.value > 0)
    && s.value == s.initial + s.posts - s.takes
  }

  /** The value does not reach the end of its word. */
  predicate Fits(s: Sem, a: Action) { a.Post? ==> s.value + 1 < MODULUS }

  lemma StepKeepsInv(s: Sem, a: Action)
    requires Inv(s) && Fits(s, a)
    ensures Inv(Step(s, a))
  {
  }

  // ---- Mutual exclusion

  lemma {:induction false} SumAtLeast(counts: seq<int>, i: nat)
    requires i < |counts| && forall j :: 0 <= j < |counts| ==> counts[j] >= 0
    ensures Sum(counts) >= counts[i]
  {
    var n := |counts| - 1;
    if i < n {
      SumAtLeast(counts[..n], i);
    } else if n > 0 {
      SumAtLeast(counts[..n], 0);
    }
  }

  lemma {:induction false} SumOfTwo(counts: seq<int>, i: nat, j: nat)
    requires i < j < |counts| && forall k :: 0 <= k < |counts| ==> counts[k] >= 0
    ensures Sum(counts) >= counts[i] + counts[j]
  {
    var n := |counts| - 1;
    if j < n {
      SumOfTwo(counts[..n], i, j);
    } else {
      SumAtLeast(counts[..n], i);
    }
  }

  /** What is taken and not posted back is held, or about to be. */
  predicate Balanced(s: Sem)
    requires |s.pc| == |s.held|
  {
    s.takes - s.posts == Sum(s.held) + Sum(Returning(s.pc))
  }

  /** 1 for a process that has decremented the value and not yet returned. */
  function Returning(pc: seq<Pc>): (r: seq<int>)
    ensures |r| == |pc|
  {
    seq(|pc|, i requires 0 <= i < |pc| => if pc[i].Unlock? then 1 else 0)
  }

  lemma StepKeepsBalance(s: Sem, a: Action)
    requires Shape(s) && Balanced(s)
    ensures Balanced(Step(s, a))
  {
    if a.p < |s.pc| {
      var t := Step(s, a);
      SumUpdate(s.held, a.p, t.held[a.p]);
      SumUpdate(Returning(s.pc), a.p, Returning(t.pc)[a.p]);
      assert s.held[a.p := t.held[a.p]] == t.held;
      assert Returning(s.pc)[a.p := Returning(t.pc)[a.p]] == Returning(t.pc);
    }
  }

  // ---- Runs

  function After(s: Sem, acts: seq<Action>): (t: Sem)
    requires Shape(s)
    ensures Shape(t) && |t.pc| == |s.pc|
    decreases |acts|
  {
    if acts == [] then s else After(Step(s, acts[0]), acts[1..])
  }

  ghost predicate AllFit(s: Sem, acts: seq<Action>)
    requires Shape(s)
    decreases |acts|
  {
    acts == [] || (Fits(s, acts[0]) && AllFit(Step(s, acts[0]), acts[1..]))
  }

  /** Nobody posts what it does not hold. */
  ghost predicate Disciplined(s: Sem, acts: seq<Action>)
    requires Shape(s)
    decreases |acts|
  {
    acts == [] || ((acts[0].Post? && acts[0].p < |s.pc| && s.pc[acts[0].p] == Out ==> s.held[acts[0].p] > 0)
                   && Disciplined(Step(s, acts[0]), acts[1..]))
  }

  ghost predicate NobodyOwes(s: Sem) { forall p :: 0 <= p < |s.held| ==> s.held[p] >= 0 }

  lemma {:induction false} RunKeeps(s: Sem, acts: seq<Action>)
    requires Inv(s) && Balanced(s) && AllFit(s, acts)
    ensures Inv(After(s, acts)) && Balanced(After(s, acts)) && After(s, acts).initial == s.initial
    decreases |acts|
  {
    if acts != [] {
      StepKeepsInv(s, acts[0]);
      StepKeepsBalance(s, acts[0]);
      RunKeeps(Step(s, acts[0]), acts[1..]);
    }
  }

  lemma {:induction false} RunOwesNothing(s: Sem, acts: seq<Action>)
    requires Shape(s) && NobodyOwes(s) && Disciplined(s, acts)
    ensures NobodyOwes(After(s, acts))
    decreases |acts|
  {
    if acts != [] {
      RunOwesNothing(Step(s, acts[0]), acts[1..]);
    }
  }

  lemma OpenedIsGood(n: nat, value: nat)
    requires value < MODULUS
    ensures Inv(Opened(n, value)) && Balanced(Opened(n, value)) && NobodyOwes(Opened(n, value))
  {
    var s := Opened(n, value);
    SumOfZeros(s.held);
    SumOfZeros(Returning(s.pc));
  }

  /** In every interleaving at most one process is between winning the check and releasing the lock, the
      decrement never underflows, and the value is initial + posts - takes. */
  lemma LockIsExclusive(n: nat, value: nat, acts: seq<Action>)
    requires value < MODULUS && AllFit(Opened(n, value), acts)
    ensures var t := After(Opened(n, value), acts);
            && (forall p, q :: 0 <= p < q < n ==> !(Won(t.pc[p]) && Won(t.pc[q])))
            && (forall p :: 0 <= p < n && t.pc[p].Take? ==> t.value > 0)
            && t.value == value + t.posts - t.takes
  {
    OpenedIsGood(n, value);
    RunKeeps(Opened(n, value), acts);
  }

  /** If processes post only what they hold, all of them together never hold more than the initial value;
      opened at 1, the semaphore is a mutex. */
  lemma HoldersBounded(n: nat, value: nat, acts: seq<Action>)
    requires value < MODULUS && AllFit(Opened(n, value), acts) && Disciplined(Opened(n, value), acts)
    ensures var t := After(Opened(n, value), acts);
            && Sum(t.held) <= value
            && (value == 1 ==> forall p, q :: 0 <= p < q < n ==> !(t.held[p] > 0 && t.held[q] > 0))
  {
    OpenedIsGood(n, value);
    RunKeeps(Opened(n, value), acts);
    RunOwesNothing(Opened(n, value), acts);
    var t := After(Opened(n, value), acts);
    NoNegative(Returning(t.pc));
    forall p, q | 0 <= p < q < n ensures t.held[p] + t.held[q] <= value {
      SumOfTwo(t.held, p, q);
    }
  }

  lemma {:induction false} NoNegative(counts: seq<int>)
    requires forall i :: 0 <= i < |counts| ==> counts[i] >= 0
    ensures Sum(counts) >= 0
  {
    if counts != [] {
      NoNegative(counts[..|counts| - 1]);
    }
  }

  // ---- Waits that return

  lemma GoMore(s: Sem, p: nat, k: nat, t: Sem)
    requires Shape(s) && k > 0 && t == Step(s, Go(p))
    ensures After(s, Goes(p, k)) == After(t, Goes(p, k - 1))
  {
    assert Goes(p, k)[1..] == Goes(p, k - 1);
  }

  /** `k` actions of one process. */
  function Goes(p: nat, k: nat): (acts: seq<Action>)
    ensures |acts| == k && forall i :: 0 <= i < k ==> acts[i] == Go(p)
  {
    seq(k, i => Go(p))
  }

  /** What a wait that returns leaves. */
  function Held(s: Sem, p: nat): Sem
    requires Shape(s) && p < |s.pc| && s.value > 0
  {
    s.(value := s.value - 1, lock := 0, takes := s.takes + 1, pc := s.pc[p := Out],
       held := s.held[p := s.held[p] + 1])
  }

  lemma TakesAndReturns(s: Sem, p: nat, k: nat)
    requires Shape(s) && p < |s.pc| && s.pc[p].Take? && s.value > 0 && k >= 2
    ensures Shape(Held(s, p)) && After(s, Goes(p, k)) == After(Held(s, p), Goes(p, k - 2))
  {
    var s1 := s.(value := s.value - 1, takes := s.takes + 1, pc := s.pc[p := Unlock]);
    GoMore(s, p, k, s1);
    assert s1.pc[p := Out] == s.pc[p := Out];
    GoMore(s1, p, k - 1, Held(s, p));
  }

  /** A wait that nobody disturbs and that finds the lock free and the value above 0 returns after four
      actions, with the value one less and the lock free again. */
  lemma WaitReturns(s: Sem, p: nat)
    requires Shape(s) && p < |s.pc| && s.pc[p].Out? && s.lock == 0 && s.value > 0
    ensures After(Step(s, Wait(p)), Goes(p, 4)) == Held(s, p)
  {
    var s1 := Step(s, Wait(p));
    var s2 := s1.(lock := 1, pc := s.pc[p := Peek]);
    var s3 := s2.(pc := s.pc[p := Take]);
    assert s1.pc[p := Peek] == s2.pc && s2.pc[p := Take] == s3.pc;
    GoMore(s1, p, 4, s2);
    GoMore(s2, p, 3, s3);
    TakesAndReturns(s3, p, 2);
    assert Held(s3, p) == Held(s, p);
  }

  /** One that had to queue returns after three, once it finds them so. */
  lemma QueuedReturns(s: Sem, p: nat)
    requires Shape(s) && p < |s.pc| && s.pc[p].Queue? && s.lock == 0 && s.value > 0
    ensures After(s, Goes(p, 3)) == Held(s, p)
  {
    var t := s.(lock := 1, pc := s.pc[p := Take]);
    GoMore(s, p, 3, t);
    TakesAndReturns(t, p, 2);
    assert Held(t, p) == Held(s, p);
  }

  /** The post after it gives the value back, and leaves the process where it was before it waited. */
  lemma PostGivesBack(s: Sem, p: nat)
    requires Shape(s) && p < |s.pc| && s.pc[p].Out? && s.lock == 0 && s.value > 0
    ensures Step(Held(s, p), Post(p)) == s.(takes := s.takes + 1, posts := s.posts + 1)
  {
    var t := Step(Held(s, p), Post(p));
    assert t.pc == s.pc && t.held == s.held;
  }

  /** While another has the lock a wait goes to and fro between its two checks. */
  lemma WaitsItsTurn(s: Sem, p: nat)
    requires Shape(s) && p < |s.pc| && s.pc[p].Swap? && s.lock == 1
    ensures Step(s, Go(p)).pc[p].Queue? && After(s, Goes(p, 2)) == s
  {
    var t := s.(pc := s.pc[p := Queue]);
    GoMore(s, p, 2, t);
    assert t.pc[p := Swap] == s.pc;
    GoMore(t, p, 1, s);
  }

  /** A wait that wins the lock at value 0 goes on to enter the ring of waiters, as one does that loses it. */
  lemma LostCheckQueues(s: Sem, p: nat)
    requires Shape(s) && p < |s.pc| && s.pc[p].Out? && (s.lock == 1 || s.value == 0)
    ensures var k := if s.lock == 1 then 1 else 2;
            After(Step(s, Wait(p)), Goes(p, k)) == s.(lock := 1, pc := s.pc[p := Queue])
  {
    var s1 := Step(s, Wait(p));
    var s2 := Step(s1, Go(p));
    if s.lock == 1 {
      GoMore(s1, p, 1, s2);
    } else {
      GoMore(s1, p, 2, s2);
      GoMore(s2, p, 1, Step(s2, Go(p)));
    }
    assert s1.pc[p := Queue] == s.pc[p := Queue] && s1.pc[p := Peek][p := Queue] == s.pc[p := Queue];
  }

  /** The first wait on a semaphore that was opened above 0 returns. */
  lemma FirstWaitReturns(n: nat, value: nat, p: nat)
    requires p < n && 0 < value < MODULUS
    ensures After(Step(Opened(n, value), Wait(p)), Goes(p, 4)) == Held(Opened(n, value), p)
  {
    WaitReturns(Opened(n, value), p);
  }

  /** Whoever comes to hold more has just returned, by an action of its own, and nobody else's count moves. */
  lemma HeldMeansOut(s: Sem, a: Action, p: nat)
    requires Shape(s) && p < |s.pc| && Step(s, a).held[p] > s.held[p]
    ensures a == Go(p) && Step(s, a).pc[p].Out? && Step(s, a).held[p] == s.held[p] + 1
  {
  }

  /** In a run, too. */
  lemma {:induction false} HoldsSinceOut(s: Sem, acts: seq<Action>, p: nat) returns (k: nat)
    requires Shape(s) && p < |s.pc| && After(s, acts).held[p] > s.held[p]
    ensures k < |acts| && acts[k] == Go(p)
    ensures var t := After(s, acts[..k]); Step(t, acts[k]).held[p] > t.held[p] && Step(t, acts[k]).pc[p].Out?
    decreases |acts|
  {
    var t := Step(s, acts[0]);
    if t.held[p] > s.held[p] {
      k := 0;
      HeldMeansOut(s, acts[0], p);
      assert acts[..0] == [];
    } else {
      var j := HoldsSinceOut(t, acts[1..], p);
      k := j + 1;
      assert acts[..k][1..] == acts[1..][..j];
    }
  }

  // ---- The lock that is never given back

  /** The lock is taken and nobody will release it. */
  ghost predicate Jammed(s: Sem) {
    s.lock == 1 && forall p :: 0 <= p < |s.pc| ==> !Won(s.pc[p])
  }

  /** A check that wins the lock but finds the value 0 keeps the lock. */
  predicate WinsNothing(s: Sem, a: Action) {
    a.Go? && a.p < |s.pc| && s.value == 0 && (s.pc[a.p].Peek? || (s.pc[a.p].Queue? && s.lock == 0))
  }

  lemma StepJams(s: Sem, a: Action)
    requires Inv(s) && Fits(s, a) && !Jammed(s)
    ensures Jammed(Step(s, a)) <==> WinsNothing(s, a)
  {
    var t := Step(s, a);
    if a.p < |s.pc| {
      assert t.pc == s.pc[a.p := t.pc[a.p]];
      if Won(t.pc[a.p]) {
        assert !Jammed(t);
      } else if !WinsNothing(s, a) && t.lock == 1 {
        if s.lock == 1 {
          var p :| 0 <= p < |s.pc| && Won(s.pc[p]);
          assert Won(t.pc[p]);
        }
      }
    }
  }

  ghost predicate EverWinsNothing(s: Sem, acts: seq<Action>)
    requires Shape(s)
    decreases |acts|
  {
    acts != [] && (WinsNothing(s, acts[0]) || EverWinsNothing(Step(s, acts[0]), acts[1..]))
  }

  /** Once that has happened no wait on the semaphore ever returns again, however many posts follow. */
  lemma {:induction false} JammedForGood(s: Sem, acts: seq<Action>)
    requires Shape(s) && Jammed(s)
    ensures Jammed(After(s, acts)) && After(s, acts).takes == s.takes
    decreases |acts|
  {
    if acts != [] {
      JammedForGood(Step(s, acts[0]), acts[1..]);
    }
  }

  /** A run jams the semaphore if and only if some check in it wins the lock while the value is 0. */
  lemma {:induction false} JamsExactly(s: Sem, acts: seq<Action>)
    requires Inv(s) && AllFit(s, acts) && !Jammed(s)
    ensures Jammed(After(s, acts)) <==> EverWinsNothing(s, acts)
    decreases |acts|
  {
    if acts != [] {
      StepKeepsInv(s, acts[0]);
      StepJams(s, acts[0]);
      if WinsNothing(s, acts[0]) {
        JammedForGood(Step(s, acts[0]), acts[1..]);
      } else {
        JamsExactly(Step(s, acts[0]), acts[1..]);
      }
    }
  }

  /** So a process that waits on a semaphore opened at 0 before it is posted jams it. */
  lemma EarlyWaitJams(n: nat, p: nat)
    requires p < n
    ensures Jammed(After(Opened(n, 0), [Wait(p), Go(p), Go(p)]))
  {
    var s := Opened(n, 0);
    var s1 := Step(s, Wait(p));
    var s2 := Step(s1, Go(p));
    var s3 := Step(s2, Go(p));
    assert [Wait(p), Go(p), Go(p)][1..] == [Go(p), Go(p)] && [Go(p), Go(p)][1..] == [Go(p)] && [Go(p)][1..] == [];
    assert After(s2, [Go(p)]) == After(s3, []) == s3;
    assert After(s1, [Go(p), Go(p)]) == s3;
  }

  /** A wait on a jammed semaphore goes round its loop for ever: every turn enters the ring of waiters once,
      between the two checks, and leaves everything else as it was. */
  lemma JammedWaitSpins(s: Sem, p: nat)
    requires Shape(s) && Jammed(s) && p < |s.pc| && s.pc[p].Swap?
    ensures After(s, [Go(p)]).pc[p].Queue? && After(s, [Go(p), Go(p)]) == s
  {
    var t := Step(s, Go(p));
    assert [Go(p), Go(p)][1..] == [Go(p)] && [Go(p)][1..] == [];
    assert After(s, [Go(p)]) == t && After(t, [Go(p)]) == Step(t, Go(p));
    assert t.pc[p := Swap] == s.pc;
  }
}
