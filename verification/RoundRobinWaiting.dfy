/** How long a process that can run waits for the processor. */
module RoundRobinWaiting {
  import opened Arithmetic
  import opened RoundRobin
  import opened RoundRobinLaws

  /** The ticks for which a process keeps the processor when its quantum count is `q`; the largest word
      wraps round to 0 first. */
  function Ticks(q: nat): (r: nat)
    ensures 1 <= r <= 7 && (q + 1 < MODULUS ==> r <= 6)
  {
    if q + 1 == MODULUS then 7 else if q >= QUANTUM_MAX then 1 else QUANTUM_MAX + 1 - q
  }

  /** A process is not interrupted before its `Ticks`, and at the last of them it is. */
  lemma KeepsProcessor(s: Sched, sp: nat)
    requires Inv(s) && s.disables == 0 && |s.ring| > 1 && !s.force && s.ring[0].task.state.RUNNING?
    ensures Switches(Counted(s, sp)) <==> Ticks(s.ring[0].quantums) == 1
    ensures Ticks(s.ring[0].quantums) > 1 ==>
              Tickable(s, sp) && Schedule(s, sp) == Counted(s, sp)
              && Ticks(Counted(s, sp).ring[0].quantums) == Ticks(s.ring[0].quantums) - 1
  {
  }

  /** The quanta that the processes from `lo` to `hi` are entitled to. */
  function Queue(ring: seq<Slot>, lo: nat, hi: nat): nat
    requires lo <= hi <= |ring|
    decreases hi - lo
  {
    if lo == hi then 0 else Ticks(ring[lo].task.priority) + Queue(ring, lo + 1, hi)
  }

  /** An upper bound on the ticks until the process at `k` has the processor. */
  function Wait(ring: seq<Slot>, k: nat): nat
    requires k < |ring|
  {
    if k == 0 then 0 else Ticks(ring[0].quantums) + Queue(ring, 1, k)
  }

  lemma {:induction false} QueueSame(r: seq<Slot>, lo: nat, hi: nat, t: seq<Slot>, d: nat)
    requires lo <= hi <= |r| && d <= lo && hi - d <= |t|
    requires forall i :: lo <= i < hi ==> t[i - d].task.priority == r[i].task.priority
    ensures Queue(t, lo - d, hi - d) == Queue(r, lo, hi)
    decreases hi - lo
  {
    if lo < hi {
      QueueSame(r, lo + 1, hi, t, d);
    }
  }

  lemma WaitSame(r: seq<Slot>, t: seq<Slot>, k: nat)
    requires 0 < k < |r| == |t|
    requires forall i :: 0 <= i < |r| ==> t[i].task.priority == r[i].task.priority
    ensures Wait(t, k) - Ticks(t[0].quantums) == Wait(r, k) - Ticks(r[0].quantums)
  {
    QueueSame(r, 1, k, t, 0);
  }

  lemma {:induction false} QueueShorter(r: seq<Slot>, lo: nat, mid: nat, hi: nat)
    requires lo <= mid <= hi <= |r|
    ensures Queue(r, mid, hi) <= Queue(r, lo, hi)
    decreases mid - lo
  {
    if lo < mid {
      QueueShorter(r, lo + 1, mid, hi);
    }
  }

  /** At most six ticks for each place in the ring, if no count in it is the largest word. */
  lemma {:induction false} QueueBound(r: seq<Slot>, lo: nat, hi: nat)
    requires lo <= hi <= |r| && forall i :: lo <= i < hi ==> r[i].task.priority + 1 < MODULUS
    ensures Queue(r, lo, hi) <= 6 * (hi - lo)
    decreases hi - lo
  {
    if lo < hi {
      QueueBound(r, lo + 1, hi);
    }
  }

  lemma WaitBound(ring: seq<Slot>, k: nat)
    requires k < |ring| && ring[0].quantums + 1 < MODULUS
    requires forall i :: 1 <= i < k ==> ring[i].task.priority + 1 < MODULUS
    ensures Wait(ring, k) <= 6 * k
  {
    if k > 0 {
      QueueBound(ring, 1, k);
    }
  }

  /** The process at `k` waits and can run, and the current one runs or has just been blocked. */
  ghost predicate Waiting(s: Sched, k: nat) {
    && Inv(s) && s.disables == 0 && 0 < k < |s.ring| && Runnable(s.ring[k])
    && (s.ring[0].task.state.RUNNING? || s.ring[0].task.state.BLOCKED?)
  }

  /** Events that leave the process at `k` able to run and the quanta alone: no additions, kills, priority
      changes or disabling, no blocking of that process, and no processReady of the current one. */
  predicate Calm(s: Sched, e: Event, k: nat)
    requires s.root < |s.ring|
  {
    match e
    case Tick(_) => true
    case Force => true
    case Enable => true
    case BlockCurrent => true
    case Block(pid) => Find(s, pid) != k
    case MakeReady(pid) => Find(s, pid) > 0
    case _ => false
  }

  /** A switch brings the process at `k` of the turned ring at least one quantum nearer. */
  lemma RunNextNearer(s: Sched, k: nat) returns (t: Sched, j: nat)
    requires k < |s.ring| && Runnable(s.ring[k]) && s.root < |s.ring|
    ensures FirstRunnable(s.ring) < |s.ring| && t == RunNext(s) && j < |t.ring| == |s.ring|
    ensures t.ring[j].task.id == s.ring[k].task.id && t.disables == s.disables && t.ring[0].task.state.RUNNING?
    ensures j > 0 ==> Runnable(t.ring[j])
    ensures Wait(t.ring, j) <= Queue(s.ring, 0, k)
  {
    var p := FirstRunnable(s.ring);
    t := RunNext(s);
    j := k - p;
    RotatedAt(s.ring, p, j);
    RotatedAt(s.ring, p, 0);
    if j > 0 {
      forall i | p + 1 <= i < k ensures t.ring[i - p].task.priority == s.ring[i].task.priority {
        RotatedAt(s.ring, p, i - p);
      }
      QueueSame(s.ring, p + 1, k, t.ring, p);
      QueueShorter(s.ring, 0, p, k);
    }
  }

  lemma SwitchNearer(s: Sched, sp: nat, k: nat) returns (t: Sched, j: nat)
    requires Waiting(s, k) && Switches(Counted(s, sp))
    ensures Tickable(s, sp) && t == Schedule(s, sp) && j < |t.ring| && t.ring[j].task.id == s.ring[k].task.id
    ensures t.disables == 0 && t.ring[0].task.state.RUNNING? && (j > 0 ==> Runnable(t.ring[j]))
    ensures Wait(t.ring, j) < Wait(s.ring, k)
  {
    var c := Counted(s, sp);
    var u := Candidates(c);
    assert u.ring[k - 1] == s.ring[k];
    forall i | 1 <= i < k ensures u.ring[i - 1].task.priority == s.ring[i].task.priority {
      assert u.ring[i - 1] == s.ring[i];
    }
    QueueSame(s.ring, 1, k, u.ring, 1);
    t, j := RunNextNearer(u, k - 1);
  }

  /** The process at `k` is now at `j`, with at least `ticks` less to wait. */
  ghost predicate Nearer(s: Sched, k: nat, t: Sched, j: nat, ticks: nat) {
    && k < |s.ring| && j < |t.ring| && t.ring[j].task.id == s.ring[k].task.id && (j > 0 ==> Waiting(t, j))
    && Wait(t.ring, j) + ticks <= Wait(s.ring, k)
  }

  lemma StaysCurrent(s: Sched, sp: nat, k: nat) returns (t: Sched)
    requires Waiting(s, k) && !Switches(Counted(s, sp))
    ensures Allowed(s, Tick(sp)) && t == Schedule(s, sp) && Nearer(s, k, t, k, 1)
  {
    t := CountedKeeps(s, sp);
    assert t.ring[0].quantums == s.ring[0].quantums + 1 || s.ring[0].quantums + 1 == MODULUS;
    WaitSame(s.ring, t.ring, k);
  }

  lemma TickNearer(s: Sched, sp: nat, k: nat) returns (t: Sched, j: nat)
    requires Waiting(s, k)
    ensures Allowed(s, Tick(sp)) && t == Schedule(s, sp) && Nearer(s, k, t, j, 1)
  {
    if Switches(Counted(s, sp)) {
      t, j := SwitchNearer(s, sp, k);
      TickKeeps(s, sp);
    } else {
      t := StaysCurrent(s, sp, k);
      j := k;
    }
  }

  lemma EditWaits(s: Sched, e: Event, k: nat) returns (t: Sched)
    requires Waiting(s, k) && Calm(s, e, k) && !e.Tick?
    ensures Allowed(s, e) && t == Step(s, e) && Waiting(t, k) && |t.ring| == |s.ring|
    ensures t.ring[k].task.id == s.ring[k].task.id && t.ring[0].quantums == s.ring[0].quantums
    ensures forall i :: 0 <= i < |s.ring| ==> t.ring[i].task.priority == s.ring[i].task.priority
  {
    StepKeeps(s, e);
    t := Step(s, e);
  }

  lemma EditNearer(s: Sched, e: Event, k: nat) returns (t: Sched)
    requires Waiting(s, k) && Calm(s, e, k) && !e.Tick?
    ensures Allowed(s, e) && t == Step(s, e) && Nearer(s, k, t, k, 0)
  {
    t := EditWaits(s, e, k);
    WaitSame(s.ring, t.ring, k);
  }

  /** Every calm event leaves the process where it is or brings it nearer, a tick by at least one. */
  lemma StepNearer(s: Sched, e: Event, k: nat) returns (t: Sched, j: nat)
    requires Waiting(s, k) && Calm(s, e, k)
    ensures Allowed(s, e) && t == Step(s, e) && Nearer(s, k, t, j, if e.Tick? then 1 else 0)
  {
    if e.Tick? {
      t, j := TickNearer(s, e.sp, k);
    } else {
      j := k;
      t := EditNearer(s, e, k);
    }
  }

  ghost predicate CalmFor(s: Sched, e: Event, id: nat)
    requires s.root < |s.ring|
  {
    Allowed(s, e) && exists k :: 0 <= k < |s.ring| && s.ring[k].task.id == id && Calm(s, e, k)
  }

  /** The events up to the point where process `id` becomes current are calm. */
  ghost predicate CalmUntilCurrent(s: Sched, events: seq<Event>, id: nat)
    requires s.root < |s.ring|
    decreases |events|
  {
    || events == [] || s.ring[0].task.id == id
    || (CalmFor(s, events[0], id) && Step(s, events[0]).root < |Step(s, events[0]).ring|
        && CalmUntilCurrent(Step(s, events[0]), events[1..], id))
  }

  function TickCount(events: seq<Event>): nat {
    if events == [] then 0 else (if events[0].Tick? then 1 else 0) + TickCount(events[1..])
  }

  /** The process with this id is current at some point of the run. */
  ghost predicate BecomesCurrent(s: Sched, events: seq<Event>, id: nat)
    requires s.root < |s.ring|
    decreases |events|
  {
    s.ring[0].task.id == id
    || (events != [] && Allowed(s, events[0]) && Step(s, events[0]).root < |Step(s, events[0]).ring|
        && BecomesCurrent(Step(s, events[0]), events[1..], id))
  }

  /** Bounded waiting: a process that can run has the processor after no more ticks than the quanta left
      to the current process and those due to the processes between. */
  lemma {:induction false} BoundedWaiting(s: Sched, events: seq<Event>, k: nat)
    requires Waiting(s, k) && CalmUntilCurrent(s, events, s.ring[k].task.id) && TickCount(events) >= Wait(s.ring, k)
    ensures BecomesCurrent(s, events, s.ring[k].task.id)
    decreases |events|
  {
    var id := s.ring[k].task.id;
    assert s.ring[0].task.id != id && CalmFor(s, events[0], id);
    var i :| 0 <= i < |s.ring| && s.ring[i].task.id == id && Calm(s, events[0], i);
    assert i == k;
    var t, j := StepNearer(s, events[0], k);
    if j > 0 {
      BoundedWaiting(t, events[1..], j);
    }
  }

  /** The current process has been made READY within its quantum. */
  ghost predicate Stuck(s: Sched) {
    && s.root < |s.ring| && s.disables == 0 && !s.force
    && s.ring[0].task.state.READY? && s.ring[0].quantums <= QUANTUM_MAX
  }

  /** That is why `Calm` forbids it: its quanta are no longer counted, so it keeps the processor through any
      number of ticks and nobody else ever becomes current. */
  lemma {:induction false} ReadyCurrentStarves(s: Sched, events: seq<Event>, id: nat)
    requires Stuck(s) && (forall e :: e in events ==> e.Tick?) && id != s.ring[0].task.id
    ensures AllAllowed(s, events) && !BecomesCurrent(s, events, id)
    decreases |events|
  {
    if events != [] {
      assert events[0] in events;
      var t := Step(s, events[0]);
      ReadyCurrentStarves(t, events[1..], id);
    }
  }

  /** Such a state is reached while another process can run. */
  lemma StarvationIsReached(idle: Task, task: Task)
    requires idle.pid == 0 && idle.priority < MODULUS
    requires task.state.NEW? && task.priority < MODULUS && task.id != idle.id
    ensures AllAllowed(Started(idle), [Add(task), MakeReady(0)])
    ensures var t := After(Started(idle), [Add(task), MakeReady(0)]);
            Stuck(t) && t.ring[0].task.id == idle.id && |t.ring| == 2 && Runnable(t.ring[1])
  {
    StartedInv(idle);
    var t := InsertedKeeps(Started(idle), task);
    assert [Add(task), MakeReady(0)][1..] == [MakeReady(0)] && [MakeReady(0)][1..] == [];
    var d := FindIsFirst(t, 0);
    assert Find(t, 0) == 0;
    var u := SetState(t, 0, READY);
    assert AllAllowed(t, [MakeReady(0)]) && After(t, [MakeReady(0)]) == u;
  }
}
