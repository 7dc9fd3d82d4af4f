/** That schedule always finds a process to run, as long as the idle process is let alone. */
module RoundRobinIdle {
  import opened Arithmetic
  import opened RoundRobin
  import opened RoundRobinLaws

  /** The process at `i` is an idle one, with pid 0, and can run or runs. */
  predicate IdleAt(s: Sched, i: nat) {
    && i < |s.ring| && s.ring[i].task.pid == 0
    && (Runnable(s.ring[i]) || (i == 0 && s.ring[0].task.state.RUNNING?))
  }

  ghost predicate IdleReady(s: Sched) { exists i: nat :: IdleAt(s, i) }

  /** Events that neither block nor kill a process with pid 0. */
  predicate SparesIdle(s: Sched, e: Event)
    requires |s.ring| > 0
  {
    match e
    case Block(pid) => pid != 0
    case BlockCurrent => s.ring[0].task.pid != 0
    case KillCurrent => s.ring[0].task.pid != 0
    case Kill(pid) => pid != 0
    case _ => true
  }

  predicate WaitingIdle(s: Sched, i: nat) { i < |s.ring| && s.ring[i].task.pid == 0 && Runnable(s.ring[i]) }

  /** A search round the ring finds the idle process at the latest, and leaves it able to run or running. */
  lemma RunNextIdle(s: Sched, i: nat) returns (t: Sched)
    requires WaitingIdle(s, i)
    ensures FirstRunnable(s.ring) < |s.ring| && t == RunNext(s) && IdleReady(t)
  {
    var k := FirstRunnable(s.ring);
    t := RunNext(s);
    RotatedAt(s.ring, k, i - k);
    assert IdleAt(t, i - k);
  }

  lemma TurnedIdle(s: Sched, i: nat) returns (j: nat)
    requires WaitingIdle(s, i) && |s.ring| > 1
    ensures WaitingIdle(Turned(s, 1), j)
  {
    j := if i > 0 then i - 1 else |s.ring| - 1;
    RotatedAt(s.ring, 1, j);
  }

  /** Giving up the node after `k` does not lose an idle process that waits elsewhere. */
  lemma RemoveIdle(s: Sched, k: nat, i: nat) returns (t: Sched, j: nat)
    requires s.root < |s.ring| && k + 1 < |s.ring| && i != k && IdleAt(s, i)
    ensures t == Remove(s, k) && IdleAt(t, j) && (i > 0 && k == 0 ==> WaitingIdle(t, j))
  {
    var parent := Find(s, s.ring[0].task.parent);
    if parent == |s.ring| {
      t, j := s, i;
    } else {
      var u := LoseChild(s, parent);
      t := Remove(s, k);
      j := if i < k then i else i - 1;
      DroppedAt(u, k, j);
      assert u.ring[i].task.pid == 0;
    }
  }

  /** Where `schedule` looks for a process to run, the idle process waits. */
  lemma CandidatesIdle(s: Sched, i: nat) returns (t: Sched, j: nat)
    requires s.root < |s.ring| && |s.ring| > 1 && IdleAt(s, i)
    ensures t == Candidates(s) && WaitingIdle(t, j)
  {
    if s.ring[0].task.state.KILLED? {
      t, j := RemoveIdle(s, 0, i);
    } else {
      var u := if s.ring[0].task.state.BLOCKED? then s else SetState(s.(force := false), 0, READY);
      j := TurnedIdle(u, i);
      t := Candidates(s);
    }
  }

  /** While an idle process can run or runs, every tick finds a process to run, and leaves it so. */
  lemma TickFindsProcess(s: Sched, sp: nat)
    requires s.root < |s.ring| && IdleReady(s)
    ensures Tickable(s, sp) && IdleReady(Schedule(s, sp))
  {
    var i: nat :| IdleAt(s, i);
    if s.disables == 0 && |s.ring| > 1 {
      var c := Counted(s, sp);
      assert IdleAt(c, i);
      if Switches(c) {
        var t, j := CandidatesIdle(c, i);
        t := RunNextIdle(t, j);
      }
    }
  }

  lemma KillKeepsIdle(s: Sched, pid: nat, i: nat)
    requires s.root < |s.ring| && Allowed(s, Kill(pid)) && pid != 0 && IdleAt(s, i)
    ensures IdleReady(Step(s, Kill(pid)))
  {
    var k := Find(s, pid);
    if s.ring[0].task.pid == pid {
      assert IdleAt(SetState(s, 0, KILLED), i);
    } else if k < |s.ring| {
      assert IdleAt(SetState(s, k, KILLED), i);
      var t, j := RemoveIdle(SetState(s, k, KILLED), k, i);
    }
  }

  /** Every event keeps an idle process able to run, if it does not block or kill one. */
  lemma StepKeepsIdle(s: Sched, e: Event)
    requires s.root < |s.ring| && Allowed(s, e) && IdleReady(s) && SparesIdle(s, e)
    ensures IdleReady(Step(s, e))
  {
    var i: nat :| IdleAt(s, i);
    match e {
      case Tick(sp) => TickFindsProcess(s, sp);
      case Kill(pid) => KillKeepsIdle(s, pid, i);
      case Add(task) => assert IdleAt(Step(s, e), if i == 0 then 0 else i + 1);
      case _ => EditKeepsIdle(s, e, i);
    }
  }

  lemma EditKeepsIdle(s: Sched, e: Event, i: nat)
    requires s.root < |s.ring| && Allowed(s, e) && IdleAt(s, i) && SparesIdle(s, e)
    requires !e.Tick? && !e.Kill? && !e.Add?
    ensures IdleReady(Step(s, e))
  {
    assert IdleAt(Step(s, e), i);
  }

  /** What the events of a run need, apart from a tick's finding a process: that they spare the idle process,
      and that the process at the root is not the one a tick removes. */
  ghost predicate Spared(s: Sched, events: seq<Event>)
    requires s.root < |s.ring|
    decreases |events|
  {
    events == [] ||
    (&& SparesIdle(s, events[0])
     && (match events[0] case Tick(_) => s.ring[0].task.state.KILLED? ==> s.root != 0 case e => Allowed(s, e))
     && (Allowed(s, events[0]) && Step(s, events[0]).root < |Step(s, events[0]).ring| ==>
           Spared(Step(s, events[0]), events[1..])))
  }

  /** In a run that spares the idle process no tick is ever left without a process to run. */
  lemma {:induction false} NeverWithoutProcess(s: Sched, events: seq<Event>)
    requires Inv(s) && IdleReady(s) && Spared(s, events)
    ensures AllAllowed(s, events) && Inv(After(s, events)) && IdleReady(After(s, events))
    decreases |events|
  {
    if events != [] {
      if events[0].Tick? {
        TickFindsProcess(s, events[0].sp);
      }
      StepKeeps(s, events[0]);
      StepKeepsIdle(s, events[0]);
      NeverWithoutProcess(Step(s, events[0]), events[1..]);
    }
  }

  /** From the start of the kernel. */
  lemma StartedNeverWithoutProcess(idle: Task, events: seq<Event>)
    requires idle.pid == 0 && idle.priority < MODULUS && Spared(Started(idle), events)
    ensures AllAllowed(Started(idle), events) && Inv(After(Started(idle), events))
  {
    StartedInv(idle);
    assert IdleAt(Started(idle), 0);
    NeverWithoutProcess(Started(idle), events);
  }
}
