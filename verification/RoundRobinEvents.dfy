/** What each event of the scheduler does to the processes in the ticks that follow it. */
module RoundRobinEvents {
  import opened Arithmetic
  import opened RoundRobin
  import opened RoundRobinLaws
  import opened RoundRobinWaiting

  function TicksOf(sps: seq<nat>): (events: seq<Event>)
    ensures |events| == |sps| && forall i :: 0 <= i < |events| ==> events[i] == Tick(sps[i])
  {
    seq(|sps|, i requires 0 <= i < |sps| => Tick(sps[i]))
  }

  lemma TicksCons(sps: seq<nat>)
    requires sps != []
    ensures TicksOf(sps)[0] == Tick(sps[0]) && TicksOf(sps)[1..] == TicksOf(sps[1..])
  {
  }

  // ---- A turn

  /** A process runs, and can be interrupted. */
  ghost predicate Running(s: Sched) {
    Inv(s) && s.disables == 0 && |s.ring| > 1 && s.ring[0].task.state.RUNNING?
  }

  /** A switch gives the processor to the first process that can run, with its priority for quanta. */
  lemma SwitchedIn(s: Sched, sp: nat) returns (t: Sched, c: Sched)
    requires Inv(s) && Allowed(s, Tick(sp)) && s.disables == 0 && |s.ring| > 1 && Switches(Counted(s, sp))
    ensures t == Schedule(s, sp) && c == Candidates(Counted(s, sp)) && FirstRunnable(c.ring) < |c.ring|
    ensures t.ring[0].task == c.ring[FirstRunnable(c.ring)].task.(state := RUNNING)
    ensures t.ring[0].quantums == t.ring[0].task.priority < MODULUS
    ensures |t.ring| == |c.ring| && t.disables == 0 && t.force == c.force
  {
    var d := CountedKeeps(s, sp);
    c := CandidatesKeep(d);
    t := Schedule(s, sp);
    RotatedAt(c.ring, FirstRunnable(c.ring), 0);
  }

  /** Through ticks alone a running process keeps the processor for exactly as many as its quanta leave it. */
  lemma {:induction false} TurnLasts(s: Sched, sps: seq<nat>, sp: nat)
    requires Running(s) && !s.force && |sps| < Ticks(s.ring[0].quantums)
    ensures AllAllowed(s, TicksOf(sps))
    ensures var t := After(s, TicksOf(sps));
            && t.ring[0].task.id == s.ring[0].task.id && Running(t) && !t.force
            && (Switches(Counted(t, sp)) <==> |sps| + 1 == Ticks(s.ring[0].quantums))
    decreases |sps|
  {
    KeepsProcessor(s, if sps == [] then sp else sps[0]);
    if sps == [] {
      assert TicksOf(sps) == [];
    } else {
      TicksCons(sps);
      var t := Schedule(s, sps[0]);
      var c := CountedKeeps(s, sps[0]);
      TurnLasts(t, sps[1..], sp);
    }
  }

  /** So the process that a tick switches in keeps the processor for as many ticks as its priority gives it, and
      loses it at the last of them. */
  lemma TurnOfPriority(s: Sched, sp: nat, sps: seq<nat>, last: nat)
    requires Inv(s) && Allowed(s, Tick(sp)) && s.disables == 0 && Switches(Counted(s, sp))
    requires |s.ring| > 1 && |Schedule(s, sp).ring| > 1 && !Schedule(s, sp).force
    requires |sps| < Ticks(Schedule(s, sp).ring[0].task.priority)
    ensures AllAllowed(Schedule(s, sp), TicksOf(sps))
    ensures var t := Schedule(s, sp); var u := After(t, TicksOf(sps));
            && u.ring[0].task.id == t.ring[0].task.id
            && (Switches(Counted(u, last)) <==> |sps| + 1 == Ticks(t.ring[0].task.priority))
  {
    var t, c := SwitchedIn(s, sp);
    TickKeeps(s, sp);
    TurnLasts(t, sps, last);
  }

  /** A priority that is set counts from the next turn on. */
  lemma PriorityTakesEffect(s: Sched, pid: nat, priority: nat, sp: nat)
    requires Inv(s) && priority < MODULUS && Find(s, pid) < |s.ring| && s.disables == 0 && |s.ring| > 1
    requires var u := Step(s, SetPriority(pid, priority));
             && Allowed(u, Tick(sp)) && Switches(Counted(u, sp)) && !u.ring[0].task.state.KILLED?
             && Schedule(u, sp).ring[0].task.id == s.ring[Find(s, pid)].task.id
    ensures Schedule(Step(s, SetPriority(pid, priority)), sp).ring[0].quantums == priority
  {
    var u, k := Step(s, SetPriority(pid, priority)), Find(s, pid);
    StepKeeps(s, SetPriority(pid, priority));
    var t, c := SwitchedIn(u, sp);
    var p := FirstRunnable(c.ring);
    TurnedFrom(u, sp, p);
    SameId(u, Follower(p, |s.ring|), k);
  }

  lemma SameId(s: Sched, i: nat, j: nat)
    requires Inv(s) && i < |s.ring| && j < |s.ring| && s.ring[i].task.id == s.ring[j].task.id
    ensures i == j
  {
  }

  lemma OtherId(s: Sched, i: nat, j: nat)
    requires Inv(s) && i < |s.ring| && j < |s.ring| && i != j
    ensures s.ring[i].task.id != s.ring[j].task.id
  {
  }

  /** The place after `i` in a ring of `n`. */
  function Follower(i: nat, n: nat): (j: nat)
    requires i < n
    ensures j < n
  {
    if i + 1 < n then i + 1 else 0
  }

  /** Where the processes come from among which a tick that buries nobody looks. */
  lemma TurnedFrom(s: Sched, sp: nat, i: nat)
    requires s.root < |s.ring| && |s.ring| > 1 && i < |s.ring| && Switches(Counted(s, sp))
    requires !s.ring[0].task.state.KILLED?
    ensures |Candidates(Counted(s, sp)).ring| == |s.ring|
    ensures var t, u := Candidates(Counted(s, sp)).ring[i].task, s.ring[Follower(i, |s.ring|)].task;
            && t.id == u.id && t.priority == u.priority
            && t.state == if i + 1 < |s.ring| || u.state.BLOCKED? then u.state else READY
    ensures Candidates(Counted(s, sp)).force == (s.force && s.ring[0].task.state.BLOCKED?)
  {
    var c := Counted(s, sp);
    var u := if c.ring[0].task.state.BLOCKED? then c else SetState(c.(force := false), 0, READY);
    RotatedAt(u.ring, 1, i);
  }

  /** A process that is alone goes on where it was interrupted, through any number of ticks. */
  lemma {:induction false} AloneGoesOn(s: Sched, sps: seq<nat>, sp: nat)
    requires Inv(s) && |s.ring| == 1 && s.disables == 0 && !s.ring[0].task.state.KILLED?
    ensures AllAllowed(s, TicksOf(sps)) && After(s, TicksOf(sps)) == s
    ensures Tickable(s, sp) && Resumed(s, sp) == sp
    decreases |sps|
  {
    if sps != [] {
      TicksCons(sps);
      AloneGoesOn(s, sps[1..], sp);
    }
  }

  // ---- Force

  /** After forceNextSwitch the next tick takes the processor from a running process, if another can run, and
      the one after it does not on that account. */
  lemma ForceSwitches(s: Sched, sp: nat, k: nat)
    requires Running(s) && 0 < k < |s.ring| && Runnable(s.ring[k])
    ensures var f := Step(s, Force);
            && Allowed(f, Tick(sp)) && Switches(Counted(f, sp))
            && Schedule(f, sp).ring[0].task.id != s.ring[0].task.id && !Schedule(f, sp).force
  {
    var f := Step(s, Force);
    var n := |s.ring|;
    TurnedFrom(f, sp, k - 1);
    TurnedFrom(f, sp, n - 1);
    var t, c := SwitchedIn(f, sp);
    var p := FirstRunnable(c.ring);
    assert p <= k - 1;
    TurnedFrom(f, sp, p);
    OtherId(f, Follower(p, n), 0);
  }

  // ---- Adding

  /** A process that is added is the next to run, when the current one loses the processor. */
  lemma NewcomerRunsNext(s: Sched, task: Task, sp: nat)
    requires Inv(s) && Allowed(s, Add(task)) && s.disables == 0 && !s.ring[0].task.state.KILLED?
    requires Switches(Counted(Step(s, Add(task)), sp))
    ensures var t := Step(s, Add(task));
            && Allowed(t, Tick(sp)) && Schedule(t, sp).ring[0].task.id == task.id
            && Schedule(t, sp).ring[0].task.state.RUNNING? && Schedule(t, sp).ring[0].quantums == task.priority
  {
    var t := InsertedKeeps(s, task);
    TurnedFrom(t, sp, 0);
    var u, c := SwitchedIn(t, sp);
    assert FirstRunnable(c.ring) == 0;
  }

  /** The first process that is added takes the processor from the idle one at the next tick. */
  lemma StartedGivesWay(idle: Task, task: Task, sp: nat)
    requires idle.pid == 0 && idle.priority < MODULUS
    requires task.state.NEW? && task.priority < MODULUS && task.id != idle.id
    ensures Allowed(Started(idle), Add(task))
    ensures var t := Step(Started(idle), Add(task));
            Allowed(t, Tick(sp)) && Schedule(t, sp).ring[0].task.id == task.id
  {
    StartedInv(idle);
    var t := InsertedKeeps(Started(idle), task);
    KeepsProcessor(t, sp);
    NewcomerRunsNext(Started(idle), task, sp);
  }

  // ---- Blocking

  /** The place before `i` in a ring of `n`. */
  function Leader(i: nat, n: nat): (j: nat)
    requires i < n
    ensures j < n && Follower(j, n) == i
  {
    if i == 0 then n - 1 else i - 1
  }

  /** A search round the ring leaves a blocked process where it is in it. */
  lemma RunNextKeepsBlocked(s: Sched, k: nat) returns (j: nat)
    requires k < |s.ring| && s.ring[k].task.state.BLOCKED? && FirstRunnable(s.ring) < |s.ring|
    ensures var t := RunNext(s); 0 < j < |t.ring| == |s.ring| && t.ring[j].task == s.ring[k].task
  {
    var p := FirstRunnable(s.ring);
    j := if p <= k then k - p else k + |s.ring| - p;
    RotatedAt(s.ring, p, j);
  }

  /** A tick leaves a blocked process blocked, and not current. */
  lemma TickKeepsBlocked(s: Sched, sp: nat, i: nat) returns (j: nat)
    requires Inv(s) && Allowed(s, Tick(sp)) && s.disables == 0 && |s.ring| > 1 && !s.ring[0].task.state.KILLED?
    requires i < |s.ring| && s.ring[i].task.state.BLOCKED?
    ensures var t := Schedule(s, sp);
            && 0 < j < |t.ring| == |s.ring| && t.ring[j].task.id == s.ring[i].task.id
            && t.ring[j].task.state.BLOCKED? && !t.ring[0].task.state.KILLED? && t.disables == 0
  {
    if Switches(Counted(s, sp)) {
      TurnedFrom(s, sp, Leader(i, |s.ring|));
      var t, c := SwitchedIn(s, sp);
      j := RunNextKeepsBlocked(c, Leader(i, |s.ring|));
    } else {
      j := i;
    }
  }

  /** Through ticks alone a blocked process never becomes current. */
  lemma {:induction false} BlockedStaysOff(s: Sched, sps: seq<nat>, i: nat)
    requires Inv(s) && s.disables == 0 && |s.ring| > 1 && !s.ring[0].task.state.KILLED?
    requires AllAllowed(s, TicksOf(sps)) && i < |s.ring| && s.ring[i].task.state.BLOCKED? && sps != []
    ensures After(s, TicksOf(sps)).ring[0].task.id != s.ring[i].task.id
    decreases |sps|
  {
    TicksCons(sps);
    var t := Schedule(s, sps[0]);
    var j := TickKeepsBlocked(s, sps[0], i);
    TickKeeps(s, sps[0]);
    if |sps| > 1 {
      BlockedStaysOff(t, sps[1..], j);
    } else {
      assert TicksOf(sps[1..]) == [];
      OtherId(t, 0, j);
    }
  }

  /** So after blockProcess, or blockCurrentProcess, and a tick, that process is off the processor. */
  lemma BlockKeepsOff(s: Sched, pid: nat, sps: seq<nat>)
    requires Inv(s) && s.disables == 0 && |s.ring| > 1 && Find(s, pid) < |s.ring| && sps != []
    requires s.ring[0].task.state.RUNNING?
    requires AllAllowed(Step(s, Block(pid)), TicksOf(sps))
    ensures After(Step(s, Block(pid)), TicksOf(sps)).ring[0].task.id != s.ring[Find(s, pid)].task.id
  {
    StepKeeps(s, Block(pid));
    BlockedStaysOff(Step(s, Block(pid)), sps, Find(s, pid));
  }

  lemma BlockCurrentKeepsOff(s: Sched, sps: seq<nat>)
    requires Inv(s) && s.disables == 0 && |s.ring| > 1 && sps != [] && AllAllowed(Step(s, BlockCurrent), TicksOf(sps))
    ensures After(Step(s, BlockCurrent), TicksOf(sps)).ring[0].task.id != s.ring[0].task.id
  {
    StepKeeps(s, BlockCurrent);
    BlockedStaysOff(Step(s, BlockCurrent), sps, 0);
  }

  lemma {:induction false} FirstPidSame(r: seq<Slot>, t: seq<Slot>, pid: nat)
    requires |r| == |t| && forall i :: 0 <= i < |r| ==> r[i].task.pid == t[i].task.pid
    ensures FirstPid(r, pid) == FirstPid(t, pid)
  {
    if r != [] {
      assert r[0].task.pid == t[0].task.pid;
      FirstPidSame(r[1..], t[1..], pid);
    }
  }

  lemma FindAgain(s: Sched, t: Sched, pid: nat)
    requires s.root == t.root < |s.ring| == |t.ring|
    requires forall i :: 0 <= i < |s.ring| ==> s.ring[i].task.pid == t.ring[i].task.pid
    ensures Find(t, pid) == Find(s, pid)
  {
    var r, q := Rotated(s.ring, s.root), Rotated(t.ring, t.root);
    forall i: nat | i < |r| ensures r[i].task.pid == q[i].task.pid {
      RotatedAt(s.ring, s.root, i);
      RotatedAt(t.ring, t.root, i);
    }
    FirstPidSame(r, q, pid);
  }

  /** processReady undoes blockProcess of a process that was READY. */
  lemma ReadyUndoesBlock(s: Sched, pid: nat)
    requires s.root < |s.ring| && Find(s, pid) < |s.ring| && s.ring[Find(s, pid)].task.state.READY?
    ensures Step(Step(s, Block(pid)), MakeReady(pid)) == s
  {
    var k := Find(s, pid);
    FindAgain(s, SetState(s, k, BLOCKED), pid);
    assert SetState(SetState(s, k, BLOCKED), k, READY).ring == s.ring;
  }

  // ---- Killing

  /** A process that is removed is in the ring no more, and all others are. */
  lemma RemovedIsGone(s: Sched, k: nat)
    requires Inv(s) && k + 1 < |s.ring| && Find(s, s.ring[0].task.parent) < |s.ring|
    ensures var t := Remove(s, k);
            && |t.ring| == |s.ring| - 1
            && (forall i :: 0 <= i < |t.ring| ==> t.ring[i].task.id != s.ring[k].task.id)
            && forall i :: 0 <= i < |s.ring| && i != k ==>
                 t.ring[if i < k then i else i - 1].task.id == s.ring[i].task.id
  {
    var u := LoseChild(s, Find(s, s.ring[0].task.parent));
    var t := Remove(s, k);
    forall i: nat | i < |t.ring|
      ensures t.ring[i].task.id == s.ring[Kept(k, i)].task.id && t.ring[i].task.id != s.ring[k].task.id
    {
      DroppedAt(u, k, i);
      assert Kept(k, i) != k;
    }
    forall i: nat | i < |s.ring| && i != k ensures t.ring[if i < k then i else i - 1].task.id == s.ring[i].task.id {
      assert Kept(k, if i < k then i else i - 1) == i;
    }
  }

  /** killProcess takes the process away at once, ... */
  lemma KillRemoves(s: Sched, pid: nat)
    requires Inv(s) && Allowed(s, Kill(pid)) && Find(s, pid) < |s.ring| && s.ring[0].task.pid != pid
    requires Find(s, s.ring[0].task.parent) < |s.ring|
    ensures forall i :: 0 <= i < |Step(s, Kill(pid)).ring| ==>
              Step(s, Kill(pid)).ring[i].task.id != s.ring[Find(s, pid)].task.id
  {
    var k := Find(s, pid);
    FindAgain(s, SetState(s, k, KILLED), s.ring[0].task.parent);
    RemovedIsGone(SetState(s, k, KILLED), k);
  }

  /** ... and of the current one the next tick. */
  lemma KilledIsBuried(s: Sched, sp: nat)
    requires Inv(s) && s.disables == 0 && |s.ring| > 1 && Find(s, s.ring[0].task.parent) < |s.ring|
    requires Allowed(Step(s, KillCurrent), Tick(sp))
    ensures var t := Schedule(Step(s, KillCurrent), sp);
            forall i :: 0 <= i < |t.ring| ==> t.ring[i].task.id != s.ring[0].task.id
  {
    StepKeeps(s, KillCurrent);
    var k := Step(s, KillCurrent);
    var d := CountedKeeps(k, sp);
    FindAgain(s, d, s.ring[0].task.parent);
    RemovedIsGone(d, 0);
    var c := Candidates(d);
    var t := Schedule(k, sp);
    forall i: nat | i < |t.ring| ensures t.ring[i].task.id != s.ring[0].task.id {
      RotatedAt(c.ring, FirstRunnable(c.ring), i);
    }
  }

  /** The parent of the current process becomes READY with the last child that is taken off it, and otherwise
      stays as it was. */
  lemma LastChildWakes(s: Sched, k: nat)
    requires s.root < |s.ring| && k < |s.ring| && 1 <= s.ring[k].task.children < MODULUS
    ensures var t := LoseChild(s, k).ring[k].task;
            && t.children == s.ring[k].task.children - 1
            && t.state == if s.ring[k].task.children == 1 then READY else s.ring[k].task.state
    ensures forall i :: 0 <= i < |s.ring| && i != k ==> LoseChild(s, k).ring[i] == s.ring[i]
  {
  }

  // ---- Disabling

  function Times(e: Event, k: nat): (events: seq<Event>)
    ensures |events| == k && forall i :: 0 <= i < k ==> events[i] == e
  {
    seq(k, i => e)
  }

  lemma {:induction false} DisabledTimes(s: Sched, k: nat)
    requires s.root < |s.ring|
    ensures AllAllowed(s, Times(Disable, k)) && After(s, Times(Disable, k)) == s.(disables := s.disables + k)
    decreases k
  {
    if k > 0 {
      assert Times(Disable, k)[1..] == Times(Disable, k - 1);
      DisabledTimes(s.(disables := s.disables + 1), k - 1);
    }
  }

  lemma {:induction false} EnabledTimes(s: Sched, k: nat)
    requires s.root < |s.ring|
    ensures AllAllowed(s, Times(Enable, k))
    ensures After(s, Times(Enable, k)) == s.(disables := if k <= s.disables then s.disables - k else 0)
    decreases k
  {
    if k > 0 {
      assert Times(Enable, k)[1..] == Times(Enable, k - 1);
      EnabledTimes(Step(s, Enable), k - 1);
    }
  }

  /** Disabling nests: as many calls of enableScheduler as of disableScheduler, and no fewer, let it go on. */
  lemma DisablingNests(s: Sched, k: nat, j: nat)
    requires s.root < |s.ring| && s.disables == 0
    ensures AllAllowed(s, Times(Disable, k))
    ensures var t := After(s, Times(Disable, k));
            && t.root < |t.ring| && AllAllowed(t, Times(Enable, j))
            && (j >= k ==> After(t, Times(Enable, j)) == s)
            && (j < k ==> After(t, Times(Enable, j)).disables > 0)
  {
    DisabledTimes(s, k);
    EnabledTimes(s.(disables := k), j);
  }
}
