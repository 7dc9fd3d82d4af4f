/** Whether the child counts of the processes are right: removeNode takes a child off the parent of the
    current process, whichever process is removed. */
module RoundRobinChildren {
  import opened Arithmetic
  import opened RoundRobin
  import opened RoundRobinLaws

  function Tasks(ring: seq<Slot>): (ts: seq<Task>)
    ensures |ts| == |ring| && forall i :: 0 <= i < |ts| ==> ts[i] == ring[i].task
  {
    seq(|ring|, i requires 0 <= i < |ring| => ring[i].task)
  }

  /** How many of the processes have a parent of this pid. */
  function Count(ts: seq<Task>, pid: nat): nat {
    if ts == [] then 0 else Count(ts[1..], pid) + if ts[0].parent == pid then 1 else 0
  }

  /** The idle process has its own pid for its parent's, but is not its own child. */
  function Own(t: Task): nat { if t.parent == t.pid then 1 else 0 }

  predicate Right(ts: seq<Task>, t: Task) { t.children == (Count(ts, t.pid) - Own(t)) % MODULUS }

  ghost predicate AllRight(ts: seq<Task>) { forall i :: 0 <= i < |ts| ==> Right(ts, ts[i]) }

  /** Every process counts exactly the processes of which it is the parent. */
  ghost predicate CountsRight(s: Sched) { AllRight(Tasks(s.ring)) }

  ghost predicate PidsDiffer(ts: seq<Task>) {
    forall i, j :: 0 <= i < j < |ts| ==> ts[i].pid != ts[j].pid
  }

  lemma {:induction false} CountConcat(a: seq<Task>, b: seq<Task>, pid: nat)
    ensures Count(a + b, pid) == Count(a, pid) + Count(b, pid)
  {
    if a == [] {
      assert a + b == b;
    } else {
      assert (a + b)[1..] == a[1..] + b;
      CountConcat(a[1..], b, pid);
    }
  }

  /** What a task is to others. */
  predicate SameKin(t: Task, u: Task) { t.pid == u.pid && t.parent == u.parent }

  lemma {:induction false} CountKin(a: seq<Task>, b: seq<Task>, pid: nat)
    requires |a| == |b| && forall i :: 0 <= i < |a| ==> SameKin(a[i], b[i])
    ensures Count(a, pid) == Count(b, pid)
  {
    if a != [] {
      assert SameKin(a[0], b[0]);
      CountKin(a[1..], b[1..], pid);
    }
  }

  // ---- Removing one

  function Without(ts: seq<Task>, k: nat): (us: seq<Task>)
    requires k < |ts|
  {
    ts[..k] + ts[k + 1..]
  }

  lemma CountWithout(ts: seq<Task>, k: nat, pid: nat)
    requires k < |ts|
    ensures Count(Without(ts, k), pid) == Count(ts, pid) - if ts[k].parent == pid then 1 else 0
  {
    assert ts == ts[..k] + ([ts[k]] + ts[k + 1..]);
    CountConcat(ts[..k], [ts[k]] + ts[k + 1..], pid);
    CountConcat(ts[..k], ts[k + 1..], pid);
    assert ([ts[k]] + ts[k + 1..])[1..] == ts[k + 1..];
  }

  lemma OneLess(x: int, a: nat, b: nat, was: nat, now: nat)
    requires a <= 1 && b <= 1 && was == x % MODULUS && now == (was - a) % MODULUS
    ensures now == (x - b) % MODULUS <==> a == b
  {
  }

  lemma LoseOne(c: nat)
    requires c < MODULUS
    ensures (c + MODULUS - 1) % MODULUS == (c - 1) % MODULUS && (c - 0) % MODULUS == c
  {
  }

  function OneIf(b: bool): nat { if b then 1 else 0 }

  lemma WithoutTotal(ts: seq<Task>, us: seq<Task>, k: nat, i: nat)
    requires k < |ts| && i < |ts| && |us| == |ts|
    requires SameKin(us[i], ts[i]) && Count(us, ts[i].pid) == Count(ts, ts[i].pid)
    requires us[k].parent == ts[k].parent
    ensures Count(Without(us, k), us[i].pid) - Own(us[i])
            == Count(ts, ts[i].pid) - Own(ts[i]) - OneIf(ts[k].parent == ts[i].pid)
  {
    CountWithout(us, k, ts[i].pid);
  }

  lemma RightIs(ts: seq<Task>, t: Task, x: int)
    requires Count(ts, t.pid) - Own(t) == x
    ensures Right(ts, t) <==> t.children == x % MODULUS
  {
  }

  /** With one taken off the count of the process at `p` and the process at `k` gone, another is counted
      right if and only if it is at `p` exactly if it is the parent of the one that is gone. */
  lemma RightWithout(ts: seq<Task>, us: seq<Task>, k: nat, p: nat, i: nat)
    requires k < |ts| && p < |ts| && i < |ts| && i != k && AllRight(ts)
    requires |us| == |ts| && SameKin(us[i], ts[i]) && Count(us, ts[i].pid) == Count(ts, ts[i].pid)
    requires us[k].parent == ts[k].parent && us[i].children == (ts[i].children - OneIf(i == p)) % MODULUS
    ensures Right(Without(us, k), us[i]) <==> (i == p <==> ts[k].parent == ts[i].pid)
  {
    var x, a, b := Count(ts, ts[i].pid) - Own(ts[i]), OneIf(i == p), OneIf(ts[k].parent == ts[i].pid);
    WithoutTotal(ts, us, k, i);
    RightIs(ts, ts[i], x);
    RightIs(Without(us, k), us[i], x - b);
    OneLess(x, a, b, ts[i].children, us[i].children);
  }

  lemma RightsWithout(us: seq<Task>, k: nat)
    requires k < |us|
    ensures AllRight(Without(us, k)) <==> forall i :: 0 <= i < |us| && i != k ==> Right(Without(us, k), us[i])
  {
    var vs := Without(us, k);
    assert forall i :: 0 <= i < |vs| ==> vs[i] == us[Kept(k, i)];
    forall i | 0 <= i < |us| && i != k && AllRight(vs) ensures Right(vs, us[i]) {
      assert vs[if i < k then i else i - 1] == us[i];
    }
  }

  /** The process that a search by pid finds, unless it is the one at `k`. */
  function Other(s: Sched, k: nat, pid: nat): nat
    requires s.root < |s.ring|
  {
    if Find(s, pid) == k then |s.ring| else Find(s, pid)
  }

  /** The one at `k` is removed, and its parent is not the one that loses a child. */
  predicate Stray(s: Sched, k: nat)
    requires s.root < |s.ring| && k < |s.ring|
  {
    && Find(s, s.ring[0].task.parent) < |s.ring|
    && Other(s, k, s.ring[0].task.parent) != Other(s, k, s.ring[k].task.parent)
  }

  lemma FindIsOnly(s: Sched, pid: nat, i: nat)
    requires s.root < |s.ring| && i < |s.ring| && PidsDiffer(Tasks(s.ring))
    ensures s.ring[i].task.pid == pid <==> i == Find(s, pid)
  {
    var d := FindIsFirst(s, pid);
    var ts := Tasks(s.ring);
    var f := Find(s, pid);
    if f < |ts| && f != i {
      assert ts[f].pid != ts[i].pid;
    }
  }

  lemma WordChildren(s: Sched, i: nat)
    requires CountsRight(s) && i < |s.ring|
    ensures s.ring[i].task.children < MODULUS
  {
    assert Right(Tasks(s.ring), Tasks(s.ring)[i]);
  }

  lemma LostTasks(s: Sched, p: nat) returns (us: seq<Task>)
    requires p < |s.ring| && CountsRight(s)
    ensures us == Tasks(LoseChild(s, p).ring)
    ensures |us| == |s.ring| && forall i :: 0 <= i < |us| ==> SameKin(us[i], s.ring[i].task)
    ensures forall i :: 0 <= i < |us| ==> us[i].children == (s.ring[i].task.children - OneIf(i == p)) % MODULUS
  {
    us := Tasks(LoseChild(s, p).ring);
    forall i: nat | i < |us| ensures us[i].children == (s.ring[i].task.children - OneIf(i == p)) % MODULUS {
      WordChildren(s, i);
      LoseOne(s.ring[i].task.children);
    }
  }

  lemma DroppedTasks(s: Sched, k: nat)
    requires k + 1 < |s.ring|
    ensures Tasks(DropAt(s, k).ring) == Without(Tasks(s.ring), k)
  {
    var t, vs := Tasks(DropAt(s, k).ring), Without(Tasks(s.ring), k);
    forall i: nat | i < |vs| ensures vs[i] == t[i] {
      DroppedAt(s, k, i);
    }
  }

  lemma RemovedRight(s: Sched, k: nat, p: nat, us: seq<Task>, i: nat)
    requires s.root < |s.ring| && k < |s.ring| && p < |s.ring| && i < |s.ring| && i != k
    requires CountsRight(s) && PidsDiffer(Tasks(s.ring))
    requires |us| == |s.ring| && forall j :: 0 <= j < |us| ==> SameKin(us[j], s.ring[j].task)
    requires us[i].children == (s.ring[i].task.children - OneIf(i == p)) % MODULUS
    ensures Right(Without(us, k), us[i]) <==> (i == p <==> i == Find(s, s.ring[k].task.parent))
  {
    var ts := Tasks(s.ring);
    CountKin(us, ts, ts[i].pid);
    assert SameKin(us[k], ts[k]) && SameKin(us[i], ts[i]);
    RightWithout(ts, us, k, p, i);
    FindIsOnly(s, ts[k].parent, i);
  }

  predicate Both(i: nat, p: nat, v: nat) { i == p <==> i == v }

  /** Apart from `k` the same place is meant by `p` and by `v`. */
  ghost predicate Agree(n: nat, k: nat, p: nat, v: nat) { forall i: nat :: i < n && i != k ==> Both(i, p, v) }

  lemma StrayIsDisagreement(s: Sched, k: nat)
    requires s.root < |s.ring| && k < |s.ring| && Find(s, s.ring[0].task.parent) < |s.ring|
    ensures Stray(s, k) <==> !Agree(|s.ring|, k, Find(s, s.ring[0].task.parent), Find(s, s.ring[k].task.parent))
  {
    var p, v := Find(s, s.ring[0].task.parent), Find(s, s.ring[k].task.parent);
    if Stray(s, k) {
      var i := if p != k then p else v;
      assert i < |s.ring| && i != k && !Both(i, p, v);
    } else {
      forall i: nat | i < |s.ring| && i != k ensures Both(i, p, v) {
      }
    }
  }

  lemma RemovedExactly(s: Sched, k: nat, p: nat, us: seq<Task>)
    requires s.root < |s.ring| && k < |s.ring| && p < |s.ring| && CountsRight(s) && PidsDiffer(Tasks(s.ring))
    requires |us| == |s.ring| && forall i :: 0 <= i < |us| ==> SameKin(us[i], s.ring[i].task)
    requires forall i :: 0 <= i < |us| ==> us[i].children == (s.ring[i].task.children - OneIf(i == p)) % MODULUS
    ensures AllRight(Without(us, k)) <==> Agree(|s.ring|, k, p, Find(s, s.ring[k].task.parent))
  {
    forall i: nat | i < |us| && i != k
      ensures Right(Without(us, k), us[i]) <==> Both(i, p, Find(s, s.ring[k].task.parent))
    {
      RemovedRight(s, k, p, us, i);
    }
    RightsWithout(us, k);
  }

  /** After a process is removed every other one is counted right, if and only if the child was taken off its
      parent and nobody else. */
  lemma RemoveCounts(s: Sched, k: nat)
    requires s.root < |s.ring| && k + 1 < |s.ring| && CountsRight(s) && PidsDiffer(Tasks(s.ring))
    ensures CountsRight(Remove(s, k)) <==> !Stray(s, k)
  {
    var p := Find(s, s.ring[0].task.parent);
    if p < |s.ring| {
      var us := LostTasks(s, p);
      DroppedTasks(LoseChild(s, p), k);
      RemovedExactly(s, k, p, us);
      StrayIsDisagreement(s, k);
    }
  }

  lemma RemovePidsDiffer(s: Sched, k: nat)
    requires s.root < |s.ring| && k + 1 < |s.ring| && PidsDiffer(Tasks(s.ring))
    ensures PidsDiffer(Tasks(Remove(s, k).ring))
  {
    var p := Find(s, s.ring[0].task.parent);
    if p < |s.ring| {
      var ts, us := Tasks(s.ring), Tasks(Remove(s, k).ring);
      forall i, j | 0 <= i < j < |us| ensures us[i].pid != us[j].pid {
        DroppedAt(LoseChild(s, p), k, i);
        DroppedAt(LoseChild(s, p), k, j);
        assert ts[Kept(k, i)].pid != ts[Kept(k, j)].pid;
      }
    }
  }

  // ---- Other events

  /** The same processes, of the same kin and with the same counts, in any order of the ring. */
  ghost predicate Turns(ts: seq<Task>, us: seq<Task>, k: nat) {
    && k <= |ts| && |us| == |ts|
    && forall i :: 0 <= i < |us| ==>
         var t := ts[if i < |ts| - k then k + i else k + i - |ts|]; SameKin(us[i], t) && us[i].children == t.children
  }

  lemma TurnsCount(ts: seq<Task>, us: seq<Task>, k: nat, pid: nat)
    requires Turns(ts, us, k)
    ensures Count(us, pid) == Count(ts, pid)
  {
    var vs := ts[k..] + ts[..k];
    assert ts == ts[..k] + ts[k..];
    CountConcat(ts[..k], ts[k..], pid);
    CountConcat(ts[k..], ts[..k], pid);
    CountKin(us, vs, pid);
  }

  lemma TurnsKeep(ts: seq<Task>, us: seq<Task>, k: nat)
    requires Turns(ts, us, k)
    ensures AllRight(ts) ==> AllRight(us)
    ensures PidsDiffer(ts) ==> PidsDiffer(us)
  {
    forall i: nat | i < |us| && AllRight(ts) ensures Right(us, us[i]) {
      var j := if i < |ts| - k then k + i else k + i - |ts|;
      assert Right(ts, ts[j]);
      TurnsCount(ts, us, k, us[i].pid);
    }
    forall i, j | 0 <= i < j < |us| && PidsDiffer(ts) ensures us[i].pid != us[j].pid {
      var a, b := if i < |ts| - k then k + i else k + i - |ts|, if j < |ts| - k then k + j else k + j - |ts|;
      assert a != b && (a < b ==> ts[a].pid != ts[b].pid) && (b < a ==> ts[b].pid != ts[a].pid);
    }
  }

  /** Only states, quanta and stack pointers differ, at most. */
  ghost predicate SamePlaces(s: Sched, t: Sched) {
    s.root == t.root < |s.ring| && Turns(Tasks(s.ring), Tasks(t.ring), 0)
  }

  lemma FindSame(s: Sched, t: Sched, pid: nat)
    requires SamePlaces(s, t) && PidsDiffer(Tasks(s.ring))
    ensures Find(t, pid) == Find(s, pid)
  {
    TurnsKeep(Tasks(s.ring), Tasks(t.ring), 0);
    var d := FindIsFirst(s, pid);
    var e := FindIsFirst(t, pid);
    assert forall i :: 0 <= i < |s.ring| ==> SameKin(Tasks(t.ring)[i], Tasks(s.ring)[i]);
    if Find(s, pid) < |s.ring| {
      FindIsOnly(t, pid, Find(s, pid));
    }
  }

  lemma StraySame(s: Sched, t: Sched, k: nat)
    requires SamePlaces(s, t) && PidsDiffer(Tasks(s.ring)) && k < |s.ring|
    ensures Stray(t, k) <==> Stray(s, k)
  {
    assert SameKin(Tasks(t.ring)[0], Tasks(s.ring)[0]) && SameKin(Tasks(t.ring)[k], Tasks(s.ring)[k]);
    FindSame(s, t, s.ring[0].task.parent);
    FindSame(s, t, s.ring[k].task.parent);
  }

  ghost predicate Keeps(s: Sched, t: Sched) {
    (CountsRight(s) ==> CountsRight(t)) && (PidsDiffer(Tasks(s.ring)) ==> PidsDiffer(Tasks(t.ring)))
  }

  lemma SamePlacesKeep(s: Sched, t: Sched)
    requires SamePlaces(s, t)
    ensures Keeps(s, t)
  {
    TurnsKeep(Tasks(s.ring), Tasks(t.ring), 0);
  }

  lemma TurnedCounts(s: Sched, k: nat)
    requires k <= |s.ring|
    ensures Keeps(s, Turned(s, k))
  {
    var ts, us := Tasks(s.ring), Tasks(Turned(s, k).ring);
    forall i: nat | i < |us| ensures us[i] == ts[if i < |ts| - k then k + i else k + i - |ts|] {
      RotatedAt(s.ring, k, i);
    }
    TurnsKeep(ts, us, k);
  }

  lemma RunNextCounts(s: Sched)
    requires s.root < |s.ring| && FirstRunnable(s.ring) < |s.ring|
    ensures Keeps(s, RunNext(s))
  {
    var t := Turned(s, FirstRunnable(s.ring));
    TurnedCounts(s, FirstRunnable(s.ring));
    SamePlacesKeep(t.(root := 0), RunNext(s).(root := 0));
  }

  /** A process that the tick removes was the current one, so its own parent loses the child. */
  lemma CandidatesCount(s: Sched)
    requires s.root < |s.ring| && |s.ring| > 1 && CountsRight(s) && PidsDiffer(Tasks(s.ring))
    ensures Keeps(s, Candidates(s))
  {
    if s.ring[0].task.state.KILLED? {
      RemoveCounts(s, 0);
      RemovePidsDiffer(s, 0);
    } else if s.ring[0].task.state.BLOCKED? {
      TurnedCounts(s, 1);
    } else {
      SamePlacesKeep(s, SetState(s.(force := false), 0, READY));
      TurnedCounts(SetState(s.(force := false), 0, READY), 1);
    }
  }

  lemma TickCounts(s: Sched, sp: nat)
    requires Inv(s) && Allowed(s, Tick(sp)) && CountsRight(s) && PidsDiffer(Tasks(s.ring))
    ensures Keeps(s, Schedule(s, sp))
  {
    if s.disables == 0 && |s.ring| > 1 {
      var c := CountedKeeps(s, sp);
      SamePlacesKeep(s, c);
      if Switches(c) {
        CandidatesCount(c);
        var t := CandidatesKeep(c);
        RunNextCounts(t);
      }
    }
  }

  /** A process that is added is a child of the current one and of no other, and has none. */
  predicate Fresh(s: Sched, e: Event)
    requires |s.ring| > 0
  {
    e.Add? ==>
      && e.task.children == 0 && e.task.parent == s.ring[0].task.pid
      && forall i :: 0 <= i < |s.ring| ==> s.ring[i].task.pid != e.task.pid && s.ring[i].task.parent != e.task.pid
  }

  lemma {:induction false} NoneCounted(ts: seq<Task>, pid: nat)
    requires forall i :: 0 <= i < |ts| ==> ts[i].parent != pid
    ensures Count(ts, pid) == 0
  {
    if ts != [] {
      NoneCounted(ts[1..], pid);
    }
  }

  lemma AddedCount(ts: seq<Task>, us: seq<Task>, task: Task, pid: nat)
    requires ts != [] && |us| == |ts| + 1 && SameKin(us[0], ts[0]) && us[1] == task && us[2..] == ts[1..]
    ensures Count(us, pid) == Count(ts, pid) + if task.parent == pid then 1 else 0
  {
    assert us[1..][0] == task && us[1..][1..] == ts[1..];
  }

  lemma AddedRight(ts: seq<Task>, us: seq<Task>, task: Task, j: nat, u: Task)
    requires ts != [] && |us| == |ts| + 1 && SameKin(us[0], ts[0]) && us[1] == task && us[2..] == ts[1..]
    requires AllRight(ts) && PidsDiffer(ts) && task.parent == ts[0].pid && j < |ts| && SameKin(u, ts[j])
    requires u.children == if j == 0 then (ts[0].children + 1) % MODULUS else ts[j].children
    ensures Right(us, u)
  {
    AddedCount(ts, us, task, u.pid);
    assert Right(ts, ts[j]);
    if j == 0 {
      WrapAdd(Count(ts, u.pid) - Own(u), 1);
    } else {
      assert ts[0].pid != ts[j].pid;
    }
  }

  lemma AddCounts(s: Sched, task: Task)
    requires Inv(s) && Allowed(s, Add(task)) && Fresh(s, Add(task)) && CountsRight(s) && PidsDiffer(Tasks(s.ring))
    ensures Keeps(s, Step(s, Add(task)))
  {
    var t := InsertedKeeps(s, task);
    var ts, us := Tasks(s.ring), Tasks(t.ring);
    assert us[2..] == ts[1..];
    forall i: nat | i < |us| ensures Right(us, us[i]) {
      if i == 1 {
        AddedCount(ts, us, task, task.pid);
        NoneCounted(ts, task.pid);
      } else {
        AddedRight(ts, us, task, if i == 0 then 0 else i - 1, us[i]);
      }
    }
    forall i, j | 0 <= i < j < |us| ensures us[i].pid != us[j].pid {
      assert i != 1 && j != 1 ==> ts[if i == 0 then 0 else i - 1].pid != ts[j - 1].pid;
    }
  }

  /** Another process than the current one is killed, and the child is not taken off its parent. */
  predicate Miscounts(s: Sched, e: Event)
    requires s.root < |s.ring|
  {
    e.Kill? && s.ring[0].task.pid != e.pid && Find(s, e.pid) < |s.ring| && Stray(s, Find(s, e.pid))
  }

  /** An event leaves every process counting exactly its children, if and only if it does not kill another
      process whose parent is not that of the current one. */
  lemma StepCounts(s: Sched, e: Event)
    requires Inv(s) && Allowed(s, e) && Fresh(s, e) && CountsRight(s) && PidsDiffer(Tasks(s.ring))
    ensures CountsRight(Step(s, e)) <==> !Miscounts(s, e)
    ensures PidsDiffer(Tasks(Step(s, e).ring))
  {
    match e {
      case Tick(sp) => TickCounts(s, sp);
      case Add(task) => AddCounts(s, task);
      case Kill(pid) => KillCounts(s, pid);
      case _ => EditCounts(s, e);
    }
  }

  lemma EditCounts(s: Sched, e: Event)
    requires Inv(s) && Allowed(s, e) && !e.Tick? && !e.Add? && !e.Kill?
    ensures Keeps(s, Step(s, e))
  {
    assert SamePlaces(s, Step(s, e));
    SamePlacesKeep(s, Step(s, e));
  }

  lemma KillCounts(s: Sched, pid: nat)
    requires Inv(s) && Allowed(s, Kill(pid)) && CountsRight(s) && PidsDiffer(Tasks(s.ring))
    ensures CountsRight(Step(s, Kill(pid))) <==> !Miscounts(s, Kill(pid))
    ensures PidsDiffer(Tasks(Step(s, Kill(pid)).ring))
  {
    var k := Find(s, pid);
    if s.ring[0].task.pid == pid {
      SamePlacesKeep(s, SetState(s, 0, KILLED));
    } else if k < |s.ring| {
      var t := SetState(s, k, KILLED);
      SamePlacesKeep(s, t);
      StraySame(s, t, k);
      RemoveCounts(t, k);
      RemovePidsDiffer(t, k);
    }
  }

  // ---- Runs

  ghost predicate AllFresh(s: Sched, events: seq<Event>)
    requires s.root < |s.ring| && AllAllowed(s, events)
    decreases |events|
  {
    events == [] || (Fresh(s, events[0]) && AllFresh(Step(s, events[0]), events[1..]))
  }

  ghost predicate AlwaysRight(s: Sched, events: seq<Event>)
    requires s.root < |s.ring| && AllAllowed(s, events)
    decreases |events|
  {
    CountsRight(s) && (events == [] || AlwaysRight(Step(s, events[0]), events[1..]))
  }

  predicate EverMiscounts(s: Sched, events: seq<Event>)
    requires s.root < |s.ring| && AllAllowed(s, events)
    decreases |events|
  {
    events != [] && (Miscounts(s, events[0]) || EverMiscounts(Step(s, events[0]), events[1..]))
  }

  lemma {:induction false} RunCounts(s: Sched, events: seq<Event>)
    requires Inv(s) && AllAllowed(s, events) && AllFresh(s, events) && CountsRight(s) && PidsDiffer(Tasks(s.ring))
    ensures AlwaysRight(s, events) <==> !EverMiscounts(s, events)
    decreases |events|
  {
    if events != [] {
      StepKeeps(s, events[0]);
      StepCounts(s, events[0]);
      if !Miscounts(s, events[0]) {
        RunCounts(Step(s, events[0]), events[1..]);
      }
    }
  }

  /** From the start of the kernel, over every run in which pids are given out once: the child counts are
      always right, if and only if no kill takes a child off another than its parent. */
  lemma ChildrenCounted(idle: Task, events: seq<Event>)
    requires idle.pid == 0 && idle.parent == 0 && idle.children == 0 && idle.priority < MODULUS
    requires AllAllowed(Started(idle), events) && AllFresh(Started(idle), events)
    ensures AlwaysRight(Started(idle), events) <==> !EverMiscounts(Started(idle), events)
  {
    StartedInv(idle);
    var ts := Tasks(Started(idle).ring);
    assert Count(ts, 0) == 1 && Right(ts, ts[0]);
    RunCounts(Started(idle), events);
  }

  /** A process, other than the idle one, that kills a child of its own takes it off its own parent. */
  lemma OwnChildMiscounted(s: Sched, pid: nat)
    requires Inv(s) && PidsDiffer(Tasks(s.ring)) && Find(s, pid) < |s.ring| && pid != s.ring[0].task.pid
    requires s.ring[Find(s, pid)].task.parent == s.ring[0].task.pid
    requires s.ring[0].task.parent != s.ring[0].task.pid && Find(s, s.ring[0].task.parent) < |s.ring|
    ensures Miscounts(s, Kill(pid))
  {
    FindIsOnly(s, s.ring[0].task.pid, 0);
  }
}
