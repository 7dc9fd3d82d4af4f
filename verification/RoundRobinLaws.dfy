/** What the scheduler guarantees over whole runs. */
module RoundRobinLaws {
  import opened Arithmetic
  import opened RoundRobin

  // ---- The ring, and who may be RUNNING

  /** Searches begin at the idle process, and nobody but the current process is RUNNING. */
  ghost predicate Inv(s: Sched) {
    && Valid(s) && s.ring[s.root].task.pid == 0
    && forall i :: 0 < i < |s.ring| ==> !s.ring[i].task.state.RUNNING?
  }

  lemma RotatedAt<T>(ring: seq<T>, k: nat, i: nat)
    requires k <= |ring| && i < |ring|
    ensures Rotated(ring, k)[i] == if i < |ring| - k then ring[k + i] else ring[k + i - |ring|]
  {
  }

  /** The position `d` places after the root. */
  function Beyond(s: Sched, d: nat): nat
    requires s.root < |s.ring| && d < |s.ring|
  {
    if s.root + d < |s.ring| then s.root + d else s.root + d - |s.ring|
  }

  /** A search finds the process with the pid that is the first from the root on, and fails only if no
      process has it. */
  lemma FindIsFirst(s: Sched, pid: nat) returns (d: nat)
    requires s.root < |s.ring|
    ensures Find(s, pid) == |s.ring| <==> forall i :: 0 <= i < |s.ring| ==> s.ring[i].task.pid != pid
    ensures Find(s, pid) < |s.ring| ==> d < |s.ring| && Find(s, pid) == Beyond(s, d)
    ensures Find(s, pid) < |s.ring| ==> forall e :: 0 <= e < d ==> s.ring[Beyond(s, e)].task.pid != pid
  {
    var r := Rotated(s.ring, s.root);
    d := FirstPid(r, pid);
    forall e: nat | e < |s.ring| ensures r[e] == s.ring[Beyond(s, e)] {
      RotatedAt(s.ring, s.root, e);
    }
    if d == |s.ring| {
      forall i: nat | i < |s.ring| ensures s.ring[i].task.pid != pid {
        var e := if i >= s.root then i - s.root else i + |s.ring| - s.root;
        assert Beyond(s, e) == i && r[e].task.pid != pid;
      }
    }
  }

  lemma TurnedKeeps(s: Sched, k: nat)
    requires Valid(s) && s.ring[s.root].task.pid == 0 && k <= |s.ring|
    ensures Valid(Turned(s, k)) && Turned(s, k).ring[Turned(s, k).root].task.pid == 0
  {
  }

  ghost predicate NoneRuns(s: Sched) {
    forall i :: 0 <= i < |s.ring| ==> !s.ring[i].task.state.RUNNING?
  }

  /** Searches begin at the idle process. */
  ghost predicate Rooted(s: Sched) { Valid(s) && s.ring[s.root].task.pid == 0 }

  lemma RunNextKeeps(s: Sched) returns (t: Sched)
    requires Rooted(s) && NoneRuns(s) && FirstRunnable(s.ring) < |s.ring|
    ensures t == RunNext(s) && Inv(t) && t.ring[0].task.state.RUNNING?
  {
    var k := FirstRunnable(s.ring);
    TurnedKeeps(s, k);
    var u := Turned(s, k);
    forall i: nat | i < |s.ring| ensures !u.ring[i].task.state.RUNNING? {
      RotatedAt(s.ring, k, i);
    }
    t := RunNext(s);
  }

  lemma LoseChildKeeps(s: Sched, k: nat) returns (t: Sched)
    requires Inv(s) && k < |s.ring|
    ensures t == LoseChild(s, k) && Inv(t) && |t.ring| == |s.ring| && t.root == s.root
    ensures forall i :: 0 <= i < |s.ring| ==> t.ring[i].task.pid == s.ring[i].task.pid
    ensures NoneRuns(s) ==> NoneRuns(t)
  {
    t := LoseChild(s, k);
  }

  lemma DroppedAt(s: Sched, k: nat, i: nat)
    requires k + 1 < |s.ring| && i + 1 < |s.ring|
    ensures |DropAt(s, k).ring| == |s.ring| - 1 && DropAt(s, k).ring[i].task == s.ring[Kept(k, i)].task
    ensures DropAt(s, k).ring[i].quantums == if i <= k then s.ring[i].quantums else s.ring[i + 1].quantums
  {
  }

  lemma DropAtKeeps(s: Sched, k: nat) returns (t: Sched)
    requires Inv(s) && k + 1 < |s.ring| && s.root != k
    ensures t == DropAt(s, k) && Inv(t) && (NoneRuns(s) ==> NoneRuns(t))
  {
    t := DropAt(s, k);
    var n := |s.ring| - 1;
    forall i: nat | i < n
      ensures t.ring[i].task == s.ring[Kept(k, i)].task && t.ring[i].quantums < MODULUS
    {
      DroppedAt(s, k, i);
    }
    forall i, j | 0 <= i < j < n ensures t.ring[i].task.id != t.ring[j].task.id {
      assert s.ring[Kept(k, i)].task.id != s.ring[Kept(k, j)].task.id;
    }
    assert t.root == if s.ring[Kept(k, k)].task.pid == 0 then k else if s.root <= k then s.root else s.root - 1;
    assert t.ring[t.root].task == s.ring[Kept(k, t.root)].task;
  }

  lemma RemoveKeeps(s: Sched, k: nat) returns (t: Sched)
    requires Inv(s) && k + 1 < |s.ring| && s.root != k
    ensures t == Remove(s, k) && Inv(t) && (NoneRuns(s) ==> NoneRuns(t))
  {
    var parent := Find(s, s.ring[0].task.parent);
    if parent < |s.ring| {
      t := LoseChildKeeps(s, parent);
      t := DropAtKeeps(t, k);
    } else {
      t := s;
    }
  }

  lemma CountedKeeps(s: Sched, sp: nat) returns (t: Sched)
    requires Inv(s)
    ensures t == Counted(s, sp) && Inv(t) && t.ring[0].task.state == s.ring[0].task.state && |t.ring| == |s.ring|
    ensures t.root == s.root && t.disables == s.disables
  {
    t := Counted(s, sp);
  }

  lemma CandidatesKeep(s: Sched) returns (t: Sched)
    requires Inv(s) && |s.ring| > 1 && Switches(s) && (s.ring[0].task.state.KILLED? ==> s.root != 0)
    ensures t == Candidates(s) && Rooted(t) && NoneRuns(t)
  {
    if s.ring[0].task.state.KILLED? {
      t := RemoveKeeps(s, 0);
    } else {
      var u := if s.ring[0].task.state.BLOCKED? then s else SetState(s.(force := false), 0, READY);
      assert Inv(u) && NoneRuns(u);
      TurnedKeeps(u, 1);
      t := Turned(u, 1);
      forall i: nat | i < |t.ring| ensures !t.ring[i].task.state.RUNNING? {
        RotatedAt(u.ring, 1, i);
      }
    }
  }

  lemma TickKeeps(s: Sched, sp: nat)
    requires Inv(s) && Allowed(s, Tick(sp))
    ensures Inv(Schedule(s, sp))
    ensures s.disables == 0 && |s.ring| > 1 && Switches(Counted(s, sp)) ==> Schedule(s, sp).ring[0].task.state.RUNNING?
  {
    if s.disables == 0 && |s.ring| > 1 {
      var t := CountedKeeps(s, sp);
      if Switches(t) {
        t := CandidatesKeep(t);
        t := RunNextKeeps(t);
      }
    }
  }

  lemma InsertedKeeps(s: Sched, task: Task) returns (t: Sched)
    requires Inv(s) && Allowed(s, Add(task))
    ensures t == Inserted(Bear(s), task) && Inv(t)
    ensures |t.ring| == |s.ring| + 1 && t.ring[0] == Bear(s).ring[0] && t.ring[1] == Slot(task, task.priority)
    ensures forall i :: 2 <= i < |t.ring| ==> t.ring[i] == s.ring[i - 1]
  {
    t := Inserted(Bear(s), task);
  }

  lemma EditKeeps(s: Sched, k: nat, task: Task)
    requires Inv(s) && k < |s.ring| && task.id == s.ring[k].task.id && task.pid == s.ring[k].task.pid
    requires task.priority < MODULUS && (k > 0 ==> !task.state.RUNNING?)
    ensures Inv(Edit(s, k, task))
  {
  }

  /** Every event keeps the ring: it stays one cycle that the idle process begins for searches, and only
      the current process can be RUNNING. */
  lemma StepKeeps(s: Sched, e: Event)
    requires Inv(s) && Allowed(s, e)
    ensures Inv(Step(s, e))
  {
    match e {
      case Tick(sp) => TickKeeps(s, sp);
      case Disable =>
      case Enable =>
      case Force =>
      case Add(task) => var t := InsertedKeeps(s, task);
      case SetPriority(pid, priority) =>
        var k := Find(s, pid);
        if k < |s.ring| { EditKeeps(s, k, s.ring[k].task.(priority := priority)); }
      case Block(pid) =>
        var k := Find(s, pid);
        if k < |s.ring| { EditKeeps(s, k, s.ring[k].task.(state := BLOCKED)); }
      case MakeReady(pid) =>
        var k := Find(s, pid);
        if k < |s.ring| { EditKeeps(s, k, s.ring[k].task.(state := READY)); }
      case BlockCurrent => EditKeeps(s, 0, s.ring[0].task.(state := BLOCKED));
      case KillCurrent => EditKeeps(s, 0, s.ring[0].task.(state := KILLED));
      case Kill(pid) =>
        var k := Find(s, pid);
        if s.ring[0].task.pid == pid {
          EditKeeps(s, 0, s.ring[0].task.(state := KILLED));
        } else if k < |s.ring| {
          EditKeeps(s, k, s.ring[k].task.(state := KILLED));
          var t := RemoveKeeps(SetState(s, k, KILLED), k);
        }
    }
  }

  /** What init_scheduler leaves is such a ring, with everybody's stack pointer saved. */
  lemma StartedInv(idle: Task)
    requires idle.pid == 0 && idle.priority < MODULUS
    ensures Inv(Started(idle)) && AllSaved(Started(idle), map[idle.id := idle.sp])
  {
  }

  ghost predicate AllAllowed(s: Sched, events: seq<Event>)
    requires s.root < |s.ring|
    decreases |events|
  {
    events == [] || (Allowed(s, events[0]) && Step(s, events[0]).root < |Step(s, events[0]).ring|
                     && AllAllowed(Step(s, events[0]), events[1..]))
  }

  ghost function After(s: Sched, events: seq<Event>): (t: Sched)
    requires s.root < |s.ring| && AllAllowed(s, events)
    ensures t.root < |t.ring|
    decreases |events|
  {
    if events == [] then s else After(Step(s, events[0]), events[1..])
  }

  lemma {:induction false} RunKeeps(s: Sched, events: seq<Event>)
    requires Inv(s) && AllAllowed(s, events)
    ensures Inv(After(s, events))
    decreases |events|
  {
    if events != [] {
      StepKeeps(s, events[0]);
      RunKeeps(Step(s, events[0]), events[1..]);
    }
  }

  // ---- Every process is resumed where it was interrupted

  /** For each process the stack pointer it had when it last lost the processor. */
  type Ledger = map<nat, nat>

  /** A tick hands over the stack pointer of the current process; a new process brings its own. */
  function Noted(s: Sched, left: Ledger, e: Event): Ledger
    requires |s.ring| > 0
  {
    match e
    case Tick(sp) => if s.disables == 0 then left[s.ring[0].task.id := sp] else left
    case Add(task) => left[task.id := task.sp]
    case _ => left
  }

  /** Everybody who waits has its stack pointer saved. */
  ghost predicate Saved(s: Sched, left: Ledger) {
    forall i :: 0 < i < |s.ring| ==> s.ring[i].task.id in left && left[s.ring[i].task.id] == s.ring[i].task.sp
  }

  /** ... and so does the current process. */
  ghost predicate AllSaved(s: Sched, left: Ledger) {
    forall i :: 0 <= i < |s.ring| ==> s.ring[i].task.id in left && left[s.ring[i].task.id] == s.ring[i].task.sp
  }

  lemma CountedSaves(s: Sched, left: Ledger, sp: nat) returns (t: Sched)
    requires Inv(s) && Saved(s, left)
    ensures t == Counted(s, sp) && AllSaved(t, left[s.ring[0].task.id := sp])
  {
    t := Counted(s, sp);
  }

  lemma RunNextSaved(s: Sched, left: Ledger) returns (t: Sched)
    requires AllSaved(s, left) && FirstRunnable(s.ring) < |s.ring|
    ensures t == RunNext(s) && AllSaved(t, left)
  {
    var k := FirstRunnable(s.ring);
    t := RunNext(s);
    forall i: nat | i < |t.ring|
      ensures t.ring[i].task.id in left && left[t.ring[i].task.id] == t.ring[i].task.sp
    {
      RotatedAt(s.ring, k, i);
    }
  }

  lemma RemoveSaved(s: Sched, k: nat, left: Ledger) returns (t: Sched)
    requires s.root < |s.ring| && k + 1 < |s.ring| && AllSaved(s, left)
    ensures t == Remove(s, k) && AllSaved(t, left)
  {
    t := Remove(s, k);
    var parent := Find(s, s.ring[0].task.parent);
    if parent < |s.ring| {
      var u := LoseChild(s, parent);
      assert AllSaved(u, left);
      assert forall i :: 0 <= i < |t.ring| ==> t.ring[i].task == if i < k then u.ring[i].task else u.ring[i + 1].task;
    }
  }

  lemma CandidatesSaved(s: Sched, left: Ledger) returns (t: Sched)
    requires s.root < |s.ring| && |s.ring| > 1 && AllSaved(s, left)
    ensures t == Candidates(s) && AllSaved(t, left)
  {
    if s.ring[0].task.state.KILLED? {
      t := RemoveSaved(s, 0, left);
    } else {
      t := Candidates(s);
      var u := if s.ring[0].task.state.BLOCKED? then s else SetState(s.(force := false), 0, READY);
      assert AllSaved(u, left);
      forall i: nat | i < |t.ring|
        ensures t.ring[i].task.id in left && left[t.ring[i].task.id] == t.ring[i].task.sp
      {
        RotatedAt(u.ring, 1, i);
      }
    }
  }

  /** schedule returns the stack pointer that the process it resumes had when it last lost the processor,
      and whoever then waits has its own saved. */
  lemma TickResumes(s: Sched, left: Ledger, sp: nat)
    requires Inv(s) && Allowed(s, Tick(sp)) && Saved(s, left) && s.disables == 0
    ensures var t := Schedule(s, sp); var l := Noted(s, left, Tick(sp));
            Saved(t, l) && t.ring[0].task.id in l && Resumed(s, sp) == l[t.ring[0].task.id]
  {
    if |s.ring| > 1 {
      var l := Noted(s, left, Tick(sp));
      var t := CountedSaves(s, left, sp);
      if Switches(t) {
        t := CandidatesSaved(t, l);
        t := RunNextSaved(t, l);
      }
      assert AllSaved(t, l);
    }
  }

  lemma DropSaved(s: Sched, left: Ledger, k: nat)
    requires Saved(s, left) && s.root < |s.ring| && 0 < k && k + 1 < |s.ring|
    ensures Saved(DropAt(s, k), left)
  {
    var t := DropAt(s, k);
    assert forall i :: 0 < i < |t.ring| ==> t.ring[i].task == if i < k then s.ring[i].task else s.ring[i + 1].task;
  }

  lemma KillSaved(s: Sched, left: Ledger, k: nat) returns (t: Sched)
    requires Inv(s) && Saved(s, left) && 0 < k && k + 1 < |s.ring|
    ensures t == Remove(SetState(s, k, KILLED), k) && Saved(t, left)
  {
    var v := SetState(s, k, KILLED);
    assert Saved(v, left);
    t := Remove(v, k);
    var parent := Find(v, v.ring[0].task.parent);
    if parent < |s.ring| {
      assert Saved(LoseChild(v, parent), left);
      DropSaved(LoseChild(v, parent), left, k);
    }
  }

  lemma StepSaved(s: Sched, left: Ledger, e: Event)
    requires Inv(s) && Allowed(s, e) && Saved(s, left)
    ensures Saved(Step(s, e), Noted(s, left, e))
  {
    match e {
      case Tick(sp) => if s.disables == 0 { TickResumes(s, left, sp); }
      case Add(task) => var t := InsertedKeeps(s, task);
      case Kill(pid) =>
        var k := Find(s, pid);
        if s.ring[0].task.pid != pid && k < |s.ring| { var t := KillSaved(s, left, k); }
      case _ => OtherKeepsSaves(s, e);
    }
  }

  lemma OtherKeepsSaves(s: Sched, e: Event)
    requires Inv(s) && Allowed(s, e) && !e.Tick? && !e.Add? && (e.Kill? ==> s.ring[0].task.pid == e.pid)
    ensures |Step(s, e).ring| == |s.ring|
    ensures forall i :: 0 <= i < |s.ring| ==>
              Step(s, e).ring[i].task.id == s.ring[i].task.id && Step(s, e).ring[i].task.sp == s.ring[i].task.sp
  {
  }

  function LedgerAfter(s: Sched, left: Ledger, events: seq<Event>): Ledger
    requires s.root < |s.ring| && AllAllowed(s, events)
    decreases |events|
  {
    if events == [] then left else LedgerAfter(Step(s, events[0]), Noted(s, left, events[0]), events[1..])
  }

  /** After any run, a tick with the scheduler enabled resumes its process exactly where that process last
      lost the processor. */
  lemma {:induction false} ResumedWhereInterrupted(s: Sched, left: Ledger, events: seq<Event>, sp: nat)
    requires Inv(s) && Saved(s, left) && AllAllowed(s, events)
    requires After(s, events).disables == 0 && Allowed(After(s, events), Tick(sp))
    ensures var t, l := After(s, events), LedgerAfter(s, left, events);
            var next := Schedule(t, sp).ring[0].task.id; var m := Noted(t, l, Tick(sp));
            next in m && Resumed(t, sp) == m[next]
    decreases |events|
  {
    if events == [] {
      TickResumes(s, left, sp);
    } else {
      StepKeeps(s, events[0]);
      StepSaved(s, left, events[0]);
      ResumedWhereInterrupted(Step(s, events[0]), Noted(s, left, events[0]), events[1..], sp);
    }
  }

  // ---- What a tick with the scheduler disabled resumes

  /** For each process the stack pointer of its last save: a tick saves only with the scheduler enabled and
      more than one process, and a new process brings its own. */
  function LastSave(s: Sched, saved: Ledger, e: Event): Ledger
    requires |s.ring| > 0
  {
    match e
    case Tick(sp) => if s.disables == 0 && |s.ring| > 1 then saved[s.ring[0].task.id := sp] else saved
    case Add(task) => saved[task.id := task.sp]
    case _ => saved
  }

  lemma TickAllSaved(s: Sched, saved: Ledger, sp: nat)
    requires Inv(s) && Allowed(s, Tick(sp)) && AllSaved(s, saved)
    ensures AllSaved(Schedule(s, sp), LastSave(s, saved, Tick(sp)))
  {
    if s.disables == 0 && |s.ring| > 1 {
      var l := LastSave(s, saved, Tick(sp));
      var t := CountedSaves(s, saved, sp);
      if Switches(t) {
        t := CandidatesSaved(t, l);
        t := RunNextSaved(t, l);
      }
    }
  }

  /** Every event keeps the last save of every process, the current one included, in its record. */
  lemma StepAllSaved(s: Sched, saved: Ledger, e: Event)
    requires Inv(s) && Allowed(s, e) && AllSaved(s, saved)
    ensures AllSaved(Step(s, e), LastSave(s, saved, e))
  {
    match e {
      case Tick(sp) => TickAllSaved(s, saved, sp);
      case Add(task) => var t := InsertedKeeps(s, task);
      case Kill(pid) =>
        var k := Find(s, pid);
        if s.ring[0].task.pid != pid && k < |s.ring| {
          assert AllSaved(SetState(s, k, KILLED), saved);
          var t := RemoveSaved(SetState(s, k, KILLED), k, saved);
        }
      case _ => OtherKeepsSaves(s, e);
    }
  }

  function SavedAfter(s: Sched, saved: Ledger, events: seq<Event>): Ledger
    requires s.root < |s.ring| && AllAllowed(s, events)
    decreases |events|
  {
    if events == [] then saved else SavedAfter(Step(s, events[0]), LastSave(s, saved, events[0]), events[1..])
  }

  lemma {:induction false} RunAllSaved(s: Sched, saved: Ledger, events: seq<Event>)
    requires Inv(s) && AllAllowed(s, events) && AllSaved(s, saved)
    ensures AllSaved(After(s, events), SavedAfter(s, saved, events))
    decreases |events|
  {
    if events != [] {
      StepKeeps(s, events[0]);
      StepAllSaved(s, saved, events[0]);
      RunAllSaved(Step(s, events[0]), LastSave(s, saved, events[0]), events[1..]);
    }
  }

  /** After any run, a tick with the scheduler disabled changes nothing and resumes the current process
      where it was at its last save, so where it was interrupted if and only if that is the same. */
  lemma DisabledTickResumesStale(s: Sched, saved: Ledger, events: seq<Event>, sp: nat)
    requires Inv(s) && AllSaved(s, saved) && AllAllowed(s, events) && After(s, events).disables > 0
    ensures var t, l := After(s, events), SavedAfter(s, saved, events);
            && Tickable(t, sp) && Schedule(t, sp) == t && t.ring[0].task.id in l
            && Resumed(t, sp) == l[t.ring[0].task.id]
            && (Resumed(t, sp) == sp <==> l[t.ring[0].task.id] == sp)
  {
    RunAllSaved(s, saved, events);
  }

  /** From the start: the idle process adds another and disables the scheduler, and the next tick resumes
      it not where it was interrupted but where it first began. */
  lemma StaleIsReached(idle: Task, task: Task, sp: nat)
    requires idle.pid == 0 && idle.priority < MODULUS
    requires task.state.NEW? && task.priority < MODULUS && task.id != idle.id
    ensures AllAllowed(Started(idle), [Add(task), Disable])
    ensures var t := After(Started(idle), [Add(task), Disable]);
            Allowed(t, Tick(sp)) && Resumed(t, sp) == idle.sp && t.ring[0].task.id == idle.id
  {
    var s := Started(idle);
    StartedInv(idle);
    assert [Add(task), Disable][1..] == [Disable] && [Disable][1..] == [];
    var t := InsertedKeeps(s, task);
    assert AllAllowed(t, [Disable]);
    assert After(t, [Disable]) == t.(disables := 1);
  }
}
