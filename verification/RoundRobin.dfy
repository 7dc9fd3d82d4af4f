/** The round-robin scheduler of Kernel/scheduler.c on values: the ring of nodes is a sequence that starts
    at currentNode. */
module RoundRobin {
  import opened Arithmetic

  const QUANTUM_MAX: nat := 5

  datatype State = READY | RUNNING | BLOCKED | NEW | KILLED

  /** `id` tells processes apart, which their `pid` does not: a pid can be given out twice. */
  datatype Task = Task(id: nat, pid: nat, state: State, priority: nat, sp: nat, parent: nat, children: nat)

  datatype Slot = Slot(task: Task, quantums: nat)

  /** `root` is the position of the node where searches by pid begin. */
  datatype Sched = Sched(ring: seq<Slot>, root: nat, force: bool, disables: nat)

  ghost predicate Valid(s: Sched) {
    && 0 <= s.root < |s.ring|
    && (forall i :: 0 <= i < |s.ring| ==> s.ring[i].quantums < MODULUS && s.ring[i].task.priority < MODULUS)
    && (forall i, j :: 0 <= i < j < |s.ring| ==> s.ring[i].task.id != s.ring[j].task.id)
  }

  predicate Runnable(slot: Slot) { slot.task.state.READY? || slot.task.state.NEW? }

  /** The first runnable slot, or the length if there is none. */
  function FirstRunnable(ring: seq<Slot>): (k: nat)
    ensures k <= |ring| && (k < |ring| ==> Runnable(ring[k]))
    ensures forall i :: 0 <= i < k ==> !Runnable(ring[i])
  {
    if ring == [] || Runnable(ring[0]) then 0 else 1 + FirstRunnable(ring[1..])
  }

  function FirstPid(ring: seq<Slot>, pid: nat): (k: nat)
    ensures k <= |ring| && (k < |ring| ==> ring[k].task.pid == pid)
    ensures forall i :: 0 <= i < k ==> ring[i].task.pid != pid
  {
    if ring == [] || ring[0].task.pid == pid then 0 else 1 + FirstPid(ring[1..], pid)
  }

  function Rotated<T>(ring: seq<T>, k: nat): (r: seq<T>)
    requires k <= |ring|
    ensures |r| == |ring|
  {
    ring[k..] + ring[..k]
  }

  /** Where findNode finds `pid`: it looks at the root first and then goes round; the length of the ring
      if no node has it. */
  function Find(s: Sched, pid: nat): (k: nat)
    requires s.root < |s.ring|
    ensures k <= |s.ring| && (k < |s.ring| ==> s.ring[k].task.pid == pid)
  {
    var i := FirstPid(Rotated(s.ring, s.root), pid);
    if i == |s.ring| then i else if s.root + i < |s.ring| then s.root + i else s.root + i - |s.ring|
  }

  function Edit(s: Sched, k: nat, task: Task): Sched
    requires k < |s.ring|
  {
    s.(ring := s.ring[k := s.ring[k].(task := task)])
  }

  function SetState(s: Sched, k: nat, state: State): Sched
    requires k < |s.ring|
  {
    Edit(s, k, s.ring[k].task.(state := state))
  }

  /** The ring seen from position `k`. */
  function Turned(s: Sched, k: nat): Sched
    requires k <= |s.ring|
  {
    s.(ring := Rotated(s.ring, k), root := if s.root >= k then s.root - k else s.root + |s.ring| - k)
  }

  /** runNext, for a ring that starts at the candidate. */
  function RunNext(s: Sched): Sched
    requires FirstRunnable(s.ring) < |s.ring|
  {
    var t := Turned(s, FirstRunnable(s.ring));
    t.(ring := t.ring[0 := Slot(t.ring[0].task.(state := RUNNING), t.ring[0].task.priority)])
  }

  // ---- removeNode

  /** The parent of the current process loses a child, and is made READY with its last one. */
  function LoseChild(s: Sched, k: nat): Sched
    requires k < |s.ring|
  {
    var left := (s.ring[k].task.children + MODULUS - 1) % MODULUS;
    Edit(s, k, s.ring[k].task.(children := left, state := if left == 0 then READY else s.ring[k].task.state))
  }

  /** The position, before the element at `k` is taken out, of the one that ends up at `i`. */
  function Kept(k: nat, i: nat): nat { if i < k then i else i + 1 }

  /** Position `k` takes over the process that follows it, whose node is given up. */
  function DropAt(s: Sched, k: nat): Sched
    requires k + 1 < |s.ring|
  {
    s.(ring := s.ring[..k] + [Slot(s.ring[k + 1].task, s.ring[k].quantums)] + s.ring[k + 2..],
       root := if s.ring[k + 1].task.pid == 0 then k else if s.root <= k then s.root else s.root - 1)
  }

  /** removeNode of the node at `k`; without a parent it does nothing. */
  function Remove(s: Sched, k: nat): (t: Sched)
    requires s.root < |s.ring| && k + 1 < |s.ring|
    ensures |t.ring| > 0
  {
    var parent := Find(s, s.ring[0].task.parent);
    if parent == |s.ring| then s else DropAt(LoseChild(s, parent), k)
  }

  // ---- schedule

  /** schedule after it saved the stack pointer and counted the tick. */
  function Counted(s: Sched, sp: nat): Sched
    requires |s.ring| > 0
  {
    var slot := s.ring[0].(task := s.ring[0].task.(sp := sp));
    s.(ring := s.ring[0 := if slot.task.state.RUNNING? then slot.(quantums := (slot.quantums + 1) % MODULUS) else slot])
  }

  predicate Expired(s: Sched)
    requires |s.ring| > 0
  {
    s.ring[0].quantums > QUANTUM_MAX || s.force
  }

  /** What `schedule` looks for a runnable process in, when it looks for one. */
  function Candidates(s: Sched): Sched
    requires s.root < |s.ring| && |s.ring| > 1
  {
    if s.ring[0].task.state.KILLED? then Remove(s, 0)
    else if s.ring[0].task.state.BLOCKED? then Turned(s, 1)
    else Turned(SetState(s.(force := false), 0, READY), 1)
  }

  predicate Switches(s: Sched)
    requires |s.ring| > 0
  {
    s.ring[0].task.state.KILLED? || s.ring[0].task.state.BLOCKED? || Expired(s)
  }

  /** `schedule` comes to an end: if it has to switch, some process can run. */
  predicate Tickable(s: Sched, sp: nat)
    requires s.root < |s.ring|
  {
    s.disables == 0 && |s.ring| > 1 && Switches(Counted(s, sp)) ==>
      FirstRunnable(Candidates(Counted(s, sp)).ring) < |Candidates(Counted(s, sp)).ring|
  }

  function Schedule(s: Sched, sp: nat): (t: Sched)
    requires s.root < |s.ring| && Tickable(s, sp)
    ensures |t.ring| > 0
  {
    if s.disables > 0 || |s.ring| == 1 then s
    else if Switches(Counted(s, sp)) then RunNext(Candidates(Counted(s, sp)))
    else Counted(s, sp)
  }

  /** The stack pointer that `schedule` returns. */
  function Resumed(s: Sched, sp: nat): nat
    requires s.root < |s.ring| && Tickable(s, sp)
  {
    if s.disables == 0 && |s.ring| == 1 then sp else Schedule(s, sp).ring[0].task.sp
  }

  /** What init_scheduler leaves. */
  function Started(idle: Task): Sched {
    Sched([Slot(idle.(state := RUNNING), QUANTUM_MAX)], 0, false, 0)
  }

  // ---- Everything that can happen to the scheduler

  datatype Event =
    | Tick(sp: nat) | Disable | Enable | Force
    | Add(task: Task) | SetPriority(pid: nat, priority: nat) | Block(pid: nat) | MakeReady(pid: nat)
    | BlockCurrent | KillCurrent | Kill(pid: nat)

  predicate CanKill(s: Sched, pid: nat)
    requires s.root < |s.ring|
  {
    s.ring[0].task.pid == pid || (pid != 0 && (Find(s, pid) + 1 < |s.ring| || Find(s, pid) == |s.ring|))
  }

  /** killProcess: the current process is only marked, any other is removed. */
  function Killed(s: Sched, pid: nat): Sched
    requires s.root < |s.ring| && CanKill(s, pid)
  {
    var k := Find(s, pid);
    if s.ring[0].task.pid == pid then SetState(s, 0, KILLED)
    else if k < |s.ring| then Remove(SetState(s, k, KILLED), k) else s
  }

  /** What the source asks for: a tick finds a process to run, an added process is new, priorities are
      words, the root process (pid 0) is not killed, and a process is not removed from elsewhere when its
      node is the one just before currentNode. */
  predicate Allowed(s: Sched, e: Event)
    requires s.root < |s.ring|
  {
    match e
    case Tick(sp) => Tickable(s, sp) && (s.ring[0].task.state.KILLED? ==> s.root != 0)
    case Add(task) =>
      task.state.NEW? && task.priority < MODULUS && forall i :: 0 <= i < |s.ring| ==> s.ring[i].task.id != task.id
    case SetPriority(_, priority) => priority < MODULUS
    case Kill(pid) => CanKill(s, pid)
    case _ => true
  }

  /** The current process has one child more, ... */
  function Bear(s: Sched): Sched
    requires |s.ring| > 0
  {
    Edit(s, 0, s.ring[0].task.(children := (s.ring[0].task.children + 1) % MODULUS))
  }

  /** ... whose node comes right after its own. */
  function Inserted(s: Sched, task: Task): Sched
    requires |s.ring| > 0
  {
    s.(ring := [s.ring[0], Slot(task, task.priority)] + s.ring[1..], root := if s.root == 0 then 0 else s.root + 1)
  }

  function Step(s: Sched, e: Event): (t: Sched)
    requires s.root < |s.ring| && Allowed(s, e)
  {
    match e
    case Tick(sp) => Schedule(s, sp)
    case Disable => s.(disables := s.disables + 1)
    case Enable => if s.disables > 0 then s.(disables := s.disables - 1) else s
    case Force => s.(force := true)
    case Add(task) => Inserted(Bear(s), task)
    case SetPriority(pid, priority) =>
      var k := Find(s, pid);
      if k < |s.ring| then Edit(s, k, s.ring[k].task.(priority := priority)) else s
    case Block(pid) => var k := Find(s, pid); if k < |s.ring| then SetState(s, k, BLOCKED) else s
    case MakeReady(pid) => var k := Find(s, pid); if k < |s.ring| then SetState(s, k, READY) else s
    case BlockCurrent => SetState(s, 0, BLOCKED)
    case KillCurrent => SetState(s, 0, KILLED)
    case Kill(pid) => Killed(s, pid)
  }
}
