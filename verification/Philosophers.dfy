/** The dining philosophers of Userland/uCodeModule/phylo.c as a state machine: one step is one statement
    of one process, and any process may take the next step. The table has `|mode|` slots (MAX in the
    source) of which the first `count` are seated in a ring. */
module Philosophers {
  const MIN: nat := 2

  datatype Mode = Thinking | Hungry | Eating | Leaving

  /** Where a philosopher is: the statement it executes next. Names ending in Wait, and TakeLock, block on
      a semaphore; those ending in Release post the mutex. */
  datatype Pc =
    | TakeWait | TakeSet | TakeTest | TakePost | TakeRelease | TakeLock
    | PutWait | PutSet | LeftTest | LeftPost(left: nat) | RightTest | RightPost(right: nat) | PutRelease
    | ParkPost | ParkWait
    | CheckWait | Check | StayRelease | LeaveRelease | Gone

  /** Where the main program is; `id` is its local of that name. */
  datatype MainPc =
    | Opening | Idle | ShowWait | ShowRelease
    | AddWait(id: nat) | AddMode(id: nat) | AddCount(id: nat) | AddExec(id: nat) | AddRelease
    | RemoveUnpark(id: nat) | RemoveWait(id: nat) | RemoveMode(id: nat) | RemoveCount(id: nat)
    | RemoveRelease(id: nat) | RemovePark(id: nat)

  datatype Key = AddKey | RemoveKey | OtherKey

  datatype Actor = Phylo(i: nat) | Main(key: Key)

  /** `lock` and `park` are the values of the semaphores hungry_lock and think_unlock. */
  datatype Table = Table(count: nat, mode: seq<Mode>, pc: seq<Pc>, main: MainPc, mutex: nat,
                         lock: seq<nat>, park: seq<nat>)

  function Left(id: nat, n: nat): (r: nat)
    requires n > 0
    ensures id < n ==> r == if id == 0 then n - 1 else id - 1
  {
    if id < n then RingIndex(id + n - 1, n); (id + n - 1) % n else (id + n - 1) % n
  }

  function Right(id: nat, n: nat): (r: nat)
    requires n > 0
    ensures id < n ==> r == if id == n - 1 then 0 else id + 1
  {
    if id < n then RingIndex(id + 1, n); (id + 1) % n else (id + 1) % n
  }

  lemma RingIndex(x: nat, n: nat)
    requires 0 < n && x < 2 * n
    ensures x % n == if x < n then x else x - n
  {
    if x >= n {
      assert x == n * 1 + (x - n);
    }
  }

  /** On a ring, being the left neighbour and being the right neighbour are converse relations. */
  lemma Converse(i: nat, j: nat, n: nat)
    requires i < n && j < n
    ensures Left(i, n) == j <==> Right(j, n) == i
  {
  }

  predicate Passes(mode: seq<Mode>, n: nat, id: nat)
    requires 0 < n <= |mode| && id < |mode|
  {
    mode[id] == Hungry && mode[Left(id, n)] != Eating && mode[Right(id, n)] != Eating
  }

  // ---- Steps

  predicate Local(pc: Pc, cap: nat) {
    (pc.LeftPost? ==> pc.left < cap) && (pc.RightPost? ==> pc.right < cap)
  }

  /** What the locals of the main program say about the count, which only it changes. */
  predicate MainLocal(main: MainPc, count: nat, cap: nat) {
    match main
    case AddWait(id) => id == count < cap
    case AddMode(id) => id == count < cap
    case AddCount(id) => id == count < cap
    case AddExec(id) => id == count - 1 && count > MIN
    case RemoveUnpark(id) => id == count - 1 && count > MIN
    case RemoveWait(id) => id == count - 1 && count > MIN
    case RemoveMode(id) => id == count - 1 && count > MIN
    case RemoveCount(id) => id == count - 1 && count > MIN
    case RemoveRelease(id) => id == count < cap
    case RemovePark(id) => id == count < cap
    case _ => true
  }

  ghost predicate Shape(s: Table) {
    && MIN <= s.count <= |s.mode| && |s.pc| == |s.mode| && |s.lock| == |s.mode| && |s.park| == |s.mode|
    && (forall i :: 0 <= i < |s.pc| ==> Local(s.pc[i], |s.mode|))
    && MainLocal(s.main, s.count, |s.mode|)
  }

  function At(s: Table, i: nat, pc: Pc): Table
    requires i < |s.pc|
  {
    s.(pc := s.pc[i := pc])
  }

  function Post(values: seq<nat>, i: nat): seq<nat>
    requires i < |values|
  {
    values[i := values[i] + 1]
  }

  predicate Taking(pc: Pc) {
    pc.TakeWait? || pc.TakeSet? || pc.TakeTest? || pc.TakePost? || pc.TakeRelease? || pc.TakeLock?
  }

  predicate Putting(pc: Pc) {
    pc.PutWait? || pc.PutSet? || pc.LeftTest? || pc.LeftPost? || pc.RightTest? || pc.RightPost? || pc.PutRelease?
  }

  /** A statement of take_fork. */
  function MoveTake(s: Table, i: nat): Table
    requires Shape(s) && i < |s.pc| && Taking(s.pc[i])
  {
    match s.pc[i]
    case TakeWait => if s.mutex == 0 then s else At(s, i, TakeSet).(mutex := s.mutex - 1)
    case TakeSet => At(s, i, TakeTest).(mode := s.mode[i := Hungry])
    case TakeTest =>
      if Passes(s.mode, s.count, i) then At(s, i, TakePost).(mode := s.mode[i := Eating]) else At(s, i, TakeRelease)
    case TakePost => At(s, i, TakeRelease).(lock := Post(s.lock, i))
    case TakeRelease => At(s, i, TakeLock).(mutex := s.mutex + 1)
    case TakeLock => if s.lock[i] == 0 then s else At(s, i, PutWait).(lock := s.lock[i := s.lock[i] - 1])
  }

  /** A statement of put_fork. */
  function MovePut(s: Table, i: nat): Table
    requires Shape(s) && i < |s.pc| && Putting(s.pc[i])
  {
    match s.pc[i]
    case PutWait => if s.mutex == 0 then s else At(s, i, PutSet).(mutex := s.mutex - 1)
    case PutSet => At(s, i, LeftTest).(mode := s.mode[i := Thinking])
    case LeftTest =>
      var l := Left(i, s.count);
      if Passes(s.mode, s.count, l) then At(s, i, LeftPost(l)).(mode := s.mode[l := Eating]) else At(s, i, RightTest)
    case LeftPost(l) => At(s, i, RightTest).(lock := Post(s.lock, l))
    case RightTest =>
      var r := Right(i, s.count);
      if Passes(s.mode, s.count, r) then At(s, i, RightPost(r)).(mode := s.mode[r := Eating]) else At(s, i, PutRelease)
    case RightPost(r) => At(s, i, PutRelease).(lock := Post(s.lock, r))
    case PutRelease => At(s, i, ParkPost).(mutex := s.mutex + 1)
  }

  /** A statement of the rest of the philosopher's loop. */
  function MovePark(s: Table, i: nat): Table
    requires Shape(s) && i < |s.pc| && !Taking(s.pc[i]) && !Putting(s.pc[i])
  {
    match s.pc[i]
    case ParkPost => At(s, i, ParkWait).(park := Post(s.park, i))
    case ParkWait => if s.park[i] == 0 then s else At(s, i, CheckWait).(park := s.park[i := s.park[i] - 1])
    case CheckWait => if s.mutex == 0 then s else At(s, i, Check).(mutex := s.mutex - 1)
    case Check => At(s, i, if s.mode[i] == Leaving then LeaveRelease else StayRelease)
    case StayRelease => At(s, i, TakeWait).(mutex := s.mutex + 1)
    case LeaveRelease => At(s, i, Gone).(mutex := s.mutex + 1)
    case Gone => s
  }

  /** One statement of philosopher `i`; blocked on a semaphore it stays where it is. */
  function Move(s: Table, i: nat): (t: Table)
    requires Shape(s) && i < |s.pc|
    ensures Shape(t) && |t.mode| == |s.mode|
  {
    if Taking(s.pc[i]) then MoveTake(s, i) else if Putting(s.pc[i]) then MovePut(s, i) else MovePark(s, i)
  }

  /** One statement of the main program; `key` is what it reads when it is idle. */
  function MoveMain(s: Table, key: Key): (t: Table)
    requires Shape(s)
    ensures Shape(t) && |t.mode| == |s.mode|
  {
    match s.main
    case Opening => s.(main := Idle, mutex := s.mutex + 1)
    case Idle =>
      if key == AddKey && s.count < |s.mode| then s.(main := AddWait(s.count))
      else if key == RemoveKey && s.count > MIN then s.(main := RemoveUnpark(s.count - 1))
      else s.(main := ShowWait)
    case ShowWait => if s.mutex == 0 then s else s.(main := ShowRelease, mutex := s.mutex - 1)
    case ShowRelease => s.(main := Idle, mutex := s.mutex + 1)
    case AddWait(id) => if s.mutex == 0 then s else s.(main := AddMode(id), mutex := s.mutex - 1)
    case AddMode(id) => s.(main := AddCount(id), mode := s.mode[id := Thinking])
    case AddCount(id) => s.(main := AddExec(id), count := s.count + 1)
    case AddExec(id) => At(s, id, TakeWait).(main := AddRelease)
    case AddRelease => s.(main := ShowWait, mutex := s.mutex + 1)
    case RemoveUnpark(id) =>
      if s.park[id] == 0 then s else s.(main := RemoveWait(id), park := s.park[id := s.park[id] - 1])
    case RemoveWait(id) => if s.mutex == 0 then s else s.(main := RemoveMode(id), mutex := s.mutex - 1)
    case RemoveMode(id) => s.(main := RemoveCount(id), mode := s.mode[id := Leaving])
    case RemoveCount(id) => s.(main := RemoveRelease(id), count := s.count - 1)
    case RemoveRelease(id) => s.(main := RemovePark(id), mutex := s.mutex + 1)
    case RemovePark(id) => s.(main := ShowWait, park := Post(s.park, id))
  }

  function Step(s: Table, a: Actor): (t: Table)
    requires Shape(s)
    ensures Shape(t) && |t.mode| == |s.mode|
  {
    match a
    case Phylo(i) => if i < |s.pc| then Move(s, i) else s
    case Main(key) => MoveMain(s, key)
  }

  predicate CanMove(s: Table, a: Actor)
    requires Shape(s)
  {
    Step(s, a) != s
  }

  /** The table as the main program opens it, every semaphore at 0 and the first `n` philosophers started. */
  function Opened(n: nat, cap: nat): (s: Table)
    requires MIN <= n <= cap
    ensures Shape(s)
  {
    Table(n, seq(cap, i => Thinking), seq(cap, i => if i < n then TakeWait else Gone), Opening, 0,
          seq(cap, i => 0), seq(cap, i => 0))
  }

  // ---- The invariant

  datatype Holder = Nobody | MainProgram | Philosopher(id: nat)

  predicate InSection(pc: Pc) {
    match pc
    case TakeSet | TakeTest | TakePost | TakeRelease => true
    case PutSet | LeftTest | LeftPost(_) | RightTest | RightPost(_) | PutRelease => true
    case Check | StayRelease | LeaveRelease => true
    case _ => false
  }

  predicate MainInSection(main: MainPc) {
    match main
    case Opening | ShowRelease | AddMode(_) | AddCount(_) | AddExec(_) | AddRelease => true
    case RemoveMode(_) | RemoveCount(_) | RemoveRelease(_) => true
    case _ => false
  }

  /** Who holds the mutex after a step, given who held it before. */
  function Handed(s: Table, h: Holder, a: Actor): Holder
    requires Shape(s)
  {
    match a
    case Phylo(i) =>
      if i >= |s.pc| then h
      else if InSection(Move(s, i).pc[i]) then Philosopher(i)
      else if InSection(s.pc[i]) then Nobody else h
    case Main(key) =>
      if MainInSection(MoveMain(s, key).main) then MainProgram else if MainInSection(s.main) then Nobody else h
  }

  /** The mutex semaphore is a lock, and `h` is who has it. */
  ghost predicate Locked(s: Table, h: Holder) {
    && s.mutex == One(h == Nobody)
    && (MainInSection(s.main) <==> h == MainProgram)
    && (h.Philosopher? ==> h.id < |s.pc|)
    && forall i :: 0 <= i < |s.pc| ==> (InSection(s.pc[i]) <==> h == Philosopher(i))
  }

  /** What a philosopher's place in the program says about its mode. */
  predicate Fits(pc: Pc, mode: Mode) {
    match pc
    case TakeTest => mode.Hungry?
    case TakePost | PutWait | PutSet => mode.Eating?
    case TakeRelease | TakeLock => mode.Hungry? || mode.Eating?
    case ParkWait | CheckWait | Check | Gone => mode.Thinking? || mode.Leaving?
    case LeaveRelease => mode.Leaving?
    case _ => mode.Thinking?
  }

  predicate Adding(main: MainPc, i: nat) {
    (main.AddMode? || main.AddCount? || main.AddExec?) && main.id == i
  }

  predicate Standing(s: Table, i: nat)
    requires |s.pc| == |s.mode| && i < |s.mode|
  {
    && Fits(s.pc[i], s.mode[i])
    && (i < s.count ==> (s.mode[i].Leaving? <==> s.main.RemoveCount? && s.main.id == i))
    && (i < s.count ==> (s.pc[i].Gone? <==> s.main.AddExec? && s.main.id == i))
    && (i >= s.count ==> s.pc[i].Gone? || s.mode[i].Leaving?)
    && (Adding(s.main, i) ==> s.pc[i].Gone?)
    && ((s.main.AddCount? || s.main.AddExec?) && s.main.id == i ==> s.mode[i].Thinking?)
  }

  /** Whose hungry_lock philosopher `p` posts next, if it does. */
  predicate Posting(pc: Pc, p: nat, i: nat) {
    (pc.TakePost? && i == p) || (pc.LeftPost? && pc.left == i) || (pc.RightPost? && pc.right == i)
  }

  /** EATING but not yet past the wait on its hungry_lock. */
  predicate Served(pc: Pc, mode: Mode) {
    mode == Eating && (pc.TakePost? || pc.TakeRelease? || pc.TakeLock?)
  }

  /** Main has taken the think_unlock token of philosopher `i`. */
  predicate Unparked(main: MainPc, i: nat) {
    && (main.RemoveWait? || main.RemoveMode? || main.RemoveCount? || main.RemoveRelease? || main.RemovePark?)
    && main.id == i
  }

  function One(b: bool): nat { if b then 1 else 0 }

  /** Every token is accounted for. */
  predicate Ledger(s: Table, h: Holder, i: nat)
    requires |s.pc| == |s.mode| == |s.lock| == |s.park| && i < |s.mode|
    requires h.Philosopher? ==> h.id < |s.pc|
  {
    && s.lock[i] + One(h.Philosopher? && Posting(s.pc[h.id], h.id, i)) == One(Served(s.pc[i], s.mode[i]))
    && s.park[i] + One(Unparked(s.main, i)) == One(s.pc[i].ParkWait?)
  }

  ghost predicate Inv(s: Table, h: Holder) {
    && Shape(s) && Locked(s, h)
    && (forall i :: 0 <= i < |s.mode| ==> Standing(s, i))
    && (forall i :: 0 <= i < |s.mode| ==> Ledger(s, h, i))
  }

  /** The main program takes the mutex to add a philosopher in a slot whose last process has not ended. */
  predicate Reuses(s: Table, a: Actor)
    requires Shape(s)
  {
    a.Main? && s.main.AddWait? && s.mutex > 0 && s.pc[s.main.id] != Gone
  }

  lemma InitialInv(n: nat, cap: nat)
    requires MIN <= n <= cap
    ensures Inv(Opened(n, cap), MainProgram)
  {
  }

  /** Of the invariant, what it says about philosophers `i` and `j` and about the main program. */
  predicate Pair(s: Table, h: Holder, i: nat, j: nat)
    requires |s.pc| == |s.mode| == |s.lock| == |s.park| && i < |s.mode| && j < |s.mode|
    requires h.Philosopher? ==> h.id < |s.pc|
  {
    && s.mutex == One(h == Nobody) && (MainInSection(s.main) <==> h == MainProgram)
    && (InSection(s.pc[i]) <==> h == Philosopher(i)) && (InSection(s.pc[j]) <==> h == Philosopher(j))
    && Standing(s, i) && Standing(s, j) && Ledger(s, h, i) && Ledger(s, h, j)
  }

  ghost predicate Passed(s: Table, h: Holder, i: nat, t: Table, g: Holder) {
    && Shape(s) && i < |s.pc| && (h.Philosopher? ==> h.id < |s.pc|) && |t.pc| == |s.pc|
    && t.pc == s.pc[i := t.pc[i]] && t.main == s.main && t.count == s.count
    && g == if InSection(t.pc[i]) then Philosopher(i) else if InSection(s.pc[i]) then Nobody else h
  }

  /** What a philosopher's step does to the mutex and to its own place. */
  ghost predicate Effect(s: Table, i: nat, t: Table)
    requires Shape(s) && i < |s.pc|
  {
    && |t.pc| == |t.mode| == |t.lock| == |t.park| == |s.pc|
    && t.pc == s.pc[i := t.pc[i]] && t.main == s.main && t.count == s.count
    && (!InSection(s.pc[i]) && InSection(t.pc[i]) ==> s.mutex > 0)
    && t.mutex + One(InSection(t.pc[i])) == s.mutex + One(InSection(s.pc[i]))
    && (!Putting(s.pc[i]) ==>
          && !t.pc[i].LeftPost? && !t.pc[i].RightPost?
          && t.mode == s.mode[i := t.mode[i]] && t.lock == s.lock[i := t.lock[i]])
    && t.park == s.park[i := t.park[i]]
  }

  lemma TakeEffect(s: Table, i: nat)
    requires Shape(s) && i < |s.pc| && Taking(s.pc[i])
    ensures Shape(MoveTake(s, i)) && |MoveTake(s, i).mode| == |s.mode| && Effect(s, i, MoveTake(s, i))
  {
  }

  lemma PutEffect(s: Table, i: nat)
    requires Shape(s) && i < |s.pc| && Putting(s.pc[i])
    ensures Shape(MovePut(s, i)) && |MovePut(s, i).mode| == |s.mode| && Effect(s, i, MovePut(s, i))
  {
  }

  lemma ParkEffect(s: Table, i: nat)
    requires Shape(s) && i < |s.pc| && !Taking(s.pc[i]) && !Putting(s.pc[i])
    ensures Shape(MovePark(s, i)) && |MovePark(s, i).mode| == |s.mode| && Effect(s, i, MovePark(s, i))
  {
  }

  lemma MoveEffect(s: Table, i: nat) returns (t: Table)
    requires Shape(s) && i < |s.pc|
    ensures t == Move(s, i) && Shape(t) && |t.mode| == |s.mode| && Effect(s, i, t)
  {
    t := Move(s, i);
    if Taking(s.pc[i]) {
      TakeEffect(s, i);
    } else if Putting(s.pc[i]) {
      PutEffect(s, i);
    } else {
      ParkEffect(s, i);
    }
  }

  lemma MoveKeepsLock(s: Table, h: Holder, i: nat) returns (t: Table, g: Holder)
    requires Inv(s, h) && i < |s.pc|
    ensures t == Move(s, i) && g == Handed(s, h, Phylo(i)) && Locked(t, g) && Passed(s, h, i, t, g)
    ensures Shape(t) && |t.mode| == |s.mode| && Effect(s, i, t)
  {
    t := MoveEffect(s, i);
    g := Handed(s, h, Phylo(i));
  }

  lemma MainKeepsLock(s: Table, h: Holder, key: Key)
    requires Inv(s, h)
    ensures Locked(MoveMain(s, key), Handed(s, h, Main(key)))
  {
    if s.main.AddExec? {
      assert Standing(s, s.main.id);
    }
  }

  lemma TakeKeepsOwn(s: Table, h: Holder, i: nat, t: Table, g: Holder)
    requires Passed(s, h, i, t, g) && Pair(s, h, i, i) && Taking(s.pc[i]) && t == MoveTake(s, i)
    ensures Standing(t, i) && Ledger(t, g, i)
  {
  }

  lemma PutKeepsOwn(s: Table, h: Holder, i: nat, t: Table, g: Holder)
    requires Passed(s, h, i, t, g) && Pair(s, h, i, i) && Putting(s.pc[i]) && t == MovePut(s, i)
    ensures Standing(t, i) && Ledger(t, g, i)
  {
  }

  lemma ParkKeepsOwn(s: Table, h: Holder, i: nat, t: Table, g: Holder)
    requires Passed(s, h, i, t, g) && Pair(s, h, i, i) && !Taking(s.pc[i]) && !Putting(s.pc[i]) && t == MovePark(s, i)
    ensures Standing(t, i) && Ledger(t, g, i)
  {
  }

  lemma MoveKeepsOther(s: Table, h: Holder, i: nat, j: nat, t: Table, g: Holder)
    requires Passed(s, h, i, t, g) && j < |s.pc| && Pair(s, h, i, j) && i != j
    requires |t.mode| == |t.lock| == |t.park| == |s.pc|
    requires t.mode[j] == s.mode[j] && t.lock[j] == s.lock[j] && t.park[j] == s.park[j]
    requires !Posting(s.pc[i], i, j) && !Posting(t.pc[i], i, j)
    requires !InSection(s.pc[i]) && InSection(t.pc[i]) ==> h == Nobody
    ensures Standing(t, j) && Ledger(t, g, j)
  {
  }

  /** put_fork changes another philosopher only by starting it to eat or posting its lock. */
  lemma PutKeepsOther(s: Table, h: Holder, i: nat, j: nat, t: Table, g: Holder)
    requires Passed(s, h, i, t, g) && j < |s.pc| && Pair(s, h, i, j) && i != j && Putting(s.pc[i]) && t == MovePut(s, i)
    ensures Standing(t, j) && Ledger(t, g, j)
  {
    if s.pc[i].LeftTest? || s.pc[i].RightTest? {
      TestKeepsOther(s, h, i, j, t, g);
    }
  }

  lemma TestKeepsOther(s: Table, h: Holder, i: nat, j: nat, t: Table, g: Holder)
    requires Passed(s, h, i, t, g) && j < |s.pc| && Pair(s, h, i, j) && i != j && t == Move(s, i)
    requires s.pc[i].LeftTest? || s.pc[i].RightTest?
    ensures Standing(t, j) && Ledger(t, g, j)
  {
    var k := if s.pc[i].LeftTest? then Left(i, s.count) else Right(i, s.count);
    assert t.mode[j] == if j == k && Passes(s.mode, s.count, k) then Eating else s.mode[j];
    assert t.lock == s.lock && t.park == s.park && t.pc[j] == s.pc[j];
  }

  lemma MainKeepsStanding(s: Table, h: Holder, key: Key, j: nat)
    requires Shape(s) && j < |s.pc| && (h.Philosopher? ==> h.id < |s.pc|) && Pair(s, h, j, j) && !Reuses(s, Main(key))
    ensures Standing(MoveMain(s, key), j)
  {
  }

  lemma MainKeepsLedger(s: Table, h: Holder, key: Key, j: nat)
    requires Shape(s) && j < |s.pc| && (h.Philosopher? ==> h.id < |s.pc|) && Pair(s, h, j, j)
    ensures Ledger(MoveMain(s, key), Handed(s, h, Main(key)), j)
  {
    var t := MoveMain(s, key);
    assert t.lock == s.lock && (t.pc[j] != s.pc[j] ==> s.main == AddExec(j) && s.pc[j].Gone? && t.pc[j].TakeWait?);
    assert t.park[j] + One(Unparked(t.main, j)) == s.park[j] + One(Unparked(s.main, j));
  }

  lemma MoveKeepsInv(s: Table, h: Holder, i: nat)
    requires Inv(s, h) && i < |s.pc|
    ensures Inv(Move(s, i), Handed(s, h, Phylo(i)))
  {
    var t, g := MoveKeepsLock(s, h, i);
    forall j: nat | j < |s.mode| ensures Standing(t, j) && Ledger(t, g, j) {
      assert Standing(s, i) && Standing(s, j) && Ledger(s, h, i) && Ledger(s, h, j);
      if i != j {
        if Putting(s.pc[i]) {
          PutKeepsOther(s, h, i, j, t, g);
        } else {
          MoveKeepsOther(s, h, i, j, t, g);
        }
      } else if Taking(s.pc[i]) {
        TakeKeepsOwn(s, h, i, t, g);
      } else if Putting(s.pc[i]) {
        PutKeepsOwn(s, h, i, t, g);
      } else {
        ParkKeepsOwn(s, h, i, t, g);
      }
    }
  }

  /** Every step of every process keeps the invariant. */
  lemma StepKeepsInv(s: Table, h: Holder, a: Actor)
    requires Inv(s, h) && !Reuses(s, a)
    ensures Inv(Step(s, a), Handed(s, h, a))
  {
    match a {
      case Phylo(i) =>
        if i < |s.pc| {
          MoveKeepsInv(s, h, i);
        }
      case Main(key) =>
        MainKeepsLock(s, h, key);
        forall j: nat | j < |s.mode|
          ensures Standing(MoveMain(s, key), j) && Ledger(MoveMain(s, key), Handed(s, h, a), j)
        {
          assert Standing(s, j) && Ledger(s, h, j);
          MainKeepsStanding(s, h, key, j);
          MainKeepsLedger(s, h, key, j);
        }
    }
  }
}
