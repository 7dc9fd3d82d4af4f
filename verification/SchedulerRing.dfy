/** The scheduler of Kernel/scheduler.c over linked nodes, proved to behave as RoundRobin says. */
module SchedulerRing {
  import opened Arithmetic
  import opened RoundRobin

  class Process {
    ghost const id: nat
    var pid: nat
    var state: State
    var priority: nat
    var sp: nat
    var parent: nat
    var children: nat

    constructor (ghost id: nat, pid: nat, priority: nat, sp: nat, parent: nat)
      ensures Value() == Task(id, pid, NEW, priority, sp, parent, 0)
    {
      this.id, this.pid, this.state, this.priority := id, pid, NEW, priority;
      this.sp, this.parent, this.children := sp, parent, 0;
    }

    ghost function Value(): Task
      reads this
    {
      Task(id, pid, state, priority, sp, parent, children)
    }
  }

  class Node {
    var quantums: nat
    var p: Process
    var next: Node

    constructor (p: Process, quantums: nat)
      ensures this.p == p && this.quantums == quantums && next == this
    {
      this.p, this.quantums, this.next := p, quantums, this;
    }
  }

  ghost function SlotOf(n: Node, p: Process): Slot
    reads n, p
  {
    Slot(p.Value(), n.quantums)
  }

  ghost function Slots(ring: seq<Node>, procs: seq<Process>): (r: seq<Slot>)
    requires |ring| == |procs|
    reads ring, procs
    ensures |r| == |ring| && forall i :: 0 <= i < |r| ==> r[i] == SlotOf(ring[i], procs[i])
  {
    seq(|ring|, i requires 0 <= i < |ring| reads ring, procs => SlotOf(ring[i], procs[i]))
  }

  ghost predicate Distinct<T>(s: seq<T>) {
    forall i, j :: 0 <= i < j < |s| ==> s[i] != s[j]
  }

  function Next(i: nat, n: nat): nat { if i + 1 < n then i + 1 else 0 }

  function Wrapped(i: nat, n: nat): nat
    requires i < 2 * n
  {
    if i < n then i else i - n
  }

  ghost predicate NodeOk(ring: seq<Node>, procs: seq<Process>, i: nat)
    requires i < |ring| == |procs|
    reads ring[i]
  {
    ring[i].p == procs[i] && ring[i].next == ring[Next(i, |ring|)]
  }

  /** Searching one step on shortens the way to the first runnable process by one. */
  lemma Ahead(ring: seq<Slot>, at: nat, k: nat)
    requires at < |ring| && k == FirstRunnable(Rotated(ring, at)) < |ring|
    ensures k == 0 <==> Runnable(ring[at])
    ensures k > 0 ==> FirstRunnable(Rotated(ring, Next(at, |ring|))) == k - 1
  {
    var r := Rotated(ring, at);
    var t := Rotated(ring, Next(at, |ring|));
    assert r[0] == ring[at] && t == r[1..] + [r[0]];
    if k > 0 {
      FirstOfLonger(r[1..], [r[0]]);
    }
  }

  lemma {:induction false} FirstOfLonger(a: seq<Slot>, b: seq<Slot>)
    requires FirstRunnable(a) < |a|
    ensures FirstRunnable(a + b) == FirstRunnable(a)
  {
    if !Runnable(a[0]) {
      assert (a + b)[1..] == a[1..] + b;
      FirstOfLonger(a[1..], b);
    }
  }

  lemma FirstPidIs(ring: seq<Slot>, pid: nat, i: nat)
    requires i <= |ring| && (forall j :: 0 <= j < i ==> ring[j].task.pid != pid)
    requires i < |ring| ==> ring[i].task.pid == pid
    ensures FirstPid(ring, pid) == i
  {
  }

  lemma RotatedTwice<T>(r: seq<T>, a: nat, b: nat)
    requires a < |r| && b < |r|
    ensures Rotated(Rotated(r, a), b) == Rotated(r, Wrapped(a + b, |r|))
  {
    var t, u := Rotated(Rotated(r, a), b), Rotated(r, Wrapped(a + b, |r|));
    forall i | 0 <= i < |r| ensures t[i] == u[i] {
      var j := Wrapped(b + i, |r|);
      assert t[i] == Rotated(r, a)[j] == r[Wrapped(a + j, |r|)];
    }
  }

  lemma TurnedTwice(s: Sched, a: nat, b: nat)
    requires a < |s.ring| && b < |s.ring| && s.root < |s.ring|
    ensures Turned(Turned(s, a), b) == Turned(s, Wrapped(a + b, |s.ring|))
  {
    RotatedTwice(s.ring, a, b);
  }

  lemma RotatedDistinct<T>(r: seq<T>, m: nat)
    requires Distinct(r) && m <= |r|
    ensures Distinct(Rotated(r, m)) && forall x :: x in Rotated(r, m) <==> x in r
  {
    var t := Rotated(r, m);
    forall i, j | 0 <= i < j < |t| ensures t[i] != t[j] {
      assert r[Wrapped(m + i, |r|)] != r[Wrapped(m + j, |r|)];
    }
    assert r == r[..m] + r[m..];
  }

  /** A cycle is a cycle from each of its nodes. */
  lemma RotatedCycle(ring: seq<Node>, procs: seq<Process>, m: nat)
    requires m < |ring| == |procs| && forall i :: 0 <= i < |ring| ==> NodeOk(ring, procs, i)
    ensures forall i :: 0 <= i < |ring| ==> NodeOk(Rotated(ring, m), Rotated(procs, m), i)
  {
    forall i: nat | i < |ring| ensures NodeOk(Rotated(ring, m), Rotated(procs, m), i) {
      assert NodeOk(ring, procs, Wrapped(m + i, |ring|));
    }
  }

  lemma RotatedRing(ring: seq<Node>, procs: seq<Process>, m: nat) returns (r: seq<Node>, q: seq<Process>)
    requires m < |ring| == |procs| && Distinct(ring) && Distinct(procs)
    requires forall i :: 0 <= i < |ring| ==> NodeOk(ring, procs, i)
    ensures r == Rotated(ring, m) && q == Rotated(procs, m) && Distinct(r) && Distinct(q) && |r| == |q| == |ring|
    ensures forall i :: 0 <= i < |r| ==> NodeOk(r, q, i)
    ensures forall i :: 0 <= i < |r| ==> r[i] == ring[Wrapped(m + i, |ring|)]
    ensures Slots(r, q) == Rotated(Slots(ring, procs), m)
  {
    r, q := Rotated(ring, m), Rotated(procs, m);
    RotatedCycle(ring, procs, m);
    RotatedDistinct(ring, m);
    RotatedDistinct(procs, m);
  }

  ghost predicate InsertedIn<T>(s: seq<T>, x: T, t: seq<T>) {
    |s| > 0 && |t| == |s| + 1 && t[0] == s[0] && t[1] == x && forall i :: 2 <= i < |t| ==> t[i] == s[i - 1]
  }

  lemma InsertSecond<T>(s: seq<T>, x: T) returns (t: seq<T>)
    requires |s| > 0 && Distinct(s) && x !in s
    ensures t == [s[0], x] + s[1..] && InsertedIn(s, x, t) && Distinct(t)
  {
    t := [s[0], x] + s[1..];
  }

  lemma RootMovesUp<T>(s: seq<T>, x: T, t: seq<T>, r: nat)
    requires InsertedIn(s, x, t) && r < |s|
    ensures t[if r == 0 then 0 else r + 1] == s[r]
  {
  }

  ghost predicate DroppedFrom<T>(s: seq<T>, k: nat, t: seq<T>) {
    k < |s| && |t| == |s| - 1 && forall i :: 0 <= i < |t| ==> t[i] == s[Kept(k, i)]
  }

  lemma DropOne<T>(s: seq<T>, k: nat) returns (t: seq<T>)
    requires k < |s| && Distinct(s)
    ensures t == s[..k] + s[k + 1..] && DroppedFrom(s, k, t) && Distinct(t)
  {
    t := s[..k] + s[k + 1..];
    forall i, j | 0 <= i < j < |t| ensures t[i] != t[j] {
      assert s[Kept(k, i)] != s[Kept(k, j)];
    }
  }

  lemma StillThere<T>(s: seq<T>, k: nat, t: seq<T>)
    requires t == s || DroppedFrom(s, k, t)
    ensures forall x :: x in t ==> x in s
  {
    if t != s {
      forall x | x in t ensures x in s {
        var i :| 0 <= i < |t| && t[i] == x;
        assert s[Kept(k, i)] == x;
      }
    }
  }

  lemma TurnedByNone(s: Sched)
    requires s.root < |s.ring|
    ensures Turned(s, 0) == s
  {
    assert s.ring[0..] + s.ring[..0] == s.ring;
  }

  /** Where the root is after the element at `k + 1` is taken out, unless it was that one. */
  lemma RootStays<T>(s: seq<T>, k: nat, r: nat, t: seq<T>, moved: bool)
    requires DroppedFrom(s, k + 1, t) && r < |s| && (r == k + 1 ==> moved)
    ensures t[if moved then k else if r <= k then r else r - 1] == s[if moved then k else r]
  {
    assert t[k] == s[Kept(k + 1, k)];
    if !moved {
      assert t[if r <= k then r else r - 1] == s[Kept(k + 1, if r <= k then r else r - 1)];
    }
  }

  twostate predicate KeptNode(n: Node)
    reads n
  {
    n.p == old(n.p) && n.quantums == old(n.quantums)
  }

  twostate predicate KeptProcess(p: Process)
    reads p
  {
    p.Value() == old(p.Value())
  }

  class Scheduler {
    var currentNode: Node
    var root: Node
    var nodeCount: nat
    var forceNext: bool
    var pendingDisables: nat
    ghost var ring: seq<Node>
    ghost var procs: seq<Process>
    ghost var rootAt: nat

    /** Following the links from currentNode goes round `ring`. */
    ghost predicate Chained()
      reads this, ring
    {
      && 0 < |ring| == |procs| == nodeCount && rootAt < |ring|
      && currentNode == ring[0] && root == ring[rootAt]
      && forall i :: 0 <= i < |ring| ==> NodeOk(ring, procs, i)
    }

    /** ... once, and every node has a process of its own. */
    ghost predicate Linked()
      reads this, ring
    {
      Chained() && Distinct(ring) && Distinct(procs)
    }

    ghost function Model(): (s: Sched)
      requires Chained()
      reads this, ring, procs
      ensures |s.ring| == |ring| && s.root == rootAt
    {
      Sched(Slots(ring, procs), rootAt, forceNext, pendingDisables)
    }

    /** init_scheduler, given the idle process. */
    constructor (idle: Process)
      modifies idle
      ensures Linked() && fresh(ring) && procs == [idle]
      ensures Model() == Started(old(idle.Value()))
    {
      var first := new Node(idle, QUANTUM_MAX);
      idle.state := RUNNING;
      currentNode, root, nodeCount, forceNext, pendingDisables := first, first, 1, false, 0;
      ring, procs, rootAt := [first], [idle], 0;
    }

    /** findNext, from the node at position `at`, with `k` steps to go. */
    method FindNext(candidate: Node, ghost slots: seq<Slot>, ghost at: nat, ghost k: nat) returns (n: Node)
      requires Chained() && slots == Model().ring && at < |ring| && candidate == ring[at]
      requires k == FirstRunnable(Rotated(slots, at)) < |ring|
      ensures n == ring[Wrapped(at + k, |ring|)]
      decreases k
    {
      Ahead(slots, at, k);
      assert NodeOk(ring, procs, at) && slots[at] == SlotOf(ring[at], procs[at]);
      if candidate.p.state == READY || candidate.p.state == NEW {
        return candidate;
      }
      assert Wrapped(Next(at, |ring|) + k - 1, |ring|) == Wrapped(at + k, |ring|);
      n := FindNext(candidate.next, slots, Next(at, |ring|), k - 1);
    }

    method FindNode(pid: nat) returns (n: Node?, ghost k: nat)
      requires Linked()
      ensures k == Find(Model(), pid) && (n == null <==> k == |ring|) && (n != null ==> n == ring[k])
    {
      ghost var slots := Model().ring;
      ghost var r := Rotated(slots, rootAt);
      assert NodeOk(ring, procs, rootAt) && r[0] == slots[rootAt];
      if root.p.pid == pid {
        FirstPidIs(r, pid, 0);
        return root, rootAt;
      }
      var aux := root.next;
      ghost var i, at := 1, Next(rootAt, |ring|);
      while aux != root
        invariant 1 <= i <= |ring| && at == Wrapped(rootAt + i, |ring|) && aux == ring[at]
        invariant forall j :: 0 <= j < i ==> r[j].task.pid != pid
        decreases |ring| - i
      {
        assert at != rootAt && i < |ring|;
        assert NodeOk(ring, procs, at) && r[i] == slots[at];
        if aux.p.pid == pid {
          FirstPidIs(r, pid, i);
          return aux, at;
        }
        aux := aux.next;
        i, at := i + 1, Next(at, |ring|);
      }
      assert at == rootAt;
      FirstPidIs(r, pid, |ring|);
      return null, |ring|;
    }

    /** Seen from another node of the cycle. */
    method SetCurrent(n: Node, ghost m: nat)
      requires Linked() && m < |ring| && n == ring[m]
      modifies `currentNode, `ring, `procs, `rootAt
      ensures Linked() && Model() == Turned(old(Model()), m)
      ensures ring == Rotated(old(ring), m) && procs == Rotated(old(procs), m)
    {
      ghost var r, q := RotatedRing(ring, procs, m);
      assert n == r[0];
      currentNode := n;
      rootAt := if rootAt >= m then rootAt - m else rootAt + |ring| - m;
      ring, procs := r, q;
    }

    /** A change of the process and the quanta at `k` alone. */
    twostate lemma OnlySlot(k: nat)
      requires old(Linked()) && k < |ring| && ring == old(ring) && procs == old(procs)
      requires nodeCount == old(nodeCount) && rootAt == old(rootAt)
      requires currentNode == old(currentNode) && root == old(root)
      requires forall i :: 0 <= i < |ring| ==> ring[i].p == old(ring[i].p) && ring[i].next == old(ring[i].next)
      requires forall i :: 0 <= i < |ring| && i != k ==>
                 ring[i].quantums == old(ring[i].quantums) && unchanged(procs[i])
      ensures Linked() && Model().ring == old(Model()).ring[k := SlotOf(ring[k], procs[k])]
    {
      forall i: nat | i < |ring| ensures NodeOk(ring, procs, i) {
        assert old(NodeOk(ring, procs, i));
      }
    }

    method SetState(p: Process, ghost k: nat, state: State)
      requires Linked() && k < |ring| && p == procs[k]
      modifies p`state
      ensures Linked() && Model() == RoundRobin.SetState(old(Model()), k, state)
    {
      p.state := state;
      OnlySlot(k);
    }

    method StartCurrent()
      requires Linked()
      modifies currentNode`quantums, currentNode.p`state
      ensures Linked()
      ensures var t := old(Model());
              Model() == t.(ring := t.ring[0 := Slot(t.ring[0].task.(state := RUNNING), t.ring[0].task.priority)])
    {
      assert NodeOk(ring, procs, 0);
      currentNode.p.state := RUNNING;
      currentNode.quantums := currentNode.p.priority;
      OnlySlot(0);
    }

    method RunNext(from: Node, ghost at: nat)
      requires Linked() && at < |ring| && from == ring[at]
      requires FirstRunnable(Turned(Model(), at).ring) < |ring|
      modifies this, ring, procs
      ensures Linked() && Model() == RoundRobin.RunNext(Turned(old(Model()), at))
    {
      ghost var s := Model();
      ghost var k := FirstRunnable(Turned(s, at).ring);
      var n := FindNext(from, s.ring, at, k);
      ghost var m := Wrapped(at + k, |ring|);
      assert Turned(Turned(s, at), k) == Turned(s, m) by { TurnedTwice(s, at, k); }
      SetCurrent(n, m);
      assert currentNode == old(ring[m]) && currentNode.p == old(procs[m]) by { assert NodeOk(ring, procs, 0); }
      StartCurrent();
    }

    method ProcessReady(pid: nat)
      requires Linked()
      modifies procs`state
      ensures Linked() && Model() == Step(old(Model()), MakeReady(pid))
    {
      var aux, k := FindNode(pid);
      if aux != null {
        assert NodeOk(ring, procs, k);
        SetState(aux.p, k, READY);
      }
    }

    method BlockProcess(pid: nat)
      requires Linked()
      modifies procs`state
      ensures Linked() && Model() == Step(old(Model()), Block(pid))
    {
      var aux, k := FindNode(pid);
      if aux != null {
        assert NodeOk(ring, procs, k);
        SetState(aux.p, k, BLOCKED);
      }
    }

    method ChangePriority(priority: nat, pid: nat)
      requires Linked() && priority < MODULUS
      modifies procs`priority
      ensures Linked() && Model() == Step(old(Model()), SetPriority(pid, priority))
    {
      var aux, k := FindNode(pid);
      if aux != null {
        assert NodeOk(ring, procs, k);
        aux.p.priority := priority;
        OnlySlot(k);
      }
    }

    method DisableScheduler()
      requires Linked()
      modifies `pendingDisables
      ensures Linked() && Model() == Step(old(Model()), Disable)
    {
      pendingDisables := pendingDisables + 1;
    }

    method EnableScheduler()
      requires Linked()
      modifies `pendingDisables
      ensures Linked() && Model() == Step(old(Model()), Enable)
    {
      if pendingDisables > 0 {
        pendingDisables := pendingDisables - 1;
      }
    }

    /** A node put in after the current one. */
    twostate lemma Grown(new n: Node, new p: Process)
      requires old(Linked()) && n.p == p && n.quantums == p.priority && n.next == old(currentNode.next)
      requires InsertedIn(old(ring), n, ring) && InsertedIn(old(procs), p, procs)
      requires forall i :: 0 <= i < |old(ring)| ==> KeptNode(old(ring)[i])
      requires forall i :: 1 <= i < |old(ring)| ==> old(ring)[i].next == old(ring[i].next)
      requires old(currentNode).next == n && forall i :: 0 <= i < |old(procs)| ==> KeptProcess(old(procs)[i])
      ensures forall i :: 0 <= i < |ring| ==> NodeOk(ring, procs, i)
      ensures Slots(ring, procs) == [old(Model()).ring[0], Slot(p.Value(), p.priority)] + old(Model()).ring[1..]
    {
      forall i: nat | i < |ring| ensures NodeOk(ring, procs, i) {
        assert old(NodeOk(ring, procs, 0));
        if i >= 2 {
          assert old(NodeOk(ring, procs, i - 1)) && KeptNode(ring[i]);
        } else if i == 0 {
          assert KeptNode(old(ring)[0]);
        }
      }
      forall i: nat | 2 <= i < |ring| ensures SlotOf(ring[i], procs[i]) == old(Model()).ring[i - 1] {
        assert KeptNode(ring[i]) && KeptProcess(procs[i]);
      }
      assert KeptNode(ring[0]) && KeptProcess(procs[0]);
    }

    method InsertNode(p: Process)
      requires Linked() && p !in procs
      modifies `nodeCount, `ring, `procs, currentNode`next
      ensures |ring| == |procs| == nodeCount && Distinct(ring) && Distinct(procs)
      ensures forall i :: 0 <= i < |ring| ==> NodeOk(ring, procs, i)
      ensures Slots(ring, procs) == [old(Model()).ring[0], Slot(p.Value(), p.priority)] + old(Model()).ring[1..]
      ensures InsertedIn(old(ring), ring[1], ring) && fresh(ring[1]) && InsertedIn(old(procs), p, procs)
    {
      var n := new Node(p, p.priority);
      assert NodeOk(ring, procs, 0);
      n.next := currentNode.next;
      currentNode.next := n;
      nodeCount := nodeCount + 1;
      ring := InsertSecond(ring, n);
      procs := InsertSecond(procs, p);
      Grown(n, p);
    }

    method BearChild()
      requires Linked()
      modifies currentNode.p`children
      ensures Linked() && Model() == Bear(old(Model()))
    {
      assert NodeOk(ring, procs, 0);
      currentNode.p.children := (currentNode.p.children + 1) % MODULUS;
      OnlySlot(0);
    }

    /** insertNode and the count that addProcess keeps. */
    method CountIn(p: Process)
      requires Linked() && p !in procs
      modifies `nodeCount, `rootAt, `ring, `procs, currentNode`next
      ensures Linked() && Model() == Inserted(old(Model()), old(p.Value()))
      ensures InsertedIn(old(ring), ring[1], ring) && fresh(ring[1]) && InsertedIn(old(procs), p, procs)
    {
      ghost var t := Inserted(Model(), p.Value());
      InsertNode(p);
      assert Slots(ring, procs) == t.ring;
      rootAt := if rootAt == 0 then 0 else rootAt + 1;
      assert Slots(ring, procs) == t.ring;
      RootMovesUp(old(ring), ring[1], ring, old(rootAt));
    }

    /** addProcess of a process that has been created. */
    method AddProcess(p: Process)
      requires Linked() && p !in procs && Allowed(Model(), Add(p.Value()))
      modifies `nodeCount, `rootAt, `ring, `procs, currentNode`next, currentNode.p`children
      ensures Linked() && Model() == Step(old(Model()), Add(old(p.Value())))
      ensures InsertedIn(old(ring), ring[1], ring) && fresh(ring[1]) && InsertedIn(old(procs), p, procs)
    {
      assert currentNode.p == procs[0] by { assert NodeOk(ring, procs, 0); }
      BearChild();
      CountIn(p);
    }

    /** The parent loses a child, and is made READY with its last one. */
    method LoseChild(parent: Process, ghost k: nat)
      requires Linked() && k < |ring| && parent == procs[k] && k == Find(Model(), Model().ring[k].task.pid)
      modifies procs`state, procs`children
      ensures Linked() && Model() == RoundRobin.LoseChild(old(Model()), k)
    {
      ghost var s := Model();
      ChildLost(s, k);
      var last := CountChild(parent, k);
      if last {
        ProcessReady(parent.pid);
      }
    }

    method CountChild(p: Process, ghost k: nat) returns (last: bool)
      requires Linked() && k < |ring| && p == procs[k]
      modifies p`children
      ensures Linked() && Model() == ChildOff(old(Model()), k) && last == (ChildrenLeft(old(Model()), k) == 0)
      ensures p.pid == old(Model()).ring[k].task.pid
    {
      p.children := (p.children + MODULUS - 1) % MODULUS;
      last := p.children == 0;
      OnlySlot(k);
    }

    /** The node after the one at `k` taken out, and its process moved to `k`. */
    twostate lemma Shrunk(k: nat)
      requires old(Linked()) && k + 1 < |old(ring)|
      requires DroppedFrom(old(ring), k + 1, ring) && DroppedFrom(old(procs), k, procs)
      requires forall i :: 0 <= i < |old(ring)| && i != k ==>
                 KeptNode(old(ring)[i]) && old(ring)[i].next == old(ring[i].next)
      requires old(ring)[k].p == old(procs)[k + 1] && old(ring)[k].next == old(ring[k + 1].next)
      requires old(ring)[k].quantums == old(ring[k].quantums)
      requires forall i :: 0 <= i < |old(procs)| ==> KeptProcess(old(procs)[i])
      ensures forall i :: 0 <= i < |ring| ==> NodeOk(ring, procs, i)
      ensures Slots(ring, procs) == DropAt(old(Model()), k).ring
    {
      forall i: nat | i < |ring| ensures NodeOk(ring, procs, i) {
        if i == k {
          assert old(NodeOk(ring, procs, k + 1));
        } else {
          assert old(NodeOk(ring, procs, Kept(k + 1, i))) && KeptNode(ring[i]);
        }
      }
      forall i: nat | i < |ring| ensures SlotOf(ring[i], procs[i]) == DropAt(old(Model()), k).ring[i] {
        assert procs[i] == old(procs)[Kept(k, i)] && ring[i] == old(ring)[Kept(k + 1, i)];
        assert KeptProcess(procs[i]) && (i != k ==> KeptNode(ring[i]));
      }
    }

    /** `n` takes the next process over and is linked past its node. */
    method TakeOver(n: Node, ghost k: nat)
      requires Linked() && k + 1 < |ring| && n == ring[k]
      modifies `nodeCount, `ring, `procs, n`p, n`next
      ensures 0 < |ring| == |procs| == nodeCount && currentNode == ring[0] && Distinct(ring) && Distinct(procs)
      ensures forall i :: 0 <= i < |ring| ==> NodeOk(ring, procs, i)
      ensures Slots(ring, procs) == DropAt(old(Model()), k).ring
      ensures DroppedFrom(old(ring), k + 1, ring) && DroppedFrom(old(procs), k, procs) && n.p == old(procs)[k + 1]
    {
      assert NodeOk(ring, procs, k) && NodeOk(ring, procs, k + 1);
      nodeCount := nodeCount - 1;
      n.p := n.next.p;
      n.next := n.next.next;
      ring := DropOne(ring, k + 1);
      procs := DropOne(procs, k);
      Shrunk(k);
    }

    /** The node of the process that follows `n` is given up, and `n` takes that process over. */
    method GiveUpNext(n: Node, ghost k: nat)
      requires Linked() && k + 1 < |ring| && n == ring[k] && (rootAt == k + 1 ==> procs[k + 1].pid == 0)
      modifies `nodeCount, `root, `rootAt, `ring, `procs, n`p, n`next
      ensures Linked() && Model() == DropAt(old(Model()), k)
      ensures DroppedFrom(old(ring), k + 1, ring) && DroppedFrom(old(procs), k, procs)
    {
      assert Model().ring[k + 1].task.pid == procs[k + 1].pid;
      TakeOver(n, k);
      MoveRoot(n, k, old(ring));
    }

    /** The root moves to `n` if that now holds the process with pid 0. */
    method MoveRoot(n: Node, ghost k: nat, ghost was: seq<Node>)
      requires DroppedFrom(was, k + 1, ring) && n == was[k] && rootAt < |was| && root == was[rootAt]
      requires rootAt == k + 1 ==> n.p.pid == 0
      modifies `root, `rootAt
      ensures rootAt < |ring| && root == ring[rootAt]
      ensures rootAt == if n.p.pid == 0 then k else if old(rootAt) <= k then old(rootAt) else old(rootAt) - 1
    {
      if n.p.pid == 0 {
        root := n;
      }
      RootStays(was, k, rootAt, ring, n.p.pid == 0);
      rootAt := if n.p.pid == 0 then k else if rootAt <= k then rootAt else rootAt - 1;
    }

    method RemoveNode(n: Node, ghost k: nat) returns (ghost gone: bool)
      requires Linked() && k + 1 < |ring| && n == ring[k] && (rootAt == k + 1 ==> procs[k + 1].pid == 0)
      modifies procs`state, procs`children, `nodeCount, `root, `rootAt, `ring, `procs, n`p, n`next
      ensures Linked() && Model() == Remove(old(Model()), k)
      ensures !gone ==> ring == old(ring) && procs == old(procs)
      ensures gone ==> DroppedFrom(old(ring), k + 1, ring) && DroppedFrom(old(procs), k, procs)
    {
      gone := false;
      ghost var s := Model();
      assert currentNode.p.parent == s.ring[0].task.parent by { assert NodeOk(ring, procs, 0); }
      var parent, pk := FindNode(currentNode.p.parent);
      if parent != null {
        gone := true;
        assert parent.p == procs[pk] by { assert NodeOk(ring, procs, pk); }
        LoseChild(parent.p, pk);
        GiveUpNext(n, k);
        assert Model() == DropAt(RoundRobin.LoseChild(s, pk), k);
      }
    }

    method KillOther(n: Node, ghost k: nat)
      requires Linked() && k + 1 < |ring| && n == ring[k] && (rootAt == k + 1 ==> procs[k + 1].pid == 0)
      modifies this, ring, procs
      ensures Linked() && Model() == Remove(RoundRobin.SetState(old(Model()), k, KILLED), k)
    {
      assert NodeOk(ring, procs, k);
      SetState(n.p, k, KILLED);
      var gone := RemoveNode(n, k);
    }

    /** killProcess; of the current process it only marks it and does not return, because the next tick
        removes it. */
    method KillProcess(pid: nat)
      requires Linked() && CanKill(Model(), pid) && procs[rootAt].pid == 0
      modifies this, ring, procs
      ensures Linked() && Model() == Killed(old(Model()), pid)
    {
      assert NodeOk(ring, procs, 0) && Model().ring[0] == SlotOf(ring[0], procs[0]);
      if currentNode.p.pid == pid {
        KillCurrentProcess();
        return;
      }
      var aux, k := FindNode(pid);
      if aux != null {
        KillOther(aux, k);
      }
    }

    method BlockCurrentProcess()
      requires Linked()
      modifies currentNode.p`state
      ensures Linked() && Model() == RoundRobin.SetState(old(Model()), 0, BLOCKED)
    {
      assert NodeOk(ring, procs, 0);
      SetState(currentNode.p, 0, BLOCKED);
    }

    method KillCurrentProcess()
      requires Linked()
      modifies currentNode.p`state
      ensures Linked() && Model() == RoundRobin.SetState(old(Model()), 0, KILLED)
    {
      assert NodeOk(ring, procs, 0);
      SetState(currentNode.p, 0, KILLED);
    }

    method ForceNextSwitch()
      requires Linked()
      modifies `forceNext
      ensures Linked() && Model() == Step(old(Model()), Force)
    {
      forceNext := true;
    }

    /** schedule's first statements: the stack pointer is saved and the tick counted. */
    method Save(sp: nat)
      requires Linked()
      modifies procs`sp, ring`quantums
      ensures Linked() && Model() == Counted(old(Model()), sp)
    {
      assert NodeOk(ring, procs, 0);
      currentNode.p.sp := sp;
      if currentNode.p.state == RUNNING {
        currentNode.quantums := (currentNode.quantums + 1) % MODULUS;
      }
      OnlySlot(0);
    }

    /** The current process is removed and the next one that can run takes its place. */
    method Bury()
      requires Linked() && |ring| > 1 && procs[rootAt].pid == 0
      requires FirstRunnable(Remove(Model(), 0).ring) < |Remove(Model(), 0).ring|
      modifies this, ring, procs
      ensures Linked() && Model() == RoundRobin.RunNext(Remove(old(Model()), 0))
    {
      var gone := RemoveNode(currentNode, 0);
      StillThere(old(ring), 1, ring);
      StillThere(old(procs), 0, procs);
      assert Turned(Model(), 0) == Model() by { TurnedByNone(Model()); }
      RunNext(currentNode, 0);
    }

    /** The current process goes to the back, READY if its quanta ran out or the switch was forced. */
    method Yield()
      requires Linked() && |ring| > 1 && Switches(Model()) && Model().ring[0].task.state != KILLED
      requires FirstRunnable(Candidates(Model()).ring) < |Candidates(Model()).ring|
      modifies this, ring, procs
      ensures Linked() && Model() == RoundRobin.RunNext(Candidates(old(Model())))
    {
      assert NodeOk(ring, procs, 0);
      if currentNode.p.state != BLOCKED {
        forceNext := false;
        SetState(currentNode.p, 0, READY);
        assert NodeOk(ring, procs, 0);
      }
      RunNext(currentNode.next, 1);
    }

    /** Called with the stack pointer of the interrupted process at every timer tick and forced switch; it
        returns the stack pointer to go on with. */
    method Schedule(sp: nat) returns (r: nat)
      requires Linked() && procs[rootAt].pid == 0 && Tickable(Model(), sp)
      modifies this, ring, procs
      ensures Linked() && Model() == RoundRobin.Schedule(old(Model()), sp) && r == Resumed(old(Model()), sp)
    {
      if pendingDisables == 0 {
        if nodeCount == 1 {
          return sp;
        }
        Save(sp);
        assert NodeOk(ring, procs, 0);
        if currentNode.p.state == KILLED {
          Bury();
        } else if currentNode.p.state == BLOCKED || currentNode.quantums > QUANTUM_MAX || forceNext {
          Yield();
        }
      }
      assert NodeOk(ring, procs, 0) && Model().ring[0] == SlotOf(ring[0], procs[0]);
      r := currentNode.p.sp;
    }
  }

  ghost function ChildrenLeft(s: Sched, k: nat): nat
    requires k < |s.ring|
  {
    (s.ring[k].task.children + MODULUS - 1) % MODULUS
  }

  ghost function ChildOff(s: Sched, k: nat): Sched
    requires k < |s.ring|
  {
    Edit(s, k, s.ring[k].task.(children := ChildrenLeft(s, k)))
  }

  lemma {:induction false} FirstPidSame(a: seq<Slot>, b: seq<Slot>, pid: nat)
    requires |a| == |b| && forall i :: 0 <= i < |a| ==> a[i].task.pid == b[i].task.pid
    ensures FirstPid(a, pid) == FirstPid(b, pid)
  {
    FirstPidIs(b, pid, FirstPid(a, pid));
  }

  /** The child is taken off, and the parent, which the search for its own pid finds, made READY. */
  lemma ChildLost(s: Sched, k: nat)
    requires s.root < |s.ring| && k < |s.ring| && k == Find(s, s.ring[k].task.pid)
    ensures RoundRobin.LoseChild(s, k) ==
            if ChildrenLeft(s, k) == 0 then Step(ChildOff(s, k), MakeReady(s.ring[k].task.pid)) else ChildOff(s, k)
  {
    var t := ChildOff(s, k);
    FirstPidSame(Rotated(s.ring, s.root), Rotated(t.ring, t.root), s.ring[k].task.pid);
  }
}
