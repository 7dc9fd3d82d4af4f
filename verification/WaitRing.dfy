/** The ring of waiting processes in a semaphore of Kernel/semaphore.c: 50 slots and two counters that only
    the slot index reduces. */
module WaitRing {
  const MAX_PROC: nat := 50
  const FREE: int := -1

  datatype Ring = Ring(slots: seq<int>, first: nat, last: nat)

  ghost predicate Shape(r: Ring) { |r.slots| == MAX_PROC && r.first <= r.last }

  /** The processes in the ring, oldest first. */
  function Entries(r: Ring): (q: seq<int>)
    requires Shape(r)
    ensures |q| == r.last - r.first
    ensures forall i :: 0 <= i < |q| ==> q[i] == r.slots[(r.first + i) % MAX_PROC]
  {
    seq(r.last - r.first, i requires 0 <= i => r.slots[(r.first + i) % MAX_PROC])
  }

  /** No more entries than slots, and all of them processes. */
  ghost predicate Sound(r: Ring) {
    Shape(r) && r.last - r.first <= MAX_PROC && forall i :: 0 <= i < |Entries(r)| ==> Entries(r)[i] != FREE
  }

  function Put(r: Ring, pid: nat): (t: Ring)
    requires Shape(r)
    ensures Shape(t)
  {
    r.(slots := r.slots[r.last % MAX_PROC := pid], last := r.last + 1)
  }

  /** sem_wait's loop takes back the newest entry. */
  function Retracted(r: Ring): (t: Ring)
    requires Shape(r)
    ensures Shape(t)
  {
    if r.last == r.first then r else r.(last := r.last - 1)
  }

  /** updateProc: the process to wake, or FREE for none. */
  function Oldest(r: Ring): int
    requires Shape(r)
  {
    if r.last == r.first then FREE else r.slots[r.first % MAX_PROC]
  }

  function Woken(r: Ring): (t: Ring)
    requires Shape(r)
    ensures Shape(t)
  {
    if Oldest(r) == FREE then r else r.(slots := r.slots[r.first % MAX_PROC := FREE], first := r.first + 1)
  }

  lemma SlotsApart(a: nat, i: nat, j: nat)
    requires i < j < i + MAX_PROC
    ensures (a + i) % MAX_PROC != (a + j) % MAX_PROC
  {
  }

  /** Putting writes one slot. */
  lemma PutElsewhere(r: Ring, pid: nat, at: nat)
    requires Shape(r) && at % MAX_PROC != r.last % MAX_PROC
    ensures Put(r, pid).slots[at % MAX_PROC] == r.slots[at % MAX_PROC]
  {
  }

  lemma PutKeeps(r: Ring, pid: nat, i: nat)
    requires Sound(r) && i < |Entries(r)|
    ensures Entries(Put(r, pid))[i] == if i == 0 && |Entries(r)| == MAX_PROC then pid else Entries(r)[i]
  {
    if i > 0 || |Entries(r)| < MAX_PROC {
      SlotsApart(r.first, i, |Entries(r)|);
      PutElsewhere(r, pid, r.first + i);
    } else {
      assert r.last % MAX_PROC == r.first % MAX_PROC;
    }
  }

  /** Entering appends to the queue, exactly if there are fewer entries than slots, or the oldest entry is
      the process that enters. */
  lemma PutAppends(r: Ring, pid: nat)
    requires Sound(r)
    ensures Entries(Put(r, pid)) == Entries(r) + [pid] <==> |Entries(r)| < MAX_PROC || Entries(r)[0] == pid
    ensures |Entries(r)| < MAX_PROC ==> Sound(Put(r, pid))
  {
    forall i: nat | i < |Entries(r)|
      ensures Entries(Put(r, pid))[i] == if i == 0 && |Entries(r)| == MAX_PROC then pid else Entries(r)[i]
    {
      PutKeeps(r, pid, i);
    }
    assert Entries(Put(r, pid))[|Entries(r)|] == pid;
    var q := Entries(r) + [pid];
    if |Entries(r)| == MAX_PROC && Entries(r)[0] != pid {
      assert Entries(Put(r, pid))[0] != q[0];
    }
  }

  /** A process that finds the semaphore free after all takes back its own entry and no other. */
  lemma PutRetracted(r: Ring, pid: nat)
    requires Sound(r) && |Entries(r)| < MAX_PROC
    ensures Entries(Retracted(Put(r, pid))) == Entries(r) && Sound(Retracted(Put(r, pid)))
  {
    PutAppends(r, pid);
    var t := Retracted(Put(r, pid));
    assert Entries(t) == Entries(Put(r, pid))[..|Entries(r)|];
  }

  /** A post wakes the oldest entry and takes it out; with none it changes nothing. */
  lemma WokenIsOldest(r: Ring)
    requires Sound(r)
    ensures Oldest(r) == (if Entries(r) == [] then FREE else Entries(r)[0])
    ensures Entries(Woken(r)) == (if Entries(r) == [] then [] else Entries(r)[1..]) && Sound(Woken(r))
  {
    if r.last > r.first {
      assert r.slots[r.first % MAX_PROC] == Entries(r)[0];
      forall i: nat | 0 < i < |Entries(r)| ensures Entries(Woken(r))[i - 1] == Entries(r)[i] {
        SlotsApart(r.first, 0, i);
      }
    }
  }

  datatype Op = Enter(pid: nat) | EnterAndLeave(pid: nat) | Wake

  function Apply(r: Ring, op: Op): (t: Ring)
    requires Shape(r)
    ensures Shape(t)
  {
    match op
    case Enter(pid) => Put(r, pid)
    case EnterAndLeave(pid) => Retracted(Put(r, pid))
    case Wake => Woken(r)
  }

  function Run(r: Ring, ops: seq<Op>): (t: Ring)
    requires Shape(r)
    ensures Shape(t)
    decreases |ops|
  {
    if ops == [] then r else Run(Apply(r, ops[0]), ops[1..])
  }

  /** The queue that the ring stands for. */
  function Expected(q: seq<int>, op: Op): seq<int> {
    match op
    case Enter(pid) => q + [pid]
    case EnterAndLeave(_) => q
    case Wake => if q == [] then q else q[1..]
  }

  function ExpectedRun(q: seq<int>, ops: seq<Op>): seq<int>
    decreases |ops|
  {
    if ops == [] then q else ExpectedRun(Expected(q, ops[0]), ops[1..])
  }

  predicate HasRoom(q: seq<int>, ops: seq<Op>)
    decreases |ops|
  {
    ops == [] || ((ops[0].Wake? || |q| < MAX_PROC) && HasRoom(Expected(q, ops[0]), ops[1..]))
  }

  /** While nobody enters a ring of 50 entries, it is a first-in first-out queue over whole runs. */
  lemma {:induction false} RingIsQueue(r: Ring, ops: seq<Op>)
    requires Sound(r) && HasRoom(Entries(r), ops)
    ensures Entries(Run(r, ops)) == ExpectedRun(Entries(r), ops) && Sound(Run(r, ops))
    decreases |ops|
  {
    if ops != [] {
      match ops[0] {
        case Enter(pid) => PutAppends(r, pid);
        case EnterAndLeave(pid) => PutRetracted(r, pid);
        case Wake => WokenIsOldest(r);
      }
      RingIsQueue(Apply(r, ops[0]), ops[1..]);
    }
  }

  /** An entry into a full ring overwrites the oldest one and is woken in its place; the slot that both
      shared is then FREE, at which updateProc stops when its turn comes. */
  lemma FullRingLosesOldest(r: Ring, pid: nat)
    requires Sound(r) && |Entries(r)| == MAX_PROC
    ensures Oldest(Put(r, pid)) == pid
    ensures var t := Woken(Put(r, pid)); Shape(t) && |Entries(t)| == MAX_PROC && Entries(t)[MAX_PROC - 1] == FREE
  {
    assert r.last % MAX_PROC == r.first % MAX_PROC;
    var t := Woken(Put(r, pid));
    assert t.slots[(t.first + 49) % MAX_PROC] == FREE;
  }

  function Empty(): (r: Ring)
    ensures Shape(r)
  {
    Ring(seq(MAX_PROC, i => FREE), 0, 0)
  }

  function Repeat<T>(x: T, n: nat): (s: seq<T>) { seq(n, i => x) }

  /** A process that goes round sem_wait's loop leaves an entry at every turn. */
  lemma {:induction false} SpinningFills(r: Ring, pid: nat, n: nat)
    requires Sound(r) && |Entries(r)| + n <= MAX_PROC
    ensures Sound(Run(r, Repeat(Enter(pid), n)))
    ensures Entries(Run(r, Repeat(Enter(pid), n))) == Entries(r) + Repeat(pid as int, n)
    decreases n
  {
    if n > 0 {
      PutAppends(r, pid);
      SpinningFills(Put(r, pid), pid, n - 1);
      assert Repeat(Enter(pid), n)[1..] == Repeat(Enter(pid), n - 1);
      assert [pid] + Repeat(pid as int, n - 1) == Repeat(pid as int, n);
    }
  }

  /** So one process alone fills an empty ring in 50 turns, and the next that waits is woken before it. */
  lemma OneWaiterOverruns(pid: nat, other: nat)
    ensures var full := Run(Empty(), Repeat(Enter(pid), MAX_PROC));
            && Sound(full) && Entries(full) == Repeat(pid as int, MAX_PROC)
            && Oldest(Put(full, other)) == other
            && Entries(Woken(Put(full, other)))[MAX_PROC - 1] == FREE
  {
    SpinningFills(Empty(), pid, MAX_PROC);
    FullRingLosesOldest(Run(Empty(), Repeat(Enter(pid), MAX_PROC)), other);
  }

  class Waiters {
    const blocked: array<int>
    var first: nat
    var last: nat

    ghost predicate Valid()
      reads this, blocked
    {
      blocked.Length == MAX_PROC && first <= last
    }

    ghost function Contents(): (r: Ring)
      requires Valid()
      reads this, blocked
      ensures Shape(r)
    {
      Ring(blocked[..], first, last)
    }

    constructor ()
      ensures Valid() && fresh(blocked) && Contents() == Empty()
    {
      blocked := new int[MAX_PROC](i => FREE);
      first, last := 0, 0;
    }

    method Enter(pid: nat)
      requires Valid()
      modifies this, blocked
      ensures Valid() && Contents() == Put(old(Contents()), pid)
    {
      blocked[last % MAX_PROC] := pid;
      last := last + 1;
    }

    method Retract()
      requires Valid()
      modifies this
      ensures Valid() && Contents() == Retracted(old(Contents()))
    {
      if last != first {
        last := last - 1;
      }
    }

    /** updateProc; the process to make READY, or FREE. */
    method Update() returns (pid: int)
      requires Valid()
      modifies this, blocked
      ensures Valid() && pid == Oldest(old(Contents())) && Contents() == Woken(old(Contents()))
    {
      if last == first {
        return FREE;
      }
      var index := first;
      pid := blocked[index % MAX_PROC];
      if pid != FREE {
        first := index + 1;
        blocked[index % MAX_PROC] := FREE;
      }
    }
  }
}
