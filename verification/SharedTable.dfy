/** The shared structure of Userland/uCodeModule/phylo.c and what take_fork and put_fork do to it while
    they hold the mutex, proved to be what the protocol's steps do. */
module SharedTable {
  import opened Philosophers
  import opened PhilosopherLaws

  datatype Seats = Seats(mode: seq<Mode>, lock: seq<nat>)

  ghost predicate WellSized(x: Seats, n: nat) { MIN <= n <= |x.mode| == |x.lock| }

  /** Philosopher `id` starts EATING and gets its token, if it wants to and its neighbours let it. */
  function Tested(x: Seats, n: nat, id: nat): (y: Seats)
    requires WellSized(x, n) && id < |x.mode|
    ensures WellSized(y, n) && |y.mode| == |x.mode| && !Passes(y.mode, n, id)
  {
    if Passes(x.mode, n, id) then Seats(x.mode[id := Eating], Post(x.lock, id)) else x
  }

  function Taken(x: Seats, n: nat, id: nat): (y: Seats)
    requires WellSized(x, n) && id < n
    ensures WellSized(y, n) && |y.mode| == |x.mode|
  {
    Tested(x.(mode := x.mode[id := Hungry]), n, id)
  }

  function Put(x: Seats, n: nat, id: nat): (y: Seats)
    requires WellSized(x, n) && id < n
    ensures WellSized(y, n) && |y.mode| == |x.mode|
  {
    Tested(Tested(x.(mode := x.mode[id := Thinking]), n, Left(id, n)), n, Right(id, n))
  }

  class SharedData {
    var count: nat
    const state: array<Mode>
    const hungryLock: array<nat>

    ghost predicate Valid()
      reads this, state, hungryLock
    {
      MIN <= count <= state.Length == hungryLock.Length
    }

    ghost function Contents(): (x: Seats)
      requires Valid()
      reads this, state, hungryLock
      ensures Philosophers.MIN <= count <= |x.mode| == |x.lock| == state.Length
    {
      Seats(state[..], hungryLock[..])
    }

    constructor (n: nat, cap: nat)
      requires MIN <= n <= cap
      ensures Valid() && fresh(state) && fresh(hungryLock) && count == n && state.Length == cap
      ensures Contents() == Seats(seq(cap, i => Thinking), seq(cap, i => 0))
    {
      count := n;
      state := new Mode[cap](i => Thinking);
      hungryLock := new nat[cap](i => 0);
    }

    method Test(id: nat)
      requires Valid() && id < state.Length
      modifies state, hungryLock
      ensures Valid() && Contents() == Tested(old(Contents()), count, id)
    {
      if state[id] == Hungry && state[Left(id, count)] != Eating && state[Right(id, count)] != Eating {
        state[id] := Eating;
        hungryLock[id] := hungryLock[id] + 1;
      }
    }

    /** take_fork between its wait on the mutex and its post. */
    method TakeFork(id: nat)
      requires Valid() && id < count
      modifies state, hungryLock
      ensures Valid() && Contents() == Taken(old(Contents()), count, id)
      ensures state[id] == Eating || state[Left(id, count)] == Eating || state[Right(id, count)] == Eating
    {
      state[id] := Hungry;
      assert Contents() == old(Contents()).(mode := old(Contents()).mode[id := Hungry]);
      Test(id);
      assert state[..] == Contents().mode;
    }

    /** put_fork between its wait on the mutex and its post. */
    method PutFork(id: nat)
      requires Valid() && id < count
      modifies state, hungryLock
      ensures Valid() && Contents() == Put(old(Contents()), count, id)
      ensures !Passes(state[..], count, Left(id, count)) && !Passes(state[..], count, Right(id, count))
    {
      state[id] := Thinking;
      assert Contents() == old(Contents()).(mode := old(Contents()).mode[id := Thinking]);
      Test(Left(id, count));
      ghost var x := Contents();
      Test(Right(id, count));
      TestedAfter(x, count, id);
    }
  }

  /** Testing the right neighbour does not give the left one a turn it was refused. */
  lemma TestedAfter(x: Seats, n: nat, id: nat)
    requires WellSized(x, n) && id < n && !Passes(x.mode, n, Left(id, n))
    ensures !Passes(Tested(x, n, Right(id, n)).mode, n, Left(id, n))
  {
  }

  /** take_fork's critical section, run by the steps of the protocol, is `Taken`. */
  lemma TakeSteps(s: Table, i: nat) returns (k: nat)
    requires Shape(s) && i < s.count && s.pc[i].TakeSet?
    ensures var y := Taken(Seats(s.mode, s.lock), s.count, i);
            Alone(s, i, k) == s.(mode := y.mode, lock := y.lock, pc := s.pc[i := TakeRelease])
  {
    var s1 := s.(pc := s.pc[i := TakeTest], mode := s.mode[i := Hungry]);
    if Passes(s1.mode, s.count, i) {
      var s2 := s1.(pc := s.pc[i := TakePost], mode := s1.mode[i := Eating]);
      k := 3;
      Again(s, i, 3, s1);
      Again(s1, i, 2, s2);
      Again(s2, i, 1, s2.(pc := s.pc[i := TakeRelease], lock := Post(s.lock, i)));
    } else {
      k := 2;
      Again(s, i, 2, s1);
      Again(s1, i, 1, s1.(pc := s.pc[i := TakeRelease]));
    }
  }

  lemma LeftSteps(s: Table, i: nat) returns (k: nat)
    requires Shape(s) && i < s.count && s.pc[i].LeftTest?
    ensures var y := Tested(Seats(s.mode, s.lock), s.count, Left(i, s.count));
            Alone(s, i, k) == s.(mode := y.mode, lock := y.lock, pc := s.pc[i := RightTest])
  {
    var l := Left(i, s.count);
    if Passes(s.mode, s.count, l) {
      var s1 := s.(pc := s.pc[i := LeftPost(l)], mode := s.mode[l := Eating]);
      k := 2;
      Again(s, i, 2, s1);
      Again(s1, i, 1, s1.(pc := s.pc[i := RightTest], lock := Post(s.lock, l)));
    } else {
      k := 1;
      Again(s, i, 1, s.(pc := s.pc[i := RightTest]));
    }
  }

  lemma RightSteps(s: Table, i: nat) returns (k: nat)
    requires Shape(s) && i < s.count && s.pc[i].RightTest?
    ensures var y := Tested(Seats(s.mode, s.lock), s.count, Right(i, s.count));
            Alone(s, i, k) == s.(mode := y.mode, lock := y.lock, pc := s.pc[i := PutRelease])
  {
    var r := Right(i, s.count);
    if Passes(s.mode, s.count, r) {
      var s1 := s.(pc := s.pc[i := RightPost(r)], mode := s.mode[r := Eating]);
      k := 2;
      Again(s, i, 2, s1);
      Again(s1, i, 1, s1.(pc := s.pc[i := PutRelease], lock := Post(s.lock, r)));
    } else {
      k := 1;
      Again(s, i, 1, s.(pc := s.pc[i := PutRelease]));
    }
  }

  lemma {:induction false} AloneAgain(s: Table, i: nat, a: nat, b: nat, r: Table)
    requires Shape(s) && i < |s.pc| && r == Alone(s, i, a)
    ensures Alone(s, i, a + b) == Alone(r, i, b)
    decreases a
  {
    if a > 0 {
      var t := MoveEffect(s, i);
      Again(s, i, a, t);
      AloneAgain(t, i, a - 1, b, r);
    }
  }

  lemma BothTests(s: Table, i: nat) returns (k: nat)
    requires Shape(s) && i < s.count && s.pc[i].LeftTest?
    ensures var y := Tested(Tested(Seats(s.mode, s.lock), s.count, Left(i, s.count)), s.count, Right(i, s.count));
            Alone(s, i, k) == s.(mode := y.mode, lock := y.lock, pc := s.pc[i := PutRelease])
  {
    var a := LeftSteps(s, i);
    var r := Alone(s, i, a);
    var b := RightSteps(r, i);
    AloneAgain(s, i, a, b, r);
    k := a + b;
  }

  /** put_fork's critical section, run by the steps of the protocol, is `Put`. */
  lemma PutSteps(s: Table, i: nat) returns (k: nat)
    requires Shape(s) && i < s.count && s.pc[i].PutSet?
    ensures var y := Put(Seats(s.mode, s.lock), s.count, i);
            Alone(s, i, k) == s.(mode := y.mode, lock := y.lock, pc := s.pc[i := PutRelease])
  {
    var s1 := s.(pc := s.pc[i := LeftTest], mode := s.mode[i := Thinking]);
    var a := BothTests(s1, i);
    k := a + 1;
    Again(s, i, k, s1);
  }
}
