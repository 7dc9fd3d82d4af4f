/** What a philosopher and the main program do undisturbed: whole rounds of their loops, statement by statement,
    and the end of a philosopher that is removed. */
module PhiloRounds {
  import opened Philosophers
  import opened PhilosopherLaws

  // ---- A philosopher's round

  lemma PassesLock(s: Table, i: nat, k: nat, t: Table)
    requires Shape(s) && i < |s.pc| && s.pc[i].TakeLock? && s.lock[i] == 1 && k >= 1
    requires t == s.(pc := s.pc[i := PutWait], lock := s.lock[i := 0])
    ensures Shape(t) && Alone(s, i, k) == Alone(t, i, k - 1)
  {
    Again(s, i, k, t);
  }

  /** Undisturbed, a philosopher takes its forks and passes the wait on its hungry_lock. */
  lemma GetsForks(s: Table, i: nat, k: nat, u: Table)
    requires Shape(s) && i < s.count && s.pc[i].TakeWait? && s.mutex == 1 && s.lock[i] == 0 && k >= 6
    requires !s.mode[Left(i, s.count)].Eating? && !s.mode[Right(i, s.count)].Eating?
    requires u == s.(mode := s.mode[i := Eating], pc := s.pc[i := PutWait])
    ensures Shape(u) && Alone(s, i, k) == Alone(u, i, k - 6)
  {
    var t := s.(mode := s.mode[i := Eating], pc := s.pc[i := TakeLock], lock := Post(s.lock, i));
    TakesBoth(s, i, k, t);
    assert t.lock[i := 0] == s.lock && t.pc[i := PutWait] == u.pc;
    PassesLock(t, i, k - 5, u);
  }

  lemma WakesUp(s: Table, i: nat, k: nat, t: Table)
    requires Shape(s) && i < |s.pc| && s.pc[i].ParkWait? && s.mutex == 1 && s.park[i] == 1 && k >= 2
    requires t == s.(pc := s.pc[i := Check], park := s.park[i := 0], mutex := 0)
    ensures Shape(t) && Alone(s, i, k) == Alone(t, i, k - 2)
  {
    var s1 := s.(pc := s.pc[i := CheckWait], park := s.park[i := 0]);
    Again(s, i, k, s1);
    Again(s1, i, k - 1, t);
  }

  lemma GoesOn(s: Table, i: nat, k: nat, t: Table)
    requires Shape(s) && i < |s.pc| && s.pc[i].Check? && s.mutex == 0 && s.mode[i].Thinking? && k >= 2
    requires t == s.(pc := s.pc[i := TakeWait], mutex := 1)
    ensures Shape(t) && Alone(s, i, k) == Alone(t, i, k - 2)
  {
    var s1 := s.(pc := s.pc[i := StayRelease]);
    Again(s, i, k, s1);
    Again(s1, i, k - 1, t);
  }

  /** A process that is let go to leave, and finds its philosopher THINKING again, stays. */
  lemma StaysOn(s: Table, i: nat, k: nat, u: Table)
    requires Shape(s) && i < |s.pc| && s.pc[i].ParkWait? && s.mutex == 1 && s.park[i] == 1 && s.mode[i].Thinking?
    requires k >= 4
    requires u == s.(pc := s.pc[i := TakeWait], park := s.park[i := 0])
    ensures Shape(u) && Alone(s, i, k) == Alone(u, i, k - 4)
  {
    var t := s.(pc := s.pc[i := Check], park := s.park[i := 0], mutex := 0);
    WakesUp(s, i, k, t);
    assert t.pc[i := TakeWait] == u.pc;
    GoesOn(t, i, k - 2, u);
  }

  lemma StopsEating(s: Table, i: nat, k: nat, t: Table)
    requires Shape(s) && i < s.count && s.pc[i].PutWait? && s.mutex == 1 && k >= 4
    requires !s.mode[Left(i, s.count)].Hungry?
    requires t == s.(mode := s.mode[i := Thinking], pc := s.pc[i := RightTest], mutex := 0)
    ensures Shape(t) && Alone(s, i, k) == Alone(t, i, k - 3)
  {
    var s1 := s.(pc := s.pc[i := PutSet], mutex := 0);
    var s2 := s1.(pc := s.pc[i := LeftTest], mode := s.mode[i := Thinking]);
    Again(s, i, k, s1);
    Again(s1, i, k - 1, s2);
    Again(s2, i, k - 2, t);
  }

  lemma ComesToPark(s: Table, i: nat, k: nat, t: Table)
    requires Shape(s) && i < s.count && s.pc[i].RightTest? && s.mutex == 0 && s.park[i] == 0 && k >= 3
    requires !s.mode[Right(i, s.count)].Hungry?
    requires t == s.(pc := s.pc[i := ParkWait], park := s.park[i := 1], mutex := 1)
    ensures Shape(t) && Alone(s, i, k) == Alone(t, i, k - 3)
  {
    var s1 := s.(pc := s.pc[i := PutRelease]);
    var s2 := s1.(pc := s.pc[i := ParkPost], mutex := 1);
    Again(s, i, k, s1);
    Again(s1, i, k - 1, s2);
    Again(s2, i, k - 2, t);
  }

  /** It gives its forks back to two that do not want them, and offers to be parked. */
  lemma GivesBack(s: Table, i: nat, k: nat, u: Table)
    requires Shape(s) && i < s.count && s.pc[i].PutWait? && s.mutex == 1 && s.park[i] == 0 && k >= 6
    requires !s.mode[Left(i, s.count)].Hungry? && !s.mode[Right(i, s.count)].Hungry?
    requires u == s.(mode := s.mode[i := Thinking], pc := s.pc[i := ParkWait], park := s.park[i := 1])
    ensures Shape(u) && Alone(s, i, k) == Alone(u, i, k - 6)
  {
    var t := s.(mode := s.mode[i := Thinking], pc := s.pc[i := RightTest], mutex := 0);
    StopsEating(s, i, k, t);
    assert t.pc[i := ParkWait] == u.pc;
    assert Right(i, s.count) != i;
    ComesToPark(t, i, k - 3, u);
  }

  /** Undisturbed among philosophers that think, a philosopher goes once round its loop and leaves everything
      as it was: six statements to its forks, six to the end of put_fork and its offer to be parked, and four
      to the start. */
  lemma GoesRound(s: Table, i: nat) returns (eating: Table, parked: Table)
    requires Shape(s) && i < s.count && s.pc[i].TakeWait? && s.mutex == 1 && s.lock[i] == 0 && s.park[i] == 0
    requires forall j :: 0 <= j < s.count ==> s.mode[j].Thinking?
    ensures eating == s.(mode := s.mode[i := Eating], pc := s.pc[i := PutWait]) && Shape(eating)
    ensures parked == s.(pc := s.pc[i := ParkWait], park := s.park[i := 1]) && Shape(parked)
    ensures Alone(s, i, 6) == eating && Alone(eating, i, 6) == parked && Alone(parked, i, 4) == s
  {
    eating := s.(mode := s.mode[i := Eating], pc := s.pc[i := PutWait]);
    parked := s.(pc := s.pc[i := ParkWait], park := s.park[i := 1]);
    GetsForks(s, i, 6, eating);
    assert Left(i, s.count) != i && Right(i, s.count) != i;
    assert eating.mode[i := Thinking] == s.mode && eating.pc[i := ParkWait] == parked.pc;
    GivesBack(eating, i, 6, parked);
    assert parked.pc[i := TakeWait] == s.pc && parked.park[i := 0] == s.park;
    StaysOn(parked, i, 4, s);
  }

  /** Between its check and the end a philosopher that finds itself LEAVING only gives the mutex back. */
  lemma LeavesFromCheck(s: Table, i: nat, k: nat, t: Table)
    requires Shape(s) && i < |s.pc| && s.pc[i].Check? && s.mutex == 0 && s.mode[i].Leaving? && k >= 2
    requires t == s.(pc := s.pc[i := Gone], mutex := 1)
    ensures Shape(t) && Alone(s, i, k) == Alone(t, i, k - 2)
  {
    var s1 := s.(pc := s.pc[i := LeaveRelease]);
    Again(s, i, k, s1);
    Again(s1, i, k - 1, t);
  }

  /** A philosopher that is marked LEAVING and let go ends, with the mutex free. */
  lemma Leaves(s: Table, i: nat, k: nat, u: Table)
    requires Shape(s) && i < |s.pc| && s.pc[i].ParkWait? && s.mutex == 1 && s.park[i] == 1 && s.mode[i].Leaving?
    requires k >= 4
    requires u == s.(pc := s.pc[i := Gone], park := s.park[i := 0])
    ensures Shape(u) && Alone(s, i, k) == Alone(u, i, k - 4)
  {
    var t := s.(pc := s.pc[i := Check], park := s.park[i := 0], mutex := 0);
    WakesUp(s, i, k, t);
    assert t.pc[i := Gone] == u.pc;
    LeavesFromCheck(t, i, k - 2, u);
  }

  /** A process that has ended does nothing any more. */
  lemma StaysGone(s: Table, i: nat)
    requires Shape(s) && i < |s.pc| && s.pc[i].Gone?
    ensures !CanMove(s, Phylo(i))
  {
  }

  // ---- The main program's rounds

  lemma EndsRemoval(o: Table, s: Table, id: nat) returns (t: Table)
    requires Shape(o) && Shape(s) && Reaches(o, s) && s.main == RemoveCount(id) && s.mutex == 0 && s.count > MIN
    ensures t == s.(main := ShowWait, count := id, mutex := 1, park := Post(s.park, id)) && Shape(t) && Reaches(o, t)
  {
    var s1 := s.(main := RemoveRelease(id), count := id);
    var s2 := s1.(main := RemovePark(id), mutex := 1);
    t := s2.(main := ShowWait, park := Post(s.park, id));
    MainStep(o, s, OtherKey, s1);
    MainStep(o, s1, OtherKey, s2);
    MainStep(o, s2, OtherKey, t);
  }

  lemma AsksForOne(o: Table, s: Table) returns (t: Table)
    requires Shape(o) && Shape(s) && Reaches(o, s) && s.main == ShowWait && s.mutex == 1 && s.count < |s.mode|
    ensures t == s.(main := AddWait(s.count)) && Shape(t) && Reaches(o, t)
  {
    var s1 := s.(main := ShowRelease, mutex := 0);
    var s2 := s.(main := Idle);
    t := s.(main := AddWait(s.count));
    MainStep(o, s, OtherKey, s1);
    MainStep(o, s1, OtherKey, s2);
    MainStep(o, s2, AddKey, t);
  }

  /** The main program taking `k` steps with the same key and nobody else in between. */
  function MainAlone(s: Table, key: Key, k: nat): (t: Table)
    requires Shape(s)
    ensures Shape(t) && |t.mode| == |s.mode|
    decreases k
  {
    if k == 0 then s else MainAlone(MoveMain(s, key), key, k - 1)
  }

  lemma MainAgain(s: Table, key: Key, k: nat, t: Table)
    requires Shape(s) && t == MoveMain(s, key) && k > 0
    ensures MainAlone(s, key, k) == MainAlone(t, key, k - 1)
  {
  }

  /** Asked for nothing, or for what the count does not allow, it shows the table and is idle again. */
  lemma Shows(s: Table, key: Key)
    requires Shape(s) && s.main == Idle && s.mutex == 1
    requires key == OtherKey || (key == AddKey && s.count == |s.mode|) || (key == RemoveKey && s.count == MIN)
    ensures MainAlone(s, key, 3) == s
  {
    var s1 := s.(main := ShowWait);
    var s2 := s.(main := ShowRelease, mutex := 0);
    MainAgain(s, key, 3, s1);
    MainAgain(s1, key, 2, s2);
    MainAgain(s2, key, 1, s);
  }

  lemma Counts(s: Table, id: nat, k: nat, t: Table)
    requires Shape(s) && s.main == Idle && s.mutex == 1 && id == s.count < |s.mode| && k >= 4
    requires t == s.(main := AddExec(id), mutex := 0, count := id + 1, mode := s.mode[id := Thinking])
    ensures Shape(t) && MainAlone(s, AddKey, k) == MainAlone(t, AddKey, k - 4)
  {
    var s1 := s.(main := AddWait(id));
    var s2 := s.(main := AddMode(id), mutex := 0);
    var s3 := s2.(main := AddCount(id), mode := s.mode[id := Thinking]);
    MainAgain(s, AddKey, k, s1);
    MainAgain(s1, AddKey, k - 1, s2);
    MainAgain(s2, AddKey, k - 2, s3);
    MainAgain(s3, AddKey, k - 3, t);
  }

  /** Asked for a philosopher, it seats and starts one in the next slot, if there is one, and shows the table. */
  lemma Adds(s: Table, k: nat, u: Table)
    requires Shape(s) && s.main == Idle && s.mutex == 1 && s.count < |s.mode| && k >= 6
    requires u == s.(main := ShowWait, count := s.count + 1, mode := s.mode[s.count := Thinking],
                     pc := s.pc[s.count := TakeWait])
    ensures Shape(u) && MainAlone(s, AddKey, k) == MainAlone(u, AddKey, k - 6)
  {
    var id := s.count;
    var t := s.(main := AddExec(id), mutex := 0, count := id + 1, mode := s.mode[id := Thinking]);
    Counts(s, id, k, t);
    var t1 := t.(main := AddRelease, pc := s.pc[id := TakeWait]);
    MainAgain(t, AddKey, k - 4, t1);
    MainAgain(t1, AddKey, k - 5, u);
  }

  lemma TakesOut(s: Table, id: nat, k: nat, t: Table)
    requires Shape(s) && s.main == Idle && s.mutex == 1 && MIN < s.count == id + 1 && s.park[id] == 1 && k >= 4
    requires t == s.(main := RemoveCount(id), mutex := 0, mode := s.mode[id := Leaving], park := s.park[id := 0])
    ensures Shape(t) && MainAlone(s, RemoveKey, k) == MainAlone(t, RemoveKey, k - 4)
  {
    var s1 := s.(main := RemoveUnpark(id));
    var s2 := s.(main := RemoveWait(id), park := s.park[id := 0]);
    var s3 := s2.(main := RemoveMode(id), mutex := 0);
    MainAgain(s, RemoveKey, k, s1);
    MainAgain(s1, RemoveKey, k - 1, s2);
    MainAgain(s2, RemoveKey, k - 2, s3);
    MainAgain(s3, RemoveKey, k - 3, t);
  }

  lemma LetsGo(s: Table, id: nat, k: nat, t: Table)
    requires Shape(s) && s.main == RemoveCount(id) && s.mutex == 0 && k >= 3
    requires t == s.(main := ShowWait, count := id, mutex := 1, park := Post(s.park, id))
    ensures Shape(t) && MainAlone(s, RemoveKey, k) == MainAlone(t, RemoveKey, k - 3)
  {
    var s1 := s.(main := RemoveRelease(id), count := id);
    var s2 := s1.(main := RemovePark(id), mutex := 1);
    MainAgain(s, RemoveKey, k, s1);
    MainAgain(s1, RemoveKey, k - 1, s2);
    MainAgain(s2, RemoveKey, k - 2, t);
  }

  /** Asked to take one away, it marks the last, which must be parked, LEAVING, and lets it go. */
  lemma Removes(s: Table, id: nat, k: nat, u: Table)
    requires Shape(s) && s.main == Idle && s.mutex == 1 && MIN < s.count == id + 1 && s.park[id] == 1 && k >= 7
    requires u == s.(main := ShowWait, count := id, mode := s.mode[id := Leaving])
    ensures Shape(u) && MainAlone(s, RemoveKey, k) == MainAlone(u, RemoveKey, k - 7)
  {
    var t := s.(main := RemoveCount(id), mutex := 0, mode := s.mode[id := Leaving], park := s.park[id := 0]);
    TakesOut(s, id, k, t);
    assert Post(t.park, id) == s.park;
    LetsGo(t, id, k - 4, u);
  }

  /** So a philosopher that is parked, removed and left alone is gone after four statements of its own, with the
      mutex free, and its slot can be given away again. */
  lemma RemovedLeaves(s: Table, id: nat) returns (u: Table, v: Table)
    requires Shape(s) && s.main == Idle && s.mutex == 1 && MIN < s.count == id + 1
    requires s.park[id] == 1 && s.pc[id].ParkWait?
    ensures u == MainAlone(s, RemoveKey, 7) && v == Alone(u, id, 4)
    ensures v == s.(main := ShowWait, count := id, mode := s.mode[id := Leaving], pc := s.pc[id := Gone],
                    park := s.park[id := 0])
    ensures Shape(v) && !Reuses(v.(main := AddWait(id)), Main(AddKey))
  {
    u := s.(main := ShowWait, count := id, mode := s.mode[id := Leaving]);
    v := u.(pc := s.pc[id := Gone], park := s.park[id := 0]);
    Removes(s, id, 7, u);
    Leaves(u, id, 4, v);
  }

  lemma BackToIdle(o: Table, s: Table) returns (t: Table)
    requires Shape(o) && Shape(s) && Reaches(o, s) && s.main == ShowWait && s.mutex == 1
    ensures t == s.(main := Idle) && Shape(t) && Reaches(o, t)
  {
    t := s.(main := Idle);
    MainStep(o, s, OtherKey, s.(main := ShowRelease, mutex := 0));
    MainStep(o, s.(main := ShowRelease, mutex := 0), OtherKey, t);
  }

  /** From the opening: the last philosopher eats, parks, is removed, ends, and is asked for again, and no slot
      has been given away too early; the table is again as it was at the start. */
  lemma ComesBack(n: nat, cap: nat) returns (t: Table)
    requires 3 <= n <= cap
    ensures Reaches(Opened(n, cap), t) && t == Opened(n, cap).(main := ShowWait, mutex := 1)
  {
    var o := Opened(n, cap);
    var s := Opens(n, cap);
    var a := Serve(o, s, n - 1);
    var b := Finish(o, a, n - 1);
    var c := StartsRemoval(o, b, n - 1);
    var d := EndsRemoval(o, c, n - 1);
    var e := LeavesFor(o, d, n - 1);
    var f := BackToIdle(o, e);
    t := SeatsAnother(o, f);
  }

  lemma LeavesFor(o: Table, s: Table, i: nat) returns (t: Table)
    requires Shape(o) && Shape(s) && Reaches(o, s) && i < |s.pc|
    requires s.pc[i].ParkWait? && s.mutex == 1 && s.park[i] == 1 && s.mode[i].Leaving?
    ensures t == s.(pc := s.pc[i := Gone], park := s.park[i := 0]) && Shape(t) && Reaches(o, t)
  {
    t := s.(pc := s.pc[i := Gone], park := s.park[i := 0]);
    Leaves(s, i, 4, t);
    ThenAlone(o, s, i, 4);
  }
}
