/** What the philosophers' protocol guarantees over whole runs. */
module PhilosopherLaws {
  import opened Philosophers

  // ---- Neighbours never eat together

  predicate Clash(mode: seq<Mode>, n: nat, i: nat)
    requires i < n <= |mode|
  {
    mode[i].Eating? && mode[Right(i, n)].Eating?
  }

  ghost predicate Apart(s: Table)
    requires s.count <= |s.mode|
  {
    forall i :: 0 <= i < s.count ==> !Clash(s.mode, s.count, i)
  }

  /** The removal of the last philosopher makes neighbours of two that are both EATING. */
  predicate ClosesOnEaters(s: Table, a: Actor)
    requires Shape(s)
  {
    a.Main? && s.main.RemoveCount? && s.mode[0].Eating? && s.mode[s.count - 2].Eating?
  }

  lemma PassedIsApart(mode: seq<Mode>, n: nat, t: nat, i: nat)
    requires t < n <= |mode| && i < n && n >= MIN && Passes(mode, n, t) && !Clash(mode, n, i)
    ensures !Clash(mode[t := Eating], n, i)
  {
    Converse(i, t, n);
    Converse(t, i, n);
  }

  lemma MoveKeepsApart(s: Table, h: Holder, i: nat)
    requires Inv(s, h) && Apart(s) && i < |s.pc|
    ensures Apart(Move(s, i))
  {
    assert Standing(s, i);
    forall j: nat | j < s.count ensures !Clash(Move(s, i).mode, s.count, j) {
      assert !Clash(s.mode, s.count, j);
      if s.pc[i].TakeTest? && Passes(s.mode, s.count, i) {
        PassedIsApart(s.mode, s.count, i, j);
      } else if s.pc[i].LeftTest? && Passes(s.mode, s.count, Left(i, s.count)) {
        PassedIsApart(s.mode, s.count, Left(i, s.count), j);
      } else if s.pc[i].RightTest? && Passes(s.mode, s.count, Right(i, s.count)) {
        PassedIsApart(s.mode, s.count, Right(i, s.count), j);
      }
    }
  }

  lemma MainKeepsApart(s: Table, h: Holder, key: Key)
    requires Inv(s, h) && Apart(s)
    ensures Apart(MoveMain(s, key)) <==> !ClosesOnEaters(s, Main(key))
  {
    var t := MoveMain(s, key);
    if ClosesOnEaters(s, Main(key)) {
      assert Clash(t.mode, t.count, t.count - 1);
    } else {
      forall j: nat | j < t.count ensures !Clash(t.mode, t.count, j) {
        if j < s.count {
          assert !Clash(s.mode, s.count, j);
        }
        if s.main.AddCount? || s.main.RemoveMode? {
          assert Standing(s, s.main.id) && Ledger(s, h, s.main.id);
        }
      }
    }
  }

  /** A step that keeps the invariant keeps neighbours apart, except, exactly, a removal between two
      philosophers that are both EATING. */
  lemma StepApart(s: Table, h: Holder, a: Actor)
    requires Inv(s, h) && Apart(s)
    ensures Apart(Step(s, a)) <==> !ClosesOnEaters(s, a)
  {
    match a {
      case Phylo(i) =>
        if i < |s.pc| {
          MoveKeepsApart(s, h, i);
        }
      case Main(key) => MainKeepsApart(s, h, key);
    }
  }

  // ---- Nobody who could eat is left waiting

  /** The turn in which the holder of the mutex is about to test philosopher `i`. */
  predicate InTurn(s: Table, h: Holder, i: nat)
    requires Shape(s)
  {
    && h.Philosopher? && h.id < s.count
    && match s.pc[h.id]
       case TakeTest => i == h.id
       case LeftTest => i == Left(h.id, s.count) || i == Right(h.id, s.count)
       case LeftPost(_) => i == Right(h.id, s.count)
       case RightTest => i == Right(h.id, s.count)
       case _ => false
  }

  /** If `i` is HUNGRY between two that are not EATING, its test is under way. */
  predicate Fed(s: Table, h: Holder, i: nat)
    requires Shape(s)
  {
    i < s.count && Passes(s.mode, s.count, i) ==> InTurn(s, h, i)
  }

  lemma TakeKeepsFed(s: Table, h: Holder, i: nat, j: nat)
    requires Inv(s, h) && i < |s.pc| && Taking(s.pc[i]) && j < s.count && Fed(s, h, j)
    ensures Fed(Move(s, i), Handed(s, h, Phylo(i)), j)
  {
    assert Standing(s, i);
    var t, g := MoveKeepsLock(s, h, i);
  }

  lemma PutKeepsFed(s: Table, h: Holder, i: nat, j: nat)
    requires Inv(s, h) && i < |s.pc| && Putting(s.pc[i]) && j < s.count && Fed(s, h, j)
    ensures Fed(Move(s, i), Handed(s, h, Phylo(i)), j)
  {
    assert Standing(s, i);
    Converse(i, j, s.count);
    Converse(j, i, s.count);
    var t, g := MoveKeepsLock(s, h, i);
  }

  lemma ParkKeepsFed(s: Table, h: Holder, i: nat, j: nat)
    requires Inv(s, h) && i < |s.pc| && !Taking(s.pc[i]) && !Putting(s.pc[i]) && j < s.count && Fed(s, h, j)
    ensures Fed(Move(s, i), Handed(s, h, Phylo(i)), j)
  {
    assert Standing(s, i);
    var t, g := MoveKeepsLock(s, h, i);
  }

  /** Everybody who could eat is about to be tested. */
  ghost predicate AllFed(s: Table, h: Holder)
    requires Shape(s)
  {
    forall j :: 0 <= j < s.count ==> Fed(s, h, j)
  }

  /** A philosopher is seated between the first and the last, one of which is EATING and is the only
      EATING neighbour of the other, which is HUNGRY. */
  predicate SeatsBesideHungry(s: Table, a: Actor)
    requires Shape(s)
  {
    var n := s.count;
    && a.Main? && s.main.AddCount?
    && (|| (s.mode[0].Hungry? && s.mode[n - 1].Eating? && !s.mode[1].Eating?)
        || (s.mode[n - 1].Hungry? && s.mode[0].Eating? && !s.mode[n - 2].Eating?))
  }

  /** The philosopher that is removed is LEAVING, so nobody loses a neighbour that is EATING. */
  lemma RemovalKeepsFed(s: Table, h: Holder, key: Key, j: nat)
    requires Inv(s, h) && s.main.RemoveCount? && Fed(s, h, j) && j < s.count - 1
    ensures Fed(MoveMain(s, key), Handed(s, h, Main(key)), j)
  {
    assert Standing(s, s.main.id);
  }

  /** An addition leaves somebody behind exactly if it seats beside a hungry one. */
  lemma AdditionFeedsExactly(s: Table, h: Holder, key: Key)
    requires Inv(s, h) && s.main.AddCount? && AllFed(s, h)
    ensures AllFed(MoveMain(s, key), Handed(s, h, Main(key))) <==> !SeatsBesideHungry(s, Main(key))
  {
    var n, t, g := s.count, MoveMain(s, key), Handed(s, h, Main(key));
    assert Standing(s, n);
    forall j: nat | j < t.count && !(j == 0 || j == n - 1) ensures Fed(t, g, j) {
      assert j < n ==> Fed(s, h, j);
    }
    assert Fed(s, h, 0) && Fed(s, h, n - 1);
    assert Fed(t, g, 0) <==> !(s.mode[0].Hungry? && s.mode[n - 1].Eating? && !s.mode[1].Eating?);
    assert Fed(t, g, n - 1) <==> !(s.mode[n - 1].Hungry? && s.mode[0].Eating? && !s.mode[n - 2].Eating?);
  }

  /** Philosopher 1 is never left behind: no addition changes who sits beside it. */
  lemma AdditionKeepsOneFed(s: Table, h: Holder, key: Key)
    requires Inv(s, h) && Fed(s, h, 1) && s.main.AddCount?
    ensures Fed(MoveMain(s, key), Handed(s, h, Main(key)), 1)
  {
    assert Standing(s, s.main.id);
    assert !Passes(s.mode, s.count, 1);
  }

  /** The other statements of the main program leave the ring, and who eats in it, alone. */
  lemma SameRingFed(s: Table, h: Holder, key: Key, j: nat)
    requires Inv(s, h) && Fed(s, h, j) && j < s.count && !s.main.AddCount? && !s.main.RemoveCount?
    ensures Fed(MoveMain(s, key), Handed(s, h, Main(key)), j)
  {
    if s.main.RemoveMode? || s.main.AddMode? {
      assert Standing(s, s.main.id) && Ledger(s, h, s.main.id);
    } else {
      assert MoveMain(s, key).mode == s.mode;
    }
  }

  lemma MainKeepsFed(s: Table, h: Holder, key: Key, j: nat)
    requires Inv(s, h) && Fed(s, h, j) && j < s.count && (j == 1 || !s.main.AddCount?)
    ensures j < MoveMain(s, key).count ==> Fed(MoveMain(s, key), Handed(s, h, Main(key)), j)
  {
    if s.main.AddCount? {
      AdditionKeepsOneFed(s, h, key);
    } else if !s.main.RemoveCount? {
      SameRingFed(s, h, key, j);
    } else if j < s.count - 1 {
      RemovalKeepsFed(s, h, key, j);
    }
  }

  lemma StepKeepsFed(s: Table, h: Holder, a: Actor, j: nat)
    requires Inv(s, h) && Fed(s, h, j) && j < s.count && (j == 1 || a.Phylo? || !s.main.AddCount?)
    ensures j < Step(s, a).count ==> Fed(Step(s, a), Handed(s, h, a), j)
  {
    match a {
      case Phylo(i) =>
        if i < |s.pc| {
          if Taking(s.pc[i]) {
            TakeKeepsFed(s, h, i, j);
          } else if Putting(s.pc[i]) {
            PutKeepsFed(s, h, i, j);
          } else {
            ParkKeepsFed(s, h, i, j);
          }
        }
      case Main(key) => MainKeepsFed(s, h, key, j);
    }
  }

  lemma StepCount(s: Table, a: Actor)
    requires Shape(s) && !(a.Main? && s.main.AddCount?)
    ensures Step(s, a).count <= s.count
  {
  }

  /** A step that keeps the invariant leaves nobody behind who could eat, except, exactly, an addition
      beside a hungry one. */
  lemma StepFed(s: Table, h: Holder, a: Actor)
    requires Inv(s, h) && AllFed(s, h)
    ensures AllFed(Step(s, a), Handed(s, h, a)) <==> !SeatsBesideHungry(s, a)
  {
    if a.Main? && s.main.AddCount? {
      AdditionFeedsExactly(s, h, a.key);
    } else {
      StepCount(s, a);
      forall j: nat | j < Step(s, a).count ensures Fed(Step(s, a), Handed(s, h, a), j) {
        StepKeepsFed(s, h, a, j);
      }
    }
  }

  // ---- What the invariant means

  /** Only the process that holds the mutex changes a mode, the count, or who holds the mutex next but
      one: everybody else can at most spend a token. */
  lemma OnlyHolderWrites(s: Table, h: Holder, a: Actor)
    requires Inv(s, h) && h != Nobody && h != MainProgram && a != Phylo(h.id)
    ensures Step(s, a).mode == s.mode && Step(s, a).count == s.count && Handed(s, h, a) == h
    ensures Step(s, a).pc[h.id] == s.pc[h.id]
  {
    if a.Phylo? && a.i < |s.pc| {
      var t := MoveEffect(s, a.i);
    }
  }

  /** A philosopher between the return of take_fork and the start of put_fork's update has both forks. */
  predicate HasForks(pc: Pc) { pc.PutWait? || pc.PutSet? }

  lemma ForksApart(s: Table, h: Holder, i: nat)
    requires Inv(s, h) && Apart(s) && i < s.count && HasForks(s.pc[i])
    ensures !HasForks(s.pc[Left(i, s.count)]) && !HasForks(s.pc[Right(i, s.count)])
  {
    Converse(i, Left(i, s.count), s.count);
    assert !Clash(s.mode, s.count, i) && !Clash(s.mode, s.count, Left(i, s.count));
    assert Standing(s, i) && Standing(s, Left(i, s.count)) && Standing(s, Right(i, s.count));
  }

  /** Semaphore values: the mutex and each think_unlock are 0 or 1, and with the mutex free a hungry_lock
      is 1 exactly for a philosopher that is EATING and has not taken it yet. */
  lemma TokenValues(s: Table, h: Holder, i: nat)
    requires Inv(s, h) && i < |s.mode|
    ensures s.mutex <= 1 && s.park[i] <= 1 && s.lock[i] <= 1
    ensures s.mutex == 1 ==> (s.lock[i] == 1 <==> s.mode[i].Eating? && s.pc[i].TakeLock?)
    ensures s.park[i] == 1 ==> s.pc[i].ParkWait?
  {
    assert Ledger(s, h, i);
  }

  /** removePhylo marks LEAVING only a philosopher that is THINKING and waits on its think_unlock. */
  lemma LeavingWasParked(s: Table, h: Holder, key: Key, i: nat)
    requires Inv(s, h) && i < |s.mode| && MoveMain(s, key).mode[i].Leaving? && !s.mode[i].Leaving?
    ensures s.mode[i].Thinking? && s.pc[i].ParkWait? && s.park[i] == 0 && i == s.count - 1
  {
    assert Standing(s, i) && Ledger(s, h, i);
  }

  /** With the mutex free, philosopher 1 or a neighbour of it can take a step. */
  lemma FreeMeansProgress(s: Table, h: Holder) returns (i: nat)
    requires Inv(s, h) && Fed(s, h, 1) && s.mutex > 0
    ensures i < s.count && CanMove(s, Phylo(i))
    ensures i == 1 || (s.mode[i].Eating? && (i == Left(1, s.count) || i == Right(1, s.count)))
  {
    i := 1;
    assert Standing(s, 1) && Ledger(s, h, 1);
    if s.pc[1].TakeLock? && s.mode[1].Hungry? {
      i := if s.mode[Left(1, s.count)].Eating? then Left(1, s.count) else Right(1, s.count);
      assert s.mode[i].Eating?;
      assert Standing(s, i) && Ledger(s, h, i);
    }
    assert Move(s, i).pc[i] != s.pc[i];
  }

  lemma HolderCanMove(s: Table, h: Holder)
    requires Inv(s, h) && s.mutex == 0
    ensures (h == MainProgram && forall key :: CanMove(s, Main(key)))
            || (h.Philosopher? && h.id < |s.pc| && CanMove(s, Phylo(h.id)))
  {
    if h.Philosopher? {
      assert Move(s, h.id).pc[h.id] != s.pc[h.id];
    } else {
      forall key ensures CanMove(s, Main(key)) {
        assert MoveMain(s, key).main != s.main;
      }
    }
  }

  // ---- Runs

  /** The table after the given processes took one step each, in that order. */
  function After(s: Table, acts: seq<Actor>): (t: Table)
    requires Shape(s)
    ensures Shape(t) && |t.mode| == |s.mode|
    decreases |acts|
  {
    if acts == [] then s else After(Step(s, acts[0]), acts[1..])
  }

  function HolderAfter(s: Table, h: Holder, acts: seq<Actor>): Holder
    requires Shape(s)
    decreases |acts|
  {
    if acts == [] then h else HolderAfter(Step(s, acts[0]), Handed(s, h, acts[0]), acts[1..])
  }

  /** No philosopher is added in a slot whose last process is still running. */
  predicate Careful(s: Table, acts: seq<Actor>)
    requires Shape(s)
    decreases |acts|
  {
    acts == [] || (!Reuses(s, acts[0]) && Careful(Step(s, acts[0]), acts[1..]))
  }

  ghost predicate AlwaysApart(s: Table, acts: seq<Actor>)
    requires Shape(s)
    decreases |acts|
  {
    Apart(s) && (acts == [] || AlwaysApart(Step(s, acts[0]), acts[1..]))
  }

  predicate EverClosesOnEaters(s: Table, acts: seq<Actor>)
    requires Shape(s)
    decreases |acts|
  {
    acts != [] && (ClosesOnEaters(s, acts[0]) || EverClosesOnEaters(Step(s, acts[0]), acts[1..]))
  }

  ghost predicate AlwaysFed(s: Table, h: Holder, acts: seq<Actor>)
    requires Shape(s)
    decreases |acts|
  {
    AllFed(s, h) && (acts == [] || AlwaysFed(Step(s, acts[0]), Handed(s, h, acts[0]), acts[1..]))
  }

  predicate EverSeatsBesideHungry(s: Table, acts: seq<Actor>)
    requires Shape(s)
    decreases |acts|
  {
    acts != [] && (SeatsBesideHungry(s, acts[0]) || EverSeatsBesideHungry(Step(s, acts[0]), acts[1..]))
  }

  lemma {:induction false} RunKeepsInv(s: Table, h: Holder, acts: seq<Actor>)
    requires Inv(s, h) && Careful(s, acts)
    ensures Inv(After(s, acts), HolderAfter(s, h, acts))
    decreases |acts|
  {
    if acts != [] {
      StepKeepsInv(s, h, acts[0]);
      RunKeepsInv(Step(s, acts[0]), Handed(s, h, acts[0]), acts[1..]);
    }
  }

  lemma {:induction false} RunApart(s: Table, h: Holder, acts: seq<Actor>)
    requires Inv(s, h) && Careful(s, acts) && Apart(s)
    ensures AlwaysApart(s, acts) <==> !EverClosesOnEaters(s, acts)
    decreases |acts|
  {
    if acts != [] {
      StepApart(s, h, acts[0]);
      StepKeepsInv(s, h, acts[0]);
      if !ClosesOnEaters(s, acts[0]) {
        RunApart(Step(s, acts[0]), Handed(s, h, acts[0]), acts[1..]);
      }
    }
  }

  lemma {:induction false} RunFed(s: Table, h: Holder, acts: seq<Actor>)
    requires Inv(s, h) && Careful(s, acts) && AllFed(s, h)
    ensures AlwaysFed(s, h, acts) <==> !EverSeatsBesideHungry(s, acts)
    decreases |acts|
  {
    if acts != [] {
      StepFed(s, h, acts[0]);
      StepKeepsInv(s, h, acts[0]);
      if !SeatsBesideHungry(s, acts[0]) {
        RunFed(Step(s, acts[0]), Handed(s, h, acts[0]), acts[1..]);
      }
    }
  }

  lemma {:induction false} AlwaysFedAtEnd(s: Table, h: Holder, acts: seq<Actor>)
    requires Shape(s) && AlwaysFed(s, h, acts)
    ensures AllFed(After(s, acts), HolderAfter(s, h, acts))
    decreases |acts|
  {
    if acts != [] {
      AlwaysFedAtEnd(Step(s, acts[0]), Handed(s, h, acts[0]), acts[1..]);
    }
  }

  lemma {:induction false} RunKeepsOneFed(s: Table, h: Holder, acts: seq<Actor>)
    requires Inv(s, h) && Careful(s, acts) && Fed(s, h, 1)
    ensures Fed(After(s, acts), HolderAfter(s, h, acts), 1)
    decreases |acts|
  {
    if acts != [] {
      StepKeepsInv(s, h, acts[0]);
      StepKeepsFed(s, h, acts[0], 1);
      RunKeepsOneFed(Step(s, acts[0]), Handed(s, h, acts[0]), acts[1..]);
    }
  }

  /** From the opening, whatever the interleaving and whoever comes and goes: neighbours are never
      EATING together, if and only if no removal closes the ring between two that are. */
  lemma NeighboursNeverEatTogether(n: nat, cap: nat, acts: seq<Actor>)
    requires MIN <= n <= cap && Careful(Opened(n, cap), acts)
    ensures AlwaysApart(Opened(n, cap), acts) <==> !EverClosesOnEaters(Opened(n, cap), acts)
  {
    InitialInv(n, cap);
    RunApart(Opened(n, cap), MainProgram, acts);
  }

  // ---- Runs without removals

  /** No slot beyond the ring has a process, and no removal is under way. */
  ghost predicate FreshSlots(s: Table)
    requires Shape(s)
  {
    && MainAdds(s.main)
    && forall i :: s.count <= i < |s.pc| ==> s.pc[i].Gone?
  }

  predicate MainAdds(main: MainPc) {
    match main
    case Opening | Idle | ShowWait | ShowRelease => true
    case AddWait(_) | AddMode(_) | AddCount(_) | AddExec(_) | AddRelease => true
    case _ => false
  }

  lemma StepKeepsFresh(s: Table, a: Actor)
    requires Shape(s) && FreshSlots(s) && a != Main(RemoveKey)
    ensures FreshSlots(Step(s, a)) && !Reuses(s, a)
  {
    if a.Phylo? && a.i < |s.pc| {
      var t := MoveEffect(s, a.i);
      assert s.pc[a.i].Gone? ==> t == s;
    }
  }

  lemma {:induction false} FreshRunIsCareful(s: Table, acts: seq<Actor>)
    requires Shape(s) && FreshSlots(s) && Main(RemoveKey) !in acts
    ensures Careful(s, acts) && !EverClosesOnEaters(s, acts)
    decreases |acts|
  {
    if acts != [] {
      StepKeepsFresh(s, acts[0]);
      FreshRunIsCareful(Step(s, acts[0]), acts[1..]);
    }
  }

  /** If philosophers are only ever added, neighbours are never EATING together, without any condition. */
  lemma AdditionsKeepApart(n: nat, cap: nat, acts: seq<Actor>)
    requires MIN <= n <= cap && Main(RemoveKey) !in acts
    ensures Careful(Opened(n, cap), acts) && AlwaysApart(Opened(n, cap), acts)
  {
    FreshRunIsCareful(Opened(n, cap), acts);
    NeighboursNeverEatTogether(n, cap, acts);
  }

  /** From the opening, whoever comes and goes: everybody who could eat is always about to be tested, if
      and only if no addition seats beside a hungry one. */
  lemma NobodyForgotten(n: nat, cap: nat, acts: seq<Actor>)
    requires MIN <= n <= cap && Careful(Opened(n, cap), acts)
    ensures AlwaysFed(Opened(n, cap), MainProgram, acts) <==> !EverSeatsBesideHungry(Opened(n, cap), acts)
  {
    InitialInv(n, cap);
    RunFed(Opened(n, cap), MainProgram, acts);
  }

  /** In such runs, whenever the mutex is free each philosopher that is HUNGRY has a neighbour that is
      EATING. */
  lemma HungryBesideEating(n: nat, cap: nat, acts: seq<Actor>, i: nat)
    requires MIN <= n <= cap && Careful(Opened(n, cap), acts) && !EverSeatsBesideHungry(Opened(n, cap), acts)
    ensures var t := After(Opened(n, cap), acts);
            t.mutex > 0 && i < t.count && t.mode[i].Hungry? ==>
              t.mode[Left(i, t.count)].Eating? || t.mode[Right(i, t.count)].Eating?
  {
    InitialInv(n, cap);
    RunKeepsInv(Opened(n, cap), MainProgram, acts);
    NobodyForgotten(n, cap, acts);
    AlwaysFedAtEnd(Opened(n, cap), MainProgram, acts);
    var t, h := After(Opened(n, cap), acts), HolderAfter(Opened(n, cap), MainProgram, acts);
    assert i < t.count ==> Fed(t, h, i);
  }

  /** No run, with or without additions and removals, ends in a deadlock: a philosopher that is seated
      can take a step when the mutex is free, and whoever holds the mutex can when it is not. */
  lemma NeverDeadlocked(n: nat, cap: nat, acts: seq<Actor>)
    requires MIN <= n <= cap && Careful(Opened(n, cap), acts)
    ensures var t := After(Opened(n, cap), acts);
            && (t.mutex > 0 ==> exists i :: 0 <= i < t.count && CanMove(t, Phylo(i)))
            && (t.mutex == 0 ==> (exists i :: 0 <= i < |t.pc| && InSection(t.pc[i]) && CanMove(t, Phylo(i)))
                                 || (forall key :: CanMove(t, Main(key))))
  {
    InitialInv(n, cap);
    var t, h := After(Opened(n, cap), acts), HolderAfter(Opened(n, cap), MainProgram, acts);
    RunKeepsInv(Opened(n, cap), MainProgram, acts);
    RunKeepsOneFed(Opened(n, cap), MainProgram, acts);
    if t.mutex > 0 {
      var i := FreeMeansProgress(t, h);
    } else {
      HolderCanMove(t, h);
    }
  }

  // ---- Two runs that show the conditions are needed

  ghost predicate Reaches(s: Table, t: Table)
    requires Shape(s)
  {
    exists acts :: Careful(s, acts) && After(s, acts) == t
  }

  lemma {:induction false} OneMore(s: Table, acts: seq<Actor>, a: Actor)
    requires Shape(s) && Careful(s, acts) && !Reuses(After(s, acts), a)
    ensures Careful(s, acts + [a]) && After(s, acts + [a]) == Step(After(s, acts), a)
    decreases |acts|
  {
    if acts == [] {
      assert acts + [a] == [a] && [a][1..] == [];
    } else {
      assert (acts + [a])[1..] == acts[1..] + [a];
      OneMore(Step(s, acts[0]), acts[1..], a);
    }
  }

  lemma Then(s: Table, r: Table, a: Actor) returns (t: Table)
    requires Shape(s) && Shape(r) && Reaches(s, r) && !Reuses(r, a)
    ensures t == Step(r, a) && Shape(t) && Reaches(s, t)
  {
    t := Step(r, a);
    var acts :| Careful(s, acts) && After(s, acts) == r;
    OneMore(s, acts, a);
  }

  /** Philosopher `i` taking `k` steps with nobody else in between. */
  function Alone(s: Table, i: nat, k: nat): (t: Table)
    requires Shape(s) && i < |s.pc|
    ensures Shape(t) && |t.mode| == |s.mode|
    decreases k
  {
    if k == 0 then s else Alone(Move(s, i), i, k - 1)
  }

  lemma {:induction false} ThenAlone(s: Table, r: Table, i: nat, k: nat)
    requires Shape(s) && Shape(r) && i < |r.pc| && Reaches(s, r)
    ensures Reaches(s, Alone(r, i, k))
    decreases k
  {
    if k > 0 {
      var t := Then(s, r, Phylo(i));
      ThenAlone(s, t, i, k - 1);
    }
  }

  lemma Again(s: Table, i: nat, k: nat, t: Table)
    requires Shape(s) && i < |s.pc| && t == Move(s, i) && k > 0
    ensures Alone(s, i, k) == Alone(t, i, k - 1)
  {
  }

  /** The first two steps of take_fork with the mutex free. */
  lemma Asks(s: Table, i: nat, k: nat, t: Table)
    requires Shape(s) && i < s.count && s.pc[i].TakeWait? && s.mutex == 1 && k >= 2
    requires t == s.(pc := s.pc[i := TakeTest], mutex := 0, mode := s.mode[i := Hungry])
    ensures Shape(t) && Alone(s, i, k) == Alone(t, i, k - 2)
  {
    var s1 := s.(pc := s.pc[i := TakeSet], mutex := 0);
    Again(s, i, k, s1);
    Again(s1, i, k - 1, t);
  }

  /** The rest of take_fork for a philosopher that may eat. */
  lemma TestsAndPosts(s: Table, i: nat, k: nat, t: Table)
    requires Shape(s) && i < s.count && s.pc[i].TakeTest? && Passes(s.mode, s.count, i) && k >= 3
    requires t == s.(mode := s.mode[i := Eating], pc := s.pc[i := TakeLock],
                     lock := Post(s.lock, i), mutex := s.mutex + 1)
    ensures Shape(t) && Alone(s, i, k) == Alone(t, i, k - 3)
  {
    var s1 := s.(pc := s.pc[i := TakePost], mode := s.mode[i := Eating]);
    var s2 := s1.(pc := s.pc[i := TakeRelease], lock := Post(s.lock, i));
    Again(s, i, k, s1);
    Again(s1, i, k - 1, s2);
    Again(s2, i, k - 2, t);
  }

  /** Undisturbed, beside two that are not EATING, a philosopher gets both forks. */
  lemma TakesBoth(s: Table, i: nat, k: nat, t: Table)
    requires Shape(s) && i < s.count && s.pc[i].TakeWait? && s.mutex == 1 && k >= 5
    requires !s.mode[Left(i, s.count)].Eating? && !s.mode[Right(i, s.count)].Eating?
    requires t == s.(mode := s.mode[i := Eating], pc := s.pc[i := TakeLock], lock := Post(s.lock, i))
    ensures Shape(t) && Alone(s, i, k) == Alone(t, i, k - 5)
  {
    var u := s.(pc := s.pc[i := TakeTest], mutex := 0, mode := s.mode[i := Hungry]);
    Asks(s, i, k, u);
    assert Passes(u.mode, u.count, i);
    TestsAndPosts(u, i, k - 2, t);
    assert u.pc[i := TakeLock] == s.pc[i := TakeLock] && u.mode[i := Eating] == s.mode[i := Eating];
  }

  lemma GivesBackLeft(s: Table, i: nat)
    requires Shape(s) && i < s.count && s.pc[i].TakeLock? && s.mutex == 1 && s.lock[i] > 0
    requires !s.mode[Left(i, s.count)].Hungry?
    ensures Alone(s, i, 4) == s.(mode := s.mode[i := Thinking], pc := s.pc[i := RightTest],
                                 lock := s.lock[i := s.lock[i] - 1], mutex := 0)
  {
    var s1 := s.(pc := s.pc[i := PutWait], lock := s.lock[i := s.lock[i] - 1]);
    var s2 := s1.(pc := s.pc[i := PutSet], mutex := 0);
    var s3 := s2.(pc := s.pc[i := LeftTest], mode := s.mode[i := Thinking]);
    Again(s, i, 4, s1);
    Again(s1, i, 3, s2);
    Again(s2, i, 2, s3);
    Again(s3, i, 1, s3.(pc := s.pc[i := RightTest]));
  }

  lemma GivesBackRight(s: Table, i: nat)
    requires Shape(s) && i < s.count && s.pc[i].RightTest? && s.mutex == 0 && !s.mode[Right(i, s.count)].Hungry?
    ensures Alone(s, i, 3) == s.(pc := s.pc[i := ParkWait], park := Post(s.park, i), mutex := 1)
  {
    var s1 := s.(pc := s.pc[i := PutRelease]);
    var s2 := s1.(pc := s.pc[i := ParkPost], mutex := 1);
    Again(s, i, 3, s1);
    Again(s1, i, 2, s2);
    Again(s2, i, 1, s2.(pc := s.pc[i := ParkWait], park := Post(s.park, i)));
  }

  lemma Opens(n: nat, cap: nat) returns (s: Table)
    requires MIN <= n <= cap
    ensures s == Opened(n, cap).(main := Idle, mutex := 1) && Shape(s) && Reaches(Opened(n, cap), s)
  {
    var o := Opened(n, cap);
    assert Careful(o, []) && After(o, []) == o;
    s := Then(o, o, Main(OtherKey));
  }

  lemma MainStep(o: Table, r: Table, key: Key, t: Table)
    requires Shape(o) && Shape(r) && Reaches(o, r) && !Reuses(r, Main(key)) && t == MoveMain(r, key)
    ensures Reaches(o, t)
  {
    var u := Then(o, r, Main(key));
  }

  lemma StartsRemoval(o: Table, s: Table, id: nat) returns (t: Table)
    requires Shape(o) && Shape(s) && Reaches(o, s) && s.main == Idle && s.mutex == 1
    requires s.count > MIN && id == s.count - 1 && s.park[id] == 1
    ensures t == s.(main := RemoveCount(id), park := s.park[id := 0], mutex := 0, mode := s.mode[id := Leaving])
    ensures Shape(t) && Reaches(o, t)
  {
    var s1 := s.(main := RemoveUnpark(id));
    var s2 := s1.(main := RemoveWait(id), park := s.park[id := 0]);
    var s3 := s2.(main := RemoveMode(id), mutex := 0);
    t := s3.(main := RemoveCount(id), mode := s.mode[id := Leaving]);
    MainStep(o, s, RemoveKey, s1);
    MainStep(o, s1, RemoveKey, s2);
    MainStep(o, s2, RemoveKey, s3);
    MainStep(o, s3, RemoveKey, t);
  }

  lemma MakesPlace(o: Table, s: Table) returns (t: Table)
    requires Shape(o) && Shape(s) && Reaches(o, s) && s.main == Idle && s.mutex == 1
    requires s.count < |s.mode| && s.pc[s.count] == Gone
    ensures t == s.(main := AddExec(s.count), mutex := 0, count := s.count + 1, mode := s.mode[s.count := Thinking])
    ensures Shape(t) && Reaches(o, t)
  {
    var id := s.count;
    var s1 := s.(main := AddWait(id));
    var s2 := s.(main := AddMode(id), mutex := 0);
    var s3 := s.(main := AddCount(id), mutex := 0, mode := s.mode[id := Thinking]);
    t := s3.(main := AddExec(id), count := id + 1);
    MainStep(o, s, AddKey, s1);
    MainStep(o, s1, AddKey, s2);
    MainStep(o, s2, AddKey, s3);
    MainStep(o, s3, AddKey, t);
  }

  lemma SeatsAnother(o: Table, s: Table) returns (t: Table)
    requires Shape(o) && Shape(s) && Reaches(o, s) && s.main == Idle && s.mutex == 1
    requires s.count < |s.mode| && s.pc[s.count] == Gone
    ensures t == s.(main := ShowWait, count := s.count + 1, mode := s.mode[s.count := Thinking],
                    pc := s.pc[s.count := TakeWait])
    ensures Shape(t) && Reaches(o, t)
  {
    var r := MakesPlace(o, s);
    var s1 := r.(main := AddRelease, pc := s.pc[s.count := TakeWait]);
    t := s1.(main := ShowWait, mutex := 1);
    MainStep(o, r, AddKey, s1);
    MainStep(o, s1, AddKey, t);
  }

  /** A philosopher that finds the mutex free takes both forks and comes to wait on its hungry_lock. */
  lemma Serve(o: Table, s: Table, i: nat) returns (t: Table)
    requires Shape(o) && Shape(s) && Reaches(o, s) && i < s.count && s.pc[i].TakeWait? && s.mutex == 1
    requires !s.mode[Left(i, s.count)].Eating? && !s.mode[Right(i, s.count)].Eating?
    ensures t == s.(mode := s.mode[i := Eating], pc := s.pc[i := TakeLock], lock := Post(s.lock, i))
    ensures Shape(t) && Reaches(o, t)
  {
    t := s.(mode := s.mode[i := Eating], pc := s.pc[i := TakeLock], lock := Post(s.lock, i));
    TakesBoth(s, i, 5, t);
    ThenAlone(o, s, i, 5);
  }

  lemma Halfway(o: Table, s: Table, i: nat) returns (r: Table)
    requires Shape(o) && Shape(s) && Reaches(o, s) && i < s.count && s.pc[i].TakeLock? && s.mutex == 1 && s.lock[i] == 1
    requires !s.mode[Left(i, s.count)].Hungry?
    ensures r == s.(mode := s.mode[i := Thinking], pc := s.pc[i := RightTest], lock := s.lock[i := 0], mutex := 0)
    ensures Shape(r) && Reaches(o, r)
  {
    GivesBackLeft(s, i);
    ThenAlone(o, s, i, 4);
    r := Alone(s, i, 4);
  }

  /** It eats and gives the forks back to two that do not want them, and offers to be parked. */
  lemma Finish(o: Table, s: Table, i: nat) returns (t: Table)
    requires Shape(o) && Shape(s) && Reaches(o, s) && i < s.count && s.pc[i].TakeLock? && s.mutex == 1 && s.lock[i] == 1
    requires s.count > MIN && !s.mode[Left(i, s.count)].Hungry? && !s.mode[Right(i, s.count)].Hungry?
    ensures t == s.(mode := s.mode[i := Thinking], pc := s.pc[i := ParkWait], lock := s.lock[i := 0],
                    park := Post(s.park, i))
    ensures Shape(t) && Reaches(o, t)
  {
    var r := Halfway(o, s, i);
    assert Right(i, s.count) != i;
    GivesBackRight(r, i);
    ThenAlone(o, r, i, 3);
    t := Alone(r, i, 3);
    assert t.pc == s.pc[i := ParkWait];
  }

  /** From the opening with four philosophers or more, of which phylo opens five: the last eats and parks, the
      first and the last but one take their forks, and removing the last makes those two neighbours. */
  lemma RemovalCanSeatEatersTogether(n: nat, cap: nat) returns (t: Table)
    requires 4 <= n <= cap
    ensures Reaches(Opened(n, cap), t) && Apart(t) && ClosesOnEaters(t, Main(RemoveKey))
    ensures !Apart(Step(t, Main(RemoveKey)))
  {
    var o := Opened(n, cap);
    var s := Opens(n, cap);
    var a := Serve(o, s, n - 1);
    var b := Finish(o, a, n - 1);
    assert b.mode == s.mode;
    var c := Serve(o, b, 0);
    var d := Serve(o, c, n - 2);
    t := StartsRemoval(o, d, n - 1);
    ClosesHere(t, n);
  }

  lemma ClosesHere(t: Table, n: nat)
    requires Shape(t) && 4 <= n == t.count && t.main == RemoveCount(n - 1)
    requires forall i :: 0 <= i < n ==>
               t.mode[i] == if i == 0 || i == n - 2 then Eating else if i == n - 1 then Leaving else Thinking
    ensures Apart(t) && ClosesOnEaters(t, Main(RemoveKey)) && !Apart(Step(t, Main(RemoveKey)))
  {
    assert Clash(t.mode, n - 1, n - 2);
  }

  /** With three or more: the last takes its forks, 0 waits for it, and another is seated between them: 0 is
      left HUNGRY with nobody EATING beside it and the mutex free. */
  lemma AdditionCanLeaveOneHungry(n: nat, cap: nat) returns (t: Table)
    requires 3 <= n < cap
    ensures Reaches(Opened(n, cap), t) && t.mutex > 0 && t.count == n + 1
    ensures t.mode[0].Hungry? && t.pc[0].TakeLock?
    ensures !t.mode[Left(0, n + 1)].Eating? && !t.mode[Right(0, n + 1)].Eating?
  {
    var o := Opened(n, cap);
    var s := Opens(n, cap);
    var a := Serve(o, s, n - 1);
    ThenAlone(o, a, 0, 4);
    HungersAlone(a, 0);
    t := SeatsAnother(o, Alone(a, 0, 4));
  }

  /** Beside one that is EATING, a philosopher is left HUNGRY. */
  lemma HungersAlone(s: Table, i: nat)
    requires Shape(s) && i < s.count && s.pc[i].TakeWait? && s.mutex == 1 && s.count > MIN
    requires s.mode[Left(i, s.count)].Eating? || s.mode[Right(i, s.count)].Eating?
    ensures Alone(s, i, 4) == s.(mode := s.mode[i := Hungry], pc := s.pc[i := TakeLock])
  {
    var s2 := s.(pc := s.pc[i := TakeTest], mutex := 0, mode := s.mode[i := Hungry]);
    Asks(s, i, 4, s2);
    assert Left(i, s.count) != i && Right(i, s.count) != i && !Passes(s2.mode, s.count, i);
    var s3 := s2.(pc := s.pc[i := TakeRelease]);
    Again(s2, i, 2, s3);
    Again(s3, i, 1, s3.(pc := s.pc[i := TakeLock], mutex := 1));
  }
}
