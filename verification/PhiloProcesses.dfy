/** The philosophers with processes of their own identity: a slot that is given to a new philosopher while its
    last process still runs has two. */
module PhiloProcesses {
  import opened Philosophers
  import opened PhilosopherLaws
  import opened PhiloRounds

  datatype Process = Process(id: nat, pc: Pc)

  /** `table.pc` has for each slot the process started last in it; those before it that were still running
      then are the elders. */
  datatype Crowd = Crowd(table: Table, elders: seq<Process>)

  datatype Mover = Latest(a: Actor) | Elder(k: nat)

  ghost predicate Whole(c: Crowd) {
    Shape(c.table) && forall k :: 0 <= k < |c.elders| ==>
      c.elders[k].id < |c.table.pc| && Local(c.elders[k].pc, |c.table.pc|)
  }

  /** The table as an elder sees it: what it does depends on no other process's place. */
  function Seen(c: Crowd, k: nat): (s: Table)
    requires Whole(c) && k < |c.elders|
    ensures Shape(s) && |s.pc| == |c.table.pc|
  {
    At(c.table, c.elders[k].id, c.elders[k].pc)
  }

  /** The main program starts a philosopher beside the last process of its slot. */
  predicate Doubles(s: Table, a: Actor)
    requires Shape(s)
  {
    a.Main? && s.main.AddExec? && s.pc[s.main.id] != Gone
  }

  function Act(c: Crowd, m: Mover): (d: Crowd)
    requires Whole(c)
    ensures Whole(d)
  {
    match m
    case Latest(a) =>
      Crowd(Step(c.table, a),
            if !Doubles(c.table, a) then c.elders
            else c.elders + [Process(c.table.main.id, c.table.pc[c.table.main.id])])
    case Elder(k) =>
      if k >= |c.elders| then c
      else
        var id := c.elders[k].id;
        var t := Move(Seen(c, k), id);
        Crowd(t.(pc := c.table.pc), c.elders[k := Process(id, t.pc[id])])
  }

  function Acts(c: Crowd, ms: seq<Mover>): (d: Crowd)
    requires Whole(c)
    ensures Whole(d)
    decreases |ms|
  {
    if ms == [] then c else Acts(Act(c, ms[0]), ms[1..])
  }

  // ---- One process a slot

  /** The step of the table; an elder that is not there does nothing. */
  function Plain(ms: seq<Mover>, n: nat): (acts: seq<Actor>)
    ensures |acts| == |ms|
    decreases |ms|
  {
    if ms == [] then [] else [if ms[0].Latest? then ms[0].a else Phylo(n)] + Plain(ms[1..], n)
  }

  /** As long as no slot is given away before its last process has ended, every slot has one process, and the
      crowd is the table of which the other laws speak. */
  lemma {:induction false} CrowdIsTable(s: Table, h: Holder, ms: seq<Mover>)
    requires Inv(s, h) && Careful(s, Plain(ms, |s.pc|))
    ensures Acts(Crowd(s, []), ms) == Crowd(After(s, Plain(ms, |s.pc|)), [])
    decreases |ms|
  {
    if ms != [] {
      var acts := Plain(ms, |s.pc|);
      assert acts[1..] == Plain(ms[1..], |s.pc|);
      StepKeepsInv(s, h, acts[0]);
      if ms[0].Latest? && s.main.AddExec? {
        assert Standing(s, s.main.id);
      }
      assert Act(Crowd(s, []), ms[0]) == Crowd(Step(s, acts[0]), []);
      CrowdIsTable(Step(s, acts[0]), Handed(s, h, acts[0]), ms[1..]);
    }
  }

  lemma OpenedCrowdIsTable(n: nat, cap: nat, ms: seq<Mover>)
    requires MIN <= n <= cap && Careful(Opened(n, cap), Plain(ms, cap))
    ensures Acts(Crowd(Opened(n, cap), []), ms) == Crowd(After(Opened(n, cap), Plain(ms, cap)), [])
  {
    InitialInv(n, cap);
    CrowdIsTable(Opened(n, cap), MainProgram, ms);
  }

  // ---- Two processes in one slot

  ghost predicate Comes(c: Crowd, d: Crowd)
    requires Whole(c)
  {
    exists ms :: Acts(c, ms) == d
  }

  lemma {:induction false} ActsJoin(c: Crowd, ms: seq<Mover>, ns: seq<Mover>)
    requires Whole(c)
    ensures Acts(c, ms + ns) == Acts(Acts(c, ms), ns)
    decreases |ms|
  {
    if ms == [] {
      assert ms + ns == ns;
    } else {
      assert (ms + ns)[1..] == ms[1..] + ns;
      ActsJoin(Act(c, ms[0]), ms[1..], ns);
    }
  }

  lemma ComesOn(c: Crowd, d: Crowd, ms: seq<Mover>)
    requires Whole(c) && Whole(d) && Comes(c, d)
    ensures Comes(c, Acts(d, ms))
  {
    var ns :| Acts(c, ns) == d;
    ActsJoin(c, ns, ms);
  }

  lemma ActOn(c: Crowd, d: Crowd, m: Mover, e: Crowd)
    requires Whole(c) && Whole(d) && Comes(c, d) && e == Act(d, m)
    ensures Comes(c, e) && Whole(e)
  {
    assert [m][1..] == [];
    assert Acts(d, [m]) == Acts(e, []) == e;
    ComesOn(c, d, [m]);
  }

  function Same(m: Mover, k: nat): (ms: seq<Mover>)
    ensures |ms| == k && forall i :: 0 <= i < k ==> ms[i] == m
  {
    seq(k, i => m)
  }

  lemma {:induction false} LatestAlone(c: Crowd, i: nat, k: nat)
    requires Whole(c) && i < |c.table.pc|
    ensures Acts(c, Same(Latest(Phylo(i)), k)) == Crowd(Alone(c.table, i, k), c.elders)
    decreases k
  {
    if k > 0 {
      assert Same(Latest(Phylo(i)), k)[1..] == Same(Latest(Phylo(i)), k - 1);
      LatestAlone(Act(c, Latest(Phylo(i))), i, k - 1);
    }
  }

  /** What the first elder makes of the table by itself. */
  function ElderDone(c: Crowd, t: Table): (d: Crowd)
    requires Whole(c) && c.elders != [] && |t.pc| == |c.table.pc|
  {
    Crowd(t.(pc := c.table.pc), c.elders[0 := Process(c.elders[0].id, t.pc[c.elders[0].id])])
  }

  lemma {:induction false} ElderAlone(c: Crowd, k: nat)
    requires Whole(c) && c.elders != []
    ensures Acts(c, Same(Elder(0), k)) == ElderDone(c, Alone(Seen(c, 0), c.elders[0].id, k))
    decreases k
  {
    var id := c.elders[0].id;
    if k == 0 {
      assert Seen(c, 0).(pc := c.table.pc) == c.table;
    } else {
      var d := Act(c, Elder(0));
      var t := Move(Seen(c, 0), id);
      assert Same(Elder(0), k)[1..] == Same(Elder(0), k - 1);
      ElderAlone(d, k - 1);
      MovesOwnPlace(Seen(c, 0), id);
      assert c.table.pc[id := t.pc[id]] == t.pc;
      assert Seen(d, 0) == t;
    }
  }

  lemma MovesOwnPlace(s: Table, i: nat)
    requires Shape(s) && i < |s.pc|
    ensures Move(s, i).pc == s.pc[i := Move(s, i).pc[i]]
  {
    var t := MoveEffect(s, i);
  }

  /** Once the mutex is taken for it, the main program by itself starts the second process. */
  lemma ReuseDoubles(s: Table, a: Actor, key: Key)
    requires Shape(s) && Reuses(s, a)
    ensures Acts(Crowd(s, []), [Latest(a)] + Same(Latest(Main(key)), 3)).elders
            == [Process(s.main.id, s.pc[s.main.id])]
  {
    var c, m := Crowd(s, []), Latest(Main(key));
    ActsJoin(c, [Latest(a)], Same(m, 3));
    ActsOne(c, Latest(a), Act(c, Latest(a)));
    StartsBeside(Act(c, Latest(a)), s.main.id, key);
  }

  lemma MainAct(c: Crowd, key: Key, t: Table)
    requires Whole(c) && !Doubles(c.table, Main(key)) && t == MoveMain(c.table, key)
    ensures Act(c, Latest(Main(key))) == Crowd(t, c.elders)
  {
  }

  lemma StartsBeside(c: Crowd, id: nat, key: Key)
    requires Whole(c) && c.table.main == AddMode(id) && c.elders == [] && c.table.pc[id] != Gone
    ensures Acts(c, Same(Latest(Main(key)), 3)).elders == [Process(id, c.table.pc[id])]
  {
    var m := Latest(Main(key));
    var s, t := MoveMain(c.table, key), MoveMain(MoveMain(c.table, key), key);
    MainAct(c, key, s);
    ActsMore(c, m, 3, Crowd(s, []));
    MainAct(Crowd(s, []), key, t);
    ActsMore(Crowd(s, []), m, 2, Crowd(t, []));
    Starts(Crowd(t, []), id, key);
  }

  lemma Starts(c: Crowd, id: nat, key: Key)
    requires Whole(c) && c.table.main == AddExec(id) && c.elders == [] && c.table.pc[id] != Gone
    ensures Acts(c, Same(Latest(Main(key)), 1)).elders == [Process(id, c.table.pc[id])]
  {
    var m := Latest(Main(key));
    ActsMore(c, m, 1, Act(c, m));
  }

  lemma ActsOne(c: Crowd, m: Mover, d: Crowd)
    requires Whole(c) && d == Act(c, m)
    ensures Acts(c, [m]) == d
  {
    assert [m][1..] == [];
  }

  lemma ActsMore(c: Crowd, m: Mover, k: nat, d: Crowd)
    requires Whole(c) && k > 0 && d == Act(c, m)
    ensures Acts(c, Same(m, k)) == Acts(d, Same(m, k - 1))
  {
    assert Same(m, k)[1..] == Same(m, k - 1);
  }

  // ---- ... and both may hold the forks

  function Lift(acts: seq<Actor>): (ms: seq<Mover>)
    ensures |ms| == |acts| && forall i :: 0 <= i < |ms| ==> ms[i] == Latest(acts[i])
  {
    seq(|acts|, i requires 0 <= i < |acts| => Latest(acts[i]))
  }

  lemma {:induction false} PlainLift(acts: seq<Actor>, n: nat)
    ensures Plain(Lift(acts), n) == acts
    decreases |acts|
  {
    if acts != [] {
      assert Lift(acts)[1..] == Lift(acts[1..]);
      PlainLift(acts[1..], n);
    }
  }

  lemma ReachedComes(n: nat, cap: nat, r: Table)
    requires MIN <= n <= cap && Reaches(Opened(n, cap), r)
    ensures Comes(Crowd(Opened(n, cap), []), Crowd(r, []))
  {
    var acts :| Careful(Opened(n, cap), acts) && After(Opened(n, cap), acts) == r;
    PlainLift(acts, cap);
    OpenedCrowdIsTable(n, cap, Lift(acts));
  }

  /** The table after the last philosopher parked, was removed, and was asked for again at once. */
  lemma AskedBack(n: nat, cap: nat) returns (r: Table)
    requires 3 <= n <= cap
    ensures Reaches(Opened(n, cap), r) && Shape(r) && |r.pc| == cap
    ensures r.main == AddWait(n - 1) && r.mutex == 1 && r.count == n - 1 && r.pc[n - 1] == ParkWait
    ensures r.park[n - 1] == 1 && r.lock[n - 1] == 0 && forall i :: 0 <= i < n - 1 ==> r.mode[i] == Thinking
  {
    var o := Opened(n, cap);
    var s := Opens(n, cap);
    var a := Serve(o, s, n - 1);
    var b := Finish(o, a, n - 1);
    var c := StartsRemoval(o, b, n - 1);
    var d := EndsRemoval(o, c, n - 1);
    r := AsksForOne(o, d);
  }

  lemma MainOn(o: Crowd, c: Crowd, key: Key, t: Table) returns (d: Crowd)
    requires Whole(o) && Whole(c) && Comes(o, c) && !Doubles(c.table, Main(key)) && t == MoveMain(c.table, key)
    ensures d == Crowd(t, c.elders) && Whole(d) && Comes(o, d)
  {
    MainAct(c, key, t);
    d := Crowd(t, c.elders);
    ActOn(o, c, Latest(Main(key)), d);
  }

  lemma StartOn(o: Crowd, c: Crowd, id: nat) returns (d: Crowd)
    requires Whole(o) && Whole(c) && Comes(o, c) && c.table.main == AddExec(id) && c.table.pc[id] != Gone
    ensures d == Crowd(c.table.(main := AddRelease, pc := c.table.pc[id := TakeWait]),
                       c.elders + [Process(id, c.table.pc[id])])
    ensures Whole(d) && Comes(o, d)
  {
    d := Act(c, Latest(Main(AddKey)));
    ActOn(o, c, Latest(Main(AddKey)), d);
  }

  lemma MakesRoom(o: Crowd, r: Table, id: nat) returns (c: Crowd)
    requires Whole(o) && Shape(r) && Comes(o, Crowd(r, [])) && r.main == AddWait(id) && r.mutex == 1
    ensures c == Crowd(r.(main := AddExec(id), mutex := 0, count := id + 1, mode := r.mode[id := Thinking]), [])
    ensures Whole(c) && Comes(o, c)
  {
    c := MainOn(o, Crowd(r, []), AddKey, r.(main := AddMode(id), mutex := 0));
    c := MainOn(o, c, AddKey, c.table.(main := AddCount(id), mode := r.mode[id := Thinking]));
    c := MainOn(o, c, AddKey, c.table.(main := AddExec(id), count := id + 1));
  }

  /** Main seats the philosopher while its last process is still there. */
  lemma SeatsBeside(o: Crowd, r: Table, id: nat) returns (c: Crowd)
    requires Whole(o) && Shape(r) && Comes(o, Crowd(r, [])) && r.main == AddWait(id) && r.mutex == 1 && r.pc[id] != Gone
    ensures c == Crowd(r.(main := ShowWait, count := id + 1, mode := r.mode[id := Thinking],
                          pc := r.pc[id := TakeWait]), [Process(id, r.pc[id])])
    ensures Whole(c) && Comes(o, c)
  {
    c := MakesRoom(o, r, id);
    c := StartOn(o, c, id);
    c := MainOn(o, c, AddKey, c.table.(main := ShowWait, mutex := 1));
  }

  /** The elder stays, ... */
  lemma ElderStays(o: Crowd, c: Crowd, id: nat) returns (d: Crowd)
    requires Whole(o) && Whole(c) && Comes(o, c) && c.elders == [Process(id, ParkWait)] && id < |c.table.pc|
    requires c.table.mutex == 1 && c.table.park[id] == 1 && c.table.mode[id] == Thinking
    ensures d == Crowd(c.table.(park := c.table.park[id := 0]), [Process(id, TakeWait)]) && Whole(d) && Comes(o, d)
  {
    var s := Seen(c, 0);
    StaysOn(s, id, 4, s.(pc := s.pc[id := TakeWait], park := s.park[id := 0]));
    ElderAlone(c, 4);
    ComesOn(o, c, Same(Elder(0), 4));
    d := Acts(c, Same(Elder(0), 4));
  }

  /** ... the new process takes the forks, ... */
  lemma LatestTakes(o: Crowd, c: Crowd, id: nat) returns (d: Crowd)
    requires Whole(o) && Whole(c) && Comes(o, c) && id < c.table.count && c.table.pc[id] == TakeWait
    requires c.table.mutex == 1 && c.table.lock[id] == 0
    requires forall i :: 0 <= i < c.table.count && i != id ==> c.table.mode[i] == Thinking
    ensures d == c.(table := c.table.(mode := c.table.mode[id := Eating], pc := c.table.pc[id := PutWait]))
    ensures Whole(d) && Comes(o, d)
  {
    assert Left(id, c.table.count) != id && Right(id, c.table.count) != id;
    GetsForks(c.table, id, 6, c.table.(mode := c.table.mode[id := Eating], pc := c.table.pc[id := PutWait]));
    LatestAlone(c, id, 6);
    ComesOn(o, c, Same(Latest(Phylo(id)), 6));
    d := Acts(c, Same(Latest(Phylo(id)), 6));
  }

  /** ... and the elder takes them, too. */
  lemma ElderTakes(o: Crowd, c: Crowd, id: nat) returns (d: Crowd)
    requires Whole(o) && Whole(c) && Comes(o, c) && c.elders == [Process(id, TakeWait)] && id < c.table.count
    requires c.table.mutex == 1 && c.table.lock[id] == 0
    requires forall i :: 0 <= i < c.table.count && i != id ==> c.table.mode[i] == Thinking
    ensures d == Crowd(c.table.(mode := c.table.mode[id := Eating]), [Process(id, PutWait)]) && Whole(d) && Comes(o, d)
  {
    assert Left(id, c.table.count) != id && Right(id, c.table.count) != id;
    var s := Seen(c, 0);
    GetsForks(s, id, 6, s.(mode := s.mode[id := Eating], pc := s.pc[id := PutWait]));
    ElderAlone(c, 6);
    ComesOn(o, c, Same(Elder(0), 6));
    d := Acts(c, Same(Elder(0), 6));
  }

  /** Then it is seated again while its last process is about to leave. */
  lemma BesideItself(n: nat, cap: nat) returns (c: Crowd)
    requires 3 <= n <= cap
    ensures Comes(Crowd(Opened(n, cap), []), c) && Whole(c) && |c.table.pc| == cap && c.table.count == n
    ensures c.table.pc[n - 1] == TakeWait && c.elders == [Process(n - 1, ParkWait)]
    ensures c.table.mutex == 1 && c.table.lock[n - 1] == 0 && c.table.park[n - 1] == 1
    ensures forall i :: 0 <= i < n ==> c.table.mode[i] == Thinking
  {
    var r := AskedBack(n, cap);
    ReachedComes(n, cap, r);
    c := SeatsBeside(Crowd(Opened(n, cap), []), r, n - 1);
  }

  /** After that, two processes of the last philosopher are about to take its forks. */
  lemma TwoOfOne(n: nat, cap: nat) returns (c: Crowd)
    requires 3 <= n <= cap
    ensures Comes(Crowd(Opened(n, cap), []), c) && Whole(c) && |c.table.pc| == cap && c.table.count == n
    ensures c.table.pc[n - 1] == TakeWait && c.elders == [Process(n - 1, TakeWait)]
    ensures c.table.mutex == 1 && c.table.lock[n - 1] == 0
    ensures forall i :: 0 <= i < n ==> c.table.mode[i] == Thinking
  {
    var a := BesideItself(n, cap);
    c := ElderStays(Crowd(Opened(n, cap), []), a, n - 1);
  }

  /** From the opening with three philosophers or more: the last eats and parks, is removed, and is asked for
      again before its process has left. That process stays, and both take the same two forks. */
  lemma ForksTakenTwice(n: nat, cap: nat) returns (c: Crowd)
    requires 3 <= n <= cap
    ensures Comes(Crowd(Opened(n, cap), []), c) && Whole(c) && |c.table.pc| == cap && c.table.count == n
    ensures HasForks(c.table.pc[n - 1]) && |c.elders| == 1 && c.elders[0].id == n - 1 && HasForks(c.elders[0].pc)
  {
    var b := TwoOfOne(n, cap);
    var d := LatestTakes(Crowd(Opened(n, cap), []), b, n - 1);
    c := ElderTakes(Crowd(Opened(n, cap), []), d, n - 1);
  }
}
