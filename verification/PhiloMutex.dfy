/** What it costs phylo that it opens its mutex at 0 and starts the philosophers before it posts: the protocol
    over ideal semaphores, and the same opening over the kernel's. */
module PhiloMutex {
  import opened Arithmetic
  import P = Philosophers
  import S = Semaphores

  ghost predicate NoPosts(acts: seq<S.Action>) { forall a :: a in acts ==> !a.Post? }

  lemma {:induction false} NoPostsFit(s: S.Sem, acts: seq<S.Action>)
    requires S.Shape(s) && NoPosts(acts)
    ensures S.AllFit(s, acts) && S.After(s, acts).posts == s.posts && S.After(s, acts).initial == s.initial
    decreases |acts|
  {
    if acts != [] {
      assert acts[0] in acts;
      NoPostsFit(S.Step(s, acts[0]), acts[1..]);
    }
  }

  /** Before the main program's post nobody gets through the mutex; and if a philosopher checks it by then,
      taking the lock and finding 0, nobody ever does. */
  lemma OpenedAtZero(n: nat, before: seq<S.Action>, rest: seq<S.Action>)
    requires NoPosts(before)
    ensures var s := S.After(S.Opened(n, 0), before);
            && s.takes == 0 && s.value == 0
            && (S.Jammed(s) <==> S.EverWinsNothing(S.Opened(n, 0), before))
            && (S.Jammed(s) ==> S.After(s, rest).takes == 0)
  {
    var o := S.Opened(n, 0);
    NoPostsFit(o, before);
    S.OpenedIsGood(n, 0);
    S.RunKeeps(o, before);
    S.JamsExactly(o, before);
    if S.Jammed(S.After(o, before)) {
      S.JammedForGood(S.After(o, before), rest);
    }
  }

  /** One philosopher that comes to its first wait before main's post: on an ideal semaphore it is blocked and
      goes on after the post; on the kernel's, whatever follows, nobody ever gets through. */
  lemma EarlyPhilosopher(n: nat, cap: nat, i: nat, rest: seq<S.Action>)
    requires P.MIN <= n <= cap && i < n
    ensures var o := P.Opened(n, cap); var t := P.Step(P.Step(o, P.Phylo(i)), P.Main(P.OtherKey));
            P.Step(o, P.Phylo(i)) == o && t.mutex == 1 && P.CanMove(t, P.Phylo(i))
    ensures var before := [S.Wait(i), S.Go(i), S.Go(i)];
            S.After(S.After(S.Opened(n + 1, 0), before), [S.Post(n)] + rest).takes == 0
  {
    var o := P.Opened(n, cap);
    var t := P.Step(P.Step(o, P.Phylo(i)), P.Main(P.OtherKey));
    assert P.Move(t, i).pc[i] != t.pc[i];
    var before := [S.Wait(i), S.Go(i), S.Go(i)];
    S.EarlyWaitJams(n + 1, i);
    OpenedAtZero(n + 1, before, [S.Post(n)] + rest);
  }
}
