/**
 The firing squad of fssp.c with its barrier on the sleeping mutexes of
 mutex.c: every run is a run of the squad on semaphores, and so in step with
 the synchronous automaton.
 */
module SquadThreads {
  import S = FiringSquad
  import T = BarrierThreads
  import B = Barrier

  /** The threads with their mutexes, the shared state array and the locals. */
  datatype Crew = Crew(c: T.Team, cells: seq<int>, loc: seq<S.Local>)

  ghost predicate Start(x: Crew, init: seq<int>) {
    && T.Init(x.c) && x.cells == init && |x.c.th| == |x.loc| == |init| + 1
    && forall t :: 0 <= t < |x.loc| ==> x.loc[t].stage == S.Ready
  }

  /** Thread t runs its own code between two calls of the barrier, the wakeup of the last call behind it. */
  predicate InCode(x: Crew, t: nat)
    requires t < |x.c.th| == |x.c.w.pc| == |x.loc|
  {
    x.c.th[t].pc.Idle? && x.c.w.pc[t].Out? && !x.loc[t].stage.Ready?
  }

  predicate CanStep(x: Crew, t: nat) {
    && T.CanStep(x.c, t) && |x.c.th| == |x.loc| == |x.cells| + 1
    && (InCode(x, t) ==> !x.loc[t].stage.Exited?)
  }

  /** The squad with its barrier on semaphores. */
  function Abs(x: Crew): S.Squad
    requires |x.c.w.locked| == 2
  {
    S.Squad(T.Abs(x.c), x.cells, x.loc)
  }

  /** What own code does to the array and the locals. */
  function Code(f: S.Rule, x: Crew, t: nat): S.Squad
    requires CanStep(x, t)
  {
    if t < |x.cells| then S.SoldierStep(f, Abs(x), t) else S.MainStep(Abs(x), t)
  }

  function Step(f: S.Rule, x: Crew, t: nat): Crew
    requires CanStep(x, t)
  {
    if InCode(x, t) then x.(cells := Code(f, x, t).cells, loc := Code(f, x, t).loc)
    else
      var c' := T.Next(x.c, t);
      if t < |c'.th| && c'.th[t].done > x.c.th[t].done then Crew(c', x.cells, x.loc[t := x.loc[t].(stage := S.Head)])
      else x.(c := c')
  }

  // ---------- Simulation ----------

  /** A thread still in the wakeup of its last unlock does nothing to the barrier. */
  lemma WakingIsQuiet(c: T.Team, t: nat)
    requires T.Inv(c) && T.CanStep(c, t) && c.th[t].pc.Idle? && !c.w.pc[t].Out?
    ensures |T.Next(c, t).w.locked| == 2 && T.Abs(T.Next(c, t)) == T.Abs(c)
  {
    assert T.Agree(c, t);
    hide T.Inv;
    T.LockedTwo(c);
  }

  lemma CodeSimulates(f: S.Rule, x: Crew, t: nat)
    requires T.Inv(x.c) && CanStep(x, t) && InCode(x, t)
    ensures S.CanStep(Abs(x), t) && Abs(Step(f, x, t)) == S.Step(f, Abs(x), t)
  {
    hide T.Inv;
  }

  lemma TeamSimulates(f: S.Rule, x: Crew, t: nat)
    requires T.Inv(x.c) && CanStep(x, t) && !InCode(x, t)
    ensures |Step(f, x, t).c.w.locked| == 2
    ensures Abs(Step(f, x, t)) == Abs(x) || (S.CanStep(Abs(x), t) && Abs(Step(f, x, t)) == S.Step(f, Abs(x), t))
  {
    T.StepSimulates(x.c, t);
    if x.c.th[t].pc.Idle? && !x.c.w.pc[t].Out? {
      WakingIsQuiet(x.c, t);
    }
    hide T.Inv, T.Next, T.CanStep;
    var c' := T.Next(x.c, t);
    if T.Abs(c') == T.Abs(x.c) {
      assert c'.th == x.c.th;
    } else {
      assert c'.th == B.Next(T.Abs(x.c), t).th;
    }
  }

  ghost predicate Run(f: S.Rule, xs: seq<Crew>, ts: seq<nat>, init: seq<int>) {
    && |xs| == |ts| + 1
    && Start(xs[0], init)
    && forall i :: 0 <= i < |ts| ==> CanStep(xs[i], ts[i]) && xs[i + 1] == Step(f, xs[i], ts[i])
  }

  lemma {:induction false} RunTeamInv(f: S.Rule, xs: seq<Crew>, ts: seq<nat>, init: seq<int>, j: nat)
    requires Run(f, xs, ts, init) && j < |xs|
    ensures T.Inv(xs[j].c)
  {
    hide T.Inv, T.Next;
    if j == 0 {
      T.InitInv(xs[0].c);
    } else {
      RunTeamInv(f, xs, ts, init, j - 1);
      if !InCode(xs[j - 1], ts[j - 1]) {
        T.NextInv(xs[j - 1].c, ts[j - 1]);
      }
    }
  }

  /** Without its repetitions, a run of the crew is a run of the squad on semaphores. */
  lemma {:induction false} RunProjects(f: S.Rule, xs: seq<Crew>, ts: seq<nat>, init: seq<int>) returns (ss: seq<S.Squad>, us: seq<nat>)
    requires Run(f, xs, ts, init)
    ensures S.SquadRun(f, ss, us, init) && |xs[|ts|].c.w.locked| == 2 && ss[|us|] == Abs(xs[|ts|])
    decreases |ts|
  {
    hide Step, CanStep, S.Step, S.CanStep, T.Inv;
    RunTeamInv(f, xs, ts, init, |ts|);
    T.LockedTwo(xs[|ts|].c);
    if |ts| == 0 {
      StartProjects(xs[0], init);
      ss, us := [Abs(xs[0])], [];
    } else {
      var n := |ts| - 1;
      ss, us := RunProjects(f, xs[..n + 1], ts[..n], init);
      RunTeamInv(f, xs, ts, init, n);
      StepSimulates(f, xs[n], ts[n]);
      if Abs(xs[n + 1]) != Abs(xs[n]) {
        ss, us := ss + [Abs(xs[n + 1])], us + [ts[n]];
      }
    }
  }

  lemma StartProjects(x: Crew, init: seq<int>)
    requires Start(x, init)
    ensures |x.c.w.locked| == 2 && S.Start(Abs(x), init)
  {
  }

  lemma StepSimulates(f: S.Rule, x: Crew, t: nat)
    requires T.Inv(x.c) && CanStep(x, t)
    ensures |Step(f, x, t).c.w.locked| == 2
    ensures Abs(Step(f, x, t)) == Abs(x) || (S.CanStep(Abs(x), t) && Abs(Step(f, x, t)) == S.Step(f, Abs(x), t))
  {
    if InCode(x, t) {
      CodeSimulates(f, x, t);
    } else {
      TeamSimulates(f, x, t);
    }
  }

  /**
   On sleeping mutexes too the threaded automaton is the synchronous one: while
   any thread is between its barrier calls 2k + 1 and 2k + 2, the state array is
   k simultaneous steps from the initial one.
   */
  lemma CrewRunsInStep(f: S.Rule, xs: seq<Crew>, ts: seq<nat>, init: seq<int>, j: nat, t: nat, k: nat)
    requires Run(f, xs, ts, init) && j < |xs| && t < |xs[j].c.th|
    requires xs[j].c.th[t] == B.Thread(B.Idle, 2 * k + 1)
    ensures xs[j].cells == S.Sync(f, init, k)
  {
    hide Step, CanStep, S.Step, S.CanStep, S.Sync;
    var ss, us := RunProjects(f, xs[..j + 1], ts[..j], init);
    S.ThreadsRunInStep(f, ss, us, init, |us|, t, k);
  }
}
