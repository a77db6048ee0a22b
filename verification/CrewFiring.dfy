/**
 The end of the firing squad on sleeping mutexes: the laws of SquadFiring for
 the threads of fssp.c over lock, unlock, sleep and wakeup.
 */
module CrewFiring {
  import opened SquadThreads
  import S = FiringSquad
  import Q = SquadFiring
  import T = BarrierThreads
  import P = BarrierProgress
  import W = SleepWakeup
  import B = Barrier

  ghost predicate CrewInv(f: S.Rule, x: Crew, init: seq<int>) {
    && T.Inv(x.c) && P.WakersOk(x.c)
    && |x.c.w.locked| == 2 && Q.FireInv(f, Abs(x), init)
  }

  lemma StepInv(f: S.Rule, x: Crew, init: seq<int>, t: nat)
    requires CrewInv(f, x, init) && CanStep(x, t)
    ensures CrewInv(f, Step(f, x, t), init)
  {
    StepSimulates(f, x, t);
    hide Q.FireInv, T.Inv, P.WakersOk, S.Step, S.CanStep, T.Next, T.CanStep;
    if Abs(Step(f, x, t)) != Abs(x) {
      Q.StepFires(f, Abs(x), init, t);
    }
    if !InCode(x, t) {
      T.NextInv(x.c, t);
      P.WakersStay(x.c, t);
    }
  }

  lemma StartInv(f: S.Rule, x: Crew, init: seq<int>)
    requires Start(x, init)
    ensures CrewInv(f, x, init)
  {
    StartProjects(x, init);
    T.InitInv(x.c);
    P.StartGains(x.c);
    hide T.Inv, P.WakersOk, Q.FireInv, Start;
    Q.StartFires(f, Abs(x), init);
  }

  lemma {:induction false} RunInv(f: S.Rule, xs: seq<Crew>, ts: seq<nat>, init: seq<int>, j: nat)
    requires Run(f, xs, ts, init) && j < |xs|
    ensures CrewInv(f, xs[j], init)
  {
    hide CrewInv, Step, CanStep, Start;
    if j == 0 {
      StartInv(f, xs[0], init);
    } else {
      RunInv(f, xs, ts, init, j - 1);
      StepInv(f, xs[j - 1], init, ts[j - 1]);
    }
  }

  // ---------- Who leaves, and when ----------

  /** A thread leaves its loop only where it fires, and completes a round only if it did not fire there. */
  lemma ExitsOnlyByFire(f: S.Rule, xs: seq<Crew>, ts: seq<nat>, init: seq<int>, j: nat, t: nat, k: nat)
    requires Run(f, xs, ts, init) && j < |xs| && t < |xs[j].c.th|
    ensures |xs[j].c.th| == |xs[j].loc| == |init| + 1
    ensures xs[j].loc[t].stage.Exited? ==> xs[j].c.th[t].pc.Idle? && xs[j].c.th[t].done % 2 == 1
    ensures xs[j].loc[t].stage.Exited? && xs[j].c.th[t].done == 2 * k + 1 ==> Q.Fires(f, init, k, t)
    ensures xs[j].c.th[t].done > 2 * k + 1 ==> !Q.Fires(f, init, k, t)
  {
    hide Step, CanStep, S.Step, S.CanStep;
    var ss, us := RunProjects(f, xs[..j + 1], ts[..j], init);
    Q.ExitsOnlyByFire(f, ss, us, init, |us|, t, k);
  }

  /** At the loop head of round k the thread's next step leaves the loop if and only if its cell is F. */
  lemma HeadExact(f: S.Rule, xs: seq<Crew>, ts: seq<nat>, init: seq<int>, j: nat, k: nat)
    requires Run(f, xs, ts, init) && j < |ts| && ts[j] < |xs[j].c.th| == |xs[j].loc| == |xs[j].c.w.pc|
    requires xs[j].c.th[ts[j]] == B.Thread(B.Idle, 2 * k + 1) && xs[j].c.w.pc[ts[j]].Out? && xs[j].loc[ts[j]].stage.Head?
    ensures xs[j + 1].c == xs[j].c && xs[j + 1].cells == xs[j].cells && |xs[j + 1].loc| == |xs[j].loc|
    ensures xs[j + 1].loc[ts[j]].stage.Exited? <==> Q.Fires(f, init, k, ts[j])
    ensures forall u :: 0 <= u < |xs[j].loc| && u != ts[j] ==> xs[j + 1].loc[u] == xs[j].loc[u]
  {
    CrewRunsInStep(f, xs, ts, init, j, ts[j], k);
    SizesOf(f, xs, ts, init, j);
    S.OddRound(k);
    hide S.Sync;
  }

  lemma SizesOf(f: S.Rule, xs: seq<Crew>, ts: seq<nat>, init: seq<int>, j: nat)
    requires Run(f, xs, ts, init) && j < |xs|
    ensures |xs[j].c.th| == |xs[j].c.w.pc| == |xs[j].loc| == |xs[j].cells| + 1 == |init| + 1
  {
    RunInv(f, xs, ts, init, j);
  }

  // ---------- Every round is completed ----------

  /** A completed call outweighs the way back to the head of the code. */
  function Gain(x: Crew): int {
    6 * P.Potential(x.c) + Q.Stages(x.loc)
  }

  /** A step of the barrier leaves the locals, or sends the thread back to the head of its code. */
  lemma CallLocals(f: S.Rule, x: Crew, t: nat)
    requires CanStep(x, t) && !InCode(x, t)
    ensures Step(f, x, t).c == T.Next(x.c, t) && Q.Stages(Step(f, x, t).loc) >= Q.Stages(x.loc) - 5
  {
    hide T.Next, Q.Stages;
    Q.StagesUpdate(x.loc, t, x.loc[t].(stage := S.Head));
  }

  lemma StepGains(f: S.Rule, x: Crew, init: seq<int>, t: nat)
    requires CrewInv(f, x, init) && CanStep(x, t)
    ensures Gain(Step(f, x, t)) > Gain(x)
  {
    hide P.Potential, Q.Stages;
    if InCode(x, t) {
      CodeSimulates(f, x, t);
      Q.CodeGains(f, Abs(x), t);
    } else {
      CallLocals(f, x, t);
      P.StepGains(x.c, t);
    }
  }

  lemma StartGains(x: Crew, init: seq<int>)
    requires Start(x, init)
    ensures Gain(x) >= 0
  {
    P.StartGains(x.c);
  }

  lemma {:induction false} RunGains(f: S.Rule, xs: seq<Crew>, ts: seq<nat>, init: seq<int>, j: nat)
    requires Run(f, xs, ts, init) && j < |xs|
    ensures Gain(xs[j]) >= j
  {
    hide Gain, Step, CanStep, Start, CrewInv;
    if j == 0 {
      StartGains(xs[0], init);
    } else {
      RunGains(f, xs, ts, init, j - 1);
      RunInv(f, xs, ts, init, j - 1);
      StepGains(f, xs[j - 1], init, ts[j - 1]);
    }
  }

  /** The steps after which n threads have completed m calls each. */
  function Enough(n: nat, m: nat): nat {
    6 * P.Enough(n, m) + 5 * n
  }

  /** Whoever can step on semaphores does so here, or somebody clears the way. */
  lemma WayIsCleared(f: S.Rule, x: Crew, init: seq<int>, t: nat) returns (u: nat)
    requires CrewInv(f, x, init) && S.CanStep(Abs(x), t)
    ensures CanStep(x, u)
  {
    assert T.Agree(x.c, t);
    if x.c.w.pc[t].Out? {
      u := t;
    } else if x.c.w.pc[t].Asleep? {
      u := W.SleeperIsNotStuck(x.c.w, t);
    } else {
      u := T.AwakeIsNotStuck(x.c, t);
    }
  }

  /**
   While no cell has fired in rounds 0 .. k, the crew does not stop before every
   thread has completed round k, and that takes a bounded number of steps.
   */
  lemma RoundsComplete(f: S.Rule, xs: seq<Crew>, ts: seq<nat>, init: seq<int>, j: nat, k: nat, u: nat) returns (t: nat)
    requires Run(f, xs, ts, init) && j < |xs| && Q.Quiet(f, init, k) && u < |xs[j].c.th|
    ensures xs[j].c.th[u].done < 2 * k + 3 ==> CanStep(xs[j], t) && j < Enough(|init| + 1, 2 * k + 3)
  {
    RunInv(f, xs, ts, init, j);
    t := 0;
    if xs[j].c.th[u].done < 2 * k + 3 {
      var v := Q.SomebodySteps(f, Abs(xs[j]), init, k, u);
      t := WayIsCleared(f, xs[j], init, v);
      RunGains(f, xs, ts, init, j);
      P.BehindBound(xs[j].c, 2 * k + 3, u);
    }
  }

  // ---------- How a run ends ----------

  /** Where the crew cannot go on, the squad on semaphores cannot either. */
  lemma StopsTogether(f: S.Rule, x: Crew, init: seq<int>)
    requires CrewInv(f, x, init) && forall t :: !CanStep(x, t)
    ensures |x.c.w.locked| == 2 && forall t :: !S.CanStep(Abs(x), t)
  {
    forall t: nat
      ensures !S.CanStep(Abs(x), t)
    {
      if S.CanStep(Abs(x), t) {
        var u := WayIsCleared(f, x, init, t);
      }
    }
  }

  /**
   Every run ends, and where it cannot go on every thread is at the first firing
   round: those who fired have left, all the others sleep in the barrier for ever.
   */
  lemma CrewEnds(f: S.Rule, xs: seq<Crew>, ts: seq<nat>, init: seq<int>, j: nat, k: nat)
    requires Run(f, xs, ts, init) && j < |xs| && Q.FirstFiring(f, init, k)
    ensures j < Enough(|init| + 1, 2 * k + 2)
    ensures |xs[j].c.th| == |xs[j].c.w.pc| == |xs[j].loc| == |init| + 1
    ensures (forall t :: !CanStep(xs[j], t)) ==> forall t :: 0 <= t <= |init| ==>
              && xs[j].c.th[t].done == 2 * k + 1
              && (if Q.Fires(f, init, k, t) then xs[j].loc[t].stage.Exited? else xs[j].c.w.pc[t] == W.Asleep(T.POST))
  {
    hide CrewInv, CanStep, Run, Gain, Enough;
    RunInv(f, xs, ts, init, j);
    RunGains(f, xs, ts, init, j);
    SizesOf(f, xs, ts, init, j);
    FiringBound(f, xs[j], init, k);
    if forall t :: !CanStep(xs[j], t) {
      StopsTogether(f, xs[j], init);
      forall t | 0 <= t <= |init|
        ensures xs[j].c.th[t].done == 2 * k + 1
        ensures if Q.Fires(f, init, k, t) then xs[j].loc[t].stage.Exited? else xs[j].c.w.pc[t] == W.Asleep(T.POST)
      {
        EndsThere(f, xs[j], init, k, t);
      }
    }
  }

  lemma FiringBound(f: S.Rule, x: Crew, init: seq<int>, k: nat)
    requires CrewInv(f, x, init) && Q.FirstFiring(f, init, k)
    ensures Gain(x) < Enough(|init| + 1, 2 * k + 2)
  {
    hide T.Inv, P.WakersOk, P.Potential, P.Enough, Q.Fires;
    var u: nat :| u < |init| && Q.Fires(f, init, k, u);
    assert |x.c.th| == |x.loc| == |init| + 1;
    Q.NobodyPasses(f, Abs(x), init, k, u, 0);
    P.BehindBound(x.c, 2 * k + 2, 0);
  }

  lemma EndsThere(f: S.Rule, x: Crew, init: seq<int>, k: nat, t: nat)
    requires CrewInv(f, x, init) && Q.FirstFiring(f, init, k) && t < |x.c.th| == |x.c.w.pc| == |x.loc|
    requires (forall u :: !CanStep(x, u)) && |x.c.w.locked| == 2 && forall u :: !S.CanStep(Abs(x), u)
    ensures x.c.th[t].done == 2 * k + 1
    ensures if Q.Fires(f, init, k, t) then x.loc[t].stage.Exited? else x.c.w.pc[t] == W.Asleep(T.POST)
  {
    hide T.Inv, P.WakersOk, Q.FireInv, S.CanStep, CanStep, Q.FirstFiring;
    Q.AllAtFiring(f, Abs(x), init, k);
    Q.EndsThere(f, Abs(x), init, k, t);
    if x.c.th[t].pc.PostWait? {
      WaitsAsleep(f, x, init, t);
    }
  }

  /** A thread that waits in a crew that cannot go on sleeps on post_mx. */
  lemma WaitsAsleep(f: S.Rule, x: Crew, init: seq<int>, t: nat)
    requires CrewInv(f, x, init) && t < |x.c.th| && x.c.th[t].pc.PostWait? && forall u :: !CanStep(x, u)
    ensures x.c.w.pc[t] == W.Asleep(T.POST)
  {
    assert T.Agree(x.c, t);
    assert !CanStep(x, t);
    if !x.c.w.pc[t].Asleep? {
      var u := T.AwakeIsNotStuck(x.c, t);
      assert CanStep(x, u);
    }
  }

  /** The crew ends with all threads out of their loops if and only if the first firing is one of all soldiers. */
  lemma AllLeaveExactly(f: S.Rule, xs: seq<Crew>, ts: seq<nat>, init: seq<int>, j: nat, k: nat)
    requires Run(f, xs, ts, init) && j < |xs| && Q.FirstFiring(f, init, k) && forall t :: !CanStep(xs[j], t)
    ensures |xs[j].loc| == |init| + 1
    ensures (forall t :: 0 <= t <= |init| ==> xs[j].loc[t].stage.Exited?)
            <==> forall i :: 0 <= i < |init| ==> S.Sync(f, init, k)[i] == S.F
  {
    CrewEnds(f, xs, ts, init, j, k);
    Q.FiresAll(f, init, k);
    hide S.Sync, Q.Fires, Run, CanStep;
    forall t | 0 <= t <= |init|
      ensures xs[j].loc[t].stage.Exited? <==> Q.Fires(f, init, k, t)
    {
      ExitsOnlyByFire(f, xs, ts, init, j, t, k);
    }
  }
}
