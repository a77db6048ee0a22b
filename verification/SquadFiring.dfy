/**
 When the threads of fssp.c leave their loops: a soldier exactly at the round
 whose synchronous state makes it fire, main exactly when the general fires;
 until then every round is completed, and the whole squad ends if and only if
 the first firing is a firing of all.
 */
module SquadFiring {
  import opened FiringSquad
  import B = Barrier
  import P = BarrierProgress

  /** The loop test of thread t fails at the head of round k: main looks at the general. */
  ghost predicate Fires(f: Rule, init: seq<int>, k: nat, t: nat) {
    |init| > 0 && Sync(f, init, k)[if t < |init| then t else 0] == F
  }

  /** The thread has gone past the loop test of round k. */
  predicate Passed(x: B.Thread, l: Local, k: nat) {
    2 * k + 1 < x.done || (2 * k + 1 == x.done && (!x.pc.Idle? || !(l.stage.Head? || l.stage.Exited?)))
  }

  /** Whoever passed a test did not fire there, and whoever left the loop fired. */
  ghost predicate ThreadOk(f: Rule, x: B.Thread, l: Local, init: seq<int>, t: nat) {
    && (forall k: nat :: Passed(x, l, k) ==> !Fires(f, init, k, t))
    && (forall k: nat :: x.done == 2 * k + 1 && l.stage.Exited? ==> Fires(f, init, k, t))
    && (l.stage.Exited? ==> x.pc.Idle? && x.done % 2 == 1)
    && (!x.pc.Idle? || x.done == 0 ==> l.stage.Ready?)
  }

  ghost predicate FireInv(f: Rule, s: Squad, init: seq<int>) {
    && SquadInv(f, s, init)
    && forall t :: 0 <= t < |s.b.th| ==> ThreadOk(f, s.b.th[t], s.loc[t], init, t)
  }

  // ---------- Every step keeps it ----------

  /** The loop test of round k, on the array that is then synchronous. */
  lemma TestOk(f: Rule, s: Squad, init: seq<int>, t: nat, k: nat)
    requires CanStep(s, t) && s.b.th[t] == B.Thread(B.Idle, 2 * k + 1) && !s.loc[t].stage.Ready?
    requires s.cells == Sync(f, init, k) && ThreadOk(f, s.b.th[t], s.loc[t], init, t)
    ensures ThreadOk(f, s.b.th[t], Step(f, s, t).loc[t], init, t)
  {
    hide Sync, Left, Right;
    OddRound(k);
    var l' := Step(f, s, t).loc[t];
    assert Passed(s.b.th[t], s.loc[t], k) ==> !Fires(f, init, k, t);
    assert l'.stage.Exited? ==> Fires(f, init, k, t);
    assert Passed(s.b.th[t], l', k) ==> !Fires(f, init, k, t);
    forall i: nat | Passed(s.b.th[t], l', i)
      ensures !Fires(f, init, i, t)
    {
      assert i == k || Passed(s.b.th[t], s.loc[t], i);
    }
  }

  /** Between the odd call and the even one nothing is tested. */
  lemma StoreOk(f: Rule, s: Squad, init: seq<int>, t: nat)
    requires CanStep(s, t) && s.b.th[t].pc.Idle? && s.b.th[t].done % 2 == 0 && !s.loc[t].stage.Ready?
    requires ThreadOk(f, s.b.th[t], s.loc[t], init, t)
    ensures ThreadOk(f, s.b.th[t], Step(f, s, t).loc[t], init, t)
  {
    forall i: nat | Passed(s.b.th[t], Step(f, s, t).loc[t], i)
      ensures !Fires(f, init, i, t)
    {
      assert Passed(s.b.th[t], s.loc[t], i);
    }
  }

  lemma CallOk(f: Rule, init: seq<int>, t: nat, x: B.Thread, l: Local, x': B.Thread, l': Local)
    requires ThreadOk(f, x, l, init, t) && l.stage.Ready?
    requires || (x'.done == x.done && !x'.pc.Idle? && l' == l)
             || (x' == B.Thread(B.Idle, x.done + 1) && l' == l.(stage := Head))
    ensures ThreadOk(f, x', l', init, t)
  {
    forall i: nat | Passed(x', l', i)
      ensures !Fires(f, init, i, t)
    {
      assert Passed(x, l, i);
    }
  }

  lemma StepSelf(f: Rule, s: Squad, init: seq<int>, t: nat)
    requires FireInv(f, s, init) && CanStep(s, t)
    ensures |Step(f, s, t).b.th| == |Step(f, s, t).loc| == |s.loc|
    ensures ThreadOk(f, Step(f, s, t).b.th[t], Step(f, s, t).loc[t], init, t)
  {
    assert ThreadOk(f, s.b.th[t], s.loc[t], init, t);
    hide SquadInv, Sync;
    if !(s.b.th[t].pc.Idle? && !s.loc[t].stage.Ready?) {
      CallOk(f, init, t, s.b.th[t], s.loc[t], Step(f, s, t).b.th[t], Step(f, s, t).loc[t]);
    } else if s.b.th[t].done % 2 == 1 {
      ReadsRound(f, s, init, t);
      TestOk(f, s, init, t, (s.b.th[t].done - 1) / 2);
    } else {
      StoreOk(f, s, init, t);
    }
  }

  lemma StepOthers(f: Rule, s: Squad, t: nat, u: nat)
    requires CanStep(s, t) && u < |s.loc| && u != t
    ensures |Step(f, s, t).b.th| == |Step(f, s, t).loc| == |s.loc|
    ensures Step(f, s, t).b.th[u] == s.b.th[u] && Step(f, s, t).loc[u] == s.loc[u]
  {
  }

  lemma StepFires(f: Rule, s: Squad, init: seq<int>, t: nat)
    requires FireInv(f, s, init) && CanStep(s, t)
    ensures FireInv(f, Step(f, s, t), init)
  {
    StepInv(f, s, init, t);
    StepSelf(f, s, init, t);
    hide Step, SquadInv, ThreadOk;
    var s' := Step(f, s, t);
    forall u | 0 <= u < |s'.b.th| && u != t
      ensures ThreadOk(f, s'.b.th[u], s'.loc[u], init, u)
    {
      StepOthers(f, s, t, u);
    }
  }

  lemma StartFires(f: Rule, s: Squad, init: seq<int>)
    requires Start(s, init)
    ensures FireInv(f, s, init)
  {
    StartInv(f, s, init);
  }

  lemma {:induction false} RunFires(f: Rule, ss: seq<Squad>, ts: seq<nat>, init: seq<int>, j: nat)
    requires SquadRun(f, ss, ts, init) && j < |ss|
    ensures FireInv(f, ss[j], init)
  {
    hide FireInv, Step, CanStep, Start;
    if j == 0 {
      StartFires(f, ss[0], init);
    } else {
      RunFires(f, ss, ts, init, j - 1);
      StepFires(f, ss[j - 1], init, ts[j - 1]);
    }
  }

  // ---------- Who leaves, and when ----------

  /**
   In every run a thread leaves its loop only at a round at which its cell is F
   in the synchronous automaton, and completes a round only if its cell was not.
   */
  lemma ExitsOnlyByFire(f: Rule, ss: seq<Squad>, ts: seq<nat>, init: seq<int>, j: nat, t: nat, k: nat)
    requires SquadRun(f, ss, ts, init) && j < |ss| && t < |ss[j].b.th|
    ensures |ss[j].b.th| == |ss[j].loc| == |init| + 1
    ensures ss[j].loc[t].stage.Exited? ==> ss[j].b.th[t].pc.Idle? && ss[j].b.th[t].done % 2 == 1
    ensures ss[j].loc[t].stage.Exited? && ss[j].b.th[t].done == 2 * k + 1 ==> Fires(f, init, k, t)
    ensures ss[j].b.th[t].done > 2 * k + 1 ==> !Fires(f, init, k, t)
  {
    RunFires(f, ss, ts, init, j);
    assert ThreadOk(f, ss[j].b.th[t], ss[j].loc[t], init, t);
    assert Passed(ss[j].b.th[t], ss[j].loc[t], k) ==> !Fires(f, init, k, t);
  }

  /** At the loop head of round k the next step of the thread leaves the loop if and only if its cell is F. */
  lemma HeadExact(f: Rule, ss: seq<Squad>, ts: seq<nat>, init: seq<int>, j: nat, k: nat)
    requires SquadRun(f, ss, ts, init) && j < |ts| && ts[j] < |ss[j].b.th| == |ss[j].loc|
    requires ss[j].b.th[ts[j]] == B.Thread(B.Idle, 2 * k + 1) && ss[j].loc[ts[j]].stage.Head?
    ensures ss[j + 1].b == ss[j].b && ss[j + 1].cells == ss[j].cells && |ss[j + 1].loc| == |ss[j].loc|
    ensures ss[j + 1].loc[ts[j]].stage.Exited? <==> Fires(f, init, k, ts[j])
    ensures forall u :: 0 <= u < |ss[j].loc| && u != ts[j] ==> ss[j + 1].loc[u] == ss[j].loc[u]
  {
    ThreadsRunInStep(f, ss, ts, init, j, ts[j], k);
    SquadRunInv(f, ss, ts, init, j);
    OddRound(k);
    hide Sync;
  }

  // ---------- Every round is completed ----------

  function StageRank(g: Stage): nat {
    match g
    case Head => 0
    case Tested => 1
    case HaveCurr => 2
    case HaveLeft => 3
    case Ready => 4
    case Exited => 5
  }

  function Stages(loc: seq<Local>): (r: nat)
    ensures r <= 5 * |loc|
  {
    if loc == [] then 0 else Stages(loc[..|loc| - 1]) + StageRank(loc[|loc| - 1].stage)
  }

  lemma {:induction false} StagesUpdate(loc: seq<Local>, t: nat, l: Local)
    requires t < |loc|
    ensures Stages(loc[t := l]) == Stages(loc) - StageRank(loc[t].stage) + StageRank(l.stage)
    decreases |loc|
  {
    hide StageRank;
    var n := |loc| - 1;
    if t == n {
      assert loc[t := l][..n] == loc[..n];
    } else {
      assert loc[t := l][..n] == loc[..n][t := l];
      StagesUpdate(loc[..n], t, l);
    }
  }

  /** Own code moves the thread up and nobody else. */
  lemma CodeGains(f: Rule, s: Squad, t: nat)
    requires CanStep(s, t) && s.b.th[t].pc.Idle? && !s.loc[t].stage.Ready?
    ensures Step(f, s, t).b == s.b && Stages(Step(f, s, t).loc) > Stages(s.loc)
  {
    hide Stages;
    var s' := Step(f, s, t);
    StagesUpdate(s.loc, t, s'.loc[t]);
    assert s'.loc == s.loc[t := s'.loc[t]];
  }

  /** A completed call outweighs the way back to the head of the code. */
  function Gain(s: Squad): nat {
    6 * P.Places(s.b.th) + Stages(s.loc)
  }

  lemma StepGains(f: Rule, s: Squad, t: nat)
    requires CanStep(s, t)
    ensures Gain(Step(f, s, t)) > Gain(s)
  {
    hide P.Places, Stages;
    var s' := Step(f, s, t);
    if s.b.th[t].pc.Idle? && !s.loc[t].stage.Ready? {
      CodeGains(f, s, t);
    } else {
      P.PlacesUpdate(s.b.th, t, s'.b.th[t]);
      StagesUpdate(s.loc, t, s'.loc[t]);
      assert s'.b.th == s.b.th[t := s'.b.th[t]] && s'.loc == s.loc[t := s'.loc[t]];
      assert P.Place(s'.b.th[t]) == P.Place(s.b.th[t]) + 1;
    }
  }

  lemma {:induction false} RunGains(f: Rule, ss: seq<Squad>, ts: seq<nat>, init: seq<int>, j: nat)
    requires SquadRun(f, ss, ts, init) && j < |ss|
    ensures Gain(ss[j]) >= j
  {
    hide Gain, Step, CanStep, Start;
    if j > 0 {
      RunGains(f, ss, ts, init, j - 1);
      StepGains(f, ss[j - 1], ts[j - 1]);
    }
  }

  /** The steps after which n threads have completed m calls each. */
  function Enough(n: nat, m: nat): nat {
    6 * (n * (7 * m + 6)) + 5 * n + 1
  }

  lemma BehindBound(f: Rule, s: Squad, init: seq<int>, m: nat, t: nat)
    requires SquadInv(f, s, init) && t < |s.b.th| && s.b.th[t].done < m
    ensures Gain(s) < Enough(|s.b.th|, m)
  {
    forall u | 0 <= u < |s.b.th|
      ensures P.Place(s.b.th[u]) <= 7 * m + 6
    {
      B.CallsInStep(s.b, u, t);
    }
    hide P.Place;
    P.PlacesBound(s.b.th, 7 * m + 6);
  }

  /** While a round drains, somebody inside can go on. */
  lemma DrainGoes(s: B.State) returns (t: nat)
    requires B.Inv(s) && s.draining
    ensures B.Enabled(s, t) && !s.th[t].pc.Idle?
  {
    if u :| 0 <= u < |s.th| && B.Critical(s.th[u]) {
      t := u;
    } else {
      B.CountBounds(s.th);
      t :| 0 <= t < |s.th| && B.Counted(s.th[t]);
    }
  }

  /** Nobody fires in rounds 0 .. k. */
  ghost predicate Quiet(f: Rule, init: seq<int>, k: nat) {
    forall i: nat, t: nat :: i <= k ==> !Fires(f, init, i, t)
  }

  /** Before the first firing somebody can always go on. */
  lemma SomebodySteps(f: Rule, s: Squad, init: seq<int>, k: nat, u: nat) returns (t: nat)
    requires FireInv(f, s, init) && Quiet(f, init, k) && u < |s.b.th| && s.b.th[u].done < 2 * k + 3
    ensures CanStep(s, t)
  {
    if s.b.draining {
      t := DrainGoes(s.b);
    } else if v :| 0 <= v < |s.b.th| && s.b.th[v].pc.Idle? {
      SameRound(s.b, u, v);
      if s.loc[v].stage.Exited? {
        var i := ExitRound(f, s, init, v);
      }
      t := v;
    } else {
      t := B.SomebodyCanGo(s.b);
    }
  }

  lemma SameRound(s: B.State, u: nat, v: nat)
    requires B.Inv(s) && !s.draining && u < |s.th| && v < |s.th|
    ensures s.th[u].done == s.th[v].done == s.round
  {
    assert B.FillingThread(s, s.th[u]) && B.FillingThread(s, s.th[v]);
  }

  /** The round at which a thread has left. */
  lemma ExitRound(f: Rule, s: Squad, init: seq<int>, v: nat) returns (k: nat)
    requires FireInv(f, s, init) && v < |s.b.th| && s.loc[v].stage.Exited?
    ensures s.b.th[v] == B.Thread(B.Idle, 2 * k + 1) && Fires(f, init, k, v)
  {
    assert ThreadOk(f, s.b.th[v], s.loc[v], init, v);
    k := (s.b.th[v].done - 1) / 2;
  }

  /**
   While no cell has fired in rounds 0 .. k, the squad does not stop before every
   thread has completed round k, and whatever the scheduler does that takes a
   number of steps that depends on the number of soldiers and on k alone.
   */
  lemma RoundsComplete(f: Rule, ss: seq<Squad>, ts: seq<nat>, init: seq<int>, j: nat, k: nat, u: nat) returns (t: nat)
    requires SquadRun(f, ss, ts, init) && j < |ss| && Quiet(f, init, k) && u < |ss[j].b.th|
    ensures ss[j].b.th[u].done < 2 * k + 3 ==> CanStep(ss[j], t) && j < Enough(|init| + 1, 2 * k + 3)
  {
    RunFires(f, ss, ts, init, j);
    t := 0;
    if ss[j].b.th[u].done < 2 * k + 3 {
      t := SomebodySteps(f, ss[j], init, k, u);
      RunGains(f, ss, ts, init, j);
      BehindBound(f, ss[j], init, 2 * k + 3, u);
    }
  }

  // ---------- How a run ends ----------

  /** In round k somebody fires, for the first time. */
  ghost predicate FirstFiring(f: Rule, init: seq<int>, k: nat) {
    && (exists t: nat :: t < |init| && Fires(f, init, k, t))
    && forall i: nat, t: nat :: i < k ==> !Fires(f, init, i, t)
  }

  /** Nobody completes the call after a firing. */
  lemma NobodyPasses(f: Rule, s: Squad, init: seq<int>, k: nat, u: nat, t: nat)
    requires FireInv(f, s, init) && u < |s.b.th| && t < |s.b.th| && Fires(f, init, k, u)
    ensures s.b.th[t].done <= 2 * k + 1
  {
    assert ThreadOk(f, s.b.th[u], s.loc[u], init, u);
    assert !Passed(s.b.th[u], s.loc[u], k);
    B.NobodyLeavesEarly(s.b, t, u);
  }

  /** Where thread t is when the squad has stopped: it fired and left, or it waits for those who left. */
  ghost predicate Ended(f: Rule, s: Squad, init: seq<int>, k: nat, t: nat)
    requires t < |s.b.th| == |s.loc|
  {
    && s.b.th[t].done == 2 * k + 1
    && (if Fires(f, init, k, t) then s.loc[t].stage.Exited? else s.b.th[t].pc.PostWait?)
  }

  lemma AllAtFiring(f: Rule, s: Squad, init: seq<int>, k: nat)
    requires FireInv(f, s, init) && FirstFiring(f, init, k) && forall t :: !CanStep(s, t)
    ensures !s.b.draining && s.b.round == 2 * k + 1
  {
    if s.b.draining {
      var t := DrainGoes(s.b);
      assert CanStep(s, t);
    } else if v :| 0 <= v < |s.b.th| && s.b.th[v].pc.Idle? {
      assert !CanStep(s, v);
      var i := ExitRound(f, s, init, v);
      var u: nat :| u < |init| && Fires(f, init, k, u);
      NobodyPasses(f, s, init, k, u, v);
      SameRound(s.b, v, v);
    } else {
      var t := B.SomebodyCanGo(s.b);
      assert CanStep(s, t);
    }
  }

  lemma EndsThere(f: Rule, s: Squad, init: seq<int>, k: nat, t: nat)
    requires FireInv(f, s, init) && !s.b.draining && s.b.round == 2 * k + 1
    requires (forall u :: !CanStep(s, u)) && t < |s.b.th|
    ensures Ended(f, s, init, k, t)
  {
    SameRound(s.b, t, t);
    assert ThreadOk(f, s.b.th[t], s.loc[t], init, t);
    assert B.FillingThread(s.b, s.b.th[t]);
    assert Passed(s.b.th[t], s.loc[t], k) ==> !Fires(f, init, k, t);
    forall u | 0 <= u < |s.b.th|
      ensures !B.Critical(s.b.th[u])
    {
      assert !CanStep(s, u);
    }
    assert !s.b.preLocked;
    assert !CanStep(s, t);
  }

  /**
   Every run ends: it is no longer than a bound by the number of soldiers and the
   first firing round.  Where it cannot go on, every thread is at that round:
   those who fired have left, all the others wait in the barrier for ever.
   */
  lemma SquadEnds(f: Rule, ss: seq<Squad>, ts: seq<nat>, init: seq<int>, j: nat, k: nat)
    requires SquadRun(f, ss, ts, init) && j < |ss| && FirstFiring(f, init, k)
    ensures j < Enough(|init| + 1, 2 * k + 2)
    ensures |ss[j].b.th| == |ss[j].loc| == |init| + 1
    ensures (forall t :: !CanStep(ss[j], t)) ==> forall t :: 0 <= t <= |init| ==> Ended(f, ss[j], init, k, t)
  {
    RunFires(f, ss, ts, init, j);
    RunGains(f, ss, ts, init, j);
    var u: nat :| u < |init| && Fires(f, init, k, u);
    NobodyPasses(f, ss[j], init, k, u, 0);
    BehindBound(f, ss[j], init, 2 * k + 2, 0);
    if forall t :: !CanStep(ss[j], t) {
      AllAtFiring(f, ss[j], init, k);
      forall t | 0 <= t <= |init|
        ensures Ended(f, ss[j], init, k, t)
      {
        EndsThere(f, ss[j], init, k, t);
      }
    }
  }

  lemma FiresAll(f: Rule, init: seq<int>, k: nat)
    requires |init| > 0
    ensures (forall t :: 0 <= t <= |init| ==> Fires(f, init, k, t))
            <==> forall i :: 0 <= i < |init| ==> Sync(f, init, k)[i] == F
  {
    hide Sync;
    forall i | 0 <= i <= |init|
      ensures Fires(f, init, k, i) <==> Sync(f, init, k)[if i < |init| then i else 0] == F
    {
    }
    assert forall i :: 0 <= i < |init| ==> (Fires(f, init, k, i) <==> Sync(f, init, k)[i] == F);
  }

  /** So the squad ends with all threads out of their loops if and only if the first firing is one of all soldiers. */
  lemma AllLeaveExactly(f: Rule, ss: seq<Squad>, ts: seq<nat>, init: seq<int>, j: nat, k: nat)
    requires SquadRun(f, ss, ts, init) && j < |ss| && FirstFiring(f, init, k) && forall t :: !CanStep(ss[j], t)
    ensures |ss[j].loc| == |init| + 1
    ensures (forall t :: 0 <= t <= |init| ==> ss[j].loc[t].stage.Exited?)
            <==> forall i :: 0 <= i < |init| ==> Sync(f, init, k)[i] == F
  {
    SquadEnds(f, ss, ts, init, j, k);
    FiresAll(f, init, k);
    hide Sync, Fires, SquadRun, CanStep;
    forall t | 0 <= t <= |init|
      ensures ss[j].loc[t].stage.Exited? <==> Fires(f, init, k, t)
    {
      assert Ended(f, ss[j], init, k, t);
      ExitsOnlyByFire(f, ss, ts, init, j, t, k);
    }
  }

  /** A rule under which the general fires alone, in round 1. */
  lemma LoneFiring()
    ensures var f: Rule := (c, l, r) => if l == X then F else c;
            FirstFiring(f, [1, 0], 1) && Sync(f, [1, 0], 1)[1] != F
  {
    var f: Rule := (c, l, r) => if l == X then F else c;
    var init := [1, 0];
    SyncAt(f, init, 0, 0);
    SyncAt(f, init, 0, 1);
    assert Sync(f, init, 0) == init;
    assert Fires(f, init, 1, 0);
  }
}
