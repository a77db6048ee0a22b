/**
 inc_barrier running on the mutexes of mutex.c, with their sleeping and waking:
 every run is a run of the barrier on binary semaphores, and sleepers do not
 stop it.
 */
module BarrierThreads {
  import B = Barrier
  import W = SleepWakeup

  // pre_mx and post_mx.
  const PRE: nat := 0
  const POST: nat := 1

  /** The threads' places in inc_barrier, the counter and the mutexes; `round` and `draining` are history. */
  datatype Team = Team(th: seq<B.Thread>, counter: int, w: W.State, round: nat, draining: bool)

  ghost predicate Init(c: Team) {
    && |c.th| >= 1 && |c.w.pc| == |c.th|
    && c == Team(c.th, 0, c.w, 0, false) && (forall t :: 0 <= t < |c.th| ==> c.th[t] == B.Thread(B.Idle, 0))
    && W.Init(c.w) && c.w.locked == [false, true]
  }

  /** The mutex that a thread past its increment or decrement unlocks. */
  function Target(c: Team, t: nat): nat
    requires t < |c.th|
  {
    if c.th[t].pc.PreDone? then (if |c.th| > c.counter then PRE else POST) else (if c.counter > 0 then POST else PRE)
  }

  /** In its own code a thread can always go on; inside lock or unlock when the spinlock it needs is free. */
  predicate CanStep(c: Team, t: nat) {
    && t < |c.th| == |c.w.pc| && |c.w.locked| == 2
    && (!c.w.pc[t].Out? ==> W.Enabled(c.w, t, W.Go))
  }

  function At(c: Team, t: nat, pc: B.Pc): Team
    requires t < |c.th|
  {
    c.(th := c.th[t := c.th[t].(pc := pc)])
  }

  /** A step of a thread's own code: the tests, the counter, and the calls. */
  function OwnStep(c: Team, t: nat): Team
    requires CanStep(c, t) && c.w.pc[t].Out?
  {
    match c.th[t].pc
    case Idle => At(c, t, B.PreWait)
    case PreWait => c.(w := W.Next(c.w, t, W.CallLock(PRE)))
    case PreIn => At(c, t, B.PreDone).(counter := c.counter + 1)
    case PreDone => c.(w := W.Next(c.w, t, W.CallUnlock(Target(c, t))))
    case PostWait => c.(w := W.Next(c.w, t, W.CallLock(POST)))
    case PostIn => At(c, t, B.PostDone).(counter := c.counter - 1)
    case PostDone => c.(w := W.Next(c.w, t, W.CallUnlock(Target(c, t))))
  }

  /** Where a thread is once it took its mutex. */
  function Locked(c: Team, t: nat): Team
    requires t < |c.th|
  {
    At(c, t, if c.th[t].pc.PreWait? then B.PreIn else B.PostIn)
  }

  /** Where a thread is once it has tried to unlock mutex x; the result of unlock is not looked at. */
  function Unlocked(c: Team, t: nat, x: nat): Team
    requires t < |c.th|
  {
    if c.th[t].pc.PreDone? then At(c, t, B.PostWait).(draining := c.draining || x == POST)
    else
      var c' := c.(th := c.th[t := B.Thread(B.Idle, c.th[t].done + 1)]);
      if x == PRE then c'.(draining := false, round := c.round + 1) else c'
  }

  /** A step inside lock or unlock; the thread's place moves on when the mutex changes hands. */
  function MutexStep(c: Team, t: nat): Team
    requires CanStep(c, t) && !c.w.pc[t].Out?
  {
    var c' := c.(w := W.Next(c.w, t, W.Go));
    match c.w.pc[t]
    case LockTest(x) => if c.w.locked[x] then c' else Locked(c', t)
    case UnlockTest(x) => Unlocked(c', t, x)
    case _ => c'
  }

  function Next(c: Team, t: nat): Team
    requires CanStep(c, t)
  {
    if c.w.pc[t].Out? then OwnStep(c, t) else MutexStep(c, t)
  }

  // ---------- The barrier on semaphores ----------

  function Abs(c: Team): B.State
    requires |c.w.locked| == 2
  {
    B.State(c.w.locked[PRE], c.w.locked[POST], c.counter, c.th, c.round, c.draining)
  }

  predicate InLock(p: W.Pc, m: nat) {
    && (p.LockEnter? || p.LockTest? || p.SleepEnter? || p.SleepBoth? || p.SleepMark? || p.Asleep? || p.Runnable? || p.Resumed?)
    && p.m == m
  }

  predicate InWake(p: W.Pc) {
    p.WakeEnter? || p.Waking?
  }

  predicate InUnlock(p: W.Pc, m: nat) {
    (p.UnlockEnter? || p.UnlockTest?) && p.m == m
  }

  /** The thread's place in inc_barrier fits its place in lock and unlock. */
  predicate Agree(c: Team, t: nat)
    requires t < |c.th| == |c.w.pc|
  {
    var p := c.w.pc[t];
    p.Out? ||
    match c.th[t].pc
    case Idle => InWake(p)
    case PreWait => InLock(p, PRE)
    case PostWait => InWake(p) || InLock(p, POST)
    case PreDone => InUnlock(p, Target(c, t))
    case PostDone => InUnlock(p, Target(c, t))
    case _ => false
  }

  ghost predicate Inv(c: Team) {
    && |c.th| == |c.w.pc| && |c.w.locked| == 2
    && W.Inv(c.w) && B.Inv(Abs(c))
    && forall t :: 0 <= t < |c.th| ==> Agree(c, t)
  }

  lemma InitInv(c: Team)
    requires Init(c)
    ensures Inv(c)
  {
    B.InitInv(Abs(c));
  }

  /** One step of the team is one step of the barrier on semaphores, or none. */
  ghost predicate Simulates(c: Team, t: nat, c': Team)
    requires |c.w.locked| == 2 && |c'.w.locked| == 2
  {
    Abs(c') == Abs(c) || (B.Enabled(Abs(c), t) && Abs(c') == B.Next(Abs(c), t))
  }

  lemma OwnSimulates(c: Team, t: nat)
    requires Inv(c) && CanStep(c, t) && c.w.pc[t].Out?
    ensures |OwnStep(c, t).w.locked| == 2 && Simulates(c, t, OwnStep(c, t)) && W.Inv(OwnStep(c, t).w)
  {
    hide W.Inv, B.Inv;
    match c.th[t].pc
    case PreWait => W.NextInv(c.w, t, W.CallLock(PRE));
    case PostWait => W.NextInv(c.w, t, W.CallLock(POST));
    case PreDone => W.NextInv(c.w, t, W.CallUnlock(Target(c, t)));
    case PostDone => W.NextInv(c.w, t, W.CallUnlock(Target(c, t)));
    case _ =>
  }

  /** Taking a mutex is the barrier's lock step. */
  lemma LockSimulates(c: Team, t: nat, x: nat)
    requires Inv(c) && CanStep(c, t) && c.w.pc[t] == W.LockTest(x)
    ensures x < 2 && |MutexStep(c, t).w.locked| == 2 && Simulates(c, t, MutexStep(c, t))
  {
    hide W.Inv, B.Inv;
    assert Agree(c, t);
  }

  /** An unlock finds its mutex locked, and is the barrier's unlock step. */
  lemma UnlockSimulates(c: Team, t: nat, x: nat)
    requires Inv(c) && CanStep(c, t) && c.w.pc[t] == W.UnlockTest(x)
    ensures x < 2 && c.w.locked[x] && |MutexStep(c, t).w.locked| == 2 && Simulates(c, t, MutexStep(c, t))
  {
    assert Agree(c, t);
    B.UnlockFindsLocked(Abs(c), t);
    assert c.draining <==> c.th[t].pc.PostDone? by {
      PhaseOf(Abs(c), t);
    }
    hide W.Inv, B.Inv;
  }

  lemma PhaseOf(s: B.State, t: nat)
    requires B.Inv(s) && t < |s.th|
    ensures s.th[t].pc.PreDone? ==> !s.draining
    ensures s.th[t].pc.PostDone? ==> s.draining
  {
    var x := s.th[t];
    assert B.FillingThread(s, x) || B.DrainingThread(s, x);
  }

  lemma MutexSimulates(c: Team, t: nat)
    requires Inv(c) && CanStep(c, t) && !c.w.pc[t].Out?
    ensures |MutexStep(c, t).w.locked| == 2 && Simulates(c, t, MutexStep(c, t)) && W.Inv(MutexStep(c, t).w)
  {
    W.NextInv(c.w, t, W.Go);
    W.NextIsSemaphore(c.w, t, W.Go);
    hide W.Inv, B.Inv;
    match c.w.pc[t]
    case LockTest(x) => LockSimulates(c, t, x);
    case UnlockTest(x) => UnlockSimulates(c, t, x);
    case _ =>
  }

  lemma StepSimulates(c: Team, t: nat)
    requires Inv(c) && CanStep(c, t)
    ensures |Next(c, t).w.locked| == 2 && Simulates(c, t, Next(c, t)) && W.Inv(Next(c, t).w) && B.Inv(Abs(Next(c, t)))
  {
    if c.w.pc[t].Out? {
      OwnSimulates(c, t);
    } else {
      MutexSimulates(c, t);
    }
    hide W.Inv, B.Inv;
    if Abs(Next(c, t)) != Abs(c) {
      B.NextInv(Abs(c), t);
    }
  }

  // ---------- Places stay in agreement ----------

  lemma OwnAgrees(c: Team, t: nat)
    requires Inv(c) && CanStep(c, t) && c.w.pc[t].Out?
    ensures |OwnStep(c, t).th| == |c.th| == |OwnStep(c, t).w.pc| && Agree(OwnStep(c, t), t)
  {
    hide W.Inv, B.Inv;
  }

  lemma LockAgrees(c: Team, t: nat, m: nat)
    requires CanStep(c, t) && Agree(c, t) && InLock(c.w.pc[t], m)
    ensures |MutexStep(c, t).th| == |c.th| == |MutexStep(c, t).w.pc| && Agree(MutexStep(c, t), t)
  {
  }

  lemma UnlockAgrees(c: Team, t: nat, m: nat)
    requires CanStep(c, t) && Agree(c, t) && InUnlock(c.w.pc[t], m)
    requires c.w.pc[t].UnlockTest? ==> m < 2 && c.w.locked[m]
    ensures |MutexStep(c, t).th| == |c.th| == |MutexStep(c, t).w.pc| && Agree(MutexStep(c, t), t)
  {
  }

  lemma WakeAgrees(c: Team, t: nat)
    requires CanStep(c, t) && Agree(c, t) && InWake(c.w.pc[t])
    ensures |MutexStep(c, t).th| == |c.th| == |MutexStep(c, t).w.pc| && Agree(MutexStep(c, t), t)
  {
  }

  lemma MutexAgrees(c: Team, t: nat)
    requires Inv(c) && CanStep(c, t) && !c.w.pc[t].Out?
    ensures |MutexStep(c, t).th| == |c.th| == |MutexStep(c, t).w.pc| && Agree(MutexStep(c, t), t)
  {
    assert Agree(c, t);
    hide W.Inv, B.Inv, MutexStep, CanStep;
    var m := c.w.pc[t].m;
    if InWake(c.w.pc[t]) {
      WakeAgrees(c, t);
    } else if InLock(c.w.pc[t], m) {
      LockAgrees(c, t, m);
    } else {
      if c.w.pc[t].UnlockTest? {
        UnlockSimulates(c, t, m);
      }
      UnlockAgrees(c, t, m);
    }
  }

  /** The counter moves only while nobody else is between counter and unlock. */
  lemma CounterSafe(c: Team, t: nat, u: nat)
    requires Inv(c) && CanStep(c, t) && u < |c.th| && u != t && Next(c, t).counter != c.counter
    ensures !c.th[u].pc.PreDone? && !c.th[u].pc.PostDone?
  {
    assert B.Critical(Abs(c).th[t]) && B.OneToken(Abs(c));
    var lo, hi := if t < u then t else u, if t < u then u else t;
    assert !(B.Critical(Abs(c).th[lo]) && B.Critical(Abs(c).th[hi]));
  }

  lemma OtherAgrees(c: Team, t: nat, u: nat)
    requires Inv(c) && CanStep(c, t) && u < |c.th| && u != t
    ensures |Next(c, t).th| == |c.th| == |Next(c, t).w.pc| && Agree(Next(c, t), u)
  {
    var c' := Next(c, t);
    assert Agree(c, u);
    if c'.counter != c.counter {
      CounterSafe(c, t, u);
    }
    OthersPc(c, t, u);
    hide W.Inv, B.Inv, Next;
  }

  lemma OthersPc(c: Team, t: nat, u: nat)
    requires CanStep(c, t) && u < |c.th| && u != t
    ensures var c' := Next(c, t);
            && |c'.th| == |c.th| == |c'.w.pc| && c'.th[u] == c.th[u]
            && (c'.w.pc[u] == c.w.pc[u] || (c.w.pc[u].Asleep? && c'.w.pc[u] == W.Runnable(c.w.pc[u].m)))
  {
    if !c.w.pc[t].Out? {
      W.NextShape(c.w, t, W.Go);
    } else {
      match c.th[t].pc
      case PreWait => W.NextShape(c.w, t, W.CallLock(PRE));
      case PostWait => W.NextShape(c.w, t, W.CallLock(POST));
      case PreDone => W.NextShape(c.w, t, W.CallUnlock(Target(c, t)));
      case PostDone => W.NextShape(c.w, t, W.CallUnlock(Target(c, t)));
      case _ =>
    }
    hide W.Next;
  }

  lemma NextInv(c: Team, t: nat)
    requires Inv(c) && CanStep(c, t)
    ensures Inv(Next(c, t))
  {
    StepSimulates(c, t);
    if c.w.pc[t].Out? {
      OwnAgrees(c, t);
    } else {
      MutexAgrees(c, t);
    }
    hide Next, Agree, W.Inv, B.Inv;
    forall u | 0 <= u < |c.th| && u != t
      ensures Agree(Next(c, t), u)
    {
      OtherAgrees(c, t, u);
    }
  }

  // ---------- Whole runs ----------

  ghost predicate Run(cs: seq<Team>, ts: seq<nat>) {
    && |cs| == |ts| + 1
    && Init(cs[0])
    && forall i :: 0 <= i < |ts| ==> CanStep(cs[i], ts[i]) && cs[i + 1] == Next(cs[i], ts[i])
  }

  lemma {:induction false} RunInv(cs: seq<Team>, ts: seq<nat>, j: nat)
    requires Run(cs, ts) && j < |cs|
    ensures Inv(cs[j])
  {
    hide Next, CanStep, Inv;
    if j == 0 {
      InitInv(cs[0]);
    } else {
      RunInv(cs, ts, j - 1);
      NextInv(cs[j - 1], ts[j - 1]);
    }
  }

  /** Without its repetitions, a run of the team is a run of the barrier on semaphores. */
  lemma {:induction false} RunProjects(cs: seq<Team>, ts: seq<nat>) returns (bs: seq<B.State>, us: seq<nat>)
    requires Run(cs, ts)
    ensures B.Run(bs, us) && |cs[|ts|].w.locked| == 2 && bs[|us|] == Abs(cs[|ts|])
    decreases |ts|
  {
    hide Next, CanStep, B.Next, B.Enabled, Inv;
    RunInv(cs, ts, |ts|);
    LockedTwo(cs[|ts|]);
    if |ts| == 0 {
      InitInv(cs[0]);
      bs, us := [Abs(cs[0])], [];
    } else {
      var n := |ts| - 1;
      bs, us := RunProjects(cs[..n + 1], ts[..n]);
      RunInv(cs, ts, n);
      StepSimulates(cs[n], ts[n]);
      if Abs(cs[n + 1]) != Abs(cs[n]) {
        bs, us := bs + [Abs(cs[n + 1])], us + [ts[n]];
      }
    }
  }

  lemma LockedTwo(c: Team)
    requires Inv(c)
    ensures |c.w.locked| == 2
  {
  }

  /** The barrier's promises hold with sleeping mutexes, at every moment of every run. */
  lemma TeamCorrect(cs: seq<Team>, ts: seq<nat>, j: nat, t: nat, u: nat)
    requires Run(cs, ts) && j < |cs| && t < |cs[j].th| && u < |cs[j].th|
    ensures cs[j].th[t].done <= B.Arrived(cs[j].th[u]) && cs[j].th[t].done <= cs[j].th[u].done + 1
    ensures |cs[j].w.locked| == 2 && B.OneToken(Abs(cs[j]))
  {
    RunInv(cs, ts, j);
    B.NobodyLeavesEarly(Abs(cs[j]), t, u);
    B.CallsInStep(Abs(cs[j]), t, u);
  }

  /** A thread inside lock or unlock and awake is stopped by a lock holder at most, and that one can go on. */
  lemma AwakeIsNotStuck(c: Team, t: nat) returns (u: nat)
    requires Inv(c) && t < |c.th| && !c.w.pc[t].Out? && !c.w.pc[t].Asleep?
    ensures CanStep(c, u) && !c.w.pc[u].Out?
  {
    W.HolderCanGo(c.w);
    if W.Enabled(c.w, t, W.Go) {
      u := t;
    } else if c.w.ptLock.By? {
      u := c.w.ptLock.t;
    } else {
      u := c.w.mxLock.t;
    }
  }

  /** While all threads are inside the barrier, some thread can go on, whoever sleeps. */
  lemma SomebodyMoves(c: Team) returns (u: nat)
    requires Inv(c) && forall t :: 0 <= t < |c.th| ==> !c.th[t].pc.Idle?
    ensures CanStep(c, u)
  {
    var t := B.SomebodyCanGo(Abs(c));
    assert Agree(c, t);
    if c.w.pc[t].Out? {
      u := t;
    } else if c.w.pc[t].Asleep? {
      u := W.SleeperIsNotStuck(c.w, t);
    } else {
      u := AwakeIsNotStuck(c, t);
    }
  }
}
