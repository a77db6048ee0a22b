/**
 The reusable barrier of fssp.c: two mutexes used as binary semaphores and a
 counter.  Threads call inc_barrier again and again, in any interleaving.
 */
module Barrier {

  /** Where a thread is in inc_barrier. */
  datatype Pc =
    | Idle      // outside
    | PreWait   // about to lock pre_mx
    | PreIn     // locked pre_mx, about to increment
    | PreDone   // incremented, about to unlock pre_mx or post_mx
    | PostWait  // about to lock post_mx
    | PostIn    // locked post_mx, about to decrement
    | PostDone  // decremented, about to unlock post_mx or pre_mx

  /** A thread and the number of calls it has completed. */
  datatype Thread = Thread(pc: Pc, done: nat)

  /** `round` and `draining` are history: completed rounds, and whether the last arrival opened post_mx. */
  datatype State = State(preLocked: bool, postLocked: bool, counter: int, th: seq<Thread>, round: nat, draining: bool)

  function Limit(s: State): nat {
    |s.th|
  }

  /** init_barrier with as many participants as threads. */
  ghost predicate Init(s: State) {
    && |s.th| >= 1
    && s == State(false, true, 0, s.th, 0, false)
    && forall t :: 0 <= t < |s.th| ==> s.th[t] == Thread(Idle, 0)
  }

  /** A lock can be taken only while unlocked; every other step is always possible. */
  predicate Enabled(s: State, t: nat) {
    && t < |s.th|
    && (s.th[t].pc == PreWait ==> !s.preLocked)
    && (s.th[t].pc == PostWait ==> !s.postLocked)
  }

  function At(s: State, t: nat, pc: Pc): State
    requires t < |s.th|
  {
    s.(th := s.th[t := s.th[t].(pc := pc)])
  }

  function Next(s: State, t: nat): State
    requires Enabled(s, t)
  {
    match s.th[t].pc
    case Idle => At(s, t, PreWait)
    case PreWait => At(s, t, PreIn).(preLocked := true)
    case PreIn => At(s, t, PreDone).(counter := s.counter + 1)
    case PreDone =>
      if Limit(s) > s.counter then At(s, t, PostWait).(preLocked := false)
      else At(s, t, PostWait).(postLocked := false, draining := true)
    case PostWait => At(s, t, PostIn).(postLocked := true)
    case PostIn => At(s, t, PostDone).(counter := s.counter - 1)
    case PostDone =>
      var s' := s.(th := s.th[t := Thread(Idle, s.th[t].done + 1)]);
      if s.counter > 0 then s'.(postLocked := false)
      else s'.(preLocked := false, draining := false, round := s.round + 1)
  }

  // ---------- Counting ----------

  /** Counted by the counter: incremented and not yet decremented. */
  predicate Counted(x: Thread) {
    x.pc.PreDone? || x.pc.PostWait? || x.pc.PostIn?
  }

  function Count(th: seq<Thread>): nat {
    if th == [] then 0 else Count(th[..|th| - 1]) + if Counted(th[|th| - 1]) then 1 else 0
  }

  lemma {:induction false} CountUpdate(th: seq<Thread>, t: nat, x: Thread)
    requires t < |th|
    ensures Count(th[t := x]) == Count(th) - (if Counted(th[t]) then 1 else 0) + (if Counted(x) then 1 else 0)
    decreases |th|
  {
    var n := |th| - 1;
    if t == n {
      assert th[t := x][..n] == th[..n];
    } else {
      assert th[t := x][..n] == th[..n][t := x];
      CountUpdate(th[..n], t, x);
    }
  }

  lemma {:induction false} CountBounds(th: seq<Thread>)
    ensures Count(th) <= |th|
    ensures Count(th) == |th| <==> forall t :: 0 <= t < |th| ==> Counted(th[t])
    ensures Count(th) == 0 <==> forall t :: 0 <= t < |th| ==> !Counted(th[t])
    decreases |th|
  {
    if th != [] {
      var n := |th| - 1;
      CountBounds(th[..n]);
      assert forall t :: 0 <= t < n ==> th[..n][t] == th[t];
    }
  }

  // ---------- The invariant ----------

  predicate Critical(x: Thread) {
    x.pc.PreIn? || x.pc.PreDone? || x.pc.PostIn? || x.pc.PostDone?
  }

  /** Exactly one token: pre_mx is free, post_mx is free, or one thread is in a critical region. */
  ghost predicate OneToken(s: State) {
    && (forall t, u :: 0 <= t < u < |s.th| ==> !(Critical(s.th[t]) && Critical(s.th[u])))
    && (!s.preLocked ==> s.postLocked && forall t :: 0 <= t < |s.th| ==> !Critical(s.th[t]))
    && (!s.postLocked ==> s.preLocked && forall t :: 0 <= t < |s.th| ==> !Critical(s.th[t]))
    && (s.preLocked && s.postLocked ==> exists t :: 0 <= t < |s.th| && Critical(s.th[t]))
  }

  /** Filling: nobody has left this round. */
  predicate FillingThread(s: State, x: Thread) {
    x.done == s.round && (x.pc.Idle? || x.pc.PreWait? || x.pc.PreIn? || x.pc.PreDone? || x.pc.PostWait?)
  }

  /** Draining: everybody has arrived in this round, some have left. */
  predicate DrainingThread(s: State, x: Thread) {
    if x.pc.Idle? || x.pc.PreWait? then x.done == s.round + 1
    else x.done == s.round && (x.pc.PostWait? || x.pc.PostIn? || x.pc.PostDone?)
  }

  ghost predicate Inv(s: State) {
    && |s.th| >= 1
    && OneToken(s)
    && s.counter == Count(s.th)
    && (if s.draining then
          && (forall t :: 0 <= t < |s.th| ==> DrainingThread(s, s.th[t]))
          && s.preLocked
          && ((forall t :: 0 <= t < |s.th| ==> !s.th[t].pc.PostDone?) ==> s.counter > 0)
        else
          && (forall t :: 0 <= t < |s.th| ==> FillingThread(s, s.th[t]))
          && s.postLocked
          && ((forall t :: 0 <= t < |s.th| ==> !s.th[t].pc.PreDone?) ==> s.counter < Limit(s)))
  }

  lemma {:induction false} CountIdle(th: seq<Thread>)
    requires forall t :: 0 <= t < |th| ==> !Counted(th[t])
    ensures Count(th) == 0
  {
    CountBounds(th);
  }

  lemma InitInv(s: State)
    requires Init(s)
    ensures Inv(s)
  {
    CountIdle(s.th);
  }

  lemma NextToken(s: State, t: nat)
    requires Inv(s) && Enabled(s, t)
    ensures OneToken(Next(s, t))
  {
    var s' := Next(s, t);
    assert forall u :: 0 <= u < |s.th| && u != t ==> s'.th[u] == s.th[u];
    assert Critical(s'.th[t]) ==> exists u :: 0 <= u < |s'.th| && Critical(s'.th[u]);
    if s'.preLocked && s'.postLocked && !Critical(s'.th[t]) {
      var u :| 0 <= u < |s.th| && Critical(s.th[u]);
      assert Critical(s'.th[u]);
    }
  }

  lemma NextCount(s: State, t: nat)
    requires Inv(s) && Enabled(s, t)
    ensures Next(s, t).counter == Count(Next(s, t).th)
  {
    hide OneToken;
    CountUpdate(s.th, t, Next(s, t).th[t]);
    CountBounds(s.th);
  }

  /** The first thread to find everyone arrived, or to find everyone gone, turns the barrier round. */
  predicate Turns(s: State, t: nat) {
    && t < |s.th|
    && ((s.th[t].pc.PreDone? && Limit(s) <= s.counter) || (s.th[t].pc.PostDone? && s.counter == 0))
  }

  lemma NextStays(s: State, t: nat)
    requires Inv(s) && Enabled(s, t) && !Turns(s, t)
    ensures var s' := Next(s, t);
            && s'.draining == s.draining && s'.round == s.round
            && (if s.draining then s'.preLocked && DrainingThread(s', s'.th[t]) else s'.postLocked && FillingThread(s', s'.th[t]))
  {
    hide Count;
    assert if s.draining then DrainingThread(s, s.th[t]) else FillingThread(s, s.th[t]);
  }

  /** Everyone has arrived: the round drains. */
  lemma NextDrains(s: State, t: nat)
    requires Inv(s) && Enabled(s, t) && Turns(s, t) && s.th[t].pc.PreDone?
    ensures var s' := Next(s, t);
            s'.draining && s'.preLocked && forall u :: 0 <= u < |s'.th| ==> DrainingThread(s', s'.th[u])
  {
    CountBounds(s.th);
    hide Count;
    var x := s.th[t];
    assert FillingThread(s, x) || DrainingThread(s, x);
    assert forall u :: 0 <= u < |s.th| ==> FillingThread(s, s.th[u]) && Counted(s.th[u]);
    assert forall u :: 0 <= u < |s.th| && u != t ==> !Critical(s.th[u]);
  }

  /** Everyone has left: the next round fills. */
  lemma NextFills(s: State, t: nat)
    requires Inv(s) && Enabled(s, t) && Turns(s, t) && s.th[t].pc.PostDone?
    ensures var s' := Next(s, t);
            !s'.draining && s'.postLocked && forall u :: 0 <= u < |s'.th| ==> FillingThread(s', s'.th[u])
  {
    CountBounds(s.th);
    hide Count;
    var x := s.th[t];
    assert FillingThread(s, x) || DrainingThread(s, x);
    assert forall u :: 0 <= u < |s.th| ==> DrainingThread(s, s.th[u]) && !Counted(s.th[u]);
    assert forall u :: 0 <= u < |s.th| && u != t ==> !Critical(s.th[u]);
  }

  lemma NextPhases(s: State, t: nat)
    requires Inv(s) && Enabled(s, t)
    ensures var s' := Next(s, t);
            && (s'.draining ==> s'.preLocked && forall u :: 0 <= u < |s'.th| ==> DrainingThread(s', s'.th[u]))
            && (!s'.draining ==> s'.postLocked && forall u :: 0 <= u < |s'.th| ==> FillingThread(s', s'.th[u]))
  {
    if !Turns(s, t) {
      NextStays(s, t);
      hide Next, OneToken, Count;
      NextOthers(s, t);
      var s' := Next(s, t);
      forall u | 0 <= u < |s'.th| && u != t
        ensures if s.draining then DrainingThread(s', s'.th[u]) else FillingThread(s', s'.th[u])
      {
        assert s'.th[u] == s.th[u];
      }
    } else if s.th[t].pc.PreDone? {
      NextDrains(s, t);
    } else {
      NextFills(s, t);
    }
  }

  lemma NextOthers(s: State, t: nat)
    requires Enabled(s, t)
    ensures |Next(s, t).th| == |s.th| && forall u :: 0 <= u < |s.th| && u != t ==> Next(s, t).th[u] == s.th[u]
  {
  }

  lemma NextInv(s: State, t: nat)
    requires Inv(s) && Enabled(s, t)
    ensures Inv(Next(s, t))
  {
    var s' := Next(s, t);
    NextToken(s, t);
    NextCount(s, t);
    NextPhases(s, t);
    CountBounds(s.th);
    CountBounds(s'.th);
    assert forall u :: 0 <= u < |s.th| && u != t ==> s'.th[u] == s.th[u];
  }

  // ---------- What the barrier promises ----------

  /** The calls in which a thread has arrived: it incremented the counter in each of them. */
  function Arrived(x: Thread): nat {
    x.done + if x.pc.Idle? || x.pc.PreWait? || x.pc.PreIn? then 0 else 1
  }

  /** Nobody leaves call k before everybody has arrived in call k. */
  lemma NobodyLeavesEarly(s: State, t: nat, u: nat)
    requires Inv(s) && t < |s.th| && u < |s.th|
    ensures s.th[t].done <= Arrived(s.th[u])
  {
  }

  /** Completed calls differ by at most one. */
  lemma CallsInStep(s: State, t: nat, u: nat)
    requires Inv(s) && t < |s.th| && u < |s.th|
    ensures s.th[t].done <= s.th[u].done + 1
  {
  }

  /** Every unlock finds its mutex LOCKED. */
  lemma UnlockFindsLocked(s: State, t: nat)
    requires Inv(s) && t < |s.th|
    ensures s.th[t].pc.PreDone? || s.th[t].pc.PostDone? ==> s.preLocked && s.postLocked
  {
  }

  /** While all threads are inside the barrier, one of them can go on. */
  lemma SomebodyCanGo(s: State) returns (t: nat)
    requires Inv(s) && forall u :: 0 <= u < |s.th| ==> !s.th[u].pc.Idle?
    ensures Enabled(s, t)
  {
    if u :| 0 <= u < |s.th| && Critical(s.th[u]) {
      t := u;
    } else if s.preLocked {
      CountBounds(s.th);
      t :| 0 <= t < |s.th| && Counted(s.th[t]);
    } else {
      CountBounds(s.th);
      t :| 0 <= t < |s.th| && !Counted(s.th[t]);
    }
  }

  // ---------- Whole runs ----------

  ghost predicate Run(ss: seq<State>, ts: seq<nat>) {
    && |ss| == |ts| + 1
    && Init(ss[0])
    && forall i :: 0 <= i < |ts| ==> Enabled(ss[i], ts[i]) && ss[i + 1] == Next(ss[i], ts[i])
  }

  lemma {:induction false} RunInv(ss: seq<State>, ts: seq<nat>, j: nat)
    requires Run(ss, ts) && j < |ss|
    ensures Inv(ss[j])
  {
    if j == 0 {
      InitInv(ss[0]);
    } else {
      RunInv(ss, ts, j - 1);
      NextInv(ss[j - 1], ts[j - 1]);
    }
  }

  /** The promises hold at every moment of every run, over any number of rounds. */
  lemma BarrierCorrect(ss: seq<State>, ts: seq<nat>, j: nat, t: nat, u: nat)
    requires Run(ss, ts) && j < |ss| && t < |ss[j].th| && u < |ss[j].th|
    ensures ss[j].th[t].done <= Arrived(ss[j].th[u])
    ensures ss[j].th[t].done <= ss[j].th[u].done + 1
    ensures OneToken(ss[j])
    ensures ss[j].th[t].pc.PreDone? || ss[j].th[t].pc.PostDone? ==> ss[j].preLocked && ss[j].postLocked
  {
    RunInv(ss, ts, j);
    NobodyLeavesEarly(ss[j], t, u);
    CallsInStep(ss[j], t, u);
    UnlockFindsLocked(ss[j], t);
  }
}
