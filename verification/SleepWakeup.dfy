/**
 kthread_mutex_lock and kthread_mutex_unlock over sleep and wakeup (mutex.c,
 proc.c), for any number of threads and mutexes.  One step is what a thread
 does between two spinlock operations.
 */
module SleepWakeup {

  /** Where a thread is; m is the mutex it works on. */
  datatype Pc =
    | Out
    | LockEnter(m: nat)    // about to acquire mxtable.lock
    | LockTest(m: nat)     // holds mxtable.lock, about to xchg
    | SleepEnter(m: nat)   // found LOCKED; holds mxtable.lock, about to acquire ptable.lock
    | SleepBoth(m: nat)    // holds both locks, about to release mxtable.lock
    | SleepMark(m: nat)    // holds ptable.lock, about to become SLEEPING and switch away
    | Asleep(m: nat)       // SLEEPING on the mutex
    | Runnable(m: nat)     // woken, waiting for the scheduler
    | Resumed(m: nat)      // dispatched with ptable.lock held
    | UnlockEnter(m: nat)  // about to acquire mxtable.lock
    | UnlockTest(m: nat)   // holds mxtable.lock
    | WakeEnter(m: nat)    // set UNLOCKED, released mxtable.lock, about to call wakeup
    | Waking(m: nat, i: nat)  // wakeup1 with ptable.lock held, about to look at thread i

  datatype Holder = Nobody | By(t: nat)

  datatype State = State(locked: seq<bool>, mxLock: Holder, ptLock: Holder, pc: seq<Pc>)

  predicate HoldsMx(p: Pc) {
    p.LockTest? || p.SleepEnter? || p.SleepBoth? || p.UnlockTest?
  }

  predicate HoldsPt(p: Pc) {
    p.SleepBoth? || p.SleepMark? || p.Resumed? || p.Waking?
  }

  predicate Init(s: State) {
    s.mxLock == Nobody && s.ptLock == Nobody && forall t :: 0 <= t < |s.pc| ==> s.pc[t] == Out
  }

  datatype Event = CallLock(m: nat) | CallUnlock(m: nat) | Go

  /** Thread t is woken if it sleeps on mutex m. */
  function Woken(pc: seq<Pc>, t: nat, m: nat): seq<Pc>
    requires t < |pc|
  {
    if pc[t] == Asleep(m) then pc[t := Runnable(m)] else pc
  }

  /** Whether thread t can take the step e. */
  predicate Enabled(s: State, t: nat, e: Event) {
    && t < |s.pc|
    && match e
       case CallLock(m) => s.pc[t] == Out && m < |s.locked|
       case CallUnlock(m) => s.pc[t] == Out && m < |s.locked|
       case Go =>
         match s.pc[t]
         case Out => false
         case Asleep(_) => false
         case LockEnter(_) => s.mxLock == Nobody
         case UnlockEnter(_) => s.mxLock == Nobody
         case SleepEnter(_) => s.ptLock == Nobody
         case Runnable(_) => s.ptLock == Nobody
         case WakeEnter(_) => s.ptLock == Nobody
         case LockTest(m) => m < |s.locked|
         case UnlockTest(m) => m < |s.locked|
         case _ => true
  }

  function Next(s: State, t: nat, e: Event): State
    requires Enabled(s, t, e)
  {
    match e
    case CallLock(m) => s.(pc := s.pc[t := LockEnter(m)])
    case CallUnlock(m) => s.(pc := s.pc[t := UnlockEnter(m)])
    case Go =>
      match s.pc[t]
      case LockEnter(m) => s.(mxLock := By(t), pc := s.pc[t := LockTest(m)])
      case LockTest(m) =>
        if s.locked[m] then s.(pc := s.pc[t := SleepEnter(m)])
        else s.(locked := s.locked[m := true], mxLock := Nobody, pc := s.pc[t := Out])
      case SleepEnter(m) => s.(ptLock := By(t), pc := s.pc[t := SleepBoth(m)])
      case SleepBoth(m) => s.(mxLock := Nobody, pc := s.pc[t := SleepMark(m)])
      case SleepMark(m) => s.(ptLock := Nobody, pc := s.pc[t := Asleep(m)])
      case Runnable(m) => s.(ptLock := By(t), pc := s.pc[t := Resumed(m)])
      case Resumed(m) => s.(ptLock := Nobody, pc := s.pc[t := LockEnter(m)])
      case UnlockEnter(m) => s.(mxLock := By(t), pc := s.pc[t := UnlockTest(m)])
      case UnlockTest(m) =>
        if s.locked[m] then s.(locked := s.locked[m := false], mxLock := Nobody, pc := s.pc[t := WakeEnter(m)])
        else s.(mxLock := Nobody, pc := s.pc[t := Out])
      case WakeEnter(m) => s.(ptLock := By(t), pc := s.pc[t := Waking(m, 0)])
      case Waking(m, i) =>
        if i < |s.pc| then s.(pc := Woken(s.pc, i, m)[t := Waking(m, i + 1)])
        else s.(ptLock := Nobody, pc := s.pc[t := Out])
  }

  // ---------- The invariant ----------

  /** Thread u still has to look at thread t in a wakeup of mutex m. */
  predicate WillWake(p: Pc, m: nat, t: nat) {
    p == WakeEnter(m) || (p.Waking? && p.m == m && p.i <= t)
  }

  predicate LocksOk(s: State) {
    && (forall t :: 0 <= t < |s.pc| ==> (HoldsMx(s.pc[t]) <==> s.mxLock == By(t)))
    && (forall t :: 0 <= t < |s.pc| ==> (HoldsPt(s.pc[t]) <==> s.ptLock == By(t)))
    && (s.mxLock.By? ==> s.mxLock.t < |s.pc|)
    && (s.ptLock.By? ==> s.ptLock.t < |s.pc|)
    && (forall t :: 0 <= t < |s.pc| && !s.pc[t].Out? ==> s.pc[t].m < |s.locked|)
  }

  /** A thread that decided to sleep, and still holds mxtable.lock, saw the mutex LOCKED and it stays so. */
  predicate DecidedOk(s: State)
    requires LocksOk(s)
  {
    forall t :: 0 <= t < |s.pc| && (s.pc[t].SleepEnter? || s.pc[t].SleepBoth?) ==> s.locked[s.pc[t].m]
  }

  predicate Sleeper(p: Pc) {
    p.SleepMark? || p.Asleep?
  }

  /** No lost wakeup: whoever sleeps on an unlocked mutex has a waker on the way. */
  ghost predicate NoLostWakeup(s: State)
    requires LocksOk(s)
  {
    forall t :: 0 <= t < |s.pc| && Sleeper(s.pc[t]) && !s.locked[s.pc[t].m] ==>
      exists u :: 0 <= u < |s.pc| && WillWake(s.pc[u], s.pc[t].m, t)
  }

  ghost predicate Inv(s: State) {
    LocksOk(s) && DecidedOk(s) && NoLostWakeup(s)
  }

  predicate MxOk(s: State) {
    (forall t :: 0 <= t < |s.pc| ==> (HoldsMx(s.pc[t]) <==> s.mxLock == By(t))) && (s.mxLock.By? ==> s.mxLock.t < |s.pc|)
  }

  predicate PtOk(s: State) {
    (forall t :: 0 <= t < |s.pc| ==> (HoldsPt(s.pc[t]) <==> s.ptLock == By(t))) && (s.ptLock.By? ==> s.ptLock.t < |s.pc|)
  }

  /** A step changes the thread that takes it and the one it wakes, which holds no lock. */
  lemma NextShape(s: State, t: nat, e: Event)
    requires Enabled(s, t, e)
    ensures var s' := Next(s, t, e);
            && |s'.pc| == |s.pc| && |s'.locked| == |s.locked|
            && forall u :: 0 <= u < |s.pc| && u != t ==> s'.pc[u] == s.pc[u] || (s.pc[u].Asleep? && s'.pc[u] == Runnable(s.pc[u].m))
  {
  }

  lemma NextMxOk(s: State, t: nat, e: Event)
    requires MxOk(s) && Enabled(s, t, e)
    ensures MxOk(Next(s, t, e))
  {
    NextShape(s, t, e);
  }

  lemma NextPtOk(s: State, t: nat, e: Event)
    requires PtOk(s) && Enabled(s, t, e)
    ensures PtOk(Next(s, t, e))
  {
    NextShape(s, t, e);
  }

  lemma NextLocksOk(s: State, t: nat, e: Event)
    requires LocksOk(s) && Enabled(s, t, e)
    ensures LocksOk(Next(s, t, e)) && |Next(s, t, e).pc| == |s.pc| && |Next(s, t, e).locked| == |s.locked|
  {
    assert MxOk(s) && PtOk(s);
    NextMxOk(s, t, e);
    NextPtOk(s, t, e);
    NextShape(s, t, e);
  }

  lemma NextDecidedOk(s: State, t: nat, e: Event)
    requires LocksOk(s) && DecidedOk(s) && Enabled(s, t, e)
    ensures LocksOk(Next(s, t, e)) && DecidedOk(Next(s, t, e))
  {
    NextLocksOk(s, t, e);
  }

  /** Unlocking the mutex x sleeps on makes the unlocker its waker. */
  lemma UnlockerWakes(s: State, t: nat, e: Event, m: nat)
    requires LocksOk(s) && Enabled(s, t, e) && m < |s.locked| && s.locked[m] && !Next(s, t, e).locked[m]
    ensures Next(s, t, e).pc[t] == WakeEnter(m)
  {
  }

  /** A thread still asleep after a step was on its way to sleep before it. */
  lemma StillAsleep(s: State, t: nat, e: Event, x: nat)
    requires LocksOk(s) && DecidedOk(s) && Enabled(s, t, e) && x < |s.pc| == |Next(s, t, e).pc| && Sleeper(Next(s, t, e).pc[x])
    ensures s.pc[x].SleepBoth? || Sleeper(s.pc[x])
    ensures !s.pc[x].Out? && s.pc[x].m == Next(s, t, e).pc[x].m
    ensures s.pc[x].SleepBoth? ==> s.locked[s.pc[x].m]
  {
  }

  /** A waker that has x ahead of it still has, unless it just woke x. */
  lemma WakerStays(s: State, t: nat, e: Event, u: nat, m: nat, x: nat)
    requires LocksOk(s) && Enabled(s, t, e) && u < |s.pc| && x < |s.pc| && WillWake(s.pc[u], m, x)
    requires Sleeper(Next(s, t, e).pc[x]) && Next(s, t, e).pc[x].m == m && Sleeper(s.pc[x]) && s.pc[x].m == m
    ensures |Next(s, t, e).pc| == |s.pc| && WillWake(Next(s, t, e).pc[u], m, x)
  {
    NextShape(s, t, e);
  }

  /** The waker of a sleeping thread x after a step of thread t. */
  lemma NextWaker(s: State, t: nat, e: Event, x: nat)
    requires Inv(s) && Enabled(s, t, e)
    requires LocksOk(Next(s, t, e)) && |Next(s, t, e).pc| == |s.pc| && x < |s.pc|
    requires Sleeper(Next(s, t, e).pc[x]) && !Next(s, t, e).locked[Next(s, t, e).pc[x].m]
    ensures exists u :: 0 <= u < |s.pc| && WillWake(Next(s, t, e).pc[u], Next(s, t, e).pc[x].m, x)
  {
    hide Next, Enabled;
    var m := Next(s, t, e).pc[x].m;
    StillAsleep(s, t, e, x);
    StepInRange(s, t, e);
    if s.locked[m] {
      UnlockerWakes(s, t, e, m);
      assert WillWake(Next(s, t, e).pc[t], m, x);
    } else {
      var u :| 0 <= u < |s.pc| && WillWake(s.pc[u], m, x);
      WakerStays(s, t, e, u, m, x);
    }
  }

  lemma StepInRange(s: State, t: nat, e: Event)
    requires Enabled(s, t, e)
    ensures t < |s.pc|
  {
  }

  lemma NextInv(s: State, t: nat, e: Event)
    requires Inv(s) && Enabled(s, t, e)
    ensures Inv(Next(s, t, e))
  {
    var s' := Next(s, t, e);
    NextDecidedOk(s, t, e);
    NextLocksOk(s, t, e);
    forall x | 0 <= x < |s'.pc| && Sleeper(s'.pc[x]) && !s'.locked[s'.pc[x].m]
      ensures exists u :: 0 <= u < |s'.pc| && WillWake(s'.pc[u], s'.pc[x].m, x)
    {
      NextWaker(s, t, e, x);
    }
  }

  // ---------- Whole runs ----------

  ghost predicate Run(ss: seq<State>, ts: seq<nat>, es: seq<Event>) {
    && |ss| == |es| + 1 && |ts| == |es|
    && Init(ss[0])
    && forall i :: 0 <= i < |es| ==> Enabled(ss[i], ts[i], es[i]) && ss[i + 1] == Next(ss[i], ts[i], es[i])
  }

  lemma {:induction false} RunInv(ss: seq<State>, ts: seq<nat>, es: seq<Event>, j: nat)
    requires Run(ss, ts, es) && j < |ss|
    ensures Inv(ss[j])
  {
    if j > 0 {
      RunInv(ss, ts, es, j - 1);
      NextInv(ss[j - 1], ts[j - 1], es[j - 1]);
    }
  }

  /**
   In every run, a thread SLEEPING on a mutex that is not LOCKED has an
   unlocker that is still between setting UNLOCKED and looking at it.
   */
  lemma NoWakeupIsLost(ss: seq<State>, ts: seq<nat>, es: seq<Event>, j: nat, t: nat) returns (u: nat)
    requires Run(ss, ts, es) && j < |ss| && t < |ss[j].pc| && ss[j].pc[t].Asleep?
    requires ss[j].pc[t].m < |ss[j].locked| ==> !ss[j].locked[ss[j].pc[t].m]
    ensures u < |ss[j].pc| && WillWake(ss[j].pc[u], ss[j].pc[t].m, t)
  {
    RunInv(ss, ts, es, j);
    u :| 0 <= u < |ss[j].pc| && WillWake(ss[j].pc[u], ss[j].pc[t].m, t);
  }

  /** The holder of a spinlock can always go on, so neither lock is held for ever. */
  lemma HolderCanGo(s: State)
    requires Inv(s)
    ensures s.ptLock.By? ==> Enabled(s, s.ptLock.t, Go)
    ensures s.mxLock.By? ==> Enabled(s, s.mxLock.t, Go) || s.ptLock.By?
  {
  }

  /** While anyone sleeps on an unlocked mutex, some thread can take a step. */
  lemma SleeperIsNotStuck(s: State, t: nat) returns (u: nat)
    requires Inv(s) && t < |s.pc| && s.pc[t].Asleep? && !s.locked[s.pc[t].m]
    ensures Enabled(s, u, Go)
  {
    u :| 0 <= u < |s.pc| && WillWake(s.pc[u], s.pc[t].m, t);
    if s.ptLock.By? {
      u := s.ptLock.t;
    }
  }

  /**
   The protocol implements a binary semaphore: a step changes the mutexes only
   by a successful lock of an unlocked one or a successful unlock of a locked one.
   */
  lemma NextIsSemaphore(s: State, t: nat, e: Event)
    requires Inv(s) && Enabled(s, t, e)
    ensures var s' := Next(s, t, e);
            || s'.locked == s.locked
            || (s.pc[t].LockTest? && !s.locked[s.pc[t].m] && s'.locked == s.locked[s.pc[t].m := true] && s'.pc[t] == Out)
            || (s.pc[t].UnlockTest? && s.locked[s.pc[t].m] && s'.locked == s.locked[s.pc[t].m := false] && s'.pc[t] == WakeEnter(s.pc[t].m))
    ensures s.pc[t].LockTest? && e == Go && Next(s, t, e).pc[t] == Out ==> !s.locked[s.pc[t].m]
  {
  }

  /** Step i of the run returns from kthread_mutex_lock with mutex m. */
  predicate Takes(ss: seq<State>, ts: seq<nat>, es: seq<Event>, i: nat, m: nat)
    requires i < |ss| - 1 && i < |ts| && i < |es| && ts[i] < |ss[i].pc| && ts[i] < |ss[i + 1].pc|
  {
    es[i] == Go && ss[i].pc[ts[i]] == LockTest(m) && ss[i + 1].pc[ts[i]] == Out
  }

  /** Step i gives mutex m up and goes on to wake its sleepers. */
  predicate Gives(ss: seq<State>, ts: seq<nat>, es: seq<Event>, i: nat, m: nat)
    requires i < |ss| - 1 && i < |ts| && i < |es| && ts[i] < |ss[i].pc| && ts[i] < |ss[i + 1].pc|
  {
    es[i] == Go && ss[i].pc[ts[i]] == UnlockTest(m) && ss[i + 1].pc[ts[i]] == WakeEnter(m)
  }

  /** A test under mxtable.lock takes the mutex exactly when it is free, and gives it up exactly when it is taken. */
  lemma TestsExact(ss: seq<State>, ts: seq<nat>, es: seq<Event>, i: nat, m: nat)
    requires Run(ss, ts, es) && i < |es| && es[i] == Go
    ensures ts[i] < |ss[i].pc| == |ss[i + 1].pc|
    ensures ss[i].pc[ts[i]] == LockTest(m) ==> m < |ss[i].locked| && (Takes(ss, ts, es, i, m) <==> !ss[i].locked[m])
    ensures ss[i].pc[ts[i]] == UnlockTest(m) ==> m < |ss[i].locked| && (Gives(ss, ts, es, i, m) <==> ss[i].locked[m])
  {
    NextShape(ss[i], ts[i], es[i]);
  }

  /** Takings of mutex m less givings in the first j steps. */
  ghost function Balance(ss: seq<State>, ts: seq<nat>, es: seq<Event>, m: nat, j: nat): int
    requires Run(ss, ts, es) && j < |ss|
  {
    if j == 0 then 0
    else
      NextShape(ss[j - 1], ts[j - 1], es[j - 1]);
      Balance(ss, ts, es, m, j - 1)
      + (if Takes(ss, ts, es, j - 1, m) then 1 else 0) - (if Gives(ss, ts, es, j - 1, m) then 1 else 0)
  }

  /**
   Over every run takings and givings of a mutex alternate: it is LOCKED exactly
   when one more of them was a taking, counting how it was at the start.
   */
  lemma {:induction false} LockedIsBalance(ss: seq<State>, ts: seq<nat>, es: seq<Event>, m: nat, j: nat)
    requires Run(ss, ts, es) && j < |ss| && m < |ss[0].locked|
    ensures |ss[j].locked| == |ss[0].locked|
    ensures (if ss[j].locked[m] then 1 else 0) == (if ss[0].locked[m] then 1 else 0) + Balance(ss, ts, es, m, j)
  {
    hide Enabled;
    if j > 0 {
      LockedIsBalance(ss, ts, es, m, j - 1);
      RunInv(ss, ts, es, j - 1);
      NextShape(ss[j - 1], ts[j - 1], es[j - 1]);
      StepBalance(ss[j - 1], ts[j - 1], es[j - 1], m);
    }
  }

  lemma StepBalance(s: State, t: nat, e: Event, m: nat)
    requires LocksOk(s) && Enabled(s, t, e) && m < |s.locked|
    ensures var s' := Next(s, t, e);
            && t < |s.pc| == |s'.pc| && |s'.locked| == |s.locked|
            && (if s'.locked[m] then 1 else 0) == (if s.locked[m] then 1 else 0)
                 + (if e == Go && s.pc[t] == LockTest(m) && s'.pc[t] == Out then 1 else 0)
                 - (if e == Go && s.pc[t] == UnlockTest(m) && s'.pc[t] == WakeEnter(m) then 1 else 0)
  {
  }
}
