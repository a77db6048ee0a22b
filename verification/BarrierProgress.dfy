/**
 Progress of inc_barrier on sleeping mutexes: whatever the scheduler does, a
 bounded number of steps completes any number of rounds in every thread.
 */
module BarrierProgress {
  import opened BarrierThreads

  /** How many steps of the barrier on semaphores a thread has made. */
  function Place(x: B.Thread): nat {
    7 * x.done +
    match x.pc
    case Idle => 0
    case PreWait => 1
    case PreIn => 2
    case PreDone => 3
    case PostWait => 4
    case PostIn => 5
    case PostDone => 6
  }

  /**
   How far a thread is in lock or unlock, among n threads.  Every step inside
   moves it up; a wakeup starts low enough to pay for all whom it wakes.
   */
  function Rank(p: W.Pc, n: nat): int {
    match p
    case Out => 0
    case LockEnter(_) => 2
    case LockTest(_) => 3
    case SleepEnter(_) => 4
    case SleepBoth(_) => 5
    case SleepMark(_) => 6
    case Asleep(_) => 7
    case Runnable(_) => 0
    case Resumed(_) => 1
    case UnlockEnter(_) => 1
    case UnlockTest(_) => 2
    case WakeEnter(_) => -8 * n - 2
    case Waking(_, i) => 8 * (i - n) - 1
  }

  function Places(th: seq<B.Thread>): nat {
    if th == [] then 0 else Places(th[..|th| - 1]) + Place(th[|th| - 1])
  }

  function Ranks(pc: seq<W.Pc>, n: nat): int {
    if pc == [] then 0 else Ranks(pc[..|pc| - 1], n) + Rank(pc[|pc| - 1], n)
  }

  lemma {:induction false} PlacesUpdate(th: seq<B.Thread>, t: nat, x: B.Thread)
    requires t < |th|
    ensures Places(th[t := x]) == Places(th) - Place(th[t]) + Place(x)
    decreases |th|
  {
    hide Place;
    var n := |th| - 1;
    if t == n {
      assert th[t := x][..n] == th[..n];
    } else {
      assert th[t := x][..n] == th[..n][t := x];
      PlacesUpdate(th[..n], t, x);
    }
  }

  lemma {:induction false} RanksUpdate(pc: seq<W.Pc>, n: nat, t: nat, p: W.Pc)
    requires t < |pc|
    ensures Ranks(pc[t := p], n) == Ranks(pc, n) - Rank(pc[t], n) + Rank(p, n)
    decreases |pc|
  {
    hide Rank;
    var m := |pc| - 1;
    if t == m {
      assert pc[t := p][..m] == pc[..m];
    } else {
      assert pc[t := p][..m] == pc[..m][t := p];
      RanksUpdate(pc[..m], n, t, p);
    }
  }

  // ---------- Every step gains ----------

  /** wakeup1 looks at the n threads one after the other. */
  predicate WakersOk(c: Team) {
    forall t :: 0 <= t < |c.w.pc| && c.w.pc[t].Waking? ==> c.w.pc[t].i <= |c.w.pc|
  }

  /** A step of the barrier outweighs a whole wakeup. */
  function Weight(n: nat): nat {
    8 * n + 5
  }

  function Potential(c: Team): int {
    Weight(|c.th|) * Places(c.th) + Ranks(c.w.pc, |c.w.pc|)
  }

  lemma WakersStay(c: Team, t: nat)
    requires CanStep(c, t) && WakersOk(c)
    ensures WakersOk(Next(c, t)) && |Next(c, t).th| == |c.th| && |Next(c, t).w.pc| == |c.w.pc|
  {
    forall u | 0 <= u < |c.w.pc| && u != t
      ensures Next(c, t).w.pc[u].Waking? ==> Next(c, t).w.pc[u].i <= |c.w.pc|
    {
      OthersPc(c, t, u);
    }
  }

  /** A step that moves the thread in the barrier: one unit of weight, less what its rank loses. */
  lemma PlaceGains(c: Team, t: nat, x: B.Thread, p: W.Pc, c': Team)
    requires t < |c.th| == |c.w.pc| && c'.th == c.th[t := x] && c'.w.pc == c.w.pc[t := p]
    requires Place(x) == Place(c.th[t]) + 1 && Rank(c.w.pc[t], |c.th|) - Rank(p, |c.th|) < Weight(|c.th|)
    ensures Potential(c') > Potential(c)
  {
    hide Place, Rank, Weight;
    PlacesUpdate(c.th, t, x);
    RanksUpdate(c.w.pc, |c.th|, t, p);
    var k := Weight(|c.th|);
    assert k * Places(c'.th) == k * Places(c.th) + k;
  }

  /** A step inside lock or unlock that moves the thread up. */
  lemma RankGains(c: Team, t: nat, p: W.Pc, c': Team)
    requires t < |c.th| == |c.w.pc| && c'.th == c.th && c'.w.pc == c.w.pc[t := p]
    requires Rank(p, |c.th|) > Rank(c.w.pc[t], |c.th|)
    ensures Potential(c') > Potential(c)
  {
    hide Place, Rank, Weight;
    RanksUpdate(c.w.pc, |c.th|, t, p);
  }

  /** A waker moves up by more than the thread it wakes falls. */
  lemma WakeGains(c: Team, t: nat, m: nat, i: nat, c': Team)
    requires t < |c.th| == |c.w.pc| && c.w.pc[t] == W.Waking(m, i) && i < |c.w.pc|
    requires c'.th == c.th && c'.w.pc == W.Woken(c.w.pc, i, m)[t := W.Waking(m, i + 1)]
    ensures Potential(c') > Potential(c)
  {
    var n := |c.th|;
    if c.w.pc[i] == W.Asleep(m) {
      RanksUpdate(c.w.pc, n, i, W.Runnable(m));
    }
    RanksUpdate(W.Woken(c.w.pc, i, m), n, t, W.Waking(m, i + 1));
  }

  lemma OwnGains(c: Team, t: nat)
    requires CanStep(c, t) && c.w.pc[t].Out?
    ensures Potential(OwnStep(c, t)) > Potential(c)
  {
    hide Potential;
    var c', x := OwnStep(c, t), c.th[t];
    assert c.w.pc[t := c.w.pc[t]] == c.w.pc;
    if c'.w == c.w {
      PlaceGains(c, t, c'.th[t], c.w.pc[t], c');
    } else {
      RankGains(c, t, c'.w.pc[t], c');
    }
  }

  lemma MutexGains(c: Team, t: nat)
    requires Inv(c) && WakersOk(c) && CanStep(c, t) && !c.w.pc[t].Out?
    ensures Potential(MutexStep(c, t)) > Potential(c)
  {
    assert Agree(c, t);
    hide W.Inv, B.Inv, Potential;
    var c', p := MutexStep(c, t), c.w.pc[t];
    if p.UnlockTest? {
      UnlockSimulates(c, t, p.m);
      PlaceGains(c, t, c'.th[t], c'.w.pc[t], c');
    } else if p.LockTest? && !c.w.locked[p.m] {
      PlaceGains(c, t, c'.th[t], c'.w.pc[t], c');
    } else if p.Waking? && p.i < |c.w.pc| {
      WakeGains(c, t, p.m, p.i, c');
    } else {
      RankGains(c, t, c'.w.pc[t], c');
    }
  }

  lemma StepGains(c: Team, t: nat)
    requires Inv(c) && WakersOk(c) && CanStep(c, t)
    ensures Potential(Next(c, t)) > Potential(c)
  {
    hide Potential, Inv;
    if c.w.pc[t].Out? {
      OwnGains(c, t);
    } else {
      MutexGains(c, t);
    }
  }

  // ---------- Whole runs ----------

  lemma {:induction false} NothingYet(th: seq<B.Thread>, pc: seq<W.Pc>, n: nat)
    requires |th| == |pc| && forall t :: 0 <= t < |th| ==> th[t] == B.Thread(B.Idle, 0) && pc[t] == W.Out
    ensures Places(th) == 0 && Ranks(pc, n) == 0
    decreases |th|
  {
    if th != [] {
      NothingYet(th[..|th| - 1], pc[..|pc| - 1], n);
    }
  }

  /** After j steps the potential is at least j. */
  lemma {:induction false} RunGains(cs: seq<Team>, ts: seq<nat>, j: nat)
    requires Run(cs, ts) && j < |cs|
    ensures Inv(cs[j]) && WakersOk(cs[j]) && |cs[j].th| == |cs[0].th| && Potential(cs[j]) >= j
  {
    hide Next, CanStep, Inv, Potential, WakersOk;
    RunInv(cs, ts, j);
    if j == 0 {
      StartGains(cs[0]);
    } else {
      RunGains(cs, ts, j - 1);
      WakersStay(cs[j - 1], ts[j - 1]);
      StepGains(cs[j - 1], ts[j - 1]);
    }
  }

  lemma StartGains(c: Team)
    requires Init(c)
    ensures WakersOk(c) && Potential(c) == 0
  {
    NothingYet(c.th, c.w.pc, |c.w.pc|);
  }

  lemma {:induction false} PlacesBound(th: seq<B.Thread>, m: nat)
    requires forall t :: 0 <= t < |th| ==> Place(th[t]) <= m
    ensures Places(th) <= |th| * m
    decreases |th|
  {
    hide Place;
    if th != [] {
      PlacesBound(th[..|th| - 1], m);
      assert |th| * m == (|th| - 1) * m + m;
    }
  }

  lemma {:induction false} RanksBound(pc: seq<W.Pc>, n: nat)
    requires forall t :: 0 <= t < |pc| ==> Rank(pc[t], n) <= 7
    ensures Ranks(pc, n) <= 7 * |pc|
    decreases |pc|
  {
    hide Rank;
    if pc != [] {
      RanksBound(pc[..|pc| - 1], n);
    }
  }

  /** The steps after which n threads have completed k calls each. */
  function Enough(n: nat, k: nat): nat {
    Weight(n) * (n * (7 * k + 6)) + 7 * n + 1
  }

  /**
   No thread starves and no scheduling delays a round for ever: in every run,
   after Enough(n, k) steps of the n threads every thread has completed k calls.
   */
  lemma RoundsComplete(cs: seq<Team>, ts: seq<nat>, j: nat, k: nat, t: nat)
    requires Run(cs, ts) && j < |cs| && t < |cs[j].th| && j >= Enough(|cs[j].th|, k)
    ensures cs[j].th[t].done >= k
  {
    RunGains(cs, ts, j);
    var c := cs[j];
    if c.th[t].done < k {
      BehindBound(c, k, t);
    }
  }

  /** While some thread has fewer than k calls behind it, the potential is bounded. */
  lemma BehindBound(c: Team, k: nat, t: nat)
    requires Inv(c) && WakersOk(c) && t < |c.th| && c.th[t].done < k
    ensures Potential(c) < Enough(|c.th|, k)
  {
    forall u | 0 <= u < |c.th|
      ensures Place(c.th[u]) <= 7 * k + 6 && Rank(c.w.pc[u], |c.th|) <= 7
    {
      B.CallsInStep(Abs(c), u, t);
    }
    hide Place, Rank;
    PlacesBound(c.th, 7 * k + 6);
    RanksBound(c.w.pc, |c.th|);
    Times(Weight(|c.th|), Places(c.th), |c.th| * (7 * k + 6));
  }

  lemma Times(w: nat, a: nat, b: nat)
    requires a <= b
    ensures w * a <= w * b
  {
  }

  /** And the run never stops: in every state some thread can step. */
  lemma NeverStops(c: Team) returns (u: nat)
    requires Inv(c) && |c.th| >= 1
    ensures CanStep(c, u)
  {
    if t :| 0 <= t < |c.th| && c.th[t].pc.Idle? {
      assert Agree(c, t);
      if c.w.pc[t].Out? {
        u := t;
      } else {
        u := AwakeIsNotStuck(c, t);
      }
    } else {
      u := SomebodyMoves(c);
    }
  }
}
