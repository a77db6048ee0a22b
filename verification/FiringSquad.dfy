/**
 The threaded automaton of fssp.c: soldiers 0 .. n-1 and the main thread n on
 one barrier, proved to compute the synchronous automaton in every interleaving.
 */
module FiringSquad {
  import opened Barrier

  const X: int := 5   // no neighbour
  const F: int := 10  // fire

  /** trans_func[curr][left][right], for any transition function. */
  type Rule = (int, int, int) -> int

  // ---------- The synchronous automaton ----------

  function Left(cells: seq<int>, i: nat): int
    requires i < |cells|
  {
    if i == 0 then X else cells[i - 1]
  }

  function Right(cells: seq<int>, i: nat): int
    requires i < |cells|
  {
    if i == |cells| - 1 then X else cells[i + 1]
  }

  /** All soldiers step at once. */
  function SyncStep(f: Rule, cells: seq<int>): (r: seq<int>)
    ensures |r| == |cells|
  {
    seq(|cells|, i requires 0 <= i < |cells| => f(cells[i], Left(cells, i), Right(cells, i)))
  }

  function Sync(f: Rule, init: seq<int>, k: nat): (r: seq<int>)
    ensures |r| == |init|
  {
    if k == 0 then init else SyncStep(f, Sync(f, init, k - 1))
  }

  // ---------- The threads ----------

  /** Progress of a thread between two barrier calls. */
  datatype Stage = Head | Tested | HaveCurr | HaveLeft | Ready | Exited

  /** A soldier's local variables. */
  datatype Local = Local(stage: Stage, curr: int, left: int, next: int)

  datatype Squad = Squad(b: State, cells: seq<int>, loc: seq<Local>)

  ghost predicate Start(s: Squad, init: seq<int>) {
    && Barrier.Init(s.b)
    && s.cells == init && |s.b.th| == |s.loc| == |init| + 1
    && forall t :: 0 <= t < |s.loc| ==> s.loc[t].stage == Ready
  }

  predicate Computing(x: Thread) {
    x.done % 2 == 1
  }

  /** Whether thread t can take its next step: in the barrier, or in its own code. */
  predicate CanStep(s: Squad, t: nat) {
    && t < |s.b.th| == |s.loc| == |s.cells| + 1
    && Enabled(s.b, t)
    && (s.b.th[t].pc.Idle? ==> !s.loc[t].stage.Exited?)
  }

  function SetLocal(s: Squad, t: nat, l: Local): Squad
    requires t < |s.loc|
  {
    s.(loc := s.loc[t := l])
  }

  /** A soldier outside the barrier: one shared-memory access per step. */
  function SoldierStep(f: Rule, s: Squad, t: nat): Squad
    requires t < |s.b.th| == |s.loc| == |s.cells| + 1 && t < |s.cells|
  {
    var l := s.loc[t];
    if Computing(s.b.th[t]) then
      match l.stage
      case Head => SetLocal(s, t, l.(stage := if s.cells[t] == F then Exited else Tested))
      case Tested => SetLocal(s, t, l.(stage := HaveCurr, curr := s.cells[t]))
      case HaveCurr => SetLocal(s, t, l.(stage := HaveLeft, left := Left(s.cells, t)))
      case HaveLeft => SetLocal(s, t, l.(stage := Ready, next := f(l.curr, l.left, Right(s.cells, t))))
      case _ => s
    else SetLocal(s, t, l.(stage := Ready)).(cells := s.cells[t := l.next])
  }

  /** The main thread outside the barrier: it tests the general after every round. */
  function MainStep(s: Squad, t: nat): Squad
    requires t < |s.b.th| == |s.loc| == |s.cells| + 1
  {
    var l := s.loc[t];
    if Computing(s.b.th[t]) && |s.cells| > 0 && s.cells[0] == F then SetLocal(s, t, l.(stage := Exited))
    else SetLocal(s, t, l.(stage := Ready))
  }

  function Step(f: Rule, s: Squad, t: nat): Squad
    requires CanStep(s, t)
  {
    if s.b.th[t].pc.Idle? && !s.loc[t].stage.Ready? then
      if t < |s.cells| then SoldierStep(f, s, t) else MainStep(s, t)
    else
      var s' := s.(b := Barrier.Next(s.b, t));
      if s'.b.th[t].done > s.b.th[t].done then SetLocal(s', t, s.loc[t].(stage := Head)) else s'
  }

  // ---------- The invariant ----------

  /** The thread is past its own code of the current phase. */
  predicate PastCode(s: Squad, t: nat)
    requires t < |s.b.th| && t < |s.loc|
  {
    !s.b.th[t].pc.Idle? || s.loc[t].stage.Ready?
  }

  /** How often soldier t has stored its state. */
  function Writes(s: Squad, t: nat): nat
    requires t < |s.b.th| && t < |s.loc|
  {
    var d := s.b.th[t].done;
    if d == 0 then 0
    else if d % 2 == 1 then (d - 1) / 2
    else (d - 2) / 2 + if PastCode(s, t) then 1 else 0
  }

  /** Soldier t's cell and locals agree with the synchronous automaton at its own round. */
  ghost predicate SoldierOk(f: Rule, s: Squad, init: seq<int>, t: nat)
    requires t < |s.b.th| && t < |s.loc| && t < |s.cells| == |init|
  {
    var x, l := s.b.th[t], s.loc[t];
    && s.cells[t] == Sync(f, init, Writes(s, t))[t]
    && (x.done == 0 ==> PastCode(s, t))
    && (x.done % 2 == 1 ==>
         var now := Sync(f, init, (x.done - 1) / 2);
         && (x.pc.Idle? && (l.stage.HaveCurr? || l.stage.HaveLeft?) ==> l.curr == now[t])
         && (x.pc.Idle? && l.stage.HaveLeft? ==> l.left == Left(now, t))
         && (PastCode(s, t) ==> l.next == Sync(f, init, (x.done - 1) / 2 + 1)[t]))
    && (x.done >= 2 && x.done % 2 == 0 && !PastCode(s, t) ==>
         l.stage == Head && l.next == Sync(f, init, (x.done - 2) / 2 + 1)[t])
  }

  ghost predicate SquadInv(f: Rule, s: Squad, init: seq<int>) {
    && Barrier.Inv(s.b)
    && |s.b.th| == |s.loc| == |s.cells| + 1 == |init| + 1
    && forall t :: 0 <= t < |init| ==> SoldierOk(f, s, init, t)
  }

  /**
   While a thread runs its code of round r's first phase, every soldier has
   stored exactly r states: nobody is ahead and nobody is behind.
   */
  lemma AllAtRound(s: Squad, t: nat, u: nat)
    requires Barrier.Inv(s.b) && |s.b.th| == |s.loc| && t < |s.b.th| && u < |s.b.th|
    requires s.b.th[t].pc.Idle? && s.b.th[t].done % 2 == 1
    ensures Writes(s, u) == (s.b.th[t].done - 1) / 2
  {
    NobodyLeavesEarly(s.b, t, u);
    NobodyLeavesEarly(s.b, u, t);
  }

  /** What such a thread reads is the synchronous state of its round. */
  lemma ReadsRound(f: Rule, s: Squad, init: seq<int>, t: nat)
    requires SquadInv(f, s, init) && t < |s.b.th|
    requires s.b.th[t].pc.Idle? && s.b.th[t].done % 2 == 1
    ensures s.cells == Sync(f, init, (s.b.th[t].done - 1) / 2)
  {
    forall u | 0 <= u < |s.cells|
      ensures s.cells[u] == Sync(f, init, (s.b.th[t].done - 1) / 2)[u]
    {
      AllAtRound(s, t, u);
      assert SoldierOk(f, s, init, u);
    }
  }

  lemma StartInv(f: Rule, s: Squad, init: seq<int>)
    requires Start(s, init)
    ensures SquadInv(f, s, init)
  {
    Barrier.InitInv(s.b);
  }

  /** A soldier's part of the invariant depends on that soldier alone. */
  lemma SoldierSame(f: Rule, s: Squad, s': Squad, init: seq<int>, u: nat)
    requires u < |s.b.th| && u < |s.loc| && u < |s.cells| == |init| && SoldierOk(f, s, init, u)
    requires u < |s'.b.th| && u < |s'.loc| && u < |s'.cells| == |init|
    requires s'.b.th[u] == s.b.th[u] && s'.loc[u] == s.loc[u] && s'.cells[u] == s.cells[u]
    ensures SoldierOk(f, s', init, u)
  {
  }

  /** The locals after a soldier's step in the first phase of round k. */
  lemma ComputeStepOk(f: Rule, s: Squad, init: seq<int>, t: nat, k: nat)
    requires t < |s.cells| == |init| && |s.b.th| == |s.loc| == |s.cells| + 1 && SoldierOk(f, s, init, t)
    requires s.b.th[t] == Thread(Idle, 2 * k + 1) && !s.loc[t].stage.Ready? && s.cells == Sync(f, init, k)
    ensures SoldierOk(f, SoldierStep(f, s, t), init, t)
  {
    hide SoldierOk, Sync, SyncStep, Left, Right;
    SoldierNow(f, s, init, t, k);
    SyncAt(f, init, k, t);
    OddRound(k);
    SetStepOk(f, s, init, t, k, SoldierStep(f, s, t).loc[t]);
  }

  lemma OddRound(k: nat)
    ensures Computing(Thread(Idle, 2 * k + 1)) && (2 * k + 1 - 1) / 2 == k
  {
  }

  lemma SoldierNow(f: Rule, s: Squad, init: seq<int>, t: nat, k: nat)
    requires t < |s.cells| == |init| && |s.b.th| == |s.loc| == |s.cells| + 1 && SoldierOk(f, s, init, t)
    requires s.b.th[t] == Thread(Idle, 2 * k + 1)
    ensures s.loc[t].stage.HaveCurr? || s.loc[t].stage.HaveLeft? ==> s.loc[t].curr == Sync(f, init, k)[t]
    ensures s.loc[t].stage.HaveLeft? ==> s.loc[t].left == Left(Sync(f, init, k), t)
  {
    hide Sync, Left;
    assert (2 * k + 1) % 2 == 1 && (2 * k + 1 - 1) / 2 == k;
  }

  /** New locals in the first phase of round k. */
  lemma SetStepOk(f: Rule, s: Squad, init: seq<int>, t: nat, k: nat, l: Local)
    requires t < |s.cells| == |init| && |s.b.th| == |s.loc| == |s.cells| + 1
    requires s.b.th[t] == Thread(Idle, 2 * k + 1) && s.cells[t] == Sync(f, init, k)[t]
    requires l.stage.HaveCurr? || l.stage.HaveLeft? ==> l.curr == Sync(f, init, k)[t]
    requires l.stage.HaveLeft? ==> l.left == Left(Sync(f, init, k), t)
    requires l.stage.Ready? ==> l.next == Sync(f, init, k + 1)[t]
    ensures SoldierOk(f, SetLocal(s, t, l), init, t)
  {
    hide Sync, Left;
    assert (2 * k + 1) % 2 == 1 && (2 * k + 1 - 1) / 2 == k;
  }

  lemma SyncAt(f: Rule, init: seq<int>, k: nat, t: nat)
    requires t < |init|
    ensures Sync(f, init, k + 1)[t] == f(Sync(f, init, k)[t], Left(Sync(f, init, k), t), Right(Sync(f, init, k), t))
  {
  }

  lemma StoreStepOk(f: Rule, s: Squad, init: seq<int>, t: nat)
    requires t < |s.cells| == |init| && |s.b.th| == |s.loc| == |s.cells| + 1 && SoldierOk(f, s, init, t)
    requires s.b.th[t].pc.Idle? && s.b.th[t].done % 2 == 0 && !s.loc[t].stage.Ready?
    ensures SoldierOk(f, SoldierStep(f, s, t), init, t)
  {
  }

  lemma CodeStepInv(f: Rule, s: Squad, init: seq<int>, t: nat)
    requires SquadInv(f, s, init) && CanStep(s, t) && s.b.th[t].pc.Idle? && !s.loc[t].stage.Ready?
    ensures SquadInv(f, Step(f, s, t), init)
  {
    hide Barrier.Inv, SoldierOk, Sync;
    var s' := Step(f, s, t);
    if t < |init| {
      if s.b.th[t].done % 2 == 1 {
        ReadsRound(f, s, init, t);
        var k := (s.b.th[t].done - 1) / 2;
        ComputeStepOk(f, s, init, t, k);
      } else {
        StoreStepOk(f, s, init, t);
      }
    }
    forall u | 0 <= u < |init|
      ensures SoldierOk(f, s', init, u)
    {
      if u != t {
        SoldierSame(f, s, s', init, u);
      }
    }
  }

  /** A step inside the barrier, or into it, leaves the soldier's part in order. */
  lemma BarrierSelfOk(f: Rule, s: Squad, s': Squad, init: seq<int>, t: nat)
    requires t < |s.cells| == |init| && |s.b.th| == |s.loc| == |s.cells| + 1 && SoldierOk(f, s, init, t)
    requires |s'.b.th| == |s'.loc| == |s.loc| && s'.cells == s.cells && PastCode(s, t)
    requires || (s'.b.th[t].done == s.b.th[t].done && !s'.b.th[t].pc.Idle? && s'.loc[t] == s.loc[t])
             || (s'.b.th[t] == Thread(Idle, s.b.th[t].done + 1) && s'.loc[t] == s.loc[t].(stage := Head))
    ensures SoldierOk(f, s', init, t)
  {
    var d := s.b.th[t].done;
    assert d % 2 == 1 ==> (d + 1) % 2 == 0 && (d + 1 - 2) / 2 == (d - 1) / 2;
    assert d % 2 == 0 && d > 0 ==> (d + 1) % 2 == 1 && (d + 1 - 1) / 2 == (d - 2) / 2 + 1;
  }

  lemma BarrierStepInv(f: Rule, s: Squad, init: seq<int>, t: nat)
    requires SquadInv(f, s, init) && CanStep(s, t) && !(s.b.th[t].pc.Idle? && !s.loc[t].stage.Ready?)
    ensures SquadInv(f, Step(f, s, t), init)
  {
    hide Barrier.Inv, SoldierOk, Sync;
    var s' := Step(f, s, t);
    Barrier.NextInv(s.b, t);
    if t < |init| {
      BarrierSelfOk(f, s, s', init, t);
    }
    forall u | 0 <= u < |init|
      ensures SoldierOk(f, s', init, u)
    {
      if u != t {
        SoldierSame(f, s, s', init, u);
      }
    }
  }

  lemma StepInv(f: Rule, s: Squad, init: seq<int>, t: nat)
    requires SquadInv(f, s, init) && CanStep(s, t)
    ensures SquadInv(f, Step(f, s, t), init)
  {
    if s.b.th[t].pc.Idle? && !s.loc[t].stage.Ready? {
      CodeStepInv(f, s, init, t);
    } else {
      BarrierStepInv(f, s, init, t);
    }
  }

  // ---------- Whole runs ----------

  ghost predicate SquadRun(f: Rule, ss: seq<Squad>, ts: seq<nat>, init: seq<int>) {
    && |ss| == |ts| + 1
    && Start(ss[0], init)
    && forall i :: 0 <= i < |ts| ==> CanStep(ss[i], ts[i]) && ss[i + 1] == Step(f, ss[i], ts[i])
  }

  lemma {:induction false} SquadRunInv(f: Rule, ss: seq<Squad>, ts: seq<nat>, init: seq<int>, j: nat)
    requires SquadRun(f, ss, ts, init) && j < |ss|
    ensures SquadInv(f, ss[j], init)
  {
    if j == 0 {
      StartInv(f, ss[0], init);
    } else {
      SquadRunInv(f, ss, ts, init, j - 1);
      StepInv(f, ss[j - 1], init, ts[j - 1]);
    }
  }

  /**
   The threaded automaton is the synchronous one.  Whenever any thread, a
   soldier or main, is between its barrier calls 2k + 1 and 2k + 2, the state
   array is k simultaneous steps from the initial one, so every read of round
   k sees that array; for every number of soldiers, every transition function
   and every interleaving.
   */
  lemma ThreadsRunInStep(f: Rule, ss: seq<Squad>, ts: seq<nat>, init: seq<int>, j: nat, t: nat, k: nat)
    requires SquadRun(f, ss, ts, init) && j < |ss| && t < |ss[j].b.th|
    requires ss[j].b.th[t] == Thread(Idle, 2 * k + 1)
    ensures ss[j].cells == Sync(f, init, k)
  {
    SquadRunInv(f, ss, ts, init, j);
    ReadsRound(f, ss[j], init, t);
  }

  /**
   At every moment a cell is at the round of its soldier, and the rounds of two
   soldiers differ by at most one; a soldier one round ahead has all reads of
   the round behind it.
   */
  lemma CellsFollowRounds(f: Rule, ss: seq<Squad>, ts: seq<nat>, init: seq<int>, j: nat, t: nat, u: nat)
    requires SquadRun(f, ss, ts, init) && j < |ss| && t < |init| && u < |init|
    ensures |ss[j].b.th| == |ss[j].loc| == |ss[j].cells| + 1 == |init| + 1
    ensures ss[j].cells[t] == Sync(f, init, Writes(ss[j], t))[t]
    ensures Writes(ss[j], t) <= Writes(ss[j], u) + 1
    ensures Writes(ss[j], t) > Writes(ss[j], u) ==> !Computing(ss[j].b.th[u]) || !ss[j].b.th[u].pc.Idle?
  {
    SquadRunInv(f, ss, ts, init, j);
    assert SoldierOk(f, ss[j], init, t);
    NobodyLeavesEarly(ss[j].b, t, u);
    NobodyLeavesEarly(ss[j].b, u, t);
  }
}
