/**
 How far the log's guards carry (log.c): begin_op's reservation, log_write's
 unlocked guard and bget's supply of buffers, each with the exact condition
 under which it holds, over every run of `GroupCommit`.
 */
module LogLimits {
  import opened Blocks
  import opened Collections
  import opened LogCrash
  import opened GroupCommit

  // ---------- Log-space reservation ----------

  /** Blocks the calls in progress may still append. */
  ghost function Unused(ops: map<nat, Op>): nat
    requires forall t :: t in ops ==> ops[t].used <= MAXOPBLOCKS
    decreases |ops|
  {
    if ops == map[] then 0
    else
      var t :| t in ops;
      MAXOPBLOCKS - ops[t].used + Unused(ops - {t})
  }

  lemma {:induction false} UnusedWithout(ops: map<nat, Op>, t: nat)
    requires t in ops && forall u :: u in ops ==> ops[u].used <= MAXOPBLOCKS
    ensures Unused(ops) == MAXOPBLOCKS - ops[t].used + Unused(ops - {t})
    decreases |ops|
  {
    var u :| u in ops && Unused(ops) == MAXOPBLOCKS - ops[u].used + Unused(ops - {u});
    if u != t {
      UnusedWithout(ops - {u}, t);
      assert ops - {u} - {t} == ops - {t} - {u};
      UnusedWithout(ops - {t}, u);
    }
  }

  lemma UnusedUpdate(ops: map<nat, Op>, t: nat, op: Op)
    requires forall u :: u in ops ==> ops[u].used <= MAXOPBLOCKS
    requires op.used <= MAXOPBLOCKS
    ensures Unused(ops[t := op]) == MAXOPBLOCKS - op.used + Unused(ops - {t})
  {
    UnusedWithout(ops[t := op], t);
    assert ops[t := op] - {t} == ops - {t};
  }

  lemma {:induction false} UnusedBound(ops: map<nat, Op>)
    requires forall u :: u in ops ==> ops[u].used <= MAXOPBLOCKS
    ensures Unused(ops) <= MAXOPBLOCKS * |ops|
    decreases |ops|
  {
    if ops != map[] {
      var t :| t in ops && Unused(ops) == MAXOPBLOCKS - ops[t].used + Unused(ops - {t});
      UnusedBound(ops - {t});
      assert (ops - {t}).Keys == ops.Keys - {t};
    }
  }

  /**
   Log-space reservation, whatever the size of the log region, while every call
   keeps to its budget: lh.n plus the unused budgets within LOGSIZE.
   */
  ghost predicate Reserved(L: Layout, s: State) {
    Sane(L, s) && Capped(s, MAXOPBLOCKS) && |s.lh| + Unused(s.ops) <= LOGSIZE
  }

  lemma StepReserved(L: Layout, s: State, e: Event, s': State)
    requires Reserved(L, s) && Step(L, s, e, s') && Capped(s', MAXOPBLOCKS)
    ensures Reserved(L, s')
  {
    StepSane(L, s, e, s');
    hide Sane, InUse;
    if e.BeginOp? {
      UnusedBound(s.ops);
      UnusedUpdate(s.ops, e.t, Op(0, {}, {}, false));
      assert s.ops - {e.t} == s.ops;
    } else if e.EndOp? {
      UnusedWithout(s.ops, e.t);
    } else if e.Bread? || e.Modify? || e.LogGuard? || e.LogAppend? || e.Brelse? {
      UnusedWithout(s.ops, e.t);
      UnusedUpdate(s.ops, e.t, s'.ops[e.t]);
    } else {
      OthersReserve(L, s, e, s');
    }
  }

  lemma OthersReserve(L: Layout, s: State, e: Event, s': State)
    requires Step(L, s, e, s')
    requires e.CommitWrite? || e.CommitDone? || e.RecoverWrite? || e.RecoverDone? || e.Crash? || e.ReaderGet? || e.ReaderPut?
    ensures |s'.lh| <= |s.lh| && (s'.ops == s.ops || s'.ops == map[])
  {
    hide CommitStep, GoodHeader, RecoveryWrites, InUse;
  }

  lemma {:induction false} BehaviorReserved(L: Layout, ss: seq<State>, es: seq<Event>, j: nat)
    requires Behavior(L, ss, es) && Within(ss, MAXOPBLOCKS) && j < |ss|
    ensures Reserved(L, ss[j])
  {
    hide Step, Reserved, Capped;
    if j == 0 {
      StartReserved(L, ss[0]);
    } else {
      BehaviorReserved(L, ss, es, j - 1);
      StepReserved(L, ss[j - 1], es[j - 1], ss[j]);
    }
  }

  lemma StartReserved(L: Layout, s: State)
    requires Init(L, s)
    ensures Reserved(L, s)
  {
    InitInv(L, s);
  }

  // ---------- Runs within a budget ----------

  /** No call has appended more than cap blocks. */
  predicate Capped(s: State, cap: nat) {
    forall t :: t in s.ops ==> s.ops[t].used <= cap
  }

  predicate Within(ss: seq<State>, cap: nat) {
    forall i :: 0 <= i < |ss| ==> Capped(ss[i], cap)
  }

  /** State s is reached by a behaviour on disk d in which every call appends at most cap blocks. */
  ghost predicate ReachableWithin(L: Layout, d: Disk, s: State, cap: nat) {
    exists ss: seq<State>, es: seq<Event> :: ReachedBy(L, d, s, ss, es) && Within(ss, cap)
  }

  ghost predicate NoCommit(ss: seq<State>, es: seq<Event>)
    requires |ss| == |es| + 1
  {
    forall c :: 0 <= c < |es| ==> !CommitPoint(ss[c], es[c])
  }

  /** State s is reached by a behaviour on disk d within the budget of begin_op and without a commit point yet. */
  ghost predicate Reached(L: Layout, d: Disk, s: State) {
    exists ss: seq<State>, es: seq<Event> :: ReachedBy(L, d, s, ss, es) && NoCommit(ss, es) && Within(ss, MAXOPBLOCKS)
  }

  /** Only an append moves a call towards its cap. */
  lemma CappedStep(L: Layout, s: State, e: Event, s': State, cap: nat)
    requires Capped(s, cap) && Step(L, s, e, s') && (e.LogAppend? ==> e.t in s'.ops && s'.ops[e.t].used <= cap)
    ensures Capped(s', cap)
  {
    hide CommitStep, GoodHeader, RecoveryWrites, InUse;
  }

  lemma ReachedStep(L: Layout, d: Disk, s: State, e: Event, s': State)
    requires Reached(L, d, s) && Step(L, s, e, s') && !CommitPoint(s, e)
    requires e.LogAppend? ==> e.t in s'.ops && s'.ops[e.t].used <= MAXOPBLOCKS
    ensures Reached(L, d, s')
  {
    hide Step, CommitPoint, Capped;
    var ss: seq<State>, es: seq<Event> :| ReachedBy(L, d, s, ss, es) && NoCommit(ss, es) && Within(ss, MAXOPBLOCKS);
    assert Capped(ss[|es|], MAXOPBLOCKS);
    CappedStep(L, s, e, s', MAXOPBLOCKS);
    var ss', es' := ss + [s'], es + [e];
    assert Behavior(L, ss', es');
    assert ReachedBy(L, d, s', ss', es') && NoCommit(ss', es') && Within(ss', MAXOPBLOCKS);
  }

  lemma ReachedReachable(L: Layout, d: Disk, s: State)
    requires Reached(L, d, s)
    ensures Reachable(L, d, s)
  {
    var ss: seq<State>, es: seq<Event> :| ReachedBy(L, d, s, ss, es) && NoCommit(ss, es) && Within(ss, MAXOPBLOCKS);
  }

  lemma ReachedWithin(L: Layout, d: Disk, s: State, cap: nat)
    requires Reached(L, d, s) && cap >= MAXOPBLOCKS
    ensures ReachableWithin(L, d, s, cap)
  {
    var ss: seq<State>, es: seq<Event> :| ReachedBy(L, d, s, ss, es) && NoCommit(ss, es) && Within(ss, MAXOPBLOCKS);
    assert forall i :: 0 <= i < |ss| ==> Capped(ss[i], MAXOPBLOCKS);
    assert Within(ss, cap);
  }

  lemma WithinReserved(L: Layout, d: Disk, s: State)
    requires ReachableWithin(L, d, s, MAXOPBLOCKS)
    ensures Reserved(L, s)
  {
    var ss: seq<State>, es: seq<Event> :| ReachedBy(L, d, s, ss, es) && Within(ss, MAXOPBLOCKS);
    BehaviorReserved(L, ss, es, |es|);
  }

  // ---------- Filling the log ----------

  /** What call t has appended when three calls have appended m blocks: each stops one short of its budget before the last three. */
  function UsedBy(t: nat, m: nat): nat {
    if t == 2 then (if m <= 9 then m else if m <= 27 then 9 else 10)
    else if t == 0 then (if m <= 9 then 0 else if m <= 18 then m - 9 else if m <= 28 then 9 else 10)
    else (if m <= 18 then 0 else if m <= 27 then m - 18 else if m <= 29 then 9 else 10)
  }

  /** The call that appends block m. */
  function Caller(m: nat): nat {
    if m < 9 then 2 else if m < 18 then 0 else if m < 27 then 1 else if m == 27 then 2 else if m == 28 then 0 else 1
  }

  function Budgets(m: nat): map<nat, Op> {
    map t | t in {0, 1, 2} :: Op(UsedBy(t, m), {}, {}, false)
  }

  /** Three calls that appended the first m blocks after the log region. */
  function Filled(L: Layout, d: Disk, m: nat): State {
    State(d, d, After(L, m), Budgets(m), {}, Running)
  }

  /** The first m blocks after the log region. */
  function After(L: Layout, m: nat): seq<nat> {
    seq(m, i => L.start + L.size + i)
  }

  lemma FillStart(L: Layout, d: Disk)
    requires GoodHeader(L, d) && Decode(d[L.start]) == []
    ensures Reached(L, d, Filled(L, d, 0))
  {
    var idle := Op(0, {}, {}, false);
    var s0 := State(d, d, [], map[], {}, Running);
    var s1 := s0.(ops := map[0 := idle]);
    var s2 := s0.(ops := map[0 := idle, 1 := idle]);
    var ss, es: seq<Event> := [s0], [];
    assert ReachedBy(L, d, s0, ss, es) && NoCommit(ss, es) && Within(ss, MAXOPBLOCKS);
    ReachedStep(L, d, s0, BeginOp(0), s1);
    assert s1.ops.Keys == {0} && |s1.ops| == |s1.ops.Keys|;
    ReachedStep(L, d, s1, BeginOp(1), s2);
    assert s2.ops.Keys == {0, 1} && |s2.ops| == |s2.ops.Keys|;
    assert Budgets(0) == s2.ops[2 := idle];
    assert After(L, 0) == [];
    ReachedStep(L, d, s2, BeginOp(2), Filled(L, d, 0));
  }

  /** The state with call t in the given situation. */
  function With(s: State, t: nat, op: Op): State {
    s.(ops := s.ops[t := op])
  }

  lemma NextBudget(m: nat)
    requires m < LOGSIZE
    ensures Budgets(m).Keys == {0, 1, 2} && Budgets(m)[Caller(m)].used < MAXOPBLOCKS
    ensures Budgets(m + 1) == Budgets(m)[Caller(m) := Op(UsedBy(Caller(m), m) + 1, {}, {}, false)]
  {
  }

  /** A list of all blocks in use bounds their number. */
  lemma InUseAtMost(s: State, xs: seq<nat>)
    requires forall b :: b in s.lh || Held(s, b) ==> b in xs
    ensures |InUse(s)| <= |xs|
  {
    MemberCount(xs);
    SubsetSize(InUse(s), Members(xs));
  }

  /** Call t reads block b, stores into it and passes the guard. */
  lemma Passing(L: Layout, d: Disk, s: State, t: nat, b: nat, x: Block, u: nat)
    requires Reached(L, d, s) && s.phase.Running? && t in s.ops && s.ops[t] == Op(u, {}, {}, false)
    requires b < |s.disk| && b < |s.mem| && Home(L, b) && !Held(s, b) && |InUse(s)| < NBUF && !Panics(L, s)
    ensures Reached(L, d, With(s, t, Op(u, {b}, {b}, true)).(mem := s.mem[b := x]))
  {
    hide Reached, InUse;
    var none: set<nat> := {};
    assert none + {b} == {b};
    var s1 := With(s, t, Op(u, {b}, {}, false));
    ReachedStep(L, d, s, Bread(t, b), s1);
    var s2 := With(s, t, Op(u, {b}, {b}, false)).(mem := s.mem[b := x]);
    assert s2.ops == s1.ops[t := Op(u, {b}, {b}, false)];
    ReachedStep(L, d, s1, Modify(t, b, x), s2);
    var s3 := With(s, t, Op(u, {b}, {b}, true)).(mem := s.mem[b := x]);
    assert s2.ops.Keys == s.ops.Keys && |s2.ops| == |s2.ops.Keys| && |s.ops| == |s.ops.Keys|;
    assert s3.ops == s2.ops[t := Op(u, {b}, {b}, true)];
    ReachedStep(L, d, s2, LogGuard(t), s3);
  }

  /** Call t, past the guard, appends block b and releases it. */
  lemma Landing(L: Layout, d: Disk, s: State, t: nat, b: nat, u: nat)
    requires Reached(L, d, s) && s.phase.Running? && t in s.ops && s.ops[t] == Op(u, {b}, {b}, true)
    requires u < MAXOPBLOCKS && b !in s.lh
    ensures Reached(L, d, With(s, t, Op(u + 1, {}, {}, false)).(lh := s.lh + [b]))
  {
    hide Reached;
    var none: set<nat> := {};
    assert {b} - {b} == none;
    var s1 := With(s, t, Op(u + 1, {b}, {b}, false)).(lh := s.lh + [b]);
    ReachedStep(L, d, s, LogAppend(t, b), s1);
    var s2 := With(s, t, Op(u + 1, {}, {}, false)).(lh := s.lh + [b]);
    assert s2.ops == s1.ops[t := Op(u + 1, {b} - {b}, {b} - {b}, false)];
    ReachedStep(L, d, s1, Brelse(t, b), s2);
  }

  /** An idle call appends one block it did not change. */
  lemma AppendOne(L: Layout, d: Disk, s: State, t: nat, b: nat, u: nat)
    requires Reached(L, d, s) && s.phase.Running? && t in s.ops && s.ops[t] == Op(u, {}, {}, false) && u < MAXOPBLOCKS
    requires b < |s.disk| && b < |s.mem| && Home(L, b) && b !in s.lh && !Held(s, b) && |InUse(s)| < NBUF && !Panics(L, s)
    ensures Reached(L, d, With(s, t, Op(u + 1, {}, {}, false)).(lh := s.lh + [b]))
  {
    hide Reached, InUse;
    Passing(L, d, s, t, b, s.mem[b], u);
    var s1 := With(s, t, Op(u, {b}, {b}, true)).(mem := s.mem[b := s.mem[b]]);
    assert s1.mem == s.mem;
    Landing(L, d, s1, t, b, u);
    assert s1.ops[t := Op(u + 1, {}, {}, false)] == s.ops[t := Op(u + 1, {}, {}, false)];
  }

  /** One more append to a filled log. */
  lemma FillNext(L: Layout, d: Disk, m: nat)
    requires Reached(L, d, Filled(L, d, m)) && m < LOGSIZE && m < L.size - 1 && L.start + L.size + m < |d|
    ensures Reached(L, d, Filled(L, d, m + 1))
  {
    hide Reached, InUse;
    var s, t, b := Filled(L, d, m), Caller(m), L.start + L.size + m;
    NextBudget(m);
    assert |s.ops| == |s.ops.Keys| == |{0, 1, 2}|;
    InUseAtMost(s, s.lh);
    AppendOne(L, d, s, t, b, UsedBy(t, m));
    assert s.lh + [b] == After(L, m + 1);
  }

  lemma {:induction false} Fill(L: Layout, d: Disk, m: nat)
    requires GoodHeader(L, d) && Decode(d[L.start]) == []
    requires m <= LOGSIZE && m <= L.size - 1 && L.start + L.size + m <= |d|
    ensures Reached(L, d, Filled(L, d, m))
  {
    hide Reached, GoodHeader, Decode, Filled;
    if m == 0 {
      FillStart(L, d);
    } else {
      Fill(L, d, m - 1);
      FillNext(L, d, m - 1);
    }
  }

  /** A disk of n zeroed blocks has an empty log. */
  lemma BlankDisk(L: Layout, n: nat) returns (d: Disk)
    requires 1 <= L.size && L.start + L.size <= n <= UINT
    ensures |d| == n && GoodHeader(L, d) && Decode(d[L.start]) == [] && forall b :: 0 <= b < n ==> d[b] == ZeroBlock()
  {
    d := seq(n, _ => ZeroBlock());
    ZeroWord(0);
  }

  // ---------- When the reservation excludes log_write's panic ----------

  /** On a disk of n blocks, while every call appends at most cap blocks, none that may append more meets the panic in log_write. */
  ghost predicate AppendNeverPanics(L: Layout, n: nat, cap: nat) {
    forall d: Disk, s: State, t: nat ::
      |d| == n && ReachableWithin(L, d, s, cap) && t in s.ops && s.ops[t].used < cap ==> !Panics(L, s)
  }

  /** On a disk of n blocks, no log_write of a block already in the list can panic. */
  ghost predicate AbsorbNeverPanics(L: Layout, n: nat) {
    forall d: Disk, s: State, t: nat, b: nat ::
      |d| == n && Reachable(L, d, s) && t in s.ops && b in s.lh ==> !Panics(L, s)
  }

  lemma ReservationLeavesRoom(L: Layout, s: State, t: nat)
    requires Reserved(L, s) && t in s.ops && s.ops[t].used < MAXOPBLOCKS
    ensures |s.lh| < LOGSIZE
    ensures L.size > LOGSIZE ==> !Panics(L, s)
  {
    UnusedWithout(s.ops, t);
    assert t in s.ops.Keys;
  }

  /** Exactly when log_write panics, for any reachable state and any call in progress; within the budget nothing is left to append. */
  lemma PanicExactly(L: Layout, d: Disk, s: State, t: nat)
    requires Reachable(L, d, s) && t in s.ops
    ensures L.size > LOGSIZE ==> (Panics(L, s) <==> |s.lh| == LOGSIZE)
    ensures L.size <= LOGSIZE ==> (Panics(L, s) <==> |s.lh| >= L.size - 1)
    ensures ReachableWithin(L, d, s, MAXOPBLOCKS) ==>
              Reserved(L, s) && (L.size > LOGSIZE && Panics(L, s) ==> Unused(s.ops) == 0)
  {
    ReachableSane(L, d, s);
    assert t in s.ops.Keys;
    if ReachableWithin(L, d, s, MAXOPBLOCKS) {
      WithinReserved(L, d, s);
    }
  }

  /**
   The reservation in begin_op keeps appends clear of log_write's panic exactly
   when the log region is larger than LOGSIZE and no call may append more than
   MAXOPBLOCKS blocks.  mkfs makes the region equal to LOGSIZE, and filewrite
   appends more.
   */
  lemma AppendPanicExact(L: Layout, n: nat, cap: nat)
    requires 1 <= L.size && L.start + L.size + LOGSIZE <= n <= UINT && cap >= MAXOPBLOCKS
    ensures AppendNeverPanics(L, n, cap) <==> L.size > LOGSIZE && cap == MAXOPBLOCKS
  {
    hide ReachableWithin;
    if L.size > LOGSIZE && cap == MAXOPBLOCKS {
      forall d: Disk, s: State, t: nat | |d| == n && ReachableWithin(L, d, s, cap) && t in s.ops && s.ops[t].used < cap
        ensures !Panics(L, s)
      {
        WithinReserved(L, d, s);
        ReservationLeavesRoom(L, s, t);
      }
    } else {
      var d := BlankDisk(L, n);
      var m := if L.size > LOGSIZE then LOGSIZE else L.size - 1;
      var t := if L.size > LOGSIZE then 0 else Caller(m);
      Fill(L, d, m);
      ReachedWithin(L, d, Filled(L, d, m), cap);
      if m < LOGSIZE {
        NextBudget(m);
      }
      assert t in Filled(L, d, m).ops && Panics(L, Filled(L, d, m));
    }
  }

  /**
   A write that would only be absorbed can panic in every region that has a
   slot: the guard counts the entries before it looks for the block.
   */
  lemma AbsorbPanicExact(L: Layout, n: nat)
    requires 1 <= L.size && L.start + L.size + LOGSIZE <= n <= UINT
    ensures AbsorbNeverPanics(L, n) <==> L.size == 1
  {
    if L.size == 1 {
      forall d: Disk, s: State | |d| == n && Reachable(L, d, s)
        ensures s.lh == []
      {
        ReachableInv(L, d, s);
      }
    } else {
      var d := BlankDisk(L, n);
      var m := if L.size > LOGSIZE then LOGSIZE else L.size - 1;
      Fill(L, d, m);
      var s := Filled(L, d, m);
      ReachedReachable(L, d, s);
      assert 0 in s.ops && s.lh[0] in s.lh && Panics(L, s);
    }
  }

  // ---------- When the list outgrows the log region ----------

  /** The last block appended in the overflowing run. */
  function LastBlock(L: Layout): nat
    requires L.size >= 1
  {
    L.start + 2 * L.size - 1
  }

  /** Three calls are in progress, none of them holds a buffer or is inside log_write. */
  ghost predicate ThreeIdle(s: State) {
    s.ops.Keys == {0, 1, 2} && forall t :: t in s.ops ==> s.ops[t] == Op(s.ops[t].used, {}, {}, false)
  }

  /** A filled log: the budgets, the list and the blocks in use. */
  lemma FilledUse(L: Layout, d: Disk, s: State, m: nat)
    requires m < LOGSIZE && s == Filled(L, d, m)
    ensures |s.ops| == 3 && s.ops.Keys == {0, 1, 2} && forall t :: 0 <= t < 3 ==> s.ops[t] == Op(UsedBy(t, m), {}, {}, false)
    ensures s == State(d, d, After(L, m), s.ops, {}, Running) && |s.lh| == m && forall b :: !Held(s, b)
    ensures forall b :: b in s.lh ==> b < L.start + L.size + m
  {
    assert s.ops.Keys == {0, 1, 2} && |s.ops| == |s.ops.Keys|;
  }

  /** An idle call passes the guard with a block outside xs, which lists the blocks in use. */
  lemma PassNext(L: Layout, d: Disk, s: State, t: nat, b: nat, x: Block, xs: seq<nat>) returns (s1: State)
    requires Reached(L, d, s) && s.phase.Running? && t in s.ops && s.ops[t] == Op(s.ops[t].used, {}, {}, false)
    requires b < |s.disk| && b < |s.mem| && Home(L, b) && !Panics(L, s)
    requires b !in xs && |xs| < NBUF && forall c :: c in s.lh || Held(s, c) ==> c in xs
    ensures s1 == With(s, t, Op(s.ops[t].used, {b}, {b}, true)).(mem := s.mem[b := x])
    ensures Reached(L, d, s1) && (forall c :: c in s1.lh || Held(s1, c) ==> c in xs + [b]) && !Panics(L, s1)
  {
    hide Reached, InUse;
    InUseAtMost(s, xs);
    Passing(L, d, s, t, b, x, s.ops[t].used);
    s1 := With(s, t, Op(s.ops[t].used, {b}, {b}, true)).(mem := s.mem[b := x]);
    forall c | c in s1.lh || Held(s1, c)
      ensures c in xs + [b]
    {
      if c !in s1.lh && c !in s1.readers {
        var u :| u in s1.ops && c in s1.ops[u].held;
        assert u != t ==> Held(s, c);
      }
    }
    assert s1.ops.Keys == s.ops.Keys && |s1.ops| == |s1.ops.Keys| && |s.ops| == |s.ops.Keys|;
  }

  /** Calls 0 and 1, both past the guard, append and release. */
  lemma BothLand(L: Layout, d: Disk, s: State, b0: nat, b1: nat) returns (r: State)
    requires Reached(L, d, s) && s.phase.Running? && s.ops.Keys == {0, 1, 2} && b0 != b1 && b0 !in s.lh && b1 !in s.lh
    requires s.ops[0] == Op(s.ops[0].used, {b0}, {b0}, true) && s.ops[1] == Op(s.ops[1].used, {b1}, {b1}, true)
    requires s.ops[2] == Op(s.ops[2].used, {}, {}, false) && s.ops[0].used < MAXOPBLOCKS && s.ops[1].used < MAXOPBLOCKS
    ensures Reached(L, d, r) && r == s.(lh := s.lh + [b0] + [b1], ops := r.ops) && ThreeIdle(r)
  {
    hide Reached;
    var u0, u1 := s.ops[0].used, s.ops[1].used;
    Landing(L, d, s, 0, b0, u0);
    var s1 := With(s, 0, Op(u0 + 1, {}, {}, false)).(lh := s.lh + [b0]);
    Landing(L, d, s1, 1, b1, u1);
    r := With(s1, 1, Op(u1 + 1, {}, {}, false)).(lh := s.lh + [b0] + [b1]);
  }

  lemma AfterTwo(L: Layout, m: nat)
    ensures After(L, m) + [L.start + L.size + m] + [L.start + L.size + m + 1] == After(L, m + 2)
  {
  }

  /** Calls 0 and 1 read blocks b and b + 1, store x into the second and pass the guard on one free slot. */
  lemma TwoPass(L: Layout, d: Disk, x: Block, m: nat, b: nat) returns (s: State)
    requires 2 <= L.size <= LOGSIZE && L.start + L.size + LOGSIZE <= |d| && GoodHeader(L, d) && Decode(d[L.start]) == []
    requires m == L.size - 2 && b == L.start + L.size + m
    ensures Reached(L, d, s) && s == State(d, d[b + 1 := x], After(L, m), s.ops, {}, Running) && s.ops.Keys == {0, 1, 2}
    ensures s.ops[0] == Op(UsedBy(0, m), {b}, {b}, true) && s.ops[1] == Op(UsedBy(1, m), {b + 1}, {b + 1}, true)
    ensures s.ops[2] == Op(UsedBy(2, m), {}, {}, false)
    ensures !Panics(L, s) && |s.lh| == m && forall c :: c in s.lh ==> c < b
    ensures forall c :: Held(s, c) ==> c in s.lh + [b] + [b + 1]
  {
    hide Reached, InUse, Held, GoodHeader, Decode, Filled, After;
    Fill(L, d, m);
    var s0 := Filled(L, d, m);
    FilledUse(L, d, s0, m);
    var s1 := PassNext(L, d, s0, 0, b, d[b], s0.lh);
    assert s1.mem == d;
    s := PassNext(L, d, s1, 1, b + 1, x, s0.lh + [b]);
  }

  /** Both append: the list now has as many entries as the region has blocks. */
  lemma Overflow(L: Layout, d: Disk, x: Block) returns (s: State)
    requires 2 <= L.size <= LOGSIZE && L.start + L.size + LOGSIZE <= |d| && GoodHeader(L, d) && Decode(d[L.start]) == []
    ensures Reached(L, d, s) && s == State(d, d[LastBlock(L) := x], After(L, L.size), s.ops, {}, Running) && ThreeIdle(s)
  {
    hide Reached, InUse, Held, GoodHeader, Decode, After;
    var m, b := L.size - 2, L.start + 2 * L.size - 2;
    var s0 := TwoPass(L, d, x, m, b);
    s := BothLand(L, d, s0, b, b + 1);
    AfterTwo(L, m);
  }

  /** On a disk of n blocks, the list always fits the slots of the log region. */
  ghost predicate AlwaysInside(L: Layout, n: nat) {
    forall d: Disk, s: State :: |d| == n && Reachable(L, d, s) ==> |s.lh| < L.size
  }

  /**
   The guard is read without the log lock, so two calls can pass it on one free
   slot.  The list stays inside the region exactly when the region has a slot
   for each of LOGSIZE entries, or none at all.
   */
  lemma RegionExact(L: Layout, n: nat)
    requires 1 <= L.size && L.start + L.size + LOGSIZE <= n <= UINT
    ensures AlwaysInside(L, n) <==> Roomy(L)
  {
    if Roomy(L) {
      forall d: Disk, s: State | |d| == n && Reachable(L, d, s)
        ensures |s.lh| < L.size
      {
        ReachableInv(L, d, s);
        ReachableSane(L, d, s);
      }
    } else {
      var d := BlankDisk(L, n);
      var s := Overflow(L, d, ZeroBlock());
      ReachedReachable(L, d, s);
    }
  }

  /** Three idle calls end, and the commit begins. */
  lemma AllEnd(L: Layout, d: Disk, s: State) returns (r: State)
    requires Reached(L, d, s) && s.phase.Running? && ThreeIdle(s)
    ensures r == s.(ops := map[], phase := Committing(s.disk, 0)) && Reached(L, d, r)
  {
    hide Reached;
    var s1 := s.(ops := s.ops - {0});
    assert 1 in s1.ops && 2 in s1.ops;
    ReachedStep(L, d, s, EndOp(0), s1);
    var s2 := s1.(ops := s1.ops - {1});
    assert 2 in s2.ops;
    ReachedStep(L, d, s1, EndOp(1), s2);
    r := s2.(ops := map[], phase := Committing(s.disk, 0));
    assert s2.ops.Keys == {2} && s2.ops - {2} == map[];
    ReachedStep(L, d, s2, EndOp(2), r);
  }

  /** The commit of the overflowing run begins. */
  lemma OverflowEnds(L: Layout, d: Disk, x: Block) returns (s: State)
    requires 2 <= L.size <= LOGSIZE && L.start + L.size + LOGSIZE <= |d| && GoodHeader(L, d) && Decode(d[L.start]) == []
    ensures Reached(L, d, s) && s == State(d, d[LastBlock(L) := x], After(L, L.size), map[], {}, Committing(d, 0))
  {
    hide Reached;
    var s0 := Overflow(L, d, x);
    s := AllEnd(L, d, s0);
  }

  /** The commit of the overflowing run after k slots inside the region: no home block has changed. */
  ghost predicate SlotsWritten(L: Layout, d: Disk, x: Block, k: nat, s: State)
    requires 1 <= L.size && LastBlock(L) < |d|
  {
    && s.phase == Committing(d, k) && s.lh == After(L, L.size) && s.ops == map[] && s.readers == {} && |s.mem| == |s.disk| == |d|
    && (forall b :: 0 <= b < |d| && Home(L, b) ==> s.mem[b] == d[LastBlock(L) := x][b] && s.disk[b] == d[b])
    && s.disk[L.start] == d[L.start]
  }

  lemma {:induction false} OverflowSlots(L: Layout, d: Disk, x: Block, k: nat) returns (s: State)
    requires 2 <= L.size < LOGSIZE && L.start + L.size + LOGSIZE <= |d| && GoodHeader(L, d) && Decode(d[L.start]) == []
    requires k < L.size
    ensures Reached(L, d, s) && SlotsWritten(L, d, x, k, s)
  {
    hide Reached;
    if k == 0 {
      s := OverflowEnds(L, d, x);
    } else {
      var p := OverflowSlots(L, d, x, k - 1);
      var w := CommitStep(L, p.mem, p.lh, k - 1);
      InUseAtMost(p, p.lh);
      s := p.(disk := p.disk[w.bno := w.data], mem := p.mem[w.bno := w.data], phase := Committing(d, k));
      ReachedStep(L, d, p, CommitWrite, s);
    }
  }

  /** The next slot lies past the region: a home block changes before any header names it. */
  lemma OverflowHits(L: Layout, d: Disk, x: Block) returns (s: State)
    requires 2 <= L.size < LOGSIZE && L.start + L.size + LOGSIZE <= |d| && GoodHeader(L, d) && Decode(d[L.start]) == []
    ensures Reached(L, d, s) && |s.disk| == |d| && s.disk[L.start] == d[L.start] && s.disk[L.start + L.size] == x
  {
    hide Reached;
    var p := OverflowSlots(L, d, x, L.size - 1);
    var w := CommitStep(L, p.mem, p.lh, L.size - 1);
    assert w == Write(L.start + L.size, x);
    InUseAtMost(p, p.lh);
    s := p.(disk := p.disk[w.bno := w.data], mem := p.mem[w.bno := w.data], phase := Committing(d, L.size));
    ReachedStep(L, d, p, CommitWrite, s);
  }

  ghost predicate Recoverable(L: Layout, ss: seq<State>, es: seq<Event>, j: nat)
    requires |ss| == |es| + 1 && j < |ss|
  {
    exists i: nat :: RecoversTo(L, ss, es, j, i)
  }

  /** On a disk of n blocks, every crash of every run recovers the start or the last commit. */
  ghost predicate AlwaysSafe(L: Layout, n: nat) {
    forall ss: seq<State>, es: seq<Event>, j: nat ::
      Behavior(L, ss, es) && |ss[0].disk| == n && j < |ss| ==> Recoverable(L, ss, es, j)
  }

  /** A run without a commit point can only recover its first disk. */
  lemma LostBlock(L: Layout, d: Disk, s: State, ss: seq<State>, es: seq<Event>)
    requires ReachedBy(L, d, s, ss, es) && NoCommit(ss, es) && |s.disk| == |d|
    requires L.start + L.size < |d| && s.disk[L.start] == d[L.start] && s.disk[L.start + L.size] != d[L.start + L.size]
    ensures !Recoverable(L, ss, es, |es|)
  {
    assert GoodHeader(L, s.disk);
    NothingToReplay(L, s.disk);
    assert Home(L, L.start + L.size);
  }

  /**
   Group-commit safety holds exactly when no commit can write a slot outside
   the region.  From LOGSIZE blocks on, a list as long as the region pins every
   buffer, and the commit panics before its first write.
   */
  lemma SafetyExact(L: Layout, n: nat)
    requires 1 <= L.size && L.start + L.size + LOGSIZE <= n <= UINT
    ensures AlwaysSafe(L, n) <==> SafeRegion(L)
  {
    hide Step, RecoversTo;
    if SafeRegion(L) {
      forall ss: seq<State>, es: seq<Event>, j: nat | Behavior(L, ss, es) && |ss[0].disk| == n && j < |ss|
        ensures Recoverable(L, ss, es, j)
      {
        var i := GroupCommitSafety(L, ss, es, j);
      }
    } else {
      var d := BlankDisk(L, n);
      var x: Block := ZeroBlock()[0 := 1];
      assert x[0] != ZeroBlock()[0];
      var s := OverflowHits(L, d, x);
      var ss: seq<State>, es: seq<Event> :| ReachedBy(L, d, s, ss, es) && NoCommit(ss, es) && Within(ss, MAXOPBLOCKS);
      LostBlock(L, d, s, ss, es);
    }
  }

  // ---------- When a commit finds no buffer ----------

  /** A stuck commit has written nothing and never will: only readers move, until the crash. */
  lemma StuckStays(L: Layout, s: State, e: Event, s': State)
    requires Sane(L, s) && Stuck(s) && Step(L, s, e, s')
    ensures s'.disk == s.disk && (e.Crash? || (Stuck(s') && s'.lh == s.lh))
  {
    hide CommitStep, GoodHeader;
    ListBound(s);
  }

  /**
   In the layout mkfs makes, the overflowing run ends in bget's panic: the
   commit of NBUF pinned blocks leaves the disk as it was, for recovery to keep.
   */
  lemma OverflowPanics(L: Layout, d: Disk, x: Block) returns (s: State)
    requires L.size == LOGSIZE && L.start + L.size + LOGSIZE <= |d| && GoodHeader(L, d) && Decode(d[L.start]) == []
    ensures Reached(L, d, s) && Stuck(s) && |s.lh| == L.size && s.disk == d && SameHome(L, Recovered(L, s.disk), d)
    ensures forall e: Event, next: State :: Step(L, s, e, next) ==> next.disk == d && (e.Crash? || Stuck(next))
  {
    hide Reached, Step, Recovered;
    s := OverflowEnds(L, d, x);
    NothingToReplay(L, d);
    ReachedReachable(L, d, s);
    ReachableSane(L, d, s);
    forall e: Event, next: State | Step(L, s, e, next)
      ensures next.disk == d && (e.Crash? || Stuck(next))
    {
      StuckStays(L, s, e, next);
    }
  }

  /** The calls between the guard and the append of log_write. */
  ghost function Pasts(s: State): set<nat> {
    set t | t in s.ops && s.ops[t].past
  }

  /** At most three calls run, so at most three pass the guard on one free slot. */
  ghost predicate Crowd(L: Layout, s: State) {
    |s.ops| <= 3 && |s.lh| + |Pasts(s)| <= L.size + 1
  }

  lemma PastsBound(s: State)
    ensures |Pasts(s)| <= |s.ops|
  {
    SubsetSize(Pasts(s), s.ops.Keys);
    assert |s.ops| == |s.ops.Keys|;
  }

  /** Steps that move no call past the guard and append nothing. */
  lemma CrowdQuiet(L: Layout, s: State, e: Event, s': State)
    requires Crowd(L, s) && Step(L, s, e, s') && !e.LogGuard? && !e.LogAppend?
    ensures Crowd(L, s')
  {
    hide Step, Pasts;
    if e.BeginOp? || e.EndOp? || e.Bread? || e.Modify? || e.Brelse? {
      QuietCall(L, s, e, s');
    } else {
      QuietOther(L, s, e, s');
    }
    SubsetSize(Pasts(s'), Pasts(s));
  }

  lemma QuietCall(L: Layout, s: State, e: Event, s': State)
    requires Step(L, s, e, s') && |s.ops| <= 3 && (e.BeginOp? || e.EndOp? || e.Bread? || e.Modify? || e.Brelse?)
    ensures s'.lh == s.lh && |s'.ops| <= 3 && Pasts(s') <= Pasts(s)
  {
    assert |s.ops| == |s.ops.Keys| && |s'.ops| == |s'.ops.Keys|;
    if e.BeginOp? {
      assert s'.ops.Keys == s.ops.Keys + {e.t};
    } else if e.EndOp? {
      assert s'.ops.Keys == s.ops.Keys - {e.t};
    } else {
      assert s'.ops.Keys == s.ops.Keys;
    }
  }

  lemma QuietOther(L: Layout, s: State, e: Event, s': State)
    requires Step(L, s, e, s') && (e.CommitWrite? || e.CommitDone? || e.RecoverWrite? || e.RecoverDone? || e.Crash? || e.ReaderGet? || e.ReaderPut?)
    ensures |s'.lh| <= |s.lh| && |s'.ops| <= |s.ops| && Pasts(s') <= Pasts(s)
  {
    hide CommitStep, GoodHeader, RecoveryWrites;
  }

  lemma CrowdStep(L: Layout, s: State, e: Event, s': State)
    requires 1 <= L.size && Crowd(L, s) && Step(L, s, e, s')
    ensures Crowd(L, s')
  {
    hide StepBread, StepModify, StepBrelse, StepEnd, StepCommit, StepRecover, StepDone, StepCrash;
    if e.LogGuard? || e.LogAppend? {
      assert |s.ops| == |s.ops.Keys| && |s'.ops| == |s'.ops.Keys| && s'.ops.Keys == s.ops.Keys;
      PastsBound(s');
      assert e.LogAppend? ==> e.t in Pasts(s) && Pasts(s') == Pasts(s) - {e.t};
    } else {
      CrowdQuiet(L, s, e, s');
    }
  }

  lemma {:induction false} BehaviorCrowd(L: Layout, ss: seq<State>, es: seq<Event>, j: nat)
    requires 1 <= L.size && Behavior(L, ss, es) && j < |ss|
    ensures Crowd(L, ss[j])
  {
    if j == 0 {
      assert Pasts(ss[0]) == {};
    } else {
      BehaviorCrowd(L, ss, es, j - 1);
      CrowdStep(L, ss[j - 1], es[j - 1], ss[j]);
    }
  }

  /** Three calls pass the guard on one free slot. */
  lemma ThreePass(L: Layout, d: Disk, b: nat) returns (s: State)
    requires L.size == LOGSIZE - 1 && L.start + L.size + LOGSIZE <= |d| && GoodHeader(L, d) && Decode(d[L.start]) == []
    requires b == L.start + 2 * L.size - 2
    ensures Reached(L, d, s) && s.phase.Running? && |s.lh| == L.size - 2 && (forall c :: c in s.lh ==> c < b)
    ensures s.ops.Keys == {0, 1, 2} && s.ops[0] == Op(9, {b}, {b}, true)
    ensures s.ops[1] == Op(9, {b + 1}, {b + 1}, true) && s.ops[2] == Op(9, {b + 2}, {b + 2}, true)
  {
    hide Reached, InUse, Held, GoodHeader, Decode, After;
    var s0 := TwoPass(L, d, d[b + 1], L.size - 2, b);
    s := PassNext(L, d, s0, 2, b + 2, d[b + 2], s0.lh + [b] + [b + 1]);
  }

  /** All three append, which pins every buffer in a region of LOGSIZE - 1 blocks. */
  lemma ThreeOverflow(L: Layout, d: Disk) returns (s: State)
    requires L.size == LOGSIZE - 1 && L.start + L.size + LOGSIZE <= |d| && GoodHeader(L, d) && Decode(d[L.start]) == []
    ensures Reached(L, d, s) && s.phase.Running? && |s.lh| == NBUF && ThreeIdle(s)
  {
    hide Reached;
    var b := L.start + 2 * L.size - 2;
    var s0 := ThreePass(L, d, b);
    Landing(L, d, s0, 0, b, 9);
    var s1 := With(s0, 0, Op(10, {}, {}, false)).(lh := s0.lh + [b]);
    Landing(L, d, s1, 1, b + 1, 9);
    var s2 := With(s1, 1, Op(10, {}, {}, false)).(lh := s1.lh + [b + 1]);
    Landing(L, d, s2, 2, b + 2, 9);
    s := With(s2, 2, Op(10, {}, {}, false)).(lh := s2.lh + [b + 2]);
  }

  /** A reachable commit that finds every buffer pinned. */
  lemma StuckReached(L: Layout, d: Disk) returns (s: State)
    requires L.size >= LOGSIZE - 1 && L.start + L.size + LOGSIZE <= |d| && GoodHeader(L, d) && Decode(d[L.start]) == []
    ensures Reached(L, d, s) && Stuck(s) && |s.lh| == NBUF
  {
    hide Reached;
    var s0: State;
    if L.size == LOGSIZE - 1 {
      s0 := ThreeOverflow(L, d);
    } else if L.size == LOGSIZE {
      s0 := Overflow(L, d, d[LastBlock(L)]);
    } else {
      Fill(L, d, LOGSIZE);
      s0 := Filled(L, d, LOGSIZE);
    }
    s := AllEnd(L, d, s0);
  }

  /** On a disk of n blocks, no commit starts with a list that pins every buffer. */
  ghost predicate NeverStuck(L: Layout, n: nat) {
    forall d: Disk, s: State :: |d| == n && Reachable(L, d, s) ==> !Stuck(s)
  }

  /**
   The list of a commit can pin every buffer exactly when three calls, passing
   the guard together, can list NBUF blocks; mkfs makes such a region.
   */
  lemma StuckExact(L: Layout, n: nat)
    requires 1 <= L.size && L.start + L.size + LOGSIZE <= n <= UINT
    ensures NeverStuck(L, n) <==> L.size <= LOGSIZE - 2
  {
    if L.size <= LOGSIZE - 2 {
      forall d: Disk, s: State | |d| == n && Reachable(L, d, s)
        ensures !Stuck(s)
      {
        var ss: seq<State>, es: seq<Event> :| ReachedBy(L, d, s, ss, es);
        BehaviorCrowd(L, ss, es, |es|);
      }
    } else {
      var d := BlankDisk(L, n);
      var s := StuckReached(L, d);
      ReachedReachable(L, d, s);
    }
  }

  // ---------- When readers leave a commit no buffer ----------

  /** A commit with a write to make and every buffer pinned or held: its next bread panics. */
  ghost predicate Starved(s: State) {
    s.phase.Committing? && s.phase.done < CommitLength(s.lh) && |InUse(s)| >= NBUF
  }

  /** On a disk of n blocks, no commit meets bget's panic, whatever is read meanwhile. */
  ghost predicate NeverStarved(L: Layout, n: nat) {
    forall d: Disk, s: State :: |d| == n && Reachable(L, d, s) ==> !Starved(s)
  }

  /** A commit of the first block after the log region while j readers hold the blocks behind it. */
  function Crowded(L: Layout, d: Disk, j: nat): State {
    State(d, d, After(L, 1), map[], Members(After(L, j + 1)[1..]), Committing(d, 0))
  }

  lemma {:induction false} CrowdedReached(L: Layout, d: Disk, j: nat)
    requires L.size >= 2 && L.start + L.size + LOGSIZE <= |d| && GoodHeader(L, d) && Decode(d[L.start]) == [] && j < NBUF
    ensures Reached(L, d, Crowded(L, d, j))
  {
    hide Reached, GoodHeader, Decode;
    if j == 0 {
      Fill(L, d, 1);
      var s := AllEnd(L, d, Filled(L, d, 1));
      assert s.readers == Crowded(L, d, 0).readers;
    } else {
      hide Crowded, Step;
      CrowdedReached(L, d, j - 1);
      CrowdedNext(L, d, j);
      ReachedStep(L, d, Crowded(L, d, j - 1), ReaderGet(L.start + L.size + j), Crowded(L, d, j));
    }
  }

  lemma CrowdedNext(L: Layout, d: Disk, j: nat)
    requires L.start + L.size + j < |d| && 1 <= j < NBUF
    ensures Step(L, Crowded(L, d, j - 1), ReaderGet(L.start + L.size + j), Crowded(L, d, j))
  {
    hide InUse, Busy, Held, After;
    var s, s', b := Crowded(L, d, j - 1), Crowded(L, d, j), L.start + L.size + j;
    CrowdedUse(L, d, s, j - 1);
    AfterMore(L, j);
    assert s'.readers == s.readers + {b};
    HeldIsBusy(s, b);
  }

  lemma AfterMore(L: Layout, j: nat)
    requires j >= 1
    ensures |After(L, j + 1)| == j + 1 && |After(L, j)| == j && L.start + L.size + j !in After(L, j)
    ensures After(L, j + 1)[1..] == After(L, j)[1..] + [L.start + L.size + j]
  {
  }

  lemma HeldIsBusy(s: State, b: nat)
    ensures Held(s, b) ==> Busy(s, b)
  {
  }

  lemma CrowdedUse(L: Layout, d: Disk, s: State, j: nat)
    requires s == Crowded(L, d, j) && L.start + L.size + j < |d|
    ensures |InUse(s)| == j + 1 && forall b: nat :: Busy(s, b) <==> b in After(L, j + 1)
  {
    var xs := After(L, j + 1);
    assert s.lh[0..] == s.lh && xs == s.lh + xs[1..];
    assert forall b: nat :: Busy(s, b) <==> b in xs;
    MemberCount(xs);
    assert InUse(s) == Members(xs);
  }

  /** Readers can take the last buffer from a commit in every region that has a slot. */
  lemma StarvedExact(L: Layout, n: nat)
    requires 1 <= L.size && L.start + L.size + LOGSIZE <= n <= UINT
    ensures NeverStarved(L, n) <==> L.size == 1
  {
    hide InUse, Reachable;
    if L.size == 1 {
      forall d: Disk, s: State | |d| == n && Reachable(L, d, s)
        ensures !Starved(s)
      {
        ReachableInv(L, d, s);
      }
    } else {
      var d := BlankDisk(L, n);
      CrowdedReached(L, d, NBUF - 1);
      CrowdedUse(L, d, Crowded(L, d, NBUF - 1), NBUF - 1);
      ReachedReachable(L, d, Crowded(L, d, NBUF - 1));
    }
  }
}
