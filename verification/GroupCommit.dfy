/**
 Group commit (log.c) as a state machine over every interleaving of file
 system calls, single block writes of the committer, crashes and recovery.

 `mem` is what bread returns for each block; `disk` is what a crash leaves.
 */
module GroupCommit {
  import opened Blocks
  import opened Collections
  import opened LogCrash

  /**
   A file system call between begin_op and end_op: how many blocks it appended
   to the log, the buffers it holds (B_BUSY), those of them it modified, and
   whether it is inside log_write, past the guard and before the append.
   */
  datatype Op = Op(used: nat, held: set<nat>, modified: set<nat>, past: bool)

  /** `base` is the disk on which the current block writes started, `done` their number so far. */
  datatype Phase =
    | Running
    | Committing(base: Disk, done: nat)
    | Recovering(base: Disk, plan: seq<Write>, done: nat)

  /** `readers` are the blocks held by readers outside file system calls, who change nothing. */
  datatype State = State(disk: Disk, mem: Disk, lh: seq<nat>, ops: map<nat, Op>, readers: set<nat>, phase: Phase)

  datatype Event =
    | BeginOp(t: nat)
    | Bread(t: nat, b: nat)
    | Modify(t: nat, b: nat, data: Block)
    | LogGuard(t: nat)
    | LogAppend(t: nat, b: nat)
    | Brelse(t: nat, b: nat)
    | EndOp(t: nat)
    | ReaderGet(b: nat)
    | ReaderPut(b: nat)
    | CommitWrite
    | CommitDone
    | Crash
    | RecoverWrite
    | RecoverDone

  /** The panic guards at the head of log_write. */
  predicate Panics(L: Layout, s: State) {
    |s.lh| >= LOGSIZE || |s.lh| >= L.size - 1 || |s.ops| < 1
  }

  function Absorb(lh: seq<nat>, b: nat): seq<nat> {
    if b in lh then lh else lh + [b]
  }

  /** The buffer of block b is B_BUSY. */
  ghost predicate Held(s: State, b: nat) {
    b in s.readers || exists t :: t in s.ops && b in s.ops[t].held
  }

  /** How many of the listed blocks install_trans has written home, and so unpinned. */
  function Unpinned(s: State): (i: nat)
    ensures i <= |s.lh|
  {
    if s.phase.Committing? && s.phase.done > |s.lh| + 1 then
      (if s.phase.done - |s.lh| - 1 < |s.lh| then s.phase.done - |s.lh| - 1 else |s.lh|)
    else 0
  }

  /** The buffer of block b cannot be recycled: it is pinned by the log or held. */
  ghost predicate Busy(s: State, b: nat) {
    b in s.lh[Unpinned(s)..] || Held(s, b)
  }

  /** Block b may differ from its on-disk copy. */
  ghost predicate Touched(s: State, b: nat) {
    b in s.lh || exists t :: t in s.ops && b in s.ops[t].modified
  }

  ghost function InUse(s: State): set<nat> {
    set b | 0 <= b < |s.disk| && Busy(s, b)
  }

  ghost predicate Init(L: Layout, s: State) {
    && GoodHeader(L, s.disk) && Decode(s.disk[L.start]) == []
    && s == State(s.disk, s.disk, [], map[], {}, Running)
  }

  // ---------- Steps of the calls ----------

  /** Call t is running and not inside log_write. */
  ghost predicate Free(s: State, t: nat) {
    s.phase.Running? && t in s.ops && !s.ops[t].past
  }

  ghost predicate StepBegin(L: Layout, s: State, t: nat, s': State) {
    && s.phase.Running? && t !in s.ops
    && |s.lh| + (|s.ops| + 1) * MAXOPBLOCKS <= LOGSIZE
    && s' == s.(ops := s.ops[t := Op(0, {}, {}, false)])
  }

  /** bread finds the block pinned and not held, or a buffer to recycle for it. */
  ghost predicate CanGet(L: Layout, s: State, b: nat) {
    b < |s.disk| && Home(L, b) && !Held(s, b) && (Busy(s, b) || |InUse(s)| < NBUF)
  }

  ghost predicate StepBread(L: Layout, s: State, t: nat, b: nat, s': State) {
    && Free(s, t)
    && CanGet(L, s, b)
    && s' == s.(ops := s.ops[t := s.ops[t].(held := s.ops[t].held + {b})])
  }

  ghost predicate StepModify(s: State, t: nat, b: nat, data: Block, s': State) {
    && Free(s, t) && b in s.ops[t].held && b < |s.mem|
    && s' == s.(mem := s.mem[b := data],
                ops := s.ops[t := s.ops[t].(modified := s.ops[t].modified + {b})])
  }

  /** log_write up to acquire: the list is measured without the log lock. */
  ghost predicate StepGuard(L: Layout, s: State, t: nat, s': State) {
    && Free(s, t) && !Panics(L, s)
    && s' == s.(ops := s.ops[t := s.ops[t].(past := true)])
  }

  /** log_write under the log lock, whatever the caller has appended before. */
  ghost predicate StepAppend(s: State, t: nat, b: nat, s': State) {
    && s.phase.Running? && t in s.ops && s.ops[t].past && b in s.ops[t].held
    && s' == s.(lh := Absorb(s.lh, b),
                ops := s.ops[t := s.ops[t].(past := false, used := s.ops[t].used + if b in s.lh then 0 else 1)])
  }

  /** Callers pass a modified buffer to log_write before they release it. */
  ghost predicate StepBrelse(s: State, t: nat, b: nat, s': State) {
    && Free(s, t) && b in s.ops[t].held
    && (b in s.ops[t].modified ==> b in s.lh)
    && s' == s.(ops := s.ops[t := s.ops[t].(held := s.ops[t].held - {b}, modified := s.ops[t].modified - {b})])
  }

  /** The last call out starts the commit. */
  ghost predicate StepEnd(s: State, t: nat, s': State) {
    && Free(s, t) && s.ops[t].held == {}
    && s' == s.(ops := s.ops - {t}, phase := if s.ops - {t} == map[] then Committing(s.disk, 0) else Running)
  }

  /** A reader outside a call, as in fileread, gets a block or releases it. */
  ghost predicate StepReader(L: Layout, s: State, e: Event, s': State)
    requires e.ReaderGet? || e.ReaderPut?
  {
    && !s.phase.Recovering?
    && if e.ReaderGet? then CanGet(L, s, e.b) && s' == s.(readers := s.readers + {e.b})
       else e.b in s.readers && s' == s.(readers := s.readers - {e.b})
  }

  // ---------- Steps of the committer, crash and recovery ----------

  /** The number of block writes of a commit. */
  function CommitLength(lh: seq<nat>): nat {
    if lh == [] then 0 else 2 * |lh| + 2
  }

  /** The list names blocks of a disk of n blocks, and the slots it needs exist on it. */
  ghost predicate Listed(L: Layout, n: nat, lh: seq<nat>) {
    |lh| <= LOGSIZE && L.start + |lh| < n <= UINT && forall i :: 0 <= i < |lh| ==> lh[i] < n
  }

  /** Block write number k of a commit, made from what bread returns at that moment. */
  ghost function CommitStep(L: Layout, mem: Disk, lh: seq<nat>, k: nat): Write
    requires Listed(L, |mem|, lh) && k < CommitLength(lh)
  {
    var n := |lh|;
    if k < n then Write(L.start + 1 + k, mem[lh[k]])
    else if k == n then Write(L.start, Encode(mem[L.start], lh))
    else if k <= 2 * n then Write(lh[k - n - 1], mem[L.start + 1 + (k - n - 1)])
    else Write(L.start, Encode(mem[L.start], []))
  }

  /** No reader holds the home block that the next write of a commit goes to or comes from. */
  predicate Unread(s: State)
    requires s.phase.Committing?
  {
    forall i :: 0 <= i < |s.lh| && (i == s.phase.done || i == s.phase.done - |s.lh| - 1) ==> s.lh[i] !in s.readers
  }

  /**
   Every write of a commit reads a log block first.  Without a buffer to
   recycle for it bget panics; for a block that a reader holds it sleeps.
   */
  ghost predicate StepCommit(L: Layout, s: State, s': State) {
    && s.phase.Committing? && s.phase.done < CommitLength(s.lh)
    && |InUse(s)| < NBUF && Unread(s)
    && |s.disk| == |s.mem| && Listed(L, |s.mem|, s.lh)
    && var w := CommitStep(L, s.mem, s.lh, s.phase.done);
       s' == s.(disk := s.disk[w.bno := w.data], mem := s.mem[w.bno := w.data],
                phase := Committing(s.phase.base, s.phase.done + 1))
  }

  ghost predicate StepRecover(s: State, s': State) {
    && s.phase.Recovering? && s.phase.done < |s.phase.plan|
    && var w := s.phase.plan[s.phase.done];
       && w.bno < |s.disk| == |s.mem|
       && s' == s.(disk := s.disk[w.bno := w.data], mem := s.mem[w.bno := w.data],
                   phase := Recovering(s.phase.base, s.phase.plan, s.phase.done + 1))
  }

  ghost predicate StepDone(s: State, s': State) {
    && !s.phase.Running?
    && s.phase.done == (if s.phase.Committing? then CommitLength(s.lh) else |s.phase.plan|)
    && s' == s.(lh := [], phase := Running)
  }

  /** Memory is lost; the next boot starts recover_from_log. */
  ghost predicate StepCrash(L: Layout, s: State, s': State) {
    && GoodHeader(L, s.disk)
    && s' == State(s.disk, s.disk, [], map[], {}, Recovering(s.disk, RecoveryWrites(L, s.disk), 0))
  }

  ghost predicate Step(L: Layout, s: State, e: Event, s': State) {
    match e
    case BeginOp(t) => StepBegin(L, s, t, s')
    case Bread(t, b) => StepBread(L, s, t, b, s')
    case Modify(t, b, data) => StepModify(s, t, b, data, s')
    case LogGuard(t) => StepGuard(L, s, t, s')
    case LogAppend(t, b) => StepAppend(s, t, b, s')
    case Brelse(t, b) => StepBrelse(s, t, b, s')
    case EndOp(t) => StepEnd(s, t, s')
    case ReaderGet(_) => StepReader(L, s, e, s')
    case ReaderPut(_) => StepReader(L, s, e, s')
    case CommitWrite => StepCommit(L, s, s')
    case CommitDone => s.phase.Committing? && StepDone(s, s')
    case Crash => StepCrash(L, s, s')
    case RecoverWrite => StepRecover(s, s')
    case RecoverDone => s.phase.Recovering? && StepDone(s, s')
  }

  ghost predicate Behavior(L: Layout, ss: seq<State>, es: seq<Event>) {
    && |ss| == |es| + 1
    && Init(L, ss[0])
    && forall i :: 0 <= i < |es| ==> Step(L, ss[i], es[i], ss[i + 1])
  }

  // ---------- The invariant ----------

  ghost predicate OpsOk(L: Layout, s: State) {
    forall t :: t in s.ops ==>
      s.ops[t].modified <= s.ops[t].held && forall b :: b in s.ops[t].held ==> b < |s.disk| && Home(L, b)
  }

  /**
   What every run keeps, whatever the size of the log region and whatever the
   calls append: distinct home blocks in the list, no more blocks in use than
   buffers, and so no more entries than the header has room for.
   */
  ghost predicate Sane(L: Layout, s: State) {
    && |s.mem| == |s.disk| && OpsOk(L, s)
    && Distinct(s.lh) && (forall i :: 0 <= i < |s.lh| ==> s.lh[i] < |s.disk| && Home(L, s.lh[i]))
    && |s.lh| <= LOGSIZE && |InUse(s)| <= NBUF
    && (!s.phase.Running? ==> s.ops == map[])
    && (s.phase.Recovering? ==> s.readers == {})
  }

  /** The log region has no slot at all, or one for each of LOGSIZE entries. */
  predicate Roomy(L: Layout) {
    L.size == 1 || L.size > LOGSIZE
  }

  /** The regions in which every crash recovers, whatever the calls do (LogLimits.SafetyExact). */
  predicate SafeRegion(L: Layout) {
    L.size == 1 || L.size >= LOGSIZE
  }

  /** A commit that starts with every buffer pinned: its first bread panics. */
  predicate Stuck(s: State) {
    s.phase.Committing? && s.phase.done == 0 && |s.lh| >= NBUF
  }

  /** Nothing is on its way to disk: cache and disk differ only on touched blocks. */
  ghost predicate RunningInv(L: Layout, s: State)
    requires |s.mem| == |s.disk|
  {
    && GoodHeader(L, s.disk) && Decode(s.disk[L.start]) == []
    && forall b :: 0 <= b < |s.disk| && !Touched(s, b) ==> s.mem[b] == s.disk[b]
  }

  ghost predicate CommittingInv(L: Layout, s: State)
    requires s.phase.Committing? && |s.mem| == |s.disk|
  {
    var base, n, k := s.phase.base, |s.lh|, s.phase.done;
    && |base| == |s.disk|
    && GoodHeader(L, base) && Decode(base[L.start]) == []
    && Entries(L, |base|, s.lh)
    && k <= CommitLength(s.lh)
    && InRange(CommitWrites(L, base[L.start], s.mem, s.lh), |base|)
    && |CommitWrites(L, base[L.start], s.mem, s.lh)| == CommitLength(s.lh)
    && s.disk == Apply(base, CommitWrites(L, base[L.start], s.mem, s.lh)[..k])
    && (forall b :: 0 <= b < |base| && Home(L, b) && b !in s.lh ==> s.mem[b] == base[b])
    && (forall b :: 0 <= b < |base| && !Home(L, b) ==> s.mem[b] == s.disk[b])
    && (forall i :: 0 <= i < n && i < k ==> s.disk[L.start + 1 + i] == s.mem[s.lh[i]])
    && (k <= n ==> s.disk[L.start] == base[L.start])
    && (n < k < CommitLength(s.lh) ==> s.disk[L.start] == Encode(base[L.start], s.lh))
  }

  ghost predicate RecoveringInv(L: Layout, s: State)
    requires s.phase.Recovering?
  {
    var base := s.phase.base;
    && s.lh == [] && s.mem == s.disk
    && GoodHeader(L, base)
    && |base| == |s.disk|
    && s.phase.plan == RecoveryWrites(L, base)
    && s.phase.done <= |s.phase.plan|
    && s.disk == Apply(base, s.phase.plan[..s.phase.done])
  }

  ghost predicate StuckInv(L: Layout, s: State)
    requires s.phase.Committing?
  {
    && Stuck(s) && s.phase.base == s.disk
    && GoodHeader(L, s.disk) && Decode(s.disk[L.start]) == []
  }

  /** Everything a safe log region keeps; past the guard the region has slots. */
  ghost predicate Inv(L: Layout, s: State) {
    && SafeRegion(L) && Sane(L, s)
    && (L.size == 1 ==> s.lh == [] && forall t :: t in s.ops ==> !s.ops[t].past)
    && match s.phase
       case Running => RunningInv(L, s)
       case Committing(_, _) => if |s.lh| < NBUF then CommittingInv(L, s) else StuckInv(L, s)
       case Recovering(_, _, _) => RecoveringInv(L, s)
  }

  lemma InitInv(L: Layout, s: State)
    requires Init(L, s)
    ensures Sane(L, s)
    ensures SafeRegion(L) ==> Inv(L, s)
  {
    assert InUse(s) == {};
  }

  // ---------- What a crash would leave ----------

  lemma CommitDisk(L: Layout, s: State)
    requires s.phase.Committing? && |s.mem| == |s.disk| && CommittingInv(L, s)
    ensures GoodHeader(L, s.disk)
    ensures s.phase.done <= |s.lh| ==> SameHome(L, Recovered(L, s.disk), s.phase.base)
    ensures s.phase.done > |s.lh| ==> SameHome(L, Recovered(L, s.disk), s.mem)
  {
    if s.lh == [] {
      NothingToReplay(L, s.disk);
    } else if s.phase.done <= |s.lh| {
      BeforeHeader(L, s.phase.base, s.mem, s.lh, s.phase.done);
    } else {
      AfterHeader(L, s.phase.base, s.mem, s.lh, s.phase.done);
    }
  }

  lemma NothingToReplay(L: Layout, d: Disk)
    requires GoodHeader(L, d) && Decode(d[L.start]) == []
    ensures SameHome(L, Recovered(L, d), d)
  {
    forall b | 0 <= b < |d| && Home(L, b)
      ensures Recovered(L, d)[b] == d[b]
    {
      RecoveredAt(L, d, b);
    }
  }

  /** Every reachable disk can be recovered. */
  lemma InvGoodHeader(L: Layout, s: State)
    requires Inv(L, s)
    ensures GoodHeader(L, s.disk)
  {
    match s.phase
    case Running =>
    case Committing(_, _) => if |s.lh| < NBUF { CommitDisk(L, s); }
    case Recovering(base, _, done) => RecoveryPrefix(L, base, done);
  }

  // ---------- No more blocks in use than buffers ----------

  function Members(xs: seq<nat>): set<nat> {
    set x | x in xs
  }

  lemma {:induction false} MemberCount(xs: seq<nat>)
    ensures |Members(xs)| <= |xs|
    ensures Distinct(xs) ==> |Members(xs)| == |xs|
  {
    if xs == [] {
      assert Members(xs) == {};
    } else {
      var rest := xs[..|xs| - 1];
      MemberCount(rest);
      assert Members(xs) == Members(rest) + {xs[|xs| - 1]};
    }
  }

  /** While calls run every listed block has a buffer. */
  lemma ListBound(s: State)
    requires Unpinned(s) == 0 && Distinct(s.lh) && forall i :: 0 <= i < |s.lh| ==> s.lh[i] < |s.disk|
    ensures |s.lh| <= |InUse(s)|
  {
    MemberCount(s.lh);
    assert s.lh[0..] == s.lh;
    assert Members(s.lh) <= InUse(s);
    SubsetSize(Members(s.lh), InUse(s));
  }

  lemma InUseGrows(s: State, s': State, extra: set<nat>)
    requires |s'.disk| == |s.disk| && forall b :: Busy(s', b) ==> Busy(s, b) || b in extra
    ensures |InUse(s')| <= |InUse(s) + extra|
  {
    SubsetSize(InUse(s'), InUse(s) + extra);
  }

  lemma InUseStays(s: State, s': State)
    requires |s'.disk| == |s.disk| && forall b :: Busy(s', b) ==> Busy(s, b)
    ensures |InUse(s')| <= |InUse(s)|
  {
    SubsetSize(InUse(s'), InUse(s));
  }

  /** A step of a call other than bread: nothing new is in use. */
  lemma CallBusy(L: Layout, s: State, e: Event, s': State, b: nat)
    requires Step(L, s, e, s') && (e.BeginOp? || e.Modify? || e.LogGuard? || e.LogAppend? || e.Brelse? || e.EndOp?)
    requires Busy(s', b)
    ensures Busy(s, b)
  {
    assert Unpinned(s') == Unpinned(s) == 0 && s.lh[0..] == s.lh && s'.lh[0..] == s'.lh;
    if b !in s.lh && b !in s.readers {
      if e.LogAppend? && b == e.b {
        assert b in s.ops[e.t].held;
      } else {
        var t :| t in s'.ops && b in s'.ops[t].held;
        assert t in s.ops && b in s.ops[t].held;
      }
    }
  }

  /** bread adds at most the block it gets. */
  lemma GetBusy(L: Layout, s: State, e: Event, s': State, b: nat)
    requires Step(L, s, e, s') && (e.Bread? || e.ReaderGet?) && Busy(s', b)
    ensures Busy(s, b) || b == e.b
  {
    if b !in s.lh[Unpinned(s)..] && b !in s'.readers {
      var t :| t in s'.ops && b in s'.ops[t].held;
      assert t in s.ops && (b in s.ops[t].held || b == e.b);
    }
  }

  lemma GetSane(L: Layout, s: State, e: Event, s': State)
    requires Sane(L, s) && Step(L, s, e, s') && (e.Bread? || e.ReaderGet?)
    ensures |InUse(s')| <= NBUF
  {
    forall b | Busy(s', b)
      ensures Busy(s, b) || b in {e.b}
    {
      GetBusy(L, s, e, s', b);
    }
    InUseGrows(s, s', {e.b});
    if Busy(s, e.b) {
      assert InUse(s) + {e.b} == InUse(s);
    }
  }

  lemma CallSane(L: Layout, s: State, e: Event, s': State)
    requires Sane(L, s) && Step(L, s, e, s')
    requires e.BeginOp? || e.Modify? || e.LogGuard? || e.LogAppend? || e.Brelse? || e.EndOp?
    ensures Sane(L, s')
  {
    hide InUse, Busy;
    CallInUse(L, s, e, s');
    ListBound(s');
  }

  lemma CallInUse(L: Layout, s: State, e: Event, s': State)
    requires Step(L, s, e, s') && (e.BeginOp? || e.Modify? || e.LogGuard? || e.LogAppend? || e.Brelse? || e.EndOp?)
    ensures |s'.disk| == |s.disk| && |InUse(s')| <= |InUse(s)|
  {
    hide Busy, InUse;
    forall b | Busy(s', b)
      ensures Busy(s, b)
    {
      CallBusy(L, s, e, s', b);
    }
    InUseStays(s, s');
  }

  /** Unless it crashes or ends, a commit keeps its list and pins no more of it. */
  lemma OtherShape(L: Layout, s: State, e: Event, s': State)
    requires Step(L, s, e, s')
    requires e.ReaderPut? || e.CommitWrite? || e.CommitDone? || e.Crash? || e.RecoverWrite? || e.RecoverDone?
    ensures |s'.disk| == |s.disk| && (s'.lh == [] || (s'.lh == s.lh && Unpinned(s) <= Unpinned(s')))
    ensures s'.readers <= s.readers && (s'.ops == s.ops || s'.ops == map[]) && (|s.mem| == |s.disk| ==> |s'.mem| == |s'.disk|)
    ensures s'.phase.Running? || !s.phase.Running? || s'.ops == map[]
    ensures s'.phase.Recovering? ==> s.phase.Recovering? || s'.readers == {}
  {
    hide Encode, RecoveryWrites, GoodHeader, InUse, Unread;
  }

  lemma OtherBusy(s: State, s': State, b: nat)
    requires s'.lh == [] || (s'.lh == s.lh && Unpinned(s) <= Unpinned(s'))
    requires s'.readers <= s.readers && (s'.ops == s.ops || s'.ops == map[]) && Busy(s', b)
    ensures Busy(s, b)
  {
    hide Unpinned;
    if b in s'.lh[Unpinned(s')..] {
      var i :| Unpinned(s') <= i < |s'.lh| && s'.lh[i] == b;
      assert s.lh[Unpinned(s)..][i - Unpinned(s)] == b;
    }
  }

  /** The committer, recovery, a crash and a leaving reader take no buffer. */
  lemma OtherSane(L: Layout, s: State, e: Event, s': State)
    requires Sane(L, s) && Step(L, s, e, s')
    requires e.ReaderPut? || e.CommitWrite? || e.CommitDone? || e.Crash? || e.RecoverWrite? || e.RecoverDone?
    ensures Sane(L, s')
  {
    hide Step, InUse, Busy, Unpinned;
    OtherShape(L, s, e, s');
    forall b | Busy(s', b)
      ensures Busy(s, b)
    {
      OtherBusy(s, s', b);
    }
    InUseStays(s, s');
  }

  lemma StepSane(L: Layout, s: State, e: Event, s': State)
    requires Sane(L, s) && Step(L, s, e, s')
    ensures Sane(L, s') && |s'.disk| == |s.disk|
  {
    hide InUse, Busy;
    if e.Bread? || e.ReaderGet? {
      GetSane(L, s, e, s');
    } else if e.BeginOp? || e.Modify? || e.LogGuard? || e.LogAppend? || e.Brelse? || e.EndOp? {
      CallSane(L, s, e, s');
    } else {
      OtherSane(L, s, e, s');
      OtherShape(L, s, e, s');
    }
  }

  // ---------- Every step keeps the invariant of a safe region ----------

  /** A block stays touched while every modification stays recorded. */
  lemma TouchedStays(s: State, s': State)
    requires forall b :: b in s.lh ==> b in s'.lh
    requires forall t, b :: t in s.ops && b in s.ops[t].modified ==> b in s'.lh || (t in s'.ops && b in s'.ops[t].modified)
    ensures forall b :: Touched(s, b) ==> Touched(s', b)
  {
    forall b | Touched(s, b)
      ensures Touched(s', b)
    {
      if b !in s.lh {
        var t :| t in s.ops && b in s.ops[t].modified;
        assert b in s'.lh || (t in s'.ops && b in s'.ops[t].modified);
      }
    }
  }

  /** Steps of the calls that change neither list nor cache. */
  lemma QuietInv(L: Layout, s: State, e: Event, s': State)
    requires Inv(L, s) && Step(L, s, e, s') && (e.BeginOp? || e.Bread? || e.LogGuard? || e.Brelse?)
    ensures Inv(L, s')
  {
    hide InUse, Sane, GoodHeader;
    StepSane(L, s, e, s');
    TouchedStays(s, s');
  }

  lemma ReaderInv(L: Layout, s: State, e: Event, s': State)
    requires Inv(L, s) && Step(L, s, e, s') && (e.ReaderGet? || e.ReaderPut?)
    ensures Inv(L, s')
  {
    hide InUse, Busy, Sane, CommitWrites, Apply, Encode, InRange, GoodHeader, Entries, Decode;
    StepSane(L, s, e, s');
    TouchedStays(s, s');
  }

  lemma ModifyInv(L: Layout, s: State, t: nat, b: nat, data: Block, s': State)
    requires Inv(L, s) && StepModify(s, t, b, data, s')
    ensures Inv(L, s')
  {
    StepSane(L, s, Modify(t, b, data), s');
    TouchedStays(s, s');
    assert b in s'.ops[t].modified;
  }

  lemma AppendInv(L: Layout, s: State, t: nat, b: nat, s': State)
    requires Inv(L, s) && StepAppend(s, t, b, s')
    ensures Inv(L, s')
  {
    StepSane(L, s, LogAppend(t, b), s');
    TouchedStays(s, s');
  }

  lemma EndInv(L: Layout, s: State, t: nat, s': State)
    requires Inv(L, s) && StepEnd(s, t, s')
    ensures Inv(L, s')
  {
    StepSane(L, s, EndOp(t), s');
    TouchedStays(s, s');
    if s'.ops == map[] && |s.lh| < NBUF {
      CommitInRange(L, s.disk[L.start], s.mem, s.lh);
      assert forall b :: 0 <= b < |s.disk| && b !in s.lh ==> !Touched(s', b);
    }
  }

  /** A commit that can write has a list that leaves a buffer. */
  lemma CommitHasRoom(L: Layout, s: State, s': State)
    requires Inv(L, s) && StepCommit(L, s, s')
    ensures |s.lh| < NBUF && CommittingInv(L, s)
  {
    if |s.lh| >= NBUF {
      ListBound(s);
    }
  }

  /** Read block by block from the cache, a commit makes the writes of its write list. */
  lemma CommitStepIsPlan(L: Layout, s: State)
    requires Inv(L, s) && s.phase.Committing? && s.phase.done < CommitLength(s.lh) && |s.lh| < NBUF
    ensures Listed(L, |s.mem|, s.lh)
    ensures var plan := CommitWrites(L, s.phase.base[L.start], s.mem, s.lh);
            |plan| == CommitLength(s.lh) && CommitStep(L, s.mem, s.lh, s.phase.done) == plan[s.phase.done]
  {
    hide Encode, Apply, InUse, Unpinned;
    var k, n := s.phase.done, |s.lh|;
    var plan := CommitWrites(L, s.phase.base[L.start], s.mem, s.lh);
    assert s.mem[L.start] == s.disk[L.start];
    if n < k <= 2 * n {
      assert plan[k] == HomeWrites(s.mem, s.lh)[k - n - 1];
      assert s.mem[L.start + 1 + (k - n - 1)] == s.disk[L.start + 1 + (k - n - 1)];
    }
  }

  /** The write list depends only on the cached home blocks. */
  lemma PlanDependsOnHomes(L: Layout, hdr: Block, mem: Disk, mem': Disk, lh: seq<nat>)
    requires |mem| <= UINT && Entries(L, |mem|, lh) && SameHome(L, mem, mem')
    ensures CommitWrites(L, hdr, mem', lh) == CommitWrites(L, hdr, mem, lh)
  {
    assert LogWrites(L, mem', lh) == LogWrites(L, mem, lh);
    assert HomeWrites(mem', lh) == HomeWrites(mem, lh);
  }

  /** A commit writes home blocks with what is already cached there. */
  lemma CommitWriteKeepsHomes(L: Layout, s: State, s': State)
    requires Inv(L, s) && StepCommit(L, s, s') && |s.lh| < NBUF
    ensures SameHome(L, s.mem, s'.mem)
  {
    hide Encode, Apply, CommitWrites, Sane, GoodHeader, InUse, Unread;
    var k, n := s.phase.done, |s.lh|;
    if n < k <= 2 * n {
      var i := k - n - 1;
      assert s.mem[L.start + 1 + i] == s.disk[L.start + 1 + i] == s.mem[s.lh[i]];
    }
  }

  /** One more block write of the list reached the disk. */
  lemma CommitWriteDisk(L: Layout, s: State, s': State)
    requires Inv(L, s) && StepCommit(L, s, s') && |s.lh| < NBUF
    ensures SameHome(L, s.mem, s'.mem)
    ensures var base := s.phase.base; var plan := CommitWrites(L, base[L.start], s'.mem, s'.lh);
            && InRange(plan, |base|) && |plan| == CommitLength(s.lh)
            && s'.disk == Apply(base, plan[..s'.phase.done])
  {
    hide Encode, Apply, CommitWrites, CommitStep, Sane;
    CommitWriteKeepsHomes(L, s, s');
    CommitStepIsPlan(L, s);
    var base := s.phase.base;
    ApplyNext(base, CommitWrites(L, base[L.start], s.mem, s.lh), s.phase.done);
    PlanDependsOnHomes(L, base[L.start], s.mem, s'.mem, s.lh);
  }

  /** The log slots written so far show the cached home blocks. */
  lemma CommitWriteSlots(L: Layout, s: State, s': State)
    requires Inv(L, s) && StepCommit(L, s, s') && |s.lh| < NBUF
    ensures forall b :: 0 <= b < |s.disk| && !Home(L, b) ==> s'.mem[b] == s'.disk[b]
    ensures forall i :: 0 <= i < |s.lh| && i < s'.phase.done ==> s'.disk[L.start + 1 + i] == s'.mem[s.lh[i]]
  {
    hide Encode, Apply, CommitWrites, Sane, GoodHeader, InUse, Unread;
    CommitWriteKeepsHomes(L, s, s');
  }

  /** And the header shows how far the commit is. */
  lemma CommitWriteHeader(L: Layout, s: State, s': State)
    requires Inv(L, s) && StepCommit(L, s, s') && |s.lh| < NBUF
    ensures var base, n, k := s.phase.base, |s.lh|, s'.phase.done;
            && (k <= n ==> s'.disk[L.start] == base[L.start])
            && (n < k < CommitLength(s.lh) ==> s'.disk[L.start] == Encode(base[L.start], s.lh))
  {
    hide Encode, Apply, CommitWrites, Sane, GoodHeader, InUse, Unread;
  }

  lemma CommitWriteInv(L: Layout, s: State, s': State)
    requires Inv(L, s) && StepCommit(L, s, s')
    ensures Inv(L, s')
    ensures SameHome(L, s.mem, s'.mem)
  {
    hide Encode, Apply, CommitWrites, CommitStep, Sane, InUse, Unread, GoodHeader, Decode, Entries, InRange;
    CommitHasRoom(L, s, s');
    StepSane(L, s, CommitWrite, s');
    CommitWriteDisk(L, s, s');
    CommitWriteSlots(L, s, s');
    CommitWriteHeader(L, s, s');
  }

  /** When all writes are made the header is empty again. */
  lemma CommitDoneHeader(L: Layout, s: State)
    requires Inv(L, s) && s.phase.Committing? && s.phase.done == CommitLength(s.lh)
    ensures GoodHeader(L, s.disk) && Decode(s.disk[L.start]) == []
  {
    hide Encode;
    assert !Stuck(s);
    var base := s.phase.base;
    var plan := CommitWrites(L, base[L.start], s.mem, s.lh);
    assert plan[..s.phase.done] == plan;
    if s.lh != [] {
      var last := plan[|plan| - 1];
      assert last == Write(L.start, Encode(Encode(base[L.start], s.lh), []));
      assert s.disk[L.start] == last.data;
      HeaderRoundTrip(Encode(base[L.start], s.lh), []);
    }
  }

  lemma CommitDoneInv(L: Layout, s: State, s': State)
    requires Inv(L, s) && s.phase.Committing? && StepDone(s, s')
    ensures Inv(L, s')
  {
    hide CommitWrites, Apply, Encode, Recovered, Decode;
    assert !Stuck(s);
    StepSane(L, s, CommitDone, s');
    CommitDoneHeader(L, s);
    CommitDisk(L, s);
    NothingToReplay(L, s.disk);
  }

  lemma RecoverWriteInv(L: Layout, s: State, s': State)
    requires Inv(L, s) && StepRecover(s, s')
    ensures Inv(L, s')
  {
    ApplyNext(s.phase.base, s.phase.plan, s.phase.done);
  }

  lemma RecoverDoneInv(L: Layout, s: State, s': State)
    requires Inv(L, s) && s.phase.Recovering? && StepDone(s, s')
    ensures Inv(L, s')
  {
    assert s.phase.plan[..s.phase.done] == s.phase.plan;
    RecoveredHeader(L, s.phase.base);
  }

  lemma StepInv(L: Layout, s: State, e: Event, s': State)
    requires Inv(L, s) && Step(L, s, e, s')
    ensures Inv(L, s')
  {
    match e
    case BeginOp(_) => QuietInv(L, s, e, s');
    case Bread(_, _) => QuietInv(L, s, e, s');
    case Modify(t, b, data) => ModifyInv(L, s, t, b, data, s');
    case LogGuard(_) => QuietInv(L, s, e, s');
    case LogAppend(t, b) => AppendInv(L, s, t, b, s');
    case Brelse(_, _) => QuietInv(L, s, e, s');
    case EndOp(t) => EndInv(L, s, t, s');
    case ReaderGet(_) => ReaderInv(L, s, e, s');
    case ReaderPut(_) => ReaderInv(L, s, e, s');
    case CommitWrite => CommitWriteInv(L, s, s');
    case CommitDone => CommitDoneInv(L, s, s');
    case Crash => StepSane(L, s, e, s');
    case RecoverWrite => RecoverWriteInv(L, s, s');
    case RecoverDone => RecoverDoneInv(L, s, s');
  }

  // ---------- Group-commit safety ----------

  /** The step is the first header write of a commit. */
  predicate CommitPoint(s: State, e: Event) {
    e.CommitWrite? && s.phase.Committing? && s.phase.done == |s.lh|
  }

  lemma CommitWriteDurable(L: Layout, s: State, s': State)
    requires Inv(L, s) && StepCommit(L, s, s')
    ensures GoodHeader(L, s.disk) && GoodHeader(L, s'.disk)
    ensures s.phase.done == |s.lh| ==> SameHome(L, Recovered(L, s'.disk), s.mem)
    ensures s.phase.done != |s.lh| ==> SameHome(L, Recovered(L, s'.disk), Recovered(L, s.disk))
  {
    hide Encode, Apply, CommitWrites, CommitStep, Sane, Recovered;
    CommitHasRoom(L, s, s');
    CommitWriteInv(L, s, s');
    CommitDisk(L, s);
    CommitDisk(L, s');
  }

  lemma RecoverWriteDurable(L: Layout, s: State, s': State)
    requires Inv(L, s) && StepRecover(s, s')
    ensures GoodHeader(L, s.disk) && GoodHeader(L, s'.disk)
    ensures SameHome(L, Recovered(L, s'.disk), Recovered(L, s.disk))
  {
    hide Sane, Recovered, RecoveryWrites, Apply;
    RecoverWriteInv(L, s, s');
    RecoveryPrefix(L, s.phase.base, s.phase.done);
    RecoveryPrefix(L, s.phase.base, s'.phase.done);
  }

  /**
   What a crash would recover changes only at a commit point, where it becomes
   the cached disk of a moment with no call in progress.
   */
  lemma StepDurable(L: Layout, s: State, e: Event, s': State)
    requires Inv(L, s) && Step(L, s, e, s')
    ensures GoodHeader(L, s.disk) && GoodHeader(L, s'.disk)
    ensures CommitPoint(s, e) ==> s.ops == map[] && SameHome(L, Recovered(L, s'.disk), s.mem)
    ensures !CommitPoint(s, e) ==> SameHome(L, Recovered(L, s'.disk), Recovered(L, s.disk))
  {
    InvGoodHeader(L, s);
    if e.CommitWrite? {
      CommitWriteDurable(L, s, s');
    } else if e.RecoverWrite? {
      RecoverWriteDurable(L, s, s');
    } else {
      assert s'.disk == s.disk;
    }
  }

  lemma {:induction false} BehaviorSane(L: Layout, ss: seq<State>, es: seq<Event>, j: nat)
    requires Behavior(L, ss, es) && j < |ss|
    ensures Sane(L, ss[j]) && |ss[j].disk| == |ss[0].disk|
  {
    if j == 0 {
      InitInv(L, ss[0]);
    } else {
      BehaviorSane(L, ss, es, j - 1);
      StepSane(L, ss[j - 1], es[j - 1], ss[j]);
    }
  }

  lemma {:induction false} BehaviorInv(L: Layout, ss: seq<State>, es: seq<Event>, j: nat)
    requires SafeRegion(L) && Behavior(L, ss, es) && j < |ss|
    ensures Inv(L, ss[j]) && GoodHeader(L, ss[j].disk)
  {
    if j == 0 {
      InitInv(L, ss[0]);
    } else {
      BehaviorInv(L, ss, es, j - 1);
      StepInv(L, ss[j - 1], es[j - 1], ss[j]);
    }
    InvGoodHeader(L, ss[j]);
  }

  lemma InitDurable(L: Layout, s: State)
    requires Init(L, s)
    ensures s.ops == map[] && GoodHeader(L, s.disk) && SameHome(L, Recovered(L, s.disk), s.mem)
  {
    NothingToReplay(L, s.disk);
  }

  lemma DurableChange(L: Layout, ss: seq<State>, es: seq<Event>, j: nat)
    requires SafeRegion(L) && Behavior(L, ss, es) && j < |es|
    ensures GoodHeader(L, ss[j].disk) && GoodHeader(L, ss[j + 1].disk)
    ensures CommitPoint(ss[j], es[j]) ==> ss[j].ops == map[] && SameHome(L, Recovered(L, ss[j + 1].disk), ss[j].mem)
    ensures !CommitPoint(ss[j], es[j]) ==> SameHome(L, Recovered(L, ss[j + 1].disk), Recovered(L, ss[j].disk))
  {
    BehaviorInv(L, ss, es, j);
    StepDurable(L, ss[j], es[j], ss[j + 1]);
  }

  /**
   A crash at moment j recovers the cached disk of moment i: the start of the
   run or the last commit point before j, with no call in progress.
   */
  ghost predicate RecoversTo(L: Layout, ss: seq<State>, es: seq<Event>, j: nat, i: nat)
    requires |ss| == |es| + 1 && j < |ss|
  {
    && i <= j && ss[i].ops == map[]
    && (i == 0 || (i < j && CommitPoint(ss[i], es[i])))
    && (forall c :: i < c < j ==> !CommitPoint(ss[c], es[c]))
    && GoodHeader(L, ss[j].disk) && SameHome(L, Recovered(L, ss[j].disk), ss[i].mem)
  }

  /** Group-commit safety, for every behaviour over a safe region and every moment. */
  lemma {:induction false} GroupCommitSafety(L: Layout, ss: seq<State>, es: seq<Event>, j: nat) returns (i: nat)
    requires SafeRegion(L) && Behavior(L, ss, es) && j < |ss|
    ensures RecoversTo(L, ss, es, j, i)
  {
    hide Step, Init, GoodHeader, Recovered, CommitPoint;
    if j == 0 {
      InitDurable(L, ss[0]);
      i := 0;
    } else {
      DurableChange(L, ss, es, j - 1);
      if CommitPoint(ss[j - 1], es[j - 1]) {
        i := j - 1;
      } else {
        i := GroupCommitSafety(L, ss, es, j - 1);
      }
    }
  }

  /** When recovery finishes, the cache and the disk both hold what was recoverable. */
  lemma RecoveryYieldsDurable(L: Layout, s: State, s': State)
    requires Inv(L, s) && Step(L, s, RecoverDone, s')
    ensures GoodHeader(L, s.disk)
    ensures s'.mem == s'.disk && SameHome(L, s'.mem, Recovered(L, s.disk))
    ensures s'.ops == map[] && s'.lh == []
  {
    InvGoodHeader(L, s);
    RecoverDoneInv(L, s, s');
    NothingToReplay(L, s'.disk);
  }

  /** end_op's check for a commit in progress never fires: calls run only between commits. */
  lemma NoCallDuringCommit(L: Layout, ss: seq<State>, es: seq<Event>, j: nat, t: nat)
    requires Behavior(L, ss, es) && j < |ss| && t in ss[j].ops
    ensures ss[j].phase.Running?
  {
    BehaviorSane(L, ss, es, j);
  }

  // ---------- Pins and readers during a commit ----------

  /** A listed block is pinned exactly until install_trans has written it home. */
  lemma PinnedUntilHome(L: Layout, s: State, i: nat)
    requires Sane(L, s) && s.phase.Committing? && s.phase.done <= CommitLength(s.lh) && Listed(L, |s.mem|, s.lh) && i < |s.lh|
    requires 1 <= L.size
    ensures s.lh[i] in s.lh[Unpinned(s)..]
            <==> forall k :: |s.lh| < k < s.phase.done ==> CommitStep(L, s.mem, s.lh, k).bno != s.lh[i]
  {
    hide InUse, OpsOk;
    var n := |s.lh|;
    if i < Unpinned(s) {
      assert CommitStep(L, s.mem, s.lh, n + 1 + i).bno == s.lh[i];
      assert s.lh[i] !in s.lh[Unpinned(s)..];
    } else {
      assert s.lh[Unpinned(s)..][i - Unpinned(s)] == s.lh[i];
      assert Home(L, s.lh[i]);
    }
  }

  /**
   With a buffer to spare a commit can make its next write exactly when no
   reader holds the block it copies into the log or the block it writes.
   */
  lemma CommitWaitsExactly(L: Layout, s: State)
    requires Sane(L, s) && s.phase.Committing? && s.phase.done < CommitLength(s.lh) && Listed(L, |s.mem|, s.lh)
    requires |InUse(s)| < NBUF && |s.lh| < L.size && forall b :: b in s.readers ==> Home(L, b)
    ensures (exists s' :: StepCommit(L, s, s'))
            <==> forall b :: b in s.readers ==>
                   b != CommitStep(L, s.mem, s.lh, s.phase.done).bno && (s.phase.done < |s.lh| ==> b != s.lh[s.phase.done])
  {
    hide InUse, OpsOk, Encode;
    var w := CommitStep(L, s.mem, s.lh, s.phase.done);
    var s' := s.(disk := s.disk[w.bno := w.data], mem := s.mem[w.bno := w.data],
                 phase := Committing(s.phase.base, s.phase.done + 1));
    assert Unread(s) ==> StepCommit(L, s, s');
    assert Unread(s) <==> forall b :: b in s.readers ==> b != w.bno && (s.phase.done < |s.lh| ==> b != s.lh[s.phase.done]) by {
      UnreadExactly(L, s);
    }
  }

  lemma UnreadExactly(L: Layout, s: State)
    requires Distinct(s.lh) && s.phase.Committing? && s.phase.done < CommitLength(s.lh) && Listed(L, |s.mem|, s.lh)
    requires |s.lh| < L.size && forall b :: b in s.readers ==> Home(L, b)
    ensures Unread(s) <==> forall b :: b in s.readers ==>
              b != CommitStep(L, s.mem, s.lh, s.phase.done).bno && (s.phase.done < |s.lh| ==> b != s.lh[s.phase.done])
  {
    hide Encode;
    var n, k := |s.lh|, s.phase.done;
    assert k < n ==> 0 <= k < n && k == s.phase.done;
    assert n < k <= 2 * n ==> 0 <= k - n - 1 < n;
  }

  // ---------- Reachable states ----------

  /** State s is reached by some behaviour that starts on disk d. */
  ghost predicate Reachable(L: Layout, d: Disk, s: State) {
    exists ss: seq<State>, es: seq<Event> :: ReachedBy(L, d, s, ss, es)
  }

  ghost predicate ReachedBy(L: Layout, d: Disk, s: State, ss: seq<State>, es: seq<Event>) {
    Behavior(L, ss, es) && ss[0].disk == d && ss[|es|] == s
  }

  lemma ReachableSane(L: Layout, d: Disk, s: State)
    requires Reachable(L, d, s)
    ensures Sane(L, s) && |s.disk| == |d|
  {
    var ss: seq<State>, es: seq<Event> :| ReachedBy(L, d, s, ss, es);
    BehaviorSane(L, ss, es, |es|);
  }

  lemma ReachableInv(L: Layout, d: Disk, s: State)
    requires SafeRegion(L) && Reachable(L, d, s)
    ensures Inv(L, s)
  {
    var ss: seq<State>, es: seq<Event> :| ReachedBy(L, d, s, ss, es);
    BehaviorInv(L, ss, es, |es|);
  }
}
