/** The mutex table of mutex.c: what the calls do while they hold mxtable.lock. */
module Mutex {

  const MAX_MUTEXES: nat := 64

  datatype MxState = FREE | LOCKED | UNLOCKED

  /** kthread_mutex_t; owner 0 stands for no thread. */
  datatype Mx = Mx(state: MxState, mxid: int, owner: nat)

  /** The first slot at or after i whose mxid is id, |tab| if there is none. */
  function Find(tab: seq<Mx>, id: int, i: nat): (r: nat)
    requires i <= |tab|
    ensures i <= r <= |tab|
    ensures r < |tab| ==> tab[r].mxid == id
    ensures forall k :: i <= k < r ==> tab[k].mxid != id
    decreases |tab| - i
  {
    if i == |tab| || tab[i].mxid == id then i else Find(tab, id, i + 1)
  }

  /** Free slots have id 0; the ids in use are positive, distinct and below the next one. */
  ghost predicate TableOk(tab: seq<Mx>, next: int) {
    && next >= 1
    && (forall i :: 0 <= i < |tab| ==> (tab[i].state == FREE <==> tab[i].mxid == 0) && 0 <= tab[i].mxid < next)
    && forall i, j :: 0 <= i < j < |tab| && tab[i].mxid != 0 ==> tab[i].mxid != tab[j].mxid
  }

  ghost predicate HasFree(tab: seq<Mx>) {
    exists i :: 0 <= i < |tab| && tab[i].state == FREE
  }

  /** Some slot is allocated under this id. */
  ghost predicate Allocated(tab: seq<Mx>, id: int) {
    exists i :: 0 <= i < |tab| && tab[i].mxid == id && tab[i].state != FREE
  }

  datatype LockResult = NotFound | PanicFree | MustSleep | Acquired

  // ---------- The calls on values ----------

  /** kthread_mutex_unlock: the state is compared with UNLOCKED only. */
  function DoUnlock(tab: seq<Mx>, id: int): (seq<Mx>, bool) {
    var i := Find(tab, id, 0);
    if i == |tab| || tab[i].state == UNLOCKED then (tab, false)
    else (tab[i := tab[i].(state := UNLOCKED, owner := 0)], true)
  }

  function DoDealloc(tab: seq<Mx>, id: int): (seq<Mx>, bool) {
    var i := Find(tab, id, 0);
    if i == |tab| || tab[i].state == LOCKED then (tab, false)
    else (tab[i := Mx(FREE, 0, 0)], true)
  }

  /** One pass of kthread_mutex_lock. */
  function DoLock(tab: seq<Mx>, id: int, thread: nat): (seq<Mx>, LockResult) {
    var i := Find(tab, id, 0);
    if i == |tab| then (tab, NotFound)
    else if tab[i].state == FREE then (tab, PanicFree)
    else if tab[i].state == LOCKED then (tab, MustSleep)
    else (tab[i := tab[i].(state := LOCKED, owner := thread)], Acquired)
  }

  /**
   The retry of a thread that slept in kthread_mutex_lock: the exchange is on
   the slot it found before, whatever that slot is now.
   */
  function DoRetry(tab: seq<Mx>, i: nat, thread: nat): (seq<Mx>, bool)
    requires i < |tab|
  {
    if tab[i].state == LOCKED then (tab, false) else (tab[i := tab[i].(state := LOCKED, owner := thread)], true)
  }

  /** The first free slot at or after i, |tab| if there is none. */
  function FindFree(tab: seq<Mx>, i: nat): (r: nat)
    requires i <= |tab|
    ensures i <= r <= |tab|
    ensures r < |tab| ==> tab[r].state == FREE
    ensures forall k :: i <= k < r ==> tab[k].state != FREE
    decreases |tab| - i
  {
    if i == |tab| || tab[i].state == FREE then i else FindFree(tab, i + 1)
  }

  function DoAlloc(tab: seq<Mx>, next: int): (seq<Mx>, int) {
    var i := FindFree(tab, 0);
    if i == |tab| then (tab, -1) else (tab[i := Mx(UNLOCKED, next, 0)], next)
  }

  // ---------- What the calls keep ----------

  lemma FindAllocated(tab: seq<Mx>, next: int, id: int)
    requires TableOk(tab, next)
    ensures id != 0 ==> (Find(tab, id, 0) < |tab| <==> Allocated(tab, id))
    ensures id == 0 ==> (Find(tab, id, 0) < |tab| <==> HasFree(tab))
  {
  }

  /**
   Unlocking keeps the table in order exactly when the id is not 0 or no slot
   is free: id 0 finds a FREE slot and marks it UNLOCKED.
   */
  lemma UnlockKeepsExactly(tab: seq<Mx>, next: int, id: int)
    requires TableOk(tab, next)
    ensures TableOk(DoUnlock(tab, id).0, next) <==> id != 0 || !HasFree(tab)
  {
    FindAllocated(tab, next, id);
    var i := Find(tab, id, 0);
    if id == 0 && HasFree(tab) {
      var tab' := DoUnlock(tab, id).0;
      assert tab'[i].state == UNLOCKED && tab'[i].mxid == 0;
    }
  }

  /** Unlocking id 0 of the table at boot succeeds and leaves slot 0 unlocked without an id. */
  lemma UnlockZeroAtBoot()
    ensures var tab := seq(MAX_MUTEXES, _ => Mx(FREE, 0, 0));
            TableOk(tab, 1) && DoUnlock(tab, 0) == (tab[0 := Mx(UNLOCKED, 0, 0)], true) && !TableOk(DoUnlock(tab, 0).0, 1)
  {
    var tab := seq(MAX_MUTEXES, _ => Mx(FREE, 0, 0));
    assert tab[0].state == FREE;
    UnlockKeepsExactly(tab, 1, 0);
  }

  /** A mutex id that was never allocated, or was freed, is refused by unlock exactly when it is not 0 or nothing is free. */
  lemma UnlockRefusesExactly(tab: seq<Mx>, next: int, id: int)
    requires TableOk(tab, next) && !Allocated(tab, id)
    ensures !DoUnlock(tab, id).1 <==> id != 0 || !HasFree(tab)
  {
    FindAllocated(tab, next, id);
  }

  lemma LockKeeps(tab: seq<Mx>, next: int, id: int, thread: nat)
    requires TableOk(tab, next)
    ensures TableOk(DoLock(tab, id, thread).0, next)
    ensures DoLock(tab, id, thread).1.PanicFree? <==> id == 0 && HasFree(tab)
    ensures DoLock(tab, id, thread).1.NotFound? <==> if id == 0 then !HasFree(tab) else !Allocated(tab, id)
  {
    FindAllocated(tab, next, id);
  }

  lemma DeallocKeeps(tab: seq<Mx>, next: int, id: int)
    requires TableOk(tab, next)
    ensures TableOk(DoDealloc(tab, id).0, next)
    ensures DoDealloc(tab, id).1 && id != 0 ==> Allocated(tab, id) && !Allocated(DoDealloc(tab, id).0, id)
  {
    FindAllocated(tab, next, id);
    var i, tab' := Find(tab, id, 0), DoDealloc(tab, id).0;
    if DoDealloc(tab, id).1 && id != 0 {
      assert forall k :: 0 <= k < |tab'| && k != i ==> tab'[k] == tab[k];
    }
  }

  /** Lock then unlock of a free mutex restores the table. */
  lemma LockThenUnlock(tab: seq<Mx>, next: int, id: int, thread: nat)
    requires TableOk(tab, next) && DoLock(tab, id, thread).1.Acquired?
    ensures DoUnlock(DoLock(tab, id, thread).0, id).1
    ensures tab[Find(tab, id, 0)].owner == 0 ==> DoUnlock(DoLock(tab, id, thread).0, id).0 == tab
  {
    var i, tab' := Find(tab, id, 0), DoLock(tab, id, thread).0;
    assert forall k :: 0 <= k < |tab| ==> tab'[k].mxid == tab[k].mxid;
    assert Find(tab', id, 0) == i;
  }

  /**
   A retry keeps the table in order exactly when the slot has not been freed
   while the thread slept: the exchange locks a FREE slot too.
   */
  lemma RetryKeepsExactly(tab: seq<Mx>, next: int, i: nat, thread: nat)
    requires TableOk(tab, next) && i < |tab|
    ensures TableOk(DoRetry(tab, i, thread).0, next) <==> tab[i].state != FREE
  {
    var tab' := DoRetry(tab, i, thread).0;
    if tab[i].state == FREE {
      assert tab'[i].state == LOCKED && tab'[i].mxid == 0;
    }
  }

  /**
   Thread 7 sleeps on the mutex that thread 5 holds; unlock and dealloc both
   succeed before it runs again, and it then holds a slot that has no id.
   */
  lemma RetryAfterDealloc()
    ensures var tab := seq(MAX_MUTEXES, _ => Mx(FREE, 0, 0));
            var held := tab[0 := Mx(LOCKED, 1, 5)];
            && DoAlloc(tab, 1) == (tab[0 := Mx(UNLOCKED, 1, 0)], 1)
            && DoLock(DoAlloc(tab, 1).0, 1, 5) == (held, Acquired)
            && DoLock(held, 1, 7) == (held, MustSleep)
            && DoUnlock(held, 1) == (tab[0 := Mx(UNLOCKED, 1, 0)], true)
            && DoDealloc(DoUnlock(held, 1).0, 1) == (tab, true)
            && DoRetry(tab, 0, 7) == (tab[0 := Mx(LOCKED, 0, 7)], true) && !TableOk(DoRetry(tab, 0, 7).0, 2)
  {
    var tab := seq(MAX_MUTEXES, _ => Mx(FREE, 0, 0));
    var held := tab[0 := Mx(LOCKED, 1, 5)];
    assert tab[0 := Mx(UNLOCKED, 1, 0)][0 := Mx(LOCKED, 1, 5)] == held;
    assert held[0 := Mx(UNLOCKED, 1, 0)] == tab[0 := Mx(UNLOCKED, 1, 0)];
    assert tab[0 := Mx(UNLOCKED, 1, 0)][0 := Mx(FREE, 0, 0)] == tab;
    assert TableOk(tab, 2);
    RetryKeepsExactly(tab, 2, 0, 7);
  }

  // ---------- Mutual exclusion ----------

  datatype Call = Alloc | Dealloc(id: int) | Lock(id: int, thread: nat) | Retry(slot: nat, thread: nat) | Unlock(id: int)

  datatype Table = Table(tab: seq<Mx>, next: int)

  function Next(m: Table, c: Call): Table
    requires c.Retry? ==> c.slot < |m.tab|
  {
    match c
    case Alloc => Table(DoAlloc(m.tab, m.next).0, if DoAlloc(m.tab, m.next).1 == -1 then m.next else m.next + 1)
    case Dealloc(id) => m.(tab := DoDealloc(m.tab, id).0)
    case Lock(id, thread) => m.(tab := DoLock(m.tab, id, thread).0)
    case Retry(slot, thread) => m.(tab := DoRetry(m.tab, slot, thread).0)
    case Unlock(id) => m.(tab := DoUnlock(m.tab, id).0)
  }

  /** The call makes its thread the holder of mutex id. */
  predicate Takes(m: Table, c: Call, id: int) {
    || (c.Lock? && c.id == id && DoLock(m.tab, id, c.thread).1.Acquired?)
    || (c.Retry? && c.slot < |m.tab| && m.tab[c.slot].mxid == id && DoRetry(m.tab, c.slot, c.thread).1)
  }

  predicate Gives(m: Table, c: Call, id: int) {
    c.Unlock? && c.id == id && DoUnlock(m.tab, id).1
  }

  /** Ids in use are distinct and below the next one, in order or not. */
  ghost predicate Unique(m: Table) {
    && m.next >= 1
    && (forall i :: 0 <= i < |m.tab| ==> m.tab[i].mxid < m.next)
    && forall i, j :: 0 <= i < j < |m.tab| && m.tab[i].mxid != 0 ==> m.tab[i].mxid != m.tab[j].mxid
  }

  ghost predicate Held(m: Table, id: int) {
    exists i :: 0 <= i < |m.tab| && m.tab[i].mxid == id && m.tab[i].state == LOCKED
  }

  ghost predicate Calls(ms: seq<Table>, cs: seq<Call>) {
    && |ms| == |cs| + 1 && Unique(ms[0])
    && forall i :: 0 <= i < |cs| ==> (cs[i].Retry? ==> cs[i].slot < |ms[i].tab|) && ms[i + 1] == Next(ms[i], cs[i])
  }

  lemma NextUnique(m: Table, c: Call)
    requires Unique(m) && (c.Retry? ==> c.slot < |m.tab|)
    ensures Unique(Next(m, c))
  {
  }

  /** A held mutex is taken by nobody, and stays held until an unlock of its id succeeds. */
  lemma HeldStays(m: Table, c: Call, id: int)
    requires Unique(m) && (c.Retry? ==> c.slot < |m.tab|) && id != 0 && Held(m, id)
    ensures !Takes(m, c, id)
    ensures Held(Next(m, c), id) || Gives(m, c, id)
  {
    var i :| 0 <= i < |m.tab| && m.tab[i].mxid == id && m.tab[i].state == LOCKED;
    assert Find(m.tab, id, 0) == i;
    if !Gives(m, c, id) {
      assert Next(m, c).tab[i] == m.tab[i];
    }
  }

  lemma TakesHolds(m: Table, c: Call, id: int)
    requires Takes(m, c, id)
    ensures c.Retry? ==> c.slot < |m.tab|
    ensures Held(Next(m, c), id)
  {
    var i := if c.Lock? then Find(m.tab, id, 0) else c.slot;
    assert Next(m, c).tab[i].mxid == id && Next(m, c).tab[i].state == LOCKED;
  }

  lemma {:induction false} CallsUnique(ms: seq<Table>, cs: seq<Call>, j: nat)
    requires Calls(ms, cs) && j < |ms|
    ensures Unique(ms[j])
  {
    hide Unique;
    if j > 0 {
      CallsUnique(ms, cs, j - 1);
      NextUnique(ms[j - 1], cs[j - 1]);
    }
  }

  lemma {:induction false} HeldUntil(ms: seq<Table>, cs: seq<Call>, id: int, i: nat, j: nat)
    requires Calls(ms, cs) && id != 0 && i < j < |ms| && Takes(ms[i], cs[i], id)
    requires forall k :: i < k < j ==> !Gives(ms[k], cs[k], id)
    ensures Held(ms[j], id)
  {
    hide Unique, Held, Takes, Gives, Next;
    if j == i + 1 {
      TakesHolds(ms[i], cs[i], id);
    } else {
      HeldUntil(ms, cs, id, i, j - 1);
      CallsUnique(ms, cs, j - 1);
      HeldStays(ms[j - 1], cs[j - 1], id);
    }
  }

  /**
   Mutual exclusion over every sequence of calls and retries, whatever ids they
   name: between two calls that take a mutex an unlock of it has succeeded.
   */
  lemma MutualExclusion(ms: seq<Table>, cs: seq<Call>, id: int, i: nat, j: nat)
    requires Calls(ms, cs) && id != 0 && i < j < |cs| && Takes(ms[i], cs[i], id) && Takes(ms[j], cs[j], id)
    ensures exists k :: i < k < j && Gives(ms[k], cs[k], id)
  {
    if forall k :: i < k < j ==> !Gives(ms[k], cs[k], id) {
      HeldUntil(ms, cs, id, i, j);
      CallsUnique(ms, cs, j);
      HeldStays(ms[j], cs[j], id);
    }
  }

  // ---------- mutex.c ----------

  /** Outside slot i nothing changed. */
  ghost predicate OnlySlot(tab: seq<Mx>, tab': seq<Mx>, i: nat) {
    |tab| == |tab'| && forall k :: 0 <= k < |tab| && k != i ==> tab'[k] == tab[k]
  }

  /** What lock answers for the id of slot i, and the slot afterwards. */
  ghost predicate LockAnswer(tab: seq<Mx>, i: nat, thread: nat, tab': seq<Mx>, r: LockResult)
    requires i < |tab|
  {
    && (r.Acquired? <==> tab[i].state == UNLOCKED) && (r.MustSleep? <==> tab[i].state == LOCKED)
    && OnlySlot(tab, tab', i) && tab'[i] == if r.Acquired? then Mx(LOCKED, tab[i].mxid, thread) else tab[i]
  }

  /** The like for unlock and for dealloc: they succeed from one state and leave the given slot. */
  ghost predicate ChangeAnswer(tab: seq<Mx>, i: nat, from: MxState, slot: Mx, tab': seq<Mx>, ok: bool)
    requires i < |tab|
  {
    (ok <==> tab[i].state == from) && OnlySlot(tab, tab', i) && tab'[i] == if ok then slot else tab[i]
  }

  class MutexTable {
    const mutex: array<Mx>
    var nextmxid: int

    ghost predicate Valid()
      reads this, mutex
    {
      mutex.Length == MAX_MUTEXES && TableOk(mutex[..], nextmxid)
    }

    constructor ()
      ensures Valid() && fresh(mutex) && nextmxid == 1 && forall i :: 0 <= i < MAX_MUTEXES ==> mutex[i] == Mx(FREE, 0, 0)
    {
      mutex := new Mx[MAX_MUTEXES](_ => Mx(FREE, 0, 0));
      nextmxid := 1;
    }

    /** The scan that lock, unlock and dealloc share. */
    method Scan(id: int) returns (i: nat)
      requires mutex.Length == MAX_MUTEXES
      ensures i == Find(mutex[..], id, 0)
    {
      i := 0;
      while i < MAX_MUTEXES && mutex[i].mxid != id
        invariant 0 <= i <= MAX_MUTEXES
        invariant Find(mutex[..], id, 0) == Find(mutex[..], id, i)
      {
        i := i + 1;
      }
    }

    /** kthread_mutex_alloc: a fresh id for the first free slot, -1 when there is none. */
    method Alloc() returns (id: int)
      requires Valid()
      modifies this`nextmxid, mutex
      ensures Valid()
      ensures id == -1 <==> !HasFree(old(mutex[..]))
      ensures id == -1 ==> mutex[..] == old(mutex[..]) && nextmxid == old(nextmxid)
      ensures id != -1 ==>
                && id == old(nextmxid) && nextmxid == id + 1
                && !Allocated(old(mutex[..]), id) && Allocated(mutex[..], id)
                && exists i :: 0 <= i < MAX_MUTEXES && mutex[i] == Mx(UNLOCKED, id, 0) && old(mutex[i].state) == FREE
                               && OnlySlot(old(mutex[..]), mutex[..], i) && forall k :: 0 <= k < i ==> mutex[k].state != FREE
      ensures (mutex[..], id) == DoAlloc(old(mutex[..]), old(nextmxid))
      ensures Table(mutex[..], nextmxid) == Next(Table(old(mutex[..]), old(nextmxid)), Call.Alloc)
    {
      var i := 0;
      while i < MAX_MUTEXES && mutex[i].state != FREE
        invariant 0 <= i <= MAX_MUTEXES
        invariant forall k :: 0 <= k < i ==> mutex[k].state != FREE
        invariant FindFree(mutex[..], 0) == FindFree(mutex[..], i)
      {
        i := i + 1;
      }
      if i == MAX_MUTEXES {
        return -1;
      }
      assert mutex[..][i].state == FREE;
      mutex[i] := Mx(UNLOCKED, nextmxid, 0);
      id := nextmxid;
      nextmxid := nextmxid + 1;
      assert mutex[..][i].mxid == id && mutex[..][i].state != FREE;
    }

    method Dealloc(id: int) returns (ok: bool)
      requires Valid()
      modifies mutex
      ensures Valid() && (mutex[..], ok) == DoDealloc(old(mutex[..]), id)
      ensures forall i :: 0 <= i < MAX_MUTEXES && id != 0 && old(mutex[i].mxid) == id ==>
                ChangeAnswer(old(mutex[..]), i, UNLOCKED, Mx(FREE, 0, 0), mutex[..], ok)
      ensures id != 0 && !Allocated(old(mutex[..]), id) ==> !ok && mutex[..] == old(mutex[..])
    {
      DeallocKeeps(mutex[..], nextmxid, id);
      var i := Scan(id);
      if i == MAX_MUTEXES || mutex[i].state == LOCKED {
        return false;
      }
      mutex[i] := Mx(FREE, 0, 0);
      return true;
    }

    /** One pass of the lock loop; MustSleep means sleep on the slot and try again. */
    method Lock(id: int, thread: nat) returns (r: LockResult)
      requires Valid()
      modifies mutex
      ensures Valid() && (mutex[..], r) == DoLock(old(mutex[..]), id, thread)
      ensures forall i :: 0 <= i < MAX_MUTEXES && id != 0 && old(mutex[i].mxid) == id ==>
                LockAnswer(old(mutex[..]), i, thread, mutex[..], r)
      ensures id != 0 ==> (r.NotFound? <==> !Allocated(old(mutex[..]), id)) && !r.PanicFree?
      ensures id == 0 ==> (r.PanicFree? <==> HasFree(old(mutex[..]))) && (r.NotFound? <==> !HasFree(old(mutex[..])))
      ensures !r.Acquired? ==> mutex[..] == old(mutex[..])
    {
      LockKeeps(mutex[..], nextmxid, id, thread);
      var i := Scan(id);
      if i == MAX_MUTEXES {
        return NotFound;
      }
      if mutex[i].state == FREE {
        return PanicFree;
      }
      if mutex[i].state == LOCKED {
        return MustSleep;
      }
      mutex[i] := mutex[i].(state := LOCKED, owner := thread);
      return Acquired;
    }

    /** The exchange after a sleep, on the slot found before; !ok means sleep again. */
    method Retry(i: nat, thread: nat) returns (ok: bool)
      requires Valid() && i < MAX_MUTEXES
      modifies mutex
      ensures ok <==> old(mutex[i].state) != LOCKED
      ensures mutex[i] == (if ok then Mx(LOCKED, old(mutex[i].mxid), thread) else old(mutex[i])) && OnlySlot(old(mutex[..]), mutex[..], i)
      ensures (mutex[..], ok) == DoRetry(old(mutex[..]), i, thread)
      ensures mutex.Length == MAX_MUTEXES && (Valid() <==> old(mutex[i].state) != FREE)
    {
      RetryKeepsExactly(mutex[..], nextmxid, i, thread);
      if mutex[i].state == LOCKED {
        return false;
      }
      mutex[i] := mutex[i].(state := LOCKED, owner := thread);
      return true;
    }

    method Unlock(id: int) returns (ok: bool)
      requires Valid()
      modifies mutex
      ensures (mutex[..], ok) == DoUnlock(old(mutex[..]), id)
      ensures mutex.Length == MAX_MUTEXES && (Valid() <==> id != 0 || !HasFree(old(mutex[..])))
      ensures forall i :: 0 <= i < MAX_MUTEXES && id != 0 && old(mutex[i].mxid) == id ==>
                ChangeAnswer(old(mutex[..]), i, LOCKED, Mx(UNLOCKED, id, 0), mutex[..], ok)
      ensures id != 0 && !Allocated(old(mutex[..]), id) ==> !ok && mutex[..] == old(mutex[..])
    {
      UnlockKeepsExactly(mutex[..], nextmxid, id);
      var i := Scan(id);
      if i == MAX_MUTEXES || mutex[i].state == UNLOCKED {
        return false;
      }
      mutex[i] := mutex[i].(state := UNLOCKED, owner := 0);
      return true;
    }
  }
}
