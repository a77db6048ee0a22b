/**
 Crash semantics of the redo log (log.c).

 A disk is a sequence of blocks with atomic block writes.  Committing and
 recovering are lists of block writes; a crash keeps a prefix of the list.
 */
module LogCrash {
  import opened Blocks
  import opened Collections

  // The sizes of param.h.
  const MAXOPBLOCKS: nat := 10
  const LOGSIZE: nat := 30
  const NBUF: nat := 30

  /** The log region: a header block at `start`, then size - 1 slots. */
  datatype Layout = Layout(start: nat, size: nat)

  datatype Write = Write(bno: nat, data: Block)

  ghost predicate Fits(L: Layout, d: Disk) {
    1 <= L.size && L.start + L.size <= |d| <= UINT
  }

  predicate Home(L: Layout, b: nat) {
    b < L.start || L.start + L.size <= b
  }

  /** A list of logged block numbers that fits the log region of a disk of n blocks. */
  ghost predicate Entries(L: Layout, n: nat, lh: seq<nat>) {
    && |lh| <= LOGSIZE
    && |lh| < L.size
    && Distinct(lh)
    && forall i :: 0 <= i < |lh| ==> lh[i] < n && Home(L, lh[i])
  }

  /** The two disks agree on every block outside the log region. */
  ghost predicate SameHome(L: Layout, d: Disk, e: Disk) {
    |d| == |e| && forall b :: 0 <= b < |d| && Home(L, b) ==> d[b] == e[b]
  }

  // ---------- The header block ----------

  ghost predicate AllWords(lh: seq<nat>) {
    forall i :: 0 <= i < |lh| ==> lh[i] < UINT
  }

  /** The header after its count and first i entries are stored; later words keep their old value. */
  ghost function EncodeUpTo(b: Block, lh: seq<nat>, i: nat): Block
    requires |lh| <= LOGSIZE && i <= |lh| && AllWords(lh)
  {
    if i == 0 then SetWord(b, 0, |lh|) else SetWord(EncodeUpTo(b, lh, i - 1), i, lh[i - 1])
  }

  ghost function Encode(b: Block, lh: seq<nat>): Block
    requires |lh| <= LOGSIZE && AllWords(lh)
  {
    EncodeUpTo(b, lh, |lh|)
  }

  function Decode(b: Block): seq<nat>
    requires GetWord(b, 0) <= LOGSIZE
  {
    seq(GetWord(b, 0), i requires 0 <= i < LOGSIZE => GetWord(b, i + 1))
  }

  lemma {:induction false} EncodedWord(b: Block, lh: seq<nat>, i: nat, k: nat)
    requires |lh| <= LOGSIZE && i <= |lh| && k < WORDS && AllWords(lh)
    ensures GetWord(EncodeUpTo(b, lh, i), k) ==
            if k == 0 then |lh| else if k <= i then lh[k - 1] else GetWord(b, k)
  {
    if i == 0 {
      GetSetWord(b, 0, |lh|, k);
    } else {
      EncodedWord(b, lh, i - 1, k);
      GetSetWord(EncodeUpTo(b, lh, i - 1), i, lh[i - 1], k);
    }
  }

  /** write_head then read_head gives the list back, whatever the block held before. */
  lemma {:induction false} HeaderRoundTrip(b: Block, lh: seq<nat>)
    requires |lh| <= LOGSIZE && AllWords(lh)
    ensures GetWord(Encode(b, lh), 0) == |lh|
    ensures Decode(Encode(b, lh)) == lh
  {
    EncodedWord(b, lh, |lh|, 0);
    forall k | 0 <= k < |lh|
      ensures Decode(Encode(b, lh))[k] == lh[k]
    {
      EncodedWord(b, lh, |lh|, k + 1);
    }
  }

  // ---------- Lists of block writes ----------

  predicate InRange(ws: seq<Write>, n: nat) {
    forall i :: 0 <= i < |ws| ==> ws[i].bno < n
  }

  function Apply(d: Disk, ws: seq<Write>): (e: Disk)
    requires InRange(ws, |d|)
    ensures |e| == |d|
  {
    if ws == [] then d
    else
      var last := ws[|ws| - 1];
      Apply(d, ws[..|ws| - 1])[last.bno := last.data]
  }

  lemma {:induction false} ApplyConcat(d: Disk, ws: seq<Write>, vs: seq<Write>)
    requires InRange(ws, |d|) && InRange(vs, |d|)
    ensures InRange(ws + vs, |d|)
    ensures Apply(d, ws + vs) == Apply(Apply(d, ws), vs)
    decreases |vs|
  {
    if vs == [] {
      assert ws + vs == ws;
    } else {
      ApplyConcat(d, ws, vs[..|vs| - 1]);
      assert (ws + vs)[..|ws + vs| - 1] == ws + vs[..|vs| - 1];
    }
  }

  /** A prefix one longer is one more block write. */
  lemma ApplyNext(d: Disk, ws: seq<Write>, k: nat)
    requires InRange(ws, |d|) && k < |ws|
    ensures Apply(d, ws[..k + 1]) == Apply(d, ws[..k])[ws[k].bno := ws[k].data]
  {
    assert ws[..k + 1][..k] == ws[..k];
  }

  /** Blocks that no write names keep their contents. */
  lemma {:induction false} ApplyElsewhere(d: Disk, ws: seq<Write>, b: nat)
    requires InRange(ws, |d|) && b < |d|
    requires forall i :: 0 <= i < |ws| ==> ws[i].bno != b
    ensures Apply(d, ws)[b] == d[b]
    decreases |ws|
  {
    if ws != [] {
      ApplyElsewhere(d, ws[..|ws| - 1], b);
    }
  }

  /** A block that exactly one write names gets that write's data. */
  lemma {:induction false} ApplyOnce(d: Disk, ws: seq<Write>, i: nat)
    requires InRange(ws, |d|) && i < |ws|
    requires forall j :: 0 <= j < |ws| && j != i ==> ws[j].bno != ws[i].bno
    ensures Apply(d, ws)[ws[i].bno] == ws[i].data
    decreases |ws|
  {
    if i < |ws| - 1 {
      ApplyOnce(d, ws[..|ws| - 1], i);
    }
  }

  // ---------- Commit and recovery as write lists ----------

  /** write_log: cached contents of the logged blocks go to the log slots. */
  function LogWrites(L: Layout, mem: Disk, lh: seq<nat>): seq<Write>
    requires forall i :: 0 <= i < |lh| ==> lh[i] < |mem|
  {
    seq(|lh|, i requires 0 <= i < |lh| => Write(L.start + 1 + i, mem[lh[i]]))
  }

  /** install_trans during commit: the same contents go to their home blocks. */
  function HomeWrites(mem: Disk, lh: seq<nat>): seq<Write>
    requires forall i :: 0 <= i < |lh| ==> lh[i] < |mem|
  {
    seq(|lh|, i requires 0 <= i < |lh| => Write(lh[i], mem[lh[i]]))
  }

  /** commit: log, header, install, empty header; nothing when the transaction is empty. */
  ghost function CommitWrites(L: Layout, hdr: Block, mem: Disk, lh: seq<nat>): seq<Write>
    requires |mem| <= UINT && Entries(L, |mem|, lh)
  {
    if lh == [] then [] else
    LogWrites(L, mem, lh) + [Write(L.start, Encode(hdr, lh))]
    + (HomeWrites(mem, lh) + [Write(L.start, Encode(Encode(hdr, lh), []))])
  }

  /** The on-disk header names a transaction that fits the log. */
  ghost predicate GoodHeader(L: Layout, d: Disk) {
    && Fits(L, d)
    && GetWord(d[L.start], 0) <= LOGSIZE
    && Entries(L, |d|, Decode(d[L.start]))
  }

  /** install_trans: slot contents go to the listed blocks. */
  function SlotWrites(L: Layout, d: Disk, lh: seq<nat>): seq<Write>
    requires L.start + |lh| < |d|
  {
    seq(|lh|, i requires 0 <= i < |lh| => Write(lh[i], d[L.start + 1 + i]))
  }

  /** install_trans during recovery: the blocks are those the header names. */
  ghost function InstallWrites(L: Layout, d: Disk): (ws: seq<Write>)
    requires GoodHeader(L, d)
    ensures InRange(ws, |d|)
  {
    SlotWrites(L, d, Decode(d[L.start]))
  }

  /** recover_from_log: install, then empty the header. */
  ghost function RecoveryWrites(L: Layout, d: Disk): (ws: seq<Write>)
    requires GoodHeader(L, d)
    ensures InRange(ws, |d|)
  {
    InstallWrites(L, d) + [Write(L.start, Encode(d[L.start], []))]
  }

  /** The disk after one undisturbed recovery. */
  ghost function Recovered(L: Layout, d: Disk): (e: Disk)
    requires GoodHeader(L, d)
    ensures |e| == |d|
  {
    Apply(d, RecoveryWrites(L, d))
  }

  /** What block b holds once the log is replayed. */
  ghost predicate Replays(L: Layout, d: Disk, b: nat, x: Block)
    requires GoodHeader(L, d) && b < |d|
  {
    var lh := Decode(d[L.start]);
    && (forall i :: 0 <= i < |lh| && lh[i] == b ==> x == d[L.start + 1 + i])
    && (b !in lh ==> x == d[b])
  }

  lemma RecoveredSplit(L: Layout, d: Disk)
    requires GoodHeader(L, d)
    ensures Recovered(L, d) == Apply(d, InstallWrites(L, d))[L.start := Encode(d[L.start], [])]
  {
    var ws := RecoveryWrites(L, d);
    assert ws[..|ws| - 1] == InstallWrites(L, d);
  }

  lemma RecoveredAt(L: Layout, d: Disk, b: nat)
    requires GoodHeader(L, d) && b < |d| && Home(L, b)
    ensures Replays(L, d, b, Recovered(L, d)[b])
  {
    RecoveredSplit(L, d);
    hide Recovered, Apply, Encode;
    var lh := Decode(d[L.start]);
    if b !in lh {
      ApplyElsewhere(d, InstallWrites(L, d), b);
    }
    forall i | 0 <= i < |lh| && lh[i] == b
      ensures Recovered(L, d)[b] == d[L.start + 1 + i]
    {
      ApplyOnce(d, InstallWrites(L, d), i);
    }
  }

  lemma RecoveredHeader(L: Layout, d: Disk)
    requires GoodHeader(L, d)
    ensures GoodHeader(L, Recovered(L, d))
    ensures Decode(Recovered(L, d)[L.start]) == []
  {
    var ws := RecoveryWrites(L, d);
    assert ws[|ws| - 1] == Write(L.start, Encode(d[L.start], []));
    HeaderRoundTrip(d[L.start], []);
  }

  /** Two disks whose replay rules agree recover to the same home blocks. */
  lemma SameReplay(L: Layout, d: Disk, e: Disk)
    requires GoodHeader(L, d) && GoodHeader(L, e) && |d| == |e|
    requires forall b, x :: 0 <= b < |d| && Home(L, b) && Replays(L, d, b, x) ==> Replays(L, e, b, x)
    ensures SameHome(L, Recovered(L, d), Recovered(L, e))
  {
    forall b | 0 <= b < |d| && Home(L, b)
      ensures Recovered(L, d)[b] == Recovered(L, e)[b]
    {
      RecoveredAt(L, d, b);
      RecoveredAt(L, e, b);
      var x := Recovered(L, d)[b];
      assert Replays(L, e, b, x);
    }
  }

  /**
   Recovery is idempotent: stopping it after any k block writes leaves a disk
   that recovers to the same home blocks.
   */
  lemma RecoveryPrefix(L: Layout, d: Disk, k: nat)
    requires GoodHeader(L, d) && k <= |RecoveryWrites(L, d)|
    ensures GoodHeader(L, Apply(d, RecoveryWrites(L, d)[..k]))
    ensures SameHome(L, Recovered(L, Apply(d, RecoveryWrites(L, d)[..k])), Recovered(L, d))
  {
    var ws := RecoveryWrites(L, d);
    var lh := Decode(d[L.start]);
    var e := Apply(d, ws[..k]);
    if k == |ws| {
      assert ws[..k] == ws;
      RecoveredHeader(L, d);
      forall b | 0 <= b < |d| && Home(L, b)
        ensures Recovered(L, e)[b] == e[b]
      {
        RecoveredAt(L, e, b);
      }
    } else {
      forall b | 0 <= b < |d| && !Home(L, b)
        ensures e[b] == d[b]
      {
        ApplyElsewhere(d, ws[..k], b);
      }
      forall b | 0 <= b < |d| && b !in lh && Home(L, b)
        ensures e[b] == d[b]
      {
        ApplyElsewhere(d, ws[..k], b);
      }
      SameReplay(L, e, d);
    }
  }

  // ---------- Crash atomicity ----------

  /** The home blocks a finished transaction leaves: cached contents of the logged blocks. */
  ghost predicate Committed(L: Layout, base: Disk, mem: Disk, lh: seq<nat>, e: Disk) {
    && |base| == |mem| == |e|
    && forall b :: 0 <= b < |base| && Home(L, b) ==> e[b] == if b in lh then mem[b] else base[b]
  }

  lemma CommitInRange(L: Layout, hdr: Block, mem: Disk, lh: seq<nat>)
    requires Fits(L, mem) && Entries(L, |mem|, lh)
    ensures InRange(CommitWrites(L, hdr, mem, lh), |mem|)
  {
  }

  /** Before the header write the on-disk transaction is still empty. */
  lemma BeforeHeader(L: Layout, base: Disk, mem: Disk, lh: seq<nat>, k: nat)
    requires GoodHeader(L, base) && Decode(base[L.start]) == []
    requires |mem| == |base| && Entries(L, |mem|, lh) && k <= |lh|
    requires lh != []
    ensures InRange(CommitWrites(L, base[L.start], mem, lh), |base|)
    ensures var d := Apply(base, CommitWrites(L, base[L.start], mem, lh)[..k]);
            GoodHeader(L, d) && SameHome(L, Recovered(L, d), base)
  {
    CommitInRange(L, base[L.start], mem, lh);
    var ws := CommitWrites(L, base[L.start], mem, lh);
    var d := Apply(base, ws[..k]);
    forall b | 0 <= b < |d| && (Home(L, b) || b == L.start)
      ensures d[b] == base[b]
    {
      ApplyElsewhere(base, ws[..k], b);
    }
    forall b | 0 <= b < |d| && Home(L, b)
      ensures Recovered(L, d)[b] == base[b]
    {
      RecoveredAt(L, d, b);
    }
  }

  /** The disk right after the header write. */
  ghost function HeaderDisk(L: Layout, base: Disk, mem: Disk, lh: seq<nat>): (d: Disk)
    requires Fits(L, base) && |mem| == |base| && Entries(L, |mem|, lh)
    ensures |d| == |base|
  {
    Apply(base, LogWrites(L, mem, lh))[L.start := Encode(base[L.start], lh)]
  }

  lemma HeaderDiskIsPrefix(L: Layout, base: Disk, mem: Disk, lh: seq<nat>)
    requires Fits(L, base) && |mem| == |base| && Entries(L, |mem|, lh) && lh != []
    ensures InRange(CommitWrites(L, base[L.start], mem, lh), |base|)
    ensures Apply(base, CommitWrites(L, base[L.start], mem, lh)[..|lh| + 1]) == HeaderDisk(L, base, mem, lh)
  {
    CommitInRange(L, base[L.start], mem, lh);
    var ws := CommitWrites(L, base[L.start], mem, lh);
    assert ws[..|lh|] == LogWrites(L, mem, lh);
    ApplyNext(base, ws, |lh|);
  }

  /** Slots filled, header naming them, homes still old. */
  lemma HeaderDiskBlocks(L: Layout, base: Disk, mem: Disk, lh: seq<nat>)
    requires Fits(L, base) && |mem| == |base| && Entries(L, |mem|, lh)
    ensures SameHome(L, HeaderDisk(L, base, mem, lh), base)
    ensures forall i :: 0 <= i < |lh| ==> HeaderDisk(L, base, mem, lh)[L.start + 1 + i] == mem[lh[i]]
  {
    var slots := LogWrites(L, mem, lh);
    forall i | 0 <= i < |lh|
      ensures Apply(base, slots)[L.start + 1 + i] == mem[lh[i]]
    {
      ApplyOnce(base, slots, i);
      assert slots[i].bno == L.start + 1 + i;
    }
    forall b | 0 <= b < |base| && Home(L, b)
      ensures Apply(base, slots)[b] == base[b]
    {
      ApplyElsewhere(base, slots, b);
    }
  }

  lemma AtHeader(L: Layout, base: Disk, mem: Disk, lh: seq<nat>)
    requires Fits(L, base) && |mem| == |base| && Entries(L, |mem|, lh)
    ensures var d := HeaderDisk(L, base, mem, lh);
            && GoodHeader(L, d)
            && Decode(d[L.start]) == lh
            && InstallWrites(L, d) == HomeWrites(mem, lh)
  {
    HeaderDiskBlocks(L, base, mem, lh);
    HeaderRoundTrip(base[L.start], lh);
  }

  /**
   After the header write, what remains of commit is exactly a recovery of the
   disk the header write left.
   */
  lemma CommitTailIsRecovery(L: Layout, base: Disk, mem: Disk, lh: seq<nat>)
    requires Fits(L, base) && |mem| == |base| && Entries(L, |mem|, lh) && lh != []
    ensures var d := HeaderDisk(L, base, mem, lh);
            GoodHeader(L, d) && CommitWrites(L, base[L.start], mem, lh)[|lh| + 1..] == RecoveryWrites(L, d)
  {
    AtHeader(L, base, mem, lh);
  }

  lemma HeaderDiskRecovers(L: Layout, base: Disk, mem: Disk, lh: seq<nat>)
    requires Fits(L, base) && |mem| == |base| && Entries(L, |mem|, lh)
    ensures GoodHeader(L, HeaderDisk(L, base, mem, lh))
    ensures Committed(L, base, mem, lh, Recovered(L, HeaderDisk(L, base, mem, lh)))
  {
    var h := HeaderDisk(L, base, mem, lh);
    AtHeader(L, base, mem, lh);
    HeaderDiskBlocks(L, base, mem, lh);
    forall b | 0 <= b < |base| && Home(L, b)
      ensures Recovered(L, h)[b] == if b in lh then mem[b] else base[b]
    {
      RecoveredAt(L, h, b);
    }
  }

  lemma CommitIsRecoveryPrefix(L: Layout, base: Disk, mem: Disk, lh: seq<nat>, k: nat)
    requires Fits(L, base) && |mem| == |base| && Entries(L, |mem|, lh) && lh != []
    requires |lh| < k <= |CommitWrites(L, base[L.start], mem, lh)|
    ensures InRange(CommitWrites(L, base[L.start], mem, lh), |base|)
    ensures var h := HeaderDisk(L, base, mem, lh);
            && GoodHeader(L, h)
            && k - |lh| - 1 <= |RecoveryWrites(L, h)|
            && Apply(base, CommitWrites(L, base[L.start], mem, lh)[..k])
               == Apply(h, RecoveryWrites(L, h)[..k - |lh| - 1])
  {
    hide CommitWrites, RecoveryWrites, HeaderDisk, GoodHeader, Entries;
    CommitTailIsRecovery(L, base, mem, lh);
    HeaderDiskIsPrefix(L, base, mem, lh);
    ApplySplit(base, CommitWrites(L, base[L.start], mem, lh), |lh| + 1, k);
  }

  lemma ApplySplit(d: Disk, ws: seq<Write>, n: nat, k: nat)
    requires InRange(ws, |d|) && n <= k <= |ws|
    ensures Apply(d, ws[..k]) == Apply(Apply(d, ws[..n]), ws[n..][..k - n])
  {
    assert ws[..k] == ws[..n] + ws[n..][..k - n];
    ApplyConcat(d, ws[..n], ws[n..][..k - n]);
  }

  /** From the header write on, recovery installs the whole transaction. */
  lemma AfterHeader(L: Layout, base: Disk, mem: Disk, lh: seq<nat>, k: nat)
    requires Fits(L, base) && |mem| == |base| && Entries(L, |mem|, lh) && lh != []
    requires |lh| < k <= |CommitWrites(L, base[L.start], mem, lh)|
    ensures InRange(CommitWrites(L, base[L.start], mem, lh), |base|)
    ensures var d := Apply(base, CommitWrites(L, base[L.start], mem, lh)[..k]);
            GoodHeader(L, d) && Committed(L, base, mem, lh, Recovered(L, d))
  {
    var h := HeaderDisk(L, base, mem, lh);
    CommitIsRecoveryPrefix(L, base, mem, lh, k);
    RecoveryPrefix(L, h, k - |lh| - 1);
    HeaderDiskRecovers(L, base, mem, lh);
  }

  /**
   Repeated boots: boot j stops after crashes[j] of the block writes its
   recovery would make.
   */
  ghost function Reboots(L: Layout, d: Disk, crashes: seq<nat>): (e: Disk)
    requires GoodHeader(L, d)
    ensures |e| == |d| && GoodHeader(L, e)
    decreases |crashes|
  {
    if crashes == [] then d
    else
      var ws := RecoveryWrites(L, d);
      var k := if crashes[0] <= |ws| then crashes[0] else |ws|;
      RecoveryPrefix(L, d, k);
      Reboots(L, Apply(d, ws[..k]), crashes[1..])
  }

  lemma {:induction false} RebootsRecover(L: Layout, d: Disk, crashes: seq<nat>)
    requires GoodHeader(L, d)
    ensures SameHome(L, Recovered(L, Reboots(L, d, crashes)), Recovered(L, d))
    decreases |crashes|
  {
    if crashes != [] {
      var ws := RecoveryWrites(L, d);
      var k := if crashes[0] <= |ws| then crashes[0] else |ws|;
      RecoveryPrefix(L, d, k);
      RebootsRecover(L, Apply(d, ws[..k]), crashes[1..]);
    }
  }

  /**
   Crash atomicity.  Stop a commit after any k block writes, crash recovery any
   number of times at any points, then recover once: every home block is old
   when the first header write had not happened, and every home block is new
   when it had.  The log is empty afterwards.
   */
  lemma CrashAtomicity(L: Layout, base: Disk, mem: Disk, lh: seq<nat>, k: nat, crashes: seq<nat>)
    requires GoodHeader(L, base) && Decode(base[L.start]) == []
    requires |mem| == |base| && Entries(L, |mem|, lh)
    requires k <= |CommitWrites(L, base[L.start], mem, lh)|
    ensures InRange(CommitWrites(L, base[L.start], mem, lh), |base|)
    ensures var d := Apply(base, CommitWrites(L, base[L.start], mem, lh)[..k]);
            && GoodHeader(L, d)
            && var final := Recovered(L, Reboots(L, d, crashes));
               && Decode(final[L.start]) == []
               && if k <= |lh| then SameHome(L, final, base) else Committed(L, base, mem, lh, final)
  {
    CommitInRange(L, base[L.start], mem, lh);
    var ws := CommitWrites(L, base[L.start], mem, lh);
    var d := Apply(base, ws[..k]);
    if lh == [] {
      forall b | 0 <= b < |base| && Home(L, b)
        ensures Recovered(L, base)[b] == base[b]
      {
        RecoveredAt(L, base, b);
      }
    } else if k <= |lh| {
      BeforeHeader(L, base, mem, lh, k);
    } else {
      AfterHeader(L, base, mem, lh, k);
    }
    RebootsRecover(L, d, crashes);
    RecoveredHeader(L, Reboots(L, d, crashes));
  }
}
