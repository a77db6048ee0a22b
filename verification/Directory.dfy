/** Directories (fs.c, sysfile.c): files of 16-byte entries that behave as finite maps from names to inode numbers. */
module Directory {
  import opened Blocks
  import Bitmap
  import opened FileBlocks
  import opened Files

  const DIRSIZ: nat := 14
  const DIRENT: nat := 16
  const T_DIR: nat := 1

  // ---------- Names ----------

  /** The C string at s, cut off after n bytes. */
  function Name(s: seq<Byte>, n: nat): seq<Byte> {
    if n == 0 || s == [] || s[0] == 0 then [] else [s[0]] + Name(s[1..], n - 1)
  }

  /** s has n bytes or a terminator: what strncmp and strncpy may read. */
  predicate Readable(s: seq<Byte>, n: nat) {
    |s| >= n || 0 in s
  }

  lemma {:induction false} NameAfter(s: seq<Byte>, i: nat, n: nat)
    requires i <= n && i <= |s| && forall j :: 0 <= j < i ==> s[j] != 0
    ensures Name(s, n) == s[..i] + Name(s[i..], n - i)
  {
    if i > 0 {
      NameAfter(s[1..], i - 1, n - 1);
      assert s[1..][i - 1..] == s[i..];
      assert s[..i] == [s[0]] + s[1..][..i - 1];
    } else {
      assert s[i..] == s;
    }
  }

  /** strncmp: 0 exactly when the two names are the same. */
  method Strncmp(p: seq<Byte>, q: seq<Byte>, n: nat) returns (r: int)
    requires Readable(p, n) && Readable(q, n)
    ensures r == 0 <==> Name(p, n) == Name(q, n)
  {
    var i := 0;
    while i < n && p[i] != 0 && p[i] == q[i]
      invariant 0 <= i <= n && i <= |p| && i <= |q|
      invariant forall j :: 0 <= j < i ==> p[j] == q[j] != 0
      invariant i < n ==> i < |p| && i < |q|
    {
      i := i + 1;
    }
    NameAfter(p, i, n);
    NameAfter(q, i, n);
    assert p[..i] == q[..i];
    if i == n {
      return 0;
    }
    ghost var x, y := Name(p[i..], n - i), Name(q[i..], n - i);
    assert (p[i] != 0 ==> x[0] == p[i]) && (q[i] != 0 ==> y[0] == q[i]);
    assert p[i] == q[i] ==> x == y == [];
    assert p[i] != q[i] ==> x != y;
    Cancel(p[..i], x, y);
    var a: int, b: int := p[i], q[i];
    return a - b;
  }

  lemma Cancel(a: seq<Byte>, x: seq<Byte>, y: seq<Byte>)
    ensures a + x == a + y <==> x == y
  {
    assert (a + x)[|a|..] == x && (a + y)[|a|..] == y;
  }

  /** A name and zeros after it, n bytes in all. */
  function Padded(name: seq<Byte>, n: nat): (r: seq<Byte>)
    requires |name| <= n
    ensures |r| == n
  {
    name + seq(n - |name|, _ => 0)
  }

  lemma {:induction false} NameBound(s: seq<Byte>, n: nat)
    ensures |Name(s, n)| <= n && 0 !in Name(s, n)
  {
    if n > 0 && s != [] && s[0] != 0 {
      NameBound(s[1..], n - 1);
    }
  }

  /** Padding a name keeps it. */
  lemma NameOfPadded(name: seq<Byte>, n: nat)
    requires |name| <= n && 0 !in name
    ensures Name(Padded(name, n), n) == name
  {
    var s := Padded(name, n);
    NameAfter(s, |name|, n);
    assert Name(s[|name|..], n - |name|) == [];
    assert s[..|name|] == name;
  }

  /** strncpy: the name of t, padded with zeros to n bytes. */
  method Strncpy(t: seq<Byte>, n: nat) returns (s: seq<Byte>)
    requires Readable(t, n)
    ensures |Name(t, n)| <= n && s == Padded(Name(t, n), n)
  {
    NameBound(t, n);
    s := [];
    while |s| < n && t[|s|] != 0
      invariant |s| <= n && |s| <= |t| && s == t[..|s|] && 0 !in s
      invariant |s| < n ==> |s| < |t|
      decreases n - |s|
    {
      s := s + [t[|s|]];
    }
    ghost var i := |s|;
    NameAfter(t, i, n);
    assert Name(t[i..], n - i) == [];
    while |s| < n
      invariant i <= |s| <= n && s[..i] == t[..i] && forall j :: i <= j < |s| ==> s[j] == 0
      decreases n - |s|
    {
      s := s + [0];
    }
  }

  // ---------- Entries and the map they make ----------

  /** Entry i of a directory with contents c. */
  function Slot(c: seq<Byte>, i: nat): (e: seq<Byte>)
    requires DIRENT * i + DIRENT <= |c|
    ensures |e| == DIRENT
  {
    c[DIRENT * i..DIRENT * i + DIRENT]
  }

  function Inum(e: seq<Byte>): nat
    requires |e| == DIRENT
  {
    var lo: int, hi: int := e[0], e[1];
    lo + 0x100 * hi
  }

  function EntryName(e: seq<Byte>): seq<Byte>
    requires |e| == DIRENT
  {
    Name(e[2..], DIRSIZ)
  }

  function Count(c: seq<Byte>): nat {
    |c| / DIRENT
  }

  predicate Live(c: seq<Byte>, i: nat) {
    i < Count(c) && Inum(Slot(c, i)) != 0
  }

  /** The live entry i has this name. */
  predicate Named(c: seq<Byte>, i: nat, name: seq<Byte>) {
    Live(c, i) && EntryName(Slot(c, i)) == name
  }

  /** Whole entries, and no name twice. */
  ghost predicate DirOk(c: seq<Byte>) {
    && |c| % DIRENT == 0
    && forall i, j :: 0 <= i < j && Live(c, i) && Live(c, j) ==> EntryName(Slot(c, i)) != EntryName(Slot(c, j))
  }

  /** The bindings of the first n entries. */
  function MapUpTo(c: seq<Byte>, n: nat): map<seq<Byte>, nat>
    requires n <= Count(c)
  {
    if n == 0 then map[]
    else
      var m := MapUpTo(c, n - 1);
      if Live(c, n - 1) then m[EntryName(Slot(c, n - 1)) := Inum(Slot(c, n - 1))] else m
  }

  /** The directory as a finite map. */
  function DirMap(c: seq<Byte>): map<seq<Byte>, nat> {
    MapUpTo(c, Count(c))
  }

  lemma {:induction false} MapHas(c: seq<Byte>, n: nat, name: seq<Byte>)
    requires n <= Count(c)
    ensures name in MapUpTo(c, n) <==> exists i :: 0 <= i < n && Named(c, i, name)
  {
    if n > 0 {
      MapHas(c, n - 1, name);
      assert Named(c, n - 1, name) ==> name in MapUpTo(c, n);
    }
  }

  lemma {:induction false} MapValue(c: seq<Byte>, n: nat, i: nat)
    requires DirOk(c) && i < n <= Count(c) && Live(c, i)
    ensures EntryName(Slot(c, i)) in MapUpTo(c, n) && MapUpTo(c, n)[EntryName(Slot(c, i))] == Inum(Slot(c, i))
  {
    if i < n - 1 {
      MapValue(c, n - 1, i);
    }
  }

  /** A map is the map of a directory as soon as they agree on every live entry. */
  lemma MapIs(c: seq<Byte>, m: map<seq<Byte>, nat>)
    requires DirOk(c)
    requires forall i :: Live(c, i) ==> EntryName(Slot(c, i)) in m && m[EntryName(Slot(c, i))] == Inum(Slot(c, i))
    requires forall name :: name in m ==> exists i :: Named(c, i, name)
    ensures DirMap(c) == m
  {
    forall name
      ensures name in DirMap(c) <==> name in m
      ensures name in m ==> DirMap(c)[name] == m[name]
    {
      MapHas(c, Count(c), name);
      if name in m {
        var i :| Named(c, i, name);
        MapValue(c, Count(c), i);
      }
    }
  }

  /** The first free entry, or the place after the last one. */
  function FreeFrom(c: seq<Byte>, i: nat): (r: nat)
    requires i <= Count(c)
    ensures i <= r <= Count(c)
    ensures r < Count(c) ==> !Live(c, r)
    ensures forall j :: i <= j < r ==> Live(c, j)
    decreases Count(c) - i
  {
    if i < Count(c) && Live(c, i) then FreeFrom(c, i + 1) else i
  }

  /** c with entry i replaced. */
  function PutSlot(c: seq<Byte>, i: nat, e: seq<Byte>): seq<Byte>
    requires DIRENT * i <= |c| && |e| == DIRENT
  {
    Splice(c, DIRENT * i, e)
  }

  lemma PutSlotAt(c: seq<Byte>, i: nat, e: seq<Byte>, j: nat)
    requires |c| % DIRENT == 0 && i <= Count(c) && |e| == DIRENT
    ensures |PutSlot(c, i, e)| % DIRENT == 0
    ensures Count(PutSlot(c, i, e)) == if i < Count(c) then Count(c) else Count(c) + 1
    ensures j < Count(PutSlot(c, i, e)) ==> Slot(PutSlot(c, i, e), j) == if j == i then e else Slot(c, j)
  {
    var r := PutSlot(c, i, e);
    if j < Count(r) {
      var want := if j == i then e else Slot(c, j);
      forall x | 0 <= x < DIRENT
        ensures Slot(r, j)[x] == want[x]
      {
        SpliceAt(c, DIRENT * i, e, DIRENT * j + x);
      }
    }
  }

  lemma SpliceAt(s: seq<Byte>, off: nat, bytes: seq<Byte>, x: nat)
    requires off <= |s| && x < Max(|s|, off + |bytes|)
    ensures Splice(s, off, bytes)[x] == if off <= x < off + |bytes| then bytes[x - off] else s[x]
  {
  }

  /** Writing a live entry with a new name into a free place adds exactly that binding. */
  lemma LinkMap(c: seq<Byte>, i: nat, e: seq<Byte>)
    requires DirOk(c) && i <= Count(c) && !Live(c, i) && |e| == DIRENT && Inum(e) != 0
    requires EntryName(e) !in DirMap(c)
    ensures DirOk(PutSlot(c, i, e)) && DirMap(PutSlot(c, i, e)) == DirMap(c)[EntryName(e) := Inum(e)]
  {
    hide Slot, Splice, EntryName, Inum, PutSlot;
    var r, m := PutSlot(c, i, e), DirMap(c)[EntryName(e) := Inum(e)];
    PutSlotAt(c, i, e, i);
    forall j
      ensures Live(r, j) && j != i ==> Live(c, j) && Slot(r, j) == Slot(c, j) && EntryName(Slot(r, j)) != EntryName(e)
      ensures Live(c, j) ==> Live(r, j) && Slot(r, j) == Slot(c, j) && j != i
    {
      if j >= 0 {
        PutSlotAt(c, i, e, j);
        if Live(c, j) {
          MapValue(c, Count(c), j);
        }
      }
    }
    assert DirOk(r);
    forall j | Live(r, j)
      ensures EntryName(Slot(r, j)) in m && m[EntryName(Slot(r, j))] == Inum(Slot(r, j))
    {
      if j != i {
        MapValue(c, Count(c), j);
      }
    }
    forall name | name in m
      ensures exists j :: Named(r, j, name)
    {
      if name == EntryName(e) {
        assert Named(r, i, name);
      } else {
        MapHas(c, Count(c), name);
        var j :| 0 <= j < Count(c) && Named(c, j, name);
        assert Named(r, j, name);
      }
    }
    MapIs(r, m);
  }

  /** Overwriting a live entry with a dead one removes exactly its binding. */
  lemma ClearMap(c: seq<Byte>, i: nat, e: seq<Byte>)
    requires DirOk(c) && Live(c, i) && |e| == DIRENT && Inum(e) == 0
    ensures DirOk(PutSlot(c, i, e)) && DirMap(PutSlot(c, i, e)) == DirMap(c) - {EntryName(Slot(c, i))}
  {
    hide Slot, Splice, EntryName, Inum, PutSlot;
    var r, m := PutSlot(c, i, e), DirMap(c) - {EntryName(Slot(c, i))};
    PutSlotAt(c, i, e, i);
    forall j
      ensures Live(r, j) ==> Live(c, j) && Slot(r, j) == Slot(c, j) && j != i
      ensures Live(c, j) && j != i ==> Live(r, j) && Slot(r, j) == Slot(c, j)
    {
      if j >= 0 {
        PutSlotAt(c, i, e, j);
      }
    }
    assert DirOk(r);
    forall j | Live(r, j)
      ensures EntryName(Slot(r, j)) in m && m[EntryName(Slot(r, j))] == Inum(Slot(r, j))
    {
      MapValue(c, Count(c), j);
    }
    forall name | name in m
      ensures exists j :: Named(r, j, name)
    {
      MapHas(c, Count(c), name);
      var j :| 0 <= j < Count(c) && Named(c, j, name);
      assert Named(r, j, name);
    }
    MapIs(r, m);
  }

  /** Writing a dead entry into a free place changes no binding: what dirlink does with an inode number that is 0 modulo 65536. */
  lemma DeadMap(c: seq<Byte>, i: nat, e: seq<Byte>)
    requires DirOk(c) && i <= Count(c) && !Live(c, i) && |e| == DIRENT && Inum(e) == 0
    ensures DirOk(PutSlot(c, i, e)) && DirMap(PutSlot(c, i, e)) == DirMap(c)
  {
    hide Slot, Splice, EntryName, Inum, PutSlot;
    var r, m := PutSlot(c, i, e), DirMap(c);
    PutSlotAt(c, i, e, i);
    forall j
      ensures Live(r, j) ==> Live(c, j) && Slot(r, j) == Slot(c, j)
      ensures Live(c, j) ==> Live(r, j) && Slot(r, j) == Slot(c, j)
    {
      if j >= 0 {
        PutSlotAt(c, i, e, j);
      }
    }
    forall j | Live(r, j)
      ensures EntryName(Slot(r, j)) in m && m[EntryName(Slot(r, j))] == Inum(Slot(r, j))
    {
      MapValue(c, Count(c), j);
    }
    forall name | name in m
      ensures exists j :: Named(r, j, name)
    {
      MapHas(c, Count(c), name);
      var j :| 0 <= j < Count(c) && Named(c, j, name);
      assert Named(r, j, name);
    }
    MapIs(r, m);
  }

  // ---------- dirlink on values ----------

  /** struct dirent with this name and 16-bit inode number. */
  function Dirent(name: seq<Byte>, v: nat): (e: seq<Byte>)
    requires |name| <= DIRSIZ && v < 0x1_0000
    ensures |e| == DIRENT
  {
    [v % 0x100, v / 0x100] + Padded(name, DIRSIZ)
  }

  lemma DirentParts(name: seq<Byte>, v: nat)
    requires |name| <= DIRSIZ && 0 !in name && v < 0x1_0000
    ensures Inum(Dirent(name, v)) == v && EntryName(Dirent(name, v)) == name
  {
    NameOfPadded(name, DIRSIZ);
    assert Dirent(name, v)[2..] == Padded(name, DIRSIZ);
  }

  /** The contents after dirlink. */
  function Link(c: seq<Byte>, name: seq<Byte>, inum: nat): seq<Byte>
    requires |name| <= DIRSIZ
  {
    PutSlot(c, FreeFrom(c, 0), Dirent(name, inum % 0x1_0000))
  }

  /** dirlink of a new name binds it exactly when the inode number survives the cut to 16 bits. */
  lemma LinkExactly(c: seq<Byte>, name: seq<Byte>, inum: nat)
    requires DirOk(c) && |name| <= DIRSIZ && 0 !in name && name !in DirMap(c)
    ensures DirOk(Link(c, name, inum))
    ensures DirMap(Link(c, name, inum)) == if inum % 0x1_0000 != 0 then DirMap(c)[name := inum % 0x1_0000] else DirMap(c)
    ensures name in DirMap(Link(c, name, inum)) <==> inum % 0x1_0000 != 0
  {
    DirentParts(name, inum % 0x1_0000);
    if inum % 0x1_0000 != 0 {
      LinkMap(c, FreeFrom(c, 0), Dirent(name, inum % 0x1_0000));
    } else {
      DeadMap(c, FreeFrom(c, 0), Dirent(name, 0));
    }
  }

  /** The inode numbers that make dirlink bind nothing are really there. */
  lemma LinkLosesInode65536()
    ensures DirMap(Link([], [97], 65536)) == map[]
  {
    assert DirOk([]) && DirMap([]) == map[];
    LinkExactly([], [97], 65536);
  }

  // ---------- "." and ".." ----------

  const DOT: seq<Byte> := [46]
  const DOTDOT: seq<Byte> := [46, 46]

  /** "." and ".." have the first two entries. */
  ghost predicate Dots(c: seq<Byte>) {
    Named(c, 0, DOT) && Named(c, 1, DOTDOT)
  }

  /** isdirempty looks at the entries from the third on. */
  ghost predicate NothingElse(c: seq<Byte>) {
    forall i :: 2 <= i ==> !Live(c, i)
  }

  /** With "." and ".." in front, isdirempty is right. */
  lemma EmptyExactly(c: seq<Byte>)
    requires DirOk(c) && Dots(c)
    ensures NothingElse(c) <==> DirMap(c).Keys == {DOT, DOTDOT}
  {
    hide Slot, EntryName, Inum;
    MapHas(c, Count(c), DOT);
    MapHas(c, Count(c), DOTDOT);
    if NothingElse(c) {
      forall name | name in DirMap(c)
        ensures name in {DOT, DOTDOT}
      {
        MapHas(c, Count(c), name);
        var i :| 0 <= i < Count(c) && Named(c, i, name);
        assert i < 2;
      }
    } else {
      var i :| 2 <= i && Live(c, i);
      MapValue(c, Count(c), i);
      assert EntryName(Slot(c, i)) in DirMap(c);
    }
  }

  lemma LinkKeepsDots(c: seq<Byte>, name: seq<Byte>, inum: nat)
    requires DirOk(c) && Dots(c) && |name| <= DIRSIZ
    ensures Dots(Link(c, name, inum))
  {
    PutSlotAt(c, FreeFrom(c, 0), Dirent(name, inum % 0x1_0000), 0);
    PutSlotAt(c, FreeFrom(c, 0), Dirent(name, inum % 0x1_0000), 1);
  }

  lemma ClearKeepsDots(c: seq<Byte>, i: nat, e: seq<Byte>)
    requires DirOk(c) && Dots(c) && Live(c, i) && EntryName(Slot(c, i)) != DOT && EntryName(Slot(c, i)) != DOTDOT && |e| == DIRENT
    ensures Dots(PutSlot(c, i, e))
  {
    PutSlotAt(c, i, e, 0);
    PutSlotAt(c, i, e, 1);
  }

  /** A link appends when every entry is live. */
  lemma LinkAppends(c: seq<Byte>, name: seq<Byte>, v: nat)
    requires |c| % DIRENT == 0 && |name| <= DIRSIZ && 0 !in name && 0 < v < 0x1_0000 && FreeFrom(c, 0) == Count(c)
    ensures var r := Link(c, name, v);
            && |r| % DIRENT == 0 && Count(r) == Count(c) + 1 && FreeFrom(r, 0) == Count(r) && Named(r, Count(c), name)
            && forall j :: 0 <= j < Count(c) ==> Slot(r, j) == Slot(c, j)
  {
    hide Slot, Splice, EntryName, Inum, Dirent, FreeFrom, PutSlot, Name;
    var e, r := Dirent(name, v), Link(c, name, v);
    assert r == PutSlot(c, Count(c), e);
    DirentParts(name, v);
    PutSlotAt(c, Count(c), e, Count(c));
    forall j | 0 <= j <= Count(c)
      ensures Slot(r, j) == if j == Count(c) then e else Slot(c, j)
    {
      PutSlotAt(c, Count(c), e, j);
    }
    forall j | 0 <= j < Count(r)
      ensures Live(r, j)
    {
      assert j < Count(c) ==> Live(c, j);
    }
  }

  /** create's two links give a new directory its dots and nothing else. */
  lemma NewDirectory(self: nat, parent: nat)
    requires 0 < self < 0x1_0000 && 0 < parent < 0x1_0000
    ensures var c := Link(Link([], DOT, self), DOTDOT, parent);
            DirOk(c) && Dots(c) && DirMap(c) == map[DOT := self, DOTDOT := parent]
  {
    assert DirOk([]) && DirMap([]) == map[];
    LinkExactly([], DOT, self);
    LinkAppends([], DOT, self);
    var c := Link([], DOT, self);
    hide Link, MapUpTo, Slot, Inum, EntryName;
    LinkExactly(c, DOTDOT, parent);
    LinkAppends(c, DOTDOT, parent);
  }

  // ---------- fs.c and sysfile.c ----------

  /** dirlookup's answer; the last two are its panics. */
  datatype Lookup = Hit(inum: nat, off: nat) | Miss | NotDir | BadRead

  /** The first live entry with this name, or none; a short last entry is the only cause of the panic. */
  ghost predicate Answers(c: seq<Byte>, name: seq<Byte>, r: Lookup) {
    match r
    case Hit(inum, off) =>
      && off % DIRENT == 0 && Named(c, off / DIRENT, name) && inum == Inum(Slot(c, off / DIRENT))
      && forall i :: 0 <= i < off / DIRENT ==> !Named(c, i, name)
    case Miss => forall i :: 0 <= i < Count(c) ==> !Named(c, i, name)
    case NotDir => true
    case BadRead => |c| % DIRENT != 0
  }

  /** On a directory without repeated names, dirlookup looks up the map. */
  lemma LookupIsMap(c: seq<Byte>, name: seq<Byte>, r: Lookup)
    requires DirOk(c) && Answers(c, name, r) && !r.NotDir?
    ensures r.Hit? <==> name in DirMap(c)
    ensures r.Hit? ==> DirMap(c)[name] == r.inum
  {
    MapHas(c, Count(c), name);
    if r.Hit? {
      MapValue(c, Count(c), r.off / DIRENT);
    }
  }

  /** dirlink's and unlink's answer: done, -1, or a panic. */
  datatype Change = Done | Denied | Fatal

  /** A consistent file system in which inode k has no holes. */
  ghost predicate Ready(sb: Bitmap.Super, v: Image, k: nat) {
    Owned(sb, v.d, v.ips, v.ts, v.owner) && k < |v.ips| && NoHoles(v.ts[k], v.ips[k].size)
  }

  /** The bytes of file k. */
  ghost function Bytes(sb: Bitmap.Super, v: Image, k: nat): (c: seq<Byte>)
    requires Ready(sb, v, k)
    ensures k < |v.ips| && |c| == v.ips[k].size <= MAXBYTES
  {
    Full(v.d, v.ts[k])[..v.ips[k].size]
  }

  /** Ready, and k is a directory of whole entries without repeated names. */
  ghost predicate ReadyDir(sb: Bitmap.Super, v: Image, k: nat) {
    Ready(sb, v, k) && v.ips[k].typ == T_DIR && DirOk(Bytes(sb, v, k))
  }

  /** readi of entry i; !ok when the file ends inside it. */
  method ReadEntry(fs: FileSystem, k: nat, i: nat) returns (ok: bool, e: seq<Byte>)
    requires Ready(fs.sb, Now(fs), k) && Now(fs).ips[k].typ == T_DIR && DIRENT * i <= Now(fs).ips[k].size
    modifies fs
    ensures Now(fs) == old(Now(fs)) && |e| <= DIRENT
    ensures ok <==> i < Count(Bytes(fs.sb, Now(fs), k))
    ensures ok ==> e == Slot(Bytes(fs.sb, Now(fs), k), i)
  {
    var r;
    r, e := fs.Readi(k, DIRENT * i, DIRENT);
    ok := r == Moved(DIRENT);
  }

  /** One turn of dirlookup's loop: a panic, a match, or neither. */
  method Probe(fs: FileSystem, k: nat, i: nat, name: seq<Byte>) returns (r: Lookup)
    requires Ready(fs.sb, Now(fs), k) && Now(fs).ips[k].typ == T_DIR && Readable(name, DIRSIZ)
    requires DIRENT * i < Now(fs).ips[k].size
    modifies fs
    ensures Now(fs) == old(Now(fs))
    ensures !r.NotDir? && (r.BadRead? <==> i >= Count(Bytes(fs.sb, Now(fs), k)))
    ensures r.Hit? <==> Named(Bytes(fs.sb, Now(fs), k), i, Name(name, DIRSIZ))
    ensures r.Hit? ==> r.off == DIRENT * i && r.inum == Inum(Slot(Bytes(fs.sb, Now(fs), k), i))
  {
    hide Ready, Bytes, Name, Slot, Inum;
    var ok, e := ReadEntry(fs, k, i);
    if !ok {
      return BadRead;
    }
    if Inum(e) == 0 {
      return Miss;
    }
    var x := Strncmp(name, e[2..], DIRSIZ);
    r := if x == 0 then Hit(Inum(e), DIRENT * i) else Miss;
  }

  /** dirlookup: the first live entry with this name. */
  method Dirlookup(fs: FileSystem, k: nat, name: seq<Byte>) returns (r: Lookup)
    requires Ready(fs.sb, Now(fs), k) && Readable(name, DIRSIZ)
    modifies fs
    ensures Now(fs) == old(Now(fs))
    ensures r.NotDir? <==> Now(fs).ips[k].typ != T_DIR
    ensures Answers(Bytes(fs.sb, Now(fs), k), Name(name, DIRSIZ), r)
  {
    hide Ready, Bytes, Name, Slot, Inum, Named, Live;
    ghost var c := Bytes(fs.sb, Now(fs), k);
    if fs.inodes[k].typ != T_DIR {
      return NotDir;
    }
    var i := 0;
    while DIRENT * i < fs.inodes[k].size
      invariant Now(fs) == old(Now(fs)) && 0 <= i <= Count(c)
      invariant forall j :: 0 <= j < i ==> !Named(c, j, Name(name, DIRSIZ))
    {
      r := Probe(fs, k, i, name);
      if !r.Miss? {
        return;
      }
      i := i + 1;
    }
    return Miss;
  }

  /** The search of dirlink for a free entry. */
  method FindFree(fs: FileSystem, k: nat) returns (ok: bool, off: nat)
    requires Ready(fs.sb, Now(fs), k) && Now(fs).ips[k].typ == T_DIR
    modifies fs
    ensures Now(fs) == old(Now(fs))
    ensures ok ==> off == DIRENT * FreeFrom(Bytes(fs.sb, Now(fs), k), 0)
    ensures !ok ==> Now(fs).ips[k].size % DIRENT != 0
  {
    hide Ready, Bytes, Slot, Inum;
    ghost var c := Bytes(fs.sb, Now(fs), k);
    var i := 0;
    while DIRENT * i < fs.inodes[k].size
      invariant Now(fs) == old(Now(fs)) && 0 <= i <= Count(c) && FreeFrom(c, i) == FreeFrom(c, 0)
    {
      var got, e := ReadEntry(fs, k, i);
      if !got {
        return false, 0;
      }
      if Inum(e) == 0 {
        break;
      }
      i := i + 1;
    }
    return true, DIRENT * i;
  }

  /** File k of v becomes c in w; every other file and inode is as it was. */
  ghost predicate Became(sb: Bitmap.Super, v: Image, w: Image, k: nat, off: nat, e: seq<Byte>) {
    Ready(sb, w, k) && Wrote(sb, v.d, v.ips, v.ts, w.d, w.ips, w.ts, k, off, e) && Logged(sb, v.d, v.log, w.d, w.log)
  }

  lemma BecameBytes(sb: Bitmap.Super, v: Image, w: Image, k: nat, off: nat, e: seq<Byte>)
    requires Ready(sb, v, k) && Became(sb, v, w, k, off, e)
    ensures off <= |Bytes(sb, v, k)| && Ready(sb, w, k) && Bytes(sb, w, k) == Splice(Bytes(sb, v, k), off, e)
    ensures w.ips[k].typ == v.ips[k].typ
  {
    hide Full, Owned, NoHoles, Splice, OnDisk;
  }

  /** writei of one entry. */
  method StoreEntry(fs: FileSystem, k: nat, off: nat, e: seq<Byte>) returns (ok: bool)
    requires Ready(fs.sb, Now(fs), k) && Now(fs).ips[k].typ == T_DIR && |e| == DIRENT && off <= Now(fs).ips[k].size
    modifies fs
    ensures fs.Valid()
    ensures ok ==> Became(fs.sb, old(Now(fs)), Now(fs), k, off, e)
    ensures ok <==> off + DIRENT <= MAXBYTES && FreeCount(fs.sb, old(fs.disk)) >= Growth(old(Now(fs)).ips[k].size, off + DIRENT)
  {
    assert Now(fs).ips[k].size <= MAXBYTES;
    hide Owned, NoHoles, Full, FreeCount, Growth;
    var w := fs.Writei(k, e, off);
    ok := w == Moved(DIRENT);
  }

  /** No entry is free, and the file cannot grow by one: it is as long as can be, or the disk is full. */
  ghost predicate NoRoom(sb: Bitmap.Super, v: Image, k: nat)
    requires Ready(sb, v, k)
  {
    var end := DIRENT * FreeFrom(Bytes(sb, v, k), 0) + DIRENT;
    end > MAXBYTES || FreeCount(sb, v.d) < Growth(v.ips[k].size, end)
  }

  /**
   What dirlink may answer on a directory in order: -1 exactly when the name
   is bound; otherwise the first free entry, or a new one at the end, gets the
   name and no other file changes, or there is no room for it.
   */
  ghost predicate LinkOutcome(sb: Bitmap.Super, v: Image, w: Image, k: nat, name: seq<Byte>, inum: nat, r: Change)
    requires ReadyDir(sb, v, k) && |name| <= DIRSIZ
  {
    match r
    case Denied => name in DirMap(Bytes(sb, v, k)) && w == v
    case Done =>
      && name !in DirMap(Bytes(sb, v, k)) && !NoRoom(sb, v, k)
      && Became(sb, v, w, k, DIRENT * FreeFrom(Bytes(sb, v, k), 0), Dirent(name, inum % 0x1_0000))
      && ReadyDir(sb, w, k)
      && DirMap(Bytes(sb, w, k)) == Bind(DirMap(Bytes(sb, v, k)), name, inum % 0x1_0000)
      && (Dots(Bytes(sb, v, k)) ==> Dots(Bytes(sb, w, k)))
    case Fatal => name !in DirMap(Bytes(sb, v, k)) && NoRoom(sb, v, k)
  }

  /** dirlink: Fatal is any of its panics. */
  method Dirlink(fs: FileSystem, k: nat, name: seq<Byte>, inum: nat) returns (r: Change)
    requires Ready(fs.sb, Now(fs), k) && Readable(name, DIRSIZ) && inum < UINT
    modifies fs
    ensures fs.Valid() && |Name(name, DIRSIZ)| <= DIRSIZ
    ensures old(Now(fs)).ips[k].typ != T_DIR ==> r.Fatal? && Now(fs) == old(Now(fs))
    ensures ReadyDir(fs.sb, old(Now(fs)), k) ==> LinkOutcome(fs.sb, old(Now(fs)), Now(fs), k, Name(name, DIRSIZ), inum, r)
  {
    NameBound(name, DIRSIZ);
    ghost var v, nm := Now(fs), Name(name, DIRSIZ);
    hide Ready, Bytes, Name, FreeCount, Became, DirOk, DirMap, Answers, Dots, NoRoom;
    StillValid(fs);
    var l := Dirlookup(fs, k, name);
    LookupReady(fs.sb, v, k, nm, l);
    if l.NotDir? || l.BadRead? {
      return Fatal;
    }
    if l.Hit? {
      return Denied;
    }
    var ok := WriteEntry(fs, k, name, inum);
    if !ok {
      return Fatal;
    }
    if ReadyDir(fs.sb, v, k) {
      LinkBecame(fs.sb, v, Now(fs), k, nm, inum);
    }
    r := Done;
  }

  lemma StillValid(fs: FileSystem)
    requires exists k :: Ready(fs.sb, Now(fs), k)
    ensures fs.Valid()
  {
  }

  lemma LookupReady(sb: Bitmap.Super, v: Image, k: nat, name: seq<Byte>, l: Lookup)
    requires Ready(sb, v, k) && Answers(Bytes(sb, v, k), name, l) && (l.NotDir? <==> v.ips[k].typ != T_DIR)
    ensures ReadyDir(sb, v, k) ==> !l.NotDir? && !l.BadRead? && (l.Hit? <==> name in DirMap(Bytes(sb, v, k)))
    ensures ReadyDir(sb, v, k) ==> v.ips[k].size % DIRENT == 0
    ensures ReadyDir(sb, v, k) && l.Hit? ==> DirMap(Bytes(sb, v, k))[name] == l.inum
  {
    hide Ready, Bytes, DirMap;
    if ReadyDir(sb, v, k) {
      LookupIsMap(Bytes(sb, v, k), name, l);
    }
  }

  /** The second half of dirlink: find a free entry and write it. */
  method WriteEntry(fs: FileSystem, k: nat, name: seq<Byte>, inum: nat) returns (ok: bool)
    requires Ready(fs.sb, Now(fs), k) && Now(fs).ips[k].typ == T_DIR && Readable(name, DIRSIZ) && |Name(name, DIRSIZ)| <= DIRSIZ
    modifies fs
    ensures fs.Valid()
    ensures ok ==> Became(fs.sb, old(Now(fs)), Now(fs), k,
                          DIRENT * FreeFrom(Bytes(fs.sb, old(Now(fs)), k), 0), Dirent(Name(name, DIRSIZ), inum % 0x1_0000))
    ensures ok ==> !NoRoom(fs.sb, old(Now(fs)), k)
    ensures !ok ==> old(Now(fs)).ips[k].size % DIRENT != 0 || NoRoom(fs.sb, old(Now(fs)), k)
  {
    hide Ready, Bytes, Name, FreeCount, Growth, Became, MapUpTo;
    StillValid(fs);
    var off;
    ok, off := FindFree(fs, k);
    if !ok {
      return;
    }
    var bytes := Strncpy(name, DIRSIZ);
    var n := inum % 0x1_0000;
    ok := StoreEntry(fs, k, off, [n % 0x100, n / 0x100] + bytes);
  }

  lemma LinkBecame(sb: Bitmap.Super, v: Image, w: Image, k: nat, name: seq<Byte>, inum: nat)
    requires ReadyDir(sb, v, k) && |name| <= DIRSIZ && 0 !in name && name !in DirMap(Bytes(sb, v, k))
    requires Became(sb, v, w, k, DIRENT * FreeFrom(Bytes(sb, v, k), 0), Dirent(name, inum % 0x1_0000))
    ensures ReadyDir(sb, w, k) && Bytes(sb, w, k) == Link(Bytes(sb, v, k), name, inum)
    ensures DirMap(Bytes(sb, w, k)) == Bind(DirMap(Bytes(sb, v, k)), name, inum % 0x1_0000)
    ensures Dots(Bytes(sb, v, k)) ==> Dots(Bytes(sb, w, k))
  {
    hide Ready, Bytes, Became, MapUpTo, Splice;
    BecameBytes(sb, v, w, k, DIRENT * FreeFrom(Bytes(sb, v, k), 0), Dirent(name, inum % 0x1_0000));
    LinkExactly(Bytes(sb, v, k), name, inum);
    if Dots(Bytes(sb, v, k)) {
      LinkKeepsDots(Bytes(sb, v, k), name, inum);
    }
  }

  /** The binding added, unless the number is 0. */
  function Bind(m: map<seq<Byte>, nat>, name: seq<Byte>, v: nat): map<seq<Byte>, nat> {
    if v == 0 then m else m[name := v]
  }

  lemma ClearBecame(sb: Bitmap.Super, v: Image, w: Image, k: nat, i: nat, e: seq<Byte>)
    requires ReadyDir(sb, v, k) && Live(Bytes(sb, v, k), i) && |e| == DIRENT && Inum(e) == 0
    requires Became(sb, v, w, k, DIRENT * i, e)
    ensures ReadyDir(sb, w, k)
    ensures DirMap(Bytes(sb, w, k)) == DirMap(Bytes(sb, v, k)) - {EntryName(Slot(Bytes(sb, v, k), i))}
    ensures Dots(Bytes(sb, v, k)) && EntryName(Slot(Bytes(sb, v, k), i)) !in {DOT, DOTDOT} ==> Dots(Bytes(sb, w, k))
  {
    hide Ready, Bytes, Became, MapUpTo, Splice, Slot, Inum, EntryName;
    BecameBytes(sb, v, w, k, DIRENT * i, e);
    ClearMap(Bytes(sb, v, k), i, e);
    if Dots(Bytes(sb, v, k)) && EntryName(Slot(Bytes(sb, v, k), i)) !in {DOT, DOTDOT} {
      ClearKeepsDots(Bytes(sb, v, k), i, e);
    }
  }

  /** What unlink writes over an entry. */
  function DeadEntry(): (e: seq<Byte>)
    ensures |e| == DIRENT && Inum(e) == 0
  {
    seq(DIRENT, _ => 0)
  }

  /** The link count of an inode, a signed short. */
  function Links(ip: Inode): int {
    if ip.nlink < 0x8000 then ip.nlink else ip.nlink - 0x1_0000
  }

  /** The link count of inode j is a positive short. */
  ghost predicate Linkable(v: Image, j: nat) {
    j < |v.ips| && 1 <= v.ips[j].nlink < 0x8000
  }

  /** The inode is a directory with something but "." and ".." in it. */
  ghost predicate Occupied(sb: Bitmap.Super, v: Image, j: nat) {
    Ready(sb, v, j) && v.ips[j].typ == T_DIR && !NothingElse(Bytes(sb, v, j))
  }

  /** The inode is a directory with nothing else in it whose last entry, past the second, is cut off. */
  ghost predicate Torn(sb: Bitmap.Super, v: Image, j: nat) {
    Ready(sb, v, j) && v.ips[j].typ == T_DIR && NothingElse(Bytes(sb, v, j)) && CutOff(v.ips[j].size)
  }

  predicate CutOff(size: nat) {
    size > 32 && size % 16 != 0
  }

  /** unlink's checks on the inode behind the name: Fatal is a panic, Denied a directory that is not empty. */
  method CheckTarget(fs: FileSystem, j: nat) returns (r: Change)
    requires Ready(fs.sb, Now(fs), j)
    modifies fs
    ensures Now(fs) == old(Now(fs))
    ensures r.Fatal? <==> !Linkable(Now(fs), j) || Torn(fs.sb, Now(fs), j)
    ensures r.Denied? <==> Linkable(Now(fs), j) && Occupied(fs.sb, Now(fs), j)
  {
    OccupiedIs(fs.sb, Now(fs), j);
    LinksIs(fs.sb, Now(fs), j);
    hide Ready, Bytes, NothingElse, Links;
    if Links(fs.inodes[j]) < 1 {
      return Fatal;
    }
    if fs.inodes[j].typ == T_DIR {
      var ok, empty := Isdirempty(fs, j);
      if !ok {
        return Fatal;
      }
      if !empty {
        return Denied;
      }
    }
    return Done;
  }

  /** Every live entry of k names an inode in order. */
  ghost predicate Linked(sb: Bitmap.Super, v: Image, k: nat)
    requires Ready(sb, v, k)
  {
    forall i :: Live(Bytes(sb, v, k), i) ==> Ready(sb, v, Inum(Slot(Bytes(sb, v, k), i)))
  }

  /**
   What unlink does to a directory in order.  It is refused exactly for "." and
   "..", for names that are not bound and for directories that are not empty,
   and panics exactly for a link count that is not positive and for a directory
   that is cut off; otherwise exactly this binding goes and no other file changes.
   */
  ghost predicate UnlinkOutcome(sb: Bitmap.Super, v: Image, w: Image, k: nat, name: seq<Byte>, r: Change)
    requires ReadyDir(sb, v, k)
  {
    var m := DirMap(Bytes(sb, v, k));
    var bound := name !in {DOT, DOTDOT} && name in m;
    && (r.Denied? <==> !bound || (Linkable(v, m[name]) && Occupied(sb, v, m[name])))
    && (r.Fatal? <==> bound && (!Linkable(v, m[name]) || Torn(sb, v, m[name])))
    && (!r.Done? ==> w == v)
    && (r.Done? ==>
          && (exists i :: Live(Bytes(sb, v, k), i) && Became(sb, v, w, k, DIRENT * i, DeadEntry()))
          && ReadyDir(sb, w, k)
          && DirMap(Bytes(sb, w, k)) == m - {name}
          && (Dots(Bytes(sb, v, k)) ==> Dots(Bytes(sb, w, k))))
  }

  /** unlink's write: the entry dies; the write stays inside the file, so it cannot panic. */
  method ClearEntry(fs: FileSystem, k: nat, off: nat)
    requires Ready(fs.sb, Now(fs), k) && Now(fs).ips[k].typ == T_DIR && off % DIRENT == 0
    requires off / DIRENT < Count(Bytes(fs.sb, Now(fs), k))
    modifies fs
    ensures fs.Valid() && Became(fs.sb, old(Now(fs)), Now(fs), k, off, DeadEntry())
  {
    hide Ready, Bytes, Became, DeadEntry, FreeCount;
    var ok := StoreEntry(fs, k, off, DeadEntry());
  }

  /** unlink up to the write; Fatal is any of its panics. */
  method Unlink(fs: FileSystem, k: nat, name: seq<Byte>) returns (r: Change)
    requires Ready(fs.sb, Now(fs), k) && Linked(fs.sb, Now(fs), k) && Readable(name, DIRSIZ)
    modifies fs
    ensures fs.Valid()
    ensures ReadyDir(fs.sb, old(Now(fs)), k) ==> UnlinkOutcome(fs.sb, old(Now(fs)), Now(fs), k, Name(name, DIRSIZ), r)
    ensures old(Now(fs)).ips[k].typ != T_DIR && Name(name, DIRSIZ) !in {DOT, DOTDOT} ==> r.Fatal? && Now(fs) == old(Now(fs))
  {
    DotNames();
    ghost var v, nm := Now(fs), Name(name, DIRSIZ);
    hide Ready, Bytes, Name, Became, DirOk, DirMap, Inum, Dots, DeadEntry, Occupied, Torn, Linkable, NothingElse, Slot;
    StillValid(fs);
    var x := Strncmp(name, [46, 0], DIRSIZ);
    var y := Strncmp(name, [46, 46, 0], DIRSIZ);
    if x == 0 || y == 0 {
      return Denied;
    }
    var l := Dirlookup(fs, k, name);
    LookupReady(fs.sb, v, k, nm, l);
    if l.NotDir? || l.BadRead? {
      return Fatal;
    }
    if l.Miss? {
      return Denied;
    }
    r := CheckTarget(fs, l.inum);
    if !r.Done? {
      return;
    }
    ClearEntry(fs, k, l.off);
    if ReadyDir(fs.sb, v, k) {
      ClearBecame(fs.sb, v, Now(fs), k, l.off / DIRENT, DeadEntry());
    }
  }

  lemma OccupiedIs(sb: Bitmap.Super, v: Image, j: nat)
    requires Ready(sb, v, j)
    ensures j < |v.ips| && (Occupied(sb, v, j) <==> v.ips[j].typ == T_DIR && !NothingElse(Bytes(sb, v, j)))
    ensures Torn(sb, v, j) <==> v.ips[j].typ == T_DIR && NothingElse(Bytes(sb, v, j)) && CutOff(v.ips[j].size)
  {
  }

  /** The sign of the link count, read from its 16 bits. */
  lemma LinksIs(sb: Bitmap.Super, v: Image, j: nat)
    requires Ready(sb, v, j)
    ensures j < |v.ips| && (Links(v.ips[j]) >= 1 <==> Linkable(v, j))
  {
    InodeFine(sb, v.d, v.ips, v.ts, v.owner, j);
  }

  lemma DotNames()
    ensures Name([46, 0], DIRSIZ) == DOT && Name([46, 46, 0], DIRSIZ) == DOTDOT
  {
    assert [46, 0][1..] == [0] && [46, 46, 0][1..] == [46, 0];
  }

  /** isdirempty: is every entry from the third on dead?  !ok is its panic. */
  method Isdirempty(fs: FileSystem, k: nat) returns (ok: bool, empty: bool)
    requires Ready(fs.sb, Now(fs), k) && Now(fs).ips[k].typ == T_DIR
    modifies fs
    ensures Now(fs) == old(Now(fs))
    ensures !ok <==> CutOff(Now(fs).ips[k].size) && NothingElse(Bytes(fs.sb, Now(fs), k))
    ensures ok ==> (empty <==> NothingElse(Bytes(fs.sb, Now(fs), k)))
  {
    hide Ready, Bytes, Slot, Inum;
    ghost var c := Bytes(fs.sb, Now(fs), k);
    var i := 2;
    while DIRENT * i < fs.inodes[k].size
      invariant Now(fs) == old(Now(fs)) && 2 <= i && (i <= Count(c) || i == 2)
      invariant forall j :: 2 <= j < i ==> !Live(c, j)
    {
      var got, e := ReadEntry(fs, k, i);
      if !got {
        return false, false;
      }
      if Inum(e) != 0 {
        assert Live(c, i);
        return true, false;
      }
      i := i + 1;
    }
    return true, true;
  }
}
