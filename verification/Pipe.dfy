/** The pipe ring buffer of pipe.c, with its wrapping 32-bit counters. */
module Pipe {
  import opened Blocks

  const PIPESIZE: nat := 512

  /** The fields of struct pipe that move bytes. */
  datatype Ring = Ring(data: Slots, nread: nat, nwrite: nat)

  type Slots = s: seq<Byte> | |s| == PIPESIZE witness seq(PIPESIZE, _ => 0)

  /** The test at pipe.c:84, in unsigned 32-bit arithmetic. */
  predicate Full(p: Ring) {
    p.nwrite == (p.nread + PIPESIZE) % UINT
  }

  predicate Empty(p: Ring) {
    p.nread == p.nwrite
  }

  function Put(p: Ring, b: Byte): Ring {
    p.(data := p.data[p.nwrite % PIPESIZE := b], nwrite := (p.nwrite + 1) % UINT)
  }

  function Head(p: Ring): Byte {
    p.data[p.nread % PIPESIZE]
  }

  function Take(p: Ring): Ring {
    p.(nread := (p.nread + 1) % UINT)
  }

  /** The ring after `stored` went in and `delivered` came out. */
  ghost predicate Carries(p: Ring, stored: seq<Byte>, delivered: seq<Byte>) {
    && delivered <= stored
    && |stored| - |delivered| <= PIPESIZE
    && p.nread == |delivered| % UINT && p.nwrite == |stored| % UINT
    && forall k :: |delivered| <= k < |stored| ==> p.data[k % PIPESIZE] == stored[k]
  }

  /** Wrapping a counter does not disturb its slot, since PIPESIZE divides 2^32. */
  lemma SlotOfCounter(x: nat)
    ensures (x % UINT) % PIPESIZE == x % PIPESIZE
  {
    assert x == UINT * (x / UINT) + x % UINT;
    assert UINT == PIPESIZE * 0x80_0000;
    assert x == PIPESIZE * (0x80_0000 * (x / UINT)) + x % UINT;
  }

  /** Wrapped counters less than 2^32 apart determine the distance. */
  lemma WrappedDistance(r: nat, w: nat, d: nat)
    requires r <= w < r + UINT && d < UINT
    ensures w % UINT == (r % UINT + d) % UINT <==> w == r + d
  {
    assert (r % UINT + d) % UINT == (r + d) % UINT by {
      assert r + d == UINT * (r / UINT) + (r % UINT + d);
    }
    if w % UINT == (r + d) % UINT {
      var q := w / UINT - (r + d) / UINT;
      assert w - (r + d) == UINT * q;
      assert 0 - UINT < UINT * q < UINT;
      assert q == 0;
    }
  }

  lemma SlotsApart(k: nat, m: nat)
    requires k < m < k + PIPESIZE
    ensures k % PIPESIZE != m % PIPESIZE
  {
    assert m - k == PIPESIZE * (m / PIPESIZE - k / PIPESIZE) + (m % PIPESIZE - k % PIPESIZE);
  }

  /** The counter tests mean what they should, whatever has wrapped. */
  lemma CounterTests(p: Ring, stored: seq<Byte>, delivered: seq<Byte>)
    requires Carries(p, stored, delivered)
    ensures Full(p) <==> |stored| == |delivered| + PIPESIZE
    ensures Empty(p) <==> |stored| == |delivered|
    ensures (p.nwrite - p.nread) % UINT == |stored| - |delivered|
  {
    WrappedDistance(|delivered|, |stored|, PIPESIZE);
    WrappedDistance(|delivered|, |stored|, 0);
    var n := |stored| - |delivered|;
    WrappedDistance(|delivered|, |stored|, n);
  }

  lemma PutCarries(p: Ring, stored: seq<Byte>, delivered: seq<Byte>, b: Byte)
    requires Carries(p, stored, delivered) && !Full(p)
    ensures Carries(Put(p, b), stored + [b], delivered)
  {
    CounterTests(p, stored, delivered);
    SlotOfCounter(|stored|);
    var p' := Put(p, b);
    assert p'.nwrite == |stored + [b]| % UINT by {
      WrappedDistance(|stored|, |stored| + 1, 1);
    }
    forall k | |delivered| <= k < |stored + [b]|
      ensures p'.data[k % PIPESIZE] == (stored + [b])[k]
    {
      if k < |stored| {
        SlotsApart(k, |stored|);
      }
    }
  }

  lemma TakeCarries(p: Ring, stored: seq<Byte>, delivered: seq<Byte>)
    requires Carries(p, stored, delivered) && !Empty(p)
    ensures |delivered| < |stored| && Head(p) == stored[|delivered|]
    ensures Carries(Take(p), stored, delivered + [Head(p)])
  {
    CounterTests(p, stored, delivered);
    SlotOfCounter(|delivered|);
    WrappedDistance(|delivered|, |delivered| + 1, 1);
  }

  // ---------- Whole runs ----------

  datatype Event = In(b: Byte) | Out

  ghost predicate Step(p: Ring, e: Event, p': Ring) {
    match e
    case In(b) => !Full(p) && p' == Put(p, b)
    case Out => !Empty(p) && p' == Take(p)
  }

  /** Every interleaving of byte stores and byte loads that the two tests allow. */
  ghost predicate Run(ps: seq<Ring>, es: seq<Event>) {
    && |ps| == |es| + 1
    && ps[0].nread == 0 && ps[0].nwrite == 0
    && forall i :: 0 <= i < |es| ==> Step(ps[i], es[i], ps[i + 1])
  }

  function Stored(es: seq<Event>): seq<Byte> {
    if es == [] then []
    else
      var e := es[|es| - 1];
      Stored(es[..|es| - 1]) + if e.In? then [e.b] else []
  }

  ghost function Delivered(ps: seq<Ring>, es: seq<Event>): seq<Byte>
    requires |ps| == |es| + 1
    decreases |es|
  {
    if es == [] then []
    else
      var n := |es| - 1;
      Delivered(ps[..n + 1], es[..n]) + if es[n].Out? then [Head(ps[n])] else []
  }

  /**
   Over every run the bytes delivered are a prefix of the bytes stored, the
   32-bit difference of the counters is the number of bytes in between, and it
   never exceeds PIPESIZE, however often the counters wrap.
   */
  lemma {:induction false} DeliveredIsPrefix(ps: seq<Ring>, es: seq<Event>)
    requires Run(ps, es)
    ensures Carries(ps[|es|], Stored(es), Delivered(ps, es))
    ensures Delivered(ps, es) <= Stored(es)
    ensures (ps[|es|].nwrite - ps[|es|].nread) % UINT == |Stored(es)| - |Delivered(ps, es)| <= PIPESIZE
    decreases |es|
  {
    if es != [] {
      var n := |es| - 1;
      assert Step(ps[n], es[n], ps[n + 1]);
      DeliveredIsPrefix(ps[..n + 1], es[..n]);
      var stored, delivered := Stored(es[..n]), Delivered(ps[..n + 1], es[..n]);
      match es[n]
      case In(b) => PutCarries(ps[n], stored, delivered, b);
      case Out => TakeCarries(ps[n], stored, delivered);
    }
    CounterTests(ps[|es|], Stored(es), Delivered(ps, es));
  }

  // ---------- pipe.c ----------

  datatype Outcome = Done | Asleep | Failed

  class PipeBuf {
    const data: array<Byte>
    var nread: nat
    var nwrite: nat
    var readopen: bool
    var writeopen: bool
    // All bytes that ever went in and came out.
    ghost var stored: seq<Byte>
    ghost var delivered: seq<Byte>

    ghost predicate Valid()
      reads this, data
    {
      data.Length == PIPESIZE && Carries(Ring(data[..], nread, nwrite), stored, delivered)
    }

    /** The field initialisation in pipealloc. */
    constructor ()
      ensures Valid() && fresh(data) && stored == delivered == [] && readopen && writeopen
    {
      data := new Byte[PIPESIZE](_ => 0);
      nread, nwrite, readopen, writeopen := 0, 0, true, true;
      stored, delivered := [], [];
    }

    /** pipeclose; `freed` when the other end was closed already. */
    method Close(writable: bool) returns (freed: bool)
      requires Valid()
      modifies this`readopen, this`writeopen
      ensures Valid() && freed == (!readopen && !writeopen)
      ensures writeopen == (old(writeopen) && !writable) && readopen == (old(readopen) && writable)
    {
      if writable {
        writeopen := false;
      } else {
        readopen := false;
      }
      freed := !readopen && !writeopen;
    }

    /**
     pipewrite from byte i on, up to the point where it returns or sleeps: the
     bytes up to j are stored in order, and it stops early only on a full pipe.
     */
    method Write(addr: seq<Byte>, i: nat, killed: bool) returns (j: nat, r: Outcome)
      requires Valid() && i <= |addr|
      modifies this`nwrite, this`stored, data
      ensures Valid() && i <= j <= |addr|
      ensures stored == old(stored) + addr[i..j]
      ensures r.Done? <==> j == |addr|
      ensures !r.Done? ==> |stored| - |delivered| == PIPESIZE && (r.Failed? <==> !readopen || killed)
    {
      j := i;
      while j < |addr|
        invariant i <= j <= |addr| && Valid() && stored == old(stored) + addr[i..j]
      {
        ghost var p := Ring(data[..], nread, nwrite);
        CounterTests(p, stored, delivered);
        if nwrite == (nread + PIPESIZE) % UINT {
          return j, if !readopen || killed then Failed else Asleep;
        }
        PutCarries(p, stored, delivered, addr[j]);
        data[nwrite % PIPESIZE] := addr[j];
        nwrite := (nwrite + 1) % UINT;
        stored := stored + [addr[j]];
        assert Ring(data[..], nread, nwrite) == Put(p, addr[j]);
        assert addr[i..j + 1] == addr[i..j] + [addr[j]];
        j := j + 1;
      }
      r := Done;
    }

    /**
     piperead, one attempt: sleeps or fails only on an empty pipe with a writer,
     otherwise returns the next min(n, available) bytes in order.
     */
    method Read(n: int, killed: bool) returns (bytes: seq<Byte>, r: Outcome)
      requires Valid()
      modifies this`nread, this`delivered
      ensures Valid() && delivered == old(delivered) + bytes
      ensures !r.Done? <==> old(delivered) == stored && writeopen
      ensures !r.Done? ==> bytes == [] && (r.Failed? <==> killed)
      ensures r.Done? ==> |bytes| == if n < 0 then 0 else if n < |stored| - |old(delivered)| then n else |stored| - |old(delivered)|
    {
      bytes := [];
      ghost var was := delivered;
      CounterTests(Ring(data[..], nread, nwrite), stored, delivered);
      if nread == nwrite && writeopen {
        return [], if killed then Failed else Asleep;
      }
      var i := 0;
      while i < n
        invariant Valid() && delivered == was + bytes && |bytes| == i && (i <= n || i == 0)
      {
        ghost var p := Ring(data[..], nread, nwrite);
        CounterTests(p, stored, delivered);
        if nread == nwrite {
          break;
        }
        TakeCarries(p, stored, delivered);
        bytes := bytes + [data[nread % PIPESIZE]];
        delivered := delivered + [data[nread % PIPESIZE]];
        nread := (nread + 1) % UINT;
        assert Ring(data[..], nread, nwrite) == Take(p);
        i := i + 1;
      }
      r := Done;
    }
  }
}
