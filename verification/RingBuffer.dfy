/** The pointer ring of ringbuffer/ringbuffer.c, for one producer and one consumer.  Head and
    tail indices are 32 bits wide and run on for ever; they are masked only to find a slot. */
module RingBuffer {
  import opened Modular

  const U32: nat := 0x1_0000_0000

  /** Sum and difference of two 32-bit values. */
  function Plus(a: nat, b: nat): nat { (a + b) % U32 }

  function Minus(a: nat, b: nat): nat
    requires b <= U32
  {
    (a + (U32 - b)) % U32
  }

  /** index & (size - 1), for a size that is a power of two. */
  function Masked(c: nat, size: nat): (p: nat)
    requires size > 0
    ensures p < size
  {
    c % size
  }

  predicate DividesU32(size: nat) { 0 < size < U32 && U32 % size == 0 }

  /** The test of ringbuf_get_memsize on a 32-bit count. */
  predicate Accepted(count: bv32) { (count - 1) & count == 0 && count <= 0x0fff_ffff }

  /** A count that passes is a size a ring can have, or 0, which passes too. */
  lemma AcceptedExactly(count: bv32)
    ensures Accepted(count) <==> count in {
      0, 1, 2, 4, 8, 0x10, 0x20, 0x40, 0x80, 0x100, 0x200, 0x400, 0x800, 0x1000, 0x2000, 0x4000, 0x8000, 0x1_0000,
      0x2_0000, 0x4_0000, 0x8_0000, 0x10_0000, 0x20_0000, 0x40_0000, 0x80_0000, 0x100_0000, 0x200_0000, 0x400_0000,
      0x800_0000}
  {
  }

  lemma AcceptedDivides(count: bv32)
    requires Accepted(count) && count != 0
    ensures DividesU32(count as nat)
  {
    AcceptedExactly(count);
  }

  /** The ring of no slots takes any number of objects: its mask is 2^32 - 1 and so is the number
      of free entries its producer computes, although every slot is outside it. */
  lemma ZeroRingTakesAll(n: nat)
    requires n < U32
    ensures Accepted(0) && var mask := Minus(0, 1); n <= Minus(mask + 0, 0)
  {
  }

  /** The slot i places after slot idx of a ring of `size` slots, and back. */
  function Slot(size: nat, idx: nat, i: nat): nat { if idx + i < size then idx + i else idx + i - size }

  function Offset(size: nat, idx: nat, p: nat): nat
    requires p < size && idx < size
  {
    if p >= idx then p - idx else p + size - idx
  }

  // ------------------------------------------------------------------ copying

  /** The ring after objs[..k] have been put one by one into the slots from idx on. */
  ghost predicate PutUpTo(ring: seq<int>, was: seq<int>, idx: nat, objs: seq<int>, k: nat) {
    && |ring| == |was| && idx < |was| && k <= |objs|
    && forall p :: 0 <= p < |ring| ==>
         ring[p] == if Offset(|ring|, idx, p) < k then objs[Offset(|ring|, idx, p)] else was[p]
  }

  /** One assignment of the copy. */
  method PutOne(ring: array<int>, objs: seq<int>, start: nat, i: nat, idx: nat, ghost was: seq<int>)
    requires start < ring.Length && |objs| < ring.Length && i < |objs| && idx == Slot(ring.Length, start, i)
    requires PutUpTo(ring[..], was, start, objs, i)
    modifies ring
    ensures PutUpTo(ring[..], was, start, objs, i + 1)
  {
    ring[idx] := objs[i];
  }

  lemma PutNothing(ring: seq<int>, idx: nat, objs: seq<int>)
    requires idx < |ring|
    ensures PutUpTo(ring, ring, idx, objs, 0)
  {
  }

  /** The copy that does not wrap: blocks of four, then the rest. */
  method PutStraight(ring: array<int>, objs: seq<int>, start: nat)
    requires start + |objs| < ring.Length
    modifies ring
    ensures PutUpTo(ring[..], old(ring[..]), start, objs, |objs|)
  {
    hide PutUpTo;
    ghost var was := ring[..];
    var n, idx, i := |objs|, start, 0;
    PutNothing(was, start, objs);
    while i < n - n % 4
      invariant 0 <= i <= n - n % 4 && i % 4 == 0 && idx == start + i
      invariant PutUpTo(ring[..], was, start, objs, i)
    {
      PutOne(ring, objs, start, i, idx, was);
      PutOne(ring, objs, start, i + 1, idx + 1, was);
      PutOne(ring, objs, start, i + 2, idx + 2, was);
      PutOne(ring, objs, start, i + 3, idx + 3, was);
      i, idx := i + 4, idx + 4;
    }
    if n % 4 == 3 { PutOne(ring, objs, start, i, idx, was); idx, i := idx + 1, i + 1; }
    if n % 4 >= 2 { PutOne(ring, objs, start, i, idx, was); idx, i := idx + 1, i + 1; }
    if n % 4 >= 1 { PutOne(ring, objs, start, i, idx, was); idx, i := idx + 1, i + 1; }
  }

  /** The copy that wraps, in two parts. */
  method PutWrapped(ring: array<int>, objs: seq<int>, start: nat)
    requires start < ring.Length && |objs| < ring.Length <= start + |objs|
    modifies ring
    ensures PutUpTo(ring[..], old(ring[..]), start, objs, |objs|)
  {
    hide PutUpTo;
    ghost var was := ring[..];
    var n, size, idx, i := |objs|, ring.Length, start, 0;
    PutNothing(was, start, objs);
    while idx < size
      invariant start <= idx <= size && i == idx - start <= n
      invariant PutUpTo(ring[..], was, start, objs, i)
    {
      PutOne(ring, objs, start, i, idx, was);
      i, idx := i + 1, idx + 1;
    }
    idx := 0;
    while i < n
      invariant size - start <= i <= n && idx == i - (size - start)
      invariant PutUpTo(ring[..], was, start, objs, i)
    {
      PutOne(ring, objs, start, i, idx, was);
      i, idx := i + 1, idx + 1;
    }
  }

  /** ENQUEUE_PTRS: the copy in blocks of four with its tail, and the copy in two parts, are the
      plain copy slot by slot. */
  method EnqueuePtrs(ring: array<int>, objs: seq<int>, start: nat)
    requires start < ring.Length && |objs| < ring.Length
    modifies ring
    ensures PutUpTo(ring[..], old(ring[..]), start, objs, |objs|)
  {
    if start + |objs| < ring.Length { PutStraight(ring, objs, start); } else { PutWrapped(ring, objs, start); }
  }

  /** DEQUEUE_PTRS, likewise: the n elements from slot `start` on, in order. */
  method DequeuePtrs(ring: array<int>, start: nat, n: nat) returns (objs: seq<int>)
    requires start < ring.Length && n < ring.Length
    ensures |objs| == n && forall i :: 0 <= i < n ==> objs[i] == ring[Slot(ring.Length, start, i)]
  {
    var size, idx, i := ring.Length, start, 0;
    objs := [];
    if idx + n < size {
      while i < n - n % 4
        invariant 0 <= i <= n - n % 4 && i % 4 == 0 && idx == start + i && |objs| == i
        invariant forall j :: 0 <= j < i ==> objs[j] == ring[start + j]
      {
        objs := objs + [ring[idx], ring[idx + 1], ring[idx + 2], ring[idx + 3]];
        i, idx := i + 4, idx + 4;
      }
      if n % 4 == 3 { objs := objs + [ring[idx]]; idx, i := idx + 1, i + 1; }
      if n % 4 >= 2 { objs := objs + [ring[idx]]; idx, i := idx + 1, i + 1; }
      if n % 4 >= 1 { objs := objs + [ring[idx]]; idx, i := idx + 1, i + 1; }
    } else {
      while idx < size
        invariant start <= idx <= size && i == idx - start <= n && |objs| == i
        invariant forall j :: 0 <= j < i ==> objs[j] == ring[start + j]
      {
        objs := objs + [ring[idx]];
        i, idx := i + 1, idx + 1;
      }
      idx := 0;
      while i < n
        invariant size - start <= i <= n && idx == i - (size - start) && |objs| == i
        invariant forall j :: 0 <= j < i ==> objs[j] == ring[Slot(size, start, j)]
      {
        objs := objs + [ring[idx]];
        i, idx := i + 1, idx + 1;
      }
    }
  }

  // ------------------------------------------------------------------ indices

  /** Adding k to an index advances its slot by k. */
  lemma SlotMoves(c: nat, k: nat, size: nat)
    requires k < size
    ensures (c + k) % size == Slot(size, c % size, k)
  {
    var q, r := c / size, c % size;
    if r + k < size {
      QuotientUnique(c + k, q, r + k, size);
    } else {
      assert (q + 1) * size == q * size + size;
      QuotientUnique(c + k, q + 1, r + k - size, size);
    }
  }

  /** Wrapping an index at 2^32 keeps its slot. */
  lemma WrapKeepsSlot(x: nat, size: nat)
    requires DividesU32(size)
    ensures x % U32 % size == x % size
  {
    var laps, q, r := U32 / size, x / U32, x % U32;
    assert U32 == laps * size;
    assert q * U32 == q * laps * size;
    assert x == (q * laps + r / size) * size + r % size;
    QuotientUnique(x, q * laps + r / size, r % size, size);
  }

  /** Advancing an index by k, with wrap-around, advances its slot by k. */
  lemma SlotAdvances(c: nat, k: nat, size: nat)
    requires DividesU32(size) && k < size
    ensures Masked(Plus(c, k), size) == Slot(size, Masked(c, size), k)
  {
    SlotMoves(c, k, size);
    WrapKeepsSlot(c + k, size);
  }

  lemma SlotsCompose(size: nat, idx: nat, a: nat, b: nat)
    requires idx < size && a < size && b < size && a + b < size
    ensures Slot(size, idx, a) < size && Slot(size, Slot(size, idx, a), b) == Slot(size, idx, a + b)
    ensures Offset(size, idx, Slot(size, idx, a)) == a
  {
  }

  datatype Result = Done | QuotaExceeded | NoRoom | NoEntries

  class Ring {
    const size: nat
    const ring: array<int>
    var watermark: nat
    var prodHead: nat
    var prodTail: nat
    var consHead: nat
    var consTail: nat

    /** The ring holds the elements q, oldest first. */
    ghost predicate Valid(q: seq<int>)
      reads this, ring
    {
      && DividesU32(size) && size == ring.Length
      && prodHead == prodTail < U32 && consHead == consTail < U32
      && |q| < size && prodTail == Plus(consTail, |q|)
      && forall i :: 0 <= i < |q| ==> ring[Slot(size, Masked(consTail, size), i)] == q[i]
    }

    /** ringbuf_init of a count that ringbuf_get_memsize accepts: a ring, except for 0. */
    constructor (count: bv32)
      requires Accepted(count)
      ensures size == watermark == ring.Length == count as nat && fresh(ring)
      ensures count != 0 <==> Valid([])
    {
      size, watermark := count as nat, count as nat;
      ring := new int[count as nat](_ => 0);
      prodHead, prodTail, consHead, consTail := 0, 0, 0, 0;
      new;
      if count != 0 { AcceptedDivides(count); }
    }

    /** ringbuffer_sp_do_enqueue: all of objs or nothing, to the capacity of size - 1. */
    method Enqueue(objs: seq<int>, ghost q: seq<int>) returns (r: Result)
      requires Valid(q) && |objs| < U32
      modifies this`prodHead, this`prodTail, ring
      ensures |q| + |objs| <= size - 1 <==> r != NoRoom
      ensures r == NoRoom ==> Valid(q)
      ensures r != NoRoom ==> Valid(q + objs)
      ensures r == QuotaExceeded <==> r != NoRoom && |q| + |objs| + 1 > watermark
      ensures watermark == size ==> r != QuotaExceeded
      ensures r != NoEntries
    {
      var mask, n := size - 1, |objs|;
      var free := Minus(mask + consTail, prodHead);
      FreeEntries(size, consTail, |q|);
      Composes(consTail, |q|, n);
      hide Plus; hide Minus; hide Masked; hide PutUpTo; hide Offset;
      if n > free { return NoRoom; }
      var next := Plus(prodHead, n);
      prodHead := next;
      ghost var was, idx := ring[..], Masked(consTail, size);
      SlotAdvances(consTail, |q|, size);
      EnqueuePtrs(ring, objs, Masked(prodTail, size));
      prodTail := next;
      forall i | 0 <= i < |q + objs| ensures ring[Slot(size, idx, i)] == (q + objs)[i] {
        PutKeeps(ring[..], was, idx, q, objs, i);
      }
      r := if mask + 1 - free + n > watermark then QuotaExceeded else Done;
    }

    /** ringbuffer_sc_do_dequeue: the n oldest elements or nothing. */
    method Dequeue(n: nat, ghost q: seq<int>) returns (r: Result, objs: seq<int>)
      requires Valid(q) && n < U32
      modifies this`consHead, this`consTail
      ensures n <= |q| <==> r == Done
      ensures r == Done ==> objs == q[..n] && Valid(q[n..])
      ensures r != Done ==> r == NoEntries && objs == [] && Valid(q)
    {
      var entries := Minus(prodTail, consHead);
      Entries(consTail, |q|);
      if n <= |q| { Composes(consTail, n, |q| - n); }
      hide Plus; hide Minus; hide Masked; hide Offset;
      objs := [];
      if n > entries { return NoEntries, []; }
      var next := Plus(consHead, n);
      consHead := next;
      objs := DequeuePtrs(ring, Masked(consTail, size), n);
      SlotAdvances(consTail, n, size);
      ghost var idx := Masked(consTail, size);
      consTail := next;
      forall i | 0 <= i < |q[n..]| ensures ring[Slot(size, Masked(consTail, size), i)] == q[n..][i] {
        SlotsCompose(size, idx, n, i);
      }
      r := Done;
    }
  }

  /** The free entries the producer computes in 32-bit arithmetic. */
  lemma FreeEntries(size: nat, c: nat, n: nat)
    requires 0 < size < U32 && c < U32 && n < size
    ensures Minus(size - 1 + c, Plus(c, n)) == size - 1 - n
  {
  }

  lemma Entries(c: nat, n: nat)
    requires c < U32 && n < U32
    ensures Minus(Plus(c, n), c) == n
  {
  }

  lemma Composes(c: nat, a: nat, b: nat)
    requires c < U32
    ensures Plus(Plus(c, a), b) == Plus(c, a + b) < U32
  {
  }

  /** Putting objs behind the q elements from slot idx on keeps those and adds these. */
  lemma PutKeeps(ring: seq<int>, was: seq<int>, idx: nat, q: seq<int>, objs: seq<int>, i: nat)
    requires idx < |ring| && |q| + |objs| < |ring| && i < |q| + |objs|
    requires PutUpTo(ring, was, Slot(|ring|, idx, |q|), objs, |objs|)
    requires forall j :: 0 <= j < |q| ==> was[Slot(|ring|, idx, j)] == q[j]
    ensures ring[Slot(|ring|, idx, i)] == (q + objs)[i]
  {
    var p := Slot(|ring|, idx, i);
    assert Offset(|ring|, Slot(|ring|, idx, |q|), p) == if i >= |q| then i - |q| else i - |q| + |ring|;
  }
}
