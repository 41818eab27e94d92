/** One producer and one consumer at work on the ring of ringbuffer/ringbuffer.c at the same
    time.  Each load and store of an index that the other side reads, and each slot copied, is
    one step, and a run is any interleaving of the two.  The indices in memory are 32 bits wide. */
module RingSpsc {
  import opened Modular
  import opened RingBuffer

  /** ringbuffer_sp_do_enqueue; `head` is the producer's copy of its index and `free` the number
      of free entries it computed. */
  datatype Producer =
    | PIdle
    | PLoad(objs: seq<int>)
    | PHead(objs: seq<int>, head: nat, free: nat)
    | PCopy(objs: seq<int>, head: nat, free: nat, i: nat)

  /** ringbuffer_sc_do_dequeue; `buf` is what has been copied out. */
  datatype Consumer =
    | CIdle
    | CLoad(n: nat)
    | CHead(n: nat, head: nat)
    | CCopy(n: nat, head: nat, buf: seq<int>)

  datatype Memory = Memory(slots: seq<int>, prodHead: nat, prodTail: nat, consHead: nat, consTail: nat)

  /** `put` is what finished enqueue calls have put in and `got` what finished dequeue calls have
      handed out, in order; `sent` and `taken` are how the last call of each side ended. */
  datatype State = State(size: nat, watermark: nat, m: Memory, p: Producer, c: Consumer,
                         put: seq<int>, got: seq<int>, sent: Result, taken: Result)

  /** A step of the producer or of the consumer; the argument is that of the next call. */
  datatype Event = Produce(objs: seq<int>) | Consume(n: nat)

  function ProducerStep(s: State, objs: seq<int>): State
    requires DividesU32(s.size) && |s.m.slots| == s.size && s.m.prodHead <= U32
  {
    match s.p
    case PIdle => if |objs| < U32 then s.(p := PLoad(objs)) else s
    case PLoad(objs) =>
      var free := Minus(s.size - 1 + s.m.consTail, s.m.prodHead);
      if |objs| > free then s.(p := PIdle, sent := NoRoom) else s.(p := PHead(objs, s.m.prodHead, free))
    case PHead(objs, head, free) => s.(m := s.m.(prodHead := Plus(head, |objs|)), p := PCopy(objs, head, free, 0))
    case PCopy(objs, head, free, i) =>
      if i < |objs| then
        var at := Slot(s.size, Masked(head, s.size), i);
        s.(m := s.m.(slots := if at < s.size then s.m.slots[at := objs[i]] else s.m.slots),
            p := PCopy(objs, head, free, i + 1))
      else
        s.(m := s.m.(prodTail := Plus(head, |objs|)), p := PIdle, put := s.put + objs,
           sent := if s.size - free + |objs| > s.watermark then QuotaExceeded else Done)
  }

  function ConsumerStep(s: State, n: nat): State
    requires DividesU32(s.size) && |s.m.slots| == s.size && s.m.consHead <= U32
  {
    match s.c
    case CIdle => if n < U32 then s.(c := CLoad(n)) else s
    case CLoad(n) =>
      if n > Minus(s.m.prodTail, s.m.consHead) then s.(c := CIdle, taken := NoEntries)
          else s.(c := CHead(n, s.m.consHead))
    case CHead(n, head) => s.(m := s.m.(consHead := Plus(head, n)), c := CCopy(n, head, []))
    case CCopy(n, head, buf) =>
      if |buf| < n then
        var at := Slot(s.size, Masked(head, s.size), |buf|);
        s.(c := CCopy(n, head, buf + [if at < s.size then s.m.slots[at] else 0]))
      else
        s.(m := s.m.(consTail := Plus(head, n)), c := CIdle, got := s.got + buf, taken := Done)
  }

  predicate Shaped(s: State) {
    DividesU32(s.size) && |s.m.slots| == s.size && s.m.prodHead <= U32 && s.m.consHead <= U32
  }

  function Step(s: State, ev: Event): State {
    if !Shaped(s) then s
    else match ev
      case Produce(objs) => ProducerStep(s, objs)
      case Consume(n) => ConsumerStep(s, n)
  }

  /** ringbuf_init, the watermark as it may have been set. */
  function Init(size: nat, watermark: nat, slots: seq<int>): State {
    State(size, watermark, Memory(slots, 0, 0, 0, 0), PIdle, CIdle, [], [], Done, Done)
  }

  function Run(s: State, evs: seq<Event>): State
    decreases |evs|
  {
    if evs == [] then s else Step(Run(s, evs[..|evs| - 1]), evs[|evs| - 1])
  }

  /** What is in the ring: the slots from cons.tail up to prod.tail, as the memory has them. */
  ghost function Contents(s: State): seq<int>
    requires Shaped(s) && s.m.consTail <= U32
  {
    seq(Minus(s.m.prodTail, s.m.consTail), i requires 0 <= i =>
      var at := Slot(s.size, Masked(s.m.consTail, s.size), i); if at < s.size then s.m.slots[at] else 0)
  }

  // ------------------------------------------------------------------ invariant

  /** slots holds objs at the indices from `from` on. */
  ghost predicate Holds(slots: seq<int>, from: nat, objs: seq<int>) {
    |slots| > 0 && forall k :: 0 <= k < |objs| ==> slots[Pos(from + k, |slots|)] == objs[k]
  }

  ghost predicate IndexInv(s: State) {
    && Shaped(s)
    && s.got <= s.put && |s.put| - |s.got| < s.size
    && s.m.prodTail == |s.put| % U32 && s.m.consTail == |s.got| % U32
    && Holds(s.m.slots, |s.got|, s.put[|s.got|..])
  }

  ghost predicate ProducerInv(s: State) {
    match s.p
    case PIdle => s.m.prodHead == s.m.prodTail
    case PLoad(objs) => s.m.prodHead == s.m.prodTail
    case PHead(objs, head, free) =>
      s.m.prodHead == s.m.prodTail == head && |objs| <= free <= s.size - 1 - (|s.put| - |s.got|)
    case PCopy(objs, head, free, i) =>
      s.m.prodTail == head && s.m.prodHead == Plus(head, |objs|)
      && i <= |objs| <= free <= s.size - 1 - (|s.put| - |s.got|)
      && Holds(s.m.slots, |s.put|, objs[..i])
  }

  ghost predicate ConsumerInv(s: State) {
    match s.c
    case CIdle => s.m.consHead == s.m.consTail
    case CLoad(n) => s.m.consHead == s.m.consTail
    case CHead(n, head) => s.m.consHead == s.m.consTail == head && |s.got| + n <= |s.put|
    case CCopy(n, head, buf) =>
      s.m.consTail == head && s.m.consHead == Plus(head, n)
      && |s.got| + n <= |s.put| && |buf| <= n && buf == s.put[|s.got|..|s.got| + |buf|]
  }

  ghost predicate Inv(s: State) {
    IndexInv(s) && ProducerInv(s) && ConsumerInv(s) && (s.watermark == s.size ==> s.sent != QuotaExceeded)
  }

  // ------------------------------------------------------------------ indices

  /** A 32-bit index, masked, is the slot of the index that never wrapped. */
  lemma MaskedIndex(k: nat, size: nat)
    requires DividesU32(size)
    ensures Masked(k % U32, size) == Pos(k, size)
  {
    WrapKeepsSlot(k, size);
    PosIsRemainder(k, size);
  }

  lemma SlotOfIndex(k: nat, i: nat, size: nat)
    requires DividesU32(size) && i < size
    ensures Slot(size, Masked(k % U32, size), i) == Pos(k + i, size)
  {
    MaskedIndex(k, size);
    SlotMoves(k, i, size);
    PosIsRemainder(k, size);
    PosIsRemainder(k + i, size);
  }

  lemma WrappedSum(k: nat, n: nat)
    ensures Plus(k % U32, n) == (k + n) % U32
  {
  }

  lemma WrappedDifference(a: nat, b: nat)
    requires b <= a < b + U32
    ensures Minus(a % U32, b % U32) == a - b
  {
  }

  lemma WrappedFree(size: nat, a: nat, b: nat)
    requires b <= a && a - b < size < U32
    ensures Minus(size - 1 + b % U32, a % U32) == size - 1 - (a - b)
  {
  }

  // ------------------------------------------------------------------ the slots

  /** A store one past what is held, and less than a lap past all of it. */
  lemma HoldsMore(slots: seq<int>, from: nat, objs: seq<int>, x: int)
    requires Holds(slots, from, objs) && |objs| < |slots|
    ensures Holds(slots[Pos(from + |objs|, |slots|) := x], from, objs + [x])
  {
    var slots' := slots[Pos(from + |objs|, |slots|) := x];
    forall k | 0 <= k < |objs + [x]| ensures slots'[Pos(from + k, |slots'|)] == (objs + [x])[k] {
      if k < |objs| { DistinctWithinLap(from + k, from + |objs|, |slots|); }
    }
  }

  /** A store at an index outside those held and less than a lap away. */
  lemma HoldsStill(slots: seq<int>, from: nat, objs: seq<int>, at: nat, x: int)
    requires Holds(slots, from, objs) && from + |objs| <= at < from + |slots|
    ensures Holds(slots[Pos(at, |slots|) := x], from, objs)
  {
    var slots' := slots[Pos(at, |slots|) := x];
    forall k | 0 <= k < |objs| ensures slots'[Pos(from + k, |slots'|)] == objs[k] {
      DistinctWithinLap(from + k, at, |slots|);
    }
  }

  lemma HoldsJoin(slots: seq<int>, from: nat, a: seq<int>, b: seq<int>)
    requires Holds(slots, from, a) && Holds(slots, from + |a|, b)
    ensures Holds(slots, from, a + b)
  {
    forall k | 0 <= k < |a + b| ensures slots[Pos(from + k, |slots|)] == (a + b)[k] {
      if k >= |a| { assert from + k == from + |a| + (k - |a|); }
    }
  }

  lemma HoldsRest(slots: seq<int>, from: nat, objs: seq<int>, n: nat)
    requires Holds(slots, from, objs) && n <= |objs|
    ensures Holds(slots, from + n, objs[n..])
  {
    forall k | 0 <= k < |objs[n..]| ensures slots[Pos(from + n + k, |slots|)] == objs[n..][k] {
      assert from + n + k == from + (n + k);
    }
  }

  // ------------------------------------------------------------------ steps

  lemma LoadRoom(s: State, objs: seq<int>)
    requires Inv(s) && s.p.PLoad?
    ensures Inv(ProducerStep(s, objs))
    ensures ProducerStep(s, objs).p.PIdle? <==> |s.put| - |s.got| + |s.p.objs| > s.size - 1
    ensures ProducerStep(s, objs).p.PHead? ==> ProducerStep(s, objs).p.free == s.size - 1 - (|s.put| - |s.got|)
  {
    hide Minus; hide Plus; hide Holds; hide Pos;
    WrappedFree(s.size, |s.put|, |s.got|);
  }

  lemma CopyIn(s: State, objs: seq<int>)
    requires Inv(s) && s.p.PCopy? && s.p.i < |s.p.objs|
    ensures Inv(ProducerStep(s, objs))
  {
    hide Minus; hide Plus; hide Holds; hide Pos; hide Slot; hide Masked;
    var p, at, s' := s.p, |s.put| + s.p.i, ProducerStep(s, objs);
    SlotOfIndex(|s.put|, p.i, s.size);
    HoldsStill(s.m.slots, |s.got|, s.put[|s.got|..], at, p.objs[p.i]);
    HoldsMore(s.m.slots, |s.put|, p.objs[..p.i], p.objs[p.i]);
    assert p.objs[..p.i] + [p.objs[p.i]] == p.objs[..p.i + 1];
  }

  lemma Publish(s: State, objs: seq<int>)
    requires Inv(s) && s.p.PCopy? && s.p.i == |s.p.objs|
    ensures Inv(ProducerStep(s, objs))
  {
    hide Minus; hide Plus; hide Holds; hide Pos;
    var p, s' := s.p, ProducerStep(s, objs);
    WrappedSum(|s.put|, |p.objs|);
    assert p.objs[..|p.objs|] == p.objs;
    HoldsJoin(s.m.slots, |s.got|, s.put[|s.got|..], p.objs);
    assert s'.put[|s.got|..] == s.put[|s.got|..] + p.objs;
    if s.c.CCopy? { assert s'.put[|s.got|..|s.got| + |s.c.buf|] == s.put[|s.got|..|s.got| + |s.c.buf|]; }
  }

  lemma ProducerStepInv(s: State, objs: seq<int>)
    requires Inv(s)
    ensures Inv(ProducerStep(s, objs))
  {
    if s.p.PLoad? { LoadRoom(s, objs); }
    else if s.p.PCopy? { if s.p.i < |s.p.objs| { CopyIn(s, objs); } else { Publish(s, objs); } }
    else {
      hide Minus; hide Holds; hide Pos;
      if s.p.PHead? { NothingHeld(s.m.slots, |s.put|, s.p.objs); }
    }
  }

  lemma NothingHeld(slots: seq<int>, from: nat, objs: seq<int>)
    requires |slots| > 0
    ensures Holds(slots, from, objs[..0])
  {
  }

  lemma LoadEntries(s: State, n: nat)
    requires Inv(s) && s.c.CLoad?
    ensures Inv(ConsumerStep(s, n))
    ensures ConsumerStep(s, n).c.CIdle? <==> s.c.n > |s.put| - |s.got|
  {
    hide Minus; hide Plus; hide Holds; hide Pos;
    WrappedDifference(|s.put|, |s.got|);
  }

  lemma CopyOut(s: State, n: nat)
    requires Inv(s) && s.c.CCopy? && |s.c.buf| < s.c.n
    ensures Inv(ConsumerStep(s, n))
  {
    hide Minus; hide Plus; hide Pos; hide Slot; hide Masked;
    var c, k := s.c, |s.c.buf|;
    SlotOfIndex(|s.got|, k, s.size);
    assert s.put[|s.got|..][k] == s.put[|s.got| + k];
    assert s.put[|s.got|..|s.got| + k + 1] == s.put[|s.got|..|s.got| + k] + [s.put[|s.got| + k]];
  }

  lemma Retire(s: State, n: nat)
    requires Inv(s) && s.c.CCopy? && |s.c.buf| == s.c.n
    ensures Inv(ConsumerStep(s, n))
  {
    hide Minus; hide Plus; hide Holds; hide Pos;
    var c := s.c;
    WrappedSum(|s.got|, c.n);
    assert s.got + c.buf == s.put[..|s.got| + c.n];
    HoldsRest(s.m.slots, |s.got|, s.put[|s.got|..], c.n);
    assert s.put[|s.got|..][c.n..] == s.put[|s.got| + c.n..];
  }

  lemma ConsumerStepInv(s: State, n: nat)
    requires Inv(s)
    ensures Inv(ConsumerStep(s, n))
  {
    if s.c.CLoad? { LoadEntries(s, n); }
    else if s.c.CCopy? { if |s.c.buf| < s.c.n { CopyOut(s, n); } else { Retire(s, n); } }
    else { hide Minus; hide Holds; hide Pos; }
  }

  /** The code asks for a power of two below 2^28. */
  ghost predicate Reachable(size: nat, watermark: nat, s: State) {
    DividesU32(size) && exists slots, evs :: |slots| == size && s == Run(Init(size, watermark, slots), evs)
  }

  lemma {:induction false} RunInv(s0: State, evs: seq<Event>)
    requires Inv(s0)
    ensures Inv(Run(s0, evs)) && Run(s0, evs).size == s0.size && Run(s0, evs).watermark == s0.watermark
    decreases |evs|
  {
    if evs != [] {
      RunInv(s0, evs[..|evs| - 1]);
      var s, ev := Run(s0, evs[..|evs| - 1]), evs[|evs| - 1];
      match ev
      case Produce(objs) => ProducerStepInv(s, objs);
      case Consume(n) => ConsumerStepInv(s, n);
    }
  }

  lemma ReachableInv(size: nat, watermark: nat, s: State)
    requires Reachable(size, watermark, s)
    ensures Inv(s) && s.size == size && s.watermark == watermark
  {
    var slots, evs :| |slots| == size && s == Run(Init(size, watermark, slots), evs);
    assert Holds(slots, 0, [][0..]);
    RunInv(Init(size, watermark, slots), evs);
  }

  // ------------------------------------------------------------------ results

  lemma ContentsAre(s: State)
    requires Inv(s)
    ensures Contents(s) == s.put[|s.got|..]
  {
    WrappedDifference(|s.put|, |s.got|);
    var q := s.put[|s.got|..];
    forall i | 0 <= i < |q| ensures Contents(s)[i] == q[i] {
      SlotOfIndex(|s.got|, i, s.size);
    }
  }

  /** However the two sides interleave and however often the indices have wrapped: what has been
      put in is what has been handed out followed by what the memory holds, in order, and the
      ring never holds more than size - 1 elements. */
  lemma FifoUnderInterleaving(size: nat, watermark: nat, s: State)
    requires Reachable(size, watermark, s)
    ensures Shaped(s) && s.m.consTail <= U32
    ensures s.put == s.got + Contents(s) && |Contents(s)| <= size - 1
  {
    ReachableInv(size, watermark, s);
    ContentsAre(s);
  }

  /** What the slots hold, put against what has been put in and handed out, on both sides of a
      step. */
  ghost predicate Adds(s: State, s': State, objs: seq<int>)
    requires Inv(s) && Inv(s')
  {
    Contents(s') == Contents(s) + objs && s'.put == s.put + objs && s'.got == s.got
  }

  ghost predicate Removes(s: State, s': State, objs: seq<int>)
    requires Inv(s) && Inv(s')
  {
    Contents(s) == objs + Contents(s') && s'.got == s.got + objs && s'.put == s.put
  }

  /** Each step of the producer is one of a queue of size - 1 places: the call is refused exactly
      when the contents leave no room for it, the store to prod.tail adds exactly its objects,
      and no other step changes the contents. */
  lemma ProducerRefinesQueue(size: nat, watermark: nat, s: State, objs: seq<int>)
    requires Reachable(size, watermark, s)
    ensures Inv(s) && Inv(ProducerStep(s, objs))
    ensures var s' := ProducerStep(s, objs);
      if s.p.PCopy? && s.p.i == |s.p.objs| then Adds(s, s', s.p.objs) && s'.sent != NoRoom else Adds(s, s', [])
    ensures var s' := ProducerStep(s, objs); s.p.PLoad? ==>
      (s'.p.PIdle? <==> |Contents(s)| + |s.p.objs| > size - 1) && (s'.p.PIdle? ==> s'.sent == NoRoom)
      && (s'.p.PHead? ==> s'.p.free == size - 1 - |Contents(s)|)
  {
    hide Contents; hide Minus; hide Plus; hide Holds; hide Pos; hide Slot; hide Masked; hide Inv;
    ReachableInv(size, watermark, s);
    GotIsPrefix(s);
    var s' := ProducerStep(s, objs);
    ProducerStepInv(s, objs);
    if s.p.PLoad? { LoadRoom(s, objs); }
    ContentsAre(s);
    ContentsAre(s');
    if s'.put != s.put { assert s'.put[|s.got|..] == s.put[|s.got|..] + s.p.objs; }
  }

  lemma GotIsPrefix(s: State)
    requires Inv(s)
    ensures Shaped(s) && s.got <= s.put && (s.p.PCopy? ==> s.p.i <= |s.p.objs|) && (s.c.CCopy? ==> |s.c.buf| <= s.c.n)
  {
  }

  /** The answer of an enqueue: the quota was exceeded if and only if it was by the contents found
      when the call began, with the objects added; an enqueue that reports none leaves the ring
      below the watermark whatever the consumer does meanwhile; and with the watermark at the size
      of the ring there is never such a report. */
  lemma QuotaAnswer(size: nat, watermark: nat, s: State, objs: seq<int>)
    requires Reachable(size, watermark, s) && s.p.PCopy? && s.p.i == |s.p.objs|
    ensures Inv(s) && Inv(ProducerStep(s, objs))
    ensures var s' := ProducerStep(s, objs);
      && (s'.sent == QuotaExceeded <==> (size - 1 - s.p.free) + |s.p.objs| >= watermark)
      && |Contents(s)| <= size - 1 - s.p.free
      && (s'.sent == Done ==> |Contents(s')| < watermark)
      && (watermark == size ==> s'.sent == Done)
  {
    hide Contents; hide Minus; hide Plus; hide Holds; hide Pos; hide Slot; hide Masked; hide Inv;
    ReachableInv(size, watermark, s);
    GotIsPrefix(s);
    var s' := ProducerStep(s, objs);
    ProducerStepInv(s, objs);
    GotIsPrefix(s');
    ContentsAre(s);
    ContentsAre(s');
    FreeIsKept(s);
  }

  lemma FreeIsKept(s: State)
    requires Inv(s) && s.p.PCopy?
    ensures |s.p.objs| <= s.p.free <= s.size - 1 - (|s.put| - |s.got|)
  {
  }

  /** Each step of the consumer likewise: the call is refused exactly when the contents are too
      few for it, the store to cons.tail removes exactly the elements handed out, as many as
      were asked for, and no other step changes the contents. */
  lemma ConsumerRefinesQueue(size: nat, watermark: nat, s: State, n: nat)
    requires Reachable(size, watermark, s)
    ensures Inv(s) && Inv(ConsumerStep(s, n))
    ensures var s' := ConsumerStep(s, n);
      if s.c.CCopy? && |s.c.buf| == s.c.n then Removes(s, s', s.c.buf) && s'.taken == Done else Removes(s, s', [])
    ensures var s' := ConsumerStep(s, n); s.c.CLoad? ==>
      (s'.c.CIdle? <==> s.c.n > |Contents(s)|) && (s'.c.CIdle? ==> s'.taken == NoEntries)
  {
    hide Contents; hide Minus; hide Plus; hide Holds; hide Pos; hide Slot; hide Masked; hide Inv;
    ReachableInv(size, watermark, s);
    GotIsPrefix(s);
    var s' := ConsumerStep(s, n);
    ConsumerStepInv(s, n);
    if s.c.CLoad? { LoadEntries(s, n); }
    ContentsAre(s);
    ContentsAre(s');
    GotIsPrefix(s');
    if s'.got != s.got { assert s.put[|s.got|..] == s.c.buf + s.put[|s'.got|..]; }
  }

  // ------------------------------------------------------------------ what a call was asked for

  /** The objects of the last enqueue call that a run has begun, and the number the last dequeue
      call was asked for, told from the schedule. */
  ghost function Offered(o: State, evs: seq<Event>): seq<int>
    decreases |evs|
  {
    if evs == [] then []
    else
      var s, ev := Run(o, evs[..|evs| - 1]), evs[|evs| - 1];
      if ev.Produce? && Shaped(s) && s.p.PIdle? && |ev.objs| < U32 then ev.objs else Offered(o, evs[..|evs| - 1])
  }

  ghost function Wanted(o: State, evs: seq<Event>): nat
    decreases |evs|
  {
    if evs == [] then 0
    else
      var s, ev := Run(o, evs[..|evs| - 1]), evs[|evs| - 1];
      if ev.Consume? && Shaped(s) && s.c.CIdle? && ev.n < U32 then ev.n else Wanted(o, evs[..|evs| - 1])
  }

  /** What the enqueue calls that succeeded were given, one after the other. */
  ghost function Given(o: State, evs: seq<Event>): seq<int>
    decreases |evs|
  {
    if evs == [] then []
    else
      var prev := evs[..|evs| - 1];
      if Run(o, evs).put == Run(o, prev).put then Given(o, prev) else Given(o, prev) + Offered(o, prev)
  }

  lemma AsksStep(s: State, ev: Event, objs: seq<int>, n: nat)
    requires Shaped(s) && (!s.p.PIdle? ==> s.p.objs == objs) && (!s.c.CIdle? ==> s.c.n == n)
    ensures var s' := Step(s, ev);
      && (!s'.p.PIdle? ==> s'.p.objs == if ev.Produce? && s.p.PIdle? && |ev.objs| < U32 then ev.objs else objs)
      && (!s'.c.CIdle? ==> s'.c.n == if ev.Consume? && s.c.CIdle? && ev.n < U32 then ev.n else n)
      && (s'.put == s.put || s'.put == s.put + objs)
      && (s'.got == s.got || (s.c.CCopy? && s'.got == s.got + s.c.buf && |s.c.buf| >= n))
  {
    hide Minus; hide Plus; hide Slot; hide Masked;
  }

  /** In every interleaving a call works on the objects, or for the number, that its caller gave. */
  lemma {:induction false} CallsServed(size: nat, watermark: nat, slots: seq<int>, evs: seq<Event>)
    requires DividesU32(size) && |slots| == size
    ensures var o := Init(size, watermark, slots); var s := Run(o, evs);
      && Shaped(s)
      && (!s.p.PIdle? ==> s.p.objs == Offered(o, evs)) && (!s.c.CIdle? ==> s.c.n == Wanted(o, evs))
    decreases |evs|
  {
    hide Step; hide Inv; hide DividesU32;
    var o := Init(size, watermark, slots);
    IsReachable(size, watermark, slots, evs);
    GotIsPrefix(Run(o, evs));
    if evs != [] {
      var prev := evs[..|evs| - 1];
      CallsServed(size, watermark, slots, prev);
      AsksStep(Run(o, prev), evs[|evs| - 1], Offered(o, prev), Wanted(o, prev));
    }
  }

  lemma IsReachable(size: nat, watermark: nat, slots: seq<int>, evs: seq<Event>)
    requires DividesU32(size) && |slots| == size
    ensures Inv(Run(Init(size, watermark, slots), evs))
  {
    hide Inv; hide Run;
    var s := Run(Init(size, watermark, slots), evs);
    assert Reachable(size, watermark, s);
    ReachableInv(size, watermark, s);
  }

  /** The ring as its callers see it: what has been put in is what the successful enqueue calls
      were given, so what has been handed out, followed by the contents, is that too; and a
      dequeue call that succeeds hands out as many elements as it was asked for. */
  lemma {:induction false} DeliversGiven(size: nat, watermark: nat, slots: seq<int>, evs: seq<Event>)
    requires DividesU32(size) && |slots| == size
    ensures var o := Init(size, watermark, slots); var s := Run(o, evs);
      && s.put == Given(o, evs) && s.got <= s.put
      && (evs != [] ==>
            var prev := evs[..|evs| - 1];
            |s.got| == |Run(o, prev).got| || |s.got| == |Run(o, prev).got| + Wanted(o, prev))
    decreases |evs|
  {
    hide Step; hide Inv; hide DividesU32; hide Offered; hide Wanted;
    var o := Init(size, watermark, slots);
    IsReachable(size, watermark, slots, evs);
    GotIsPrefix(Run(o, evs));
    if evs != [] {
      var prev := evs[..|evs| - 1];
      DeliversGiven(size, watermark, slots, prev);
      CallsServed(size, watermark, slots, prev);
      AsksStep(Run(o, prev), evs[|evs| - 1], Offered(o, prev), Wanted(o, prev));
      IsReachable(size, watermark, slots, prev);
      GotIsPrefix(Run(o, prev));
    }
  }
}
