/** The lock-free multi-producer/multi-consumer ring of lfring/lfring.c.

    Every atomic load, store and compare-exchange of enqueue and dequeue is one
    step of one thread; a run is any finite schedule of such steps by any number
    of threads.  Indices are unbounded integers here; `Before64` below relates
    them to the 64-bit serial comparison of the source. */
module LfRing {
  import opened Modular

  type Elem = int

  /** A ring slot: the element and the index it was last enqueued with. */
  datatype Slot = Slot(ptr: Elem, idx: int)

  /** One history record per successful enqueue of an element: its value and the
      enqueue call that put it there. */
  datatype Entry = Entry(val: Elem, call: nat)

  /** `log` and `out` are history: all elements ever enqueued, in index order, and
      all elements handed to winning dequeues, in the order of the wins.
      `returned` holds the enqueue calls that have returned to their caller. */
  datatype Shared = Shared(
    size: nat, sp: bool, sc: bool,
    head: int, tail: int, ring: seq<Slot>,
    log: seq<Entry>, out: seq<Elem>, calls: nat, returned: set<nat>)

  /** Locals of an enqueue call. */
  datatype Enq = Enq(call: nat, elems: seq<Elem>, actual: nat, tail: int)

  /** Locals of a dequeue call. */
  datatype Deq = Deq(n: nat, head: int, tail: int)

  datatype Pc =
    | Idle
    // enqueue, common entry
    | EnqLoadTail(e: Enq)
    // enqueue, multi-producer
    | EnqLoop(e: Enq)
    | EnqLoadPtr(e: Enq)
    | EnqLoadIdx(e: Enq, ptr: Elem)
    | EnqTest(e: Enq, ptr: Elem, idx: int)
    | EnqReload(e: Enq)
    | EnqUpdLoad(e: Enq)
    | EnqUpdCas(e: Enq, seen: int)
    // enqueue, single producer
    | SpLoadHead(e: Enq)
    | SpPtr(e: Enq, limit: nat)
    | SpIdx(e: Enq, limit: nat)
    | SpPublish(e: Enq)
    | EnqRet(e: Enq)
    // dequeue
    | DeqLoadHead(n: nat)
    | DeqLoadTail(n: nat, head: int)
    | FindSp(d: Deq)
    | FindScan(d: Deq, scan: int)
    | FindUpdLoad(d: Deq, neu: int)
    | FindUpdCas(d: Deq, neu: int, seen: int)
    | DeqRead(d: Deq, elems: seq<Elem>)
    | DeqCas(d: Deq, elems: seq<Elem>)
    | DeqEmpty(d: Deq)
    | DeqRet(n: nat, index: int, elems: seq<Elem>)

  /** What the scheduler asks of the thread it picks: an idle thread starts the
      given call, a busy thread takes its next step whatever the command says. */
  datatype Cmd = Enqueue(elems: seq<Elem>) | Dequeue(n: nat)

  datatype Event = Event(t: nat, cmd: Cmd)

  datatype State = State(sh: Shared, threads: seq<Pc>)

  // ------------------------------------------------------------------ steps

  predicate InEnq(pc: Pc) {
    pc.EnqLoadTail? || pc.EnqLoop? || pc.EnqLoadPtr? || pc.EnqLoadIdx? || pc.EnqTest? ||
    pc.EnqReload? || pc.EnqUpdLoad? || pc.EnqUpdCas? || pc.SpLoadHead? || pc.SpPtr? ||
    pc.SpIdx? || pc.SpPublish? || pc.EnqRet?
  }

  predicate InDeq(pc: Pc) {
    pc.DeqLoadHead? || pc.DeqLoadTail? || pc.FindSp? || pc.FindScan? || pc.FindUpdLoad? ||
    pc.FindUpdCas? || pc.DeqRead? || pc.DeqCas? || pc.DeqEmpty? || pc.DeqRet?
  }

  function Min(a: int, b: int): int { if a < b then a else b }

  /** The number of elements a dequeue holding these locals can take. */
  function Actual(d: Deq): int { Min(d.tail - d.head, d.n) }

  /** Slot of index i. */
  function At(ring: seq<Slot>, i: int): Slot
    requires |ring| > 0
  {
    ring[Pos(i, |ring|)]
  }

  function SetAt(sh: Shared, i: int, slot: Slot): Shared
    requires sh.size > 0 && |sh.ring| == sh.size
  {
    sh.(ring := sh.ring[Pos(i, sh.size) := slot])
  }

  function InitShared(size: nat, sp: bool, sc: bool): Shared {
    Shared(size, sp, sc, 0, 0, seq(size, i requires 0 <= i < size => Slot(0, i - size)), [], [], 0, {})
  }

  /** Top of the dequeue loop: read elements, or look for unreleased ones. */
  function DeqTop(sh: Shared, d: Deq): Pc {
    if Actual(d) > 0 then DeqRead(d, [])
    else if sh.sp then FindSp(d) else FindScan(d, d.tail)
  }

  /** After find_tail has supplied a tail. */
  function DeqFound(d: Deq): Pc {
    if Actual(d) > 0 then DeqRead(d, []) else DeqEmpty(d)
  }

  /** find_tail after (re)loading the shared tail: keep it if it is ahead, else try to raise it. */
  function FindReloaded(sh: Shared, d: Deq, neu: int): Pc {
    if neu < sh.tail then DeqFound(d.(tail := sh.tail)) else FindUpdCas(d, neu, sh.tail)
  }

  /** The compare-exchange of a slot (and the test in front of it). */
  function TestSlot(sh: Shared, e: Enq, ptr: Elem, idx: int): (Shared, Pc)
    requires sh.size > 0 && |sh.ring| == sh.size
    requires e.actual < |e.elems|
  {
    if idx != e.tail - sh.size then
      if idx != e.tail then (sh, EnqReload(e))
      else (sh, EnqLoop(e.(tail := e.tail + 1)))
    else if At(sh.ring, e.tail) == Slot(ptr, idx) then
      var elem := e.elems[e.actual];
      (SetAt(sh, e.tail, Slot(elem, e.tail)).(log := sh.log + [Entry(elem, e.call)]),
       EnqLoop(e.(actual := e.actual + 1, tail := e.tail + 1)))
    else
      (sh, EnqTest(e, At(sh.ring, e.tail).ptr, At(sh.ring, e.tail).idx))
  }

  function EnqStep(sh: Shared, pc: Pc): (Shared, Pc)
    requires sh.size > 0 && |sh.ring| == sh.size && InEnq(pc)
  {
    match pc
    case EnqLoadTail(e) =>
      var e' := e.(tail := sh.tail);
      (sh, if sh.sp then SpLoadHead(e') else EnqLoop(e'))
    // multi-producer
    case EnqLoop(e) =>
      (sh, if e.actual < |e.elems| && e.tail < sh.head + sh.size then EnqLoadPtr(e) else EnqUpdLoad(e))
    case EnqLoadPtr(e) => (sh, EnqLoadIdx(e, At(sh.ring, e.tail).ptr))
    case EnqLoadIdx(e, ptr) => (sh, EnqTest(e, ptr, At(sh.ring, e.tail).idx))
    case EnqTest(e, ptr, idx) => if e.actual < |e.elems| then TestSlot(sh, e, ptr, idx) else (sh, pc)
    case EnqReload(e) => (sh, EnqLoop(e.(tail := if e.tail < sh.tail then sh.tail else e.tail + 1)))
    case EnqUpdLoad(e) => (sh, if e.tail < sh.tail then EnqRet(e) else EnqUpdCas(e, sh.tail))
    case EnqUpdCas(e, seen) =>
      if sh.tail == seen then (sh.(tail := e.tail), EnqRet(e))
      else (sh, if e.tail < sh.tail then EnqRet(e) else EnqUpdCas(e, sh.tail))
    // single producer
    case SpLoadHead(e) =>
      var room := Min(sh.head + sh.size - e.tail, |e.elems|);
      if room <= 0 then (sh, EnqRet(e)) else (sh, SpPtr(e, room))
    case SpPtr(e, limit) =>
      if e.actual < |e.elems| then
        (SetAt(sh, e.tail, At(sh.ring, e.tail).(ptr := e.elems[e.actual])), SpIdx(e, limit))
      else (sh, pc)
    case SpIdx(e, limit) =>
      if e.actual < |e.elems| then
        var e' := e.(actual := e.actual + 1, tail := e.tail + 1);
        (SetAt(sh, e.tail, At(sh.ring, e.tail).(idx := e.tail)).(log := sh.log + [Entry(e.elems[e.actual], e.call)]),
         if e'.actual < limit then SpPtr(e', limit) else SpPublish(e'))
      else (sh, pc)
    case SpPublish(e) => (sh.(tail := e.tail), EnqRet(e))
    case EnqRet(e) => (sh.(returned := sh.returned + {e.call}), Idle)
  }

  function DeqStep(sh: Shared, pc: Pc): (Shared, Pc)
    requires sh.size > 0 && |sh.ring| == sh.size && InDeq(pc)
  {
    match pc
    case DeqLoadHead(n) => (sh, DeqLoadTail(n, sh.head))
    case DeqLoadTail(n, head) => (sh, DeqTop(sh, Deq(n, head, sh.tail)))
    case FindSp(d) => (sh, DeqFound(d.(tail := sh.tail)))
    case FindScan(d, scan) =>
      if scan < d.head + sh.size && At(sh.ring, scan).idx == scan then (sh, FindScan(d, scan + 1))
      else (sh, FindUpdLoad(d, scan))
    case FindUpdLoad(d, neu) => (sh, FindReloaded(sh, d, neu))
    case FindUpdCas(d, neu, seen) =>
      if sh.tail == seen then (sh.(tail := neu), DeqFound(d.(tail := neu)))
      else (sh, FindReloaded(sh, d, neu))
    case DeqRead(d, elems) =>
      var elems' := elems + [At(sh.ring, d.head + |elems|).ptr];
      (sh, if |elems'| < Actual(d) then DeqRead(d, elems') else DeqCas(d, elems'))
    case DeqCas(d, elems) =>
      if sh.sc || sh.head == d.head then
        (sh.(head := d.head + |elems|, out := sh.out + elems), DeqRet(d.n, d.head, elems))
      else (sh, DeqTop(sh, d.(head := sh.head)))
    case DeqEmpty(_) => (sh, Idle)
    case DeqRet(_, _, _) => (sh, Idle)
  }

  function StartCall(sh: Shared, cmd: Cmd): (Shared, Pc) {
    match cmd
    case Enqueue(elems) => (sh.(calls := sh.calls + 1), EnqLoadTail(Enq(sh.calls, elems, 0, 0)))
    case Dequeue(n) => (sh, DeqLoadHead(n))
  }

  function ThreadStep(sh: Shared, pc: Pc, cmd: Cmd): (Shared, Pc)
    requires sh.size > 0 && |sh.ring| == sh.size
  {
    if InEnq(pc) then EnqStep(sh, pc) else if InDeq(pc) then DeqStep(sh, pc) else StartCall(sh, cmd)
  }

  /** An idle thread may not start an enqueue (dequeue) on a single-producer
      (single-consumer) ring while another thread is in one. */
  predicate Admissible(s: State, ev: Event) {
    ev.t < |s.threads| && s.sh.size > 0 && |s.sh.ring| == s.sh.size &&
    (s.threads[ev.t].Idle? ==>
       (s.sh.sp && ev.cmd.Enqueue? ==> forall u | 0 <= u < |s.threads| :: !InEnq(s.threads[u])) &&
       (s.sh.sc && ev.cmd.Dequeue? ==> forall u | 0 <= u < |s.threads| :: !InDeq(s.threads[u])))
  }

  function Step(s: State, ev: Event): State {
    if Admissible(s, ev) then
      var (sh', pc') := ThreadStep(s.sh, s.threads[ev.t], ev.cmd);
      State(sh', s.threads[ev.t := pc'])
    else s
  }

  function Init(size: nat, sp: bool, sc: bool, n: nat): State {
    State(InitShared(size, sp, sc), seq(n, _ => Idle))
  }

  function Run(s: State, evs: seq<Event>): State
    decreases |evs|
  {
    if evs == [] then s else Step(Run(s, evs[..|evs| - 1]), evs[|evs| - 1])
  }

  // -------------------------------------------------------------- invariant

  /** The elements a call has put into the ring, in index order. */
  ghost function Mine(log: seq<Entry>, call: nat): seq<Elem> {
    if log == [] then []
    else
      var last := log[|log| - 1];
      Mine(log[..|log| - 1], call) + (if last.call == call then [last.val] else [])
  }

  ghost predicate SharedInv(sh: Shared) {
    && sh.size > 0 && |sh.ring| == sh.size
    && 0 <= sh.head <= sh.tail <= |sh.log| <= sh.head + sh.size
    // no holes: the slots hold exactly the last `size` indices
    && (forall i {:trigger At(sh.ring, i)} :: |sh.log| - sh.size <= i < |sh.log| ==> At(sh.ring, i).idx == i)
    && (forall i {:trigger At(sh.ring, i)} :: sh.head <= i < |sh.log| ==> At(sh.ring, i).ptr == sh.log[i].val)
    // what has been handed out is the log below head
    && |sh.out| == sh.head
    && (forall i :: 0 <= i < sh.head ==> sh.out[i] == sh.log[i].val)
    && (forall i :: 0 <= i < |sh.log| ==> sh.log[i].call < sh.calls)
    && (forall c :: c in sh.returned ==> c < sh.calls)
    && (forall i :: 0 <= i < |sh.log| && sh.log[i].call in sh.returned ==> i < sh.tail)
  }

  ghost predicate EnqInv(sh: Shared, e: Enq) {
    && e.call < sh.calls && e.call !in sh.returned
    && e.actual <= |e.elems|
    && 0 <= e.tail <= |sh.log|
    && Mine(sh.log, e.call) == e.elems[..e.actual]
    && (forall i :: 0 <= i < |sh.log| && sh.log[i].call == e.call ==> i < e.tail)
  }

  ghost predicate DeqInv(sh: Shared, d: Deq) {
    && 0 <= d.head <= sh.head && 0 <= d.tail <= sh.tail
    && (sh.sc ==> d.head == sh.head)
  }

  /** The elements read so far are right provided the head has not moved. */
  ghost predicate ReadInv(sh: Shared, d: Deq, elems: seq<Elem>)
    requires SharedInv(sh)
  {
    && DeqInv(sh, d) && |elems| <= Actual(d)
    && (d.head == sh.head ==>
          forall j :: 0 <= j < |elems| ==> elems[j] == sh.log[d.head + j].val)
  }

  ghost predicate LocalInv(sh: Shared, pc: Pc)
    requires SharedInv(sh)
  {
    match pc
    case Idle => true
    case EnqLoadTail(e) => EnqInv(sh, e) && e.actual == 0 && e.tail == 0
    case EnqLoop(e) => !sh.sp && EnqInv(sh, e)
    case EnqLoadPtr(e) => !sh.sp && EnqInv(sh, e) && e.actual < |e.elems| && e.tail < sh.head + sh.size
    case EnqLoadIdx(e, _) => !sh.sp && EnqInv(sh, e) && e.actual < |e.elems| && e.tail < sh.head + sh.size
    case EnqTest(e, _, idx) =>
      && !sh.sp && EnqInv(sh, e) && e.actual < |e.elems| && e.tail < sh.head + sh.size
      && Pos(idx, sh.size) == Pos(e.tail, sh.size) && e.tail - sh.size <= idx < |sh.log|
    case EnqReload(e) => !sh.sp && EnqInv(sh, e) && e.tail < |sh.log|
    case EnqUpdLoad(e) => !sh.sp && EnqInv(sh, e)
    case EnqUpdCas(e, seen) => !sh.sp && EnqInv(sh, e) && seen <= sh.tail && seen <= e.tail
    case SpLoadHead(e) => sh.sp && EnqInv(sh, e) && e.actual == 0 && e.tail == sh.tail == |sh.log|
    case SpPtr(e, limit) => SpInv(sh, e, limit)
    case SpIdx(e, limit) => SpInv(sh, e, limit) && At(sh.ring, e.tail).ptr == e.elems[e.actual]
    case SpPublish(e) => sh.sp && EnqInv(sh, e) && e.tail == |sh.log|
    case EnqRet(e) => EnqInv(sh, e) && e.tail <= sh.tail && (sh.sp ==> sh.tail == |sh.log|)
    case DeqLoadHead(_) => true
    case DeqLoadTail(_, head) => 0 <= head <= sh.head && (sh.sc ==> head == sh.head)
    case FindSp(d) => DeqInv(sh, d)
    case FindScan(d, scan) => !sh.sp && DeqInv(sh, d) && 0 <= scan <= |sh.log|
    case FindUpdLoad(d, neu) => !sh.sp && DeqInv(sh, d) && 0 <= neu <= |sh.log|
    case FindUpdCas(d, neu, seen) => !sh.sp && DeqInv(sh, d) && 0 <= neu <= |sh.log| && seen <= sh.tail && seen <= neu
    case DeqRead(d, elems) => ReadInv(sh, d, elems) && |elems| < Actual(d)
    case DeqCas(d, elems) => ReadInv(sh, d, elems) && |elems| == Actual(d) > 0
    case DeqEmpty(d) => true
    case DeqRet(_, index, elems) =>
      && 0 <= index <= index + |elems| <= sh.head
      && elems == sh.out[index..index + |elems|]
  }

  /** A single producer in the middle of its writes. */
  ghost predicate SpInv(sh: Shared, e: Enq, limit: nat)
    requires SharedInv(sh)
  {
    && sh.sp && EnqInv(sh, e) && e.tail == |sh.log|
    && e.actual < limit <= |e.elems|
    && e.tail + (limit - e.actual) <= sh.head + sh.size
  }

  predicate SpWriting(pc: Pc) { pc.SpPtr? || pc.SpIdx? || pc.SpPublish? }

  /** How threads exclude each other: distinct calls, and the single-producer and
      single-consumer disciplines. */
  ghost predicate Exclusive(s: State) {
    && (forall t, u :: 0 <= t < u < |s.threads| && InEnq(s.threads[t]) && InEnq(s.threads[u]) ==>
          s.threads[t].e.call != s.threads[u].e.call && !s.sh.sp)
    && (forall t, u :: 0 <= t < u < |s.threads| && InDeq(s.threads[t]) && InDeq(s.threads[u]) ==> !s.sh.sc)
  }

  ghost predicate Inv(s: State) {
    && SharedInv(s.sh)
    && (forall t :: 0 <= t < |s.threads| ==> LocalInv(s.sh, s.threads[t]))
    && Exclusive(s)
    && (s.sh.sp && (forall t :: 0 <= t < |s.threads| ==> !SpWriting(s.threads[t])) ==> s.sh.tail == |s.sh.log|)
  }

  // ----------------------------------------------------------------- proofs

  lemma MineAppend(log: seq<Entry>, x: Entry, call: nat)
    ensures Mine(log + [x], call) == Mine(log, call) + (if x.call == call then [x.val] else [])
  {
    assert (log + [x])[..|log|] == log;
  }

  /** What one step of a thread at `mover` may do to the shared state. */
  ghost predicate Evolves(sh: Shared, sh': Shared, mover: Pc) {
    && sh'.size == sh.size && sh'.sp == sh.sp && sh'.sc == sh.sc
    && sh.head <= sh'.head && sh.tail <= sh'.tail && sh.calls <= sh'.calls
    && (sh'.log == sh.log ||
        (InEnq(mover) && |sh'.log| == |sh.log| + 1 && sh'.log == sh.log + [sh'.log[|sh.log|]] &&
         sh'.log[|sh.log|].call == mover.e.call))
    && sh.out <= sh'.out
    && (forall c :: c in sh'.returned && c !in sh.returned ==> InEnq(mover) && c == mover.e.call)
    && (sh'.ring != sh.ring ==> InEnq(mover))
    && (sh.sp && sh'.tail != sh.tail ==> InEnq(mover))
    && (sh'.head != sh.head ==> InDeq(mover))
  }

  lemma EnqStable(sh: Shared, sh': Shared, mover: Pc, e: Enq)
    requires SharedInv(sh) && SharedInv(sh') && EnqInv(sh, e) && Evolves(sh, sh', mover)
    requires InEnq(mover) ==> e.call != mover.e.call
    ensures EnqInv(sh', e)
  {
    if sh'.log != sh.log {
      MineAppend(sh.log, sh'.log[|sh.log|], e.call);
    }
  }

  lemma ReadStable(sh: Shared, sh': Shared, mover: Pc, d: Deq, elems: seq<Elem>)
    requires SharedInv(sh) && SharedInv(sh') && ReadInv(sh, d, elems) && Evolves(sh, sh', mover)
    requires InDeq(mover) ==> !sh.sc
    ensures ReadInv(sh', d, elems)
  {
  }

  /** Interference: no step of another thread invalidates what a thread knows. */
  lemma Stable(sh: Shared, sh': Shared, mover: Pc, pc: Pc)
    requires SharedInv(sh) && SharedInv(sh') && LocalInv(sh, pc) && Evolves(sh, sh', mover)
    requires InEnq(pc) && InEnq(mover) ==> pc.e.call != mover.e.call && !sh.sp
    requires InDeq(pc) && InDeq(mover) ==> !sh.sc
    ensures LocalInv(sh', pc)
  {
    if InEnq(pc) {
      EnqStable(sh, sh', mover, pc.e);
    } else if pc.DeqRead? || pc.DeqCas? {
      ReadStable(sh, sh', mover, pc.d, pc.elems);
    }
  }

  /** Appending at the end of the log keeps the slots and the log in step. */
  lemma Append(sh: Shared, sh': Shared, x: Entry)
    requires SharedInv(sh) && |sh.log| < sh.head + sh.size
    requires x.call < sh.calls && x.call !in sh.returned
    requires sh' == SetAt(sh, |sh.log|, Slot(x.val, |sh.log|)).(log := sh.log + [x])
    ensures SharedInv(sh')
  {
    forall i {:trigger At(sh'.ring, i)} | |sh.log| - sh.size < i < |sh.log|
      ensures At(sh'.ring, i) == At(sh.ring, i)
    {
      DistinctWithinLap(i, |sh.log|, sh.size);
    }
  }

  /** The slot found one lap back is the next free index, so the compare-exchange
      appends to the log. */
  lemma TestWin(sh: Shared, pc: Pc)
    requires SharedInv(sh) && LocalInv(sh, pc) && pc.EnqTest?
    requires pc.idx == pc.e.tail - sh.size && At(sh.ring, pc.e.tail) == Slot(pc.ptr, pc.idx)
    ensures var (sh', pc') := TestSlot(sh, pc.e, pc.ptr, pc.idx);
            && SharedInv(sh') && LocalInv(sh', pc') && Evolves(sh, sh', pc)
            && sh'.log == sh.log + [Entry(pc.e.elems[pc.e.actual], pc.e.call)]
  {
    var e := pc.e;
    NextFree(sh, e.tail);
    var sh' := TestSlot(sh, e, pc.ptr, pc.idx).0;
    Append(sh, sh', Entry(e.elems[e.actual], e.call));
    AppendOwn(sh, sh', e);
  }

  /** The appending call's bookkeeping follows its append. */
  lemma AppendOwn(sh: Shared, sh': Shared, e: Enq)
    requires EnqInv(sh, e) && e.actual < |e.elems| && e.tail == |sh.log|
    requires sh'.log == sh.log + [Entry(e.elems[e.actual], e.call)]
    requires sh'.calls == sh.calls && sh'.returned == sh.returned
    ensures EnqInv(sh', e.(actual := e.actual + 1, tail := e.tail + 1))
  {
    MineAppend(sh.log, Entry(e.elems[e.actual], e.call), e.call);
  }

  lemma TestLose(sh: Shared, pc: Pc)
    requires SharedInv(sh) && LocalInv(sh, pc) && pc.EnqTest?
    requires pc.idx != pc.e.tail - sh.size || At(sh.ring, pc.e.tail) != Slot(pc.ptr, pc.idx)
    ensures var (sh', pc') := TestSlot(sh, pc.e, pc.ptr, pc.idx);
            sh' == sh && LocalInv(sh', pc')
  {
    var e := pc.e;
    if pc.idx != e.tail - sh.size {
      SameSlotNextLap(e.tail, sh.size);
      LapApart(e.tail - sh.size, pc.idx, sh.size);
    } else {
      NewestAt(sh, e.tail);
    }
  }

  /** An index at or below the end of the log whose slot is one lap behind is the end of the log. */
  lemma NextFree(sh: Shared, i: int)
    requires SharedInv(sh) && 0 <= i <= |sh.log| && At(sh.ring, i).idx == i - sh.size
    ensures i == |sh.log|
  {
    NewestAt(sh, i);
  }

  /** Whatever index a slot holds is of the newest lap that reached it. */
  lemma NewestAt(sh: Shared, i: int)
    requires SharedInv(sh) && i <= |sh.log|
    ensures |sh.log| - sh.size <= At(sh.ring, i).idx < |sh.log|
    ensures Pos(At(sh.ring, i).idx, sh.size) == Pos(i, sh.size)
    ensures i - sh.size <= At(sh.ring, i).idx
  {
    var k := Representative(i, |sh.log|, sh.size);
    assert At(sh.ring, k) == At(sh.ring, i);
  }

  /** The single producer's store of an element into a slot that is not yet released. */
  lemma SpPtrStep(sh: Shared, pc: Pc)
    requires SharedInv(sh) && LocalInv(sh, pc) && pc.SpPtr?
    ensures var (sh', pc') := EnqStep(sh, pc);
            SharedInv(sh') && LocalInv(sh', pc') && Evolves(sh, sh', pc)
  {
    var e := pc.e;
    var (sh', pc') := EnqStep(sh, pc);
    forall i {:trigger At(sh'.ring, i)} | |sh.log| - sh.size < i < |sh.log|
      ensures At(sh'.ring, i) == At(sh.ring, i)
    {
      DistinctWithinLap(i, |sh.log|, sh.size);
    }
    SameSlotNextLap(|sh.log|, sh.size);
    assert At(sh'.ring, |sh.log| - sh.size).idx == At(sh.ring, |sh.log| - sh.size).idx;
  }

  lemma SpIdxStep(sh: Shared, pc: Pc)
    requires SharedInv(sh) && LocalInv(sh, pc) && pc.SpIdx?
    ensures var (sh', pc') := EnqStep(sh, pc);
            SharedInv(sh') && LocalInv(sh', pc') && Evolves(sh, sh', pc)
  {
    var e := pc.e;
    var sh' := EnqStep(sh, pc).0;
    Append(sh, sh', Entry(e.elems[e.actual], e.call));
    AppendOwn(sh, sh', e);
  }

  /** Raising the shared tail over filled indices. */
  lemma RaiseTail(sh: Shared, v: int, mover: Pc)
    requires SharedInv(sh) && sh.tail <= v <= |sh.log|
    requires sh.sp ==> InEnq(mover)
    ensures SharedInv(sh.(tail := v)) && Evolves(sh, sh.(tail := v), mover)
  {
  }

  lemma EnqScanStep(sh: Shared, pc: Pc)
    requires SharedInv(sh) && LocalInv(sh, pc)
    requires pc.EnqLoop? || pc.EnqLoadPtr? || pc.EnqLoadIdx? || pc.EnqReload?
    ensures EnqStep(sh, pc).0 == sh && LocalInv(sh, EnqStep(sh, pc).1)
  {
    if pc.EnqLoadIdx? { NewestAt(sh, pc.e.tail); }
  }

  lemma EnqEdgeStep(sh: Shared, pc: Pc)
    requires SharedInv(sh) && LocalInv(sh, pc)
    requires pc.EnqLoadTail? || pc.EnqUpdLoad? || pc.SpLoadHead?
    requires pc.EnqLoadTail? && sh.sp ==> sh.tail == |sh.log|
    ensures EnqStep(sh, pc).0 == sh && LocalInv(sh, EnqStep(sh, pc).1)
  {
  }

  lemma EnqReleaseStep(sh: Shared, pc: Pc)
    requires SharedInv(sh) && LocalInv(sh, pc)
    requires pc.EnqUpdCas? || pc.SpPublish?
    ensures var (sh', pc') := EnqStep(sh, pc);
            SharedInv(sh') && LocalInv(sh', pc') && Evolves(sh, sh', pc)
  {
    if pc.SpPublish? || sh.tail == pc.seen {
      RaiseTail(sh, pc.e.tail, pc);
    }
  }

  lemma EnqReturnStep(sh: Shared, pc: Pc)
    requires SharedInv(sh) && LocalInv(sh, pc) && pc.EnqRet?
    ensures var (sh', pc') := EnqStep(sh, pc);
            SharedInv(sh') && LocalInv(sh', pc') && Evolves(sh, sh', pc)
  {
  }

  lemma RingShape(sh: Shared)
    requires SharedInv(sh)
    ensures sh.size > 0 && |sh.ring| == sh.size
  {
  }

  lemma TestReady(sh: Shared, pc: Pc)
    requires SharedInv(sh) && LocalInv(sh, pc) && pc.EnqTest?
    ensures pc.e.actual < |pc.e.elems|
  {
  }

  lemma EnqueueStep(sh: Shared, pc: Pc)
    requires SharedInv(sh) && LocalInv(sh, pc) && InEnq(pc)
    requires pc.EnqLoadTail? && sh.sp ==> sh.tail == |sh.log|
    ensures var (sh', pc') := EnqStep(sh, pc);
            SharedInv(sh') && LocalInv(sh', pc') && Evolves(sh, sh', pc)
  {
    hide SharedInv; hide LocalInv; hide At; hide SetAt;
    RingShape(sh);
    if pc.EnqTest? {
      TestReady(sh, pc);
      if pc.idx == pc.e.tail - sh.size && At(sh.ring, pc.e.tail) == Slot(pc.ptr, pc.idx) {
        TestWin(sh, pc);
      } else {
        TestLose(sh, pc);
      }
    } else if pc.SpPtr? {
      SpPtrStep(sh, pc);
    } else if pc.SpIdx? {
      SpIdxStep(sh, pc);
    } else if pc.EnqUpdCas? || pc.SpPublish? {
      EnqReleaseStep(sh, pc);
    } else if pc.EnqRet? {
      EnqReturnStep(sh, pc);
    } else if pc.EnqLoadTail? || pc.EnqUpdLoad? || pc.SpLoadHead? {
      EnqEdgeStep(sh, pc);
    } else {
      EnqScanStep(sh, pc);
    }
  }

  /** Reading the next element of a batch. */
  lemma ReadStep(sh: Shared, pc: Pc)
    requires SharedInv(sh) && LocalInv(sh, pc) && pc.DeqRead?
    ensures LocalInv(sh, DeqStep(sh, pc).1)
  {
    var d, elems := pc.d, pc.elems;
    if d.head == sh.head {
      assert At(sh.ring, d.head + |elems|).ptr == sh.log[d.head + |elems|].val;
    }
  }

  /** Handing out the elements from head on. */
  lemma HandOut(sh: Shared, elems: seq<Elem>)
    requires SharedInv(sh) && sh.head + |elems| <= sh.tail
    requires forall j :: 0 <= j < |elems| ==> elems[j] == sh.log[sh.head + j].val
    ensures var sh' := sh.(head := sh.head + |elems|, out := sh.out + elems);
      SharedInv(sh') && elems == sh'.out[sh.head..sh.head + |elems|]
  {
    hide At;
    var sh' := sh.(head := sh.head + |elems|, out := sh.out + elems);
    forall i | 0 <= i < sh'.head ensures sh'.out[i] == sh'.log[i].val {
      if i >= sh.head { assert elems[i - sh.head] == sh.log[sh.head + (i - sh.head)].val; }
    }
  }

  /** What a dequeue about to move head has read. */
  lemma CasRead(sh: Shared, pc: Pc)
    requires SharedInv(sh) && LocalInv(sh, pc) && pc.DeqCas?
    ensures DeqInv(sh, pc.d) && pc.elems != [] && 0 <= sh.head <= sh.tail && |sh.out| == sh.head
    ensures sh.head == pc.d.head ==> sh.head + |pc.elems| <= sh.tail <= |sh.log|
    ensures sh.head == pc.d.head ==> forall j :: 0 <= j < |pc.elems| ==> pc.elems[j] == sh.log[sh.head + j].val
  {
    hide At;
  }

  /** The winning update of head hands out the next elements of the log. */
  lemma WinStep(sh: Shared, pc: Pc)
    requires SharedInv(sh) && LocalInv(sh, pc) && pc.DeqCas?
    ensures var (sh', pc') := DeqStep(sh, pc);
            SharedInv(sh') && LocalInv(sh', pc') && Evolves(sh, sh', pc)
  {
    hide SharedInv;
    CasRead(sh, pc);
    TailBounds(sh);
    if sh.head == pc.d.head { HandOut(sh, pc.elems); }
  }

  lemma FindScanStep(sh: Shared, pc: Pc)
    requires SharedInv(sh) && LocalInv(sh, pc) && pc.FindScan?
    ensures DeqStep(sh, pc).0 == sh && LocalInv(sh, DeqStep(sh, pc).1)
  {
    if At(sh.ring, pc.scan).idx == pc.scan { NewestAt(sh, pc.scan); }
  }

  lemma FindUpdStep(sh: Shared, pc: Pc)
    requires SharedInv(sh) && LocalInv(sh, pc)
    requires pc.FindUpdLoad? || pc.FindUpdCas?
    ensures var (sh', pc') := DeqStep(sh, pc);
            SharedInv(sh') && LocalInv(sh', pc') && Evolves(sh, sh', pc)
  {
    hide SharedInv; hide LocalInv; hide Evolves; hide At; hide DeqFound;
    TailBounds(sh);
    FindKnows(sh, pc);
    if pc.FindUpdCas? && sh.tail == pc.seen {
      RaiseTail(sh, pc.neu, pc);
      FoundKnows(sh.(tail := pc.neu), pc.d.(tail := pc.neu));
    } else {
      SameEvolves(sh, pc);
      if pc.neu < sh.tail { FoundKnows(sh, pc.d.(tail := sh.tail)); }
    }
  }

  lemma SameEvolves(sh: Shared, pc: Pc)
    ensures Evolves(sh, sh, pc)
  {
  }

  lemma FindKnows(sh: Shared, pc: Pc)
    requires SharedInv(sh) && (pc.FindUpdLoad? || pc.FindUpdCas?)
    ensures LocalInv(sh, pc) ==> !sh.sp && DeqInv(sh, pc.d) && 0 <= pc.neu <= |sh.log|
    ensures LocalInv(sh, pc) && pc.FindUpdCas? ==> pc.seen <= sh.tail && pc.seen <= pc.neu
    ensures !sh.sp && DeqInv(sh, pc.d) && 0 <= pc.neu <= |sh.log| && sh.tail <= pc.neu ==>
      LocalInv(sh, FindUpdCas(pc.d, pc.neu, sh.tail))
  {
    hide SharedInv;
  }

  lemma FoundKnows(sh: Shared, d: Deq)
    requires SharedInv(sh) && DeqInv(sh, d)
    ensures LocalInv(sh, DeqFound(d))
  {
    hide SharedInv;
  }

  lemma TailBounds(sh: Shared)
    requires SharedInv(sh)
    ensures sh.size > 0 && |sh.ring| == sh.size && 0 <= sh.head <= sh.tail <= |sh.log| <= sh.head + sh.size
  {
  }

  lemma DeqEdgeStep(sh: Shared, pc: Pc)
    requires SharedInv(sh) && LocalInv(sh, pc)
    requires pc.DeqLoadHead? || pc.DeqLoadTail? || pc.FindSp? || pc.DeqEmpty? || pc.DeqRet?
    ensures DeqStep(sh, pc).0 == sh && LocalInv(sh, DeqStep(sh, pc).1)
  {
    hide SharedInv; hide At;
    TailBounds(sh);
  }

  lemma DequeueStep(sh: Shared, pc: Pc)
    requires SharedInv(sh) && LocalInv(sh, pc) && InDeq(pc)
    ensures var (sh', pc') := DeqStep(sh, pc);
            SharedInv(sh') && LocalInv(sh', pc') && Evolves(sh, sh', pc)
  {
    hide SharedInv; hide LocalInv; hide At;
    RingShape(sh);
    if pc.DeqRead? {
      ReadStep(sh, pc);
    } else if pc.DeqCas? {
      WinStep(sh, pc);
    } else if pc.FindScan? {
      FindScanStep(sh, pc);
    } else if pc.FindUpdLoad? || pc.FindUpdCas? {
      FindUpdStep(sh, pc);
    } else {
      DeqEdgeStep(sh, pc);
    }
  }

  lemma StartStep(sh: Shared, cmd: Cmd)
    requires SharedInv(sh)
    ensures var (sh', pc') := StartCall(sh, cmd);
            SharedInv(sh') && LocalInv(sh', pc') && Evolves(sh, sh', Idle)
  {
    if cmd.Enqueue? { NoneMine(sh.log, sh.calls); }
  }

  lemma {:induction false} NoneMine(log: seq<Entry>, call: nat)
    requires forall i :: 0 <= i < |log| ==> log[i].call != call
    ensures Mine(log, call) == []
  {
    if log != [] { NoneMine(log[..|log| - 1], call); }
  }

  /** How a step moves its own thread: a call keeps its number, and the single
      producer leaves its writing phase with everything released. */
  ghost predicate Moves(sh: Shared, pc: Pc, cmd: Cmd, sh': Shared, pc': Pc) {
    && (InEnq(pc') ==> (InEnq(pc) && pc'.e.call == pc.e.call) ||
                       (pc.Idle? && cmd.Enqueue? && pc'.e.call == sh.calls))
    && (InDeq(pc') ==> InDeq(pc) || (pc.Idle? && cmd.Dequeue?))
    && (sh.sp && !SpWriting(pc') ==>
          if SpWriting(pc) then sh'.tail == |sh'.log| else sh'.tail == sh.tail && sh'.log == sh.log)
  }

  lemma EnqMoves(sh: Shared, pc: Pc, cmd: Cmd)
    requires SharedInv(sh) && LocalInv(sh, pc) && InEnq(pc)
    ensures var (sh', pc') := EnqStep(sh, pc); Moves(sh, pc, cmd, sh', pc')
  {
    hide SharedInv; hide LocalInv; hide At; hide SetAt;
    EnqModes(sh, pc);
  }

  /** What the mode of the ring says about a producer. */
  lemma EnqModes(sh: Shared, pc: Pc)
    requires SharedInv(sh) && LocalInv(sh, pc) && InEnq(pc)
    ensures pc.EnqTest? || pc.EnqUpdCas? ==> !sh.sp
    ensures pc.SpPublish? ==> pc.e.tail == |sh.log|
    ensures pc.e.call < sh.calls
  {
    hide SharedInv; hide At; hide Mine;
  }

  lemma DeqMoves(sh: Shared, pc: Pc, cmd: Cmd)
    requires SharedInv(sh) && LocalInv(sh, pc) && InDeq(pc)
    ensures var (sh', pc') := DeqStep(sh, pc); Moves(sh, pc, cmd, sh', pc')
  {
  }

  /** The size, the mode and the threads of a ring never change. */
  ghost predicate SameShape(s: State, s': State) {
    && s'.sh.size == s.sh.size && s'.sh.sp == s.sh.sp && s'.sh.sc == s.sh.sc
    && |s'.threads| == |s.threads|
  }

  lemma CombineExclusive(s: State, ev: Event, sh': Shared, pc': Pc)
    requires Inv(s) && Admissible(s, ev) && Evolves(s.sh, sh', s.threads[ev.t])
    requires Moves(s.sh, s.threads[ev.t], ev.cmd, sh', pc')
    ensures Exclusive(State(sh', s.threads[ev.t := pc']))
  {
    hide SharedInv; hide LocalInv; hide SpWriting;
    var s' := State(sh', s.threads[ev.t := pc']);
    forall t, u | 0 <= t < u < |s'.threads| && InEnq(s'.threads[t]) && InEnq(s'.threads[u])
      ensures s'.threads[t].e.call != s'.threads[u].e.call && !sh'.sp
    {
      var v := if t == ev.t then u else t;
      assert LocalInv(s.sh, s.threads[v]);
      EnqModes(s.sh, s.threads[v]);
    }
  }

  lemma CombineReleased(s: State, ev: Event, sh': Shared, pc': Pc, threads': seq<Pc>)
    requires Inv(s) && Admissible(s, ev) && Evolves(s.sh, sh', s.threads[ev.t])
    requires Moves(s.sh, s.threads[ev.t], ev.cmd, sh', pc')
    requires threads' == s.threads[ev.t := pc']
    requires sh'.sp && forall t :: 0 <= t < |threads'| ==> !SpWriting(threads'[t])
    ensures sh'.tail == |sh'.log|
  {
    assert !SpWriting(threads'[ev.t]);
    if !SpWriting(s.threads[ev.t]) {
      forall t | 0 <= t < |s.threads| ensures !SpWriting(s.threads[t]) {
        assert t != ev.t ==> s.threads[t] == threads'[t];
      }
    }
  }

  lemma Combine(s: State, ev: Event, sh': Shared, pc': Pc)
    requires Inv(s) && Admissible(s, ev)
    requires SharedInv(sh') && LocalInv(sh', pc') && Evolves(s.sh, sh', s.threads[ev.t])
    requires Moves(s.sh, s.threads[ev.t], ev.cmd, sh', pc')
    ensures Inv(State(sh', s.threads[ev.t := pc'])) && SameShape(s, State(sh', s.threads[ev.t := pc']))
  {
    var threads' := s.threads[ev.t := pc'];
    forall u | 0 <= u < |threads'|
      ensures LocalInv(sh', threads'[u])
    {
      if u != ev.t { Stable(s.sh, sh', s.threads[ev.t], s.threads[u]); }
    }
    CombineExclusive(s, ev, sh', pc');
    if sh'.sp && (forall t :: 0 <= t < |threads'| ==> !SpWriting(threads'[t])) {
      CombineReleased(s, ev, sh', pc', threads');
    }
  }

  /** The moving thread's own obligations. */
  lemma OwnStep(s: State, ev: Event)
    requires Inv(s) && Admissible(s, ev)
    ensures var (sh', pc') := ThreadStep(s.sh, s.threads[ev.t], ev.cmd);
            && SharedInv(sh') && LocalInv(sh', pc') && Evolves(s.sh, sh', s.threads[ev.t])
            && Moves(s.sh, s.threads[ev.t], ev.cmd, sh', pc')
  {
    hide EnqStep;
    hide DeqStep;
    var pc := s.threads[ev.t];
    assert LocalInv(s.sh, pc);
    if InEnq(pc) {
      if pc.EnqLoadTail? && s.sh.sp { LoneProducer(s, ev.t); }
      EnqueueStep(s.sh, pc);
      EnqMoves(s.sh, pc, ev.cmd);
    } else if InDeq(pc) {
      DequeueStep(s.sh, pc);
      DeqMoves(s.sh, pc, ev.cmd);
    } else {
      StartStep(s.sh, ev.cmd);
    }
  }

  /** One step of any thread keeps the invariant. */
  lemma StepInv(s: State, ev: Event)
    requires Inv(s)
    ensures Inv(Step(s, ev)) && SameShape(s, Step(s, ev))
  {
    if Admissible(s, ev) {
      OwnStep(s, ev);
      var (sh', pc') := ThreadStep(s.sh, s.threads[ev.t], ev.cmd);
      Combine(s, ev, sh', pc');
    }
  }

  lemma LoneProducer(s: State, t: nat)
    requires Inv(s) && t < |s.threads| && s.threads[t].EnqLoadTail? && s.sh.sp
    ensures s.sh.tail == |s.sh.log|
  {
    forall u | 0 <= u < |s.threads| ensures !SpWriting(s.threads[u]) {
      if u < t { assert !InEnq(s.threads[u]); } else if u > t { assert !InEnq(s.threads[u]); }
    }
  }

  lemma InitInv(size: nat, sp: bool, sc: bool, n: nat)
    requires size > 0
    ensures Inv(Init(size, sp, sc, n))
  {
    var sh := InitShared(size, sp, sc);
    forall i {:trigger At(sh.ring, i)} | 0 - size <= i < 0
      ensures At(sh.ring, i).idx == i
    {
      SameSlotNextLap(i, size);
    }
  }

  /** Every state of every run satisfies the invariant. */
  lemma {:induction false} RunInv(size: nat, sp: bool, sc: bool, n: nat, evs: seq<Event>)
    requires size > 0
    ensures Inv(Run(Init(size, sp, sc, n), evs))
    ensures SameShape(Init(size, sp, sc, n), Run(Init(size, sp, sc, n), evs))
    decreases |evs|
  {
    if evs == [] {
      InitInv(size, sp, sc, n);
    } else {
      RunInv(size, sp, sc, n, evs[..|evs| - 1]);
      StepInv(Run(Init(size, sp, sc, n), evs[..|evs| - 1]), evs[|evs| - 1]);
    }
  }

  // ------------------------------------------------------------ main results

  ghost function Values(log: seq<Entry>): (vs: seq<Elem>)
    ensures |vs| == |log| && forall i :: 0 <= i < |log| ==> vs[i] == log[i].val
  {
    seq(|log|, i requires 0 <= i < |log| => log[i].val)
  }

  /** The states of the runs of n threads on a ring of `size` slots. */
  ghost predicate Reachable(size: nat, sp: bool, sc: bool, n: nat, s: State) {
    size > 0 && exists evs :: s == Run(Init(size, sp, sc, n), evs)
  }

  lemma ReachableInv(size: nat, sp: bool, sc: bool, n: nat, s: State)
    requires Reachable(size, sp, sc, n, s)
    ensures Inv(s) && s.sh.size == size && s.sh.sp == sp && s.sh.sc == sc && |s.threads| == n
  {
    var evs :| s == Run(Init(size, sp, sc, n), evs);
    RunInv(size, sp, sc, n, evs);
  }

  /** The tail a thread works with: it takes all indices below it for filled. */
  function LocalTail(pc: Pc): int {
    if InEnq(pc) then pc.e.tail
    else if pc.FindScan? then pc.scan
    else if pc.FindUpdLoad? || pc.FindUpdCas? then pc.neu
    else if pc.FindSp? || pc.DeqRead? || pc.DeqCas? then pc.d.tail
    else 0
  }

  lemma LocalTailFilled(sh: Shared, pc: Pc)
    requires SharedInv(sh) && LocalInv(sh, pc)
    ensures LocalTail(pc) <= |sh.log|
  {
    hide At; hide Mine;
  }

  /** In every run the ring is a bounded FIFO: what the winning dequeues handed out,
      in the order they won, is exactly the enqueue log below head, the rest of the
      log is what the ring holds, slot by slot, and it never exceeds the ring.  There are
      no holes below the shared tail, nor below the tail any thread works with. */
  lemma FifoRefinement(size: nat, sp: bool, sc: bool, n: nat, s: State)
    requires Reachable(size, sp, sc, n, s)
    ensures 0 <= s.sh.head <= s.sh.tail <= |s.sh.log| <= s.sh.head + size
    ensures s.sh.out == Values(s.sh.log[..s.sh.head])
    ensures |s.sh.ring| == size
    ensures forall i :: s.sh.head <= i < |s.sh.log| ==> s.sh.ring[i % size] == Slot(s.sh.log[i].val, i)
    ensures |s.threads| == n && forall t :: 0 <= t < n ==> LocalTail(s.threads[t]) <= |s.sh.log|
  {
    ReachableInv(size, sp, sc, n, s);
    forall t | 0 <= t < n ensures LocalTail(s.threads[t]) <= |s.sh.log| { LocalTailFilled(s.sh, s.threads[t]); }
    forall i | s.sh.head <= i < |s.sh.log|
      ensures s.sh.ring[i % size] == Slot(s.sh.log[i].val, i)
    {
      PosIsRemainder(i, size);
      assert At(s.sh.ring, i) == Slot(s.sh.log[i].val, i);
    }
  }

  /** The log only grows: an element, once enqueued, keeps its index for ever. */
  lemma LogGrows(size: nat, sp: bool, sc: bool, n: nat, s: State, ev: Event)
    requires Reachable(size, sp, sc, n, s)
    ensures s.sh.log <= Step(s, ev).sh.log && s.sh.out <= Step(s, ev).sh.out
  {
    ReachableInv(size, sp, sc, n, s);
    if Admissible(s, ev) { OwnStep(s, ev); }
  }

  /** A dequeue of n that returns k elements at `index`, at least 1 and at most n, returns entries
      index .. index+k of the log, unchanged, and they are its own share of the output. */
  lemma DequeueReturns(size: nat, sp: bool, sc: bool, n: nat, s: State, t: nat)
    requires Reachable(size, sp, sc, n, s) && t < |s.threads| && s.threads[t].DeqRet?
    ensures var index, elems := s.threads[t].index, s.threads[t].elems;
            && 0 <= index <= index + |elems| <= s.sh.head <= |s.sh.log|
            && elems == Values(s.sh.log[index..index + |elems|])
            && s.sh.head <= |s.sh.out| && elems == s.sh.out[index..index + |elems|]
            && 0 < |elems| <= s.threads[t].n
  {
    hide Run; hide Init; hide LastCall; hide EnqAnswers;
    ReachableInv(size, sp, sc, n, s);
    assert LocalInv(s.sh, s.threads[t]);
    var evs :| s == Run(Init(size, sp, sc, n), evs);
    CallsAnswered(size, sp, sc, n, evs, t);
  }

  /** An enqueue that returns k has put exactly its first k elements into the log, in
      order, and all of them lie below the released tail. */
  lemma EnqueueReturns(size: nat, sp: bool, sc: bool, n: nat, s: State, t: nat)
    requires Reachable(size, sp, sc, n, s) && t < |s.threads| && s.threads[t].EnqRet?
    ensures var e := s.threads[t].e;
            && e.actual <= |e.elems| && Mine(s.sh.log, e.call) == e.elems[..e.actual]
            && (forall i :: 0 <= i < |s.sh.log| && s.sh.log[i].call == e.call ==> i < s.sh.tail)
  {
    ReachableInv(size, sp, sc, n, s);
    assert LocalInv(s.sh, s.threads[t]);
  }

  /** A multi-producer enqueue stops short only at an instant when the ring is full;
      a single-producer one takes exactly the room there is when it looks. */
  lemma ShortEnqueueMeansFull(size: nat, sp: bool, sc: bool, n: nat, s: State, ev: Event, s': State)
    requires Reachable(size, sp, sc, n, s) && ev.t < |s.threads| == |s'.threads| && s' == Step(s, ev)
    ensures var pc, pc' := s.threads[ev.t], s'.threads[ev.t];
            && (pc.EnqLoop? && pc'.EnqUpdLoad? && pc.e.actual < |pc.e.elems| ==> |s.sh.log| - s.sh.head == size)
            && (pc.SpLoadHead? && pc'.EnqRet? && pc.e.elems != [] ==> |s.sh.log| - s.sh.head == size)
            && (pc.SpLoadHead? && pc'.SpPtr? ==>
                  pc'.limit == Min(size - (|s.sh.log| - s.sh.head), |pc.e.elems|))
  {
    ReachableInv(size, sp, sc, n, s);
    assert LocalInv(s.sh, s.threads[ev.t]);
  }

  /** A dequeue that asked for something and gives up does so at an instant when every
      element of every enqueue that has returned is already consumed. */
  lemma EmptyDequeueIsJustified(size: nat, sp: bool, sc: bool, n: nat, s: State, ev: Event, s': State)
    requires Reachable(size, sp, sc, n, s) && ev.t < |s.threads| == |s'.threads| && s' == Step(s, ev)
    requires !s.threads[ev.t].DeqEmpty? && s'.threads[ev.t].DeqEmpty? && s'.threads[ev.t].d.n > 0
    ensures s'.sh.head == s'.sh.tail
    ensures forall i :: 0 <= i < |s'.sh.log| && s'.sh.log[i].call in s'.sh.returned ==> i < s'.sh.head
  {
    hide LocalInv; hide Reachable; hide EnqStep; hide DeqStep; hide At; hide Mine; hide Exclusive;
    ReachableInv(size, sp, sc, n, s);
    assert LocalInv(s.sh, s.threads[ev.t]);
    StepInv(s, ev);
    if InEnq(s.threads[ev.t]) {
      EnqNeverEmpty(s.sh, s.threads[ev.t]);
    } else if InDeq(s.threads[ev.t]) {
      GivesUp(s.sh, s.threads[ev.t]);
    }
  }

  lemma EnqNeverEmpty(sh: Shared, pc: Pc)
    requires sh.size > 0 && |sh.ring| == sh.size && InEnq(pc)
    ensures !EnqStep(sh, pc).1.DeqEmpty?
  {
  }

  lemma GivesUp(sh: Shared, pc: Pc)
    requires SharedInv(sh) && LocalInv(sh, pc) && InDeq(pc)
    ensures var (sh', pc') := DeqStep(sh, pc);
            !pc.DeqEmpty? && pc'.DeqEmpty? && pc'.d.n > 0 ==> sh'.head == sh'.tail
  {
  }

  // ---------------------------------------------- what a call was asked for

  /** A call as its caller sees it: the command, and the shared states from its start to now. */
  datatype Call = NoCall | Call(cmd: Cmd, since: set<Shared>)

  /** The last call that thread t has begun in a run, told from the schedule. */
  ghost function LastCall(o: State, evs: seq<Event>, t: nat): Call
    decreases |evs|
  {
    if evs == [] then NoCall
    else
      var was, ev := Run(o, evs[..|evs| - 1]), evs[|evs| - 1];
      var sh' := Step(was, ev).sh;
      if ev.t == t && Admissible(was, ev) && was.threads[t].Idle? then Call(ev.cmd, {sh'})
      else
        match LastCall(o, evs[..|evs| - 1], t)
        case NoCall => NoCall
        case Call(cmd, since) => Call(cmd, since + {sh'})
  }

  /** At some moment all places up to index i had been given out. */
  ghost predicate WasFull(since: set<Shared>, i: int) { exists x :: x in since && x.head + x.size == i }

  /** At some moment the ring's tail was i. */
  ghost predicate WasTail(since: set<Shared>, i: int) { exists x :: x in since && x.tail == i }

  ghost predicate WasEmpty(since: set<Shared>) { exists x :: x in since && x.head == x.tail }

  /** An enqueue has been asked for the elements it works on, and gives up early only for want of
      room. */
  ghost predicate EnqAnswers(call: Call, pc: Pc)
    requires InEnq(pc)
  {
    && call.Call? && call.cmd == Enqueue(pc.e.elems)
    && (pc.EnqUpdLoad? || pc.EnqUpdCas? || pc.SpPublish? || pc.EnqRet? ==>
          pc.e.actual >= |pc.e.elems| || WasFull(call.since, pc.e.tail))
    && (pc.SpPtr? || pc.SpIdx? ==>
          pc.limit == |pc.e.elems| || WasFull(call.since, pc.e.tail - pc.e.actual + pc.limit))
  }

  /** A dequeue has been asked for the number it works with, and takes fewer only when there are no
      more below a tail it has seen. */
  ghost predicate DeqAnswers(call: Call, pc: Pc)
    requires InDeq(pc)
  {
    && call.Call?
    && match pc {
         case DeqLoadHead(n) => call.cmd == Dequeue(n)
         case DeqLoadTail(n, _) => call.cmd == Dequeue(n)
         case DeqRead(d, elems) =>
           call.cmd == Dequeue(d.n) && |elems| < d.n && WasTail(call.since, d.tail)
         case DeqCas(d, elems) =>
           && call.cmd == Dequeue(d.n) && 0 < |elems| <= d.n && WasTail(call.since, d.tail)
           && (|elems| < d.n ==> d.head + |elems| == d.tail)
         case DeqEmpty(d) => call.cmd == Dequeue(d.n) && (d.n == 0 || WasEmpty(call.since))
         case DeqRet(n, index, elems) =>
           && call.cmd == Dequeue(n) && 0 < |elems| <= n
           && (|elems| < n ==> WasTail(call.since, index + |elems|))
         case _ => call.cmd == Dequeue(pc.d.n) && WasTail(call.since, pc.d.tail)
       }
  }

  ghost predicate Answers(call: Call, pc: Pc) {
    (InEnq(pc) ==> EnqAnswers(call, pc)) && (InDeq(pc) ==> DeqAnswers(call, pc))
  }

  /** The call goes on with another shared state. */
  ghost function Later(call: Call, sh: Shared): Call {
    if call.NoCall? then NoCall else call.(since := call.since + {sh})
  }

  lemma WasLater(call: Call, sh: Shared, i: int)
    requires call.Call?
    ensures WasFull(call.since, i) || sh.head + sh.size == i ==> WasFull(Later(call, sh).since, i)
    ensures WasTail(call.since, i) || sh.tail == i ==> WasTail(Later(call, sh).since, i)
    ensures WasEmpty(call.since) || sh.head == sh.tail ==> WasEmpty(Later(call, sh).since)
  {
    var since := Later(call, sh).since;
    assert sh in since;
    if WasFull(call.since, i) {
      var x :| x in call.since && x.head + x.size == i;
      assert x in since;
    }
    if WasTail(call.since, i) {
      var x :| x in call.since && x.tail == i;
      assert x in since;
    }
    if WasEmpty(call.since) {
      var x :| x in call.since && x.head == x.tail;
      assert x in since;
    }
  }

  lemma AnswersLater(call: Call, sh: Shared, pc: Pc)
    requires Answers(call, pc)
    ensures Answers(Later(call, sh), pc)
  {
    hide WasFull; hide WasTail; hide WasEmpty;
    if InEnq(pc) {
      WasLater(call, sh, pc.e.tail);
      if pc.SpPtr? || pc.SpIdx? { WasLater(call, sh, pc.e.tail - pc.e.actual + pc.limit); }
    } else if InDeq(pc) {
      WasLater(call, sh, if pc.DeqRet? then pc.index + |pc.elems| else if HasDeq(pc) then pc.d.tail else 0);
    }
  }

  predicate HasDeq(pc: Pc) { InDeq(pc) && !pc.DeqLoadHead? && !pc.DeqLoadTail? && !pc.DeqRet? }

  lemma EnqAnswersStep(call: Call, sh: Shared, pc: Pc)
    requires SharedInv(sh) && LocalInv(sh, pc) && InEnq(pc) && EnqAnswers(call, pc)
    ensures var (sh', pc') := EnqStep(sh, pc); Answers(Later(call, sh'), pc')
  {
    hide WasFull; hide At; hide SetAt; hide SharedInv; hide Later; hide LocalInv;
    TailBounds(sh);
    EnqBounds(sh, pc);
    var (sh', pc') := EnqStep(sh, pc);
    WasLater(call, sh', pc.e.tail);
    if pc'.SpPtr? || pc'.SpIdx? { WasLater(call, sh', pc'.e.tail - pc'.e.actual + pc'.limit); }
    if pc'.SpPublish? { WasLater(call, sh', pc'.e.tail); }
    SameCall(call, sh');
  }

  lemma EnqBounds(sh: Shared, pc: Pc)
    requires SharedInv(sh) && LocalInv(sh, pc) && InEnq(pc)
    ensures pc.e.actual <= |pc.e.elems| && pc.e.tail <= |sh.log|
    ensures pc.SpLoadHead? ==> pc.e.actual == 0
    ensures pc.SpPtr? || pc.SpIdx? ==> pc.e.actual < pc.limit <= |pc.e.elems|
  {
    hide At; hide Mine; hide SharedInv;
  }

  lemma DeqAnswersStep(call: Call, sh: Shared, pc: Pc)
    requires SharedInv(sh) && LocalInv(sh, pc) && InDeq(pc) && DeqAnswers(call, pc)
    ensures var (sh', pc') := DeqStep(sh, pc); Answers(Later(call, sh'), pc')
  {
    hide WasTail; hide WasEmpty; hide At; hide SharedInv; hide Later; hide LocalInv;
    TailBounds(sh);
    var (sh', pc') := DeqStep(sh, pc);
    WasLater(call, sh', if HasDeq(pc) then pc.d.tail else 0);
    WasLater(call, sh', sh'.tail);
    SameCall(call, sh');
    if pc.DeqCas? || pc.DeqRead? { TakeAnswers(call, sh, pc); }
    else if HasDeq(pc) && !pc.DeqEmpty? { FindAnswers(call, sh, pc); }
  }

  lemma SameCall(call: Call, sh: Shared)
    requires call.Call?
    ensures Later(call, sh).Call? && Later(call, sh).cmd == call.cmd
  {
  }

  lemma TakeAnswers(call: Call, sh: Shared, pc: Pc)
    requires SharedInv(sh) && LocalInv(sh, pc) && (pc.DeqRead? || pc.DeqCas?) && DeqAnswers(call, pc)
    ensures var (sh', pc') := DeqStep(sh, pc); Answers(Later(call, sh'), pc')
  {
    hide WasTail; hide WasEmpty; hide At; hide Later; hide SharedInv;
    TailBounds(sh);
    var (sh', pc') := DeqStep(sh, pc);
    WasLater(call, sh', pc.d.tail);
    SameCall(call, sh');
  }

  lemma FindAnswers(call: Call, sh: Shared, pc: Pc)
    requires pc.FindSp? || pc.FindScan? || pc.FindUpdLoad? || pc.FindUpdCas?
    requires SharedInv(sh) && LocalInv(sh, pc) && DeqAnswers(call, pc)
    ensures var (sh', pc') := DeqStep(sh, pc); Answers(Later(call, sh'), pc')
  {
    hide WasTail; hide WasEmpty; hide At; hide Later; hide SharedInv;
    TailBounds(sh);
    var (sh', pc') := DeqStep(sh, pc);
    WasLater(call, sh', pc.d.tail);
    WasLater(call, sh', sh'.tail);
    SameCall(call, sh');
  }

  /** In every run, every call does what its caller has asked for. */
  lemma {:induction false} CallsAnswered(size: nat, sp: bool, sc: bool, n: nat, evs: seq<Event>, t: nat)
    requires size > 0 && t < n
    ensures var s := Run(Init(size, sp, sc, n), evs);
      |s.threads| == n && Answers(LastCall(Init(size, sp, sc, n), evs, t), s.threads[t])
    decreases |evs|
  {
    hide Answers; hide EnqStep; hide DeqStep; hide Inv; hide Admissible;
    var o := Init(size, sp, sc, n);
    RunInv(size, sp, sc, n, evs);
    if evs == [] {
      IdleAnswers(NoCall);
    } else {
      var prev, ev := evs[..|evs| - 1], evs[|evs| - 1];
      CallsAnswered(size, sp, sc, n, prev, t);
      RunInv(size, sp, sc, n, prev);
      AnswersStep(Run(o, prev), ev, LastCall(o, prev, t), t);
    }
  }

  lemma IdleAnswers(call: Call)
    ensures Answers(call, Idle)
  {
  }

  lemma AnswersStep(s: State, ev: Event, call: Call, t: nat)
    requires Inv(s) && t < |s.threads| && Answers(call, s.threads[t])
    ensures var s' := Step(s, ev);
      && |s'.threads| == |s.threads|
      && Answers(if ev.t == t && Admissible(s, ev) && s.threads[t].Idle? then Call(ev.cmd, {s'.sh})
                 else Later(call, s'.sh), s'.threads[t])
  {
    hide EnqStep; hide DeqStep; hide WasTail; hide WasFull; hide WasEmpty; hide SharedInv; hide LocalInv;
    var s' := Step(s, ev);
    if ev.t == t && Admissible(s, ev) {
      var pc := s.threads[t];
      if InEnq(pc) { EnqAnswersStep(call, s.sh, pc); }
      else if InDeq(pc) { DeqAnswersStep(call, s.sh, pc); }
    } else {
      AnswersLater(call, s'.sh, s.threads[t]);
    }
  }

  /** What a dequeue returns: no more elements than its caller asked for, at least one, and fewer
      only if at some moment of the call there was nothing below the tail beyond them; it returns
      none, when asked for some, only if at some moment of the call the ring was empty. */
  lemma DequeueAnswers(size: nat, sp: bool, sc: bool, n: nat, evs: seq<Event>, t: nat)
    requires size > 0 && t < n
    ensures var s, call := Run(Init(size, sp, sc, n), evs), LastCall(Init(size, sp, sc, n), evs, t);
      && |s.threads| == n
      && (s.threads[t].DeqRet? ==>
            && call.Call? && call.cmd.Dequeue? && 0 < |s.threads[t].elems| <= call.cmd.n
            && (|s.threads[t].elems| < call.cmd.n ==>
                  exists x :: x in call.since && x.tail == s.threads[t].index + |s.threads[t].elems|))
      && (s.threads[t].DeqEmpty? ==>
            && call.Call? && call.cmd.Dequeue?
            && (call.cmd.n > 0 ==> exists x :: x in call.since && x.head == x.tail))
  {
    hide Run; hide Init; hide LastCall;
    CallsAnswered(size, sp, sc, n, evs, t);
  }

  /** What an enqueue returns: it has put in elements of those its caller gave, and fewer than all
      only if at some moment of the call all places up to the index it stopped at had been given
      out. */
  lemma EnqueueAnswers(size: nat, sp: bool, sc: bool, n: nat, evs: seq<Event>, t: nat)
    requires size > 0 && t < n
    ensures var s, call := Run(Init(size, sp, sc, n), evs), LastCall(Init(size, sp, sc, n), evs, t);
      && |s.threads| == n
      && (s.threads[t].EnqRet? ==>
            var e := s.threads[t].e;
            && call.Call? && call.cmd == Enqueue(e.elems)
            && e.actual <= |e.elems| && Mine(s.sh.log, e.call) == e.elems[..e.actual]
            && (e.actual < |e.elems| ==> exists x :: x in call.since && x.head + x.size == e.tail <= |s.sh.log|))
  {
    hide Run; hide Init; hide LastCall; hide SharedInv; hide Exclusive; hide Answers;
    CallsAnswered(size, sp, sc, n, evs, t);
    RunInv(size, sp, sc, n, evs);
    var s := Run(Init(size, sp, sc, n), evs);
    if s.threads[t].EnqRet? {
      EnqReturned(s.sh, s.threads[t], LastCall(Init(size, sp, sc, n), evs, t));
    }
  }

  lemma EnqReturned(sh: Shared, pc: Pc, call: Call)
    requires SharedInv(sh) && LocalInv(sh, pc) && pc.EnqRet? && Answers(call, pc)
    ensures call.Call? && call.cmd == Enqueue(pc.e.elems)
    ensures pc.e.actual <= |pc.e.elems| && Mine(sh.log, pc.e.call) == pc.e.elems[..pc.e.actual]
    ensures pc.e.actual < |pc.e.elems| ==> exists x :: x in call.since && x.head + x.size == pc.e.tail <= |sh.log|
  {
    hide At; hide Mine;
  }

  /** A dequeue starts over only if another has moved head since it read it. */
  lemma DequeueLosesToAnother(size: nat, sp: bool, sc: bool, n: nat, s: State, ev: Event)
    requires Reachable(size, sp, sc, n, s) && ev.t < |s.threads| && s.threads[ev.t].DeqCas?
    ensures |Step(s, ev).threads| == |s.threads|
    ensures !Step(s, ev).threads[ev.t].DeqRet? ==> s.sh.head > s.threads[ev.t].d.head
  {
    ReachableInv(size, sp, sc, n, s);
    assert LocalInv(s.sh, s.threads[ev.t]);
  }

  /** The assertion in the single producer's loop holds: the slot it is about to fill
      was last used exactly one lap ago. */
  lemma SingleProducerAssertion(size: nat, sc: bool, n: nat, s: State, t: nat)
    requires Reachable(size, true, sc, n, s) && t < |s.threads| && s.threads[t].SpPtr?
    ensures |s.sh.ring| == size
    ensures s.sh.ring[s.threads[t].e.tail % size].idx == s.threads[t].e.tail - size
  {
    ReachableInv(size, true, sc, n, s);
    assert LocalInv(s.sh, s.threads[t]);
    var f := |s.sh.log|;
    PosIsRemainder(f, size);
    SameSlotNextLap(f, size);
    assert At(s.sh.ring, f - size).idx == f - size;
  }

  // ------------------------------------------------- 64-bit index arithmetic

  const TWO63: int := 0x8000_0000_0000_0000
  const TWO64: int := 0x1_0000_0000_0000_0000

  /** What a signed 64-bit integer makes of x. */
  function Signed(x: int): int {
    var low := x % TWO64;
    if low >= TWO63 then low - TWO64 else low
  }

  /** `(intptr_t)(a - b) < 0` on 64-bit values. */
  predicate Before64(a: int, b: int) { Signed(a - b) < 0 }

  /** Serial comparison of the wrapped indices is the true order exactly while the
      indices are less than half the number space apart. */
  lemma SerialComparison(a: int, b: int)
    requires -TWO64 <= a - b < TWO64
    ensures (Before64(a % TWO64, b % TWO64) <==> a < b) <==> -TWO63 <= a - b < TWO63
  {
    WrappedDifference(a, b);
  }

  lemma WrappedDifference(a: int, b: int)
    ensures (a % TWO64 - b % TWO64) % TWO64 == (a - b) % TWO64
  {
    var qa, qb := a / TWO64, b / TWO64;
    var x := a % TWO64 - b % TWO64;
    assert a - b == x + (qa - qb) * TWO64;
  }

  /** Wrapping an index does not change its slot in a ring whose size divides 2^64. */
  lemma WrapKeepsSlot(i: int, size: nat)
    requires size > 0 && TWO64 % size == 0
    ensures (i % TWO64) % size == i % size
  {
    var laps := TWO64 / size;
    var q := i / TWO64;
    var x := i % TWO64;
    assert i == x + q * TWO64;
    assert TWO64 == laps * size;
    assert q * TWO64 == (q * laps) * size;
    assert i == (x / size + q * laps) * size + x % size;
    QuotientUnique(i, x / size + q * laps, x % size, size);
  }

  /** The 64-bit values of a and b are the same. */
  predicate Same64(a: int, b: int) { (a - b) % TWO64 == 0 }

  function Actual64(d: Deq): int { Min(Signed(d.tail - d.head), d.n) }

  function DeqTop64(sh: Shared, d: Deq): Pc {
    if Actual64(d) > 0 then DeqRead(d, [])
    else if sh.sp then FindSp(d) else FindScan(d, d.tail)
  }

  function DeqFound64(d: Deq): Pc { if Actual64(d) > 0 then DeqRead(d, []) else DeqEmpty(d) }

  function FindReloaded64(sh: Shared, d: Deq, neu: int): Pc {
    if Before64(neu, sh.tail) then DeqFound64(d.(tail := sh.tail)) else FindUpdCas(d, neu, sh.tail)
  }

  function TestSlot64(sh: Shared, e: Enq, ptr: Elem, idx: int): (Shared, Pc)
    requires sh.size > 0 && |sh.ring| == sh.size
    requires e.actual < |e.elems|
  {
    var slot := At(sh.ring, e.tail);
    if !Same64(idx, e.tail - sh.size) then
      if !Same64(idx, e.tail) then (sh, EnqReload(e))
      else (sh, EnqLoop(e.(tail := e.tail + 1)))
    else if slot.ptr == ptr && Same64(slot.idx, idx) then
      var elem := e.elems[e.actual];
      (SetAt(sh, e.tail, Slot(elem, e.tail)).(log := sh.log + [Entry(elem, e.call)]),
       EnqLoop(e.(actual := e.actual + 1, tail := e.tail + 1)))
    else (sh, EnqTest(e, slot.ptr, slot.idx))
  }

  /** The steps that compare indices, on what 64 bits hold of them. */
  function ThreadStep64(sh: Shared, pc: Pc, cmd: Cmd): (Shared, Pc)
    requires sh.size > 0 && |sh.ring| == sh.size
  {
    match pc
    case EnqLoop(e) =>
      (sh, if e.actual < |e.elems| && Before64(e.tail, sh.head + sh.size) then EnqLoadPtr(e) else EnqUpdLoad(e))
    case EnqTest(e, ptr, idx) => if e.actual < |e.elems| then TestSlot64(sh, e, ptr, idx) else (sh, pc)
    case EnqReload(e) => (sh, EnqLoop(e.(tail := if Before64(e.tail, sh.tail) then sh.tail else e.tail + 1)))
    case EnqUpdLoad(e) => (sh, if Before64(e.tail, sh.tail) then EnqRet(e) else EnqUpdCas(e, sh.tail))
    case EnqUpdCas(e, seen) =>
      if Same64(sh.tail, seen) then (sh.(tail := e.tail), EnqRet(e))
      else (sh, if Before64(e.tail, sh.tail) then EnqRet(e) else EnqUpdCas(e, sh.tail))
    case SpLoadHead(e) =>
      var room := Min(Signed(sh.head + sh.size - e.tail), |e.elems|);
      if room <= 0 then (sh, EnqRet(e)) else (sh, SpPtr(e, room))
    case DeqLoadTail(n, head) => (sh, DeqTop64(sh, Deq(n, head, sh.tail)))
    case FindSp(d) => (sh, DeqFound64(d.(tail := sh.tail)))
    case FindScan(d, scan) =>
      if Before64(scan, d.head + sh.size) && Same64(At(sh.ring, scan).idx, scan) then (sh, FindScan(d, scan + 1))
      else (sh, FindUpdLoad(d, scan))
    case FindUpdLoad(d, neu) => (sh, FindReloaded64(sh, d, neu))
    case FindUpdCas(d, neu, seen) =>
      if Same64(sh.tail, seen) then (sh.(tail := neu), DeqFound64(d.(tail := neu)))
      else (sh, FindReloaded64(sh, d, neu))
    case DeqRead(d, elems) =>
      var elems' := elems + [At(sh.ring, d.head + |elems|).ptr];
      (sh, if |elems'| < Actual64(d) then DeqRead(d, elems') else DeqCas(d, elems'))
    case DeqCas(d, elems) =>
      if sh.sc || Same64(sh.head, d.head) then
        (sh.(head := d.head + |elems|, out := sh.out + elems), DeqRet(d.n, d.head, elems))
      else (sh, DeqTop64(sh, d.(head := sh.head)))
    case _ => ThreadStep(sh, pc, cmd)
  }

  function Step64(s: State, ev: Event): State {
    if Admissible(s, ev) then
      var (sh', pc') := ThreadStep64(s.sh, s.threads[ev.t], ev.cmd);
      State(sh', s.threads[ev.t := pc'])
    else s
  }

  function Run64(s: State, evs: seq<Event>): State
    decreases |evs|
  {
    if evs == [] then s else Step64(Run64(s, evs[..|evs| - 1]), evs[|evs| - 1])
  }

  /** Index i is less than 2^63 behind the index one lap from the next to be enqueued. */
  predicate NearIndex(sh: Shared, i: int) { |sh.log| + sh.size - i < TWO63 }

  /** So are the indices a thread is going to compare. */
  predicate Near(sh: Shared, pc: Pc) {
    match pc
    case EnqLoop(e) => NearIndex(sh, e.tail)
    case EnqTest(e, _, _) => NearIndex(sh, e.tail)
    case EnqReload(e) => NearIndex(sh, e.tail)
    case EnqUpdLoad(e) => NearIndex(sh, e.tail)
    case EnqUpdCas(e, seen) => NearIndex(sh, e.tail) && NearIndex(sh, seen)
    case SpLoadHead(e) => NearIndex(sh, e.tail)
    case DeqLoadTail(_, head) => NearIndex(sh, head)
    case FindSp(d) => NearIndex(sh, d.head)
    case FindScan(d, scan) => NearIndex(sh, d.head) && NearIndex(sh, scan)
    case FindUpdLoad(d, neu) => NearIndex(sh, d.head) && NearIndex(sh, neu)
    case FindUpdCas(d, neu, seen) => NearIndex(sh, d.head) && NearIndex(sh, neu) && NearIndex(sh, seen)
    case DeqRead(d, _) => NearIndex(sh, d.head) && NearIndex(sh, d.tail)
    case DeqCas(d, _) => NearIndex(sh, d.head) && NearIndex(sh, d.tail)
    case _ => true
  }

  lemma SignedIs(x: int)
    ensures -TWO63 <= x < TWO63 ==> Signed(x) == x
    ensures -TWO64 < x < TWO64 && x % TWO64 == 0 ==> x == 0
  {
  }

  /** Two indices less than 2^63 apart. */
  lemma Compared(a: int, b: int)
    requires -TWO63 < a - b < TWO63
    ensures (Before64(a, b) <==> a < b) && (Same64(a, b) <==> a == b) && Signed(a - b) == a - b
  {
    SignedIs(a - b);
  }

  lemma EnqAgrees(sh: Shared, pc: Pc, cmd: Cmd)
    requires SharedInv(sh) && LocalInv(sh, pc) && InEnq(pc) && Near(sh, pc)
    ensures ThreadStep64(sh, pc, cmd) == ThreadStep(sh, pc, cmd)
  {
    hide SharedInv; hide At; hide SetAt; hide Mine; hide Before64; hide Same64; hide Signed;
    TailBounds(sh);
    var e := pc.e;
    if pc.EnqLoop? || pc.SpLoadHead? { Compared(e.tail, sh.head + sh.size); Compared(sh.head + sh.size, e.tail); }
    else if pc.EnqReload? || pc.EnqUpdLoad? { Compared(e.tail, sh.tail); }
    else if pc.EnqUpdCas? { Compared(e.tail, sh.tail); Compared(sh.tail, pc.seen); }
    else if pc.EnqTest? {
      NewestAt(sh, e.tail);
      Compared(pc.idx, e.tail - sh.size);
      Compared(pc.idx, e.tail);
      Compared(At(sh.ring, e.tail).idx, pc.idx);
      SlotIs(At(sh.ring, e.tail));
    }
  }

  lemma SlotIs(slot: Slot)
    ensures slot == Slot(slot.ptr, slot.idx)
  {
  }

  lemma FindAgrees(sh: Shared, pc: Pc, cmd: Cmd)
    requires SharedInv(sh) && LocalInv(sh, pc) && Near(sh, pc)
    requires pc.FindScan? || pc.FindUpdLoad? || pc.FindUpdCas?
    ensures ThreadStep64(sh, pc, cmd) == ThreadStep(sh, pc, cmd)
  {
    hide SharedInv; hide At; hide Before64; hide Same64; hide Signed;
    TailBounds(sh);
    if pc.FindScan? {
      NewestAt(sh, pc.scan);
      Compared(pc.scan, pc.d.head + sh.size);
      Compared(At(sh.ring, pc.scan).idx, pc.scan);
    } else {
      Compared(pc.neu, sh.tail);
      Compared(sh.tail, pc.d.head);
      Compared(pc.neu, pc.d.head);
      if pc.FindUpdCas? { Compared(sh.tail, pc.seen); }
    }
  }

  lemma TakeAgrees(sh: Shared, pc: Pc, cmd: Cmd)
    requires SharedInv(sh) && LocalInv(sh, pc) && Near(sh, pc)
    requires pc.DeqLoadTail? || pc.FindSp? || pc.DeqRead? || pc.DeqCas?
    ensures ThreadStep64(sh, pc, cmd) == ThreadStep(sh, pc, cmd)
  {
    hide SharedInv; hide At; hide Before64; hide Same64; hide Signed;
    TailBounds(sh);
    if pc.DeqLoadTail? { Compared(sh.tail, pc.head); }
    else if pc.FindSp? { Compared(sh.tail, pc.d.head); }
    else {
      Compared(pc.d.tail, pc.d.head);
      Compared(pc.d.tail, sh.head);
      Compared(sh.head, pc.d.head);
    }
  }

  lemma DeqAgrees(sh: Shared, pc: Pc, cmd: Cmd)
    requires SharedInv(sh) && LocalInv(sh, pc) && InDeq(pc) && Near(sh, pc)
    ensures ThreadStep64(sh, pc, cmd) == ThreadStep(sh, pc, cmd)
  {
    hide SharedInv; hide LocalInv; hide Near; hide DeqStep; hide At;
    RingShape(sh);
    if pc.FindScan? || pc.FindUpdLoad? || pc.FindUpdCas? { FindAgrees(sh, pc, cmd); }
    else if pc.DeqLoadTail? || pc.FindSp? || pc.DeqRead? || pc.DeqCas? { TakeAgrees(sh, pc, cmd); }
  }

  lemma StepAgrees(s: State, ev: Event)
    requires Inv(s) && (ev.t < |s.threads| ==> Near(s.sh, s.threads[ev.t]))
    ensures Step64(s, ev) == Step(s, ev)
  {
    hide SharedInv; hide LocalInv; hide Near; hide EnqStep; hide DeqStep; hide Exclusive;
    if Admissible(s, ev) {
      var pc := s.threads[ev.t];
      assert LocalInv(s.sh, pc);
      if InEnq(pc) { EnqAgrees(s.sh, pc, ev.cmd); } else if InDeq(pc) { DeqAgrees(s.sh, pc, ev.cmd); }
    }
  }

  /** No thread that takes a step has fallen that far behind. */
  ghost predicate NearRun(s: State, evs: seq<Event>)
    decreases |evs|
  {
    evs == [] ||
    (var s', ev := Run64(s, evs[..|evs| - 1]), evs[|evs| - 1];
     NearRun(s, evs[..|evs| - 1]) && (ev.t < |s'.threads| ==> Near(s'.sh, s'.threads[ev.t])))
  }

  /** A run of the program's 64-bit indices in which no thread compares an index that has fallen
      2^63 - size behind is a run of indices that never wrap; all that is shown of those holds
      of it. */
  lemma {:induction false} Run64Agrees(size: nat, sp: bool, sc: bool, n: nat, evs: seq<Event>)
    requires size > 0 && NearRun(Init(size, sp, sc, n), evs)
    ensures Run64(Init(size, sp, sc, n), evs) == Run(Init(size, sp, sc, n), evs)
    ensures Reachable(size, sp, sc, n, Run64(Init(size, sp, sc, n), evs))
    decreases |evs|
  {
    hide Step; hide Step64; hide Inv; hide Near; hide Init;
    if evs != [] {
      Run64Agrees(size, sp, sc, n, evs[..|evs| - 1]);
      RunInv(size, sp, sc, n, evs[..|evs| - 1]);
      StepAgrees(Run(Init(size, sp, sc, n), evs[..|evs| - 1]), evs[|evs| - 1]);
    }
  }
}
