/** The work-stealing scheduler of work-steal/work-steal.c: one Chase-Lev deque per
    thread, owned by that thread and robbed by all the others, and a continuation
    that is released when the last work item has joined.

    Each access to a deque's top, bottom, array pointer or buffer that another
    thread can race with is one step; a run is any schedule of such steps. */
module WorkSteal {
  import opened Modular

  /** A work item, named by its address. */
  type Item = nat

  datatype Array = Array(size: nat, buffer: seq<Item>)

  /** Arrays are never freed, so a thief may keep reading a superseded one:
      `arrays[cur]` is the one the deque points to.  `content` is the deque as its
      users see it, oldest item first. */
  datatype Deque = Deque(top: nat, bottom: nat, cur: nat, arrays: seq<Array>, content: seq<Item>)

  datatype Option<T> = None | Some(value: T)

  datatype Pc =
    | Idle
    // owner: push
    | PushLoad(w: Item)
    | ResizeLoad(w: Item)
    | ResizeCopy(w: Item, from: nat, i: nat, copy: seq<Item>)
    | PushWrite(w: Item)
    | PushPublish(w: Item)
    // owner: take
    | TakeStore
    | TakeTop(b: nat)
    | TakeRead(b: nat)
    | TakeReadLast(b: nat)
    | TakeCas(b: nat, x: Item)
    | TakeRestore(b: nat, got: Option<Item>)
    // thief
    | StealTop(q: nat)
    | StealBottom(q: nat, t: nat)
    | StealArray(q: nat, t: nat)
    | StealRead(q: nat, t: nat, a: nat)
    | StealCas(q: nat, t: nat, x: Item)
    // an item in hand, to be run and then joined
    | Running(x: Item)

  /** Where a work item is. */
  datatype Place = Stored(q: nat) | Held(t: nat) | Done

  datatype State = State(
    deques: seq<Deque>, threads: seq<Pc>,
    place: map<Item, Place>, total: nat, joinCount: int, released: nat)

  datatype Cmd = Push(w: Item) | Take | Steal(q: nat)
  datatype Event = Event(t: nat, cmd: Cmd)

  // ------------------------------------------------------------------ steps

  predicate OwnerPc(pc: Pc) {
    pc.PushLoad? || pc.ResizeLoad? || pc.ResizeCopy? || pc.PushWrite? || pc.PushPublish? ||
    pc.TakeStore? || pc.TakeTop? || pc.TakeRead? || pc.TakeReadLast? || pc.TakeCas? || pc.TakeRestore?
  }

  predicate ThiefPc(pc: Pc) {
    pc.StealTop? || pc.StealBottom? || pc.StealArray? || pc.StealRead? || pc.StealCas?
  }

  /** The memory is shaped as a deque: a non-empty current array. */
  predicate Shaped(d: Deque) {
    && d.cur < |d.arrays|
    && (forall a :: 0 <= a < |d.arrays| ==> d.arrays[a].size > 0 && |d.arrays[a].buffer| == d.arrays[a].size)
  }

  function Load(a: Array, i: nat): Item
    requires a.size > 0 && |a.buffer| == a.size
  {
    a.buffer[Pos(i, a.size)]
  }

  function InitDeque(size: nat): Deque {
    Deque(0, 0, 0, [Array(size, seq(size, _ => 0))], [])
  }

  function OwnerStep(d: Deque, pc: Pc): (Deque, Pc)
    requires Shaped(d) && OwnerPc(pc)
  {
    var a := d.arrays[d.cur];
    match pc
    case PushLoad(w) =>
      (d, if d.bottom - d.top > a.size - 1 then ResizeLoad(w) else PushWrite(w))
    case ResizeLoad(w) =>
      (d, ResizeCopy(w, d.top, d.top, seq(2 * a.size, _ => 0)))
    case ResizeCopy(w, from, i, copy) =>
      if i < d.bottom && |copy| == 2 * a.size then
        (d, ResizeCopy(w, from, i + 1, copy[Pos(i, 2 * a.size) := Load(a, i)]))
      else
        (d.(arrays := d.arrays + [Array(2 * a.size, copy)], cur := |d.arrays|), PushWrite(w))
    case PushWrite(w) =>
      (d.(arrays := d.arrays[d.cur := a.(buffer := a.buffer[Pos(d.bottom, a.size) := w])]), PushPublish(w))
    case PushPublish(w) =>
      (d.(bottom := d.bottom + 1, content := d.content + [w]), Idle)
    case TakeStore =>
      if d.bottom > 0 then (d.(bottom := d.bottom - 1), TakeTop(d.bottom - 1)) else (d, Idle)
    case TakeTop(b) =>
      (d, if d.top < b then TakeRead(b) else if d.top == b then TakeReadLast(b) else TakeRestore(b, None))
    case TakeRead(b) =>
      (d.(content := if d.content == [] then [] else d.content[..|d.content| - 1]), Running(Load(a, b)))
    case TakeReadLast(b) => (d, TakeCas(b, Load(a, b)))
    case TakeCas(b, x) =>
      if d.top == b then (d.(top := b + 1, content := []), TakeRestore(b, Some(x)))
      else (d, TakeRestore(b, None))
    case TakeRestore(b, got) =>
      (d.(bottom := b + 1), if got.Some? then Running(got.value) else Idle)
  }

  function ThiefStep(d: Deque, pc: Pc): (Deque, Pc)
    requires Shaped(d) && ThiefPc(pc) && (pc.StealRead? ==> pc.a < |d.arrays|)
  {
    match pc
    case StealTop(q) => (d, StealBottom(q, d.top))
    case StealBottom(q, t) => (d, if t < d.bottom then StealArray(q, t) else Idle)
    case StealArray(q, t) => (d, StealRead(q, t, d.cur))
    case StealRead(q, t, a) => (d, StealCas(q, t, Load(d.arrays[a], t)))
    case StealCas(q, t, x) =>
      if d.top == t then (d.(top := t + 1, content := if d.content == [] then [] else d.content[1..]), Running(x))
      else (d, Idle)
  }

  /** The item a thread has in hand. */
  function InHand(pc: Pc): Option<Item> {
    match pc
    case PushLoad(w) => Some(w)
    case ResizeLoad(w) => Some(w)
    case ResizeCopy(w, _, _, _) => Some(w)
    case PushWrite(w) => Some(w)
    case PushPublish(w) => Some(w)
    case TakeRestore(_, got) => got
    case Running(x) => Some(x)
    case _ => None
  }

  /** How a step of thread t from pc to pc' moves items. */
  function MoveItem(place: map<Item, Place>, t: nat, pc: Pc, pc': Pc): map<Item, Place> {
    if InHand(pc') == InHand(pc) then place
    else if InHand(pc').Some? then place[InHand(pc').value := Held(t)]
    else if pc.PushPublish? then place[pc.w := Stored(t)]
    else place[InHand(pc).value := Done]
  }

  /** An idle thread pushes a new item, takes from its own deque once something has been
      pushed there, or starts to steal from another thread's. */
  function StartPc(s: State, t: nat, cmd: Cmd): Pc
    requires t < |s.deques|
  {
    match cmd
    case Push(w) => if w < s.total && w !in s.place then PushLoad(w) else Idle
    case Take => if s.deques[t].bottom > 0 then TakeStore else Idle
    case Steal(q) => if q < |s.deques| && q != t then StealTop(q) else Idle
  }

  /** Events that mean something: an existing thread whose deque is well shaped. */
  predicate Admissible(s: State, ev: Event) {
    && ev.t < |s.threads| == |s.deques|
    && Shaped(s.deques[ev.t])
    && (ThiefPc(s.threads[ev.t]) ==>
          var q := s.threads[ev.t].q;
          q < |s.deques| && Shaped(s.deques[q]) &&
          (s.threads[ev.t].StealRead? ==> s.threads[ev.t].a < |s.deques[q].arrays|))
  }

  function Step(s: State, ev: Event): State {
    if !Admissible(s, ev) then s
    else
      var t, pc := ev.t, s.threads[ev.t];
      if pc.Running? then
        // run the item, then join_work
        s.(threads := s.threads[t := Idle], place := s.place[pc.x := Done], joinCount := s.joinCount - 1,
           released := if s.joinCount == 1 then s.released + 1 else s.released)
      else if OwnerPc(pc) then
        var (d', pc') := OwnerStep(s.deques[t], pc);
        s.(deques := s.deques[t := d'], threads := s.threads[t := pc'], place := MoveItem(s.place, t, pc, pc'))
      else if ThiefPc(pc) then
        var (d', pc') := ThiefStep(s.deques[pc.q], pc);
        s.(deques := s.deques[pc.q := d'], threads := s.threads[t := pc'], place := MoveItem(s.place, t, pc, pc'))
      else
        var pc' := StartPc(s, t, ev.cmd);
        s.(threads := s.threads[t := pc'], place := MoveItem(s.place, t, pc, pc'))
  }

  /** n threads with deques of `size` slots, and `total` items to come. */
  function Init(n: nat, size: nat, total: nat): State {
    State(seq(n, _ => InitDeque(size)), seq(n, _ => Idle), map[], total, total, 0)
  }

  function Run(s: State, evs: seq<Event>): State
    decreases |evs|
  {
    if evs == [] then s else Step(Run(s, evs[..|evs| - 1]), evs[|evs| - 1])
  }

  // -------------------------------------------------------------- invariant

  /** One past the last index of the content, as the owner's position defines it. */
  function End(d: Deque, o: Pc): nat {
    if o.TakeTop? || o.TakeRead? || o.TakeReadLast? || o.TakeCas? || o.TakeRestore? then o.b + 1 else d.bottom
  }

  /** Thieves can only win indices below this. */
  function Limit(d: Deque, o: Pc): nat {
    if o.TakeRead? then o.b else End(d, o)
  }

  ghost predicate DequeInv(d: Deque, o: Pc) {
    && Shaped(d)
    && d.top <= End(d, o) && |d.content| == End(d, o) - d.top <= d.arrays[d.cur].size
    && (forall i :: d.top <= i < End(d, o) ==> Load(d.arrays[d.cur], i) == d.content[i - d.top])
    && OwnerInv(d, o)
  }

  ghost predicate OwnerInv(d: Deque, o: Pc)
    requires Shaped(d)
  {
    var size := d.arrays[d.cur].size;
    match o
    case ResizeCopy(w, from, i, copy) =>
      && from <= i <= d.bottom && from <= d.top && d.bottom - from <= size && |copy| == 2 * size
      && (forall j :: from <= j < i ==> Load(Array(2 * size, copy), j) == Load(d.arrays[d.cur], j))
    case PushWrite(w) => d.bottom - d.top < size
    case PushPublish(w) => d.bottom - d.top < size && Load(d.arrays[d.cur], d.bottom) == w
    case TakeStore => d.bottom > 0
    case TakeTop(b) => d.bottom == b
    case TakeRead(b) => d.bottom == b && d.top <= b
    case TakeReadLast(b) => d.bottom == b && b <= d.top
    case TakeCas(b, x) => d.bottom == b && b <= d.top && (d.top == b ==> d.content != [] && x == d.content[0])
    case TakeRestore(b, _) => d.bottom == b && d.top == b + 1
    case _ => true
  }

  /** What a thief knows as long as top has not moved under it. */
  ghost predicate ThiefInv(d: Deque, limit: nat, pc: Pc)
    requires Shaped(d)
  {
    match pc
    case StealBottom(_, t) => t <= d.top
    case StealArray(_, t) => t <= d.top && (d.top == t ==> t < limit)
    case StealRead(_, t, a) =>
      && t <= d.top && a < |d.arrays|
      && (d.top == t ==> t < limit && d.content != [] && Load(d.arrays[a], t) == d.content[0])
    case StealCas(_, t, x) =>
      t <= d.top && (d.top == t ==> t < limit && d.content != [] && x == d.content[0])
    case _ => true
  }

  // ------------------------------------------------------- one deque's steps

  /** Writing slot i of an array leaves every index within a lap of i alone. */
  lemma StoreOther(a: Array, i: nat, w: Item, j: nat)
    requires a.size > 0 && |a.buffer| == a.size
    requires 0 < j - i < a.size || 0 < i - j < a.size
    ensures Load(a.(buffer := a.buffer[Pos(i, a.size) := w]), j) == Load(a, j)
  {
    if i < j { DistinctWithinLap(i, j, a.size); } else { DistinctWithinLap(j, i, a.size); }
  }

  lemma CopyStep(d: Deque, o: Pc)
    requires DequeInv(d, o) && o.ResizeCopy? && o.i < d.bottom
    ensures var (d', o') := OwnerStep(d, o); DequeInv(d', o')
  {
    var a := d.arrays[d.cur];
    var target := Array(2 * a.size, o.copy);
    forall j | o.from <= j < o.i
      ensures Load(Array(2 * a.size, o.copy[Pos(o.i, 2 * a.size) := Load(a, o.i)]), j) == Load(a, j)
    {
      StoreOther(target, o.i, Load(a, o.i), j);
      assert Load(target, j) == Load(a, j);
    }
  }

  lemma WriteStep(d: Deque, o: Pc)
    requires DequeInv(d, o) && o.PushWrite?
    ensures var (d', o') := OwnerStep(d, o); DequeInv(d', o')
  {
    var a := d.arrays[d.cur];
    var (d', o') := OwnerStep(d, o);
    forall i | d.top <= i < d.bottom
      ensures Load(d'.arrays[d'.cur], i) == d'.content[i - d'.top]
    {
      StoreOther(a, d.bottom, o.w, i);
      assert Load(a, i) == d.content[i - d.top];
    }
  }

  lemma PublishArrayStep(d: Deque, o: Pc)
    requires DequeInv(d, o) && o.ResizeCopy? && o.i >= d.bottom
    ensures var (d', o') := OwnerStep(d, o); DequeInv(d', o')
  {
    var (d', o') := OwnerStep(d, o);
    forall i | d.top <= i < d.bottom
      ensures Load(d'.arrays[d'.cur], i) == d'.content[i - d'.top]
    {
      assert Load(d.arrays[d.cur], i) == d.content[i - d.top];
      assert Load(Array(2 * d.arrays[d.cur].size, o.copy), i) == Load(d.arrays[d.cur], i);
    }
  }

  /** The owner's own steps keep its deque in order. */
  lemma OwnerStepInv(d: Deque, o: Pc)
    requires DequeInv(d, o) && OwnerPc(o)
    ensures var (d', o') := OwnerStep(d, o); DequeInv(d', o')
  {
    hide DequeInv; hide Load;
    if o.ResizeCopy? {
      if o.i < d.bottom { CopyStep(d, o); } else { PublishArrayStep(d, o); }
    } else if o.PushWrite? {
      WriteStep(d, o);
    } else if o.TakeRead? || o.TakeReadLast? || o.TakeCas? || o.TakeRestore? {
      TakeEndStep(d, o);
    } else {
      OtherOwnerStep(d, o);
    }
  }

  lemma OtherOwnerStep(d: Deque, o: Pc)
    requires DequeInv(d, o) && OwnerPc(o) && !o.ResizeCopy? && !o.PushWrite?
    requires !o.TakeRead? && !o.TakeReadLast? && !o.TakeCas? && !o.TakeRestore?
    ensures var (d', o') := OwnerStep(d, o); DequeInv(d', o')
  {
  }

  lemma TakeEndStep(d: Deque, o: Pc)
    requires DequeInv(d, o) && (o.TakeRead? || o.TakeReadLast? || o.TakeCas? || o.TakeRestore?)
    ensures var (d', o') := OwnerStep(d, o); DequeInv(d', o')
  {
  }

  /** No step of the owner, and no resize, takes from a thief what it may still win. */
  lemma OwnerStepKeepsThief(d: Deque, o: Pc, pc: Pc)
    requires DequeInv(d, o) && OwnerPc(o) && ThiefInv(d, Limit(d, o), pc)
    ensures var (d', o') := OwnerStep(d, o); Shaped(d') && ThiefInv(d', Limit(d', o'), pc)
  {
    OwnerStepInv(d, o);
    if o.PushWrite? && pc.StealRead? && pc.a == d.cur && d.top == pc.t {
      StoreOther(d.arrays[d.cur], d.bottom, o.w, pc.t);
    }
  }

  /** A thief's loads. */
  lemma ThiefLooks(d: Deque, o: Pc, pc: Pc)
    requires DequeInv(d, o) && ThiefPc(pc) && ThiefInv(d, Limit(d, o), pc) && !(pc.StealCas? && d.top == pc.t)
    ensures var (d', pc') := ThiefStep(d, pc); d' == d && ThiefInv(d, Limit(d, o), pc')
  {
    hide Load;
    if pc.StealArray? && d.top == pc.t { assert Load(d.arrays[d.cur], pc.t) == d.content[0]; }
  }

  /** The deque without its oldest item. */
  function Without(d: Deque): Deque {
    d.(top := d.top + 1, content := if d.content == [] then [] else d.content[1..])
  }

  lemma OwnerUnharmed(d: Deque, o: Pc)
    requires Shaped(d) && OwnerInv(d, o) && d.top < Limit(d, o) && |d.content| == End(d, o) - d.top
    ensures OwnerInv(Without(d), o)
  {
    hide Load;
  }

  lemma WindowShifts(d: Deque, end: nat)
    requires Shaped(d) && d.top < end && |d.content| == end - d.top
    requires forall i :: d.top <= i < end ==> Load(d.arrays[d.cur], i) == d.content[i - d.top]
    ensures forall i :: d.top < i < end ==> Load(d.arrays[d.cur], i) == Without(d).content[i - (d.top + 1)]
  {
    hide Load;
    forall i | d.top < i < end ensures Load(d.arrays[d.cur], i) == Without(d).content[i - (d.top + 1)] {
      assert Load(d.arrays[d.cur], i) == d.content[i - d.top];
    }
  }

  /** The compare-exchange that takes the oldest item. */
  lemma ThiefWins(d: Deque, o: Pc, pc: Pc)
    requires DequeInv(d, o) && ThiefInv(d, Limit(d, o), pc) && pc.StealCas? && d.top == pc.t
    ensures var d' := ThiefStep(d, pc).0; DequeInv(d', o)
  {
    hide Load; hide OwnerInv;
    OwnerUnharmed(d, o);
    WindowShifts(d, End(d, o));
    assert ThiefStep(d, pc).0 == Without(d);
  }

  /** A thief's steps keep the deque in order and what the thief knows true. */
  lemma ThiefStepInv(d: Deque, o: Pc, pc: Pc)
    requires DequeInv(d, o) && ThiefPc(pc) && ThiefInv(d, Limit(d, o), pc)
    ensures var (d', pc') := ThiefStep(d, pc); DequeInv(d', o) && ThiefInv(d', Limit(d', o), pc')
  {
    hide DequeInv; hide Load; hide Limit;
    if pc.StealCas? && d.top == pc.t { ThiefWins(d, o, pc); } else { ThiefLooks(d, o, pc); }
  }

  /** A winning thief invalidates nothing another thief relies on. */
  lemma ThiefStepKeepsThief(d: Deque, o: Pc, pc: Pc, other: Pc)
    requires DequeInv(d, o) && ThiefPc(pc) && ThiefInv(d, Limit(d, o), pc) && ThiefInv(d, Limit(d, o), other)
    ensures var (d', pc') := ThiefStep(d, pc); Shaped(d') && ThiefInv(d', Limit(d', o), other)
  {
  }

  /** How a step on a deque moves items between the deque and the hand: nothing moves,
      a pushed item joins the young end, or one item leaves either end into the hand. */
  ghost predicate Flow(content: seq<Item>, pc: Pc, content': seq<Item>, pc': Pc) {
    || (content' == content && InHand(pc') == InHand(pc))
    || (pc.PushPublish? && InHand(pc').None? && content' == content + [pc.w])
    || (InHand(pc).None? && InHand(pc').Some? &&
        (content == [InHand(pc').value] + content' || content == content' + [InHand(pc').value]))
  }

  lemma OwnerFlow(d: Deque, o: Pc)
    requires DequeInv(d, o) && OwnerPc(o)
    ensures var (d', o') := OwnerStep(d, o);
            && Flow(d.content, o, d'.content, o') && !ThiefPc(o')
            && (InHand(o).None? && InHand(o').Some? ==> d.content == d'.content + [InHand(o').value])
  {
    if o.TakeRead? {
      assert Load(d.arrays[d.cur], o.b) == d.content[o.b - d.top];
    }
    if o.TakeReadLast? && d.top == o.b {
      assert Load(d.arrays[d.cur], o.b) == d.content[0];
    }
  }

  lemma ThiefFlow(d: Deque, o: Pc, pc: Pc)
    requires DequeInv(d, o) && ThiefPc(pc) && ThiefInv(d, Limit(d, o), pc)
    ensures var (d', pc') := ThiefStep(d, pc);
            && Flow(d.content, pc, d'.content, pc') && !OwnerPc(pc')
            && (InHand(pc').Some? ==> d.content == [InHand(pc').value] + d'.content)
            && (ThiefPc(pc') ==> pc'.q == pc.q)
  {
  }

  // ----------------------------------------------------- the whole scheduler

  ghost predicate Distinct(c: seq<Item>) {
    forall j, k :: 0 <= j < k < |c| ==> c[j] != c[k]
  }

  /** Taking one item off either end of a queue of distinct items. */
  lemma TakeOff(c: seq<Item>, x: Item, c': seq<Item>)
    requires Distinct(c) && (c == [x] + c' || c == c' + [x])
    ensures Distinct(c') && x in c && x !in c' && forall y :: y in c <==> y == x || y in c'
  {
    if c == [x] + c' {
      assert forall k :: 0 <= k < |c'| ==> c'[k] == c[k + 1];
      assert c[0] == x;
    } else {
      assert forall k :: 0 <= k < |c'| ==> c'[k] == c[k];
      assert c[|c| - 1] == x;
    }
  }

  lemma PutOn(c: seq<Item>, x: Item)
    requires Distinct(c) && x !in c
    ensures Distinct(c + [x]) && forall y :: y in c + [x] <==> y == x || y in c
  {
  }

  /** Every item is in exactly one place, and the places are real. */
  ghost predicate Accounted(s: State) {
    && (forall q :: 0 <= q < |s.deques| ==> Distinct(s.deques[q].content))
    && (forall q, x :: 0 <= q < |s.deques| && x in s.deques[q].content ==>
          x in s.place && s.place[x] == Stored(q))
    && (forall x :: x in s.place && s.place[x].Stored? ==>
          s.place[x].q < |s.deques| && x in s.deques[s.place[x].q].content)
    && (forall t :: 0 <= t < |s.threads| && InHand(s.threads[t]).Some? ==>
          InHand(s.threads[t]).value in s.place && s.place[InHand(s.threads[t]).value] == Held(t))
    && (forall x :: x in s.place && s.place[x].Held? ==>
          s.place[x].t < |s.threads| && InHand(s.threads[s.place[x].t]) == Some(x))
    && (forall x :: x in s.place ==> x < s.total)
  }

  ghost function DoneItems(place: map<Item, Place>): set<Item> {
    set x | x in place && place[x].Done?
  }

  ghost predicate Joined(s: State) {
    && s.joinCount == s.total - |DoneItems(s.place)|
    && s.released == (if s.total > 0 && s.joinCount == 0 then 1 else 0)
  }

  /** Every deque is in order and every thief's knowledge of its victim is right. */
  ghost predicate Ordered(deques: seq<Deque>, threads: seq<Pc>) {
    && |threads| == |deques|
    && (forall q :: 0 <= q < |deques| ==> DequeInv(deques[q], threads[q]))
    && (forall t :: 0 <= t < |threads| && ThiefPc(threads[t]) ==> ThiefOk(deques, threads, t, threads[t]))
  }

  ghost predicate ThiefOk(deques: seq<Deque>, threads: seq<Pc>, t: nat, pc: Pc)
    requires |threads| == |deques| && ThiefPc(pc)
  {
    pc.q < |deques| && pc.q != t && Shaped(deques[pc.q])
        && ThiefInv(deques[pc.q], Limit(deques[pc.q], threads[pc.q]), pc)
  }

  ghost predicate Inv(s: State) {
    Ordered(s.deques, s.threads) && Accounted(s) && Joined(s)
  }

  /** The state after thread t moves to pc' and deque q becomes d'. */
  function Moved(s: State, t: nat, pc': Pc, q: nat, d': Deque): State
    requires t < |s.threads| && q < |s.deques|
  {
    s.(deques := s.deques[q := d'], threads := s.threads[t := pc'],
       place := MoveItem(s.place, t, s.threads[t], pc'))
  }

  /** An item leaves deque q into the hand of t. */
  lemma OutAccounted(s: State, s': State, t: nat, q: nat, x: Item)
    requires Accounted(s) && t < |s.threads| == |s'.threads| && q < |s.deques| == |s'.deques|
    requires s'.threads == s.threads[t := s'.threads[t]] && s'.deques == s.deques[q := s'.deques[q]]
    requires InHand(s.threads[t]).None? && InHand(s'.threads[t]) == Some(x)
    requires s.deques[q].content == [x] + s'.deques[q].content || s.deques[q].content == s'.deques[q].content + [x]
    requires s'.place == s.place[x := Held(t)] && s'.total == s.total
    ensures Accounted(s')
  {
    hide InHand;
    TakeOff(s.deques[q].content, x, s'.deques[q].content);
    hide Distinct;
    forall p, y | 0 <= p < |s'.deques| && y in s'.deques[p].content
      ensures y in s'.place && s'.place[y] == Stored(p)
    {
      assert y in s.deques[p].content;
    }
  }

  /** The item in the hand of t joins its deque. */
  lemma InAccounted(s: State, s': State, t: nat, x: Item)
    requires Accounted(s) && t < |s.threads| == |s'.threads| == |s.deques| == |s'.deques|
    requires s'.threads == s.threads[t := s'.threads[t]] && s'.deques == s.deques[t := s'.deques[t]]
    requires InHand(s.threads[t]) == Some(x) && InHand(s'.threads[t]).None?
    requires s'.deques[t].content == s.deques[t].content + [x]
    requires s'.place == s.place[x := Stored(t)] && s'.total == s.total
    ensures Accounted(s')
  {
    PutOn(s.deques[t].content, x);
    forall y | y in s'.place && s'.place[y].Held?
      ensures s'.place[y].t < |s'.threads| && InHand(s'.threads[s'.place[y].t]) == Some(y)
    {
      assert y in s.place && s.place[y].Held?;
    }
  }

  /** A new item comes into the hand of t. */
  lemma NewAccounted(s: State, s': State, t: nat, x: Item)
    requires Accounted(s) && t < |s.threads| == |s'.threads| && s'.deques == s.deques && s'.total == s.total
    requires s'.threads == s.threads[t := s'.threads[t]]
    requires InHand(s.threads[t]).None? && InHand(s'.threads[t]) == Some(x)
    requires x !in s.place && x < s.total && s'.place == s.place[x := Held(t)]
    ensures Accounted(s')
  {
  }

  /** The item in the hand of t is finished. */
  lemma DoneAccounted(s: State, s': State, t: nat, x: Item)
    requires Accounted(s) && t < |s.threads| == |s'.threads| && s'.deques == s.deques && s'.total == s.total
    requires s'.threads == s.threads[t := s'.threads[t]]
    requires InHand(s.threads[t]) == Some(x) && InHand(s'.threads[t]).None?
    requires s'.place == s.place[x := Done]
    ensures Accounted(s')
  {
    forall y | y in s'.place && s'.place[y].Held?
      ensures s'.place[y].t < |s'.threads| && InHand(s'.threads[s'.place[y].t]) == Some(y)
    {
      assert y in s.place && s.place[y].Held?;
    }
  }

  lemma MovedAccounted(s: State, t: nat, pc': Pc, q: nat, d': Deque)
    requires Accounted(s) && t < |s.threads| == |s.deques| && q < |s.deques|
    requires Flow(s.deques[q].content, s.threads[t], d'.content, pc')
    requires s.threads[t].PushPublish? ==> q == t
    ensures Accounted(Moved(s, t, pc', q, d'))
  {
    var pc, s' := s.threads[t], Moved(s, t, pc', q, d');
    if InHand(pc') != InHand(pc) {
      if InHand(pc').Some? {
        OutAccounted(s, s', t, q, InHand(pc').value);
      } else {
        InAccounted(s, s', t, pc.w);
      }
    }
  }

  lemma MovedJoined(s: State, t: nat, pc': Pc, q: nat, d': Deque)
    requires Accounted(s) && Joined(s) && t < |s.threads| == |s.deques| && q < |s.deques|
    requires Flow(s.deques[q].content, s.threads[t], d'.content, pc')
    ensures Joined(Moved(s, t, pc', q, d'))
  {
    var s' := Moved(s, t, pc', q, d');
    var pc, c, c' := s.threads[t], s.deques[q].content, d'.content;
    if InHand(pc') != InHand(pc) && InHand(pc').Some? {
      TakeOff(c, InHand(pc').value, c');
    }
    assert DoneItems(s'.place) == DoneItems(s.place);
  }

  lemma OwnerOrdered(deques: seq<Deque>, threads: seq<Pc>, t: nat)
    requires Ordered(deques, threads) && t < |threads| && OwnerPc(threads[t])
    ensures var (d', pc') := OwnerStep(deques[t], threads[t]); Ordered(deques[t := d'], threads[t := pc'])
  {
    var d, pc := deques[t], threads[t];
    var (d', pc') := OwnerStep(d, pc);
    OwnerStepInv(d, pc);
    OwnerFlow(d, pc);
    var deques', threads' := deques[t := d'], threads[t := pc'];
    forall u | 0 <= u < |threads'| && ThiefPc(threads'[u])
      ensures ThiefOk(deques', threads', u, threads'[u])
    {
      assert ThiefOk(deques, threads, u, threads[u]);
      if threads[u].q == t { OwnerStepKeepsThief(d, pc, threads[u]); }
    }
  }

  lemma OwnerInvStep(s: State, t: nat)
    requires Inv(s) && t < |s.threads| && OwnerPc(s.threads[t])
    ensures var (d', pc') := OwnerStep(s.deques[t], s.threads[t]); Inv(Moved(s, t, pc', t, d'))
  {
    var (d', pc') := OwnerStep(s.deques[t], s.threads[t]);
    OwnerOrdered(s.deques, s.threads, t);
    OwnerFlow(s.deques[t], s.threads[t]);
    hide OwnerStep;
    hide Ordered;
    MovedAccounted(s, t, pc', t, d');
    MovedJoined(s, t, pc', t, d');
  }

  /** What a thread may do that is not in the middle of an operation on its own deque. */
  predicate AtRest(d: Deque, pc: Pc) {
    !OwnerPc(pc) || pc.PushLoad? || (pc.TakeStore? && d.bottom > 0)
  }

  /** Such a thread moves on without touching any deque. */
  lemma RestOrdered(deques: seq<Deque>, threads: seq<Pc>, t: nat, pc': Pc)
    requires Ordered(deques, threads) && t < |threads| && !OwnerPc(threads[t]) && AtRest(deques[t], pc')
    requires ThiefPc(pc') ==> ThiefOk(deques, threads, t, pc')
    ensures Ordered(deques, threads[t := pc'])
  {
    var threads' := threads[t := pc'];
    forall q | 0 <= q < |deques|
      ensures DequeInv(deques[q], threads'[q]) && Limit(deques[q], threads'[q]) == Limit(deques[q], threads[q])
    {
      assert DequeInv(deques[q], threads[q]);
    }
    forall u | 0 <= u < |threads'| && ThiefPc(threads'[u])
      ensures ThiefOk(deques, threads', u, threads'[u])
    {
      assert u != t ==> ThiefOk(deques, threads, u, threads[u]);
    }
  }

  lemma ThiefOrdered(deques: seq<Deque>, threads: seq<Pc>, t: nat)
    requires Ordered(deques, threads) && t < |threads| && ThiefPc(threads[t])
    ensures var q := threads[t].q;
            && ThiefOk(deques, threads, t, threads[t])
            && var (d', pc') := ThiefStep(deques[q], threads[t]);
               Ordered(deques[q := d'], threads) && !OwnerPc(pc') &&
               (ThiefPc(pc') ==> ThiefOk(deques[q := d'], threads, t, pc'))
  {
    var pc := threads[t];
    var q := pc.q;
    assert ThiefOk(deques, threads, t, pc);
    var d, o := deques[q], threads[q];
    var (d', pc') := ThiefStep(d, pc);
    ThiefStepInv(d, o, pc);
    ThiefFlow(d, o, pc);
    var deques' := deques[q := d'];
    hide ThiefStep;
    forall u | 0 <= u < |threads| && ThiefPc(threads[u])
      ensures ThiefOk(deques', threads, u, threads[u])
    {
      assert ThiefOk(deques, threads, u, threads[u]);
      if threads[u].q == q { ThiefStepKeepsThief(d, o, pc, threads[u]); }
    }
  }

  lemma ThiefInvStep(s: State, t: nat)
    requires Inv(s) && t < |s.threads| && ThiefPc(s.threads[t])
    ensures var q := s.threads[t].q;
            && ThiefOk(s.deques, s.threads, t, s.threads[t])
            && var (d', pc') := ThiefStep(s.deques[q], s.threads[t]); Inv(Moved(s, t, pc', q, d'))
  {
    ThiefOrdered(s.deques, s.threads, t);
    var q := s.threads[t].q;
    var d, pc := s.deques[q], s.threads[t];
    var (d', pc') := ThiefStep(d, pc);
    ThiefFlow(d, s.threads[q], pc);
    RestOrdered(s.deques[q := d'], s.threads, t, pc');
    hide *;
    MovedAccounted(s, t, pc', q, d');
    MovedJoined(s, t, pc', q, d');
  }

  lemma StartInvStep(s: State, t: nat, cmd: Cmd)
    requires Inv(s) && t < |s.threads| && s.threads[t].Idle?
    ensures var pc' := StartPc(s, t, cmd);
            Inv(s.(threads := s.threads[t := pc'], place := MoveItem(s.place, t, Idle, pc')))
  {
    var pc' := StartPc(s, t, cmd);
    var s' := s.(threads := s.threads[t := pc'], place := MoveItem(s.place, t, Idle, pc'));
    RestOrdered(s.deques, s.threads, t, pc');
    hide Ordered;
    if pc'.PushLoad? { NewAccounted(s, s', t, pc'.w); } else { UnmovedAccounted(s, s', t); }
    hide Accounted;
    assert DoneItems(s'.place) == DoneItems(s.place);
  }

  lemma UnmovedAccounted(s: State, s': State, t: nat)
    requires Accounted(s) && t < |s.threads| == |s'.threads| && s'.deques == s.deques && s'.total == s.total
    requires s'.threads == s.threads[t := s'.threads[t]] && InHand(s'.threads[t]) == InHand(s.threads[t])
    requires s'.place == s.place
    ensures Accounted(s')
  {
  }

  /** There are at most n naturals below n. */
  lemma {:induction false} Below(xs: set<nat>, n: nat)
    requires forall x :: x in xs ==> x < n
    ensures |xs| <= n
    ensures |xs| == n ==> forall x: nat :: x < n ==> x in xs
  {
    if n == 0 {
      assert xs == {};
    } else {
      Below(xs - {n - 1}, n - 1);
      if n - 1 in xs { assert |xs| == |xs - {n - 1}| + 1; } else { assert xs - {n - 1} == xs; }
    }
  }

  lemma JoinInvStep(s: State, ev: Event)
    requires Inv(s) && Admissible(s, ev) && s.threads[ev.t].Running?
    ensures Inv(Step(s, ev))
  {
    hide Ordered; hide DequeInv; hide ThiefOk; hide Distinct;
    var t, x, s' := ev.t, s.threads[ev.t].x, Step(s, ev);
    RestOrdered(s.deques, s.threads, t, Idle);
    assert DoneItems(s'.place) == DoneItems(s.place) + {x};
    assert x !in DoneItems(s.place);
    Below(DoneItems(s'.place), s.total);
    DoneAccounted(s, s', t, x);
  }

  /** Every step of every thread keeps the invariant. */
  lemma StepInv(s: State, ev: Event)
    requires Inv(s)
    ensures Inv(Step(s, ev)) && Step(s, ev).total == s.total && |Step(s, ev).threads| == |s.threads|
  {
    if Admissible(s, ev) {
      var pc := s.threads[ev.t];
      if pc.Running? {
        JoinInvStep(s, ev);
      } else if OwnerPc(pc) {
        OwnerInvStep(s, ev.t);
      } else if ThiefPc(pc) {
        ThiefInvStep(s, ev.t);
      } else {
        StartInvStep(s, ev.t, ev.cmd);
      }
    }
  }

  lemma {:induction false} RunInv(n: nat, size: nat, total: nat, evs: seq<Event>)
    requires size > 0
    ensures Inv(Run(Init(n, size, total), evs))
    ensures Run(Init(n, size, total), evs).total == total && |Run(Init(n, size, total), evs).threads| == n
    decreases |evs|
  {
    if evs == [] {
      assert DoneItems(map[]) == {};
    } else {
      RunInv(n, size, total, evs[..|evs| - 1]);
      StepInv(Run(Init(n, size, total), evs[..|evs| - 1]), evs[|evs| - 1]);
    }
  }

  // ------------------------------------------------------------ main results

  ghost predicate Reachable(n: nat, size: nat, total: nat, s: State) {
    size > 0 && exists evs :: s == Run(Init(n, size, total), evs)
  }

  lemma ReachableInv(n: nat, size: nat, total: nat, s: State)
    requires Reachable(n, size, total, s)
    ensures Inv(s) && s.total == total && |s.threads| == |s.deques| == n
  {
    var evs :| s == Run(Init(n, size, total), evs);
    RunInv(n, size, total, evs);
  }

  /** Whatever the owners, thieves and resizes do, every item ever pushed is in exactly
      one place: once in one deque, in one thread's hand, or finished. */
  lemma EveryItemExactlyOnce(n: nat, size: nat, total: nat, s: State, x: Item)
    requires Reachable(n, size, total, s) && x in s.place
    ensures s.place[x].Stored? <==>
            exists q :: 0 <= q < |s.deques| && x in s.deques[q].content
    ensures s.place[x].Held? <==>
            exists t :: 0 <= t < |s.threads| && InHand(s.threads[t]) == Some(x)
    ensures forall q, p :: 0 <= q < p < |s.deques| ==> x !in s.deques[q].content || x !in s.deques[p].content
    ensures forall t, u :: 0 <= t < u < |s.threads| ==>
      InHand(s.threads[t]) != Some(x) || InHand(s.threads[u]) != Some(x)
    ensures forall q :: 0 <= q < |s.deques| ==> multiset(s.deques[q].content)[x] <= 1
  {
    ReachableInv(n, size, total, s);
    hide Ordered; hide Joined; hide Reachable;
    forall q | 0 <= q < |s.deques| ensures multiset(s.deques[q].content)[x] <= 1 {
      OnceInDistinct(s.deques[q].content, x);
    }
    StoredOnce(s, x);
    hide InHand;
    if s.place[x].Held? { assert InHand(s.threads[s.place[x].t]) == Some(x); }
  }

  lemma StoredOnce(s: State, x: Item)
    requires Accounted(s) && x in s.place
    ensures s.place[x].Stored? <==> exists q :: 0 <= q < |s.deques| && x in s.deques[q].content
    ensures forall q, p :: 0 <= q < p < |s.deques| ==> x !in s.deques[q].content || x !in s.deques[p].content
  {
    if s.place[x].Stored? { assert x in s.deques[s.place[x].q].content; }
  }

  lemma {:induction false} OnceInDistinct(c: seq<Item>, x: Item)
    requires Distinct(c)
    ensures multiset(c)[x] <= 1 && (x !in c ==> multiset(c)[x] == 0)
  {
    if c != [] {
      var rest := c[..|c| - 1];
      assert c == rest + [c[|c| - 1]];
      OnceInDistinct(rest, x);
    }
  }

  /** The owner works at the young end: its push adds the new item there, and a take
      that gets an item gets the youngest one. */
  lemma OwnerWorksAtYoungEnd(n: nat, size: nat, total: nat, s: State, ev: Event, s': State)
    requires Reachable(n, size, total, s) && ev.t < |s.threads| && s' == Step(s, ev)
    requires OwnerPc(s.threads[ev.t])
    ensures |s.threads| == |s.deques| == |s'.threads| == |s'.deques| == n
    ensures var c, c' := s.deques[ev.t].content, s'.deques[ev.t].content;
            var pc, pc' := s.threads[ev.t], s'.threads[ev.t];
            && (pc.PushPublish? ==> c' == c + [pc.w])
            && (InHand(pc).None? && InHand(pc').Some? ==> c == c' + [InHand(pc').value])
            && (pc.TakeCas? && pc'.TakeRestore? && pc'.got.None? ==> c == [])
            && (pc.TakeTop? && pc'.TakeRestore? ==> c == [])
  {
    ReachableInv(n, size, total, s);
    var d, pc := s.deques[ev.t], s.threads[ev.t];
    assert DequeInv(d, pc);
    OwnerFlow(d, pc);
  }

  /** A thief whose compare-exchange wins has read the oldest item, even through an array
      that a resize has since replaced; it loses only if another has moved top; a thief that
      sees an empty deque sees at most one item left, which the owner is in the middle of
      taking. */
  lemma ThiefGetsOldest(n: nat, size: nat, total: nat, s: State, ev: Event, s': State)
    requires Reachable(n, size, total, s) && ev.t < |s.threads| && s' == Step(s, ev)
    requires ThiefPc(s.threads[ev.t])
    ensures |s.threads| == |s.deques| == |s'.threads| == |s'.deques| == n && s.threads[ev.t].q < n
    ensures var q := s.threads[ev.t].q;
            var c, c' := s.deques[q].content, s'.deques[q].content;
            && (s'.threads[ev.t].Running? ==> c == [s'.threads[ev.t].x] + c')
            && (s.threads[ev.t].StealCas? ==> (s'.threads[ev.t].Running? <==> s.deques[q].top == s.threads[ev.t].t))
            && (s.threads[ev.t].StealCas? && !s'.threads[ev.t].Running? ==> s.deques[q].top > s.threads[ev.t].t)
            && (s.threads[ev.t].StealBottom? && s'.threads[ev.t].Idle? ==>
                  |c| == 0 || (|c| == 1 && OwnerPc(s.threads[q]) && !s.threads[q].PushLoad?))
  {
    hide Accounted; hide Joined; hide Load; hide Reachable;
    ReachableInv(n, size, total, s);
    var pc := s.threads[ev.t];
    assert ThiefOk(s.deques, s.threads, ev.t, pc);
    assert DequeInv(s.deques[pc.q], s.threads[pc.q]);
    assert DequeInv(s.deques[ev.t], pc);
    ThiefFlow(s.deques[pc.q], s.threads[pc.q], pc);
  }

  /** The continuation is released at most once, and exactly when every one of the
      `total` items it waits for has been run. */
  lemma ContinuationReleasedOnceAfterAll(n: nat, size: nat, total: nat, s: State)
    requires Reachable(n, size, total, s)
    ensures s.released <= 1
    ensures s.released == 1 <==> total > 0 && forall x: Item :: x < total ==> x in s.place && s.place[x].Done?
  {
    ReachableInv(n, size, total, s);
    var done := DoneItems(s.place);
    Below(done, total);
    if total > 0 && forall x: Item :: x < total ==> x in s.place && s.place[x].Done? {
      AllBelow(done, total);
    }
    if s.released == 1 {
      forall x: Item | x < total ensures x in s.place && s.place[x].Done? { assert x in done; }
    }
  }

  lemma {:induction false} AllBelow(xs: set<nat>, n: nat)
    requires forall x: nat :: x < n <==> x in xs
    ensures |xs| == n
  {
    if n == 0 {
      assert xs == {};
    } else {
      AllBelow(xs - {n - 1}, n - 1);
      assert |xs| == |xs - {n - 1}| + 1;
    }
  }

  // --------------------------------------------- what a call was asked for

  /** A call as its caller sees it: the command, the item it came back with, and the states from
      its start to now. */
  datatype Call = NoCall | Call(cmd: Cmd, got: Option<Item>, since: set<State>)

  predicate PushPc(pc: Pc) {
    pc.PushLoad? || pc.ResizeLoad? || pc.ResizeCopy? || pc.PushWrite? || pc.PushPublish?
  }

  predicate TakePc(pc: Pc) { OwnerPc(pc) && !PushPc(pc) }

  predicate GetsItem(pc: Pc, pc': Pc) { InHand(pc).None? && InHand(pc').Some? }

  /** The call goes on with a step from s to s' by thread v. */
  ghost function Later(call: Call, s: State, s': State, v: nat, t: nat): Call {
    if call.NoCall? then NoCall
    else call.(
      got := if v == t && t < |s.threads| && t < |s'.threads| && GetsItem(s.threads[t], s'.threads[t])
             then InHand(s'.threads[t]) else call.got,
      since := call.since + {s'})
  }

  predicate Begins(s: State, ev: Event) {
    Admissible(s, ev) && s.threads[ev.t].Idle? && StartPc(s, ev.t, ev.cmd) != Idle
  }

  /** The last call that thread t has begun in a run, told from the schedule. */
  ghost function LastCall(o: State, evs: seq<Event>, t: nat): Call
    decreases |evs|
  {
    if evs == [] then NoCall
    else
      var s, ev := Run(o, evs[..|evs| - 1]), evs[|evs| - 1];
      if ev.t == t && Begins(s, ev) then Call(ev.cmd, None, {Step(s, ev)})
      else Later(LastCall(o, evs[..|evs| - 1], t), s, Step(s, ev), ev.t, t)
  }

  /** At some moment w was the youngest item of deque t. */
  ghost predicate WasYoungest(since: set<State>, t: nat, w: Item) { exists x :: x in since && Youngest(x, t, w) }

  predicate Youngest(s: State, t: nat, w: Item) {
    t < |s.deques| && s.deques[t].content != [] && s.deques[t].content[|s.deques[t].content| - 1] == w
  }

  ghost predicate WasEmpty(since: set<State>, t: nat) {
    exists x :: x in since && t < |x.deques| && x.deques[t].content == []
  }

  /** At some moment deque q had nothing for a thief: it was empty, or its owner was taking the one
      item left. */
  ghost predicate WasBare(since: set<State>, q: nat) { exists x :: x in since && Bare(x, q) }

  predicate Bare(s: State, q: nat) {
    && q < |s.deques| && q < |s.threads|
    && (s.deques[q].content == [] || (|s.deques[q].content| == 1 && TakePc(s.threads[q])))
  }

  ghost predicate WasTop(since: set<State>, q: nat, i: nat) {
    exists x :: x in since && q < |x.deques| && x.deques[q].top == i
  }

  /** Somebody else took the oldest item of deque q. */
  ghost predicate TopMoved(since: set<State>, q: nat) {
    exists i, j :: i < j && WasTop(since, q, i) && WasTop(since, q, j)
  }

  lemma WasLater(since: set<State>, s: State, q: nat, w: Item)
    ensures WasYoungest(since, q, w) || Youngest(s, q, w) ==> WasYoungest(since + {s}, q, w)
    ensures WasEmpty(since, q) || (q < |s.deques| && s.deques[q].content == []) ==> WasEmpty(since + {s}, q)
    ensures WasBare(since, q) || Bare(s, q) ==> WasBare(since + {s}, q)
  {
    var since' := since + {s};
    assert s in since';
    if WasYoungest(since, q, w) {
      var x :| x in since && Youngest(x, q, w);
      assert x in since';
    }
    if WasEmpty(since, q) {
      var x :| x in since && q < |x.deques| && x.deques[q].content == [];
      assert x in since';
    }
    if WasBare(since, q) {
      var x :| x in since && Bare(x, q);
      assert x in since';
    }
  }

  lemma WasTopLater(since: set<State>, s: State, q: nat, i: nat)
    ensures WasTop(since, q, i) || (q < |s.deques| && s.deques[q].top == i) ==> WasTop(since + {s}, q, i)
  {
    var since' := since + {s};
    assert s in since';
    if WasTop(since, q, i) {
      var x :| x in since && q < |x.deques| && x.deques[q].top == i;
      assert x in since';
    }
  }

  lemma TopMovedLater(since: set<State>, s: State, q: nat)
    requires TopMoved(since, q)
    ensures TopMoved(since + {s}, q)
  {
    var i, j :| i < j && WasTop(since, q, i) && WasTop(since, q, j);
    WasTopLater(since, s, q, i);
    WasTopLater(since, s, q, j);
  }

  /** What a call that has come back without an item has seen. */
  ghost predicate NothingThere(call: Call, t: nat)
    requires call.Call?
  {
    match call.cmd
    case Push(w) => WasYoungest(call.since, t, w)
    case Take => WasEmpty(call.since, t)
    case Steal(q) => WasBare(call.since, q) || TopMoved(call.since, q)
  }

  /** The call that pc works for, and how far it has come. */
  ghost predicate Serves(call: Call, t: nat, pc: Pc) {
    if pc.Idle? then call.Call? ==> (!call.cmd.Push? && call.got.Some?) || NothingThere(call, t)
    else
      && call.Call?
      && (if PushPc(pc) then call.cmd == Push(pc.w)
          else if TakePc(pc) then
            call.cmd.Take? && call.got == InHand(pc) && (pc.TakeRestore? && pc.got.None? ==> WasEmpty(call.since, t))
          else if ThiefPc(pc) then
            && call.cmd == Steal(pc.q) && call.got.None?
            && (!pc.StealTop? ==> WasTop(call.since, pc.q, pc.t))
          else !call.cmd.Push? && call.got == InHand(pc))
  }

  /** How a step takes its own thread on. */
  ghost predicate Advances(s: State, s': State, t: nat) {
    && t < |s.threads| == |s'.threads| == |s.deques| == |s'.deques| && s'.threads == s.threads[t := s'.threads[t]]
    && var pc, pc' := s.threads[t], s'.threads[t];
    && (PushPc(pc) ==> (PushPc(pc') && pc'.w == pc.w) || (pc'.Idle? && Youngest(s', t, pc.w)))
    && (TakePc(pc) ==>
          && (TakePc(pc') || pc'.Idle? || pc'.Running?)
          && (InHand(pc).Some? ==> InHand(pc') == InHand(pc))
          && (pc'.Running? ==> InHand(pc').Some?)
          && (pc'.Idle? ==> pc.TakeRestore? && pc.got.None?)
          && (pc'.TakeRestore? && pc'.got.None? ==> s'.deques[t].content == []))
    && (ThiefPc(pc) ==>
          && pc.q < |s.deques|
          && (ThiefPc(pc') || pc'.Idle? || pc'.Running?)
          && (ThiefPc(pc') ==> pc'.q == pc.q && !pc'.StealTop?)
          && (ThiefPc(pc') && !pc.StealTop? ==> pc'.t == pc.t)
          && (ThiefPc(pc') && pc.StealTop? ==> pc'.t == s'.deques[pc.q].top)
          && (pc'.Idle? ==> Bare(s', pc.q) || (!pc.StealTop? && s'.deques[pc.q].top > pc.t)))
    && (pc.Running? ==> pc'.Idle?)
  }

  lemma OwnerAdvances(d: Deque, o: Pc)
    requires DequeInv(d, o) && OwnerPc(o)
    ensures var (d', o') := OwnerStep(d, o);
      && (PushPc(o) ==>
            (PushPc(o') && o'.w == o.w) || (o'.Idle? && d'.content != [] && d'.content[|d'.content| - 1] == o.w))
      && (TakePc(o) ==>
            && (TakePc(o') || o'.Idle? || o'.Running?)
            && (InHand(o).Some? ==> InHand(o') == InHand(o))
            && (o'.Idle? ==> o.TakeRestore? && o.got.None?)
            && (o'.TakeRestore? && o'.got.None? ==> d'.content == []))
  {
    hide Load;
  }

  lemma ThiefAdvances(d: Deque, o: Pc, pc: Pc)
    requires DequeInv(d, o) && ThiefPc(pc) && ThiefInv(d, Limit(d, o), pc)
    ensures var (d', pc') := ThiefStep(d, pc);
      && (ThiefPc(pc') || pc'.Idle? || pc'.Running?)
      && (ThiefPc(pc') ==> pc'.q == pc.q && !pc'.StealTop?)
      && (ThiefPc(pc') && !pc.StealTop? ==> pc'.t == pc.t)
      && (ThiefPc(pc') && pc.StealTop? ==> pc'.t == d'.top)
      && (pc'.Idle? ==>
            || (d' == d && (d.content == [] || (|d.content| == 1 && TakePc(o))))
            || (!pc.StealTop? && d'.top > pc.t))
  {
    hide Load;
  }

  lemma StepAdvances(s: State, ev: Event)
    requires Inv(s) && ev.t < |s.threads| && !s.threads[ev.t].Idle?
    ensures Advances(s, Step(s, ev), ev.t)
  {
    hide Accounted; hide Joined; hide DequeInv; hide ThiefInv; hide OwnerStep; hide ThiefStep; hide MoveItem;
    hide Limit;
    var pc, d := s.threads[ev.t], s.deques[ev.t];
    IsAdmissible(s, ev);
    assert DequeInv(d, pc);
    if OwnerPc(pc) { OwnerAdvances(d, pc); }
    else if ThiefPc(pc) {
      assert ThiefOk(s.deques, s.threads, ev.t, pc);
      assert DequeInv(s.deques[pc.q], s.threads[pc.q]);
      ThiefAdvances(s.deques[pc.q], s.threads[pc.q], pc);
    }
  }

  lemma IsAdmissible(s: State, ev: Event)
    requires Inv(s) && ev.t < |s.threads|
    ensures Admissible(s, ev)
  {
    hide Accounted; hide Joined; hide Load; hide OwnerInv;
    assert DequeInv(s.deques[ev.t], s.threads[ev.t]);
    if ThiefPc(s.threads[ev.t]) { assert ThiefOk(s.deques, s.threads, ev.t, s.threads[ev.t]); }
  }

  lemma ServesOn(call: Call, s: State, s': State, t: nat)
    requires Advances(s, s', t) && !s.threads[t].Idle? && Serves(call, t, s.threads[t])
    ensures Serves(Later(call, s, s', t, t), t, s'.threads[t])
  {
    hide WasYoungest; hide WasEmpty; hide WasBare; hide WasTop; hide TopMoved; hide Youngest; hide Bare;
    var pc := s.threads[t];
    WasLater(call.since, s', t, if PushPc(pc) then pc.w else 0);
    if ThiefPc(pc) {
      WasLater(call.since, s', pc.q, 0);
      WasTopLater(call.since, s', pc.q, s'.deques[pc.q].top);
      if !pc.StealTop? {
        WasTopLater(call.since, s', pc.q, pc.t);
        MovesTop(call.since + {s'}, pc.q, pc.t, s'.deques[pc.q].top);
      }
    }
  }

  lemma MovesTop(since: set<State>, q: nat, i: nat, j: nat)
    requires WasTop(since, q, i) && WasTop(since, q, j)
    ensures i < j ==> TopMoved(since, q)
  {
  }

  lemma ServesLonger(call: Call, s': State, t: nat, pc: Pc)
    requires call.Call? && Serves(call, t, pc)
    ensures Serves(call.(since := call.since + {s'}), t, pc)
  {
    hide WasYoungest; hide WasEmpty; hide WasBare; hide WasTop; hide TopMoved; hide Youngest; hide Bare;
    WasLater(call.since, s', t, if call.cmd.Push? then call.cmd.w else 0);
    if call.cmd.Steal? {
      WasLater(call.since, s', call.cmd.q, 0);
      if TopMoved(call.since, call.cmd.q) { TopMovedLater(call.since, s', call.cmd.q); }
      if ThiefPc(pc) && !pc.StealTop? { WasTopLater(call.since, s', pc.q, pc.t); }
    }
  }

  lemma ServesStill(call: Call, s: State, s': State, v: nat, t: nat, pc: Pc)
    requires Serves(call, t, pc)
    requires v != t || (t < |s.threads| == |s'.threads| && s'.threads == s.threads && pc == s.threads[t])
    ensures Serves(Later(call, s, s', v, t), t, pc)
  {
    hide Serves;
    if call.Call? { ServesLonger(call, s', t, pc); }
  }

  lemma ServesStep(s: State, ev: Event, call: Call, t: nat)
    requires Inv(s) && t < |s.threads| && Serves(call, t, s.threads[t])
    ensures var s' := Step(s, ev);
      && |s'.threads| == |s.threads|
      && Serves(if ev.t == t && Begins(s, ev) then Call(ev.cmd, None, {s'}) else Later(call, s, s', ev.t, t),
                t, s'.threads[t])
  {
    hide Inv; hide OwnerStep; hide ThiefStep; hide MoveItem; hide Serves; hide Advances;
    hide Shaped;
    var s' := Step(s, ev);
    if ev.t < |s.threads| && !s.threads[ev.t].Idle? {
      StepAdvances(s, ev);
      AdvancesFrame(s, s', ev.t);
      if ev.t == t { ServesOn(call, s, s', t); } else { ServesStill(call, s, s', ev.t, t, s.threads[t]); }
    } else if ev.t != t {
      ServesStill(call, s, s', ev.t, t, s.threads[t]);
    } else {
      IsAdmissible(s, ev);
      if Begins(s, ev) { ServesFirst(s, ev); } else { ServesStill(call, s, s', t, t, s.threads[t]); }
    }
  }

  lemma AdvancesFrame(s: State, s': State, t: nat)
    requires Advances(s, s', t)
    ensures t < |s.threads| && |s'.threads| == |s.threads| && s'.threads == s.threads[t := s'.threads[t]]
  {
  }

  lemma ServesFirst(s: State, ev: Event)
    requires Begins(s, ev)
    ensures var s' := Step(s, ev);
      |s'.threads| == |s.threads| && Serves(Call(ev.cmd, None, {s'}), ev.t, s'.threads[ev.t])
  {
  }

  lemma {:induction false} CallsServed(n: nat, size: nat, total: nat, evs: seq<Event>, t: nat)
    requires size > 0 && t < n
    ensures var s := Run(Init(n, size, total), evs);
      |s.threads| == n && Serves(LastCall(Init(n, size, total), evs, t), t, s.threads[t])
    decreases |evs|
  {
    hide Step; hide Inv; hide Serves;
    RunInv(n, size, total, evs);
    if evs == [] {
      NothingServed(t);
    } else {
      var prev := evs[..|evs| - 1];
      RunInv(n, size, total, prev);
      CallsServed(n, size, total, prev, t);
      ServesStep(Run(Init(n, size, total), prev), evs[|evs| - 1], LastCall(Init(n, size, total), prev, t), t);
    }
  }

  lemma NothingServed(t: nat)
    ensures Serves(NoCall, t, Idle)
  {
  }

  /** What calls come back with, in every run: after a push of w, w was at some moment of the call
      the youngest item of the thread's own deque; a take without an item has seen that deque
      empty; a steal without one has seen the victim's deque empty or down to the item its owner
      was taking, or another took the oldest item meanwhile. */
  lemma CallsReturn(n: nat, size: nat, total: nat, evs: seq<Event>, t: nat)
    requires size > 0 && t < n
    ensures var s, call := Run(Init(n, size, total), evs), LastCall(Init(n, size, total), evs, t);
      && |s.threads| == n
      && (s.threads[t].Idle? && call.Call? ==>
            match call.cmd
            case Push(w) => exists x :: x in call.since && Youngest(x, t, w)
            case Take =>
              call.got.Some? || exists x :: x in call.since && t < |x.deques| && x.deques[t].content == []
            case Steal(q) =>
              || call.got.Some?
              || (exists x :: x in call.since && Bare(x, q))
              || (exists x, y :: x in call.since && y in call.since && q < |x.deques| && q < |y.deques|
                    && x.deques[q].top < y.deques[q].top))
      && (s.threads[t].Running? ==> call.Call? && !call.cmd.Push? && call.got == Some(s.threads[t].x))
  {
    hide Run; hide LastCall; hide Init;
    CallsServed(n, size, total, evs, t);
    var s, call := Run(Init(n, size, total), evs), LastCall(Init(n, size, total), evs, t);
    if s.threads[t].Idle? && call.Call? && call.cmd.Steal? && TopMoved(call.since, call.cmd.q) {
      var q := call.cmd.q;
      var i, j :| i < j && WasTop(call.since, q, i) && WasTop(call.since, q, j);
      var x :| x in call.since && q < |x.deques| && x.deques[q].top == i;
      var y :| y in call.since && q < |y.deques| && y.deques[q].top == j;
    }
  }

  // -------------------------------------------------- one deque, used alone

  const TWO64: nat := 0x1_0000_0000_0000_0000

  /** The items at indices lo .. hi of a buffer. */
  ghost function Window(buffer: seq<Item>, lo: nat, hi: nat): (c: seq<Item>)
    requires |buffer| > 0 && lo <= hi
    ensures |c| == hi - lo
    ensures forall k :: 0 <= k < hi - lo ==> c[k] == buffer[Pos(lo + k, |buffer|)]
  {
    seq(hi - lo, k requires 0 <= k < hi - lo => buffer[Pos(lo + k, |buffer|)])
  }

  lemma WindowSame(b1: seq<Item>, b2: seq<Item>, lo: nat, hi: nat)
    requires |b1| > 0 && |b2| > 0 && lo <= hi
    requires forall j :: lo <= j < hi ==> b1[Pos(j, |b1|)] == b2[Pos(j, |b2|)]
    ensures Window(b1, lo, hi) == Window(b2, lo, hi)
  {
  }

  lemma WindowEnds(b: seq<Item>, lo: nat, hi: nat)
    requires |b| > 0 && lo < hi
    ensures Window(b, lo, hi) == Window(b, lo, hi - 1) + [b[Pos(hi - 1, |b|)]]
    ensures Window(b, lo, hi) == [b[Pos(lo, |b|)]] + Window(b, lo + 1, hi)
  {
  }

  /** A deque as its owner's code updates it in place when no thief interferes: size_t
      indices and a buffer that a full push replaces by one of twice the size. */
  class DequeObject {
    var top: nat
    var bottom: nat
    var buffer: array<Item>

    ghost predicate Valid()
      reads this, buffer
    {
      && buffer.Length > 0
      && top <= bottom < TWO64 - 1
      && bottom - top <= buffer.Length
    }

    /** The items held, oldest first. */
    ghost function Contents(): seq<Item>
      reads this, buffer
      requires Valid()
    {
      Window(buffer[..], top, bottom)
    }

    constructor (sizeHint: nat)
      requires sizeHint > 0
      ensures Valid() && fresh(buffer) && Contents() == [] && bottom == 0
    {
      top, bottom := 0, 0;
      buffer := new Item[sizeHint](_ => 0);
    }

    method Resize()
      requires Valid()
      modifies this`buffer
      ensures Valid() && Contents() == old(Contents())
      ensures fresh(buffer) && buffer.Length == 2 * old(buffer.Length)
    {
      var oldSize, newSize := buffer.Length, 2 * buffer.Length;
      var larger := new Item[newSize](_ => 0);
      var i := top;
      while i < bottom
        invariant top <= i <= bottom && buffer == old(buffer) && buffer[..] == old(buffer[..])
        invariant forall j :: top <= j < i ==> larger[Pos(j, newSize)] == buffer[Pos(j, oldSize)]
      {
        forall j | top <= j < i
          ensures Pos(j, newSize) != Pos(i, newSize)
        {
          DistinctWithinLap(j, i, newSize);
        }
        larger[Pos(i, newSize)] := buffer[Pos(i, oldSize)];
        i := i + 1;
      }
      WindowSame(buffer[..], larger[..], top, bottom);
      buffer := larger;
    }

    method Push(w: Item)
      requires Valid() && bottom + 1 < TWO64 - 1
      modifies this, buffer
      ensures Valid() && Contents() == old(Contents()) + [w]
      ensures buffer == old(buffer) || fresh(buffer)
    {
      if bottom - top > buffer.Length - 1 { Resize(); }
      forall j | top <= j < bottom
        ensures Pos(j, buffer.Length) != Pos(bottom, buffer.Length)
      {
        DistinctWithinLap(j, bottom, buffer.Length);
      }
      ghost var before := buffer[..];
      buffer[Pos(bottom, buffer.Length)] := w;
      bottom := bottom + 1;
      WindowSame(before, buffer[..], top, bottom - 1);
      WindowEnds(buffer[..], top, bottom);
    }

    /** take() keeps its promise exactly when bottom is not 0.  On a deque that was never
        pushed to, `bottom - 1` wraps round: whatever the buffer holds is returned as
        work and bottom is left at 2^64 - 1. */
    method Take() returns (x: Option<Item>)
      requires Valid()
      modifies this
      ensures buffer == old(buffer) && buffer[..] == old(buffer[..])
      ensures old(bottom) > 0 ==>
                && Valid()
                && (x.None? <==> old(Contents()) == [])
                && old(Contents()) == Contents() + (if x.Some? then [x.value] else [])
      ensures old(bottom) == 0 ==>
                x == Some(buffer[Pos(TWO64 - 1, buffer.Length)]) && bottom == TWO64 - 1 && !Valid()
    {
      var b := if bottom == 0 then TWO64 - 1 else bottom - 1;
      bottom := b;
      var t := top;
      if t <= b {
        if b < TWO64 - 1 { WindowEnds(buffer[..], t, b + 1); }
        x := Some(buffer[Pos(b, buffer.Length)]);
        if t == b {
          top := t + 1;
          bottom := b + 1;
        }
      } else {
        x := None;
        bottom := b + 1;
      }
    }

    method Steal() returns (x: Option<Item>)
      requires Valid()
      modifies this`top
      ensures Valid()
      ensures x.None? <==> old(Contents()) == []
      ensures old(Contents()) == (if x.Some? then [x.value] else []) + Contents()
    {
      x := None;
      if top < bottom {
        WindowEnds(buffer[..], top, bottom);
        x := Some(buffer[Pos(top, buffer.Length)]);
        top := top + 1;
      }
    }
  }
}
