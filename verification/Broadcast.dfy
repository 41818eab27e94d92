/** The lock-free broadcast ring of broadcast/broadcast.c over the element pool of
    broadcast/pool.c.  Publishers take an element from the pool's free stack, fill it, and
    append it to a ring of `depth` slots, dropping the oldest message when the ring is full
    and giving its element back to the pool.

    Each atomic access is one step and a run is any schedule of any number of publishers.
    A tagged reference is 16 bytes wide and is read in two steps, so what a thread reads may
    be a mix of two references; only the compare-and-swap is atomic on the whole. */
module Broadcast {
  import opened Modular

  /** Elements are numbered from 1, so that the zero reference refers to none. */
  datatype Ref = Ref(tag: nat, val: nat)
  const NULL := Ref(0, 0)

  datatype Pc =
    | Idle
    // pool_acquire
    | AcqVal
    | AcqTag(v: nat)
    | AcqLinkVal(cur: Ref)
    | AcqLinkTag(cur: Ref, v: nat)
    | AcqCas(cur: Ref, next: Ref)
    // broadcast_pub with element m in hand
    | Fill(m: nat)
    | LoadHead(m: nat)
    | LoadTail(m: nat, h: nat)
    | LoadVal(m: nat, h: nat, t: nat)
    | LoadTag(m: nat, h: nat, t: nat, v: nat)
    | Advance(m: nat, t: nat)
    | Append(m: nat, t: nat, cur: Ref)
    | Finish(t: nat)
    // try_drop_head
    | DropLoad(m: nat, h: nat)
    | DropCas(m: nat, h: nat, v: nat)
    // pool_release of element e, with element m still in hand
    | RelTag(m: nat, e: nat)
    | RelVal(m: nat, e: nat, tag: nat)
    | RelHeadTag(m: nat, e: nat, tag: nat, v: nat)
    | RelLink(m: nat, e: nat, tag: nat, cur: Ref)
    | RelCas(m: nat, e: nat, tag: nat, cur: Ref)

  /** The free stack.  link[e] is the first 16 bytes of element e, link[0] those of the pool
      itself; `stack` lists what is on the stack, bottom first; `pushed` are the tags that have
      been on it. */
  datatype Pool = Pool(head: Ref, link: seq<Ref>, tagNext: nat, stack: seq<Ref>, pushed: set<nat>)

  /** `log[k]` is the element published with index k; index 0 is never published. */
  datatype Ring = Ring(depth: nat, slots: seq<Ref>, head: nat, tail: nat, log: seq<nat>)

  /** Where an element is: k-th from the bottom of the stack, in a publisher's hand, in the
      ring with index k, or in the hand of a thread that dropped it. */
  datatype Place = Free(k: nat) | InHand(t: nat) | Live(k: nat) | Dropped(t: nat)

  datatype State = State(p: Pool, r: Ring, place: seq<Place>, threads: seq<Pc>)

  /** `msg` is the message that a publisher at `Fill` copies into the first 16 bytes of its element. */
  datatype Event = Event(t: nat, msg: Ref)

  // ------------------------------------------------------------------ steps

  function Goto(s: State, t: nat, pc: Pc): State
    requires t < |s.threads|
  {
    s.(threads := s.threads[t := pc])
  }

  function LinkAt(link: seq<Ref>, v: nat): Ref {
    if v < |link| then link[v] else NULL
  }

  function SlotAt(r: Ring, i: nat): Ref
    requires r.depth > 0 && |r.slots| == r.depth
  {
    r.slots[Pos(i, r.depth)]
  }

  predicate Sized(s: State) {
    s.r.depth > 0 && |s.r.slots| == s.r.depth && |s.place| == |s.p.link|
  }

  predicate AcquirePc(pc: Pc) { pc.AcqVal? || pc.AcqTag? || pc.AcqLinkVal? || pc.AcqLinkTag? || pc.AcqCas? }

  predicate ReleasePc(pc: Pc) { pc.RelTag? || pc.RelVal? || pc.RelHeadTag? || pc.RelLink? || pc.RelCas? }

  function AcquireStep(s: State, t: nat): State
    requires Sized(s) && t < |s.threads|
  {
    var p := s.p;
    match s.threads[t]
    case AcqVal => Goto(s, t, AcqTag(p.head.val))
    case AcqTag(v) =>
      if Ref(p.head.tag, v) == NULL then Goto(s, t, Idle) else Goto(s, t, AcqLinkVal(Ref(p.head.tag, v)))
    case AcqLinkVal(cur) => Goto(s, t, AcqLinkTag(cur, LinkAt(p.link, cur.val).val))
    case AcqLinkTag(cur, v) => Goto(s, t, AcqCas(cur, Ref(LinkAt(p.link, cur.val).tag, v)))
    case AcqCas(cur, next) =>
      if p.head != cur then Goto(s, t, AcqVal)
      else if 0 < cur.val < |s.place| && p.stack != [] then
        Goto(s.(p := p.(head := next, stack := p.stack[..|p.stack| - 1]), place := s.place[cur.val := InHand(t)]),
             t, Fill(cur.val))
      else s
    case _ => s
  }

  function PublishStep(s: State, t: nat, msg: Ref): State
    requires Sized(s) && t < |s.threads|
  {
    var r := s.r;
    match s.threads[t]
    case Fill(m) =>
      if m < |s.p.link| then Goto(s.(p := s.p.(link := s.p.link[m := msg])), t, LoadHead(m)) else s
    case LoadHead(m) => Goto(s, t, LoadTail(m, r.head))
    case LoadTail(m, h) => Goto(s, t, LoadVal(m, h, r.tail))
    case LoadVal(m, h, i) => Goto(s, t, LoadTag(m, h, i, SlotAt(r, i).val))
    case LoadTag(m, h, i, v) =>
      var tag := SlotAt(r, i).tag;
      if tag == i then Goto(s, t, Advance(m, i))
      else if tag >= i then Goto(s, t, LoadHead(m))
      else if h <= tag then Goto(s, t, DropLoad(m, h))
      else Goto(s, t, Append(m, i, Ref(tag, v)))
    case Advance(m, i) =>
      Goto(if r.tail == i then s.(r := r.(tail := i + 1)) else s, t, LoadHead(m))
    case Append(m, i, cur) =>
      if SlotAt(r, i) == cur && m < |s.place| then
        Goto(s.(r := r.(slots := r.slots[Pos(i, r.depth) := Ref(i, m)], log := r.log + [m]),
                place := s.place[m := Live(|r.log|)]),
             t, Finish(i))
      else Goto(s, t, LoadHead(m))
    case Finish(i) =>
      Goto(if r.tail == i then s.(r := r.(tail := i + 1)) else s, t, Idle)
    case DropLoad(m, h) => Goto(s, t, DropCas(m, h, SlotAt(r, h).val))
    case DropCas(m, h, v) =>
      if r.head == h && v < |s.place| then
        Goto(s.(r := r.(head := h + 1), place := s.place[v := Dropped(t)]), t, RelTag(m, v))
      else Goto(s, t, LoadHead(m))
    case _ => s
  }

  function ReleaseStep(s: State, t: nat): State
    requires Sized(s) && t < |s.threads|
  {
    var p := s.p;
    match s.threads[t]
    case RelTag(m, e) => Goto(s.(p := p.(tagNext := p.tagNext + 1)), t, RelVal(m, e, p.tagNext + 1))
    case RelVal(m, e, tag) => Goto(s, t, RelHeadTag(m, e, tag, p.head.val))
    case RelHeadTag(m, e, tag, v) => Goto(s, t, RelLink(m, e, tag, Ref(p.head.tag, v)))
    case RelLink(m, e, tag, cur) =>
      if e < |p.link| then Goto(s.(p := p.(link := p.link[e := cur])), t, RelCas(m, e, tag, cur)) else s
    case RelCas(m, e, tag, cur) =>
      if p.head == cur && e < |s.place| then
        Goto(s.(p := p.(head := Ref(tag, e), stack := p.stack + [Ref(tag, e)], pushed := p.pushed + {tag}),
                place := s.place[e := Free(|p.stack|)]),
             t, LoadHead(m))
      else Goto(s, t, RelVal(m, e, tag))
    case _ => s
  }

  function Step(s: State, ev: Event): State {
    if !(Sized(s) && ev.t < |s.threads|) then s
    else if s.threads[ev.t].Idle? then Goto(s, ev.t, AcqVal)
    else if AcquirePc(s.threads[ev.t]) then AcquireStep(s, ev.t)
    else if ReleasePc(s.threads[ev.t]) then ReleaseStep(s, ev.t)
    else PublishStep(s, ev.t, ev.msg)
  }

  /** A release that nobody disturbs. */
  function Released(p: Pool, e: nat): Pool
    requires e < |p.link|
  {
    var ref := Ref(p.tagNext + 1, e);
    Pool(ref, p.link[e := p.head], ref.tag, p.stack + [ref], p.pushed + {ref.tag})
  }

  /** pool_mem_init once elements i and up have been released, over memory that may hold anything. */
  function InitPool(mem: seq<Ref>, i: nat): (p: Pool)
    requires 0 < i <= |mem|
    ensures |p.link| == |mem|
    decreases |mem| - i
  {
    if i == |mem| then Pool(NULL, mem, 0, [], {}) else Released(InitPool(mem, i + 1), i)
  }

  function Init(depth: nat, mem: seq<Ref>, n: nat): State
    requires |mem| > 0
  {
    State(InitPool(mem, 1), Ring(depth, seq(depth, _ => NULL), 1, 1, [0]),
          seq(|mem|, e requires 0 <= e < |mem| => Free(|mem| - e - 1)), seq(n, _ => Idle))
  }

  function Run(s: State, evs: seq<Event>): State
    decreases |evs|
  {
    if evs == [] then s else Step(Run(s, evs[..|evs| - 1]), evs[|evs| - 1])
  }

  // ------------------------------------------------------------------ invariant

  /** The element a publisher holds, and the one a dropper holds; 0 for none. */
  function MsgOf(pc: Pc): nat {
    if pc.Idle? || AcquirePc(pc) || pc.Finish? then 0 else pc.m
  }

  function DropOf(pc: Pc): nat { if ReleasePc(pc) then pc.e else 0 }

  /** The tag a releaser has drawn, 0 for none. */
  function TagOf(pc: Pc): nat {
    if pc.RelVal? || pc.RelHeadTag? || pc.RelLink? || pc.RelCas? then pc.tag else 0
  }

  ghost function Below(stack: seq<Ref>, k: nat): Ref {
    if 0 < k <= |stack| then stack[k - 1] else NULL
  }

  ghost predicate PoolInv(p: Pool) {
    && p.head == Below(p.stack, |p.stack|)
    && (forall k :: 0 <= k < |p.stack| ==> 0 < p.stack[k].val < |p.link|)
    && (forall k {:trigger p.link[p.stack[k].val]} :: 0 <= k < |p.stack| ==>
          p.link[p.stack[k].val] == Below(p.stack, k))
    && (forall k :: 0 <= k < |p.stack| ==> p.stack[k].tag in p.pushed)
    && (forall tag :: tag in p.pushed ==> 0 < tag <= p.tagNext)
    && (forall j, k :: 0 <= j < k < |p.stack| ==> p.stack[j].tag != p.stack[k].tag)
  }

  ghost predicate StackPlaces(place: seq<Place>, stack: seq<Ref>) {
    && (forall k: nat :: k < |stack| ==> 0 < stack[k].val < |place| && place[stack[k].val] == Free(k))
    && (forall e: nat :: 0 < e < |place| && place[e].Free? ==> place[e].k < |stack| && stack[place[e].k].val == e)
  }

  ghost predicate RingPlaces(place: seq<Place>, head: nat, log: seq<nat>) {
    && (forall k: nat :: head <= k < |log| ==> 0 < log[k] < |place| && place[log[k]] == Live(k))
    && (forall e: nat :: 0 < e < |place| && place[e].Live? ==> head <= place[e].k < |log| && log[place[e].k] == e)
  }

  ghost predicate HandPlaces(place: seq<Place>, threads: seq<Pc>) {
    && (forall t: nat :: t < |threads| && MsgOf(threads[t]) > 0 ==>
          MsgOf(threads[t]) < |place| && place[MsgOf(threads[t])] == InHand(t))
    && (forall e: nat :: 0 < e < |place| && place[e].InHand? ==>
          place[e].t < |threads| && MsgOf(threads[place[e].t]) == e)
  }

  ghost predicate DropPlaces(place: seq<Place>, threads: seq<Pc>) {
    && (forall t: nat :: t < |threads| && DropOf(threads[t]) > 0 ==>
          DropOf(threads[t]) < |place| && place[DropOf(threads[t])] == Dropped(t))
    && (forall e: nat :: 0 < e < |place| && place[e].Dropped? ==>
          place[e].t < |threads| && DropOf(threads[place[e].t]) == e)
  }

  /** Every element is in exactly one place, and every place agrees. */
  ghost predicate PlaceInv(place: seq<Place>, stack: seq<Ref>, head: nat, log: seq<nat>, threads: seq<Pc>) {
    StackPlaces(place, stack) && RingPlaces(place, head, log) && HandPlaces(place, threads)
        && DropPlaces(place, threads)
  }

  /** What slot k mod depth holds while k is the last index published there. */
  ghost function Content(log: seq<nat>, k: int): Ref {
    if 0 < k < |log| then Ref(k, log[k]) else NULL
  }

  ghost predicate RingInv(r: Ring) {
    && r.depth > 0 && |r.slots| == r.depth && |r.log| >= 1
    && 1 <= r.head <= |r.log| <= r.head + r.depth
    && 1 <= r.tail <= |r.log| <= r.tail + 1
    && (forall k :: |r.log| - r.depth <= k < |r.log| ==> r.slots[Pos(k, r.depth)] == Content(r.log, k))
  }

  /** What an acquirer has read is of use only while `cur` is on the stack, and then it is right. */
  ghost predicate AcquireInv(p: Pool, pc: Pc) {
    && (pc.AcqLinkVal? || pc.AcqLinkTag? || pc.AcqCas? ==>
          pc.cur != NULL && (pc.cur.tag == 0 || pc.cur.tag in p.pushed))
    && (pc.AcqLinkTag? ==> forall k :: 0 <= k < |p.stack| && p.stack[k] == pc.cur ==> pc.v == Below(p.stack, k).val)
    && (pc.AcqCas? ==> forall k :: 0 <= k < |p.stack| && p.stack[k] == pc.cur ==> pc.next == Below(p.stack, k))
  }

  ghost predicate ReleaseInv(p: Pool, pc: Pc) {
    && (TagOf(pc) != 0 ==> TagOf(pc) <= p.tagNext && TagOf(pc) !in p.pushed)
    && (pc.RelCas? ==> pc.e < |p.link| && p.link[pc.e] == pc.cur)
    && (pc.RelVal? || pc.RelHeadTag? || pc.RelLink? || pc.RelCas? ==> pc.tag > 0)
  }

  ghost predicate PublishInv(r: Ring, pc: Pc) {
    && (pc.LoadTail? || pc.LoadVal? || pc.LoadTag? ==> 1 <= pc.h <= r.head)
    && (pc.LoadVal? || pc.LoadTag? || pc.Append? ==> 1 <= pc.t <= r.tail)
    && (pc.Append? ==> pc.cur.tag < pc.t && pc.cur.tag < r.head)
    && (pc.Advance? || pc.Finish? ==> pc.t < |r.log|)
    && (pc.DropLoad? || pc.DropCas? ==> 1 <= pc.h <= r.head && pc.h < |r.log| && pc.h + r.depth <= |r.log|)
    && (pc.DropCas? && pc.h == r.head ==> pc.v == r.log[pc.h])
  }

  /** A thread that should hold an element does. */
  ghost predicate Holds(pc: Pc) {
    && (!pc.Idle? && !AcquirePc(pc) && !pc.Finish? ==> pc.m > 0)
    && (ReleasePc(pc) ==> pc.e > 0)
  }

  ghost predicate TagsInv(threads: seq<Pc>) {
    forall t, u :: 0 <= t < u < |threads| && TagOf(threads[t]) == TagOf(threads[u]) ==> TagOf(threads[t]) == 0
  }

  ghost predicate ThreadInv(s: State, t: nat)
    requires t < |s.threads|
  {
    && Holds(s.threads[t])
    && AcquireInv(s.p, s.threads[t]) && ReleaseInv(s.p, s.threads[t]) && PublishInv(s.r, s.threads[t])
  }

  ghost predicate Inv(s: State) {
    && Sized(s)
    && PoolInv(s.p)
    && RingInv(s.r)
    && PlaceInv(s.place, s.p.stack, s.r.head, s.r.log, s.threads)
    && TagsInv(s.threads)
    && (forall t :: 0 <= t < |s.threads| ==> ThreadInv(s, t))
  }

  lemma {:induction false} InitPoolInv(mem: seq<Ref>, i: nat)
    requires 0 < i <= |mem|
    ensures var p := InitPool(mem, i);
      && PoolInv(p) && |p.stack| == p.tagNext == |mem| - i
      && forall k :: 0 <= k < |p.stack| ==> p.stack[k] == Ref(k + 1, |mem| - 1 - k)
    decreases |mem| - i
  {
    if i < |mem| {
      InitPoolInv(mem, i + 1);
      var p, p' := InitPool(mem, i + 1), InitPool(mem, i);
      assert p' == Released(p, i);
      assert forall k: nat {:trigger Below(p'.stack, k)} :: k <= |p.stack| ==> Below(p'.stack, k) == Below(p.stack, k);
    }
  }

  lemma FullStack(place: seq<Place>, stack: seq<Ref>)
    requires |place| == |stack| + 1
    requires forall k :: 0 <= k < |place| ==> place[k] == Free(|stack| - k)
    requires forall k :: 0 <= k < |stack| ==> stack[k].val == |stack| - k
    ensures StackPlaces(place, stack)
  {
  }

  lemma NobodyHolds(place: seq<Place>, threads: seq<Pc>)
    requires forall k :: 0 <= k < |place| ==> place[k].Free?
    requires forall t :: 0 <= t < |threads| ==> threads[t].Idle?
    ensures RingPlaces(place, 1, [0]) && HandPlaces(place, threads) && DropPlaces(place, threads)
  {
  }

  lemma InitPlaces(depth: nat, mem: seq<Ref>, n: nat)
    requires depth > 0 && |mem| > 0
    ensures var s := Init(depth, mem, n); PlaceInv(s.place, s.p.stack, s.r.head, s.r.log, s.threads)
  {
    InitPoolInv(mem, 1);
    hide PoolInv; hide InitPool;
    var s := Init(depth, mem, n);
    hide StackPlaces; hide RingPlaces; hide HandPlaces; hide DropPlaces;
    FullStack(s.place, s.p.stack);
    NobodyHolds(s.place, s.threads);
  }

  lemma InitInv(depth: nat, mem: seq<Ref>, n: nat)
    requires depth > 0 && |mem| > 0
    ensures Inv(Init(depth, mem, n))
  {
    hide PoolInv; hide InitPool; hide PlaceInv; hide Below; hide RingInv; hide ThreadInv;
    InitPoolInv(mem, 1);
    InitPlaces(depth, mem, n);
    var s := Init(depth, mem, n);
    InitRing(s.r);
    forall t | 0 <= t < n ensures ThreadInv(s, t) { InitThread(s, t); }
  }

  lemma InitRing(r: Ring)
    requires r.depth > 0 && r == Ring(r.depth, seq(r.depth, _ => NULL), 1, 1, [0])
    ensures RingInv(r)
  {
  }

  lemma InitThread(s: State, t: nat)
    requires t < |s.threads| && s.threads[t].Idle?
    ensures ThreadInv(s, t)
  {
  }

  // ------------------------------------------------------------------ elements change place

  lemma HandsUnmoved(place: seq<Place>, threads: seq<Pc>, threads': seq<Pc>, t: nat)
    requires t < |threads| == |threads'| && threads' == threads[t := threads'[t]]
    requires HandPlaces(place, threads) && MsgOf(threads'[t]) == MsgOf(threads[t])
    ensures HandPlaces(place, threads')
  {
  }

  lemma DropsUnmoved(place: seq<Place>, threads: seq<Pc>, threads': seq<Pc>, t: nat)
    requires t < |threads| == |threads'| && threads' == threads[t := threads'[t]]
    requires DropPlaces(place, threads) && DropOf(threads'[t]) == DropOf(threads[t])
    ensures DropPlaces(place, threads')
  {
  }

  /** Element e moves from a free stack or hand or ring to a place of another kind; the two
      kinds it is not part of do not notice. */
  lemma OthersUnmoved(place: seq<Place>, e: nat, to: Place, stack: seq<Ref>, head: nat, log: seq<nat>, threads: seq<Pc>)
    requires 0 < e < |place|
    ensures StackPlaces(place, stack) && !place[e].Free? && !to.Free? ==> StackPlaces(place[e := to], stack)
    ensures RingPlaces(place, head, log) && !place[e].Live? && !to.Live? ==> RingPlaces(place[e := to], head, log)
    ensures HandPlaces(place, threads) && !place[e].InHand? && !to.InHand? ==> HandPlaces(place[e := to], threads)
    ensures DropPlaces(place, threads) && !place[e].Dropped? && !to.Dropped? ==> DropPlaces(place[e := to], threads)
  {
  }

  lemma PlaceAcquired(s: State, t: nat)
    requires PlaceInv(s.place, s.p.stack, s.r.head, s.r.log, s.threads)
    requires t < |s.threads| && AcquirePc(s.threads[t]) && s.p.stack != []
    ensures var e := s.p.stack[|s.p.stack| - 1].val;
      && 0 < e < |s.place|
      && PlaceInv(s.place[e := InHand(t)], s.p.stack[..|s.p.stack| - 1], s.r.head, s.r.log, s.threads[t := Fill(e)])
  {
    hide RingPlaces; hide DropPlaces; hide HandPlaces;
    var e := s.p.stack[|s.p.stack| - 1].val;
    assert s.place[e] == Free(|s.p.stack| - 1);
    OthersUnmoved(s.place, e, InHand(t), s.p.stack, s.r.head, s.r.log, s.threads);
    DropsUnmoved(s.place[e := InHand(t)], s.threads, s.threads[t := Fill(e)], t);
    HandTakes(s.place, s.threads, t, e);
  }

  lemma HandTakes(place: seq<Place>, threads: seq<Pc>, t: nat, e: nat)
    requires HandPlaces(place, threads) && t < |threads| && AcquirePc(threads[t]) && 0 < e < |place|
    requires !place[e].InHand?
    ensures HandPlaces(place[e := InHand(t)], threads[t := Fill(e)])
  {
    assert MsgOf(threads[t]) == 0 && MsgOf(Fill(e)) == e;
  }

  lemma PlaceAppended(s: State, t: nat, m: nat)
    requires PlaceInv(s.place, s.p.stack, s.r.head, s.r.log, s.threads) && s.r.head <= |s.r.log|
    requires t < |s.threads| && s.threads[t].Append? && s.threads[t].m == m > 0
    ensures m < |s.place|
    ensures PlaceInv(s.place[m := Live(|s.r.log|)], s.p.stack, s.r.head, s.r.log + [m],
      s.threads[t := Finish(s.threads[t].t)])
  {
    OthersUnmoved(s.place, m, Live(|s.r.log|), s.p.stack, s.r.head, s.r.log, s.threads);
    DropsUnmoved(s.place[m := Live(|s.r.log|)], s.threads, s.threads[t := Finish(s.threads[t].t)], t);
    hide StackPlaces; hide DropPlaces;
  }

  lemma PlaceDropped(s: State, t: nat, h: nat, e: nat)
    requires PlaceInv(s.place, s.p.stack, s.r.head, s.r.log, s.threads)
    requires t < |s.threads| && s.threads[t].DropCas? && h == s.r.head < |s.r.log| && e == s.r.log[h]
    ensures 0 < e < |s.place|
    ensures PlaceInv(s.place[e := Dropped(t)], s.p.stack, h + 1, s.r.log, s.threads[t := RelTag(s.threads[t].m, e)])
  {
    OthersUnmoved(s.place, e, Dropped(t), s.p.stack, s.r.head, s.r.log, s.threads);
    HandsUnmoved(s.place[e := Dropped(t)], s.threads, s.threads[t := RelTag(s.threads[t].m, e)], t);
    hide StackPlaces; hide HandPlaces;
  }

  lemma PlaceReleased(s: State, t: nat, e: nat)
    requires PlaceInv(s.place, s.p.stack, s.r.head, s.r.log, s.threads)
    requires t < |s.threads| && s.threads[t].RelCas? && s.threads[t].e == e > 0
    ensures e < |s.place|
    ensures PlaceInv(s.place[e := Free(|s.p.stack|)], s.p.stack + [Ref(s.threads[t].tag, e)], s.r.head, s.r.log,
                     s.threads[t := LoadHead(s.threads[t].m)])
  {
    OthersUnmoved(s.place, e, Free(|s.p.stack|), s.p.stack, s.r.head, s.r.log, s.threads);
    HandsUnmoved(s.place[e := Free(|s.p.stack|)], s.threads, s.threads[t := LoadHead(s.threads[t].m)], t);
    hide RingPlaces; hide HandPlaces;
  }

  // ------------------------------------------------------------------ the free stack

  /** A pop: whoever has read another reference of the stack has read it right. */
  lemma PoolPopped(p: Pool)
    requires PoolInv(p) && p.stack != []
    ensures var last := |p.stack| - 1;
      var p' := p.(head := Below(p.stack, last), stack := p.stack[..last]);
      && PoolInv(p')
      && forall pc ::
           (AcquireInv(p, pc) ==> AcquireInv(p', pc)) && (ReleaseInv(p, pc) ==> ReleaseInv(p', pc))
  {
    var last := |p.stack| - 1;
    var p' := p.(head := Below(p.stack, last), stack := p.stack[..last]);
    assert forall k: nat {:trigger Below(p'.stack, k)} :: k <= last ==> Below(p'.stack, k) == Below(p.stack, k);
    assert p'.head == Below(p'.stack, |p'.stack|);
  }

  /** A push under a tag never seen before: no reader can mistake it for what it has read. */
  lemma PoolPushed(p: Pool, tag: nat, e: nat)
    requires PoolInv(p) && 0 < tag <= p.tagNext && tag !in p.pushed && 0 < e < |p.link| && p.link[e] == p.head
    ensures var p' := p.(head := Ref(tag, e), stack := p.stack + [Ref(tag, e)], pushed := p.pushed + {tag});
      && PoolInv(p') && (forall pc :: AcquireInv(p, pc) ==> AcquireInv(p', pc))
      && (forall pc :: ReleaseInv(p, pc) && TagOf(pc) != tag ==> ReleaseInv(p', pc))
  {
    var p' := p.(head := Ref(tag, e), stack := p.stack + [Ref(tag, e)], pushed := p.pushed + {tag});
    assert forall k: nat {:trigger Below(p'.stack, k)} :: k <= |p.stack| ==> Below(p'.stack, k) == Below(p.stack, k);
    assert Below(p'.stack, |p.stack|) == p.head;
  }

  /** Writing to an element that is in somebody's hand. */
  lemma PoolScribbled(p: Pool, e: nat, w: Ref)
    requires PoolInv(p) && 0 < e < |p.link| && forall k :: 0 <= k < |p.stack| ==> p.stack[k].val != e
    ensures var p' := p.(link := p.link[e := w]);
      && PoolInv(p') && (forall pc :: AcquireInv(p, pc) ==> AcquireInv(p', pc))
      && (forall pc :: ReleaseInv(p, pc) && (pc.RelCas? ==> pc.e != e) ==> ReleaseInv(p', pc))
  {
  }

  lemma PoolTagged(p: Pool)
    requires PoolInv(p)
    ensures var p' := p.(tagNext := p.tagNext + 1);
      && PoolInv(p')
      && forall pc ::
           (AcquireInv(p, pc) ==> AcquireInv(p', pc)) && (ReleaseInv(p, pc) ==> ReleaseInv(p', pc))
    ensures p.tagNext + 1 !in p.pushed
  {
  }

  // ------------------------------------------------------------------ the ring

  /** Any slot holds the zero reference or an index that has been published. */
  lemma SlotTag(r: Ring, i: nat)
    requires RingInv(r)
    ensures SlotAt(r, i).tag < |r.log|
    ensures 1 <= i < |r.log| ==> SlotAt(r, i).tag >= i
    ensures i == |r.log| ==> SlotAt(r, i) == Content(r.log, i - r.depth)
    ensures 0 < SlotAt(r, i).tag < i ==> SlotAt(r, i).tag + r.depth <= i
  {
    var k := Representative(i, |r.log|, r.depth);
    assert r.slots[Pos(k, r.depth)] == Content(r.log, k);
    if k < i { LapApart(k, i, r.depth); }
  }

  /** Appending succeeds only at the next index, and only when the message it overwrites has
      been dropped. */
  lemma RingAppended(r: Ring, i: nat, cur: Ref, m: nat)
    requires RingInv(r) && 1 <= i <= r.tail && cur.tag < i && cur.tag < r.head && SlotAt(r, i) == cur
    ensures i == r.tail == |r.log| && |r.log| - r.depth < r.head <= |r.log|
    ensures var r' := r.(slots := r.slots[Pos(i, r.depth) := Ref(i, m)], log := r.log + [m]);
      RingInv(r') && forall pc :: PublishInv(r, pc) ==> PublishInv(r', pc)
  {
    SlotTag(r, i);
    var r' := r.(slots := r.slots[Pos(i, r.depth) := Ref(i, m)], log := r.log + [m]);
    forall k | |r'.log| - r.depth <= k < |r'.log| ensures r'.slots[Pos(k, r.depth)] == Content(r'.log, k) {
      if k < i {
        DistinctWithinLap(k, i, r.depth);
        assert r.slots[Pos(k, r.depth)] == Content(r.log, k);
      }
    }
  }

  lemma RingAdvanced(r: Ring)
    requires RingInv(r) && r.tail < |r.log|
    ensures var r' := r.(tail := r.tail + 1);
      RingInv(r') && forall pc :: PublishInv(r, pc) ==> PublishInv(r', pc)
  {
  }

  lemma RingDropped(r: Ring)
    requires RingInv(r) && r.head < |r.log|
    ensures var r' := r.(head := r.head + 1);
      RingInv(r') && forall pc :: PublishInv(r, pc) ==> PublishInv(r', pc)
  {
  }

  // ------------------------------------------------------------------ steps keep the invariant

  lemma TagsUnmoved(threads: seq<Pc>, threads': seq<Pc>, t: nat)
    requires TagsInv(threads) && t < |threads| == |threads'| && threads' == threads[t := threads'[t]]
    requires TagOf(threads'[t]) in {0, TagOf(threads[t])}
    ensures TagsInv(threads')
  {
  }

  /** The step changes pool and ring in a way that leaves other threads' knowledge true. */
  lemma Combine(s: State, s': State, t: nat)
    requires Inv(s) && t < |s.threads| == |s'.threads| && s'.threads == s.threads[t := s'.threads[t]]
    requires Sized(s') && PoolInv(s'.p) && RingInv(s'.r) && TagsInv(s'.threads)
    requires PlaceInv(s'.place, s'.p.stack, s'.r.head, s'.r.log, s'.threads)
    requires ThreadInv(s', t)
    requires forall u :: 0 <= u < |s.threads| && u != t ==>
      AcquireInv(s'.p, s.threads[u]) && ReleaseInv(s'.p, s.threads[u]) && PublishInv(s'.r, s.threads[u])
    ensures Inv(s')
  {
    forall u | 0 <= u < |s'.threads| ensures ThreadInv(s', u) {
      assert ThreadInv(s, u);
    }
  }

  /** A step that changes nothing but the thread's own place. */
  lemma OnlyMoves(s: State, t: nat, pc: Pc)
    requires Inv(s) && t < |s.threads|
    requires MsgOf(pc) == MsgOf(s.threads[t]) && DropOf(pc) == DropOf(s.threads[t])
    requires TagOf(pc) in {0, TagOf(s.threads[t])}
    requires Holds(pc) && AcquireInv(s.p, pc) && ReleaseInv(s.p, pc) && PublishInv(s.r, pc)
    ensures Inv(Goto(s, t, pc))
  {
    var s' := Goto(s, t, pc);
    HandsUnmoved(s.place, s.threads, s'.threads, t);
    DropsUnmoved(s.place, s.threads, s'.threads, t);
    TagsUnmoved(s.threads, s'.threads, t);
    forall u | 0 <= u < |s.threads| && u != t
      ensures AcquireInv(s'.p, s.threads[u]) && ReleaseInv(s'.p, s.threads[u]) && PublishInv(s'.r, s.threads[u])
    {
      assert ThreadInv(s, u);
    }
    hide PoolInv; hide RingInv; hide PlaceInv; hide TagsInv; hide AcquireInv; hide ReleaseInv; hide PublishInv;
    Combine(s, s', t);
  }

  /** What an acquirer reads next. */
  lemma AcquireReads(p: Pool, pc: Pc)
    requires PoolInv(p) && AcquireInv(p, pc)
    ensures Ref(p.head.tag, 0) == NULL || p.head.tag in p.pushed
    ensures pc.AcqLinkVal? ==> AcquireInv(p, AcqLinkTag(pc.cur, LinkAt(p.link, pc.cur.val).val))
    ensures pc.AcqLinkTag? ==> AcquireInv(p, AcqCas(pc.cur, Ref(LinkAt(p.link, pc.cur.val).tag, pc.v)))
    ensures pc.AcqCas? && p.head == pc.cur ==> p.stack != [] && pc.cur == p.stack[|p.stack| - 1]
    ensures pc.AcqCas? && p.head == pc.cur ==> pc.next == Below(p.stack, |p.stack| - 1)
  {
    if (pc.AcqLinkVal? || pc.AcqLinkTag?) {
      forall k | 0 <= k < |p.stack| && p.stack[k] == pc.cur ensures LinkAt(p.link, pc.cur.val) == Below(p.stack, k) {
        assert p.link[p.stack[k].val] == Below(p.stack, k);
      }
    }
  }

  lemma PopStep(s: State, t: nat)
    requires Inv(s) && t < |s.threads| && s.threads[t].AcqCas? && s.p.head == s.threads[t].cur
    ensures Inv(AcquireStep(s, t))
  {
    hide PoolInv; hide RingInv; hide PlaceInv; hide TagsInv;
    var s' := AcquireStep(s, t);
    assert ThreadInv(s, t);
    AcquireReads(s.p, s.threads[t]);
    PoolPopped(s.p);
    PlaceAcquired(s, t);
    TagsUnmoved(s.threads, s'.threads, t);
    forall u | 0 <= u < |s.threads| && u != t
      ensures AcquireInv(s'.p, s.threads[u]) && ReleaseInv(s'.p, s.threads[u]) && PublishInv(s'.r, s.threads[u])
    {
      assert ThreadInv(s, u);
    }
    Combine(s, s', t);
  }

  lemma AcquireInvStep(s: State, t: nat)
    requires Inv(s) && t < |s.threads| && AcquirePc(s.threads[t])
    ensures Inv(AcquireStep(s, t))
  {
    var s', pc := AcquireStep(s, t), s.threads[t];
    if pc.AcqCas? && s.p.head == pc.cur {
      PopStep(s, t);
    } else {
      assert ThreadInv(s, t);
      AcquireReads(s.p, pc);
      assert s' == Goto(s, t, s'.threads[t]);
      hide PoolInv; hide RingInv; hide PlaceInv; hide TagsInv; hide Below;
      OnlyMoves(s, t, s'.threads[t]);
    }
  }

  /** An element in hand is not on the stack, and no releaser has it. */
  lemma InHandAlone(s: State, t: nat, m: nat)
    requires Inv(s) && t < |s.threads| && m > 0 && (MsgOf(s.threads[t]) == m || DropOf(s.threads[t]) == m)
    ensures m < |s.place| && forall k :: 0 <= k < |s.p.stack| ==> s.p.stack[k].val != m
    ensures forall u :: 0 <= u < |s.threads| && u != t ==> DropOf(s.threads[u]) != m
  {
  }

  lemma FillStep(s: State, t: nat, msg: Ref)
    requires Inv(s) && t < |s.threads| && s.threads[t].Fill?
    ensures Inv(PublishStep(s, t, msg))
  {
    hide PoolInv; hide RingInv; hide TagsInv; hide HandPlaces; hide DropPlaces; hide StackPlaces; hide RingPlaces;
    var s', pc := PublishStep(s, t, msg), s.threads[t];
    assert ThreadInv(s, t);
    InHandAlone(s, t, pc.m);
    PoolScribbled(s.p, pc.m, msg);
    HandsUnmoved(s.place, s.threads, s'.threads, t);
    DropsUnmoved(s.place, s.threads, s'.threads, t);
    TagsUnmoved(s.threads, s'.threads, t);
    forall u | 0 <= u < |s.threads| && u != t
      ensures AcquireInv(s'.p, s.threads[u]) && ReleaseInv(s'.p, s.threads[u]) && PublishInv(s'.r, s.threads[u])
    {
      assert ThreadInv(s, u);
    }
    Combine(s, s', t);
  }

  lemma AppendStep(s: State, t: nat, msg: Ref)
    requires Inv(s) && t < |s.threads| && s.threads[t].Append? && SlotAt(s.r, s.threads[t].t) == s.threads[t].cur
    ensures Inv(PublishStep(s, t, msg))
  {
    hide PoolInv; hide RingInv; hide PlaceInv; hide TagsInv;
    var s', pc := PublishStep(s, t, msg), s.threads[t];
    assert ThreadInv(s, t);
    RingAppended(s.r, pc.t, pc.cur, pc.m);
    PlaceAppended(s, t, pc.m);
    TagsUnmoved(s.threads, s'.threads, t);
    forall u | 0 <= u < |s.threads| && u != t
      ensures AcquireInv(s'.p, s.threads[u]) && ReleaseInv(s'.p, s.threads[u]) && PublishInv(s'.r, s.threads[u])
    {
      assert ThreadInv(s, u);
    }
    Combine(s, s', t);
  }

  lemma DropStep(s: State, t: nat, msg: Ref)
    requires Inv(s) && t < |s.threads| && s.threads[t].DropCas? && s.r.head == s.threads[t].h
    ensures Inv(PublishStep(s, t, msg))
  {
    hide PoolInv; hide RingInv; hide PlaceInv; hide TagsInv;
    var s', pc := PublishStep(s, t, msg), s.threads[t];
    assert ThreadInv(s, t);
    PlaceDropped(s, t, pc.h, pc.v);
    RingDropped(s.r);
    TagsUnmoved(s.threads, s'.threads, t);
    forall u | 0 <= u < |s.threads| && u != t
      ensures AcquireInv(s'.p, s.threads[u]) && ReleaseInv(s'.p, s.threads[u]) && PublishInv(s'.r, s.threads[u])
    {
      assert ThreadInv(s, u);
    }
    Combine(s, s', t);
  }

  lemma TailMoves(s: State)
    requires Inv(s) && s.r.tail < |s.r.log|
    ensures Inv(s.(r := s.r.(tail := s.r.tail + 1)))
  {
    var s' := s.(r := s.r.(tail := s.r.tail + 1));
    RingAdvanced(s.r);
    hide PoolInv; hide RingInv; hide PlaceInv; hide TagsInv; hide PublishInv; hide AcquireInv; hide ReleaseInv;
    forall u | 0 <= u < |s'.threads| ensures ThreadInv(s', u) { assert ThreadInv(s, u); }
  }

  lemma AdvanceStep(s: State, t: nat, msg: Ref)
    requires Inv(s) && t < |s.threads| && (s.threads[t].Advance? || s.threads[t].Finish?) && s.r.tail == s.threads[t].t
    ensures Inv(PublishStep(s, t, msg))
  {
    hide PoolInv; hide PlaceInv; hide TagsInv; hide RingInv; hide Pos;
    assert ThreadInv(s, t);
    TailMoves(s);
    var s1, pc' := s.(r := s.r.(tail := s.r.tail + 1)), if s.threads[t].Advance? then LoadHead(s.threads[t].m)
        else Idle;
    assert PublishStep(s, t, msg) == Goto(s1, t, pc');
    OnlyMoves(s1, t, pc');
  }

  predicate PublishPc(pc: Pc) { !pc.Idle? && !AcquirePc(pc) && !ReleasePc(pc) }

  /** The loads of a publisher, and compare-and-swaps that fail. */
  lemma PublishMoves(s: State, t: nat, msg: Ref)
    requires Sized(s) && RingInv(s.r) && t < |s.threads| && PublishPc(s.threads[t]) && !s.threads[t].Fill?
    requires Holds(s.threads[t]) && PublishInv(s.r, s.threads[t])
    requires var pc := s.threads[t];
      && ((pc.Advance? || pc.Finish?) ==> s.r.tail != pc.t)
      && (pc.Append? ==> SlotAt(s.r, pc.t) != pc.cur) && (pc.DropCas? ==> s.r.head != pc.h)
    ensures var s' := PublishStep(s, t, msg); var pc' := s'.threads[t];
      && s' == Goto(s, t, pc') && PublishInv(s.r, pc') && Holds(pc')
      && MsgOf(pc') == MsgOf(s.threads[t]) && DropOf(pc') == 0 && TagOf(pc') == 0 && !AcquirePc(pc') && !ReleasePc(pc')
  {
    hide RingInv; hide Pos;
    var pc := s.threads[t];
    if pc.LoadTag? { SlotTag(s.r, pc.t); }
    RingReads(s.r);
  }

  lemma RingReads(r: Ring)
    requires RingInv(r)
    ensures 1 <= r.head && 1 <= r.tail <= |r.log| && (r.head < |r.log| ==> SlotAt(r, r.head).val == r.log[r.head])
  {
    if r.head < |r.log| { assert r.slots[Pos(r.head, r.depth)] == Content(r.log, r.head); }
  }

  lemma PublishInvStep(s: State, t: nat, msg: Ref)
    requires Inv(s) && t < |s.threads| && PublishPc(s.threads[t])
    ensures Inv(PublishStep(s, t, msg))
  {
    var pc := s.threads[t];
    if pc.Fill? { FillStep(s, t, msg); }
    else if (pc.Advance? || pc.Finish?) && s.r.tail == pc.t { AdvanceStep(s, t, msg); }
    else if pc.Append? && SlotAt(s.r, pc.t) == pc.cur { AppendStep(s, t, msg); }
    else if pc.DropCas? && s.r.head == pc.h { DropStep(s, t, msg); }
    else {
      assert ThreadInv(s, t);
      PublishMoves(s, t, msg);
      hide PublishStep; hide PoolInv; hide RingInv; hide PlaceInv; hide TagsInv; hide PublishInv;
      OnlyMoves(s, t, PublishStep(s, t, msg).threads[t]);
    }
  }

  /** A tag that nobody else has. */
  lemma TagDrawn(threads: seq<Pc>, t: nat, pc: Pc, tag: nat)
    requires TagsInv(threads) && t < |threads| && pc.RelTag?
    requires forall u :: 0 <= u < |threads| && u != t ==> TagOf(threads[u]) != tag
    ensures TagsInv(threads[t := RelVal(pc.m, pc.e, tag)])
  {
  }

  lemma TagStep(s: State, t: nat)
    requires Inv(s) && t < |s.threads| && s.threads[t].RelTag?
    ensures Inv(ReleaseStep(s, t))
  {
    hide PoolInv; hide TagsInv; hide RingInv; hide HandPlaces; hide DropPlaces; hide StackPlaces; hide RingPlaces;
    var s', pc := ReleaseStep(s, t), s.threads[t];
    assert ThreadInv(s, t);
    PoolTagged(s.p);
    HandsUnmoved(s.place, s.threads, s'.threads, t);
    DropsUnmoved(s.place, s.threads, s'.threads, t);
    forall u | 0 <= u < |s.threads| && u != t
      ensures AcquireInv(s'.p, s.threads[u]) && ReleaseInv(s'.p, s.threads[u]) && PublishInv(s'.r, s.threads[u])
      ensures TagOf(s.threads[u]) != s.p.tagNext + 1
    {
      assert ThreadInv(s, u);
    }
    TagDrawn(s.threads, t, pc, s.p.tagNext + 1);
    Combine(s, s', t);
  }

  lemma LinkStep(s: State, t: nat)
    requires Inv(s) && t < |s.threads| && s.threads[t].RelLink?
    ensures Inv(ReleaseStep(s, t))
  {
    hide PoolInv; hide RingInv; hide TagsInv; hide HandPlaces; hide DropPlaces; hide StackPlaces; hide RingPlaces;
    var s', pc := ReleaseStep(s, t), s.threads[t];
    assert ThreadInv(s, t);
    InHandAlone(s, t, pc.e);
    PoolScribbled(s.p, pc.e, pc.cur);
    HandsUnmoved(s.place, s.threads, s'.threads, t);
    DropsUnmoved(s.place, s.threads, s'.threads, t);
    TagsUnmoved(s.threads, s'.threads, t);
    forall u | 0 <= u < |s.threads| && u != t
      ensures AcquireInv(s'.p, s.threads[u]) && ReleaseInv(s'.p, s.threads[u]) && PublishInv(s'.r, s.threads[u])
    {
      assert ThreadInv(s, u);
    }
    Combine(s, s', t);
  }

  lemma PushStep(s: State, t: nat)
    requires Inv(s) && t < |s.threads| && s.threads[t].RelCas? && s.p.head == s.threads[t].cur
    ensures Inv(ReleaseStep(s, t))
  {
    var s', pc := ReleaseStep(s, t), s.threads[t];
    assert ThreadInv(s, t);
    PoolPushed(s.p, pc.tag, pc.e);
    PlaceReleased(s, t, pc.e);
    TagsUnmoved(s.threads, s'.threads, t);
    hide PoolInv; hide RingInv; hide PlaceInv;
    forall u | 0 <= u < |s.threads| && u != t
      ensures AcquireInv(s'.p, s.threads[u]) && ReleaseInv(s'.p, s.threads[u]) && PublishInv(s'.r, s.threads[u])
    {
      assert ThreadInv(s, u);
      assert TagOf(s.threads[u]) != TagOf(pc);
    }
    hide TagsInv;
    Combine(s, s', t);
  }

  lemma ReleaseInvStep(s: State, t: nat)
    requires Inv(s) && t < |s.threads| && ReleasePc(s.threads[t])
    ensures Inv(ReleaseStep(s, t))
  {
    var s', pc := ReleaseStep(s, t), s.threads[t];
    if pc.RelTag? { TagStep(s, t); }
    else if pc.RelLink? { LinkStep(s, t); }
    else if pc.RelCas? && s.p.head == pc.cur { PushStep(s, t); }
    else {
      assert ThreadInv(s, t);
      hide PoolInv; hide RingInv; hide PlaceInv; hide TagsInv;
      assert s' == Goto(s, t, s'.threads[t]);
      OnlyMoves(s, t, s'.threads[t]);
    }
  }

  lemma StepInv(s: State, ev: Event)
    requires Inv(s)
    ensures Inv(Step(s, ev))
  {
    if ev.t < |s.threads| {
      var pc := s.threads[ev.t];
      hide Inv; hide AcquireStep; hide ReleaseStep; hide PublishStep;
      if pc.Idle? { OnlyMoves(s, ev.t, AcqVal); }
      else if AcquirePc(pc) { AcquireInvStep(s, ev.t); }
      else if ReleasePc(pc) { ReleaseInvStep(s, ev.t); }
      else { PublishInvStep(s, ev.t, ev.msg); }
    }
  }

  /** The ring, the pool and the threads are those the run was started with. */
  predicate Made(depth: nat, mem: seq<Ref>, n: nat, s: State) {
    s.r.depth == depth && |s.place| == |mem| && |s.threads| == n
  }

  lemma StepShape(s: State, ev: Event)
    ensures var s' := Step(s, ev); s'.r.depth == s.r.depth && |s'.place| == |s.place| && |s'.threads| == |s.threads|
  {
  }

  lemma {:induction false} RunInv(depth: nat, mem: seq<Ref>, n: nat, evs: seq<Event>)
    requires depth > 0 && |mem| > 0
    ensures var s := Run(Init(depth, mem, n), evs); Inv(s) && Made(depth, mem, n, s)
    decreases |evs|
  {
    hide Inv; hide Step;
    if evs == [] {
      InitInv(depth, mem, n);
    } else {
      RunInv(depth, mem, n, evs[..|evs| - 1]);
      StepInv(Run(Init(depth, mem, n), evs[..|evs| - 1]), evs[|evs| - 1]);
      StepShape(Run(Init(depth, mem, n), evs[..|evs| - 1]), evs[|evs| - 1]);
    }
  }

  // ------------------------------------------------------------------ theorems

  ghost predicate Reachable(depth: nat, mem: seq<Ref>, n: nat, s: State) {
    depth > 0 && |mem| > 0 && exists evs :: s == Run(Init(depth, mem, n), evs)
  }

  lemma ReachableInv(depth: nat, mem: seq<Ref>, n: nat, s: State)
    requires Reachable(depth, mem, n, s)
    ensures Inv(s) && Made(depth, mem, n, s)
  {
    var evs :| s == Run(Init(depth, mem, n), evs);
    RunInv(depth, mem, n, evs);
  }

  predicate OnStack(s: State, e: nat) { exists k :: 0 <= k < |s.p.stack| && s.p.stack[k].val == e }
  predicate InRing(s: State, e: nat) { exists k :: s.r.head <= k < |s.r.log| && s.r.log[k] == e }
  predicate BeingPublished(s: State, e: nat) { exists t :: 0 <= t < |s.threads| && MsgOf(s.threads[t]) == e }
  predicate BeingReleased(s: State, e: nat) { exists t :: 0 <= t < |s.threads| && DropOf(s.threads[t]) == e }

  function Count(b: bool): nat { if b then 1 else 0 }

  /** In every run each element is in exactly one place: on the free stack, in a publisher's
      hand, in the ring's window, or in the hand of the thread that dropped it; and there once. */
  lemma ElementsConserved(depth: nat, mem: seq<Ref>, n: nat, s: State, e: nat)
    requires Reachable(depth, mem, n, s) && 0 < e < |mem|
    ensures Count(OnStack(s, e)) + Count(BeingPublished(s, e)) + Count(InRing(s, e)) + Count(BeingReleased(s, e)) == 1
    ensures forall j, k :: 0 <= j < k < |s.p.stack| ==> s.p.stack[j].val != s.p.stack[k].val
    ensures forall j, k :: s.r.head <= j < k < |s.r.log| ==> s.r.log[j] != s.r.log[k]
    ensures forall t, u :: 0 <= t < u < |s.threads| && MsgOf(s.threads[t]) == e ==> MsgOf(s.threads[u]) != e
    ensures forall t, u :: 0 <= t < u < |s.threads| && DropOf(s.threads[t]) == e ==> DropOf(s.threads[u]) != e
  {
    hide PoolInv; hide ThreadInv; hide TagsInv; hide RingInv; hide MsgOf; hide DropOf; hide Reachable;
    ReachableInv(depth, mem, n, s);
    match s.place[e]
    case Free(k) => assert s.p.stack[k].val == e;
    case InHand(t) => assert MsgOf(s.threads[t]) == e;
    case Live(k) => assert s.r.log[k] == e;
    case Dropped(t) => assert DropOf(s.threads[t]) == e;
  }

  /** The ring holds the last messages published, at most `depth` of them, each in its slot
      under its own index; the tail is at most one behind. */
  lemma RingHoldsTheWindow(depth: nat, mem: seq<Ref>, n: nat, s: State)
    requires Reachable(depth, mem, n, s)
    ensures s.r.depth == |s.r.slots| == depth
    ensures 1 <= s.r.head <= |s.r.log| <= s.r.head + depth
    ensures s.r.tail <= |s.r.log| <= s.r.tail + 1
    ensures forall k: nat :: s.r.head <= k < |s.r.log| ==> SlotAt(s.r, k) == Ref(k, s.r.log[k])
  {
    ReachableInv(depth, mem, n, s);
    forall k: nat | s.r.head <= k < |s.r.log| ensures SlotAt(s.r, k) == Ref(k, s.r.log[k]) {
      assert s.r.slots[Pos(k, s.r.depth)] == Content(s.r.log, k);
    }
  }

  /** Indices are published in order, one after the other, and never taken back; they are
      dropped in order. */
  lemma PublishedInOrder(s: State, ev: Event)
    requires Inv(s)
    ensures var s' := Step(s, ev);
      && s.r.log <= s'.r.log && |s'.r.log| <= |s.r.log| + 1
      && s.r.head <= s'.r.head <= s.r.head + 1 && s.r.tail <= s'.r.tail <= s.r.tail + 1
    ensures var s' := Step(s, ev);
      |s'.r.log| > |s.r.log| ==> ev.t < |s.threads| && s'.r.log == s.r.log + [MsgOf(s.threads[ev.t])]
  {
    hide PoolInv; hide PlaceInv; hide TagsInv; hide RingInv; hide Pos;
    if ev.t < |s.threads| { assert ThreadInv(s, ev.t); }
  }

  /** A message is dropped only when the ring is full. */
  lemma DropsOnlyWhenFull(depth: nat, mem: seq<Ref>, n: nat, s: State, ev: Event)
    requires Reachable(depth, mem, n, s)
    ensures Step(s, ev).r.head > s.r.head ==> |s.r.log| - s.r.head == depth
  {
    hide PoolInv; hide PlaceInv; hide TagsInv; hide Pos; hide Reachable;
    ReachableInv(depth, mem, n, s);
    if ev.t < |s.threads| { assert ThreadInv(s, ev.t); }
  }

  /** How broadcast_pub ends: without a message only when it has seen the pool empty, and otherwise
      after its element was appended to the log under the next index. */
  lemma PublishEnds(depth: nat, mem: seq<Ref>, n: nat, s: State, ev: Event)
    requires Reachable(depth, mem, n, s) && ev.t < n
    ensures |s.threads| == n == |Step(s, ev).threads|
    ensures var pc, pc' := s.threads[ev.t], Step(s, ev).threads[ev.t];
      && (pc'.Idle? && !pc.Idle? ==> pc.Finish? || s.p.stack == [])
      && (pc'.Finish? && pc' != pc ==>
            pc'.t == |s.r.log| && Step(s, ev).r.log == s.r.log + [MsgOf(pc)] && MsgOf(pc) > 0)
  {
    hide PoolInv; hide PlaceInv; hide TagsInv; hide Pos; hide Reachable; hide RingInv;
    ReachableInv(depth, mem, n, s);
    StepShape(s, ev);
    var pc := s.threads[ev.t];
    assert ThreadInv(s, ev.t);
    if pc.Append? && SlotAt(s.r, pc.t) == pc.cur { RingAppended(s.r, pc.t, pc.cur, pc.m); }
    if pc.AcqTag? { EmptyIsNull(s.p); }
  }

  lemma EmptyIsNull(p: Pool)
    requires PoolInv(p)
    ensures p.head.tag == 0 ==> p.stack == []
  {
  }

  // ---- what is in a message

  /** The message that thread t was last given to publish, as it was when t copied it. */
  ghost function Gave(o: State, evs: seq<Event>, t: nat): Ref
    decreases |evs|
  {
    if evs == [] then NULL
    else
      var s, ev := Run(o, evs[..|evs| - 1]), evs[|evs| - 1];
      if ev.t == t && t < |s.threads| && s.threads[t].Fill? then ev.msg else Gave(o, evs[..|evs| - 1], t)
  }

  /** The messages published, by index, as their publishers were given them. */
  ghost function Given(o: State, evs: seq<Event>): seq<Ref>
    decreases |evs|
  {
    if evs == [] then [NULL]
    else
      var prev, ev := evs[..|evs| - 1], evs[|evs| - 1];
      if |Run(o, evs).r.log| > |Run(o, prev).r.log| then Given(o, prev) + [Gave(o, prev, ev.t)] else Given(o, prev)
  }

  /** Element m holds what thread t was given. */
  ghost predicate HandIntact(link: seq<Ref>, pc: Pc, gave: Ref) {
    MsgOf(pc) > 0 && !pc.Fill? ==> MsgOf(pc) < |link| && link[MsgOf(pc)] == gave
  }

  /** The messages in the window are as they were given. */
  ghost predicate WindowIntact(link: seq<Ref>, head: nat, log: seq<nat>, given: seq<Ref>) {
    |given| == |log| && forall k: nat :: head <= k < |log| ==> log[k] < |link| && link[log[k]] == given[k]
  }

  /** A step writes only to the element its thread fills or releases. */
  lemma StepWrites(s: State, ev: Event)
    requires Inv(s)
    ensures var s' := Step(s, ev);
      && |s'.p.link| == |s.p.link|
      && (s'.p.link == s.p.link
          || (ev.t < |s.threads| && s.threads[ev.t].Fill? && s.threads[ev.t].m < |s.p.link|
              && s'.p.link == s.p.link[s.threads[ev.t].m := ev.msg])
          || (ev.t < |s.threads| && s.threads[ev.t].RelLink? && s.threads[ev.t].e < |s.p.link|
              && s'.p.link == s.p.link[s.threads[ev.t].e := s.threads[ev.t].cur]))
  {
    hide PoolInv; hide PlaceInv; hide TagsInv; hide Pos; hide RingInv;
    if ev.t < |s.threads| { assert ThreadInv(s, ev.t); }
  }

  /** What a step does to the window and to the hand of its thread. */
  lemma StepHands(s: State, ev: Event)
    requires Inv(s) && ev.t < |s.threads|
    ensures var s' := Step(s, ev);
      && |s'.threads| == |s.threads| && s'.threads == s.threads[ev.t := s'.threads[ev.t]]
      && s.r.head <= s'.r.head
      && (s'.r.log == s.r.log ||
          (s.threads[ev.t].Append? && s'.r.log == s.r.log + [MsgOf(s.threads[ev.t])]))
      && (MsgOf(s'.threads[ev.t]) > 0 && !s'.threads[ev.t].Fill? ==>
            MsgOf(s.threads[ev.t]) == MsgOf(s'.threads[ev.t]))
      && (s.threads[ev.t].Fill? ==>
            s.threads[ev.t].m < |s.p.link| && s'.p.link == s.p.link[s.threads[ev.t].m := ev.msg])
  {
    hide PoolInv; hide TagsInv; hide Pos; hide RingInv; hide StackPlaces; hide RingPlaces; hide DropPlaces;
    assert ThreadInv(s, ev.t);
    assert s.threads[ev.t := s.threads[ev.t]] == s.threads;
  }

  /** The element a step writes to is nobody else's, and not in the window. */
  lemma WrittenAlone(s: State, t: nat, m: nat)
    requires Inv(s) && t < |s.threads| && m > 0 && (MsgOf(s.threads[t]) == m || DropOf(s.threads[t]) == m)
    ensures forall k: nat :: s.r.head <= k < |s.r.log| ==> s.r.log[k] != m
    ensures forall u :: 0 <= u < |s.threads| && u != t ==> MsgOf(s.threads[u]) != m
    ensures DropOf(s.threads[t]) == m ==> MsgOf(s.threads[t]) != m
  {
    hide PoolInv; hide TagsInv; hide RingInv;
  }

  lemma IntactStep(s: State, ev: Event, u: nat, gave: Ref, mine: Ref, given: seq<Ref>)
    requires Inv(s) && u < |s.threads| && HandIntact(s.p.link, s.threads[u], gave)
    requires WindowIntact(s.p.link, s.r.head, s.r.log, given)
    requires ev.t < |s.threads| ==> HandIntact(s.p.link, s.threads[ev.t], mine)
    ensures var s' := Step(s, ev);
      && |s'.threads| == |s.threads|
      && HandIntact(s'.p.link, s'.threads[u], if ev.t == u && s.threads[u].Fill? then ev.msg else gave)
      && WindowIntact(s'.p.link, s'.r.head, s'.r.log, if |s'.r.log| > |s.r.log| then given + [mine] else given)
  {
    hide Inv; hide Step;
    StepWrites(s, ev);
    if ev.t < |s.threads| {
      StepHands(s, ev);
      var pc := s.threads[ev.t];
      HoldsOne(s, ev.t);
      if pc.Fill? { WrittenAlone(s, ev.t, pc.m); }
      else if pc.RelLink? { WrittenAlone(s, ev.t, pc.e); }
    } else {
      StepShape(s, ev);
      assert Step(s, ev) == s by { StepElsewhere(s, ev); }
    }
  }

  lemma StepElsewhere(s: State, ev: Event)
    requires ev.t >= |s.threads|
    ensures Step(s, ev) == s
  {
  }

  lemma HoldsOne(s: State, t: nat)
    requires Inv(s) && t < |s.threads|
    ensures s.threads[t].Fill? || s.threads[t].Append? ==> MsgOf(s.threads[t]) > 0
    ensures s.threads[t].RelLink? ==> s.threads[t].e > 0
  {
    assert ThreadInv(s, t);
  }

  lemma {:induction false} IntactRun(depth: nat, mem: seq<Ref>, n: nat, evs: seq<Event>, t: nat)
    requires depth > 0 && |mem| > 0
    ensures var o := Init(depth, mem, n); var s := Run(o, evs);
      && |s.threads| == n
      && (t < n ==> HandIntact(s.p.link, s.threads[t], Gave(o, evs, t)))
      && WindowIntact(s.p.link, s.r.head, s.r.log, Given(o, evs))
    decreases |evs|
  {
    hide Inv; hide Step; hide HandIntact; hide WindowIntact;
    var o := Init(depth, mem, n);
    RunInv(depth, mem, n, evs);
    if evs == [] {
      NothingGiven(depth, mem, n, t);
    } else {
      var prev, ev := evs[..|evs| - 1], evs[|evs| - 1];
      var s := Run(o, prev);
      RunInv(depth, mem, n, prev);
      IntactRun(depth, mem, n, prev, t);
      if t < n {
        if ev.t < n { IntactRun(depth, mem, n, prev, ev.t); }
        IntactStep(s, ev, t, Gave(o, prev, t), Gave(o, prev, ev.t), Given(o, prev));
      } else if ev.t < n {
        IntactRun(depth, mem, n, prev, ev.t);
        IntactStep(s, ev, ev.t, Gave(o, prev, ev.t), Gave(o, prev, ev.t), Given(o, prev));
      } else {
        StepElsewhere(s, ev);
      }
    }
  }

  lemma NothingGiven(depth: nat, mem: seq<Ref>, n: nat, t: nat)
    requires |mem| > 0
    ensures var s := Init(depth, mem, n);
      && |s.threads| == n && (t < n ==> HandIntact(s.p.link, s.threads[t], NULL))
      && WindowIntact(s.p.link, s.r.head, s.r.log, [NULL])
  {
  }

  /** In every run the element of every message in the window still holds what its publisher was
      given: neither the pool nor another publisher writes to it before it is dropped. */
  lemma WindowHoldsGiven(depth: nat, mem: seq<Ref>, n: nat, evs: seq<Event>, k: nat)
    requires depth > 0 && |mem| > 0
    ensures var s, given := Run(Init(depth, mem, n), evs), Given(Init(depth, mem, n), evs);
      && |given| == |s.r.log|
      && (s.r.head <= k < |s.r.log| ==> s.r.log[k] < |s.p.link| && s.p.link[s.r.log[k]] == given[k])
  {
    hide Run; hide Given; hide Init;
    IntactRun(depth, mem, n, evs, 0);
  }

  /** What an acquirer that is about to succeed has read. */
  lemma AcquireReadTop(s: State, t: nat)
    requires Inv(s) && t < |s.threads| && s.threads[t].AcqCas? && s.p.head == s.threads[t].cur
    ensures Sized(s) && s.p.stack != []
    ensures var last := |s.p.stack| - 1;
      && s.threads[t].cur == s.p.stack[last] && 0 < s.p.stack[last].val < |s.place|
      && s.threads[t].next == Below(s.p.stack, last)
  {
    hide PlaceInv; hide RingInv; hide TagsInv; hide ReleaseInv; hide PublishInv;
    assert ThreadInv(s, t);
    AcquireReads(s.p, s.threads[t]);
  }

  /** A compare-and-swap of the stack's head that succeeds in pool_acquire takes the top
      element and leaves the rest of the stack: tags rule out a stack that changed in between. */
  lemma AcquireTakesTop(depth: nat, mem: seq<Ref>, n: nat, s: State, t: nat, msg: Ref)
    requires Reachable(depth, mem, n, s) && t < n
    ensures |s.threads| == n
    ensures s.threads[t].AcqCas? && s.p.head == s.threads[t].cur ==>
      var s' := Step(s, Event(t, msg));
      && s.p.stack != [] && s'.threads[t] == Fill(s.p.stack[|s.p.stack| - 1].val)
      && s'.p.stack == s.p.stack[..|s.p.stack| - 1]
      && s'.p.head == Below(s'.p.stack, |s'.p.stack|)
  {
    hide Inv; hide Reachable;
    ReachableInv(depth, mem, n, s);
    if s.threads[t].AcqCas? && s.p.head == s.threads[t].cur { AcquireReadTop(s, t); }
  }

  /** pool_acquire gives up only when it has seen the stack empty. */
  lemma GiveUpMeansEmpty(depth: nat, mem: seq<Ref>, n: nat, s: State, t: nat, msg: Ref)
    requires Reachable(depth, mem, n, s) && t < n
    ensures |s.threads| == n
    ensures s.threads[t].AcqTag? && Step(s, Event(t, msg)).threads[t].Idle? ==> s.p.stack == []
  {
    hide Reachable; hide PlaceInv; hide RingInv; hide TagsInv;
    ReachableInv(depth, mem, n, s);
  }

  /** pool_mem_init: the elements are released from the last to the first, each release
      uncontended; mem[e] is the first 16 bytes of element e.  What comes out is the initial
      pool, a stack of all elements with the first on top. */
  method PoolMemInit(mem: array<Ref>) returns (head: Ref, tagNext: nat)
    requires mem.Length > 0
    modifies mem
    ensures var p := InitPool(old(mem[..]), 1); head == p.head && tagNext == p.tagNext && mem[..] == p.link
  {
    ghost var was := mem[..];
    head, tagNext := NULL, 0;
    var i := mem.Length;
    while i > 1
      invariant 1 <= i <= mem.Length
      invariant var p := InitPool(was, i); head == p.head && tagNext == p.tagNext && mem[..] == p.link
    {
      i := i - 1;
      tagNext := tagNext + 1;
      mem[i] := head;
      head := Ref(tagNext, i);
    }
  }
}
