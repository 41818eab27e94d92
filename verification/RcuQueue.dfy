/** The queue of rcu_queue/rcu_queue.c: a linked queue in the style of Michael and
    Scott whose tail may lag, with quiescent-state based reclamation of the nodes it
    releases.

    Each atomic access is one step and a run is any schedule.  Nodes are numbered in
    the order in which they are linked, node 0 being the initial dummy; memory is not
    reused, so a node that has been freed stays freed, and `bad` records that some
    thread touched a freed node or freed one twice. */
module RcuQueue {

  type Val = int

  const NULL := -1

  datatype Node = Node(value: Val, next: int)

  /** Where a node that has left the queue is: in the hand of the thread that popped it,
      in one of the two global lists, in the hand of the thread that is ending a grace
      period (moving from the second list to the first, or about to be freed), or freed. */
  datatype Place = Hand(t: nat) | First | Second | Moving(t: nat) | Doomed(t: nat) | Gone

  datatype Pc =
    | Idle
    // qsbr_queue_push
    | PushLoad(v: Val)
    | PushLink(v: Val, tail: nat)
    | PushHelp(v: Val, tail: nat, next: nat)
    | PushSwing(tail: nat, node: nat)
    // qsbr_queue_pop
    | PopLoad
    | PopNext(head: nat)
    | PopCas(head: nat, next: nat)
    | PopValue(head: nat, next: nat)
    // qsbr_free
    | FreeFirst(e: nat)
    | FreeEpoch
    | FreeCount(seen: nat)
    | FreeAdvance(seen: nat)
    | FreeLoad(e: nat)
    | FreePush(e: nat, list: seq<nat>)
    // qsbr_quiescent
    | QuietLoad
    | QuietSub(seen: nat)
    | EndTake(seen: nat)
    | EndLoad(seen: nat, doomed: seq<nat>)
    | EndSteal(seen: nat, doomed: seq<nat>, list: seq<nat>)
    | EndStore(seen: nat, doomed: seq<nat>, list: seq<nat>)
    | EndClear(seen: nat, doomed: seq<nat>)
    | EndCount(seen: nat, doomed: seq<nat>)
    | EndAdvance(seen: nat, doomed: seq<nat>)
    // free_qsbr_nodes
    | Freeing(doomed: seq<nat>)

  /** The queue.  `pushed` and `popped` are history: the values in push order, and the
      value each pop delivered, by the node it popped. */
  datatype Queue = Queue(nodes: seq<Node>, head: nat, tail: nat, pushed: seq<Val>, popped: map<nat, Val>)

  /** The reclamation state.  A list of entries is named by its head pointer; the links
      behind it do not change while it is in use and an entry is on at most one list, so
      equal pointers mean equal lists.  `admin` is the thread that is starting or ending a
      grace period, if any. */
  datatype Reclaim = Reclaim(
    epoch: nat, remaining: int, first: seq<nat>, second: seq<nat>,
    freed: set<nat>, place: map<nat, Place>, admin: int)

  /** `guarded` says whether callers hand a node to qsbr_free only once the queue's tail has
      left it; `local` holds the threads' own epochs. */
  datatype State = State(guarded: bool, q: Queue, r: Reclaim, bad: bool, local: seq<nat>, threads: seq<Pc>)

  datatype Cmd = Push(v: Val) | Pop | Quiesce
  datatype Event = Event(t: nat, cmd: Cmd)

  // ------------------------------------------------------------------ steps

  predicate QueuePc(pc: Pc) {
    pc.PushLoad? || pc.PushLink? || pc.PushHelp? || pc.PushSwing? ||
    pc.PopLoad? || pc.PopNext? || pc.PopCas? || pc.PopValue?
  }

  predicate FreePc(pc: Pc) {
    pc.FreeFirst? || pc.FreeEpoch? || pc.FreeCount? || pc.FreeAdvance? || pc.FreeLoad? || pc.FreePush?
  }

  /** Dereferencing a freed node is what must not happen. */
  function Touch(s: State, x: nat): State {
    s.(bad := s.bad || x in s.r.freed)
  }

  function Goto(s: State, t: nat, pc: Pc): State
    requires t < |s.threads|
  {
    s.(threads := s.threads[t := pc])
  }

  function QueueStep(s: State, t: nat): State
    requires t < |s.threads| && QueuePc(s.threads[t])
  {
    match s.threads[t]
    case PushLoad(v) => Goto(s, t, PushLink(v, s.q.tail))
    case PushLink(v, tail) =>
      var s1 := Touch(s, tail);
      if tail >= |s.q.nodes| then s
      else if s.q.nodes[tail].next == NULL then
        Goto(s1.(q := s.q.(nodes := s.q.nodes[tail := s.q.nodes[tail].(next := |s.q.nodes|)] + [Node(v, NULL)],
                           pushed := s.q.pushed + [v])),
             t, PushSwing(tail, |s.q.nodes|))
      else if s.q.nodes[tail].next < 0 then s
      else Goto(s1, t, PushHelp(v, tail, s.q.nodes[tail].next))
    case PushHelp(v, tail, next) =>
      if s.q.tail == tail then Goto(s.(q := s.q.(tail := next)), t, PushLink(v, tail))
      else Goto(s, t, PushLink(v, s.q.tail))
    case PushSwing(tail, node) =>
      Goto(if s.q.tail == tail then s.(q := s.q.(tail := node)) else s, t, Idle)
    case PopLoad => Goto(s, t, PopNext(s.q.head))
    case PopNext(head) =>
      var s1 := Touch(s, head);
      if head >= |s.q.nodes| then s
      else if s.q.nodes[head].next < 0 then Goto(s1, t, Idle)
      else Goto(s1, t, PopCas(head, s.q.nodes[head].next))
    case PopCas(head, next) =>
      if s.q.head == head then
        Goto(s.(q := s.q.(head := next), r := s.r.(place := s.r.place[head := Hand(t)])), t, PopValue(head, next))
      else Goto(s, t, PopNext(s.q.head))
    case PopValue(head, next) =>
      if next >= |s.q.nodes| then s
      else
        Goto(Touch(s, next).(q := s.q.(popped := s.q.popped[head := s.q.nodes[next].value])), t, FreeFirst(head))
  }

  function FreeStep(s: State, t: nat): State
    requires t < |s.threads| == |s.local| && FreePc(s.threads[t])
  {
    match s.threads[t]
    case FreeFirst(e) =>
      if s.guarded && s.q.tail == e then s
      else if s.r.first == [] then
        Goto(Touch(s, e).(r := s.r.(first := [e], place := s.r.place[e := First], admin := t)), t, FreeEpoch)
      else Goto(Touch(s, e), t, FreeLoad(e))
    case FreeEpoch => Goto(s, t, FreeCount(s.r.epoch))
    case FreeCount(seen) => Goto(s.(r := s.r.(remaining := |s.threads| - 1)), t, FreeAdvance(seen))
    case FreeAdvance(seen) =>
      Goto(s.(r := s.r.(epoch := seen + 1, admin := NULL), local := s.local[t := seen + 1]), t, Idle)
    case FreeLoad(e) => Goto(Touch(s, e), t, FreePush(e, s.r.second))
    case FreePush(e, list) =>
      if s.r.second == list then
        Goto(s.(r := s.r.(second := [e] + list, place := s.r.place[e := Second])), t, Idle)
      else Goto(Touch(s, e), t, FreePush(e, s.r.second))
  }

  /** When the first list is overwritten its entries belong to the thread that ends the
      grace period, and the entries it took from the second list become the first. */
  function Handover(place: map<nat, Place>, t: nat): map<nat, Place> {
    map x | x in place ::
      if place[x].First? then Doomed(t) else if place[x] == Moving(t) then First else place[x]
  }

  /** All entries of the second list go to thread t. */
  function Steal(place: map<nat, Place>, t: nat): map<nat, Place> {
    map x | x in place :: if place[x].Second? then Moving(t) else place[x]
  }

  function QuietStep(s: State, t: nat): State
    requires t < |s.threads| == |s.local| && !QueuePc(s.threads[t]) && !FreePc(s.threads[t]) && !s.threads[t].Idle?
  {
    match s.threads[t]
    case QuietLoad => Goto(s, t, if s.r.epoch == s.local[t] then Idle else QuietSub(s.r.epoch))
    case QuietSub(seen) =>
      if s.r.remaining == 1 then Goto(s.(r := s.r.(remaining := 0, admin := t)), t, EndTake(seen))
      else Goto(s.(r := s.r.(remaining := s.r.remaining - 1), local := s.local[t := seen]), t, Idle)
    case EndTake(seen) => Goto(s, t, EndLoad(seen, s.r.first))
    case EndLoad(seen, doomed) =>
      Goto(s, t, if s.r.second == [] then EndClear(seen, doomed) else EndSteal(seen, doomed, s.r.second))
    case EndSteal(seen, doomed, list) =>
      if s.r.second == list then
        Goto(s.(r := s.r.(second := [], place := Steal(s.r.place, t))), t, EndStore(seen, doomed, list))
      else Goto(s, t, EndSteal(seen, doomed, s.r.second))
    case EndStore(seen, doomed, list) =>
      Goto(s.(r := s.r.(first := list, place := Handover(s.r.place, t))), t, EndCount(seen, doomed))
    case EndClear(seen, doomed) =>
      Goto(s.(r := s.r.(first := [], place := Handover(s.r.place, t), admin := NULL), local := s.local[t := seen]),
           t, Freeing(doomed))
    case EndCount(seen, doomed) => Goto(s.(r := s.r.(remaining := |s.threads| - 1)), t, EndAdvance(seen, doomed))
    case EndAdvance(seen, doomed) =>
      Goto(s.(r := s.r.(epoch := seen + 1, admin := NULL), local := s.local[t := seen + 1]), t, Freeing(doomed))
    case Freeing(doomed) =>
      if doomed == [] then Goto(s, t, Idle)
      else Goto(Touch(s, doomed[0]).(r := s.r.(freed := s.r.freed + {doomed[0]},
          place := s.r.place[doomed[0] := Gone])),
                t, Freeing(doomed[1..]))
  }

  function Step(s: State, ev: Event): State {
    if !(ev.t < |s.threads| == |s.local|) then s
    else
      var pc := s.threads[ev.t];
      if pc.Idle? then
        Goto(s, ev.t, match ev.cmd case Push(v) => PushLoad(v) case Pop => PopLoad case Quiesce => QuietLoad)
      else if QueuePc(pc) then QueueStep(s, ev.t)
      else if FreePc(pc) then FreeStep(s, ev.t)
      else QuietStep(s, ev.t)
  }

  /** n threads on an empty queue. */
  function Init(n: nat, guarded: bool): State {
    State(guarded, Queue([Node(0, NULL)], 0, 0, [], map[]), Reclaim(0, 0, [], [], {}, map[], NULL), false,
          seq(n, _ => 0), seq(n, _ => Idle))
  }

  function Run(s: State, evs: seq<Event>): State
    decreases |evs|
  {
    if evs == [] then s else Step(Run(s, evs[..|evs| - 1]), evs[|evs| - 1])
  }

  // -------------------------------------------------------------- invariant

  /** The nodes a thread holds pointers to in a queue operation. */
  function Refs(pc: Pc): set<nat> {
    match pc
    case PushLink(_, tail) => {tail}
    case PushHelp(_, tail, next) => {tail, next}
    case PushSwing(tail, node) => {tail, node}
    case PopNext(head) => {head}
    case PopCas(head, next) => {head, next}
    case PopValue(_, next) => {next}
    case _ => {}
  }

  /** The popped node a thread has in hand, or none. */
  function InHand(pc: Pc): int {
    match pc
    case PopValue(head, _) => head
    case FreeFirst(e) => e
    case FreeLoad(e) => e
    case FreePush(e, _) => e
    case _ => NULL
  }

  predicate Starter(pc: Pc) { pc.FreeEpoch? || pc.FreeCount? || pc.FreeAdvance? }

  /** Ending a grace period, while the first list still holds its entries. */
  predicate EnderEarly(pc: Pc) { pc.EndTake? || pc.EndLoad? || pc.EndSteal? || pc.EndStore? || pc.EndClear? }

  predicate EnderLate(pc: Pc) { pc.EndCount? || pc.EndAdvance? }

  /** The linked list: node i is followed by node i + 1, and the tail is at most one behind. */
  ghost predicate QueueInv(q: Queue) {
    && q.head < |q.nodes| && q.tail < |q.nodes| <= q.tail + 2
    && (forall i :: 0 <= i < |q.nodes| ==> q.nodes[i].next == if i + 1 < |q.nodes| then i + 1 else NULL)
    && |q.pushed| == |q.nodes| - 1 && (forall i :: 0 <= i < |q.pushed| ==> q.pushed[i] == q.nodes[i + 1].value)
    && (forall h :: h in q.popped ==> h < |q.pushed| && q.popped[h] == q.pushed[h])
  }

  ghost predicate QueuePcInv(q: Queue, pc: Pc) {
    match pc
    case PushLink(_, tail) => tail <= q.tail
    case PushHelp(_, tail, next) => tail <= q.tail && next == tail + 1 < |q.nodes|
    case PushSwing(tail, node) => tail <= q.tail && node == tail + 1 < |q.nodes|
    case PopNext(head) => head <= q.head
    case PopCas(head, next) => head <= q.head && next == head + 1 < |q.nodes|
    case PopValue(head, next) => next == head + 1 <= q.head
    case FreeLoad(e) => e < q.tail
    case FreePush(e, _) => e < q.tail
    case _ => true
  }

  ghost predicate Distinct(list: seq<nat>) {
    forall j, k :: 0 <= j < k < |list| ==> list[j] != list[k]
  }

  /** A list holds, once each, exactly the nodes that are in the given place. */
  ghost predicate Lists(place: map<nat, Place>, list: seq<nat>, where: Place) {
    Distinct(list) && forall x :: x in list <==> x in place && place[x] == where
  }

  /** The nodes that have left the queue, and where they are. */
  ghost predicate PlaceInv(r: Reclaim, head: nat, tail: nat) {
    && (forall x: nat :: x in r.place <==> x < head)
    && (forall x :: x in r.place && !r.place[x].Hand? ==> x < tail)
    && Lists(r.place, r.first, First)
    && Lists(r.place, r.second, Second)
    && (forall x :: x in r.freed <==> x in r.place && r.place[x] == Gone)
  }

  /** What a thread's position says about the places of nodes. */
  ghost predicate PlacePcInv(s: State, t: nat, pc: Pc) {
    && (InHand(pc) >= 0 ==> InHand(pc) in s.r.place && s.r.place[InHand(pc)] == Hand(t))
    && (pc.EndLoad? || pc.EndSteal? || pc.EndStore? || pc.EndClear? ==> pc.doomed == s.r.first)
    && (if pc.EndStore? then Lists(s.r.place, pc.list, Moving(t)) && pc.list != []
        else forall x :: x in s.r.place ==> s.r.place[x] != Moving(t))
    && (pc.EndSteal? ==> pc.list != [] && s.r.second != [])
    && (if EnderLate(pc) || pc.Freeing? then Lists(s.r.place, pc.doomed, Doomed(t))
        else forall x :: x in s.r.place ==> s.r.place[x] != Doomed(t))
  }

  /** How many threads have not yet gone through a quiescent point in this epoch. */
  ghost function Lag(local: seq<nat>, epoch: nat): nat {
    if local == [] then 0
    else Lag(local[..|local| - 1], epoch) + if local[|local| - 1] == epoch then 0 else 1
  }

  /** The grace-period protocol. */
  ghost predicate EpochInv(s: State) {
    && |s.local| == |s.threads| >= 2
    && (forall t :: 0 <= t < |s.local| ==> s.local[t] <= s.r.epoch)
    && (s.r.admin == NULL || 0 <= s.r.admin < |s.threads|)
    && (s.r.admin == NULL ==>
          if s.r.first == [] then forall t :: 0 <= t < |s.local| ==> s.local[t] == s.r.epoch
          else s.r.remaining == Lag(s.local, s.r.epoch) >= 1)
    && (s.r.admin != NULL ==>
          && s.r.first != []
          && (forall t :: 0 <= t < |s.local| && t != s.r.admin ==> s.local[t] == s.r.epoch)
          && (Starter(s.threads[s.r.admin]) || EnderEarly(s.threads[s.r.admin]) || EnderLate(s.threads[s.r.admin])))
  }

  ghost predicate EpochPcInv(s: State, t: nat, pc: Pc)
    requires t < |s.local|
  {
    && (Starter(pc) || EnderEarly(pc) || EnderLate(pc) ==> s.r.admin == t)
    && (Starter(pc) ==> s.local[t] == s.r.epoch)
    && (pc.FreeCount? || pc.FreeAdvance? || pc.QuietSub? || EnderEarly(pc) || EnderLate(pc) ==> pc.seen == s.r.epoch)
    && (pc.QuietSub? || EnderEarly(pc) || EnderLate(pc) ==> s.local[t] != s.r.epoch)
    && (pc.FreeAdvance? || pc.EndAdvance? ==> s.r.remaining == |s.threads| - 1)
  }

  /** A thread can no longer hold, or come to hold, a pointer into the first list: it has
      been through a quiescent point since those nodes became unreachable. */
  predicate Cleared(s: State, t: nat)
    requires t < |s.local| == |s.threads| && -1 <= s.r.admin < |s.threads|
  {
    if s.r.admin == NULL then s.local[t] == s.r.epoch else EnderEarly(s.threads[s.r.admin])
  }

  /** Nodes in this place lie behind every pointer thread t holds or can load. */
  predicate OutOfReach(s: State, t: nat, where: Place)
    requires t < |s.local| == |s.threads| && -1 <= s.r.admin < |s.threads|
  {
    where.Doomed? || where.Gone? || (where.First? && Cleared(s, t))
  }

  ghost predicate RefsInv(s: State, t: nat, pc: Pc)
    requires t < |s.local| == |s.threads| && -1 <= s.r.admin < |s.threads|
  {
    forall r, x :: r in Refs(pc) && x in s.r.place && OutOfReach(s, t, s.r.place[x]) ==> x < r
  }

  ghost predicate ThreadInv(s: State, t: nat, pc: Pc)
    requires t < |s.local| == |s.threads| && -1 <= s.r.admin < |s.threads|
  {
    QueuePcInv(s.q, pc) && PlacePcInv(s, t, pc) && EpochPcInv(s, t, pc) && RefsInv(s, t, pc)
  }

  ghost predicate Inv(s: State) {
    && s.guarded && !s.bad
    && QueueInv(s.q) && PlaceInv(s.r, s.q.head, s.q.tail) && EpochInv(s)
    && (forall t :: 0 <= t < |s.threads| ==> ThreadInv(s, t, s.threads[t]))
  }

  // ----------------------------------------------------------- queue steps

  /** A queue operation moves only the queue; at most it adds a popped node to the
      hand of its thread. */
  ghost predicate QueueOnly(s: State, s': State, t: nat) {
    && s'.guarded == s.guarded && s'.local == s.local
    && s.q.head <= s'.q.head && s.q.tail <= s'.q.tail && |s.q.nodes| <= |s'.q.nodes|
    && t < |s.threads| == |s'.threads| && s'.threads == s.threads[t := s'.threads[t]]
    && (s'.r == s.r || s'.r == s.r.(place := s.r.place[s.q.head := Hand(t)]))
  }

  lemma QueueOnlyOthers(s: State, s': State, t: nat, u: nat)
    requires Inv(s) && QueueOnly(s, s', t) && t != s.r.admin && t < |s.threads| && u < |s.threads| && u != t
    ensures ThreadInv(s', u, s'.threads[u])
  {
    hide PlaceInv; hide QueueInv; hide Lag;
    assert ThreadInv(s, u, s.threads[u]);
    assert ThreadInv(s, t, s.threads[t]);
    HeadNotPlaced(s);
  }

  /** The queue's head has not left the queue. */
  lemma HeadNotPlaced(s: State)
    requires Inv(s)
    ensures s.q.head !in s.r.place
  {
    hide ThreadInv; hide Lists; hide EpochInv;
  }

  /** Node r lies ahead of everything that is out of the reach of t. */
  ghost predicate Ahead(s: State, t: nat, r: nat)
    requires t < |s.local| == |s.threads| && -1 <= s.r.admin < |s.threads|
  {
    forall x :: x in s.r.place && OutOfReach(s, t, s.r.place[x]) ==> x < r
  }

  /** Where the moving thread may stand after a step of a queue operation. */
  ghost predicate QueueOwn(s: State, s': State, t: nat)
    requires t < |s.local| == |s.threads| == |s'.threads| && -1 <= s.r.admin < |s.threads|
  {
    var pc' := s'.threads[t];
    && (QueuePc(pc') || pc'.Idle? || pc'.FreeFirst?) && QueuePcInv(s'.q, pc')
    && (InHand(pc') >= 0 ==> InHand(pc') in s'.r.place && s'.r.place[InHand(pc')] == Hand(t))
    && (forall r :: r in Refs(pc') ==> Ahead(s, t, r))
  }

  lemma QueueOnlyOwn(s: State, s': State, t: nat)
    requires Inv(s) && QueueOnly(s, s', t) && QueuePc(s.threads[t]) && QueueOwn(s, s', t)
    ensures t != s.r.admin && EpochInv(s') && ThreadInv(s', t, s'.threads[t])
  {
    hide PlaceInv; hide QueueInv; hide Lag; hide Lists;
    NotAdmin(s, t);
    HeadNotPlaced(s);
    assert ThreadInv(s, t, s.threads[t]);
  }

  /** A thread in a queue operation, or idle, does not run the grace-period protocol. */
  lemma NotAdmin(s: State, t: nat)
    requires Inv(s) && t < |s.threads|
    requires var pc := s.threads[t]; !Starter(pc) && !EnderEarly(pc) && !EnderLate(pc)
    ensures t != s.r.admin
  {
    hide PlaceInv; hide QueueInv; hide Lag; hide ThreadInv;
  }

  lemma QueueOnlyInv(s: State, s': State, t: nat)
    requires Inv(s) && QueueOnly(s, s', t) && QueuePc(s.threads[t])
    requires QueueInv(s'.q) && PlaceInv(s'.r, s'.q.head, s'.q.tail) && !s'.bad && QueueOwn(s, s', t)
    ensures Inv(s')
  {
    hide ThreadInv; hide PlaceInv; hide QueueInv; hide QueueOwn;
    QueueOnlyOwn(s, s', t);
    forall u | 0 <= u < |s'.threads| ensures ThreadInv(s', u, s'.threads[u]) {
      if u != t { QueueOnlyOthers(s, s', t, u); }
    }
  }

  /** The queue's head and tail, and any successor of a held node, are ahead. */
  lemma LoadedAhead(s: State, t: nat)
    requires Inv(s) && t < |s.threads|
    ensures Ahead(s, t, s.q.head) && Ahead(s, t, s.q.tail)
    ensures forall r :: r in Refs(s.threads[t]) ==> Ahead(s, t, r) && Ahead(s, t, r + 1)
  {
    assert ThreadInv(s, t, s.threads[t]);
  }

  /** No pointer a queue operation holds is to a freed node. */
  lemma RefNotFreed(s: State, t: nat, r: nat)
    requires Inv(s) && t < |s.threads| && r in Refs(s.threads[t])
    ensures r !in s.r.freed && Touch(s, r) == s
  {
    assert ThreadInv(s, t, s.threads[t]);
    if r in s.r.freed { assert OutOfReach(s, t, s.r.place[r]); }
  }

  lemma LaterTail(r: Reclaim, head: nat, tail: nat, tail': nat)
    requires PlaceInv(r, head, tail) && tail <= tail'
    ensures PlaceInv(r, head, tail')
  {
    hide Lists;
  }

  lemma PushInv(s: State, t: nat)
    requires Inv(s) && t < |s.threads|
    requires s.threads[t].PushLoad? || s.threads[t].PushHelp? || s.threads[t].PushSwing?
    ensures Inv(QueueStep(s, t))
  {
    hide EpochInv; hide EpochPcInv; hide RefsInv; hide Ahead; hide PlaceInv; hide PlacePcInv;
    InvShape(s);
    var pc, s' := s.threads[t], QueueStep(s, t);
    assert ThreadInv(s, t, pc);
    LoadedAhead(s, t);
    LaterTail(s.r, s.q.head, s.q.tail, s'.q.tail);
    QueueOnlyInv(s, s', t);
  }

  /** Linking after the last node leaves the tail one behind. */
  lemma LinkInv(s: State, t: nat)
    requires Inv(s) && t < |s.threads| && s.threads[t].PushLink?
    ensures Inv(QueueStep(s, t))
  {
    hide EpochInv; hide EpochPcInv; hide RefsInv; hide Ahead; hide PlaceInv; hide PlacePcInv;
    InvShape(s);
    var pc, s' := s.threads[t], QueueStep(s, t);
    assert ThreadInv(s, t, pc);
    LoadedAhead(s, t);
    RefNotFreed(s, t, pc.tail);
    assert QueueInv(s'.q);
    QueueOnlyInv(s, s', t);
  }

  lemma PopInv(s: State, t: nat)
    requires Inv(s) && t < |s.threads| && (s.threads[t].PopLoad? || s.threads[t].PopNext?)
    ensures Inv(QueueStep(s, t))
  {
    hide EpochInv; hide EpochPcInv; hide RefsInv; hide Ahead; hide PlaceInv;
    InvShape(s);
    var pc, s' := s.threads[t], QueueStep(s, t);
    assert ThreadInv(s, t, pc);
    LoadedAhead(s, t);
    if pc.PopNext? { RefNotFreed(s, t, pc.head); }
    QueueOnlyInv(s, s', t);
  }

  lemma PopValueInv(s: State, t: nat)
    requires Inv(s) && t < |s.threads| && s.threads[t].PopValue?
    ensures Inv(QueueStep(s, t))
  {
    hide EpochInv; hide EpochPcInv; hide RefsInv; hide Ahead; hide PlaceInv;
    InvShape(s);
    var pc, s' := s.threads[t], QueueStep(s, t);
    assert ThreadInv(s, t, pc);
    RefNotFreed(s, t, pc.next);
    QueueOnlyInv(s, s', t);
  }

  lemma PopWinInv(s: State, t: nat)
    requires Inv(s) && t < |s.threads| && s.threads[t].PopCas?
    ensures Inv(QueueStep(s, t))
  {
    hide EpochInv; hide EpochPcInv; hide RefsInv; hide PlacePcInv; hide Ahead; hide PlaceInv;
    InvShape(s);
    var pc, s' := s.threads[t], QueueStep(s, t);
    assert ThreadInv(s, t, pc);
    LoadedAhead(s, t);
    if s.q.head == pc.head { PopPlaces(s, t); }
    QueueOnlyInv(s, s', t);
  }

  lemma InvShape(s: State)
    requires Inv(s)
    ensures |s.local| == |s.threads| && -1 <= s.r.admin < |s.threads|
  {
    hide PlaceInv; hide QueueInv; hide Lag; hide ThreadInv;
  }

  /** The popped node is the only one that changes place. */
  lemma PopPlaces(s: State, t: nat)
    requires Inv(s)
    ensures PlaceInv(s.r.(place := s.r.place[s.q.head := Hand(t)]), s.q.head + 1, s.q.tail)
  {
    hide ThreadInv; hide EpochInv; hide QueueInv;
    HeadNotPlaced(s);
    PlacedListsKeep(s.r.place, s.q.head, t);
  }

  lemma PlacedListsKeep(place: map<nat, Place>, e: nat, t: nat)
    requires e !in place
    ensures forall l, w :: Lists(place, l, w) && !w.Hand? ==> Lists(place[e := Hand(t)], l, w)
  {
  }

  // ----------------------------------------------------- reclamation steps

  /** A reclamation step of t as another thread u sees it. */
  ghost predicate Unseen(s: State, s': State, t: nat, u: nat)
    requires EpochInv(s) && EpochInv(s') && u < |s.threads|
  {
    && s'.guarded == s.guarded && s'.q == s.q
    && t < |s.threads| == |s'.threads| && s'.threads == s.threads[t := s'.threads[t]]
    && (forall x :: x in s'.r.place <==> x in s.r.place)
    && (forall x :: x in s.r.place ==>
          && (s'.r.place[x] == Hand(u) <==> s.r.place[x] == Hand(u))
          && (s'.r.place[x] == Moving(u) <==> s.r.place[x] == Moving(u))
          && (s'.r.place[x] == Doomed(u) <==> s.r.place[x] == Doomed(u))
          && (OutOfReach(s', u, s'.r.place[x]) ==> OutOfReach(s, u, s.r.place[x])))
    && (s.r.admin == u ==>
          && s'.r.admin == u && s'.r.first == s.r.first && s'.r.remaining == s.r.remaining
          && (s.r.second != [] ==> s'.r.second != []))
    && (s.r.admin == u || s.threads[u].QuietSub? ==> s'.r.epoch == s.r.epoch)
    && s'.local[u] == s.local[u]
  }

  lemma UnseenKeeps(s: State, s': State, t: nat, u: nat)
    requires EpochInv(s) && EpochInv(s') && u < |s.threads| && Unseen(s, s', t, u) && u != t
    requires ThreadInv(s, u, s.threads[u])
    ensures ThreadInv(s', u, s'.threads[u])
  {
  }

  lemma ReclaimInv(s: State, s': State, t: nat)
    requires Inv(s) && t < |s.threads| && PlaceInv(s'.r, s'.q.head, s'.q.tail) && EpochInv(s') && !s'.bad
    requires |s'.threads| == |s.threads| && forall u :: 0 <= u < |s.threads| && u != t ==> Unseen(s, s', t, u)
    requires ThreadInv(s', t, s'.threads[t])
    ensures Inv(s')
  {
    hide PlaceInv; hide QueueInv; hide Lag; hide ThreadInv;
    var other := if t == 0 then 1 else 0;
    assert Unseen(s, s', t, other);
    forall u | 0 <= u < |s'.threads| ensures ThreadInv(s', u, s'.threads[u]) {
      if u != t {
        assert ThreadInv(s, u, s.threads[u]);
        UnseenKeeps(s, s', t, u);
      }
    }
  }

  /** Moving one node from a hand to the front of a list. */
  lemma ToList(place: map<nat, Place>, e: nat, t: nat, list: seq<nat>, where: Place)
    requires e in place && place[e] == Hand(t) && !where.Hand? && Lists(place, list, where)
    ensures Lists(place[e := where], [e] + list, where)
    ensures forall l, w :: Lists(place, l, w) && w != where && !w.Hand? ==> Lists(place[e := where], l, w)
  {
  }

  /** A thread's popped node is not freed. */
  lemma HandNotFreed(s: State, t: nat)
    requires Inv(s) && t < |s.threads| && InHand(s.threads[t]) >= 0
    ensures Touch(s, InHand(s.threads[t])) == s
  {
    assert ThreadInv(s, t, s.threads[t]);
  }

  lemma FreeStartPlaces(s: State, t: nat, e: nat)
    requires PlaceInv(s.r, s.q.head, s.q.tail) && e in s.r.place && s.r.place[e] == Hand(t) && e < s.q.tail
    requires s.r.first == []
    ensures PlaceInv(s.r.(first := [e], place := s.r.place[e := First]), s.q.head, s.q.tail)
  {
    ToList(s.r.place, e, t, s.r.first, First);
    assert [e] + s.r.first == [e];
  }

  /** The first node of a new grace period. */
  lemma FreeStartInv(s: State, t: nat)
    requires Inv(s) && t < |s.threads| && s.threads[t].FreeFirst? && s.r.first == [] && s.q.tail != s.threads[t].e
    ensures Inv(FreeStep(s, t))
  {
    hide PlaceInv; hide QueueInv; hide Lag; hide Lists;
    var e, s' := s.threads[t].e, FreeStep(s, t);
    assert ThreadInv(s, t, s.threads[t]);
    HandNotFreed(s, t);
    HandBeforeTail(s, t);
    FreeStartPlaces(s, t, e);
    NotAdmin(s, t);
    SamePlaces(s.r.(first := [e], place := s.r.place[e := First]), s'.r, s.q.head, s.q.tail);
    assert s'.r == s.r.(first := [e], place := s.r.place[e := First], admin := t)
        && s'.threads == s.threads[t := FreeEpoch];
    hide FreeStep;
    assert EpochInv(s');
    forall u | 0 <= u < |s.threads| && u != t ensures Unseen(s, s', t, u) { }
    ReclaimInv(s, s', t);
  }

  /** A node in hand that the tail does not point to is behind it. */
  lemma HandBeforeTail(s: State, t: nat)
    requires Inv(s) && t < |s.threads| && s.threads[t].FreeFirst? && s.q.tail != s.threads[t].e
    ensures s.threads[t].e < s.q.tail
  {
    hide Lists; hide Lag; hide EpochPcInv; hide RefsInv;
    assert ThreadInv(s, t, s.threads[t]);
  }

  lemma SamePlaces(r: Reclaim, r': Reclaim, head: nat, tail: nat)
    requires PlaceInv(r, head, tail)
    requires r'.first == r.first && r'.second == r.second && r'.freed == r.freed && r'.place == r.place
    ensures PlaceInv(r', head, tail)
  {
  }

  /** A step that only loads: the thread moves on and nothing else changes. */
  lemma LoadOnlyInv(s: State, t: nat, pc': Pc)
    requires Inv(s) && t < |s.threads| && ThreadInv(s, t, pc')
    requires s.r.admin == t ==>
               && EnderEarly(pc') == EnderEarly(s.threads[t])
               && (Starter(pc') || EnderEarly(pc') || EnderLate(pc'))
    ensures Inv(Goto(s, t, pc'))
  {
    hide PlaceInv; hide QueueInv; hide Lists; hide Lag;
    var s' := Goto(s, t, pc');
    assert EpochInv(s');
    LoadedOwn(s, s', t, pc');
    forall u | 0 <= u < |s.threads| && u != t ensures Unseen(s, s', t, u) { }
    ReclaimInv(s, s', t);
  }

  lemma LoadedOwn(s: State, s': State, t: nat, pc': Pc)
    requires Inv(s) && EpochInv(s') && t < |s.threads| && ThreadInv(s, t, pc') && s' == Goto(s, t, pc')
    requires s.r.admin == t ==> EnderEarly(pc') == EnderEarly(s.threads[t])
    ensures ThreadInv(s', t, pc')
  {
    hide PlaceInv; hide QueueInv; hide Lists; hide Lag;
  }

  lemma FreeLoadsInv(s: State, t: nat)
    requires Inv(s) && t < |s.threads|
    requires var pc := s.threads[t];
             (pc.FreeFirst? && (s.r.first != [] || s.q.tail == pc.e)) || pc.FreeEpoch?
    ensures Inv(FreeStep(s, t))
  {
    hide PlaceInv; hide QueueInv; hide Lag; hide Lists; hide Unseen;
    var pc := s.threads[t];
    assert ThreadInv(s, t, pc);
    if pc.FreeEpoch? {
      LoadOnlyInv(s, t, FreeCount(s.r.epoch));
    } else if s.q.tail != pc.e {
      HandNotFreed(s, t);
      HandBeforeTail(s, t);
      LoadOnlyInv(s, t, FreeLoad(pc.e));
    }
  }

  lemma FreeReloadsInv(s: State, t: nat)
    requires Inv(s) && t < |s.threads|
    requires s.threads[t].FreeLoad? || (s.threads[t].FreePush? && s.r.second != s.threads[t].list)
    ensures Inv(FreeStep(s, t))
  {
    hide PlaceInv; hide QueueInv; hide Lag; hide Lists; hide Unseen;
    var pc := s.threads[t];
    assert ThreadInv(s, t, pc);
    HandNotFreed(s, t);
    LoadOnlyInv(s, t, FreePush(pc.e, s.r.second));
  }

  lemma QuietLoadsInv(s: State, t: nat)
    requires Inv(s) && t < |s.threads|
    requires var pc := s.threads[t];
             || pc.QuietLoad? || pc.EndTake? || pc.EndLoad? || (pc.EndSteal? && s.r.second != pc.list)
             || (pc.Freeing? && pc.doomed == [])
    ensures Inv(QuietStep(s, t))
  {
    hide PlaceInv; hide QueueInv; hide Lag; hide Unseen;
    var pc := s.threads[t];
    assert ThreadInv(s, t, pc);
    LoadOnlyInv(s, t, QuietStep(s, t).threads[t]);
  }

  /** Setting the counter before the epoch is advanced. */
  lemma CountInv(s: State, t: nat)
    requires Inv(s) && t < |s.threads| && (s.threads[t].FreeCount? || s.threads[t].EndCount?)
    ensures Inv(if s.threads[t].FreeCount? then FreeStep(s, t) else QuietStep(s, t))
  {
    hide PlaceInv; hide QueueInv; hide Lists; hide Lag;
    var pc := s.threads[t];
    var pc' := if pc.FreeCount? then FreeAdvance(pc.seen) else EndAdvance(pc.seen, pc.doomed);
    var s' := Goto(s.(r := s.r.(remaining := |s.threads| - 1)), t, pc');
    assert s' == if pc.FreeCount? then FreeStep(s, t) else QuietStep(s, t);
    assert ThreadInv(s, t, pc);
    hide FreeStep; hide QuietStep;
    SamePlaces(s.r, s'.r, s.q.head, s.q.tail);
    assert EpochInv(s');
    forall u | 0 <= u < |s.threads| && u != t ensures Unseen(s, s', t, u) { }
    ReclaimInv(s, s', t);
  }

  lemma {:induction false} LagOfOthers(local: seq<nat>, epoch: nat, t: nat)
    requires t < |local| && local[t] == epoch && forall u :: 0 <= u < |local| && u != t ==> local[u] != epoch
    ensures Lag(local, epoch) == |local| - 1
  {
    var n := |local| - 1;
    if t == n {
      LagOfAll(local[..n], epoch);
    } else {
      LagOfOthers(local[..n], epoch, t);
    }
  }

  lemma {:induction false} LagOfAll(local: seq<nat>, epoch: nat)
    requires forall u :: 0 <= u < |local| ==> local[u] != epoch
    ensures Lag(local, epoch) == |local|
  {
    if local != [] { LagOfAll(local[..|local| - 1], epoch); }
  }

  /** A thread that catches up reduces the lag by one. */
  lemma {:induction false} LagDrops(local: seq<nat>, epoch: nat, t: nat)
    requires t < |local| && local[t] != epoch
    ensures Lag(local, epoch) >= 1 && Lag(local[t := epoch], epoch) == Lag(local, epoch) - 1
  {
    var n := |local| - 1;
    if t == n {
      assert local[t := epoch][..n] == local[..n];
    } else {
      assert local[t := epoch][..n] == local[..n][t := epoch];
      LagDrops(local[..n], epoch, t);
    }
  }

  lemma {:induction false} NoLag(local: seq<nat>, epoch: nat)
    requires Lag(local, epoch) == 0
    ensures forall u :: 0 <= u < |local| ==> local[u] == epoch
  {
    if local != [] {
      NoLag(local[..|local| - 1], epoch);
      assert forall u :: 0 <= u < |local| - 1 ==> local[..|local| - 1][u] == local[u];
    }
  }

  /** The new epoch starts: every other thread now owes a quiescent point. */
  lemma AdvanceInv(s: State, t: nat, pc': Pc)
    requires Inv(s) && t < |s.threads| && (s.threads[t].FreeAdvance? || s.threads[t].EndAdvance?)
    requires pc' == if s.threads[t].FreeAdvance? then Idle else Freeing(s.threads[t].doomed)
    ensures Inv(Goto(s.(r := s.r.(epoch := s.r.epoch + 1, admin := NULL), local := s.local[t := s.r.epoch + 1]), t,
      pc'))
  {
    hide PlaceInv; hide QueueInv; hide Lists; hide Lag;
    var s' := Goto(s.(r := s.r.(epoch := s.r.epoch + 1, admin := NULL), local := s.local[t := s.r.epoch + 1]), t, pc');
    assert ThreadInv(s, t, s.threads[t]);
    AdvanceEpoch(s, s', t, pc');
    SamePlaces(s.r, s'.r, s.q.head, s.q.tail);
    forall u | 0 <= u < |s.threads| && u != t ensures Unseen(s, s', t, u) {
      assert ThreadInv(s, u, s.threads[u]);
      assert !s.threads[u].QuietSub?;
    }
    ReclaimInv(s, s', t);
  }

  lemma AdvanceEpoch(s: State, s': State, t: nat, pc': Pc)
    requires EpochInv(s) && t < |s.threads| && ThreadInv(s, t, s.threads[t])
    requires s.threads[t].FreeAdvance? || s.threads[t].EndAdvance?
    requires pc' == if s.threads[t].FreeAdvance? then Idle else Freeing(s.threads[t].doomed)
    requires s' == Goto(s.(r := s.r.(epoch := s.r.epoch + 1, admin := NULL), local := s.local[t := s.r.epoch + 1]), t,
      pc')
    ensures EpochInv(s')
  {
    LagOfOthers(s'.local, s'.r.epoch, t);
    hide PlaceInv; hide QueueInv; hide Lists;
  }

  /** A node of t's goes to the second list or is freed, and t does not run the protocol. */
  lemma OneMoved(s: State, s': State, t: nat, x: nat, pc': Pc)
    requires EpochInv(s) && t < |s.threads| && t != s.r.admin && x in s.r.place
    requires || (s.r.place[x] == Hand(t)
                && s' == Goto(s.(r := s.r.(second := [x] + s.r.second, place := s.r.place[x := Second])), t, pc'))
             || (s.r.place[x] == Doomed(t)
                && s' == Goto(s.(r := s.r.(freed := s.r.freed + {x}, place := s.r.place[x := Gone])), t, pc'))
    ensures EpochInv(s') && forall u :: 0 <= u < |s.threads| && u != t ==> Unseen(s, s', t, u)
  {
  }

  lemma FreePushPlaces(s: State, t: nat, e: nat)
    requires PlaceInv(s.r, s.q.head, s.q.tail) && e in s.r.place && s.r.place[e] == Hand(t) && e < s.q.tail
    ensures PlaceInv(s.r.(second := [e] + s.r.second, place := s.r.place[e := Second]), s.q.head, s.q.tail)
  {
    ToList(s.r.place, e, t, s.r.second, Second);
  }

  /** A node joins the second list. */
  lemma FreePushInv(s: State, t: nat)
    requires Inv(s) && t < |s.threads| && s.threads[t].FreePush? && s.r.second == s.threads[t].list
    ensures Inv(FreeStep(s, t))
  {
    hide PlaceInv; hide QueueInv; hide Lag; hide Lists; hide Unseen;
    var e, s' := s.threads[t].e, FreeStep(s, t);
    assert ThreadInv(s, t, s.threads[t]);
    NotAdmin(s, t);
    FreePushPlaces(s, t, e);
    OneMoved(s, s', t, e, Idle);
    ReclaimInv(s, s', t);
  }

  /** Going through a quiescent point, others still owing theirs. */
  lemma QuietSubInv(s: State, t: nat)
    requires Inv(s) && t < |s.threads| && s.threads[t].QuietSub? && s.r.remaining != 1
    ensures Inv(QuietStep(s, t))
  {
    hide PlaceInv; hide QueueInv; hide Lists; hide Lag;
    var s' := QuietStep(s, t);
    assert ThreadInv(s, t, s.threads[t]);
    LagDrops(s.local, s.r.epoch, t);
    SamePlaces(s.r, s'.r, s.q.head, s.q.tail);
    assert EpochInv(s');
    forall u | 0 <= u < |s.threads| && u != t ensures Unseen(s, s', t, u) { }
    hide QuietStep;
    ReclaimInv(s, s', t);
  }

  /** The last thread to go through a quiescent point ends the grace period: by now no
      thread can hold a pointer into the first list. */
  lemma QuietLastInv(s: State, t: nat)
    requires Inv(s) && t < |s.threads| && s.threads[t].QuietSub? && s.r.remaining == 1
    ensures Inv(QuietStep(s, t))
  {
    hide PlaceInv; hide QueueInv; hide Lists; hide Lag;
    var s' := QuietStep(s, t);
    assert ThreadInv(s, t, s.threads[t]);
    LagDrops(s.local, s.r.epoch, t);
    NoLag(s.local[t := s.r.epoch], s.r.epoch);
    forall u | 0 <= u < |s.local| && u != t ensures s.local[u] == s.r.epoch {
      assert s.local[u] == s.local[t := s.r.epoch][u];
    }
    SamePlaces(s.r, s'.r, s.q.head, s.q.tail);
    assert EpochInv(s');
    forall u | 0 <= u < |s.threads| && u != t ensures Unseen(s, s', t, u) { }
    hide QuietStep;
    ReclaimInv(s, s', t);
  }

  lemma StealPlaces(place: map<nat, Place>, t: nat, list: seq<nat>)
    requires Lists(place, list, Second) && forall x :: x in place ==> place[x] != Moving(t)
    ensures Lists(Steal(place, t), list, Moving(t)) && Lists(Steal(place, t), [], Second)
    ensures forall l, w :: Lists(place, l, w) && !w.Second? && w != Moving(t) ==> Lists(Steal(place, t), l, w)
  {
  }

  /** The ending thread takes the whole second list. */
  lemma StealInv(s: State, t: nat)
    requires Inv(s) && t < |s.threads| && s.threads[t].EndSteal? && s.r.second == s.threads[t].list
    ensures Inv(QuietStep(s, t))
  {
    hide PlaceInv; hide QueueInv; hide Lists; hide Lag;
    var pc := s.threads[t];
    var s' := Goto(s.(r := s.r.(second := [], place := Steal(s.r.place, t))), t, EndStore(pc.seen, pc.doomed, pc.list));
    assert s' == QuietStep(s, t);
    hide QuietStep;
    assert ThreadInv(s, t, pc);
    StolenPlaces(s, t);
    assert EpochInv(s');
    forall u | 0 <= u < |s.threads| && u != t ensures Unseen(s, s', t, u) { }
    ReclaimInv(s, s', t);
  }

  lemma StolenPlaces(s: State, t: nat)
    requires PlaceInv(s.r, s.q.head, s.q.tail) && forall x :: x in s.r.place ==> s.r.place[x] != Moving(t)
    ensures PlaceInv(s.r.(second := [], place := Steal(s.r.place, t)), s.q.head, s.q.tail)
    ensures Lists(Steal(s.r.place, t), s.r.second, Moving(t))
  {
    hide Lists;
    StealPlaces(s.r.place, t, s.r.second);
  }

  lemma HandoverPlaces(place: map<nat, Place>, t: nat, list: seq<nat>, next: seq<nat>)
    requires Lists(place, list, First) && Lists(place, next, Moving(t))
    requires forall x :: x in place ==> place[x] != Doomed(t)
    ensures Lists(Handover(place, t), list, Doomed(t)) && Lists(Handover(place, t), next, First)
    ensures forall l, w :: Lists(place, l, w) && !w.First? && w != Moving(t) && w != Doomed(t) ==>
                           Lists(Handover(place, t), l, w)
  {
  }

  /** The grace period of the first list is over; the stolen list becomes the first. */
  lemma StoreInv(s: State, t: nat)
    requires Inv(s) && t < |s.threads| && s.threads[t].EndStore?
    ensures Inv(QuietStep(s, t))
  {
    hide PlaceInv; hide QueueInv; hide Lists; hide Lag;
    var pc := s.threads[t];
    var s' := Goto(s.(r := s.r.(first := pc.list, place := Handover(s.r.place, t))), t, EndCount(pc.seen, pc.doomed));
    assert s' == QuietStep(s, t);
    hide QuietStep;
    assert ThreadInv(s, t, pc);
    HandedOver(s, t, pc.list);
    assert EpochInv(s');
    forall u | 0 <= u < |s.threads| && u != t ensures Unseen(s, s', t, u) { }
    ReclaimInv(s, s', t);
  }

  lemma HandedOver(s: State, t: nat, list: seq<nat>)
    requires PlaceInv(s.r, s.q.head, s.q.tail) && Lists(s.r.place, list, Moving(t))
    requires forall x :: x in s.r.place ==> s.r.place[x] != Doomed(t)
    ensures PlaceInv(s.r.(first := list, place := Handover(s.r.place, t)), s.q.head, s.q.tail)
    ensures Lists(Handover(s.r.place, t), s.r.first, Doomed(t))
  {
    hide Lists;
    HandoverPlaces(s.r.place, t, s.r.first, list);
  }

  /** The grace period is over and no nodes wait for another. */
  lemma ClearInv(s: State, t: nat)
    requires Inv(s) && t < |s.threads| && s.threads[t].EndClear?
    ensures Inv(QuietStep(s, t))
  {
    hide PlaceInv; hide QueueInv; hide Lists; hide Lag;
    var pc := s.threads[t];
    var s' := Goto(s.(r := s.r.(first := [], place := Handover(s.r.place, t), admin := NULL),
        local := s.local[t := pc.seen]), t, Freeing(pc.doomed));
    assert s' == QuietStep(s, t);
    hide QuietStep;
    assert ThreadInv(s, t, pc);
    EmptyList(s.r.place, Moving(t));
    HandedOver(s, t, []);
    SamePlaces(s.r.(first := [], place := s'.r.place), s'.r, s.q.head, s.q.tail);
    assert EpochInv(s');
    forall u | 0 <= u < |s.threads| && u != t ensures Unseen(s, s', t, u) { }
    ReclaimInv(s, s', t);
  }

  lemma EmptyList(place: map<nat, Place>, where: Place)
    requires forall x :: x in place ==> place[x] != where
    ensures Lists(place, [], where)
  {
  }

  lemma GonePlaces(place: map<nat, Place>, t: nat, list: seq<nat>)
    requires Lists(place, list, Doomed(t)) && list != []
    ensures Lists(place[list[0] := Gone], list[1..], Doomed(t))
    ensures forall l, w :: Lists(place, l, w) && w != Doomed(t) && !w.Gone? ==> Lists(place[list[0] := Gone], l, w)
  {
    var x, rest := list[0], list[1..];
    assert forall k :: 0 <= k < |rest| ==> rest[k] == list[k + 1];
    assert forall y :: y in list <==> y == x || y in rest;
  }

  lemma FreeingPlaces(s: State, t: nat, list: seq<nat>)
    requires PlaceInv(s.r, s.q.head, s.q.tail) && Lists(s.r.place, list, Doomed(t)) && list != []
    ensures PlaceInv(s.r.(freed := s.r.freed + {list[0]}, place := s.r.place[list[0] := Gone]), s.q.head, s.q.tail)
    ensures Lists(s.r.place[list[0] := Gone], list[1..], Doomed(t))
    ensures list[0] in s.r.place && s.r.place[list[0]] == Doomed(t) && list[0] !in s.r.freed
  {
    assert list[0] in list;
    GonePlaces(s.r.place, t, list);
  }

  lemma FreeingOwn(s: State, t: nat, list: seq<nat>, s': State)
    requires Inv(s) && EpochInv(s') && t < |s.threads| && s.threads[t] == Freeing(list) && list != []
    requires s' == Goto(s.(r := s.r.(freed := s.r.freed + {list[0]}, place := s.r.place[list[0] := Gone])), t,
      Freeing(list[1..]))
    requires Lists(s'.r.place, list[1..], Doomed(t))
    ensures ThreadInv(s', t, Freeing(list[1..]))
  {
    assert ThreadInv(s, t, s.threads[t]);
  }

  /** Freeing one node: it was not freed before. */
  lemma FreeingInv(s: State, t: nat, list: seq<nat>, s': State)
    requires Inv(s) && t < |s.threads| && s.threads[t] == Freeing(list) && list != []
    requires s' == Goto(s.(r := s.r.(freed := s.r.freed + {list[0]}, place := s.r.place[list[0] := Gone])), t,
      Freeing(list[1..]))
    ensures Inv(s') && list[0] !in s.r.freed
  {
    hide PlaceInv; hide QueueInv; hide Lag; hide Lists; hide Unseen;
    assert ThreadInv(s, t, s.threads[t]);
    NotAdmin(s, t);
    FreeingPlaces(s, t, list);
    OneMoved(s, s', t, list[0], Freeing(list[1..]));
    FreeingOwn(s, t, list, s');
    ReclaimInv(s, s', t);
  }

  /** Every step of every thread keeps the invariant. */
  lemma StepInv(s: State, ev: Event)
    requires Inv(s)
    ensures Inv(Step(s, ev)) && |Step(s, ev).threads| == |s.threads|
  {
    if ev.t < |s.threads| == |s.local| {
      hide Inv;
      hide QueueStep;
      hide FreeStep;
      hide QuietStep;
      var pc := s.threads[ev.t];
      if pc.Idle? {
        StartInv(s, ev);
      } else if QueuePc(pc) {
        if pc.PopCas? {
          PopWinInv(s, ev.t);
        } else if pc.PopValue? {
          PopValueInv(s, ev.t);
        } else if pc.PopLoad? || pc.PopNext? {
          PopInv(s, ev.t);
        } else if pc.PushLink? {
          LinkInv(s, ev.t);
        } else {
          PushInv(s, ev.t);
        }
      } else if FreePc(pc) {
        FreeInv(s, ev.t);
      } else {
        QuietInv(s, ev.t);
      }
    }
  }

  lemma StartInv(s: State, ev: Event)
    requires Inv(s) && ev.t < |s.threads| && s.threads[ev.t].Idle?
    ensures Inv(Step(s, ev))
  {
    assert ThreadInv(s, ev.t, Idle);
    LoadOnlyInv(s, ev.t, Step(s, ev).threads[ev.t]);
  }

  lemma FreeInv(s: State, t: nat)
    requires Inv(s) && t < |s.threads| && FreePc(s.threads[t])
    ensures Inv(FreeStep(s, t))
  {
    hide PlaceInv; hide QueueInv; hide Lag; hide Lists; hide QueuePcInv; hide PlacePcInv; hide RefsInv;
    var pc := s.threads[t];
    assert ThreadInv(s, t, pc);
    if pc.FreeCount? {
      CountInv(s, t);
    } else if pc.FreeAdvance? {
      AdvanceInv(s, t, Idle);
    } else if pc.FreeFirst? && s.r.first == [] && s.q.tail != pc.e {
      FreeStartInv(s, t);
    } else if pc.FreePush? && s.r.second == pc.list {
      FreePushInv(s, t);
    } else if pc.FreeLoad? || pc.FreePush? {
      FreeReloadsInv(s, t);
    } else {
      FreeLoadsInv(s, t);
    }
  }

  lemma QuietInv(s: State, t: nat)
    requires Inv(s) && t < |s.threads| && !QueuePc(s.threads[t]) && !FreePc(s.threads[t]) && !s.threads[t].Idle?
    ensures Inv(QuietStep(s, t))
  {
    hide PlaceInv; hide QueueInv; hide Lag; hide Lists; hide QueuePcInv; hide RefsInv; hide Unseen;
    var pc := s.threads[t];
    assert ThreadInv(s, t, pc);
    if pc.QuietSub? {
      if s.r.remaining == 1 { QuietLastInv(s, t); } else { QuietSubInv(s, t); }
    } else if pc.EndCount? {
      CountInv(s, t);
    } else if pc.EndAdvance? {
      AdvanceInv(s, t, Freeing(pc.doomed));
    } else if pc.EndStore? {
      StoreInv(s, t);
    } else if pc.EndClear? {
      ClearInv(s, t);
    } else if pc.EndSteal? && s.r.second == pc.list {
      StealInv(s, t);
    } else if pc.Freeing? && pc.doomed != [] {
      FreeingPlaces(s, t, pc.doomed);
      FreeingInv(s, t, pc.doomed, QuietStep(s, t));
    } else {
      QuietLoadsInv(s, t);
    }
  }

  lemma {:induction false} RunInv(n: nat, evs: seq<Event>)
    requires n >= 2
    ensures Inv(Run(Init(n, true), evs)) && |Run(Init(n, true), evs).threads| == n
    decreases |evs|
  {
    if evs != [] {
      RunInv(n, evs[..|evs| - 1]);
      StepInv(Run(Init(n, true), evs[..|evs| - 1]), evs[|evs| - 1]);
    }
  }

  // ------------------------------------------------------------ main results

  ghost predicate Reachable(n: nat, guarded: bool, s: State) {
    exists evs :: s == Run(Init(n, guarded), evs)
  }

  lemma ReachStep(n: nat, guarded: bool, s: State, ev: Event)
    requires Reachable(n, guarded, s)
    ensures Reachable(n, guarded, Step(s, ev))
  {
    var evs :| s == Run(Init(n, guarded), evs);
    assert (evs + [ev])[..|evs|] == evs;
    assert Step(s, ev) == Run(Init(n, guarded), evs + [ev]);
  }

  // ---- the queue by itself, guarded or not

  ghost predicate FifoPcInv(q: Queue, pc: Pc) {
    QueuePc(pc) ==> QueuePcInv(q, pc)
  }

  ghost predicate FifoInv(s: State) {
    QueueInv(s.q) && forall t :: 0 <= t < |s.threads| ==> FifoPcInv(s.q, s.threads[t])
  }

  /** What any step does to the queue: head, tail and list only move on. */
  ghost predicate QueueGrows(q: Queue, q': Queue) {
    q.head <= q'.head && q.tail <= q'.tail && |q.nodes| <= |q'.nodes|
  }

  lemma FifoPcKept(q: Queue, q': Queue, pc: Pc)
    requires FifoPcInv(q, pc) && QueueGrows(q, q')
    ensures FifoPcInv(q', pc)
  {
  }

  /** A step of a queue operation, as the queue sees it. */
  ghost predicate QueueStepped(s: State, s': State, t: nat) {
    && QueueInv(s'.q) && QueueGrows(s.q, s'.q) && t < |s.threads| == |s'.threads|
    && s'.threads == s.threads[t := s'.threads[t]] && FifoPcInv(s'.q, s'.threads[t])
  }

  lemma FifoPushStep(s: State, t: nat)
    requires QueueInv(s.q) && t < |s.threads| && FifoPcInv(s.q, s.threads[t])
    requires var pc := s.threads[t]; pc.PushLoad? || pc.PushLink? || pc.PushHelp? || pc.PushSwing?
    ensures QueueStepped(s, QueueStep(s, t), t)
  {
    hide QueueInv;
    var pc, q := s.threads[t], s.q;
    QueueReads(q);
    if pc.PushLink? && q.nodes[pc.tail].next == NULL { LinkedQueue(q, pc.tail, pc.v); }
    if (pc.PushHelp? || pc.PushSwing?) && q.tail == pc.tail { TailMoved(q, pc.tail); }
  }

  lemma FifoPopStep(s: State, t: nat)
    requires QueueInv(s.q) && t < |s.threads| && FifoPcInv(s.q, s.threads[t])
    requires var pc := s.threads[t]; pc.PopLoad? || pc.PopNext? || pc.PopCas? || pc.PopValue?
    ensures QueueStepped(s, QueueStep(s, t), t)
  {
    hide QueueInv;
    var pc, q := s.threads[t], s.q;
    QueueReads(q);
    if pc.PopCas? { HeadMoved(q, pc.next); }
    if pc.PopValue? { ValuePopped(q, pc.head); }
  }

  lemma FifoQueueStep(s: State, t: nat)
    requires QueueInv(s.q) && t < |s.threads| && QueuePc(s.threads[t]) && FifoPcInv(s.q, s.threads[t])
    ensures QueueStepped(s, QueueStep(s, t), t)
  {
    hide QueueStep; hide QueueStepped; hide QueueInv; hide FifoPcInv;
    var pc := s.threads[t];
    if pc.PushLoad? || pc.PushLink? || pc.PushHelp? || pc.PushSwing? { FifoPushStep(s, t); } else { FifoPopStep(s, t); }
  }

  lemma QueueReads(q: Queue)
    requires QueueInv(q)
    ensures q.head < |q.nodes| && q.tail < |q.nodes| <= q.tail + 2
    ensures forall i :: 0 <= i < |q.nodes| ==> q.nodes[i].next == if i + 1 < |q.nodes| then i + 1 else NULL
  {
  }

  lemma TailMoved(q: Queue, tail: nat)
    requires QueueInv(q) && tail + 1 < |q.nodes| && q.tail == tail
    ensures QueueInv(q.(tail := tail + 1))
  {
  }

  lemma HeadMoved(q: Queue, next: nat)
    requires QueueInv(q) && next < |q.nodes|
    ensures QueueInv(q.(head := next))
  {
  }

  lemma ValuePopped(q: Queue, h: nat)
    requires QueueInv(q) && h + 1 < |q.nodes|
    ensures QueueInv(q.(popped := q.popped[h := q.nodes[h + 1].value]))
  {
  }

  lemma LinkedQueue(q: Queue, tail: nat, v: Val)
    requires QueueInv(q) && tail <= q.tail && tail < |q.nodes| && q.nodes[tail].next == NULL
    ensures QueueInv(q.(nodes := q.nodes[tail := q.nodes[tail].(next := |q.nodes|)] + [Node(v, NULL)],
      pushed := q.pushed + [v]))
  {
  }

  /** A step outside the queue operations, as the queue sees it. */
  ghost predicate QueueUntouched(s: State, s': State, t: nat) {
    && s'.q == s.q && t < |s.threads| == |s'.threads| && |s'.local| == |s.local|
         && s'.threads == s.threads[t := s'.threads[t]]
    && !QueuePc(s'.threads[t])
  }

  lemma FreeUntouched(s: State, t: nat)
    requires t < |s.threads| == |s.local| && FreePc(s.threads[t])
    ensures QueueUntouched(s, FreeStep(s, t), t)
  {
    assert s.threads[t := s.threads[t]] == s.threads;
  }

  lemma QuietUntouched(s: State, t: nat)
    requires t < |s.threads| == |s.local| && !QueuePc(s.threads[t]) && !FreePc(s.threads[t]) && !s.threads[t].Idle?
    ensures QueueUntouched(s, QuietStep(s, t), t)
  {
    hide QuietStep; hide QueueUntouched;
    var pc := s.threads[t];
    if pc.QuietLoad? || pc.QuietSub? || pc.EndTake? || pc.EndLoad? { QuietUntouchedEarly(s, t); }
    else if pc.EndSteal? || pc.EndStore? || pc.EndClear? { QuietUntouchedEnd(s, t); }
    else { QuietUntouchedLate(s, t); }
  }

  lemma QuietUntouchedEarly(s: State, t: nat)
    requires t < |s.threads| == |s.local|
    requires var pc := s.threads[t]; pc.QuietLoad? || pc.QuietSub? || pc.EndTake? || pc.EndLoad?
    ensures QueueUntouched(s, QuietStep(s, t), t)
  {
    hide Handover; hide Steal;
  }

  lemma QuietUntouchedEnd(s: State, t: nat)
    requires t < |s.threads| == |s.local|
    requires var pc := s.threads[t]; pc.EndSteal? || pc.EndStore? || pc.EndClear?
    ensures QueueUntouched(s, QuietStep(s, t), t)
  {
    hide Handover; hide Steal;
  }

  lemma QuietUntouchedLate(s: State, t: nat)
    requires t < |s.threads| == |s.local|
    requires var pc := s.threads[t]; pc.EndCount? || pc.EndAdvance? || pc.Freeing?
    ensures QueueUntouched(s, QuietStep(s, t), t)
  {
    hide Handover; hide Steal;
  }

  lemma FifoOtherStep(s: State, ev: Event)
    requires ev.t < |s.threads| == |s.local| && !QueuePc(s.threads[ev.t])
    ensures var s' := Step(s, ev);
      && s'.q == s.q && |s'.threads| == |s.threads| == |s'.local| && s'.threads == s.threads[ev.t := s'.threads[ev.t]]
      && FifoPcInv(s.q, s'.threads[ev.t])
  {
    hide QueueStep; hide FreeStep; hide QuietStep;
    var pc := s.threads[ev.t];
    if FreePc(pc) { FreeUntouched(s, ev.t); } else if !pc.Idle? { QuietUntouched(s, ev.t); }
  }

  lemma FifoStep(s: State, ev: Event)
    requires FifoInv(s) && |s.threads| == |s.local|
    ensures FifoInv(Step(s, ev)) && |Step(s, ev).threads| == |Step(s, ev).local| == |s.threads|
  {
    hide QueueInv; hide FifoPcInv; hide QueueStep; hide FreeStep; hide QuietStep;
    if ev.t < |s.threads| {
      var s' := Step(s, ev);
      if QueuePc(s.threads[ev.t]) { FifoQueueStep(s, ev.t); QueueStepLocal(s, ev.t); } else { FifoOtherStep(s, ev); }
      forall u | 0 <= u < |s'.threads| ensures FifoPcInv(s'.q, s'.threads[u]) {
        if u != ev.t { FifoPcKept(s.q, s'.q, s.threads[u]); }
      }
    }
  }

  lemma QueueStepLocal(s: State, t: nat)
    requires t < |s.threads| && QueuePc(s.threads[t])
    ensures QueueStep(s, t).local == s.local
  {
  }

  lemma {:induction false} FifoRun(n: nat, guarded: bool, evs: seq<Event>)
    ensures var s := Run(Init(n, guarded), evs); FifoInv(s) && |s.threads| == |s.local| == n
    decreases |evs|
  {
    hide Step; hide FifoInv;
    if evs == [] {
      FifoStart(n, guarded);
    } else {
      FifoRun(n, guarded, evs[..|evs| - 1]);
      FifoStep(Run(Init(n, guarded), evs[..|evs| - 1]), evs[|evs| - 1]);
    }
  }

  lemma FifoStart(n: nat, guarded: bool)
    ensures FifoInv(Init(n, guarded))
  {
  }

  /** With or without the guard, the queue is a FIFO whose tail is at most one node behind:
      whichever thread performs it, the pop of node h delivers the value of push number h, and
      a thread that has won a pop has a node the head has left. */
  lemma QueueIsFifo(n: nat, guarded: bool, s: State)
    requires Reachable(n, guarded, s)
    ensures |s.threads| == n
    ensures s.q.head < |s.q.nodes| == |s.q.pushed| + 1 && |s.q.nodes| - 2 <= s.q.tail < |s.q.nodes|
    ensures forall h :: h in s.q.popped ==> h < |s.q.pushed| && s.q.popped[h] == s.q.pushed[h]
    ensures forall t :: 0 <= t < n && s.threads[t].PopValue? ==> s.threads[t].head < s.q.head
  {
    var evs :| s == Run(Init(n, guarded), evs);
    FifoRun(n, guarded, evs);
    forall t | 0 <= t < n && s.threads[t].PopValue? ensures s.threads[t].head < s.q.head {
      assert FifoPcInv(s.q, s.threads[t]);
    }
  }

  /** Guarded, no thread ever holds a pointer to a freed node, touches one or frees it twice,
      and every node that left the queue is in exactly one place on its way to being freed. */
  lemma GuardedReclamation(n: nat, s: State)
    requires n >= 2 && Reachable(n, true, s)
    ensures !s.bad
    ensures forall t, r :: 0 <= t < |s.threads| && r in Refs(s.threads[t]) ==> r !in s.r.freed
    ensures forall x: nat :: x in s.r.place <==> x < s.q.head
    ensures forall x :: x in s.r.freed ==> x < s.q.head && x < s.q.tail && x !in s.r.first && x !in s.r.second
    ensures forall t :: 0 <= t < |s.threads| && InHand(s.threads[t]) >= 0 ==>
      InHand(s.threads[t]) in s.r.place && s.r.place[InHand(s.threads[t])] == Hand(t)
  {
    var evs :| s == Run(Init(n, true), evs);
    RunInv(n, evs);
    forall t, r | 0 <= t < |s.threads| && r in Refs(s.threads[t]) ensures r !in s.r.freed {
      RefNotFreed(s, t, r);
    }
    forall t | 0 <= t < |s.threads| && InHand(s.threads[t]) >= 0
      ensures InHand(s.threads[t]) in s.r.place && s.r.place[InHand(s.threads[t])] == Hand(t)
    {
      assert ThreadInv(s, t, s.threads[t]);
    }
  }

  // ---- the grace-period protocol by itself, guarded or not

  ghost predicate ProtocolPc(s: State, t: nat, pc: Pc)
    requires t < |s.local|
  {
    && EpochPcInv(s, t, pc)
    && (pc.EndSteal? || pc.EndStore? ==> pc.list != []) && (pc.EndSteal? ==> s.r.second != [])
  }

  /** Nobody is more than one epoch behind. */
  ghost predicate Protocol(s: State) {
    && EpochInv(s)
    && (forall t :: 0 <= t < |s.local| ==> s.r.epoch <= s.local[t] + 1)
    && (forall t :: 0 <= t < |s.threads| ==> ProtocolPc(s, t, s.threads[t]))
  }

  predicate Admin(pc: Pc) { Starter(pc) || EnderEarly(pc) || EnderLate(pc) }

  /** Steps of t that leave the protocol's variables alone. */
  lemma ProtocolMoves(s: State, s': State, t: nat)
    requires Protocol(s) && t < |s.threads| == |s'.threads| && s'.threads == s.threads[t := s'.threads[t]]
    requires s'.local == s.local && s'.r.epoch == s.r.epoch && s'.r.remaining == s.r.remaining
    requires s'.r.first == s.r.first && s'.r.admin == s.r.admin && (s.r.second != [] ==> s'.r.second != [])
    requires ProtocolPc(s', t, s'.threads[t]) && (s.r.admin == t ==> Admin(s'.threads[t]))
    ensures Protocol(s')
  {
    hide Lag;
    forall u | 0 <= u < |s'.threads| ensures ProtocolPc(s', u, s'.threads[u]) { assert ProtocolPc(s, u, s.threads[u]); }
  }

  /** A thread outside the protocol. */
  lemma ProtocolElsewhere(s: State, s': State, t: nat)
    requires Protocol(s) && t < |s.threads| == |s'.threads| && s'.threads == s.threads[t := s'.threads[t]]
    requires s'.local == s.local && s'.r == s.r.(place := s'.r.place) && !Admin(s.threads[t])
    requires QueuePc(s'.threads[t]) || s'.threads[t].Idle? || s'.threads[t].FreeFirst? || s'.threads[t].QuietLoad?
    ensures Protocol(s')
  {
    hide Lag;
    assert ProtocolPc(s, t, s.threads[t]);
    ProtocolMoves(s, s', t);
  }

  lemma ProtocolQueue(s: State, t: nat)
    requires Protocol(s) && t < |s.threads| && QueuePc(s.threads[t])
    ensures Protocol(QueueStep(s, t))
  {
    hide Protocol;
    QueueStepFrame(s, t);
    ProtocolElsewhere(s, QueueStep(s, t), t);
  }

  lemma QueueStepFrame(s: State, t: nat)
    requires t < |s.threads| && QueuePc(s.threads[t])
    ensures var s' := QueueStep(s, t);
      && |s'.threads| == |s.threads| && s'.threads == s.threads[t := s'.threads[t]]
      && s'.local == s.local && s'.r == s.r.(place := s'.r.place)
      && (QueuePc(s'.threads[t]) || s'.threads[t].Idle? || s'.threads[t].FreeFirst?)
  {
    assert s.threads[t := s.threads[t]] == s.threads;
  }

  /** Starting a grace period, and the steps of qsbr_free that only load or push. */
  lemma ProtocolFree(s: State, t: nat)
    requires Protocol(s) && t < |s.threads| && FreePc(s.threads[t])
    requires !s.threads[t].FreeCount? && !s.threads[t].FreeAdvance?
    ensures Protocol(FreeStep(s, t))
  {
    hide Lag;
    var s', pc := FreeStep(s, t), s.threads[t];
    assert ProtocolPc(s, t, pc);
    assert s.threads[t := pc] == s.threads;
    if s'.r.admin == s.r.admin {
      ProtocolMoves(s, s', t);
    } else {
      ProtocolStarts(s, s', t);
    }
  }

  lemma ProtocolStarts(s: State, s': State, t: nat)
    requires Protocol(s) && t < |s.threads| && s.threads[t].FreeFirst? && s.r.first == [] && s'.r.first != []
    requires s'.threads == s.threads[t := FreeEpoch] && s'.local == s.local && s'.r.admin == t
    requires s'.r.epoch == s.r.epoch && s'.r.second == s.r.second
    ensures Protocol(s')
  {
    hide Lag;
    forall u | 0 <= u < |s'.threads| ensures ProtocolPc(s', u, s'.threads[u]) { assert ProtocolPc(s, u, s.threads[u]); }
  }

  lemma ProtocolCount(s: State, t: nat)
    requires Protocol(s) && t < |s.threads| && (s.threads[t].FreeCount? || s.threads[t].EndCount?)
    ensures Protocol(if s.threads[t].FreeCount? then FreeStep(s, t) else QuietStep(s, t))
  {
    hide Lag;
    var s' := if s.threads[t].FreeCount? then FreeStep(s, t) else QuietStep(s, t);
    assert ProtocolPc(s, t, s.threads[t]);
    forall u | 0 <= u < |s'.threads| ensures ProtocolPc(s', u, s'.threads[u]) { assert ProtocolPc(s, u, s.threads[u]); }
  }

  lemma ProtocolAdvances(s: State, t: nat)
    requires Protocol(s) && t < |s.threads| && (s.threads[t].FreeAdvance? || s.threads[t].EndAdvance?)
    ensures Protocol(if s.threads[t].FreeAdvance? then FreeStep(s, t) else QuietStep(s, t))
  {
    hide Lag;
    var s' := if s.threads[t].FreeAdvance? then FreeStep(s, t) else QuietStep(s, t);
    assert ProtocolPc(s, t, s.threads[t]);
    LagOfOthers(s'.local, s'.r.epoch, t);
    forall u | 0 <= u < |s'.threads| ensures ProtocolPc(s', u, s'.threads[u]) { assert ProtocolPc(s, u, s.threads[u]); }
  }

  lemma ProtocolQuiet(s: State, t: nat)
    requires Protocol(s) && t < |s.threads| && s.threads[t].QuietSub?
    ensures Protocol(QuietStep(s, t))
  {
    hide Lag;
    var s', pc := QuietStep(s, t), s.threads[t];
    assert ProtocolPc(s, t, pc);
    LagDrops(s.local, s.r.epoch, t);
    if s.r.remaining == 1 {
      NoLag(s.local[t := s.r.epoch], s.r.epoch);
      forall u | 0 <= u < |s.local| && u != t ensures s.local[u] == s.r.epoch {
        assert s.local[u] == s.local[t := s.r.epoch][u];
      }
    }
    forall u | 0 <= u < |s'.threads| ensures ProtocolPc(s', u, s'.threads[u]) { assert ProtocolPc(s, u, s.threads[u]); }
  }

  /** Ending a grace period. */
  lemma ProtocolEnds(s: State, t: nat)
    requires Protocol(s) && t < |s.threads|
    requires var pc := s.threads[t]; pc.EndSteal? || pc.EndStore? || pc.EndClear?
    ensures Protocol(QuietStep(s, t))
  {
    hide Lag; hide Handover; hide Steal;
    var s', pc := QuietStep(s, t), s.threads[t];
    assert ProtocolPc(s, t, pc);
    forall u | 0 <= u < |s'.threads| ensures ProtocolPc(s', u, s'.threads[u]) { assert ProtocolPc(s, u, s.threads[u]); }
  }

  lemma ProtocolLooks(s: State, t: nat)
    requires Protocol(s) && t < |s.threads|
    requires var pc := s.threads[t]; pc.QuietLoad? || pc.EndTake? || pc.EndLoad? || pc.Freeing?
    ensures Protocol(QuietStep(s, t))
  {
    hide Lag;
    assert ProtocolPc(s, t, s.threads[t]);
    ProtocolMoves(s, QuietStep(s, t), t);
  }

  lemma ProtocolStep(s: State, ev: Event)
    requires Protocol(s)
    ensures Protocol(Step(s, ev)) && |Step(s, ev).threads| == |s.threads|
  {
    hide QueueStep; hide FreeStep; hide QuietStep; hide ProtocolPc;
    var s' := Step(s, ev);
    if ev.t < |s.threads| {
      var pc := s.threads[ev.t];
      if pc.Idle? { ProtocolElsewhere(s, s', ev.t); }
      else if QueuePc(pc) { ProtocolQueue(s, ev.t); QueueStepFrame(s, ev.t); }
      else {
        FifoOtherStep(s, ev);
        if pc.FreeCount? || pc.EndCount? { ProtocolCount(s, ev.t); }
        else if pc.FreeAdvance? || pc.EndAdvance? { ProtocolAdvances(s, ev.t); }
        else if FreePc(pc) { ProtocolFree(s, ev.t); }
        else if pc.QuietSub? { ProtocolQuiet(s, ev.t); }
        else if pc.EndSteal? || pc.EndStore? || pc.EndClear? { ProtocolEnds(s, ev.t); }
        else { ProtocolLooks(s, ev.t); }
      }
    }
  }

  lemma {:induction false} ProtocolRun(n: nat, guarded: bool, evs: seq<Event>)
    requires n >= 2
    ensures var s := Run(Init(n, guarded), evs); Protocol(s) && |s.threads| == n
    decreases |evs|
  {
    hide Step; hide Protocol;
    if evs == [] {
      ProtocolStart(n, guarded);
    } else {
      ProtocolRun(n, guarded, evs[..|evs| - 1]);
      ProtocolStep(Run(Init(n, guarded), evs[..|evs| - 1]), evs[|evs| - 1]);
    }
  }

  lemma ProtocolStart(n: nat, guarded: bool)
    requires n >= 2
    ensures Protocol(Init(n, guarded))
  {
  }

  /** The assertions of qsbr_quiescent, in every run, guarded or not: the counter it decrements is
      at least 1; a thread that ends a grace period finds nodes to free; and what it takes from
      the second list is not empty. */
  lemma SourceAssertions(n: nat, guarded: bool, s: State, t: nat)
    requires n >= 2 && Reachable(n, guarded, s) && t < n
    ensures |s.threads| == n
    ensures s.threads[t].QuietSub? ==> s.r.remaining >= 1
    ensures s.threads[t].EndTake? ==> s.r.first != []
    ensures s.threads[t].EndSteal? && s.r.second == s.threads[t].list ==> s.threads[t].list != []
  {
    hide Lag;
    var evs :| s == Run(Init(n, guarded), evs);
    ProtocolRun(n, guarded, evs);
    assert ProtocolPc(s, t, s.threads[t]);
  }

  // ---- epochs of 32 bits

  const EPOCHS: nat := 0x1_0000_0000

  /** The only comparison of epochs, on what 32 bits hold of them. */
  function Narrow(s: State, ev: Event): State {
    if ev.t < |s.threads| == |s.local| && s.threads[ev.t].QuietLoad? then
      Goto(s, ev.t, if s.r.epoch % EPOCHS == s.local[ev.t] % EPOCHS then Idle else QuietSub(s.r.epoch))
    else Step(s, ev)
  }

  function NarrowRun(s: State, evs: seq<Event>): State
    decreases |evs|
  {
    if evs == [] then s else Narrow(NarrowRun(s, evs[..|evs| - 1]), evs[|evs| - 1])
  }

  lemma NarrowAgrees(s: State, ev: Event)
    requires Protocol(s)
    ensures Narrow(s, ev) == Step(s, ev)
  {
    hide Lag; hide ProtocolPc;
  }

  /** With any number of epochs, and guarded or not, 32-bit epochs make the same run: no thread is
      ever more than one epoch behind. */
  lemma {:induction false} NarrowEpochsAgree(n: nat, guarded: bool, evs: seq<Event>)
    requires n >= 2
    ensures NarrowRun(Init(n, guarded), evs) == Run(Init(n, guarded), evs)
    decreases |evs|
  {
    hide Step; hide Narrow; hide Protocol;
    if evs != [] {
      NarrowEpochsAgree(n, guarded, evs[..|evs| - 1]);
      ProtocolRun(n, guarded, evs[..|evs| - 1]);
      NarrowAgrees(Run(Init(n, guarded), evs[..|evs| - 1]), evs[|evs| - 1]);
    }
  }

  // ---- what a call was asked for

  /** A call as its caller sees it: the command, the node it linked and the one it popped, -1 for
      none, and the states from its start to now.  A pop includes the qsbr_free of the popped node. */
  datatype Call = NoCall | Call(cmd: Cmd, put: int, took: int, since: set<State>)

  predicate Begins(s: State, ev: Event) { ev.t < |s.threads| == |s.local| && s.threads[ev.t].Idle? }

  /** The call goes on with a step from s to s' by thread v. */
  ghost function Later(call: Call, s: State, s': State, v: nat, t: nat): Call {
    if call.NoCall? then NoCall
    else call.(
      put := if v == t && |s'.q.nodes| > |s.q.nodes| then |s.q.nodes| else call.put,
      took := if v == t && s'.q.head > s.q.head then s.q.head else call.took,
      since := call.since + {s'})
  }

  /** The last call that thread t has begun in a run, told from the schedule. */
  ghost function LastCall(o: State, evs: seq<Event>, t: nat): Call
    decreases |evs|
  {
    if evs == [] then NoCall
    else
      var s, ev := Run(o, evs[..|evs| - 1]), evs[|evs| - 1];
      if ev.t == t && Begins(s, ev) then Call(ev.cmd, -1, -1, {Step(s, ev)})
      else Later(LastCall(o, evs[..|evs| - 1], t), s, Step(s, ev), ev.t, t)
  }

  /** The values given to the push calls of a run, in the order in which their nodes were linked. */
  ghost function Given(o: State, evs: seq<Event>): seq<Val>
    decreases |evs|
  {
    if evs == [] then []
    else
      var prev, ev := evs[..|evs| - 1], evs[|evs| - 1];
      var call := LastCall(o, prev, ev.t);
      if |Run(o, evs).q.nodes| == |Run(o, prev).q.nodes| then Given(o, prev)
      else Given(o, prev) + [if call.Call? && call.cmd.Push? then call.cmd.v else 0]
  }

  ghost predicate WasEmpty(since: set<State>) { exists x :: x in since && x.q.head + 1 == |x.q.nodes| }

  ghost predicate WasEpoch(since: set<State>, e: nat) { exists x :: x in since && x.r.epoch == e }

  predicate PushPc(pc: Pc) { pc.PushLoad? || pc.PushLink? || pc.PushHelp? }

  predicate PopPc(pc: Pc) { pc.PopLoad? || pc.PopNext? || pc.PopCas? }

  predicate QuietPc(pc: Pc) { !pc.Idle? && !QueuePc(pc) && !FreePc(pc) }

  /** How a step takes its own thread on. */
  ghost predicate Advances(s: State, s': State, t: nat) {
    && t < |s.threads| == |s'.threads| == |s.local| == |s'.local| && s'.threads == s.threads[t := s'.threads[t]]
    && (forall u :: 0 <= u < |s.local| && u != t ==> s'.local[u] == s.local[u])
    && var pc, pc', q, q' := s.threads[t], s'.threads[t], s.q, s'.q;
    && (q' == q.(nodes := q'.nodes, pushed := q'.pushed, head := q'.head, tail := q'.tail, popped := q'.popped))
    && (if PushPc(pc) && pc'.PushSwing? then
          && q'.pushed == q.pushed + [pc.v] && |q'.nodes| == |q.nodes| + 1 && |q.pushed| + 1 == |q.nodes|
        else q'.pushed == q.pushed && |q'.nodes| == |q.nodes|)
    && (if pc'.PopValue? then pc.PopCas? && pc'.head == q.head && q'.head == q.head + 1 else q'.head == q.head)
    && (if pc.PopValue? then pc' == FreeFirst(pc.head) && q'.popped.Keys == q.popped.Keys + {pc.head}
        else q'.popped == q.popped)
    && (PushPc(pc) ==> (PushPc(pc') && pc'.v == pc.v) || pc'.PushSwing?)
    && (pc.PushSwing? ==> pc'.Idle?)
    && (PopPc(pc) ==> PopPc(pc') || pc'.PopValue? || (pc'.Idle? && q.head + 1 == |q.nodes|))
    && (FreePc(pc) ==> FreePc(pc') || pc'.Idle?)
    && (QuietPc(pc) ==> QuietPc(pc') || pc'.Idle?)
    && (QuietPc(pc) && (pc'.Freeing? || pc'.Idle?) ==>
          if pc.Freeing? then s'.local[t] == s.local[t] else s'.local[t] == s'.r.epoch)
  }

  lemma PushAdvances(s: State, t: nat)
    requires QueueInv(s.q) && t < |s.threads| == |s.local| && FifoPcInv(s.q, s.threads[t])
    requires PushPc(s.threads[t]) || s.threads[t].PushSwing?
    ensures Advances(s, QueueStep(s, t), t)
  {
    hide QueueInv;
    QueueReads(s.q);
    PushedIs(s.q);
  }

  lemma PushedIs(q: Queue)
    requires QueueInv(q)
    ensures |q.pushed| + 1 == |q.nodes|
  {
  }

  lemma PopAdvances(s: State, t: nat)
    requires QueueInv(s.q) && t < |s.threads| == |s.local| && FifoPcInv(s.q, s.threads[t])
    requires PopPc(s.threads[t]) || s.threads[t].PopValue?
    ensures Advances(s, QueueStep(s, t), t)
  {
    hide QueueInv;
    QueueReads(s.q);
  }

  lemma FreeAdvances(s: State, t: nat)
    requires t < |s.threads| == |s.local| && FreePc(s.threads[t])
    ensures Advances(s, FreeStep(s, t), t)
  {
    assert s.threads[t := s.threads[t]] == s.threads;
  }

  lemma QuietAdvances(s: State, t: nat)
    requires Protocol(s) && t < |s.threads| && QuietPc(s.threads[t])
    ensures Advances(s, QuietStep(s, t), t)
  {
    hide Lag; hide Handover; hide Steal; hide Advances;
    assert ProtocolPc(s, t, s.threads[t]);
    QuietUntouched(s, t);
    QuietLocal(s, t);
    OnlyQuiet(s, QuietStep(s, t), t);
  }

  /** The epoch of a thread that leaves qsbr_quiescent. */
  ghost predicate LeavesQuiet(s: State, s': State, t: nat)
    requires t < |s.threads| == |s.local|
  {
    && |s'.local| == |s.local| && |s'.threads| == |s.threads|
    && (forall u :: 0 <= u < |s.local| && u != t ==> s'.local[u] == s.local[u])
    && (QuietPc(s'.threads[t]) || s'.threads[t].Idle?)
    && (s'.threads[t].Freeing? || s'.threads[t].Idle? ==>
          if s.threads[t].Freeing? then s'.local[t] == s.local[t] else s'.local[t] == s'.r.epoch)
  }

  lemma QuietLocal(s: State, t: nat)
    requires t < |s.threads| == |s.local| && QuietPc(s.threads[t]) && ProtocolPc(s, t, s.threads[t])
    ensures LeavesQuiet(s, QuietStep(s, t), t)
  {
    hide QuietStep; hide LeavesQuiet; hide ProtocolPc;
    var pc := s.threads[t];
    if pc.QuietLoad? || pc.QuietSub? || pc.EndTake? || pc.EndLoad? { QuietLocalEarly(s, t); }
    else if pc.EndSteal? || pc.EndStore? || pc.EndClear? { QuietLocalEnd(s, t); }
    else { QuietLocalLate(s, t); }
  }

  lemma QuietLocalEarly(s: State, t: nat)
    requires t < |s.threads| == |s.local| && ProtocolPc(s, t, s.threads[t])
    requires var pc := s.threads[t]; pc.QuietLoad? || pc.QuietSub? || pc.EndTake? || pc.EndLoad?
    ensures LeavesQuiet(s, QuietStep(s, t), t)
  {
    hide Handover; hide Steal;
  }

  lemma QuietLocalEnd(s: State, t: nat)
    requires t < |s.threads| == |s.local| && ProtocolPc(s, t, s.threads[t])
    requires var pc := s.threads[t]; pc.EndSteal? || pc.EndStore? || pc.EndClear?
    ensures LeavesQuiet(s, QuietStep(s, t), t)
  {
    hide Handover; hide Steal;
  }

  lemma QuietLocalLate(s: State, t: nat)
    requires t < |s.threads| == |s.local| && ProtocolPc(s, t, s.threads[t])
    requires var pc := s.threads[t]; pc.EndCount? || pc.EndAdvance? || pc.Freeing?
    ensures LeavesQuiet(s, QuietStep(s, t), t)
  {
    hide Handover; hide Steal;
  }

  lemma OnlyQuiet(s: State, s': State, t: nat)
    requires t < |s.threads| == |s.local| && QuietPc(s.threads[t]) && QueueUntouched(s, s', t) && LeavesQuiet(s, s', t)
    ensures Advances(s, s', t)
  {
  }

  lemma StepAdvances(s: State, ev: Event)
    requires FifoInv(s) && Protocol(s) && |s.threads| == |s.local| && ev.t < |s.threads| && !s.threads[ev.t].Idle?
    ensures Advances(s, Step(s, ev), ev.t)
  {
    hide QueueInv; hide Protocol; hide QueueStep; hide FreeStep; hide QuietStep; hide Advances; hide FifoPcInv;
    var pc := s.threads[ev.t];
    if PushPc(pc) || pc.PushSwing? { PushAdvances(s, ev.t); }
    else if QueuePc(pc) { PopAdvances(s, ev.t); }
    else if FreePc(pc) { FreeAdvances(s, ev.t); }
    else { QuietAdvances(s, ev.t); }
  }

  /** The push has linked a node with its value. */
  predicate Pushed(call: Call, q: Queue)
    requires call.Call?
  {
    call.cmd.Push? && 1 <= call.put <= |q.pushed| && q.pushed[call.put - 1] == call.cmd.v
  }

  predicate Popped(call: Call, q: Queue)
    requires call.Call?
  {
    call.cmd.Pop? && 0 <= call.took && call.took in q.popped
  }

  /** The call that pc works for, and how far it has come. */
  ghost predicate Serves(call: Call, s: State, t: nat, pc: Pc)
    requires t < |s.local|
  {
    if pc.Idle? then
      call.Call? ==>
        match call.cmd
        case Push(_) => Pushed(call, s.q)
        case Pop => Popped(call, s.q) || (call.took == -1 && WasEmpty(call.since))
        case Quiesce => WasEpoch(call.since, s.local[t])
    else
      && call.Call?
      && (if PushPc(pc) then call.cmd == Push(pc.v)
          else if pc.PushSwing? then Pushed(call, s.q)
          else if PopPc(pc) then call.cmd.Pop? && call.took == -1
          else if pc.PopValue? then call.cmd.Pop? && call.took == pc.head
          else if FreePc(pc) then Popped(call, s.q)
          else call.cmd.Quiesce? && (pc.Freeing? ==> WasEpoch(call.since, s.local[t])))
  }

  lemma WasLater(since: set<State>, s: State, e: nat)
    ensures WasEmpty(since) || s.q.head + 1 == |s.q.nodes| ==> WasEmpty(since + {s})
    ensures WasEpoch(since, e) || s.r.epoch == e ==> WasEpoch(since + {s}, e)
  {
    var since' := since + {s};
    assert s in since';
    if WasEmpty(since) {
      var x :| x in since && x.q.head + 1 == |x.q.nodes|;
      assert x in since';
    }
    if WasEpoch(since, e) {
      var x :| x in since && x.r.epoch == e;
      assert x in since';
    }
  }

  lemma ServesOn(call: Call, s: State, s': State, t: nat)
    requires t < |s.local| && Advances(s, s', t) && !s.threads[t].Idle? && Serves(call, s, t, s.threads[t])
    ensures Serves(Later(call, s, s', t, t), s', t, s'.threads[t])
  {
    hide WasEmpty; hide WasEpoch;
    WasLater(call.since, s', s'.local[t]);
  }

  lemma ServesStill(call: Call, s: State, s': State, v: nat, t: nat)
    requires t < |s.local| && v != t && v < |s.threads| && Advances(s, s', v) && Serves(call, s, t, s.threads[t])
    ensures Serves(Later(call, s, s', v, t), s', t, s'.threads[t])
  {
    hide WasEmpty; hide WasEpoch;
    if call.Call? { WasLater(call.since, s', s.local[t]); }
  }

  lemma ServesStep(s: State, ev: Event, call: Call, t: nat)
    requires FifoInv(s) && Protocol(s) && t < |s.threads| == |s.local| && Serves(call, s, t, s.threads[t])
    ensures var s' := Step(s, ev);
      && |s'.threads| == |s.threads| == |s'.local|
      && Serves(if ev.t == t && Begins(s, ev) then Call(ev.cmd, -1, -1, {s'}) else Later(call, s, s', ev.t, t),
                s', t, s'.threads[t])
  {
    hide FifoInv; hide Protocol; hide QueueStep; hide FreeStep; hide QuietStep; hide Advances; hide Serves;
    var s' := Step(s, ev);
    if ev.t < |s.threads| && !s.threads[ev.t].Idle? {
      StepAdvances(s, ev);
      AdvancesFrame(s, s', ev.t);
      if ev.t == t { ServesOn(call, s, s', t); } else { ServesStill(call, s, s', ev.t, t); }
    } else if ev.t == t {
      ServesFirst(s, ev);
    } else {
      ServesIdle(call, s, s', ev.t, t);
    }
  }

  lemma AdvancesFrame(s: State, s': State, t: nat)
    requires Advances(s, s', t)
    ensures |s'.threads| == |s.threads| == |s'.local|
  {
  }

  lemma ServesFirst(s: State, ev: Event)
    requires Begins(s, ev)
    ensures var s' := Step(s, ev);
      && |s'.threads| == |s.threads| == |s'.local|
      && Serves(Call(ev.cmd, -1, -1, {s'}), s', ev.t, s'.threads[ev.t])
  {
  }

  lemma ServesIdle(call: Call, s: State, s': State, v: nat, t: nat)
    requires t < |s.local| == |s.threads| && v != t && Serves(call, s, t, s.threads[t])
    requires s'.q == s.q && s'.local == s.local && |s'.threads| == |s.threads| && s'.threads[t] == s.threads[t]
    ensures Serves(Later(call, s, s', v, t), s', t, s'.threads[t])
  {
    hide WasEmpty; hide WasEpoch;
    if call.Call? { WasLater(call.since, s', s.local[t]); }
  }

  lemma {:induction false} CallsServed(n: nat, guarded: bool, evs: seq<Event>, t: nat)
    requires n >= 2 && t < n
    ensures var s := Run(Init(n, guarded), evs);
      && |s.threads| == n == |s.local|
      && Serves(LastCall(Init(n, guarded), evs, t), s, t, s.threads[t])
    decreases |evs|
  {
    hide Step; hide FifoInv; hide Protocol; hide Serves;
    FifoRun(n, guarded, evs);
    if evs == [] {
      NothingServed(n, guarded, t);
    } else {
      var prev := evs[..|evs| - 1];
      FifoRun(n, guarded, prev);
      ProtocolRun(n, guarded, prev);
      CallsServed(n, guarded, prev, t);
      ServesStep(Run(Init(n, guarded), prev), evs[|evs| - 1], LastCall(Init(n, guarded), prev, t), t);
    }
  }

  lemma NothingServed(n: nat, guarded: bool, t: nat)
    requires t < n
    ensures Serves(NoCall, Init(n, guarded), t, Idle)
  {
  }

  /** What calls do, in every run, guarded or not: a push that has returned has linked a node with
      the value its caller gave; a pop that has returned has delivered the value of the node it
      took, or took none because at some moment of the call the queue was empty; and after
      qsbr_quiescent the thread's epoch is one the global epoch had during the call. */
  lemma CallsReturn(n: nat, guarded: bool, evs: seq<Event>, t: nat)
    requires n >= 2 && t < n
    ensures var s, call := Run(Init(n, guarded), evs), LastCall(Init(n, guarded), evs, t);
      && |s.threads| == n == |s.local|
      && (s.threads[t].Idle? && call.Call? ==>
            match call.cmd
            case Push(v) => 1 <= call.put <= |s.q.pushed| && s.q.pushed[call.put - 1] == v
            case Pop =>
              || (0 <= call.took && call.took in s.q.popped)
              || (call.took == -1 && exists x :: x in call.since && x.q.head + 1 == |x.q.nodes|)
            case Quiesce => exists x :: x in call.since && x.r.epoch == s.local[t])
  {
    hide Run; hide LastCall; hide Init;
    CallsServed(n, guarded, evs, t);
  }

  /** The values in the queue are those its callers gave, in the order of linking. */
  lemma {:induction false} PushedAreGiven(n: nat, guarded: bool, evs: seq<Event>)
    requires n >= 2
    ensures Run(Init(n, guarded), evs).q.pushed == Given(Init(n, guarded), evs)
    decreases |evs|
  {
    hide Step; hide FifoInv; hide Protocol; hide Serves; hide Advances; hide LastCall;
    if evs != [] {
      var prev, ev := evs[..|evs| - 1], evs[|evs| - 1];
      var s := Run(Init(n, guarded), prev);
      PushedAreGiven(n, guarded, prev);
      FifoRun(n, guarded, prev);
      if ev.t < n && !s.threads[ev.t].Idle? {
        ProtocolRun(n, guarded, prev);
        CallsServed(n, guarded, prev, ev.t);
        StepAdvances(s, ev);
        PushGiven(s, Step(s, ev), ev.t, LastCall(Init(n, guarded), prev, ev.t));
      } else {
        SameQueue(s, ev);
      }
    }
  }

  lemma PushGiven(s: State, s': State, t: nat, call: Call)
    requires t < |s.local| && Advances(s, s', t) && !s.threads[t].Idle? && Serves(call, s, t, s.threads[t])
    ensures if |s'.q.nodes| == |s.q.nodes| then s'.q.pushed == s.q.pushed
      else call.Call? && call.cmd.Push? && s'.q.pushed == s.q.pushed + [call.cmd.v]
  {
  }

  lemma SameQueue(s: State, ev: Event)
    requires |s.threads| == |s.local| && (ev.t < |s.threads| ==> s.threads[ev.t].Idle?)
    ensures Step(s, ev).q == s.q
  {
  }

  /** The queue as its callers see it: the pop of node h delivers the value given to the push that
      was the h-th to link its node. */
  lemma DeliversInOrder(n: nat, guarded: bool, evs: seq<Event>, h: nat)
    requires n >= 2 && h in Run(Init(n, guarded), evs).q.popped
    ensures h < |Given(Init(n, guarded), evs)|
    ensures Run(Init(n, guarded), evs).q.popped[h] == Given(Init(n, guarded), evs)[h]
  {
    hide Run; hide Given; hide Init;
    PushedAreGiven(n, guarded, evs);
    assert Reachable(n, guarded, Run(Init(n, guarded), evs));
    QueueIsFifo(n, guarded, Run(Init(n, guarded), evs));
  }

  // ---- every node is popped once

  /** The node whose value a thread is about to deliver, -1 for none. */
  function Popping(pc: Pc): int { if pc.PopValue? then pc.head else -1 }

  ghost predicate PopHeld(threads: seq<Pc>, h: nat) { exists t :: 0 <= t < |threads| && Popping(threads[t]) == h }

  ghost predicate PoppedOnce(q: Queue, threads: seq<Pc>) {
    && (forall h: nat :: h < q.head <==> h in q.popped || PopHeld(threads, h))
    && (forall t :: 0 <= t < |threads| ==> Popping(threads[t]) !in q.popped)
    && (forall t, u :: 0 <= t < u < |threads| && Popping(threads[t]) == Popping(threads[u]) ==>
          Popping(threads[t]) == -1)
  }

  lemma PoppedOnceStep(s: State, s': State, t: nat)
    requires t < |s.threads| && Advances(s, s', t) && PoppedOnce(s.q, s.threads)
    ensures PoppedOnce(s'.q, s'.threads)
  {
    hide Advances;
    PopsOn(s, s', t);
    forall h: nat ensures h < s'.q.head <==> h in s'.q.popped || PopHeld(s'.threads, h) {
      if h < s'.q.head && h !in s'.q.popped {
        if h == s.q.head { assert Popping(s'.threads[t]) == h; }
        else {
          assert PopHeld(s.threads, h);
          var u :| 0 <= u < |s.threads| && Popping(s.threads[u]) == h;
          assert Popping(s'.threads[u]) == h;
        }
      }
      if PopHeld(s'.threads, h) {
        var u :| 0 <= u < |s'.threads| && Popping(s'.threads[u]) == h;
        if u != t { assert Popping(s.threads[u]) == h && PopHeld(s.threads, h); }
      }
      if h in s'.q.popped && h !in s.q.popped { assert Popping(s.threads[t]) == h && PopHeld(s.threads, h); }
    }
    forall u | 0 <= u < |s'.threads| && u != t && Popping(s.threads[u]) >= 0
      ensures Popping(s.threads[u]) < s.q.head
    {
      assert PopHeld(s.threads, Popping(s.threads[u]));
    }
  }

  /** What a step does to what is being popped. */
  lemma PopsOn(s: State, s': State, t: nat)
    requires t < |s.threads| && Advances(s, s', t)
    ensures |s'.threads| == |s.threads| && s'.threads == s.threads[t := s'.threads[t]]
    ensures if Popping(s'.threads[t]) >= 0 then
        Popping(s'.threads[t]) == s.q.head && s'.q.head == s.q.head + 1 && s'.q.popped == s.q.popped
        && Popping(s.threads[t]) == -1
      else
        && s'.q.head == s.q.head
        && s'.q.popped.Keys == s.q.popped.Keys + (if s.threads[t].PopValue? then {s.threads[t].head} else {})
    ensures Popping(s.threads[t]) >= -1 && Popping(s'.threads[t]) >= -1
  {
  }

  lemma {:induction false} PoppedOnceRun(n: nat, guarded: bool, evs: seq<Event>)
    requires n >= 2
    ensures var s := Run(Init(n, guarded), evs); PoppedOnce(s.q, s.threads)
    decreases |evs|
  {
    hide Step; hide FifoInv; hide Protocol; hide Advances; hide PoppedOnce;
    if evs == [] {
      NothingPopped(n, guarded);
    } else {
      var prev, ev := evs[..|evs| - 1], evs[|evs| - 1];
      var s := Run(Init(n, guarded), prev);
      PoppedOnceRun(n, guarded, prev);
      FifoRun(n, guarded, prev);
      ProtocolRun(n, guarded, prev);
      if ev.t < n && !s.threads[ev.t].Idle? {
        StepAdvances(s, ev);
        PoppedOnceStep(s, Step(s, ev), ev.t);
      } else {
        PoppedOnceIdle(s, ev);
      }
    }
  }

  lemma NothingPopped(n: nat, guarded: bool)
    ensures PoppedOnce(Init(n, guarded).q, Init(n, guarded).threads)
  {
  }

  lemma PoppedOnceIdle(s: State, ev: Event)
    requires |s.threads| == |s.local| && PoppedOnce(s.q, s.threads) && (ev.t < |s.threads| ==> s.threads[ev.t].Idle?)
    ensures PoppedOnce(Step(s, ev).q, Step(s, ev).threads)
  {
    var s' := Step(s, ev);
    forall h: nat ensures PopHeld(s.threads, h) <==> PopHeld(s'.threads, h) {
      if PopHeld(s.threads, h) {
        var u :| 0 <= u < |s.threads| && Popping(s.threads[u]) == h;
        assert Popping(s'.threads[u]) == h;
      }
      if PopHeld(s'.threads, h) {
        var u :| 0 <= u < |s'.threads| && Popping(s'.threads[u]) == h;
        assert Popping(s.threads[u]) == h;
      }
    }
  }

  /** In every run, guarded or not, no node is popped twice and none is passed over: each node the
      head has left has delivered its value or is with exactly one thread that is about to. */
  lemma EachPoppedOnce(n: nat, guarded: bool, s: State)
    requires n >= 2 && Reachable(n, guarded, s)
    ensures forall h: nat :: h < s.q.head ==>
      h in s.q.popped || exists t :: 0 <= t < |s.threads| && Popping(s.threads[t]) == h
    ensures forall t, u :: 0 <= t < u < |s.threads| && Popping(s.threads[t]) == Popping(s.threads[u]) ==>
      Popping(s.threads[t]) == -1
    ensures forall t :: 0 <= t < |s.threads| ==> Popping(s.threads[t]) !in s.q.popped
  {
    hide Run; hide Init;
    var evs :| s == Run(Init(n, guarded), evs);
    PoppedOnceRun(n, guarded, evs);
    forall h: nat | h < s.q.head && h !in s.q.popped
      ensures exists t :: 0 <= t < |s.threads| && Popping(s.threads[t]) == h
    {
      assert PopHeld(s.threads, h);
    }
  }

  // ---- the program as written, in the runs that respect the guard by themselves

  /** The step hands a node to qsbr_free while the queue's tail still points to it. */
  predicate FreesTail(s: State, ev: Event) {
    ev.t < |s.threads| && s.threads[ev.t].FreeFirst? && s.q.tail == s.threads[ev.t].e
  }

  lemma StepErased(s: State, ev: Event)
    requires s.guarded && !FreesTail(s, ev)
    ensures Step(s.(guarded := false), ev) == Step(s, ev).(guarded := false) && Step(s, ev).guarded
  {
    hide QueueStep; hide FreeStep; hide QuietStep;
    if ev.t < |s.threads| == |s.local| {
      var pc := s.threads[ev.t];
      if QueuePc(pc) { QueueErased(s, ev.t); }
      else if FreePc(pc) { FreeErased(s, ev.t); }
      else if !pc.Idle? { QuietErased(s, ev.t); }
    }
  }

  lemma QueueErased(s: State, t: nat)
    requires s.guarded && t < |s.threads| && QueuePc(s.threads[t])
    ensures QueueStep(s.(guarded := false), t) == QueueStep(s, t).(guarded := false) && QueueStep(s, t).guarded
  {
  }

  lemma FreeErased(s: State, t: nat)
    requires s.guarded && t < |s.threads| == |s.local| && FreePc(s.threads[t])
    requires s.threads[t].FreeFirst? ==> s.q.tail != s.threads[t].e
    ensures FreeStep(s.(guarded := false), t) == FreeStep(s, t).(guarded := false) && FreeStep(s, t).guarded
  {
  }

  lemma QuietErased(s: State, t: nat)
    requires s.guarded && t < |s.threads| == |s.local| && !QueuePc(s.threads[t]) && !FreePc(s.threads[t])
    requires !s.threads[t].Idle?
    ensures QuietStep(s.(guarded := false), t) == QuietStep(s, t).(guarded := false) && QuietStep(s, t).guarded
  {
    hide QuietStep;
    var pc := s.threads[t];
    if pc.QuietLoad? || pc.QuietSub? || pc.EndTake? || pc.EndLoad? { QuietErasedEarly(s, t); }
    else if pc.EndSteal? || pc.EndStore? || pc.EndClear? { QuietErasedEnd(s, t); }
    else { QuietErasedLate(s, t); }
  }

  lemma QuietErasedEarly(s: State, t: nat)
    requires s.guarded && t < |s.threads| == |s.local|
    requires var pc := s.threads[t]; pc.QuietLoad? || pc.QuietSub? || pc.EndTake? || pc.EndLoad?
    ensures QuietStep(s.(guarded := false), t) == QuietStep(s, t).(guarded := false) && QuietStep(s, t).guarded
  {
    hide Handover; hide Steal;
  }

  lemma QuietErasedEnd(s: State, t: nat)
    requires s.guarded && t < |s.threads| == |s.local|
    requires var pc := s.threads[t]; pc.EndSteal? || pc.EndStore? || pc.EndClear?
    ensures QuietStep(s.(guarded := false), t) == QuietStep(s, t).(guarded := false) && QuietStep(s, t).guarded
  {
    hide Handover; hide Steal;
  }

  lemma QuietErasedLate(s: State, t: nat)
    requires s.guarded && t < |s.threads| == |s.local|
    requires var pc := s.threads[t]; pc.EndCount? || pc.EndAdvance? || pc.Freeing?
    ensures QuietStep(s.(guarded := false), t) == QuietStep(s, t).(guarded := false) && QuietStep(s, t).guarded
  {
    hide Handover; hide Steal;
  }

  /** A run of the program as written in which no node is handed to qsbr_free while the tail
      points to it is, step for step, a guarded run: so it is safe, and all that is shown of
      guarded runs holds of it. */
  lemma {:induction false} SafeUnlessTailFreed(n: nat, evs: seq<Event>)
    requires n >= 2 && forall k :: 0 <= k < |evs| ==> !FreesTail(Run(Init(n, false), evs[..k]), evs[k])
    ensures Run(Init(n, false), evs).(guarded := true) == Run(Init(n, true), evs)
    ensures Reachable(n, true, Run(Init(n, false), evs).(guarded := true)) && !Run(Init(n, false), evs).bad
    decreases |evs|
  {
    hide Step; hide Inv; hide FreesTail;
    if evs != [] {
      var evs0, ev := evs[..|evs| - 1], evs[|evs| - 1];
      forall k | 0 <= k < |evs0| ensures !FreesTail(Run(Init(n, false), evs0[..k]), evs0[k]) {
        assert evs0[..k] == evs[..k];
      }
      SafeUnlessTailFreed(n, evs0);
      var s, s' := Run(Init(n, true), evs0), Run(Init(n, false), evs0);
      SameFreesTail(s, s', ev);
      GuardKept(n, evs0);
      StepErased(s, ev);
      GuardUnset(n, evs0);
      assert s.(guarded := false) == s';
    }
    GuardUnset(n, evs);
    GuardKept(n, evs);
    GuardedReclamation(n, Run(Init(n, true), evs));
  }

  lemma SameFreesTail(s: State, s': State, ev: Event)
    requires s'.(guarded := true) == s && !FreesTail(s', ev)
    ensures !FreesTail(s, ev)
  {
  }

  lemma StepKeepsGuard(s: State, ev: Event)
    ensures Step(s, ev).guarded == s.guarded
  {
  }

  lemma {:induction false} GuardKept(n: nat, evs: seq<Event>)
    ensures Run(Init(n, true), evs).guarded
    decreases |evs|
  {
    hide Step;
    if evs != [] {
      GuardKept(n, evs[..|evs| - 1]);
      StepKeepsGuard(Run(Init(n, true), evs[..|evs| - 1]), evs[|evs| - 1]);
    }
  }

  lemma {:induction false} GuardUnset(n: nat, evs: seq<Event>)
    ensures !Run(Init(n, false), evs).guarded
    decreases |evs|
  {
    hide Step;
    if evs != [] {
      GuardUnset(n, evs[..|evs| - 1]);
      StepKeepsGuard(Run(Init(n, false), evs[..|evs| - 1]), evs[|evs| - 1]);
    }
  }

  // ------------------------------------------------------- why the guard matters

  const V: Val := 7

  /** Thread 1 has linked its node but not moved the tail off node 0; thread 0 has popped
      node 0, given it to qsbr_free, which started an epoch, and then begun a push and
      loaded the tail, node 0 again.  Of the other threads those below k have since gone
      through a quiescent point. */
  function Lagging(n: nat, k: nat): State
    requires 2 <= k <= n
  {
    State(false, Queue([Node(0, 1), Node(V, NULL)], 1, 0, [V], map[0 := V]),
          Reclaim(1, n + 1 - k, [0], [], {}, map[0 := First], NULL), false,
          seq(n, i => if i == 0 || 2 <= i < k then 1 else 0),
          seq(n, i => if i == 0 then PushLink(V, 0) else if i == 1 then PushSwing(0, 1) else Idle))
  }

  lemma ReachLagging(n: nat)
    requires n >= 2
    ensures Reachable(n, false, Lagging(n, 2))
  {
    var s := Init(n, false);
    assert s == Run(Init(n, false), []);
    hide Reachable; hide Run; hide FreeStep; hide QuietStep;
    s := PushHalfway(n, s);
    s := PopNode(n, s);
    s := FreeNode(n, s);
    s := StartEpoch(n, s);
    LoadsTail(n, s);
  }

  lemma LoadsTail(n: nat, s: State)
    requires n >= 2 && Reachable(n, false, s) && s.threads == Lagging(n, 2).threads[0 := Idle]
    requires s.local == Lagging(n, 2).local
    requires s == Lagging(n, 2).(threads := s.threads, local := s.local)
    ensures Reachable(n, false, Lagging(n, 2))
  {
    hide Reachable; hide FreeStep; hide QuietStep;
    var ev, s' := Event(0, Push(V)), Lagging(n, 2);
    ReachStep(n, false, s, ev);
    var s1 := Goto(s, 0, PushLoad(V));
    assert s1 == Step(s, ev);
    ReachStep(n, false, s1, ev);
    assert Goto(s1, 0, PushLink(V, 0)).threads == s'.threads;
    assert Step(s1, ev) == s';
  }

  /** Thread 1 links node 1. */
  lemma PushHalfway(n: nat, s: State) returns (s': State)
    requires n >= 2 && s == Init(n, false) && Reachable(n, false, s)
    ensures Reachable(n, false, s')
    ensures s' == s.(q := s.q.(nodes := [Node(0, 1), Node(V, NULL)], pushed := [V]),
      threads := s.threads[1 := PushSwing(0, 1)])
  {
    var ev := Event(1, Push(V));
    s' := Step(s, ev);
    ReachStep(n, false, s, ev);
    ReachStep(n, false, s', ev);
    s' := Step(s', ev);
    ReachStep(n, false, s', ev);
    s' := Step(s', ev);
  }

  /** Thread 0 pops node 0 ... */
  lemma PopNode(n: nat, s: State) returns (s': State)
    requires n >= 2 && Reachable(n, false, s)
    requires s == Init(n, false).(q := Init(n, false).q.(nodes := [Node(0, 1), Node(V, NULL)], pushed := [V]),
      threads := Init(n, false).threads[1 := PushSwing(0, 1)])
    ensures Reachable(n, false, s')
    ensures s' == s.(q := s.q.(head := 1, popped := map[0 := V]), r := s.r.(place := map[0 := Hand(0)]),
      threads := s.threads[0 := FreeFirst(0)])
  {
    var ev := Event(0, Pop);
    s' := Step(s, ev);
    ReachStep(n, false, s, ev);
    ReachStep(n, false, s', ev);
    s' := Step(s', ev);
    ReachStep(n, false, s', ev);
    s' := Step(s', ev);
    ReachStep(n, false, s', ev);
    s' := Step(s', ev);
    ReachStep(n, false, s', ev);
    s' := Step(s', ev);
  }

  /** ... hands it to qsbr_free, which finds no grace period running ... */
  lemma FreeNode(n: nat, s: State) returns (s': State)
    requires n >= 2 && Reachable(n, false, s) && |s.threads| == |s.local| == n
    requires s.threads[0] == FreeFirst(0) && s.r.place == map[0 := Hand(0)]
    requires !s.guarded && !s.bad && s.r.first == [] && s.r.freed == {} && s.r.epoch == 0
    ensures Reachable(n, false, s')
    ensures s' == s.(r := s.r.(first := [0], place := map[0 := First], admin := 0),
      threads := s.threads[0 := FreeCount(0)])
  {
    var ev := Event(0, Pop);
    var s1 := s.(r := s.r.(first := [0], place := map[0 := First], admin := 0), threads := s.threads[0 := FreeEpoch]);
    assert s1 == Step(s, ev);
    ReachStep(n, false, s, ev);
    s' := Step(s1, ev);
    ReachStep(n, false, s1, ev);
  }

  /** ... and starts one. */
  lemma StartEpoch(n: nat, s: State) returns (s': State)
    requires n >= 2 && Reachable(n, false, s) && |s.threads| == |s.local| == n
    requires s.threads[0] == FreeCount(0)
    ensures Reachable(n, false, s')
    ensures s' == s.(r := s.r.(epoch := 1, remaining := n - 1, admin := NULL), local := s.local[0 := 1],
      threads := s.threads[0 := Idle])
  {
    var ev := Event(0, Pop);
    var s1 := s.(r := s.r.(remaining := n - 1), threads := s.threads[0 := FreeAdvance(0)]);
    assert s1 == Step(s, ev);
    ReachStep(n, false, s, ev);
    s' := Step(s1, ev);
    ReachStep(n, false, s1, ev);
  }

  /** The bystanders go through a quiescent point one by one. */
  lemma {:induction false} BystandersPass(n: nat, k: nat)
    requires 2 <= k <= n && Reachable(n, false, Lagging(n, k))
    ensures Reachable(n, false, Lagging(n, n))
    decreases n - k
  {
    if k < n {
      var ev := Event(k, Quiesce);
      var s := Lagging(n, k);
      var s1 := Step(s, ev);
      ReachStep(n, false, s, ev);
      var s2 := Step(s1, ev);
      ReachStep(n, false, s1, ev);
      var s3 := Step(s2, ev);
      ReachStep(n, false, s2, ev);
      assert s3.threads == Lagging(n, k + 1).threads;
      assert s3.local == Lagging(n, k + 1).local;
      BystandersPass(n, k + 1);
    }
  }

  /** Thread 1 moves the tail and is the last to go through a quiescent point, ... */
  lemma LastPasses(n: nat) returns (s': State)
    requires n >= 2 && Reachable(n, false, Lagging(n, n))
    ensures Reachable(n, false, s')
    ensures s' == Lagging(n, n).(q := Lagging(n, n).q.(tail := 1), r := Lagging(n, n).r.(remaining := 0, admin := 1),
      threads := Lagging(n, n).threads[1 := EndTake(1)])
  {
    var s := Lagging(n, n);
    var ev := Event(1, Quiesce);
    s' := Step(s, ev);
    ReachStep(n, false, s, ev);
    ReachStep(n, false, s', ev);
    s' := Step(s', ev);
    ReachStep(n, false, s', ev);
    s' := Step(s', ev);
    ReachStep(n, false, s', ev);
    s' := Step(s', ev);
  }

  /** ... it ends the grace period of node 0, ... */
  lemma EndGrace(n: nat, s: State) returns (s': State)
    requires n >= 2 && Reachable(n, false, s) && |s.threads| == |s.local| == n
    requires s.threads[1] == EndTake(1) && s.r.first == [0] && s.r.second == []
    ensures Reachable(n, false, s')
    ensures |s'.threads| == |s'.local| == n && s'.threads == s.threads[1 := Freeing([0])] && s'.q.nodes == s.q.nodes
  {
    hide Reachable; hide QueueStep; hide FreeStep; hide Steal;
    var ev := Event(1, Quiesce);
    var s1 := s.(threads := s.threads[1 := EndLoad(1, [0])]);
    assert s1 == Step(s, ev);
    ReachStep(n, false, s, ev);
    var s2 := s.(threads := s.threads[1 := EndClear(1, [0])]);
    assert s2 == Step(s1, ev);
    ReachStep(n, false, s1, ev);
    s' := Step(s2, ev);
    ReachStep(n, false, s2, ev);
  }

  /** ... it frees node 0, and thread 0 follows its pointer. */
  lemma UseAfterFree(n: nat, s: State) returns (s': State)
    requires n >= 2 && Reachable(n, false, s) && |s.threads| == |s.local| == n
    requires s.threads[1] == Freeing([0]) && s.threads[0] == PushLink(V, 0) && |s.q.nodes| > 0 && s.q.nodes[0].next == 1
    ensures Reachable(n, false, s') && s'.bad
  {
    var s1 := Step(s, Event(1, Quiesce));
    ReachStep(n, false, s, Event(1, Quiesce));
    s' := Step(s1, Event(0, Quiesce));
    ReachStep(n, false, s1, Event(0, Quiesce));
  }

  /** Reclamation is safe in every run if and only if callers wait until the queue's tail
      has left a node before they give it to qsbr_free: a grace period does not protect
      against a tail that still points to the node. */
  lemma SafeExactlyWhenGuarded(n: nat, guarded: bool)
    requires n >= 2
    ensures (forall s :: Reachable(n, guarded, s) ==> !s.bad) <==> guarded
  {
    if guarded {
      forall s | Reachable(n, guarded, s) ensures !s.bad { GuardedReclamation(n, s); }
    } else {
      ReachLagging(n);
      BystandersPass(n, 2);
      var s := LastPasses(n);
      s := EndGrace(n, s);
      s := UseAfterFree(n, s);
    }
  }
}
