/** The segmented ticket queue of mpmc/mpmc.c: enqueuers and dequeuers draw tickets,
    ticket i belongs to cell i mod N of the segment with id i / N, segments are appended
    to a linked list on demand, and dequeuers free the segments that no handle can reach
    any more.

    Each atomic access is one step and a run is any schedule.  Memory is not reused: a
    freed segment stays freed, and `bad` records that some thread touched a freed segment,
    freed one twice, or took a value for the address of a waiting thread's futex. */
module Mpmc {

  /** Cells per segment. */
  const N: nat := 4096

  type Val = int
  const NULL := -1

  datatype Node = Node(id: nat, next: int)

  /** A cell that is not NULL holds a value or the address of a waiting dequeuer's futex. */
  datatype Cell = Null | Value(v: Val) | Waiter(u: nat)

  /** Whether a thread looks for the cell of an enqueue or of a dequeue. */
  datatype Kind = Put(v: Val) | Get

  datatype Pc =
    | Idle
    | Ticket(k: Kind)
    // mpmc_find_cell
    | FindStart(k: Kind, i: nat)
    | Find(k: Kind, i: nat, curr: nat, j: nat)
    | FindCas(k: Kind, i: nat, curr: nat, j: nat)
    // mpmc_enqueue
    | PutXchg(v: Val, i: nat, c: nat)
    | PutWake(i: nat, u: nat)
    | PutNotify(u: nat)
    // mpmc_dequeue
    | GetSpin(i: nat, c: nat)
    | GetXchg(i: nat, c: nat)
    | GetWait(i: nat, c: nat)
    | GetOver(i: nat)
    // reclamation
    | RecLock(init: nat)
    | RecStart(init: nat)
    | ScanDeq(init: nat, node: nat, min: nat, m: nat)
    | ScanEnq(init: nat, node: nat, min: nat, m: nat)
    | Decide(init: nat, node: nat, min: nat)
    | Unlock(init: nat, node: nat, min: nat)
    | Freeing(node: nat, min: nat)

  /** The segment list and the handles.  `chain` is the list as linked so far: chain[k] is
      the segment appended k-th. */
  datatype Segments = Segments(
    nodes: seq<Node>, chain: seq<nat>, push: seq<nat>, pop: seq<nat>, spare: seq<int>)

  /** What has become of a segment below the floor. */
  datatype Fate = Pending(t: nat) | Freed

  /** `floor` is the id below which segments have been given up: init_id, or what init_id
      was before the thread `holder` replaced it by -1. */
  datatype Reclaim = Reclaim(
    initId: int, initNode: nat, floor: nat, holder: int, fate: map<nat, Fate>, freed: set<nat>)

  /** Tickets and cells.  `vals` records the value that goes with each enqueue ticket,
      `stored` the tickets whose enqueuer has reached its cell, `got` what each dequeue
      ticket delivered; `asleep` are the threads the kernel has put to sleep on their futex. */
  datatype Tickets = Tickets(
    put: nat, get: nat, cells: map<(nat, nat), Cell>, futex: seq<int>,
    vals: map<nat, Val>, stored: set<nat>, got: map<nat, Val>, asleep: set<nat>)

  /** `enqs` and `deqs` are the registered enqueuers and dequeuers, in table order. */
  datatype Config = Config(enqs: seq<nat>, deqs: seq<nat>, threshold: int)

  datatype State = State(cfg: Config, g: Segments, r: Reclaim, x: Tickets, bad: bool, threads: seq<Pc>)

  datatype Cmd = Enqueue(v: Val) | Dequeue | Spin | GiveUp
  datatype Event = Event(t: nat, cmd: Cmd)

  // ------------------------------------------------------------------ steps

  function Goto(s: State, t: nat, pc: Pc): State
    requires t < |s.threads|
  {
    s.(threads := s.threads[t := pc])
  }

  /** Dereferencing a freed segment is what must not happen. */
  function Touch(s: State, p: nat): State {
    s.(bad := s.bad || p in s.r.freed)
  }

  /** All handles exist. */
  predicate Sized(s: State) {
    && |s.g.push| == |s.g.pop| == |s.g.spare| == |s.x.futex| == |s.threads|
    && (forall m :: 0 <= m < |s.cfg.enqs| ==> s.cfg.enqs[m] < |s.threads|)
    && (forall m :: 0 <= m < |s.cfg.deqs| ==> s.cfg.deqs[m] < |s.threads|)
  }

  predicate FindPc(pc: Pc) { pc.FindStart? || pc.Find? || pc.FindCas? }

  predicate TicketPc(pc: Pc) {
    pc.Ticket? || pc.PutXchg? || pc.PutWake? || pc.PutNotify? || pc.GetSpin? || pc.GetXchg? || pc.GetWait?
  }

  predicate ReclaimPc(pc: Pc) {
    pc.GetOver? || pc.RecLock? || pc.RecStart? || pc.ScanDeq? || pc.ScanEnq? || pc.Decide? || pc.Unlock? || pc.Freeing?
  }

  function HandleOf(g: Segments, t: nat, k: Kind): nat
    requires t < |g.push| == |g.pop|
  {
    if k.Put? then g.push[t] else g.pop[t]
  }

  function SetHandle(g: Segments, t: nat, k: Kind, curr: nat): Segments
    requires t < |g.push| == |g.pop|
  {
    if k.Put? then g.(push := g.push[t := curr]) else g.(pop := g.pop[t := curr])
  }

  /** Makes sure thread t has a standby segment and gives it an id. */
  function Standby(g: Segments, t: nat, id: nat): Segments
    requires t < |g.spare|
  {
    if 0 <= g.spare[t] < |g.nodes| then g.(nodes := g.nodes[g.spare[t] := g.nodes[g.spare[t]].(id := id)])
    else g.(nodes := g.nodes + [Node(id, NULL)], spare := g.spare[t := |g.nodes|])
  }

  /** The compare-and-swap of curr->next has succeeded: the standby segment is on the list. */
  function Link(g: Segments, t: nat, curr: nat): Segments
    requires t < |g.spare| && curr < |g.nodes| && g.spare[t] >= 0
  {
    g.(nodes := g.nodes[curr := g.nodes[curr].(next := g.spare[t])],
       chain := g.chain + [g.spare[t]], spare := g.spare[t := NULL])
  }

  function FindStep(s: State, t: nat): State
    requires Sized(s) && t < |s.threads| && FindPc(s.threads[t])
  {
    var g := s.g;
    match s.threads[t]
    case FindStart(k, i) =>
      var curr := HandleOf(g, t, k);
      if curr < |g.nodes| then Goto(Touch(s, curr), t, Find(k, i, curr, g.nodes[curr].id)) else s
    case Find(k, i, curr, j) =>
      if j < i / N then
        if curr >= |g.nodes| then s
        else if g.nodes[curr].next >= 0 then
          Goto(Touch(s, curr), t, Find(k, i, g.nodes[curr].next, j + 1))
        else Goto(Touch(s, curr).(g := Standby(g, t, j + 1)), t, FindCas(k, i, curr, j))
      else
        // *ptr = curr
        Goto(s.(g := SetHandle(g, t, k, curr)), t, if k.Put? then PutXchg(k.v, i, curr) else GetSpin(i, curr))
    case FindCas(k, i, curr, j) =>
      if curr >= |g.nodes| || g.spare[t] < 0 then s
      else if g.nodes[curr].next == NULL then
        Goto(Touch(s, curr).(g := Link(g, t, curr)), t, Find(k, i, g.spare[t], j + 1))
      else if g.nodes[curr].next < 0 then s
      else Goto(Touch(s, curr), t, Find(k, i, g.nodes[curr].next, j + 1))
  }

  function CellAt(cells: map<(nat, nat), Cell>, c: nat, i: nat): Cell {
    if (c, i % N) in cells then cells[(c, i % N)] else Null
  }

  function TicketStep(s: State, t: nat, cmd: Cmd): State
    requires Sized(s) && t < |s.threads| && TicketPc(s.threads[t])
  {
    var x := s.x;
    match s.threads[t]
    case Ticket(k) =>
      if k.Put? then
        Goto(s.(x := x.(put := x.put + 1, vals := x.vals[x.put := k.v])), t, FindStart(k, x.put))
      else
        Goto(s.(x := x.(get := x.get + 1, futex := x.futex[t := 1])), t, FindStart(k, x.get))
    case PutXchg(v, i, c) =>
      var was := CellAt(x.cells, c, i);
      var s1 := Touch(s, c).(x := x.(cells := x.cells[(c, i % N) := Value(v)], stored := x.stored + {i}));
      (match was
       case Null => Goto(s1, t, Idle)
       case Waiter(u) => Goto(s1, t, PutWake(i, u))
       case Value(_) => Goto(s1.(bad := true), t, Idle))
    case PutWake(i, u) =>
      Goto(if u < |x.futex| then s.(x := x.(futex := x.futex[u := 0])) else s, t, PutNotify(u))
    case PutNotify(u) => Goto(s.(x := x.(asleep := x.asleep - {u})), t, Idle)
    case GetSpin(i, c) =>
      (match CellAt(x.cells, c, i)
       case Value(v) => Goto(Touch(s, c).(x := x.(got := x.got[i := v])), t, GetOver(i))
       case Waiter(_) => Goto(Touch(s, c).(bad := true), t, GetOver(i))
       case Null => Goto(Touch(s, c), t, if cmd.GiveUp? then GetXchg(i, c) else GetSpin(i, c)))
    case GetXchg(i, c) =>
      var was := CellAt(x.cells, c, i);
      var cells' := x.cells[(c, i % N) := Waiter(t)];
      (match was
       case Null => Goto(Touch(s, c).(x := x.(cells := cells')), t, GetWait(i, c))
       case Value(v) => Goto(Touch(s, c).(x := x.(cells := cells', got := x.got[i := v])), t, GetOver(i))
       case Waiter(_) => Goto(Touch(s, c).(bad := true), t, GetOver(i)))
    case GetWait(i, c) =>
      // the kernel puts the thread to sleep only while the futex is 1; `Spin` stands for a signal
      if t in x.asleep then (if cmd.Spin? then s.(x := x.(asleep := x.asleep - {t})) else s)
      else if x.futex[t] == 1 then s.(x := x.(asleep := x.asleep + {t}))
      else
        (match CellAt(x.cells, c, i)
         case Value(v) => Goto(Touch(s, c).(x := x.(got := x.got[i := v])), t, GetOver(i))
         case _ => Goto(Touch(s, c).(bad := true), t, GetOver(i)))
  }

  /** The segment with the smaller id of the two. */
  function Lower(nodes: seq<Node>, a: nat, b: nat): nat {
    if a < |nodes| && b < |nodes| && nodes[a].id < nodes[b].id then a else b
  }

  function IdOf(nodes: seq<Node>, p: nat): nat {
    if p < |nodes| then nodes[p].id else 0
  }

  /** Thread t takes on freeing every segment below newId that is not spoken for. */
  function Claimed(fate: map<nat, Fate>, newId: nat, t: nat): map<nat, Fate> {
    map k: nat | k < newId :: if k in fate then fate[k] else Pending(t)
  }

  function ReclaimStep(s: State, t: nat): State
    requires Sized(s) && t < |s.threads| && ReclaimPc(s.threads[t])
  {
    var r, nodes := s.r, s.g.nodes;
    match s.threads[t]
    case GetOver(i) =>
      if i % N == N - 1 && r.initId >= 0 && IdOf(nodes, s.g.pop[t]) - r.initId >= s.cfg.threshold then
        Goto(Touch(s, s.g.pop[t]), t, RecLock(r.initId))
      else Goto(s, t, Idle)
    case RecLock(init) =>
      if r.initId == init then Goto(s.(r := r.(initId := NULL, holder := t)), t, RecStart(init))
      else Goto(s, t, Idle)
    case RecStart(init) =>
      if s.cfg.deqs == [] then s
      else Goto(s, t, ScanDeq(init, r.initNode, s.g.pop[s.cfg.deqs[0]], 1))
    case ScanDeq(init, node, min, m) =>
      if m < |s.cfg.deqs| then
        var next := s.g.pop[s.cfg.deqs[m]];
        var min' := Lower(nodes, next, min);
        Goto(Touch(Touch(s, next), min), t,
             if IdOf(nodes, min') <= init then ScanEnq(init, node, min', 0) else ScanDeq(init, node, min', m + 1))
      else Goto(s, t, ScanEnq(init, node, min, 0))
    case ScanEnq(init, node, min, m) =>
      if m < |s.cfg.enqs| then
        var next := s.g.push[s.cfg.enqs[m]];
        var min' := Lower(nodes, next, min);
        Goto(Touch(Touch(s, next), min), t,
             if IdOf(nodes, min') <= init then Decide(init, node, min') else ScanEnq(init, node, min', m + 1))
      else Goto(s, t, Decide(init, node, min))
    case Decide(init, node, min) =>
      if IdOf(nodes, min) <= init then
        Goto(Touch(s, min).(r := r.(initId := init, holder := NULL)), t, Idle)
      else
        Goto(Touch(s, min).(r := r.(initNode := min)), t, Unlock(init, node, min))
    case Unlock(init, node, min) =>
      var newId := IdOf(nodes, min);
      Goto(s.(r := r.(initId := newId, holder := NULL, floor := newId,
                      fate := Claimed(r.fate, newId, t))),
           t, Freeing(node, min))
    case Freeing(node, min) =>
      if node >= |nodes| || nodes[node].next < 0 then s
      else
        var s1 := Touch(s, node).(r := r.(freed := r.freed + {node}, fate := r.fate[nodes[node].id := Freed]));
        Goto(s1, t, if nodes[node].next != min then Freeing(nodes[node].next, min) else Idle)
  }

  function Step(s: State, ev: Event): State {
    if !(Sized(s) && ev.t < |s.threads|) then s
    else
      var pc := s.threads[ev.t];
      if pc.Idle? then
        if ev.cmd.Enqueue? && ev.t in s.cfg.enqs then Goto(s, ev.t, Ticket(Put(ev.cmd.v)))
        else if ev.cmd.Dequeue? && ev.t in s.cfg.deqs then Goto(s, ev.t, Ticket(Get))
        else s
      else if FindPc(pc) then FindStep(s, ev.t)
      else if TicketPc(pc) then TicketStep(s, ev.t, ev.cmd)
      else ReclaimStep(s, ev.t)
  }

  /** n threads, all handles registered on the initial segment, each with a standby segment. */
  function Init(cfg: Config, n: nat): State {
    State(cfg,
          Segments(seq(n + 1, _ => Node(0, NULL)), [0], seq(n, _ => 0), seq(n, _ => 0), seq(n, t => t + 1)),
          Reclaim(0, 0, 0, NULL, map[], {}),
          Tickets(0, 0, map[], seq(n, _ => 0), map[], {}, map[], {}),
          false, seq(n, _ => Idle))
  }

  function Run(s: State, evs: seq<Event>): State
    decreases |evs|
  {
    if evs == [] then s else Step(Run(s, evs[..|evs| - 1]), evs[|evs| - 1])
  }

  // ------------------------------------------------------------------ invariant

  ghost predicate OnList(g: Segments, p: nat) {
    p < |g.nodes| && g.nodes[p].id < |g.chain| && g.chain[g.nodes[p].id] == p
  }

  ghost function NextOf(chain: seq<nat>, k: nat): int {
    if k + 1 < |chain| then chain[k + 1] else NULL
  }

  /** The list is linked in order and ids are consecutive from 0. */
  ghost predicate Linked(nodes: seq<Node>, chain: seq<nat>) {
    && |chain| >= 1
    && (forall k :: 0 <= k < |chain| ==> chain[k] < |nodes|)
    && (forall k: nat {:trigger nodes[chain[k]]} :: k < |chain| ==> nodes[chain[k]] == Node(k, NextOf(chain, k)))
  }

  /** Standby segments are private. */
  ghost predicate SparesInv(nodes: seq<Node>, chain: seq<nat>, spare: seq<int>) {
    && (forall t :: 0 <= t < |spare| && spare[t] != NULL ==>
          0 <= spare[t] < |nodes| && nodes[spare[t]].next == NULL && spare[t] !in chain)
    && (forall t, u :: 0 <= t < u < |spare| && spare[t] == spare[u] ==> spare[t] == NULL)
  }

  ghost predicate ListInv(g: Segments) {
    Linked(g.nodes, g.chain) && SparesInv(g.nodes, g.chain, g.spare)
  }

  /** No handle is below the floor, and none is ahead of the tickets drawn. */
  ghost predicate HandleInv(g: Segments, cfg: Config, floor: nat, put: nat, get: nat) {
    && (forall t :: t in cfg.enqs ==>
          t < |g.push| && OnList(g, g.push[t]) && floor <= g.nodes[g.push[t]].id <= put / N)
    && (forall t :: t in cfg.deqs ==>
          t < |g.pop| && OnList(g, g.pop[t]) && floor <= g.nodes[g.pop[t]].id <= get / N)
  }

  predicate IsGet(pc: Pc) {
    pc.GetSpin? || pc.GetXchg? || pc.GetWait?
  }

  predicate RoleOk(cfg: Config, t: nat, pc: Pc) {
    if pc.Idle? || pc.PutWake? || pc.PutNotify? then true
    else if pc.Ticket? || FindPc(pc) then (if pc.k.Put? then t in cfg.enqs else t in cfg.deqs)
    else if pc.PutXchg? then t in cfg.enqs
    else t in cfg.deqs
  }

  /** Where a thread stands on its way to its cell. */
  ghost predicate WalkInv(g: Segments, t: nat, pc: Pc) {
    && t < |g.push| == |g.pop| == |g.spare|
    && (FindPc(pc) ==> OnList(g, HandleOf(g, t, pc.k)) && g.nodes[HandleOf(g, t, pc.k)].id <= pc.i / N)
    && (pc.Find? || pc.FindCas? ==>
          OnList(g, pc.curr) && g.nodes[pc.curr].id == pc.j
          && g.nodes[HandleOf(g, t, pc.k)].id <= pc.j <= pc.i / N)
    && (pc.FindCas? ==>
          pc.j < pc.i / N && 0 <= g.spare[t] < |g.nodes| && g.nodes[g.spare[t]].id == pc.j + 1)
    && (pc.PutXchg? ==> OnList(g, pc.c) && g.push[t] == pc.c && g.nodes[pc.c].id == pc.i / N)
    && (IsGet(pc) ==> OnList(g, pc.c) && g.pop[t] == pc.c && g.nodes[pc.c].id == pc.i / N)
  }

  // ---- tickets and cells

  /** The cell of ticket i. */
  ghost function CellOf(chain: seq<nat>, cells: map<(nat, nat), Cell>, i: nat): Cell {
    if i / N < |chain| then CellAt(cells, chain[i / N], i) else Null
  }

  /** The ticket of an enqueue in flight, -1 when there is none. */
  function PutOf(pc: Pc): int {
    if FindPc(pc) then (if pc.k.Put? then pc.i else -1)
    else if pc.PutXchg? || pc.PutWake? then pc.i else -1
  }

  function GetOf(pc: Pc): int {
    if FindPc(pc) then (if pc.k.Get? then pc.i else -1)
    else if IsGet(pc) then pc.i else -1
  }

  ghost predicate Waits(x: Tickets, threads: seq<Pc>, u: nat, i: nat) {
    u < |threads| == |x.futex| && threads[u].GetWait? && threads[u].i == i && x.futex[u] == 1
  }

  /** A cell is empty until its enqueuer or its dequeuer comes; it then holds the value that
      goes with its ticket, or the address of the dequeuer waiting for that ticket. */
  ghost predicate CellInv(x: Tickets, chain: seq<nat>, threads: seq<Pc>, i: nat) {
    var c := CellOf(chain, x.cells, i);
    && (c.Null? ==> i !in x.stored)
    && (c.Value? ==> i in x.stored && i in x.vals && c.v == x.vals[i])
    && (c.Waiter? ==> i < x.get && (i in x.stored || Waits(x, threads, c.u, i)))
  }

  ghost predicate TicketInv(x: Tickets, chain: seq<nat>, threads: seq<Pc>) {
    && |x.futex| == |threads|
    && (forall i: nat :: i in x.vals <==> i < x.put)
    && (forall i :: i in x.stored ==> i < x.put)
    && (forall key :: key in x.cells ==> key.0 in chain)
    && (forall i: nat :: CellInv(x, chain, threads, i))
    && (forall i :: i in x.got ==> i < x.get && i in x.vals && x.got[i] == x.vals[i])
  }

  ghost predicate TicketPcInv(x: Tickets, chain: seq<nat>, threads: seq<Pc>, t: nat, pc: Pc) {
    && t < |x.futex|
    && (PutOf(pc) >= 0 ==> PutOf(pc) < x.put)
    && (GetOf(pc) >= 0 ==> GetOf(pc) < x.get && GetOf(pc) !in x.got)
    && (FindPc(pc) && pc.k.Put? ==> pc.i !in x.stored && pc.i in x.vals && x.vals[pc.i] == pc.k.v)
    && (pc.PutXchg? ==> pc.i !in x.stored && pc.i in x.vals && x.vals[pc.i] == pc.v)
    && (pc.PutWake? ==> pc.i in x.stored && Waits(x, threads, pc.u, pc.i) && CellOf(chain, x.cells, pc.i).Value?)
    && (FindPc(pc) && pc.k.Get? ==> !CellOf(chain, x.cells, pc.i).Waiter?)
    && (pc.GetSpin? || pc.GetXchg? ==> !CellOf(chain, x.cells, pc.i).Waiter?)
    && (GetOf(pc) >= 0 && !pc.GetWait? ==> x.futex[t] == 1)
    && (pc.GetWait? ==>
          CellOf(chain, x.cells, pc.i).Value?
          || (CellOf(chain, x.cells, pc.i) == Waiter(t) && x.futex[t] == 1 && pc.i !in x.stored))
  }

  ghost predicate OwnTickets(threads: seq<Pc>) {
    && (forall t, u :: 0 <= t < u < |threads| && PutOf(threads[t]) == PutOf(threads[u]) ==> PutOf(threads[t]) == -1)
    && (forall t, u :: 0 <= t < u < |threads| && GetOf(threads[t]) == GetOf(threads[u]) ==> GetOf(threads[t]) == -1)
  }

  // ---- reclamation

  predicate Locked(pc: Pc) {
    pc.RecStart? || pc.ScanDeq? || pc.ScanEnq? || pc.Decide? || pc.Unlock?
  }

  /** Segments below the floor are freed or about to be, by exactly one thread. */
  ghost predicate ReclaimInv(r: Reclaim, g: Segments, threads: seq<Pc>) {
    && r.floor < |g.chain|
    && OnList(g, r.initNode)
    && (r.initId >= 0 ==> r.initId == r.floor && r.holder == NULL && g.nodes[r.initNode].id == r.floor)
    && (r.initId < 0 ==> r.initId == NULL && 0 <= r.holder < |threads| && Locked(threads[r.holder]))
    && (forall k: nat :: k in r.fate <==> k < r.floor)
    && (forall k :: k in r.fate && r.fate[k].Pending? ==> r.fate[k].t < |threads| && threads[r.fate[k].t].Freeing?)
    && (forall p: nat :: p in r.freed <==>
          OnList(g, p) && g.nodes[p].id in r.fate && r.fate[g.nodes[p].id] == Freed)
  }

  ghost predicate DeqsAbove(g: Segments, cfg: Config, n: nat, low: nat) {
    n <= |cfg.deqs| && forall m :: 0 <= m < n ==>
      cfg.deqs[m] < |g.pop| && OnList(g, g.pop[cfg.deqs[m]]) && g.nodes[g.pop[cfg.deqs[m]]].id >= low
  }

  ghost predicate EnqsAbove(g: Segments, cfg: Config, n: nat, low: nat) {
    n <= |cfg.enqs| && forall m :: 0 <= m < n ==>
      cfg.enqs[m] < |g.push| && OnList(g, g.push[cfg.enqs[m]]) && g.nodes[g.push[cfg.enqs[m]]].id >= low
  }

  ghost predicate ReclaimPcInv(r: Reclaim, g: Segments, cfg: Config, t: nat, pc: Pc) {
    && (Locked(pc) ==> r.holder == t && r.initId == NULL && pc.init == r.floor < |g.chain| && OnList(g, r.initNode))
    && (Locked(pc) && !pc.Unlock? ==> g.nodes[r.initNode].id == r.floor)
    && (Locked(pc) && !pc.RecStart? ==>
          pc.node == g.chain[r.floor] && OnList(g, pc.min) && g.nodes[pc.min].id >= r.floor)
    && (pc.ScanDeq? ==> DeqsAbove(g, cfg, pc.m, g.nodes[pc.min].id))
    && (pc.ScanEnq? && g.nodes[pc.min].id > r.floor ==>
          DeqsAbove(g, cfg, |cfg.deqs|, g.nodes[pc.min].id) && EnqsAbove(g, cfg, pc.m, g.nodes[pc.min].id))
    && (pc.Decide? && g.nodes[pc.min].id > r.floor ==>
          DeqsAbove(g, cfg, |cfg.deqs|, g.nodes[pc.min].id) && EnqsAbove(g, cfg, |cfg.enqs|, g.nodes[pc.min].id))
    && (pc.Unlock? ==>
          g.nodes[pc.min].id > r.floor && r.initNode == pc.min
          && DeqsAbove(g, cfg, |cfg.deqs|, g.nodes[pc.min].id) && EnqsAbove(g, cfg, |cfg.enqs|, g.nodes[pc.min].id))
    && (pc.Freeing? ==>
          OnList(g, pc.node) && OnList(g, pc.min) && g.nodes[pc.node].id < g.nodes[pc.min].id <= r.floor
          && (forall k: nat :: k in r.fate && r.fate[k] == Pending(t) <==>
                g.nodes[pc.node].id <= k < g.nodes[pc.min].id))
  }

  ghost predicate ThreadInv(s: State, t: nat)
    requires t < |s.threads|
  {
    && RoleOk(s.cfg, t, s.threads[t])
    && WalkInv(s.g, t, s.threads[t])
    && TicketPcInv(s.x, s.g.chain, s.threads, t, s.threads[t])
    && ReclaimPcInv(s.r, s.g, s.cfg, t, s.threads[t])
  }

  ghost predicate Inv(s: State) {
    && !s.bad
    && Sized(s)
    && ListInv(s.g)
    && HandleInv(s.g, s.cfg, s.r.floor, s.x.put, s.x.get)
    && TicketInv(s.x, s.g.chain, s.threads)
    && OwnTickets(s.threads)
    && ReclaimInv(s.r, s.g, s.threads)
    && (forall t :: 0 <= t < |s.threads| ==> ThreadInv(s, t))
  }

  lemma InitInv(cfg: Config, n: nat)
    requires forall t :: t in cfg.enqs || t in cfg.deqs ==> t < n
    ensures Inv(Init(cfg, n))
  {
    hide ListInv; hide HandleInv; hide TicketInv; hide ReclaimInv; hide ThreadInv;
    var s := Init(cfg, n);
    forall m | 0 <= m < |cfg.enqs| ensures cfg.enqs[m] < n { assert cfg.enqs[m] in cfg.enqs; }
    forall m | 0 <= m < |cfg.deqs| ensures cfg.deqs[m] < n { assert cfg.deqs[m] in cfg.deqs; }
    InitList(cfg, n);
    InitTickets(cfg, n);
    InitThreads(cfg, n);
  }

  lemma InitList(cfg: Config, n: nat)
    requires forall t :: t in cfg.enqs || t in cfg.deqs ==> t < n
    ensures var s := Init(cfg, n);
      ListInv(s.g) && HandleInv(s.g, cfg, 0, 0, 0) && ReclaimInv(s.r, s.g, s.threads)
  {
    var g := Init(cfg, n).g;
    assert g.nodes[g.chain[0]] == Node(0, NULL) && OnList(g, 0);
  }

  lemma InitTickets(cfg: Config, n: nat)
    ensures var s := Init(cfg, n); TicketInv(s.x, s.g.chain, s.threads)
  {
  }

  lemma InitThreads(cfg: Config, n: nat)
    ensures var s := Init(cfg, n); forall t :: 0 <= t < n ==> ThreadInv(s, t)
  {
  }

  /** Pointers that stay on the list are not freed while their id is at or above the floor. */
  lemma AboveFloorNotFreed(s: State, p: nat)
    requires ReclaimInv(s.r, s.g, s.threads) && OnList(s.g, p) && s.g.nodes[p].id >= s.r.floor
    ensures p !in s.r.freed
  {
  }

  // ------------------------------------------------------------------ walking the list

  /** What a walking thread t may do to the segments and handles. */
  ghost predicate Grows(g: Segments, g': Segments, t: nat) {
    && |g'.push| == |g.push| && |g'.pop| == |g.pop| && |g'.spare| == |g.spare|
    && g.chain <= g'.chain
    && (forall p: nat :: OnList(g, p) ==> OnList(g', p) && g'.nodes[p].id == g.nodes[p].id)
    && (forall u :: 0 <= u < |g.push| && u != t ==> g'.push[u] == g.push[u])
    && (forall u :: 0 <= u < |g.pop| && u != t ==> g'.pop[u] == g.pop[u])
    && (t < |g.push| && OnList(g, g.push[t]) ==>
          OnList(g', g'.push[t]) && g'.nodes[g'.push[t]].id >= g.nodes[g.push[t]].id)
    && (t < |g.pop| && OnList(g, g.pop[t]) ==> OnList(g', g'.pop[t]) && g'.nodes[g'.pop[t]].id >= g.nodes[g.pop[t]].id)
    && (forall u :: 0 <= u < |g.spare| && u != t ==>
          g'.spare[u] == g.spare[u]
          && (0 <= g.spare[u] < |g.nodes| ==> g.spare[u] < |g'.nodes| && g'.nodes[g.spare[u]] == g.nodes[g.spare[u]]))
  }

  lemma WalkStable(g: Segments, g': Segments, t: nat, u: nat, pc: Pc)
    requires Grows(g, g', t) && u != t && WalkInv(g, u, pc)
    ensures WalkInv(g', u, pc)
  {
  }

  lemma ReclaimPcStable(r: Reclaim, g: Segments, g': Segments, cfg: Config, t: nat, u: nat, pc: Pc)
    requires Grows(g, g', t) && ReclaimPcInv(r, g, cfg, u, pc)
    ensures ReclaimPcInv(r, g', cfg, u, pc)
  {
  }

  /** Cells belong to listed segments, so a segment just linked has none. */
  lemma CellOfStable(x: Tickets, chain: seq<nat>, chain': seq<nat>, i: nat)
    requires chain <= chain'
    requires forall key :: key in x.cells ==> key.0 in chain
    requires forall k :: |chain| <= k < |chain'| ==> chain'[k] !in chain
    ensures CellOf(chain', x.cells, i) == CellOf(chain, x.cells, i)
  {
  }

  lemma FindStartList(s: State, t: nat)
    requires Sized(s) && !s.bad && ListInv(s.g) && t < |s.threads| && s.threads[t].FindStart?
    requires WalkInv(s.g, t, s.threads[t]) && RoleOk(s.cfg, t, s.threads[t])
    requires forall p: nat :: OnList(s.g, p) && s.g.nodes[p].id >= s.g.nodes[HandleOf(s.g, t, s.threads[t].k)].id ==>
      p !in s.r.freed
    ensures var s' := FindStep(s, t);
      s'.g == s.g && Grows(s.g, s'.g, t) && !s'.bad && ThreadsAfterFind(s, s', t) && WalkInv(s'.g, t, s'.threads[t])
  {
  }

  /** A find step keeps the ticket and the role, and writes nothing but segments and handles. */
  ghost predicate ThreadsAfterFind(s: State, s': State, t: nat)
    requires t < |s.threads|
  {
    && s'.cfg == s.cfg && s'.r == s.r && s'.x == s.x
    && |s'.threads| == |s.threads| && s'.threads == s.threads[t := s'.threads[t]]
    && (FindPc(s'.threads[t]) || s'.threads[t].PutXchg? || s'.threads[t].GetSpin?)
    && PutOf(s'.threads[t]) == PutOf(s.threads[t]) && GetOf(s'.threads[t]) == GetOf(s.threads[t])
    && RoleOk(s.cfg, t, s'.threads[t])
    && (FindPc(s.threads[t]) && s.threads[t].k.Put? ==>
          if FindPc(s'.threads[t]) then s'.threads[t].k == s.threads[t].k
          else s'.threads[t].PutXchg? && s'.threads[t].v == s.threads[t].k.v)
    && Sized(s')
    && (FindPc(s'.threads[t]) ==> s'.g.push == s.g.push && s'.g.pop == s.g.pop)
    && (s'.threads[t].PutXchg? ==> s'.g.pop == s.g.pop)
    && (s'.threads[t].GetSpin? ==> s'.g.push == s.g.push)
  }

  lemma StandbyList(g: Segments, t: nat, id: nat)
    requires ListInv(g) && t < |g.spare|
    ensures var g' := Standby(g, t, id);
      && ListInv(g') && g'.chain == g.chain && Grows(g, g', t)
      && 0 <= g'.spare[t] < |g'.nodes| && g'.nodes[g'.spare[t]].id == id
  {
    assert forall p: nat :: OnList(g, p) ==> p in g.chain;
    var g' := Standby(g, t, id);
    assert forall k :: 0 <= k < |g.chain| ==> g'.nodes[g.chain[k]] == g.nodes[g.chain[k]];
  }

  lemma SetHandleList(g: Segments, t: nat, k: Kind, curr: nat)
    requires ListInv(g) && t < |g.push| == |g.pop| && OnList(g, curr)
    requires OnList(g, HandleOf(g, t, k)) && g.nodes[HandleOf(g, t, k)].id <= g.nodes[curr].id
    ensures var g' := SetHandle(g, t, k, curr); ListInv(g') && Grows(g, g', t)
  {
    var g' := SetHandle(g, t, k, curr);
    assert forall p: nat :: OnList(g, p) <==> OnList(g', p);
  }

  /** The compare-and-swap finds NULL only in the last segment, so the list stays linked in order. */
  lemma LinkList(g: Segments, t: nat, curr: nat)
    requires ListInv(g) && t < |g.spare| && OnList(g, curr) && g.nodes[curr].next == NULL
    requires 0 <= g.spare[t] < |g.nodes| && g.nodes[g.spare[t]].id == g.nodes[curr].id + 1
    ensures var g' := Link(g, t, curr);
      && ListInv(g') && Grows(g, g', t) && g'.chain == g.chain + [g.spare[t]] && g.spare[t] !in g.chain
      && OnList(g', g.spare[t]) && g'.nodes[g.spare[t]].id == g.nodes[curr].id + 1
  {
    var g', last, tmp := Link(g, t, curr), |g.chain| - 1, g.spare[t];
    assert g.nodes[g.chain[g.nodes[curr].id]] == g.nodes[curr];
    assert g.nodes[curr].id == last && curr == g.chain[last];
    assert g'.nodes[tmp] == g.nodes[tmp] == Node(last + 1, NULL);
    forall k: nat | k < last + 2
      ensures g'.chain[k] < |g'.nodes| && g'.nodes[g'.chain[k]] == Node(k, NextOf(g'.chain, k))
    {
      if k < last { assert g.nodes[g.chain[k]].id == k; }
    }
    assert forall p: nat :: OnList(g, p) ==> g'.nodes[p].id == g.nodes[p].id;
  }

  lemma FindAdvanceList(s: State, t: nat)
    requires Sized(s) && !s.bad && ListInv(s.g) && t < |s.threads| && s.threads[t].Find?
    requires WalkInv(s.g, t, s.threads[t]) && RoleOk(s.cfg, t, s.threads[t])
    requires s.threads[t].curr !in s.r.freed
    requires s.threads[t].j < s.threads[t].i / N && s.g.nodes[s.threads[t].curr].next >= 0
    ensures var s' := FindStep(s, t);
      s'.g == s.g && Grows(s.g, s'.g, t) && !s'.bad && ThreadsAfterFind(s, s', t) && WalkInv(s'.g, t, s'.threads[t])
  {
    var g, pc := s.g, s.threads[t];
    assert g.nodes[g.chain[pc.j]] == g.nodes[pc.curr];
    assert g.nodes[pc.curr].next == g.chain[pc.j + 1];
    assert OnList(g, g.chain[pc.j + 1]) by { assert g.nodes[g.chain[pc.j + 1]].id == pc.j + 1; }
    hide ListInv;
  }

  lemma FindStandbyList(s: State, t: nat)
    requires Sized(s) && !s.bad && ListInv(s.g) && t < |s.threads| && s.threads[t].Find?
    requires WalkInv(s.g, t, s.threads[t]) && RoleOk(s.cfg, t, s.threads[t])
    requires s.threads[t].curr !in s.r.freed
    requires s.threads[t].j < s.threads[t].i / N && s.g.nodes[s.threads[t].curr].next < 0
    ensures var s' := FindStep(s, t);
      && ListInv(s'.g) && s'.g.chain == s.g.chain && Grows(s.g, s'.g, t) && !s'.bad
      && ThreadsAfterFind(s, s', t) && WalkInv(s'.g, t, s'.threads[t])
  {
    var g, pc := s.g, s.threads[t];
    StandbyList(g, t, pc.j + 1);
    hide Standby; hide ListInv;
    var s' := FindStep(s, t);
    assert s'.g == Standby(g, t, pc.j + 1) && s'.threads == s.threads[t := FindCas(pc.k, pc.i, pc.curr, pc.j)];
  }

  lemma FindArriveList(s: State, t: nat)
    requires Sized(s) && !s.bad && ListInv(s.g) && t < |s.threads| && s.threads[t].Find?
    requires WalkInv(s.g, t, s.threads[t]) && RoleOk(s.cfg, t, s.threads[t])
    requires s.threads[t].curr !in s.r.freed
    requires s.threads[t].j >= s.threads[t].i / N
    ensures var s' := FindStep(s, t);
      && ListInv(s'.g) && s'.g.chain == s.g.chain && Grows(s.g, s'.g, t) && !s'.bad
      && ThreadsAfterFind(s, s', t) && WalkInv(s'.g, t, s'.threads[t])
  {
    var g, pc := s.g, s.threads[t];
    SetHandleList(g, t, pc.k, pc.curr);
    hide ListInv;
  }

  lemma FindCasList(s: State, t: nat)
    requires Sized(s) && !s.bad && ListInv(s.g) && t < |s.threads| && s.threads[t].FindCas?
    requires WalkInv(s.g, t, s.threads[t]) && RoleOk(s.cfg, t, s.threads[t])
    requires forall p: nat :: OnList(s.g, p) && s.g.nodes[p].id >= s.g.nodes[HandleOf(s.g, t, s.threads[t].k)].id ==>
      p !in s.r.freed
    ensures var s' := FindStep(s, t);
      && ListInv(s'.g) && Grows(s.g, s'.g, t) && !s'.bad
      && (forall k :: |s.g.chain| <= k < |s'.g.chain| ==> s'.g.chain[k] !in s.g.chain)
      && ThreadsAfterFind(s, s', t) && WalkInv(s'.g, t, s'.threads[t])
  {
    var g, pc := s.g, s.threads[t];
    assert g.nodes[g.chain[pc.j]] == g.nodes[pc.curr];
    if g.nodes[pc.curr].next == NULL {
      LinkList(g, t, pc.curr);
    }
    hide Link;
  }

  /** Tickets do not notice a walk along the list. */
  lemma TicketsUnmoved(x: Tickets, chain: seq<nat>, chain': seq<nat>, threads: seq<Pc>, threads': seq<Pc>, t: nat)
    requires TicketInv(x, chain, threads)
    requires chain <= chain' && forall k :: |chain| <= k < |chain'| ==> chain'[k] !in chain
    requires t < |threads| == |threads'| && threads' == threads[t := threads'[t]]
    requires !threads[t].GetWait? && !threads'[t].GetWait?
    ensures TicketInv(x, chain', threads')
    ensures forall u, pc :: TicketPcInv(x, chain, threads, u, pc) ==> TicketPcInv(x, chain', threads', u, pc)
  {
    forall i: nat ensures CellOf(chain', x.cells, i) == CellOf(chain, x.cells, i) {
      CellOfStable(x, chain, chain', i);
    }
    assert forall u: nat, i: nat :: Waits(x, threads, u, i) ==> Waits(x, threads', u, i);
    forall i: nat ensures CellInv(x, chain', threads', i) { assert CellInv(x, chain, threads, i); }
  }

  /** Reclamation does not notice the walk either. */
  lemma ReclaimUnmoved(r: Reclaim, g: Segments, g': Segments, threads: seq<Pc>, threads': seq<Pc>, t: nat)
    requires ReclaimInv(r, g, threads) && Grows(g, g', t)
    requires ListInv(g) && ListInv(g')
    requires t < |threads| == |threads'| && threads' == threads[t := threads'[t]]
    requires !threads[t].Freeing? && (Locked(threads[t]) ==> Locked(threads'[t]) || r.holder != t)
    ensures ReclaimInv(r, g', threads')
  {
    forall p: nat | OnList(g', p) && g'.nodes[p].id < r.floor ensures OnList(g, p) {
      assert g'.chain[g'.nodes[p].id] == p == g.chain[g'.nodes[p].id];
      assert g.nodes[p].id == g'.nodes[p].id;
    }
  }

  lemma OwnUnmoved(threads: seq<Pc>, threads': seq<Pc>, t: nat)
    requires OwnTickets(threads)
    requires t < |threads| == |threads'| && threads' == threads[t := threads'[t]]
    requires PutOf(threads'[t]) == PutOf(threads[t]) || PutOf(threads'[t]) == -1
    requires GetOf(threads'[t]) == GetOf(threads[t]) || GetOf(threads'[t]) == -1
    ensures OwnTickets(threads')
  {
  }

  ghost predicate FindEffect(s: State, s': State, t: nat)
    requires t < |s.threads|
  {
    && ListInv(s'.g) && Grows(s.g, s'.g, t) && !s'.bad
    && (forall k :: |s.g.chain| <= k < |s'.g.chain| ==> s'.g.chain[k] !in s.g.chain)
    && ThreadsAfterFind(s, s', t) && WalkInv(s'.g, t, s'.threads[t])
  }

  lemma FindHasEffect(s: State, t: nat)
    requires Inv(s) && t < |s.threads| && FindPc(s.threads[t])
    ensures FindEffect(s, FindStep(s, t), t)
  {
    assert ThreadInv(s, t);
    forall p: nat | OnList(s.g, p) && s.g.nodes[p].id >= s.g.nodes[HandleOf(s.g, t, s.threads[t].k)].id
      ensures p !in s.r.freed
    {
      AboveFloorNotFreed(s, p);
    }
    hide FindStep; hide HandleInv; hide TicketInv; hide OwnTickets; hide ReclaimInv; hide ThreadInv; hide ListInv;
    hide Grows;
    if s.threads[t].FindStart? { FindStartList(s, t); }
    else if s.threads[t].Find? {
      if s.threads[t].j >= s.threads[t].i / N { FindArriveList(s, t); }
      else if s.g.nodes[s.threads[t].curr].next >= 0 { FindAdvanceList(s, t); }
      else { FindStandbyList(s, t); }
    }
    else { FindCasList(s, t); }
  }

  lemma FindThreads(s: State, s': State, t: nat, u: nat)
    requires t < |s.threads| && u < |s.threads| && FindPc(s.threads[t]) && FindEffect(s, s', t)
    requires ThreadInv(s, u)
    requires forall v, pc :: TicketPcInv(s.x, s.g.chain, s.threads, v, pc) ==>
      TicketPcInv(s.x, s'.g.chain, s'.threads, v, pc)
    ensures ThreadInv(s', u)
  {
    hide ListInv;
    ReclaimPcStable(s.r, s.g, s'.g, s.cfg, t, u, s.threads[u]);
    if u != t {
      WalkStable(s.g, s'.g, t, u, s.threads[u]);
      hide TicketPcInv; hide ReclaimPcInv; hide WalkInv; hide Grows;
    } else {
      hide Grows; hide WalkInv;
      assert TicketPcInv(s.x, s.g.chain, s.threads, t, s'.threads[t]);
    }
  }

  lemma FindInv(s: State, t: nat)
    requires Inv(s) && t < |s.threads| && FindPc(s.threads[t])
    ensures Inv(FindStep(s, t))
  {
    hide FindStep; hide WalkInv; hide TicketPcInv; hide ReclaimPcInv;
    var s' := FindStep(s, t);
    FindHasEffect(s, t);
    TicketsUnmoved(s.x, s.g.chain, s'.g.chain, s.threads, s'.threads, t);
    ReclaimUnmoved(s.r, s.g, s'.g, s.threads, s'.threads, t);
    OwnUnmoved(s.threads, s'.threads, t);
    FindHandles(s, s', t);
    hide ListInv; hide HandleInv; hide TicketInv; hide OwnTickets; hide ReclaimInv; hide Grows;
    forall u | 0 <= u < |s'.threads| ensures ThreadInv(s', u) {
      FindThreads(s, s', t, u);
    }
  }

  /** A handle moves to the segment of a ticket that has been drawn. */
  lemma FindHandles(s: State, s': State, t: nat)
    requires Inv(s) && t < |s.threads| && FindPc(s.threads[t]) && FindEffect(s, s', t)
    ensures HandleInv(s'.g, s'.cfg, s'.r.floor, s'.x.put, s'.x.get)
  {
    hide ListInv; hide TicketInv; hide OwnTickets; hide ReclaimInv; hide ReclaimPcInv; hide CellOf;
    assert ThreadInv(s, t);
    var pc, pc' := s.threads[t], s'.threads[t];
    assert PutOf(pc') < s.x.put && GetOf(pc') < s.x.get;
  }

  // ------------------------------------------------------------------ tickets and cells

  /** Everything about tickets and cells. */
  ghost predicate TicketsInv(x: Tickets, chain: seq<nat>, threads: seq<Pc>) {
    && TicketInv(x, chain, threads)
    && OwnTickets(threads)
    && (forall u :: 0 <= u < |threads| ==> TicketPcInv(x, chain, threads, u, threads[u]))
  }

  /** Two tickets never share a cell. */
  lemma CellOfUpdate(chain: seq<nat>, cells: map<(nat, nat), Cell>, i: nat, val: Cell, i': nat)
    requires i / N < |chain| && forall a, b :: 0 <= a < b < |chain| ==> chain[a] != chain[b]
    ensures CellOf(chain, cells[(chain[i / N], i % N) := val], i') == if i' == i then val else CellOf(chain, cells, i')
  {
    if i' != i && i' / N == i / N {
      assert i' % N != i % N;
    }
  }

  /** Whoever waits goes on waiting. */
  ghost predicate WaitsKept(x: Tickets, threads: seq<Pc>, x': Tickets, threads': seq<Pc>) {
    forall u: nat, i: nat :: Waits(x, threads, u, i) ==> Waits(x', threads', u, i)
  }

  /** A cell the step does not touch. */
  lemma CellKept(x: Tickets, chain: seq<nat>, threads: seq<Pc>, x': Tickets, threads': seq<Pc>, i: nat)
    requires CellInv(x, chain, threads, i) && CellOf(chain, x'.cells, i) == CellOf(chain, x.cells, i)
    requires i in x'.stored <==> i in x.stored
    requires i in x.vals ==> i in x'.vals && x'.vals[i] == x.vals[i]
    requires x.get <= x'.get && WaitsKept(x, threads, x', threads')
    ensures CellInv(x', chain, threads', i)
  {
    hide CellOf;
  }

  /** A thread whose ticket is another's business. */
  lemma PcKept(x: Tickets, chain: seq<nat>, threads: seq<Pc>, x': Tickets, threads': seq<Pc>, u: nat, pc: Pc)
    requires TicketPcInv(x, chain, threads, u, pc) && WaitsKept(x, threads, x', threads')
    requires |x'.futex| == |x.futex| && (u < |x.futex| ==> x'.futex[u] == x.futex[u])
    requires x.put <= x'.put && x.get <= x'.get && x.stored <= x'.stored
    requires PutOf(pc) >= 0 ==> (PutOf(pc) in x'.stored ==> PutOf(pc) in x.stored)
    requires GetOf(pc) >= 0 ==> (GetOf(pc) in x'.stored ==> GetOf(pc) in x.stored)
    requires GetOf(pc) >= 0 && GetOf(pc) in x'.got ==> GetOf(pc) in x.got
    requires forall i :: i in x.vals ==> i in x'.vals && x'.vals[i] == x.vals[i]
    requires forall i: nat :: i == PutOf(pc) || i == GetOf(pc) ==>
      CellOf(chain, x'.cells, i) == CellOf(chain, x.cells, i)
    ensures TicketPcInv(x', chain, threads', u, pc)
  {
    hide CellOf;
  }

  lemma OwnNew(threads: seq<Pc>, t: nat, pc: Pc)
    requires OwnTickets(threads) && t < |threads|
    requires PutOf(pc) >= 0 ==> forall u :: 0 <= u < |threads| ==> PutOf(threads[u]) != PutOf(pc)
    requires GetOf(pc) >= 0 ==> forall u :: 0 <= u < |threads| ==> GetOf(threads[u]) != GetOf(pc)
    ensures OwnTickets(threads[t := pc])
  {
  }

  /** Tickets in flight have been drawn, and are nobody else's. */
  lemma TicketAlone(x: Tickets, chain: seq<nat>, threads: seq<Pc>, t: nat, u: nat)
    requires TicketsInv(x, chain, threads) && t < |threads| && u < |threads|
    ensures PutOf(threads[u]) < x.put && GetOf(threads[u]) < x.get
    ensures u != t && PutOf(threads[t]) >= 0 ==> PutOf(threads[u]) != PutOf(threads[t])
    ensures u != t && GetOf(threads[t]) >= 0 ==> GetOf(threads[u]) != GetOf(threads[t])
  {
    hide TicketInv; hide CellOf; hide Waits;
    assert TicketPcInv(x, chain, threads, u, threads[u]);
    if t < u {
      assert PutOf(threads[t]) == PutOf(threads[u]) ==> PutOf(threads[t]) == -1;
    } else if u < t {
      assert PutOf(threads[u]) == PutOf(threads[t]) ==> PutOf(threads[u]) == -1;
    }
  }

  lemma DrawPut(x: Tickets, chain: seq<nat>, threads: seq<Pc>, t: nat)
    requires TicketsInv(x, chain, threads) && t < |threads| && threads[t].Ticket? && threads[t].k.Put?
    ensures TicketsInv(x.(put := x.put + 1, vals := x.vals[x.put := threads[t].k.v]), chain,
                       threads[t := FindStart(threads[t].k, x.put)])
  {
    hide CellInv; hide TicketPcInv; hide OwnTickets; hide CellOf;
    var x' := x.(put := x.put + 1, vals := x.vals[x.put := threads[t].k.v]);
    var threads' := threads[t := FindStart(threads[t].k, x.put)];
    assert WaitsKept(x, threads, x', threads');
    forall i: nat ensures CellInv(x', chain, threads', i) { CellKept(x, chain, threads, x', threads', i); }
    forall u | 0 <= u < |threads|
        ensures TicketPcInv(x', chain, threads', u, threads'[u]) && PutOf(threads[u]) != x.put {
      TicketAlone(x, chain, threads, t, u);
      if u != t { PcKept(x, chain, threads, x', threads', u, threads[u]); }
      else { DrawnPut(x', chain, threads', t, threads'[t]); }
    }
    OwnNew(threads, t, threads'[t]);
  }

  lemma DrawnPut(x: Tickets, chain: seq<nat>, threads: seq<Pc>, t: nat, pc: Pc)
    requires t < |x.futex| && pc.FindStart? && pc.k.Put? && pc.i < x.put && pc.i !in x.stored && pc.i in x.vals
    requires x.vals[pc.i] == pc.k.v
    ensures TicketPcInv(x, chain, threads, t, pc)
  {
  }

  lemma DrawGet(x: Tickets, chain: seq<nat>, threads: seq<Pc>, t: nat)
    requires TicketsInv(x, chain, threads) && t < |threads| && threads[t].Ticket? && threads[t].k.Get?
    ensures TicketsInv(x.(get := x.get + 1, futex := x.futex[t := 1]), chain,
                       threads[t := FindStart(threads[t].k, x.get)])
  {
    hide CellInv; hide TicketPcInv; hide OwnTickets; hide CellOf;
    var x' := x.(get := x.get + 1, futex := x.futex[t := 1]);
    var threads' := threads[t := FindStart(threads[t].k, x.get)];
    assert WaitsKept(x, threads, x', threads');
    forall i: nat ensures CellInv(x', chain, threads', i) { CellKept(x, chain, threads, x', threads', i); }
    DrawnGet(x, chain, threads, x', threads', t);
    forall u | 0 <= u < |threads|
        ensures TicketPcInv(x', chain, threads', u, threads'[u]) && GetOf(threads[u]) != x.get {
      TicketAlone(x, chain, threads, t, u);
      if u != t { PcKept(x, chain, threads, x', threads', u, threads[u]); }
    }
    OwnNew(threads, t, threads'[t]);
  }

  lemma DrawnGet(x: Tickets, chain: seq<nat>, threads: seq<Pc>, x': Tickets, threads': seq<Pc>, t: nat)
    requires CellInv(x, chain, threads, x.get) && x' == x.(get := x.get + 1, futex := x'.futex) && t < |x'.futex|
    requires x'.futex[t] == 1
    requires x.get !in x.got && t < |threads'| && threads'[t].FindStart? && threads'[t].k.Get? && threads'[t].i == x.get
    ensures TicketPcInv(x', chain, threads', t, threads'[t])
  {
  }

  /** What the enqueuer's exchange finds. */
  lemma StoreFinds(x: Tickets, chain: seq<nat>, threads: seq<Pc>, t: nat)
    requires TicketsInv(x, chain, threads) && t < |threads| && threads[t].PutXchg?
    ensures var pc := threads[t]; var was := CellOf(chain, x.cells, pc.i);
      && !was.Value? && pc.i !in x.stored && pc.i in x.vals && x.vals[pc.i] == pc.v && pc.i < x.put
      && (was.Waiter? ==> Waits(x, threads, was.u, pc.i))
  {
    hide OwnTickets; hide CellOf;
    assert TicketPcInv(x, chain, threads, t, threads[t]);
    assert CellInv(x, chain, threads, threads[t].i);
  }

  /** The enqueuer's exchange: it finds nothing, or the address of the thread waiting for it. */
  lemma StoreValue(x: Tickets, chain: seq<nat>, threads: seq<Pc>, t: nat)
    requires TicketsInv(x, chain, threads) && t < |threads| && threads[t].PutXchg?
    requires var pc := threads[t]; pc.i / N < |chain| && chain[pc.i / N] == pc.c
    requires forall a, b :: 0 <= a < b < |chain| ==> chain[a] != chain[b]
    ensures var pc := threads[t]; var was := CellAt(x.cells, pc.c, pc.i);
      && !was.Value?
      && TicketsInv(x.(cells := x.cells[(pc.c, pc.i % N) := Value(pc.v)], stored := x.stored + {pc.i}), chain,
                    threads[t := if was.Waiter? then PutWake(pc.i, was.u) else Idle])
  {
    hide CellInv; hide TicketPcInv; hide OwnTickets; hide Waits; hide CellAt;
    var pc := threads[t];
    var was := CellAt(x.cells, pc.c, pc.i);
    var x' := x.(cells := x.cells[(pc.c, pc.i % N) := Value(pc.v)], stored := x.stored + {pc.i});
    var threads' := threads[t := if was.Waiter? then PutWake(pc.i, was.u) else Idle];
    StoreFinds(x, chain, threads, t);
    StoreKeepsWaits(x, threads, x', threads', t);
    OwnUnmoved(threads, threads', t);
    forall i: nat ensures CellOf(chain, x'.cells, i) == (if i == pc.i then Value(pc.v) else CellOf(chain, x.cells, i)) {
      CellOfUpdate(chain, x.cells, pc.i, Value(pc.v), i);
    }
    hide CellOf;
    forall i: nat ensures CellInv(x', chain, threads', i) {
      if i != pc.i { CellKept(x, chain, threads, x', threads', i); } else { StoredCell(x', chain, threads', i); }
    }
    forall u | 0 <= u < |threads| ensures TicketPcInv(x', chain, threads', u, threads'[u]) {
      if u != t {
        TicketAlone(x, chain, threads, t, u);
        StoreSeen(x, chain, threads, pc.i, pc.v, u, threads[u], x', threads');
      } else { StoredPc(x', chain, threads', t, threads'[t]); }
    }
  }

  lemma StoreKeepsWaits(x: Tickets, threads: seq<Pc>, x': Tickets, threads': seq<Pc>, t: nat)
    requires t < |threads| && !threads[t].GetWait? && x'.futex == x.futex && |threads'| == |threads|
    requires threads' == threads[t := threads'[t]]
    ensures WaitsKept(x, threads, x', threads')
  {
  }

  lemma StoredCell(x: Tickets, chain: seq<nat>, threads: seq<Pc>, i: nat)
    requires CellOf(chain, x.cells, i).Value? && i in x.stored && i in x.vals
    requires CellOf(chain, x.cells, i).v == x.vals[i]
    ensures CellInv(x, chain, threads, i)
  {
    hide CellOf;
  }

  lemma StoredPc(x: Tickets, chain: seq<nat>, threads: seq<Pc>, t: nat, pc: Pc)
    requires t < |x.futex| && (pc.Idle? || pc.PutWake?)
    requires pc.PutWake? ==>
      pc.i < x.put && pc.i in x.stored && Waits(x, threads, pc.u, pc.i) && CellOf(chain, x.cells, pc.i).Value?
    ensures TicketPcInv(x, chain, threads, t, pc)
  {
    hide CellOf;
  }

  lemma StoreSeen(x: Tickets, chain: seq<nat>, threads: seq<Pc>, i: nat, v: Val, u: nat, pc: Pc, x': Tickets,
      threads': seq<Pc>)
    requires TicketPcInv(x, chain, threads, u, pc) && i !in x.stored && PutOf(pc) != i
    requires x' == x.(cells := x'.cells, stored := x.stored + {i})
    requires forall k: nat :: CellOf(chain, x'.cells, k) == if k == i then Value(v) else CellOf(chain, x.cells, k)
    requires WaitsKept(x, threads, x', threads')
    ensures TicketPcInv(x', chain, threads', u, pc)
  {
    hide CellOf; hide Waits;
  }

  /** The enqueuer's store to the waiter's futex: that thread still waits for this very ticket. */
  lemma WakeWaiter(x: Tickets, chain: seq<nat>, threads: seq<Pc>, t: nat)
    requires TicketsInv(x, chain, threads) && t < |threads| && threads[t].PutWake?
    ensures Waits(x, threads, threads[t].u, threads[t].i)
    ensures TicketsInv(x.(futex := x.futex[threads[t].u := 0]), chain, threads[t := PutNotify(threads[t].u)])
  {
    hide CellInv; hide TicketPcInv; hide OwnTickets; hide CellOf;
    var pc := threads[t];
    WakeFinds(x, chain, threads, t);
    var x', threads' := x.(futex := x.futex[pc.u := 0]), threads[t := PutNotify(pc.u)];
    OwnUnmoved(threads, threads', t);
    forall i: nat ensures CellInv(x', chain, threads', i) { WokenCell(x, chain, threads, x', threads', pc.u, pc.i, i); }
    forall u | 0 <= u < |threads| ensures TicketPcInv(x', chain, threads', u, threads'[u]) {
      TicketAlone(x, chain, threads, t, u);
      WokenPc(x, chain, threads, x', threads', pc, u, threads'[u]);
    }
  }

  lemma WakeFinds(x: Tickets, chain: seq<nat>, threads: seq<Pc>, t: nat)
    requires TicketsInv(x, chain, threads) && t < |threads| && threads[t].PutWake?
    ensures var pc := threads[t];
      Waits(x, threads, pc.u, pc.i) && pc.i in x.stored && CellOf(chain, x.cells, pc.i).Value?
  {
    hide OwnTickets; hide CellOf; hide CellInv; hide Waits;
    assert TicketPcInv(x, chain, threads, t, threads[t]);
  }

  lemma WokenCell(x: Tickets, chain: seq<nat>, threads: seq<Pc>, x': Tickets, threads': seq<Pc>, w: nat, j: nat, i: nat)
    requires CellInv(x, chain, threads, i) && Waits(x, threads, w, j) && j in x.stored
    requires x' == x.(futex := x.futex[w := 0])
    requires |threads'| == |threads|
    requires forall u :: 0 <= u < |threads| && threads[u].GetWait? ==> threads'[u] == threads[u]
    ensures CellInv(x', chain, threads', i)
  {
    hide CellOf;
  }

  lemma WokenPc(x: Tickets, chain: seq<nat>, threads: seq<Pc>, x': Tickets, threads': seq<Pc>, wake: Pc, u: nat, pc: Pc)
    requires wake.PutWake? && Waits(x, threads, wake.u, wake.i) && wake.i in x.stored
    requires CellOf(chain, x.cells, wake.i).Value?
    requires x' == x.(futex := x.futex[wake.u := 0]) && u < |threads'| && threads'[u] == pc
    requires |threads'| == |threads|
    requires forall v :: 0 <= v < |threads| && threads[v].GetWait? ==> threads'[v] == threads[v]
    requires pc.PutNotify? || (TicketPcInv(x, chain, threads, u, pc) && PutOf(pc) != wake.i && threads[u] == pc)
    ensures TicketPcInv(x', chain, threads', u, pc)
  {
    hide CellOf;
  }

  /** What a dequeuer that finds a value has found. */
  lemma ValueFound(x: Tickets, chain: seq<nat>, threads: seq<Pc>, t: nat)
    requires TicketsInv(x, chain, threads) && t < |threads| && IsGet(threads[t])
    requires CellOf(chain, x.cells, threads[t].i).Value?
    ensures var i := threads[t].i; i < x.get && i in x.stored && i in x.vals && CellOf(chain, x.cells, i).v == x.vals[i]
  {
    hide OwnTickets; hide CellOf;
    assert TicketPcInv(x, chain, threads, t, threads[t]);
    assert CellInv(x, chain, threads, threads[t].i);
  }

  /** A thread that has its value. */
  lemma GetIsOver(x: Tickets, chain: seq<nat>, threads: seq<Pc>, t: nat, i: nat)
    requires t < |x.futex|
    ensures TicketPcInv(x, chain, threads, t, GetOver(i))
  {
  }

  /** A dequeuer that reads a value reads the one that goes with its ticket. */
  lemma Deliver(x: Tickets, chain: seq<nat>, threads: seq<Pc>, t: nat)
    requires TicketsInv(x, chain, threads) && t < |threads|
    requires threads[t].GetSpin? || (threads[t].GetWait? && x.futex[t] != 1)
    requires CellOf(chain, x.cells, threads[t].i).Value?
    ensures TicketsInv(x.(got := x.got[threads[t].i := CellOf(chain, x.cells, threads[t].i).v]), chain,
                       threads[t := GetOver(threads[t].i)])
  {
    hide CellInv; hide TicketPcInv; hide OwnTickets; hide CellOf;
    var pc := threads[t];
    var x' := x.(got := x.got[pc.i := CellOf(chain, x.cells, pc.i).v]);
    var threads' := threads[t := GetOver(pc.i)];
    ValueFound(x, chain, threads, t);
    OwnUnmoved(threads, threads', t);
    assert WaitsKept(x, threads, x', threads');
    forall i: nat ensures CellInv(x', chain, threads', i) { CellKept(x, chain, threads, x', threads', i); }
    forall u | 0 <= u < |threads| ensures TicketPcInv(x', chain, threads', u, threads'[u]) {
      TicketAlone(x, chain, threads, t, u);
      if u != t {
        PcKept(x, chain, threads, x', threads', u, threads[u]);
      } else {
        GetIsOver(x', chain, threads', t, pc.i);
      }
    }
  }

  /** The dequeuer's exchange on an empty cell leaves its address there. */
  lemma PlaceWaiter(x: Tickets, chain: seq<nat>, threads: seq<Pc>, t: nat)
    requires TicketsInv(x, chain, threads) && t < |threads| && threads[t].GetXchg?
    requires var pc := threads[t]; pc.i / N < |chain| && chain[pc.i / N] == pc.c && CellAt(x.cells, pc.c, pc.i).Null?
    requires forall a, b :: 0 <= a < b < |chain| ==> chain[a] != chain[b]
    ensures var pc := threads[t];
      TicketsInv(x.(cells := x.cells[(pc.c, pc.i % N) := Waiter(t)]), chain, threads[t := GetWait(pc.i, pc.c)])
  {
    hide CellInv; hide TicketPcInv; hide OwnTickets; hide CellAt;
    var pc := threads[t];
    var x' := x.(cells := x.cells[(pc.c, pc.i % N) := Waiter(t)]);
    var threads' := threads[t := GetWait(pc.i, pc.c)];
    EmptyFound(x, chain, threads, t);
    OwnUnmoved(threads, threads', t);
    forall i: nat ensures CellOf(chain, x'.cells, i) == (if i == pc.i then Waiter(t) else CellOf(chain, x.cells, i)) {
      CellOfUpdate(chain, x.cells, pc.i, Waiter(t), i);
    }
    hide CellOf;
    assert WaitsKept(x, threads, x', threads') && Waits(x', threads', t, pc.i);
    hide Waits;
    forall i: nat ensures CellInv(x', chain, threads', i) {
      if i != pc.i { CellKept(x, chain, threads, x', threads', i); } else { WaitedCell(x', chain, threads', i); }
    }
    forall u | 0 <= u < |threads| ensures TicketPcInv(x', chain, threads', u, threads'[u]) {
      TicketAlone(x, chain, threads, t, u);
      if u != t {
        NoWakeFor(x, chain, threads, t, u);
        PlaceSeen(x, chain, threads, x', threads', pc.i, u, threads[u]);
      } else { WaitingPc(x', chain, threads', t, threads'[t]); }
    }
  }

  lemma EmptyFound(x: Tickets, chain: seq<nat>, threads: seq<Pc>, t: nat)
    requires TicketsInv(x, chain, threads) && t < |threads| && threads[t].GetXchg?
    requires CellOf(chain, x.cells, threads[t].i).Null?
    ensures var i := threads[t].i; i < x.get && i !in x.stored && i !in x.got && t < |x.futex| && x.futex[t] == 1
  {
    hide OwnTickets; hide CellOf;
    assert TicketPcInv(x, chain, threads, t, threads[t]);
    assert CellInv(x, chain, threads, threads[t].i);
  }

  lemma WaitedCell(x: Tickets, chain: seq<nat>, threads: seq<Pc>, i: nat)
    requires var c := CellOf(chain, x.cells, i); c.Waiter? && i < x.get && (i in x.stored || Waits(x, threads, c.u, i))
    ensures CellInv(x, chain, threads, i)
  {
    hide CellOf;
  }

  lemma WaitingPc(x: Tickets, chain: seq<nat>, threads: seq<Pc>, t: nat, pc: Pc)
    requires pc.GetWait? && t < |x.futex| && pc.i < x.get && pc.i !in x.got
    requires CellOf(chain, x.cells, pc.i) == Waiter(t) && x.futex[t] == 1 && pc.i !in x.stored
    ensures TicketPcInv(x, chain, threads, t, pc)
  {
    hide CellOf;
  }

  /** A dequeuer's exchange at the cell of ticket i, seen by a thread that is not its dequeuer; an
      enqueuer about to wake somebody is not at that cell. */
  lemma PlaceSeen(x: Tickets, chain: seq<nat>, threads: seq<Pc>, x': Tickets, threads': seq<Pc>, i: nat, u: nat, pc: Pc)
    requires TicketPcInv(x, chain, threads, u, pc) && GetOf(pc) != i && (pc.PutWake? ==> pc.i != i)
    requires x' == x.(cells := x'.cells, got := x'.got) && x'.got.Keys <= x.got.Keys + {i}
    requires forall k: nat :: k != i ==> CellOf(chain, x'.cells, k) == CellOf(chain, x.cells, k)
    requires WaitsKept(x, threads, x', threads')
    ensures TicketPcInv(x', chain, threads', u, pc)
  {
    hide CellOf; hide Waits;
  }

  /** The dequeuer's exchange on a value takes it; its address stays behind, and nobody will use it. */
  lemma TakeValue(x: Tickets, chain: seq<nat>, threads: seq<Pc>, t: nat)
    requires TicketsInv(x, chain, threads) && t < |threads| && threads[t].GetXchg?
    requires var pc := threads[t]; pc.i / N < |chain| && chain[pc.i / N] == pc.c && CellAt(x.cells, pc.c, pc.i).Value?
    requires forall a, b :: 0 <= a < b < |chain| ==> chain[a] != chain[b]
    ensures var pc := threads[t];
      TicketsInv(x.(cells := x.cells[(pc.c, pc.i % N) := Waiter(t)],
          got := x.got[pc.i := CellAt(x.cells, pc.c, pc.i).v]),
                 chain, threads[t := GetOver(pc.i)])
  {
    hide CellInv; hide TicketPcInv; hide OwnTickets; hide CellAt; hide Waits;
    var pc := threads[t];
    var x' := x.(cells := x.cells[(pc.c, pc.i % N) := Waiter(t)], got := x.got[pc.i := CellAt(x.cells, pc.c, pc.i).v]);
    var threads' := threads[t := GetOver(pc.i)];
    ValueFound(x, chain, threads, t);
    StoreKeepsWaits(x, threads, x', threads', t);
    OwnUnmoved(threads, threads', t);
    forall i: nat ensures CellOf(chain, x'.cells, i) == (if i == pc.i then Waiter(t) else CellOf(chain, x.cells, i)) {
      CellOfUpdate(chain, x.cells, pc.i, Waiter(t), i);
    }
    hide CellOf;
    forall i: nat ensures CellInv(x', chain, threads', i) {
      if i != pc.i { CellKept(x, chain, threads, x', threads', i); } else { WaitedCell(x', chain, threads', i); }
    }
    forall u | 0 <= u < |threads| ensures TicketPcInv(x', chain, threads', u, threads'[u]) {
      TicketAlone(x, chain, threads, t, u);
      if u != t {
        NoWakeFor(x, chain, threads, t, u);
        PlaceSeen(x, chain, threads, x', threads', pc.i, u, threads[u]);
      } else { GetIsOver(x', chain, threads', t, pc.i); }
    }
  }

  /** An enqueuer about to wake somebody has a waiting thread for its ticket. */
  lemma NoWakeFor(x: Tickets, chain: seq<nat>, threads: seq<Pc>, t: nat, u: nat)
    requires TicketsInv(x, chain, threads) && t < |threads| && u < |threads| && GetOf(threads[t]) >= 0
    requires !threads[t].GetWait?
    ensures threads[u].PutWake? ==> threads[u].i != GetOf(threads[t])
  {
    if threads[u].PutWake? {
      WakeFinds(x, chain, threads, u);
      TicketAlone(x, chain, threads, t, threads[u].u);
    }
  }

  lemma ChainDistinct(g: Segments)
    requires ListInv(g)
    ensures forall a, b :: 0 <= a < b < |g.chain| ==> g.chain[a] != g.chain[b]
  {
    forall a, b | 0 <= a < b < |g.chain| ensures g.chain[a] != g.chain[b] {
      assert g.nodes[g.chain[a]].id == a && g.nodes[g.chain[b]].id == b;
    }
  }

  lemma PutStepTickets(s: State, t: nat, cmd: Cmd)
    requires Sized(s) && ListInv(s.g) && t < |s.threads| && TicketPc(s.threads[t]) && !IsGet(s.threads[t])
    requires TicketsInv(s.x, s.g.chain, s.threads) && WalkInv(s.g, t, s.threads[t])
    requires s.threads[t].PutXchg? || IsGet(s.threads[t]) ==> s.threads[t].c !in s.r.freed
    ensures var s' := TicketStep(s, t, cmd);
      && s'.bad == s.bad && TicketsInv(s'.x, s'.g.chain, s'.threads)
  {
    var pc, g := s.threads[t], s.g;
    assert TicketPcInv(s.x, g.chain, s.threads, t, pc);
    ChainDistinct(g);
    hide TicketsInv; hide ListInv;
    if pc.Ticket? {
      if pc.k.Put? { DrawPut(s.x, g.chain, s.threads, t); } else { DrawGet(s.x, g.chain, s.threads, t); }
    } else if pc.PutXchg? {
      StoreValue(s.x, g.chain, s.threads, t);
    } else if pc.PutWake? {
      WakeWaiter(s.x, g.chain, s.threads, t);
    } else {
      Notify(s.x, g.chain, s.threads, t);
    }
  }

  lemma GetStepTickets(s: State, t: nat, cmd: Cmd)
    requires Sized(s) && ListInv(s.g) && t < |s.threads| && TicketPc(s.threads[t]) && IsGet(s.threads[t])
    requires TicketsInv(s.x, s.g.chain, s.threads) && WalkInv(s.g, t, s.threads[t])
    requires s.threads[t].PutXchg? || IsGet(s.threads[t]) ==> s.threads[t].c !in s.r.freed
    ensures var s' := TicketStep(s, t, cmd);
      && s'.bad == s.bad && TicketsInv(s'.x, s'.g.chain, s'.threads)
  {
    var pc, g := s.threads[t], s.g;
    assert TicketPcInv(s.x, g.chain, s.threads, t, pc);
    ChainDistinct(g);
    assert CellInv(s.x, g.chain, s.threads, pc.i);
    hide TicketsInv; hide ListInv;
    if pc.GetSpin? {
      if CellAt(s.x.cells, pc.c, pc.i).Value? { Deliver(s.x, g.chain, s.threads, t); }
      else if cmd.GiveUp? { SpinOver(s.x, g.chain, s.threads, t); }
      else { assert s.threads[t := pc] == s.threads; }
    } else if pc.GetXchg? {
      if CellAt(s.x.cells, pc.c, pc.i).Value? { TakeValue(s.x, g.chain, s.threads, t); }
      else { PlaceWaiter(s.x, g.chain, s.threads, t); }
    } else {
      if t in s.x.asleep { Sleepers(s.x, g.chain, s.threads, s.x.asleep - {t}); }
      else if s.x.futex[t] == 1 { Sleepers(s.x, g.chain, s.threads, s.x.asleep + {t}); }
      else { Deliver(s.x, g.chain, s.threads, t); }
    }
  }

  /** Tickets and cells do not depend on who is asleep. */
  lemma Sleepers(x: Tickets, chain: seq<nat>, threads: seq<Pc>, asleep: set<nat>)
    requires TicketsInv(x, chain, threads)
    ensures TicketsInv(x.(asleep := asleep), chain, threads)
  {
    hide CellInv; hide TicketPcInv; hide OwnTickets; hide CellOf;
    var x' := x.(asleep := asleep);
    assert WaitsKept(x, threads, x', threads);
    forall i: nat ensures CellInv(x', chain, threads, i) { CellKept(x, chain, threads, x', threads, i); }
    forall u | 0 <= u < |threads| ensures TicketPcInv(x', chain, threads, u, threads[u]) {
      PcKept(x, chain, threads, x', threads, u, threads[u]);
    }
  }

  lemma Notify(x: Tickets, chain: seq<nat>, threads: seq<Pc>, t: nat)
    requires TicketsInv(x, chain, threads) && t < |threads| && threads[t].PutNotify?
    ensures TicketsInv(x.(asleep := x.asleep - {threads[t].u}), chain, threads[t := Idle])
  {
    hide TicketInv; hide TicketPcInv; hide OwnTickets; hide CellOf;
    var threads' := threads[t := Idle];
    TicketsUnmoved(x, chain, chain, threads, threads', t);
    OwnUnmoved(threads, threads', t);
    forall u | 0 <= u < |threads| ensures TicketPcInv(x, chain, threads', u, threads'[u]) {
      if u == t { IdlePc(x, chain, threads', t); } else { assert TicketPcInv(x, chain, threads, u, threads'[u]); }
    }
    assert TicketsInv(x, chain, threads');
    Sleepers(x, chain, threads', x.asleep - {threads[t].u});
  }

  lemma IdlePc(x: Tickets, chain: seq<nat>, threads: seq<Pc>, t: nat)
    requires TicketInv(x, chain, threads) && t < |threads|
    ensures TicketPcInv(x, chain, threads, t, Idle)
  {
  }

  lemma SpinOver(x: Tickets, chain: seq<nat>, threads: seq<Pc>, t: nat)
    requires TicketsInv(x, chain, threads) && t < |threads| && threads[t].GetSpin?
    ensures TicketsInv(x, chain, threads[t := GetXchg(threads[t].i, threads[t].c)])
  {
    var threads' := threads[t := GetXchg(threads[t].i, threads[t].c)];
    TicketsUnmoved(x, chain, chain, threads, threads', t);
    OwnUnmoved(threads, threads', t);
    assert TicketPcInv(x, chain, threads, t, threads[t]);
    forall u | 0 <= u < |threads| ensures TicketPcInv(x, chain, threads', u, threads'[u]) {
      assert TicketPcInv(x, chain, threads, u, threads'[u]);
    }
  }

  lemma HandlesLater(g: Segments, cfg: Config, floor: nat, put: nat, get: nat, put': nat, get': nat)
    requires HandleInv(g, cfg, floor, put, get) && put <= put' && get <= get'
    ensures HandleInv(g, cfg, floor, put', get')
  {
    assert put / N <= put' / N && get / N <= get' / N;
  }

  /** What a ticket step leaves alone. */
  lemma TicketStepFrame(s: State, t: nat, cmd: Cmd)
    requires Sized(s) && t < |s.threads| && TicketPc(s.threads[t])
    ensures var s' := TicketStep(s, t, cmd);
      && Sized(s') && s'.g == s.g && s'.r == s.r && s'.cfg == s.cfg
      && |s'.threads| == |s.threads| && s'.threads == s.threads[t := s'.threads[t]]
      && s'.x.put >= s.x.put && s'.x.get >= s.x.get
  {
    hide CellAt; hide Sized;
    SizedFutex(s);
    assert s.threads[t := s.threads[t]] == s.threads;
    StillSized(s, TicketStep(s, t, cmd));
  }

  lemma SizedFutex(s: State)
    requires Sized(s)
    ensures |s.x.futex| == |s.threads|
  {
  }

  lemma StillSized(s: State, s': State)
    requires Sized(s) && s'.cfg == s.cfg && s'.g == s.g && |s'.x.futex| == |s.x.futex| && |s'.threads| == |s.threads|
    ensures Sized(s')
  {
  }

  /** Where a thread can be after a ticket step. */
  ghost predicate AfterTicket(pc: Pc, pc': Pc, put: nat, get: nat) {
    if pc.Ticket? then pc' == FindStart(pc.k, if pc.k.Put? then put else get)
    else
      || pc'.Idle? || pc' == pc || pc'.PutWake? || pc'.PutNotify? || (pc'.GetOver? && IsGet(pc))
      || (IsGet(pc') && IsGet(pc) && pc'.c == pc.c && pc'.i == pc.i)
  }

  lemma TicketStepPc(s: State, t: nat, cmd: Cmd)
    requires Sized(s) && t < |s.threads| && TicketPc(s.threads[t])
    ensures AfterTicket(s.threads[t], TicketStep(s, t, cmd).threads[t], s.x.put, s.x.get)
  {
    hide CellAt;
  }

  lemma TicketStepWalk(s: State, t: nat, cmd: Cmd)
    requires Sized(s) && t < |s.threads| && TicketPc(s.threads[t]) && RoleOk(s.cfg, t, s.threads[t])
    requires WalkInv(s.g, t, s.threads[t]) && HandleInv(s.g, s.cfg, s.r.floor, s.x.put, s.x.get)
    ensures var s' := TicketStep(s, t, cmd);
      && RoleOk(s.cfg, t, s'.threads[t]) && WalkInv(s.g, t, s'.threads[t])
      && !Locked(s'.threads[t]) && !s'.threads[t].Freeing?
  {
    hide TicketStep; hide OnList;
    TicketStepFrame(s, t, cmd);
    TicketStepPc(s, t, cmd);
  }

  lemma TicketStepInv(s: State, t: nat, cmd: Cmd)
    requires Inv(s) && t < |s.threads| && TicketPc(s.threads[t])
    ensures Inv(TicketStep(s, t, cmd))
  {
    hide TicketStep; hide TicketInv; hide OwnTickets; hide TicketPcInv; hide ListInv; hide HandleInv;
    var s', pc := TicketStep(s, t, cmd), s.threads[t];
    assert ThreadInv(s, t);
    assert TicketsInv(s.x, s.g.chain, s.threads) by {
      forall u | 0 <= u < |s.threads| ensures TicketPcInv(s.x, s.g.chain, s.threads, u, s.threads[u]) {
        assert ThreadInv(s, u);
      }
    }
    if pc.PutXchg? || IsGet(pc) { CellSegmentNotFreed(s, t); }
    if IsGet(pc) { GetStepTickets(s, t, cmd); } else { PutStepTickets(s, t, cmd); }
    TicketStepFrame(s, t, cmd);
    TicketStepWalk(s, t, cmd);
    HandlesLater(s.g, s.cfg, s.r.floor, s.x.put, s.x.get, s'.x.put, s'.x.get);
    assert Grows(s.g, s'.g, t) by { assert HandleOf(s.g, t, Get) == s.g.pop[t]; }
    ReclaimUnmoved(s.r, s.g, s'.g, s.threads, s'.threads, t);
    hide ReclaimInv; hide WalkInv; hide Grows;
    forall u | 0 <= u < |s'.threads| ensures ThreadInv(s', u) {
      assert ThreadInv(s, u);
      if u != t { hide ReclaimPcInv; }
    }
  }

  lemma CellSegmentNotFreed(s: State, t: nat)
    requires Inv(s) && t < |s.threads| && (s.threads[t].PutXchg? || IsGet(s.threads[t]))
    ensures s.threads[t].c !in s.r.freed
  {
    assert ThreadInv(s, t);
    AboveFloorNotFreed(s, s.threads[t].c);
  }

  // ------------------------------------------------------------------ reclamation

  /** Everything about reclamation. */
  ghost predicate ReclaimsInv(r: Reclaim, g: Segments, cfg: Config, threads: seq<Pc>) {
    && ReclaimInv(r, g, threads)
    && (forall u :: 0 <= u < |threads| ==> ReclaimPcInv(r, g, cfg, u, threads[u]))
  }

  /** A step that reads but does not write: try to reclaim, fail to lock, scan the handles. */
  lemma OnlyLooks(r: Reclaim, g: Segments, cfg: Config, threads: seq<Pc>, t: nat, pc': Pc)
    requires ReclaimsInv(r, g, cfg, threads) && t < |threads|
    requires !threads[t].Freeing? && !pc'.Freeing? && (Locked(threads[t]) ==> Locked(pc'))
    requires ReclaimPcInv(r, g, cfg, t, pc')
    ensures ReclaimsInv(r, g, cfg, threads[t := pc'])
  {
    var threads' := threads[t := pc'];
    forall u | 0 <= u < |threads'| ensures ReclaimPcInv(r, g, cfg, u, threads'[u]) {
      assert ReclaimPcInv(r, g, cfg, u, threads[u]);
    }
  }

  lemma Lock(r: Reclaim, g: Segments, cfg: Config, threads: seq<Pc>, t: nat)
    requires ReclaimsInv(r, g, cfg, threads) && t < |threads| && threads[t].RecLock? && r.initId == threads[t].init
    ensures ReclaimsInv(r.(initId := NULL, holder := t), g, cfg, threads[t := RecStart(threads[t].init)])
  {
    var r', threads' := r.(initId := NULL, holder := t), threads[t := RecStart(threads[t].init)];
    forall u | 0 <= u < |threads'| ensures ReclaimPcInv(r', g, cfg, u, threads'[u]) {
      assert ReclaimPcInv(r, g, cfg, u, threads[u]);
    }
  }

  /** Some handle still uses the oldest segment: the lock is given back and nothing is freed. */
  lemma Release(r: Reclaim, g: Segments, cfg: Config, threads: seq<Pc>, t: nat)
    requires ReclaimsInv(r, g, cfg, threads) && t < |threads| && threads[t].Decide?
    ensures ReclaimsInv(r.(initId := threads[t].init, holder := NULL), g, cfg, threads[t := Idle])
  {
    var r', threads' := r.(initId := threads[t].init, holder := NULL), threads[t := Idle];
    assert ReclaimPcInv(r, g, cfg, t, threads[t]);
    forall u | 0 <= u < |threads'| ensures ReclaimPcInv(r', g, cfg, u, threads'[u]) {
      assert ReclaimPcInv(r, g, cfg, u, threads[u]);
    }
  }

  lemma Settle(r: Reclaim, g: Segments, cfg: Config, threads: seq<Pc>, t: nat)
    requires ReclaimsInv(r, g, cfg, threads) && t < |threads| && threads[t].Decide?
    requires IdOf(g.nodes, threads[t].min) > threads[t].init
    ensures var pc := threads[t];
      ReclaimsInv(r.(initNode := pc.min), g, cfg, threads[t := Unlock(pc.init, pc.node, pc.min)])
  {
    var pc := threads[t];
    var r', threads' := r.(initNode := pc.min), threads[t := Unlock(pc.init, pc.node, pc.min)];
    assert ReclaimPcInv(r, g, cfg, t, pc);
    forall u | 0 <= u < |threads'| ensures ReclaimPcInv(r', g, cfg, u, threads'[u]) {
      assert ReclaimPcInv(r, g, cfg, u, threads[u]);
    }
  }

  /** The floor rises to an id that no handle is below; the segments between become the
      unlocking thread's to free. */
  lemma Raise(r: Reclaim, g: Segments, cfg: Config, threads: seq<Pc>, t: nat)
    requires ListInv(g) && ReclaimsInv(r, g, cfg, threads) && t < |threads| && threads[t].Unlock?
    ensures var pc := threads[t]; var newId := IdOf(g.nodes, pc.min);
      ReclaimsInv(r.(initId := newId, holder := NULL, floor := newId,
                     fate := Claimed(r.fate, newId, t)),
                  g, cfg, threads[t := Freeing(pc.node, pc.min)])
  {
    var pc := threads[t];
    var newId := IdOf(g.nodes, pc.min);
    var r' := r.(initId := newId, holder := NULL, floor := newId,
                 fate := Claimed(r.fate, newId, t));
    var threads' := threads[t := Freeing(pc.node, pc.min)];
    assert ReclaimPcInv(r, g, cfg, t, pc);
    assert g.nodes[g.chain[r.floor]].id == r.floor;
    assert forall k: nat :: k in r.fate ==> k in r'.fate && r'.fate[k] == r.fate[k];
    assert ReclaimInv(r', g, threads');
    forall u | 0 <= u < |threads'| ensures ReclaimPcInv(r', g, cfg, u, threads'[u]) {
      assert ReclaimPcInv(r, g, cfg, u, threads[u]);
    }
  }

  /** One turn of the freeing loop, long after the lock was given back. */
  lemma FreeOne(r: Reclaim, g: Segments, cfg: Config, threads: seq<Pc>, t: nat)
    requires ListInv(g) && ReclaimsInv(r, g, cfg, threads) && t < |threads| && threads[t].Freeing?
    ensures var node, min := threads[t].node, threads[t].min;
      && node < |g.nodes| && g.nodes[node].next >= 0 && node !in r.freed
      && ReclaimsInv(r.(freed := r.freed + {node}, fate := r.fate[g.nodes[node].id := Freed]), g, cfg,
                     threads[t := if g.nodes[node].next != min then Freeing(g.nodes[node].next, min) else Idle])
  {
    var node, min := threads[t].node, threads[t].min;
    assert ReclaimPcInv(r, g, cfg, t, threads[t]);
    NextToFree(r, g, cfg, t, threads[t]);
    FreeOneSelf(r, g, cfg, t, threads[t], r.(freed := r.freed + {node}, fate := r.fate[g.nodes[node].id := Freed]));
    var id := g.nodes[node].id;
    var r' := r.(freed := r.freed + {node}, fate := r.fate[id := Freed]);
    var threads' := threads[t := if g.nodes[node].next != min then Freeing(g.nodes[node].next, min) else Idle];
    FreeOneShared(r, g, threads, t, threads', r');
    hide ReclaimInv; hide ListInv; hide ReclaimPcInv;
    forall u | 0 <= u < |threads'| ensures ReclaimPcInv(r', g, cfg, u, threads'[u]) {
      if u != t { FreeOneOther(r, g, cfg, t, u, id, threads[u], r'); }
    }
  }

  /** The next pointer of a segment being freed leads to the segment with the next id. */
  lemma NextToFree(r: Reclaim, g: Segments, cfg: Config, t: nat, pc: Pc)
    requires ListInv(g) && ReclaimPcInv(r, g, cfg, t, pc) && pc.Freeing?
    ensures var id, next := g.nodes[pc.node].id, g.nodes[pc.node].next;
      && next >= 0 && OnList(g, next) && g.nodes[next].id == id + 1
           && (next == pc.min <==> id + 1 == g.nodes[pc.min].id)
      && id in r.fate && r.fate[id] == Pending(t)
  {
    var id := g.nodes[pc.node].id;
    assert g.nodes[g.chain[id]].next == g.chain[id + 1];
    assert g.nodes[g.chain[id + 1]].id == id + 1;
  }

  lemma FreeOneSelf(r: Reclaim, g: Segments, cfg: Config, t: nat, pc: Pc, r': Reclaim)
    requires ListInv(g) && ReclaimPcInv(r, g, cfg, t, pc) && pc.Freeing?
    requires r' == r.(freed := r'.freed, fate := r.fate[g.nodes[pc.node].id := Freed])
    ensures g.nodes[pc.node].next >= 0
    ensures ReclaimPcInv(r', g, cfg, t,
      if g.nodes[pc.node].next != pc.min then Freeing(g.nodes[pc.node].next, pc.min) else Idle)
    ensures g.nodes[pc.node].next == pc.min ==> forall k :: k in r'.fate ==> r'.fate[k] != Pending(t)
  {
    NextToFree(r, g, cfg, t, pc);
  }

  lemma FreeOneShared(r: Reclaim, g: Segments, threads: seq<Pc>, t: nat, threads': seq<Pc>, r': Reclaim)
    requires ReclaimInv(r, g, threads) && t < |threads| && threads[t].Freeing? && OnList(g, threads[t].node)
    requires g.nodes[threads[t].node].id in r.fate
    requires r' == r.(freed := r.freed + {threads[t].node}, fate := r.fate[g.nodes[threads[t].node].id := Freed])
    requires |threads'| == |threads| && threads' == threads[t := threads'[t]]
    requires forall k :: k in r'.fate && r'.fate[k] == Pending(t) ==> threads'[t].Freeing?
    ensures ReclaimInv(r', g, threads')
  {
  }

  lemma FreeOneOther(r: Reclaim, g: Segments, cfg: Config, t: nat, u: nat, id: nat, pc: Pc, r': Reclaim)
    requires ReclaimPcInv(r, g, cfg, u, pc) && u != t && id in r.fate && r.fate[id] == Pending(t)
    requires r' == r.(freed := r'.freed, fate := r.fate[id := Freed])
    ensures ReclaimPcInv(r', g, cfg, u, pc)
  {
  }

  lemma ScanDeqKeeps(r: Reclaim, g: Segments, cfg: Config, t: nat, pc: Pc)
    requires ReclaimPcInv(r, g, cfg, t, pc) && pc.ScanDeq? && pc.m < |cfg.deqs|
    requires cfg.deqs[pc.m] < |g.pop| && OnList(g, g.pop[cfg.deqs[pc.m]])
    requires g.nodes[g.pop[cfg.deqs[pc.m]]].id >= r.floor
    ensures var min' := Lower(g.nodes, g.pop[cfg.deqs[pc.m]], pc.min);
      ReclaimPcInv(r, g, cfg, t, if IdOf(g.nodes, min') <= pc.init then ScanEnq(pc.init, pc.node, min', 0)
                                 else ScanDeq(pc.init, pc.node, min', pc.m + 1))
  {
  }

  lemma ScanEnqKeeps(r: Reclaim, g: Segments, cfg: Config, t: nat, pc: Pc)
    requires ReclaimPcInv(r, g, cfg, t, pc) && pc.ScanEnq? && pc.m < |cfg.enqs|
    requires cfg.enqs[pc.m] < |g.push| && OnList(g, g.push[cfg.enqs[pc.m]])
    requires g.nodes[g.push[cfg.enqs[pc.m]]].id >= r.floor
    ensures var min' := Lower(g.nodes, g.push[cfg.enqs[pc.m]], pc.min);
      ReclaimPcInv(r, g, cfg, t, if IdOf(g.nodes, min') <= pc.init then Decide(pc.init, pc.node, min')
                                 else ScanEnq(pc.init, pc.node, min', pc.m + 1))
  {
  }

  /** Looking around before deciding dereferences nothing that was freed. */
  lemma ScanStep(s: State, t: nat)
    requires Inv(s) && t < |s.threads| && (s.threads[t].ScanDeq? || s.threads[t].ScanEnq?)
    ensures var s' := ReclaimStep(s, t); !s'.bad && ReclaimPcInv(s.r, s.g, s.cfg, t, s'.threads[t])
  {
    var pc := s.threads[t];
    assert ThreadInv(s, t);
    AboveFloorNotFreed(s, pc.min);
    if pc.ScanDeq? {
      if pc.m < |s.cfg.deqs| {
        assert s.cfg.deqs[pc.m] in s.cfg.deqs;
        AboveFloorNotFreed(s, s.g.pop[s.cfg.deqs[pc.m]]);
        ScanDeqKeeps(s.r, s.g, s.cfg, t, pc);
      }
    } else {
      if pc.m < |s.cfg.enqs| {
        assert s.cfg.enqs[pc.m] in s.cfg.enqs;
        AboveFloorNotFreed(s, s.g.push[s.cfg.enqs[pc.m]]);
        ScanEnqKeeps(s.r, s.g, s.cfg, t, pc);
      }
    }
    hide Inv; hide ThreadInv;
  }

  lemma StartStep(s: State, t: nat)
    requires Inv(s) && t < |s.threads| && (s.threads[t].GetOver? || s.threads[t].RecStart?)
    ensures var s' := ReclaimStep(s, t); !s'.bad && ReclaimPcInv(s.r, s.g, s.cfg, t, s'.threads[t])
  {
    assert ThreadInv(s, t);
    if s.threads[t].GetOver? {
      AboveFloorNotFreed(s, s.g.pop[t]);
    } else {
      assert s.cfg.deqs != [] && s.cfg.deqs[0] in s.cfg.deqs;
    }
  }

  lemma LookStep(s: State, t: nat)
    requires Inv(s) && t < |s.threads|
    requires var pc := s.threads[t]; pc.GetOver? || pc.RecStart? || pc.ScanDeq? || pc.ScanEnq?
    ensures var s' := ReclaimStep(s, t);
      && !s'.bad && ReclaimsInv(s'.r, s'.g, s'.cfg, s'.threads) && s'.r == s.r
  {
    hide Inv; hide ReclaimPcInv; hide ReclaimInv; hide Lower; hide IdOf;
    IsSized(s);
    var s' := ReclaimStep(s, t);
    if s.threads[t].GetOver? || s.threads[t].RecStart? { StartStep(s, t); } else { ScanStep(s, t); }
    AllReclaims(s);
    IsDequeuer(s, t);
    OnlyLooks(s.r, s.g, s.cfg, s.threads, t, s'.threads[t]);
  }

  lemma IsDequeuer(s: State, t: nat)
    requires Inv(s) && t < |s.threads| && ReclaimPc(s.threads[t])
    ensures t in s.cfg.deqs && s.cfg.deqs != []
  {
    hide WalkInv; hide TicketPcInv; hide ReclaimPcInv;
    assert ThreadInv(s, t);
  }

  lemma AllReclaims(s: State)
    requires Inv(s)
    ensures ReclaimsInv(s.r, s.g, s.cfg, s.threads)
  {
    forall u | 0 <= u < |s.threads| ensures ReclaimPcInv(s.r, s.g, s.cfg, u, s.threads[u]) { assert ThreadInv(s, u); }
  }

  lemma WriteStep(s: State, t: nat)
    requires Inv(s) && t < |s.threads|
    requires var pc := s.threads[t]; pc.RecLock? || pc.Decide? || pc.Unlock? || pc.Freeing?
    ensures var s' := ReclaimStep(s, t);
      && !s'.bad && ReclaimsInv(s'.r, s'.g, s'.cfg, s'.threads)
      && (s'.r.floor != s.r.floor ==> s.threads[t].Unlock? && s'.r.floor == IdOf(s.g.nodes, s.threads[t].min))
  {
    hide Inv; hide ReclaimInv; hide ReclaimPcInv; hide IdOf;
    IsSized(s);
    var pc := s.threads[t];
    AllReclaims(s);
    BeforeWrite(s, t);
    if pc.RecLock? {
      if s.r.initId == pc.init { Lock(s.r, s.g, s.cfg, s.threads, t); }
      else { OnlyLooks(s.r, s.g, s.cfg, s.threads, t, Idle); }
    } else if pc.Decide? {
      if IdOf(s.g.nodes, pc.min) <= pc.init { Release(s.r, s.g, s.cfg, s.threads, t); }
      else { Settle(s.r, s.g, s.cfg, s.threads, t); }
    } else if pc.Unlock? {
      Raise(s.r, s.g, s.cfg, s.threads, t);
    } else {
      FreeOne(s.r, s.g, s.cfg, s.threads, t);
    }
  }

  lemma BeforeWrite(s: State, t: nat)
    requires Inv(s) && t < |s.threads|
    ensures !s.bad && ListInv(s.g)
    ensures s.threads[t].Decide? ==> s.threads[t].min !in s.r.freed && s.threads[t].init == s.r.floor
    ensures ReclaimPcInv(s.r, s.g, s.cfg, t, Idle)
  {
    hide HandleInv; hide TicketInv; hide OwnTickets; hide ListInv; hide WalkInv; hide TicketPcInv;
    assert ThreadInv(s, t);
    if s.threads[t].Decide? { AboveFloorNotFreed(s, s.threads[t].min); }
  }

  lemma ReclaimStepFrame(s: State, t: nat)
    requires Sized(s) && t < |s.threads| && ReclaimPc(s.threads[t])
    ensures var s' := ReclaimStep(s, t);
      && Sized(s') && s'.g == s.g && s'.x == s.x && s'.cfg == s.cfg
      && |s'.threads| == |s.threads| && s'.threads == s.threads[t := s'.threads[t]]
      && (s'.threads[t].Idle? || ReclaimPc(s'.threads[t]))
  {
    hide Sized; hide Lower; hide IdOf; hide Claimed;
    assert s.threads[t := s.threads[t]] == s.threads;
    StillSized(s, ReclaimStep(s, t));
  }

  /** When the floor rises, every registered handle has been seen at or above it. */
  lemma HandlesAboveNewFloor(s: State, t: nat)
    requires Inv(s) && t < |s.threads| && s.threads[t].Unlock?
    ensures HandleInv(s.g, s.cfg, IdOf(s.g.nodes, s.threads[t].min), s.x.put, s.x.get)
  {
    assert ThreadInv(s, t);
    forall u | u in s.cfg.enqs
        ensures u < |s.g.push| && s.g.nodes[s.g.push[u]].id >= IdOf(s.g.nodes, s.threads[t].min) {
      var m :| 0 <= m < |s.cfg.enqs| && s.cfg.enqs[m] == u;
    }
    forall u | u in s.cfg.deqs ensures u < |s.g.pop| && s.g.nodes[s.g.pop[u]].id >= IdOf(s.g.nodes, s.threads[t].min) {
      var m :| 0 <= m < |s.cfg.deqs| && s.cfg.deqs[m] == u;
    }
  }

  lemma ReclaimStepInv(s: State, t: nat)
    requires Inv(s) && t < |s.threads| && ReclaimPc(s.threads[t])
    ensures Inv(ReclaimStep(s, t))
  {
    hide ReclaimStep; hide ListInv; hide ReclaimInv; hide HandleInv; hide TicketInv; hide OwnTickets;
    hide WalkInv; hide TicketPcInv; hide ReclaimPcInv;
    var s', pc := ReclaimStep(s, t), s.threads[t];
    assert ThreadInv(s, t);
    ReclaimStepFrame(s, t);
    if pc.RecLock? || pc.Decide? || pc.Unlock? || pc.Freeing? { WriteStep(s, t); } else { LookStep(s, t); }
    if pc.Unlock? { HandlesAboveNewFloor(s, t); }
    TicketsUnmoved(s.x, s.g.chain, s.g.chain, s.threads, s'.threads, t);
    OwnUnmoved(s.threads, s'.threads, t);
    NoTicket(s.x, s.g.chain, s'.threads, t, s'.threads[t]);
    NoWalk(s.g, t, pc, s'.threads[t]);
    forall u | 0 <= u < |s'.threads| ensures ThreadInv(s', u) { assert ThreadInv(s, u); }
  }

  /** A thread that is idle or reclaims has no ticket and is not on its way to a cell. */
  lemma NoTicket(x: Tickets, chain: seq<nat>, threads: seq<Pc>, t: nat, pc: Pc)
    requires TicketInv(x, chain, threads) && t < |threads| && (pc.Idle? || ReclaimPc(pc) || pc.Ticket?)
    ensures TicketPcInv(x, chain, threads, t, pc)
  {
  }

  lemma NoWalk(g: Segments, t: nat, pc: Pc, pc': Pc)
    requires WalkInv(g, t, pc) && (pc'.Idle? || ReclaimPc(pc') || pc'.Ticket?)
    ensures WalkInv(g, t, pc')
  {
  }

  lemma CallInv(s: State, t: nat, k: Kind)
    requires Inv(s) && t < |s.threads| && s.threads[t].Idle?
    requires if k.Put? then t in s.cfg.enqs else t in s.cfg.deqs
    ensures Inv(Goto(s, t, Ticket(k)))
  {
    hide ListInv; hide HandleInv; hide TicketInv; hide OwnTickets; hide ReclaimInv;
    hide WalkInv; hide TicketPcInv; hide ReclaimPcInv;
    var s' := Goto(s, t, Ticket(k));
    assert ThreadInv(s, t);
    TicketsUnmoved(s.x, s.g.chain, s.g.chain, s.threads, s'.threads, t);
    OwnUnmoved(s.threads, s'.threads, t);
    AllReclaims(s);
    NotReclaiming(s.r, s.g, s.cfg, t, Ticket(k));
    OnlyLooks(s.r, s.g, s.cfg, s.threads, t, Ticket(k));
    NoTicket(s.x, s.g.chain, s'.threads, t, s'.threads[t]);
    NoWalk(s.g, t, Idle, s'.threads[t]);
    forall u | 0 <= u < |s'.threads| ensures ThreadInv(s', u) { assert ThreadInv(s, u); }
  }

  lemma NotReclaiming(r: Reclaim, g: Segments, cfg: Config, t: nat, pc: Pc)
    requires !Locked(pc) && !pc.Freeing?
    ensures ReclaimPcInv(r, g, cfg, t, pc)
  {
  }

  lemma StepInv(s: State, ev: Event)
    requires Inv(s)
    ensures Inv(Step(s, ev))
  {
    if ev.t < |s.threads| {
      var pc := s.threads[ev.t];
      hide Inv; hide FindStep; hide TicketStep; hide ReclaimStep;
      if pc.Idle? {
        if ev.cmd.Enqueue? && ev.t in s.cfg.enqs { CallInv(s, ev.t, Put(ev.cmd.v)); }
        else if ev.cmd.Dequeue? && ev.t in s.cfg.deqs { CallInv(s, ev.t, Get); }
      } else if FindPc(pc) { FindInv(s, ev.t); }
      else if TicketPc(pc) { TicketStepInv(s, ev.t, ev.cmd); }
      else { ReclaimStepInv(s, ev.t); }
    }
  }

  // ------------------------------------------------------------------ theorems

  ghost predicate Registered(cfg: Config, n: nat) {
    forall t :: t in cfg.enqs || t in cfg.deqs ==> t < n
  }

  /** The handles and the threads are those the run was started with. */
  predicate Made(cfg: Config, n: nat, s: State) { s.cfg == cfg && |s.threads| == n }

  lemma StepShape(s: State, ev: Event)
    requires Inv(s)
    ensures Step(s, ev).cfg == s.cfg && |Step(s, ev).threads| == |s.threads|
  {
    hide Inv; hide FindStep; hide TicketStep; hide ReclaimStep;
    IsSized(s);
    if ev.t < |s.threads| {
      var pc := s.threads[ev.t];
      if FindPc(pc) { FindHasEffect(s, ev.t); }
      else if TicketPc(pc) { TicketStepFrame(s, ev.t, ev.cmd); }
      else if ReclaimPc(pc) { ReclaimStepFrame(s, ev.t); }
    }
  }

  lemma IsSized(s: State)
    requires Inv(s)
    ensures Sized(s)
  {
  }

  lemma {:induction false} RunInv(cfg: Config, n: nat, evs: seq<Event>)
    requires Registered(cfg, n)
    ensures var s := Run(Init(cfg, n), evs); Inv(s) && Woken(s) && Sleeping(s) && Made(cfg, n, s)
    decreases |evs|
  {
    hide Inv; hide Step; hide Woken; hide Sleeping;
    if evs == [] {
      InitInv(cfg, n);
      NobodySleeps(cfg, n);
    } else {
      RunInv(cfg, n, evs[..|evs| - 1]);
      var s, ev := Run(Init(cfg, n), evs[..|evs| - 1]), evs[|evs| - 1];
      StepInv(s, ev);
      StepShape(s, ev);
      WokenStep(s, ev);
      SleepingStep(s, ev);
    }
  }

  lemma NobodySleeps(cfg: Config, n: nat)
    ensures Woken(Init(cfg, n)) && Sleeping(Init(cfg, n))
  {
  }

  ghost predicate Reachable(cfg: Config, n: nat, s: State) {
    Registered(cfg, n) && exists evs :: s == Run(Init(cfg, n), evs)
  }

  lemma ReachableInv(cfg: Config, n: nat, s: State)
    requires Reachable(cfg, n, s)
    ensures Inv(s) && Woken(s) && Sleeping(s) && Made(cfg, n, s)
  {
    var evs :| s == Run(Init(cfg, n), evs);
    RunInv(cfg, n, evs);
  }

  /** In every run: no freed segment is touched, none is freed twice; freed segments are below
      every registered handle; and a segment of the list has been freed exactly when its id is
      below the floor and no freeing loop still has it ahead.  The floor is init_id whenever
      init_id is not held at -1. */
  lemma ReclamationSafe(cfg: Config, n: nat, s: State)
    requires Reachable(cfg, n, s)
    ensures !s.bad
    ensures forall p, t :: p in s.r.freed && t in cfg.enqs ==>
      p < |s.g.nodes| && t < |s.g.push| && s.g.push[t] < |s.g.nodes| && s.g.nodes[p].id < s.g.nodes[s.g.push[t]].id
    ensures forall p, t :: p in s.r.freed && t in cfg.deqs ==>
      p < |s.g.nodes| && t < |s.g.pop| && s.g.pop[t] < |s.g.nodes| && s.g.nodes[p].id < s.g.nodes[s.g.pop[t]].id
    ensures forall k :: 0 <= k < |s.g.chain| ==>
      (s.g.chain[k] in s.r.freed <==> k < s.r.floor && !BeingFreed(s, k))
    ensures s.r.freed <= set p | p in s.g.chain
    ensures s.r.initId >= 0 ==> s.r.initId == s.r.floor
  {
    ReachableInv(cfg, n, s);
    forall p | p in s.r.freed ensures p in s.g.chain { assert OnList(s.g, p); }
    forall k | 0 <= k < |s.g.chain|
      ensures s.g.chain[k] in s.r.freed <==> k < s.r.floor && !BeingFreed(s, k)
    {
      FreedExactly(s, k);
    }
  }

  /** Segment k is in the rest of some thread's freeing loop. */
  ghost predicate BeingFreed(s: State, k: nat) {
    exists t :: 0 <= t < |s.threads| && s.threads[t].Freeing?
      && IdOf(s.g.nodes, s.threads[t].node) <= k < IdOf(s.g.nodes, s.threads[t].min)
  }

  lemma FreedExactly(s: State, k: nat)
    requires Inv(s) && k < |s.g.chain|
    ensures s.g.chain[k] in s.r.freed <==> k < s.r.floor && !BeingFreed(s, k)
  {
    assert s.g.nodes[s.g.chain[k]].id == k;
    if k < s.r.floor && s.r.fate[k].Pending? {
      var t := s.r.fate[k].t;
      assert ThreadInv(s, t);
    }
    forall t | 0 <= t < |s.threads| && s.threads[t].Freeing?
        && IdOf(s.g.nodes, s.threads[t].node) <= k < IdOf(s.g.nodes, s.threads[t].min)
      ensures k in s.r.fate && s.r.fate[k] == Pending(t)
    {
      assert ThreadInv(s, t);
    }
  }

  /** The segment list has consecutive ids and is linked in order, and every enqueue or dequeue
      at its cell is in the segment that its ticket asks for, which is not freed. */
  lemma CellOfTicket(cfg: Config, n: nat, s: State, t: nat)
    requires Reachable(cfg, n, s) && t < |s.threads| && (s.threads[t].PutXchg? || IsGet(s.threads[t]))
    ensures |s.threads| == n && Linked(s.g.nodes, s.g.chain)
    ensures var pc := s.threads[t];
      && pc.i / N < |s.g.chain| && pc.c == s.g.chain[pc.i / N] && pc.c !in s.r.freed
  {
    ReachableInv(cfg, n, s);
    assert ThreadInv(s, t);
    CellSegmentNotFreed(s, t);
  }

  /** The dequeuer holding ticket i gets the value enqueued with ticket i. */
  lemma TicketsPairUp(cfg: Config, n: nat, s: State)
    requires Reachable(cfg, n, s)
    ensures forall i :: i in s.x.got ==> i < s.x.get && i < s.x.put && i in s.x.vals && s.x.got[i] == s.x.vals[i]
    ensures forall t, u :: 0 <= t < u < |s.threads| && GetOf(s.threads[t]) == GetOf(s.threads[u]) ==>
      GetOf(s.threads[t]) == -1
    ensures forall t :: 0 <= t < |s.threads| ==> GetOf(s.threads[t]) !in s.x.got
  {
    ReachableInv(cfg, n, s);
    forall t | 0 <= t < |s.threads| ensures GetOf(s.threads[t]) !in s.x.got {
      assert ThreadInv(s, t);
    }
  }

  /** Only ticket steps touch tickets and cells. */
  lemma OtherSteps(s: State, ev: Event)
    requires Inv(s) && ev.t < |s.threads| && !TicketPc(s.threads[ev.t])
    ensures var s' := Step(s, ev);
      && s'.x == s.x && |s'.threads| == |s.threads| && s'.threads == s.threads[ev.t := s'.threads[ev.t]]
      && !s'.threads[ev.t].GetWait?
  {
    hide Inv; hide Grows; hide ListInv; hide WalkInv; hide FindStep; hide ReclaimStep; hide TicketStep;
    IsSized(s);
    var pc := s.threads[ev.t];
    if FindPc(pc) { FindHasEffect(s, ev.t); } else if ReclaimPc(pc) { ReclaimStepFrame(s, ev.t); }
    assert s.threads[ev.t := pc] == s.threads;
  }

  /** What goes with a ticket, and what a ticket delivered, never changes. */
  lemma TicketsAreFinal(s: State, ev: Event, i: nat)
    requires Inv(s)
    ensures i in s.x.vals ==> i in Step(s, ev).x.vals && Step(s, ev).x.vals[i] == s.x.vals[i]
    ensures i in s.x.got ==> i in Step(s, ev).x.got && Step(s, ev).x.got[i] == s.x.got[i]
  {
    hide Inv; hide TicketStep; hide FindStep; hide ReclaimStep;
    IsSized(s);
    if ev.t < |s.threads| {
      if TicketPc(s.threads[ev.t]) {
        FreshTicket(s, ev.t);
        TicketStepFinal(s, ev.t, ev.cmd, i);
      } else { OtherSteps(s, ev); }
    }
  }

  lemma FreshTicket(s: State, t: nat)
    requires Inv(s) && t < |s.threads|
    ensures s.x.put !in s.x.vals && (IsGet(s.threads[t]) ==> s.threads[t].i !in s.x.got)
  {
    hide ListInv; hide HandleInv; hide ReclaimInv; hide OwnTickets; hide WalkInv; hide ReclaimPcInv; hide CellInv;
    hide CellOf;
    assert ThreadInv(s, t);
  }

  lemma TicketStepFinal(s: State, t: nat, cmd: Cmd, i: nat)
    requires Sized(s) && t < |s.threads| && TicketPc(s.threads[t])
    requires s.x.put !in s.x.vals && (IsGet(s.threads[t]) ==> s.threads[t].i !in s.x.got)
    ensures var x' := TicketStep(s, t, cmd).x;
      && (i in s.x.vals ==> i in x'.vals && x'.vals[i] == s.x.vals[i])
      && (i in s.x.got ==> i in x'.got && x'.got[i] == s.x.got[i])
  {
    hide CellAt;
  }

  // ---- no lost wake-up

  /** A dequeuer asleep although its value is there: the enqueuer is about to wake it. */
  ghost predicate Woken(s: State) {
    forall t :: 0 <= t < |s.threads| && AsleepWithValue(s, t) ==> WakePending(s.threads, s.threads[t].i, t)
  }

  ghost predicate AsleepWithValue(s: State, t: nat) {
    t < |s.threads| && s.threads[t].GetWait? && t < |s.x.futex| && s.x.futex[t] == 1 && s.threads[t].i in s.x.stored
  }

  ghost predicate WakePending(threads: seq<Pc>, i: nat, t: nat) {
    exists u :: 0 <= u < |threads| && threads[u] == PutWake(i, t)
  }

  lemma WokenStep(s: State, ev: Event)
    requires Inv(s) && Woken(s)
    ensures Woken(Step(s, ev))
  {
    var s' := Step(s, ev);
    if ev.t < |s.threads| {
      if TicketPc(s.threads[ev.t]) {
        TicketStepFrame(s, ev.t, ev.cmd);
        hide TicketStep; hide FindStep; hide ReclaimStep;
        assert s' == TicketStep(s, ev.t, ev.cmd);
        forall t | 0 <= t < |s'.threads| && AsleepWithValue(s', t)
          ensures WakePending(s'.threads, s'.threads[t].i, t)
        {
          if t == ev.t { WaitBegins(s, t, ev.cmd); } else { WaitGoesOn(s, ev.t, ev.cmd, t); }
        }
      } else {
        OtherSteps(s, ev);
        hide Step; hide Inv;
        forall t | 0 <= t < |s'.threads| && AsleepWithValue(s', t)
          ensures WakePending(s'.threads, s'.threads[t].i, t)
        {
          assert AsleepWithValue(s, t);
          var u :| 0 <= u < |s.threads| && s.threads[u] == PutWake(s.threads[t].i, t);
          assert s'.threads[u] == s.threads[u] || u == ev.t;
        }
      }
    }
  }

  /** A dequeuer only goes to sleep on a cell whose value is not there. */
  lemma WaitBegins(s: State, t: nat, cmd: Cmd)
    requires Inv(s) && t < |s.threads| && TicketPc(s.threads[t])
    ensures var s' := TicketStep(s, t, cmd);
      AsleepWithValue(s', t) ==> AsleepWithValue(s, t) && s'.threads == s.threads
  {
    var pc := s.threads[t];
    assert ThreadInv(s, t);
    if pc.GetXchg? {
      assert CellInv(s.x, s.g.chain, s.threads, pc.i);
      assert CellOf(s.g.chain, s.x.cells, pc.i) == CellAt(s.x.cells, pc.c, pc.i);
    }
    hide Inv; hide ThreadInv;
  }

  /** Values are stored by exchanges, and a sleeper's futex is only ever cleared by others. */
  lemma TicketStepOnSleepers(s: State, v: nat, cmd: Cmd, t: nat, i: nat)
    requires Sized(s) && v < |s.threads| && TicketPc(s.threads[v]) && t < |s.threads| && t != v
    ensures var s', pc := TicketStep(s, v, cmd), s.threads[v];
      && (i in s'.x.stored && i !in s.x.stored ==> pc.PutXchg? && pc.i == i)
      && t < |s'.x.futex| && (s'.x.futex[t] == 1 ==> s.x.futex[t] == 1 && pc != PutWake(i, t))
      && (pc.PutXchg? && CellAt(s.x.cells, pc.c, pc.i) == Waiter(t) ==> s'.threads[v] == PutWake(pc.i, t))
  {
  }

  /** The enqueuer that stores the value found the sleeper's address, and wakes it once. */
  lemma WaitGoesOn(s: State, v: nat, cmd: Cmd, t: nat)
    requires Inv(s) && v < |s.threads| && TicketPc(s.threads[v]) && Woken(s) && t != v
    requires AsleepWithValue(TicketStep(s, v, cmd), t)
    ensures WakePending(TicketStep(s, v, cmd).threads, TicketStep(s, v, cmd).threads[t].i, t)
  {
    hide TicketStep;
    var s', pc := TicketStep(s, v, cmd), s.threads[v];
    TicketStepFrame(s, v, cmd);
    var i := s.threads[t].i;
    TicketStepOnSleepers(s, v, cmd, t, i);
    assert ThreadInv(s, v) && ThreadInv(s, t) && CellInv(s.x, s.g.chain, s.threads, i);
    hide ThreadInv; hide ListInv; hide HandleInv; hide ReclaimInv; hide OwnTickets; hide TicketInv; hide ReclaimPcInv;
    if i in s.x.stored {
      assert AsleepWithValue(s, t);
      var u :| 0 <= u < |s.threads| && s.threads[u] == PutWake(i, t);
      assert s'.threads[u] == PutWake(i, t);
    } else {
      assert CellAt(s.x.cells, pc.c, pc.i) == Waiter(t);
    }
  }

  /** A thread the kernel has put to sleep is waiting at its cell, and once its futex is no
      longer 1 some enqueuer is about to call futex_wake for it. */
  ghost predicate Sleeping(s: State) {
    forall t :: t in s.x.asleep ==>
      && t < |s.threads| && s.threads[t].GetWait? && t < |s.x.futex|
      && (s.x.futex[t] != 1 ==> NotifyPending(s.threads, t))
  }

  ghost predicate NotifyPending(threads: seq<Pc>, t: nat) {
    exists u :: 0 <= u < |threads| && threads[u] == PutNotify(t)
  }

  /** What a step does to a thread t that is asleep after it. */
  ghost predicate SleepKept(s: State, s': State, v: nat, t: nat)
    requires v < |s.threads|
  {
    && |s'.threads| == |s.threads| && s'.threads == s.threads[v := s'.threads[v]] && |s'.x.futex| == |s.x.futex|
    && (t in s'.x.asleep ==>
          if t in s.x.asleep then s.threads[v] != PutNotify(t) && (v == t ==> s'.threads[v] == s.threads[v])
          else
            && t == v && s.threads[t].GetWait? && s'.threads[t] == s.threads[t]
            && t < |s.x.futex| && s'.x.futex[t] == 1)
    && (t in s'.x.asleep && t < |s.x.futex| && s'.x.futex[t] != 1 ==>
          s.x.futex[t] != 1 || s'.threads[v] == PutNotify(t))
  }

  /** The steps that do not concern sleepers: a fresh futex, an exchange, a load. */
  lemma NoSleepStep(s: State, v: nat, cmd: Cmd, t: nat)
    requires Sized(s) && v < |s.threads| && TicketPc(s.threads[v])
    requires (t in s.x.asleep ==> t < |s.threads| && s.threads[t].GetWait?)
    requires var pc := s.threads[v]; !pc.PutWake? && !pc.PutNotify? && !pc.GetWait?
    ensures SleepKept(s, TicketStep(s, v, cmd), v, t)
  {
    hide CellAt; hide Sized;
    SizedFutex(s);
  }

  lemma TicketStepSleeps(s: State, v: nat, cmd: Cmd, t: nat)
    requires Sized(s) && v < |s.threads| && TicketPc(s.threads[v])
    requires (t in s.x.asleep ==> t < |s.threads| && s.threads[t].GetWait?)
    ensures SleepKept(s, TicketStep(s, v, cmd), v, t)
  {
    hide TicketStep; hide SleepKept; hide Sized;
    var pc := s.threads[v];
    if pc.PutWake? || pc.PutNotify? || pc.GetWait? { SleepStep(s, v, cmd, t); } else { NoSleepStep(s, v, cmd, t); }
  }

  lemma SleepStep(s: State, v: nat, cmd: Cmd, t: nat)
    requires Sized(s) && v < |s.threads| && (t in s.x.asleep ==> t < |s.threads| && s.threads[t].GetWait?)
    requires var pc := s.threads[v]; pc.PutWake? || pc.PutNotify? || pc.GetWait?
    ensures SleepKept(s, TicketStep(s, v, cmd), v, t)
  {
    hide CellAt; hide Sized;
    SizedFutex(s);
    assert s.threads[v := s.threads[v]] == s.threads;
  }

  lemma OtherStepSleeps(s: State, ev: Event, t: nat)
    requires Inv(s) && ev.t < |s.threads| && !TicketPc(s.threads[ev.t])
    ensures SleepKept(s, Step(s, ev), ev.t, t) || t == ev.t
  {
    hide Inv; hide Step;
    OtherSteps(s, ev);
  }

  lemma SleepGoesOn(s: State, s': State, v: nat, t: nat)
    requires Sleeping(s) && v < |s.threads| && SleepKept(s, s', v, t) && t in s'.x.asleep
    ensures t < |s'.threads| && s'.threads[t].GetWait? && t < |s'.x.futex|
    ensures s'.x.futex[t] != 1 ==> NotifyPending(s'.threads, t)
  {
    if s'.x.futex[t] != 1 {
      if s'.threads[v] != PutNotify(t) {
        var u :| 0 <= u < |s.threads| && s.threads[u] == PutNotify(t);
        assert s'.threads[u] == PutNotify(t);
      }
    }
  }

  lemma SleepingStep(s: State, ev: Event)
    requires Inv(s) && Sleeping(s)
    ensures Sleeping(Step(s, ev))
  {
    hide Inv; hide SleepKept; hide TicketStep; hide FindStep; hide ReclaimStep; hide NotifyPending;
    IsSized(s);
    if ev.t < |s.threads| {
      var s' := Step(s, ev);
      forall t | t in s'.x.asleep
        ensures t < |s'.threads| && s'.threads[t].GetWait? && t < |s'.x.futex|
        ensures (s'.x.futex[t] != 1 ==> NotifyPending(s'.threads, t))
      {
        if TicketPc(s.threads[ev.t]) { TicketStepSleeps(s, ev.t, ev.cmd, t); }
        else { OtherSteps(s, ev); OtherStepSleeps(s, ev, t); }
        SleepGoesOn(s, s', ev.t, t);
      }
    }
  }

  /** No wake-up is lost: in every run a thread that is asleep either waits for a value nobody
      has stored yet, or somebody is about to clear its futex, or about to call futex_wake. */
  lemma NoLostWakeUp(cfg: Config, n: nat, s: State, t: nat)
    requires Reachable(cfg, n, s) && t in s.x.asleep
    ensures t < |s.threads| == n && s.threads[t].GetWait?
    ensures s.threads[t].i !in s.x.stored || WakePending(s.threads, s.threads[t].i, t) || NotifyPending(s.threads, t)
  {
    hide Inv; hide Reachable; hide WakePending; hide NotifyPending;
    ReachableInv(cfg, n, s);
    if s.x.futex[t] == 1 && s.threads[t].i in s.x.stored { assert AsleepWithValue(s, t); }
  }

  // ---- what a call was asked for

  /** A call as its caller sees it: the command, the ticket drawn for it, -1 before that, and the
      segment lists from its start to now. */
  datatype Call = NoCall | Call(cmd: Cmd, ticket: int, since: set<Segments>)

  /** The event makes an idle thread begin a call. */
  predicate Begins(s: State, ev: Event) {
    && ev.t < |s.threads| && s.threads[ev.t].Idle?
    && ((ev.cmd.Enqueue? && ev.t in s.cfg.enqs) || (ev.cmd.Dequeue? && ev.t in s.cfg.deqs))
  }

  /** The ticket that a step which takes the counters from x to x' has drawn. */
  function Drew(x: Tickets, x': Tickets, ticket: int): int {
    if x'.put > x.put then x.put else if x'.get > x.get then x.get else ticket
  }

  /** The call goes on with a step from s to s' by thread v. */
  ghost function Later(call: Call, s: State, s': State, v: nat, t: nat): Call {
    if call.NoCall? then NoCall
    else call.(ticket := if v == t then Drew(s.x, s'.x, call.ticket) else call.ticket, since := call.since + {s'.g})
  }

  /** The last call that thread t has begun in a run, told from the schedule. */
  ghost function LastCall(o: State, evs: seq<Event>, t: nat): Call
    decreases |evs|
  {
    if evs == [] then NoCall
    else
      var s, ev := Run(o, evs[..|evs| - 1]), evs[|evs| - 1];
      if ev.t == t && Begins(s, ev) then Call(ev.cmd, -1, {Step(s, ev).g})
      else Later(LastCall(o, evs[..|evs| - 1], t), s, Step(s, ev), ev.t, t)
  }

  /** The values given to the enqueue calls of a run, in the order in which these drew tickets. */
  ghost function Given(o: State, evs: seq<Event>): seq<Val>
    decreases |evs|
  {
    if evs == [] then []
    else
      var prev, ev := evs[..|evs| - 1], evs[|evs| - 1];
      var call := LastCall(o, prev, ev.t);
      if Run(o, evs).x.put == Run(o, prev).x.put then Given(o, prev)
      else Given(o, prev) + [if call.Call? && call.cmd.Enqueue? then call.cmd.v else 0]
  }

  predicate KindIs(k: Kind, cmd: Cmd) {
    if k.Put? then cmd == Enqueue(k.v) else cmd == Dequeue
  }

  /** The call that pc works for, and how far it has come. */
  predicate Serves(call: Call, x: Tickets, pc: Pc) {
    if pc.Idle? then call.Call? ==> Done(call, x)
    else
      && call.Call?
      && (if pc.Ticket? then KindIs(pc.k, call.cmd)
          else if FindPc(pc) then KindIs(pc.k, call.cmd) && call.ticket == pc.i
          else if pc.PutXchg? then call.cmd == Enqueue(pc.v) && call.ticket == pc.i
          else if pc.PutWake? || pc.PutNotify? then call.cmd.Enqueue? && Done(call, x)
          else if IsGet(pc) then call.cmd.Dequeue? && call.ticket == pc.i
          else call.cmd.Dequeue? && Done(call, x))
  }

  /** The call's value is in its cell, or taken from it. */
  predicate Done(call: Call, x: Tickets)
    requires call.Call?
  {
    && call.ticket >= 0
    && (call.cmd.Enqueue? ==> call.ticket in x.stored)
    && (call.cmd.Dequeue? ==> call.ticket in x.got)
  }

  /** How a step takes its own thread on. */
  ghost predicate Advances(x: Tickets, pc: Pc, x': Tickets, pc': Pc) {
    && x.stored <= x'.stored && x.got.Keys <= x'.got.Keys
    && (if pc.Ticket? then
          && pc' == FindStart(pc.k, if pc.k.Put? then x.put else x.get)
          && x'.put == x.put + (if pc.k.Put? then 1 else 0) && x'.get == x.get + (if pc.k.Put? then 0 else 1)
        else
          && x'.put == x.put && x'.get == x.get
          && (FindPc(pc) ==> if FindPc(pc') then pc'.k == pc.k && pc'.i == pc.i
                else if pc.k.Put? then pc'.PutXchg? && pc'.v == pc.k.v && pc'.i == pc.i
                else pc'.GetSpin? && pc'.i == pc.i)
          && (pc.PutXchg? ==> pc.i in x'.stored && (pc'.Idle? || (pc'.PutWake? && pc'.i == pc.i)))
          && (pc.PutWake? || pc.PutNotify? ==> pc'.PutNotify? || pc'.Idle?)
          && (IsGet(pc) ==> (IsGet(pc') && pc'.i == pc.i) || (pc' == GetOver(pc.i) && pc.i in x'.got))
          && (ReclaimPc(pc) ==> ReclaimPc(pc') || pc'.Idle?))
  }

  lemma FindAdvances(s: State, t: nat)
    requires Sized(s) && t < |s.threads| && FindPc(s.threads[t])
    ensures var s' := FindStep(s, t);
      && s'.x == s.x && |s'.threads| == |s.threads| && Advances(s.x, s.threads[t], s'.x, s'.threads[t])
  {
    hide Sized; hide Standby; hide Link; hide SetHandle; hide HandleOf;
    SizedHandles(s);
  }

  lemma SizedHandles(s: State)
    requires Sized(s)
    ensures |s.g.push| == |s.g.pop| == |s.g.spare| == |s.threads|
  {
  }

  lemma TicketAdvances(s: State, t: nat, cmd: Cmd)
    requires Sized(s) && t < |s.threads| && TicketPc(s.threads[t]) && !TicketStep(s, t, cmd).bad
    ensures var s' := TicketStep(s, t, cmd);
      |s'.threads| == |s.threads| && Advances(s.x, s.threads[t], s'.x, s'.threads[t])
  {
    hide TicketStep; hide Advances; hide Sized;
    if IsGet(s.threads[t]) { GetAdvances(s, t, cmd); } else { PutAdvances(s, t, cmd); }
  }

  lemma PutAdvances(s: State, t: nat, cmd: Cmd)
    requires Sized(s) && t < |s.threads| && TicketPc(s.threads[t]) && !IsGet(s.threads[t])
    ensures var s' := TicketStep(s, t, cmd);
      |s'.threads| == |s.threads| && Advances(s.x, s.threads[t], s'.x, s'.threads[t])
  {
    hide Sized; hide CellAt;
    SizedFutex(s);
  }

  lemma GetAdvances(s: State, t: nat, cmd: Cmd)
    requires Sized(s) && t < |s.threads| && IsGet(s.threads[t]) && !TicketStep(s, t, cmd).bad
    ensures var s' := TicketStep(s, t, cmd);
      |s'.threads| == |s.threads| && Advances(s.x, s.threads[t], s'.x, s'.threads[t])
  {
    hide Sized; hide CellAt;
    SizedFutex(s);
  }

  lemma StepAdvances(s: State, ev: Event)
    requires Inv(s) && ev.t < |s.threads| && !s.threads[ev.t].Idle?
    ensures var s' := Step(s, ev);
      && |s'.threads| == |s.threads| && s'.threads == s.threads[ev.t := s'.threads[ev.t]]
      && Advances(s.x, s.threads[ev.t], s'.x, s'.threads[ev.t])
  {
    hide Inv; hide FindStep; hide TicketStep; hide ReclaimStep; hide Advances;
    IsSized(s);
    var t, pc := ev.t, s.threads[ev.t];
    if FindPc(pc) {
      FindAdvances(s, t);
      OtherSteps(s, ev);
    } else if TicketPc(pc) {
      StepInv(s, ev);
      NotBad(Step(s, ev));
      TicketAdvances(s, t, ev.cmd);
      TicketStepFrame(s, t, ev.cmd);
    } else {
      ReclaimStepFrame(s, t);
      ReclaimAdvances(s.x, pc, ReclaimStep(s, t).threads[t]);
    }
  }

  lemma NotBad(s: State)
    requires Inv(s)
    ensures !s.bad
  {
  }

  lemma ReclaimAdvances(x: Tickets, pc: Pc, pc': Pc)
    requires ReclaimPc(pc) && (ReclaimPc(pc') || pc'.Idle?)
    ensures Advances(x, pc, x, pc')
  {
  }

  /** What a thread serves after its own step. */
  lemma ServesOn(call: Call, s: State, s': State, t: nat)
    requires t < |s.threads| == |s'.threads| && !s.threads[t].Idle?
    requires Serves(call, s.x, s.threads[t]) && Advances(s.x, s.threads[t], s'.x, s'.threads[t])
    ensures Serves(Later(call, s, s', t, t), s'.x, s'.threads[t])
  {
  }

  /** Another thread's step takes nothing back. */
  lemma ServesStill(call: Call, s: State, s': State, v: nat, t: nat, pc: Pc)
    requires v != t && Serves(call, s.x, pc) && s.x.stored <= s'.x.stored && s.x.got.Keys <= s'.x.got.Keys
    ensures Serves(Later(call, s, s', v, t), s'.x, pc)
  {
  }

  lemma ServesStep(s: State, ev: Event, call: Call, t: nat)
    requires Inv(s) && t < |s.threads| && Serves(call, s.x, s.threads[t])
    ensures var s' := Step(s, ev);
      && |s'.threads| == |s.threads|
      && Serves(if ev.t == t && Begins(s, ev) then Call(ev.cmd, -1, {s'.g}) else Later(call, s, s', ev.t, t),
                s'.x, s'.threads[t])
  {
    hide Inv; hide FindStep; hide TicketStep; hide ReclaimStep; hide Serves; hide Later; hide Advances;
    IsSized(s);
    var s' := Step(s, ev);
    if ev.t < |s.threads| && !s.threads[ev.t].Idle? {
      StepAdvances(s, ev);
      if ev.t == t { ServesOn(call, s, s', t); } else {
        OnlyGrows(s.x, s.threads[ev.t], s'.x, s'.threads[ev.t]);
        ServesStill(call, s, s', ev.t, t, s.threads[t]);
      }
    } else if ev.t != t {
      ServesStill(call, s, s', ev.t, t, s.threads[t]);
    } else if Begins(s, ev) {
      ServesFirst(ev.cmd, s'.x, s'.threads[t], {s'.g});
    } else {
      ServesIdle(call, s, t);
    }
  }

  lemma OnlyGrows(x: Tickets, pc: Pc, x': Tickets, pc': Pc)
    requires Advances(x, pc, x', pc')
    ensures x.stored <= x'.stored && x.got.Keys <= x'.got.Keys
  {
  }

  lemma ServesFirst(cmd: Cmd, x: Tickets, pc: Pc, since: set<Segments>)
    requires pc.Ticket? && KindIs(pc.k, cmd)
    ensures Serves(Call(cmd, -1, since), x, pc)
  {
  }

  lemma ServesIdle(call: Call, s: State, t: nat)
    requires t < |s.threads| && s.threads[t].Idle? && Serves(call, s.x, s.threads[t])
    ensures Serves(Later(call, s, s, t, t), s.x, s.threads[t])
  {
  }

  /** In every run, every thread does what its caller has asked for; a call that has returned has
      stored its value, or delivered that of its ticket. */
  lemma {:induction false} CallsServed(cfg: Config, n: nat, evs: seq<Event>, t: nat)
    requires Registered(cfg, n) && t < n
    ensures var s := Run(Init(cfg, n), evs);
      |s.threads| == n && Serves(LastCall(Init(cfg, n), evs, t), s.x, s.threads[t])
    decreases |evs|
  {
    hide Inv; hide Step; hide Serves; hide Registered;
    RunInv(cfg, n, evs);
    if evs == [] {
      assert Serves(NoCall, Init(cfg, n).x, Idle) by { NothingServed(Init(cfg, n).x); }
    } else {
      var prev := evs[..|evs| - 1];
      RunInv(cfg, n, prev);
      CallsServed(cfg, n, prev, t);
      ServesStep(Run(Init(cfg, n), prev), evs[|evs| - 1], LastCall(Init(cfg, n), prev, t), t);
    }
  }

  lemma NothingServed(x: Tickets)
    ensures Serves(NoCall, x, Idle)
  {
  }

  /** The values that go with the tickets are those the callers gave, in the order in which their
      calls drew tickets. */
  lemma {:induction false} ValuesAreGiven(cfg: Config, n: nat, evs: seq<Event>)
    requires Registered(cfg, n)
    ensures var s, given := Run(Init(cfg, n), evs), Given(Init(cfg, n), evs);
      |given| == s.x.put && forall i :: 0 <= i < |given| ==> i in s.x.vals && s.x.vals[i] == given[i]
    decreases |evs|
  {
    hide Inv; hide Step; hide Registered; hide LastCall; hide Serves;
    if evs != [] {
      var prev, ev := evs[..|evs| - 1], evs[|evs| - 1];
      ValuesAreGiven(cfg, n, prev);
      RunInv(cfg, n, prev);
      var s := Run(Init(cfg, n), prev);
      if ev.t < n { CallsServed(cfg, n, prev, ev.t); }
      TicketGiven(s, ev, LastCall(Init(cfg, n), prev, ev.t));
      forall i: nat | i in s.x.vals ensures i in Step(s, ev).x.vals && Step(s, ev).x.vals[i] == s.x.vals[i] {
        TicketsAreFinal(s, ev, i);
      }
    }
  }

  /** A step that draws an enqueue ticket notes the value that its caller gave. */
  lemma TicketGiven(s: State, ev: Event, call: Call)
    requires Inv(s) && (ev.t < |s.threads| ==> Serves(call, s.x, s.threads[ev.t]))
    ensures var x' := Step(s, ev).x;
      x'.put == s.x.put || (x'.put == s.x.put + 1 && call.Call? && call.cmd.Enqueue?
                            && s.x.put in x'.vals && x'.vals[s.x.put] == call.cmd.v)
  {
    hide Inv; hide FindStep; hide ReclaimStep; hide Advances; hide TicketStep;
    IsSized(s);
    if ev.t < |s.threads| && !s.threads[ev.t].Idle? {
      if s.threads[ev.t].Ticket? { TicketNoted(s, ev.t, ev.cmd); }
      else {
        StepAdvances(s, ev);
        SamePut(s.x, s.threads[ev.t], Step(s, ev).x, Step(s, ev).threads[ev.t]);
      }
    }
  }

  lemma TicketNoted(s: State, t: nat, cmd: Cmd)
    requires Sized(s) && t < |s.threads| && s.threads[t].Ticket?
    ensures var x', k := TicketStep(s, t, cmd).x, s.threads[t].k;
      if k.Put? then x'.put == s.x.put + 1 && x'.vals == s.x.vals[s.x.put := k.v] else x'.put == s.x.put
  {
  }

  lemma SamePut(x: Tickets, pc: Pc, x': Tickets, pc': Pc)
    requires Advances(x, pc, x', pc') && !pc.Ticket?
    ensures x'.put == x.put
  {
  }

  /** The queue as its callers see it: dequeue ticket i delivers the value that was given to the
      i-th enqueue call to draw a ticket. */
  lemma DeliversInOrder(cfg: Config, n: nat, evs: seq<Event>, i: nat)
    requires Registered(cfg, n) && i in Run(Init(cfg, n), evs).x.got
    ensures i < |Given(Init(cfg, n), evs)| && Run(Init(cfg, n), evs).x.got[i] == Given(Init(cfg, n), evs)[i]
  {
    hide Run; hide Given; hide Init;
    ValuesAreGiven(cfg, n, evs);
    var s := Run(Init(cfg, n), evs);
    assert Reachable(cfg, n, s);
    TicketsPairUp(cfg, n, s);
  }

  /** A call that has returned has done what it was for: an enqueue's value is in the cell of its
      ticket, a dequeue has delivered what goes with its ticket. */
  lemma ReturnedCalls(cfg: Config, n: nat, evs: seq<Event>, t: nat)
    requires Registered(cfg, n) && t < n
    ensures var s, call := Run(Init(cfg, n), evs), LastCall(Init(cfg, n), evs, t);
      && |s.threads| == n
      && (s.threads[t].Idle? && call.Call? ==>
            && call.ticket >= 0
            && (call.cmd.Enqueue? ==> call.ticket in s.x.stored)
            && (call.cmd.Dequeue? ==> call.ticket in s.x.got))
  {
    hide Run; hide LastCall; hide Init;
    CallsServed(cfg, n, evs, t);
  }

  // ---- no ticket is lost

  /** The ticket with which an enqueuer is on its way to its cell, -1 for none. */
  function ToPut(pc: Pc): int { if pc.PutWake? then -1 else PutOf(pc) }

  ghost predicate PutHeld(threads: seq<Pc>, i: nat) { exists t :: 0 <= t < |threads| && ToPut(threads[t]) == i }

  ghost predicate GetHeld(threads: seq<Pc>, i: nat) { exists t :: 0 <= t < |threads| && GetOf(threads[t]) == i }

  /** Every ticket drawn has been used, or a thread is on its way with it. */
  ghost predicate Covered(x: Tickets, threads: seq<Pc>) {
    && (forall i: nat :: i < x.put ==> i in x.stored || PutHeld(threads, i))
    && (forall i: nat :: i < x.get ==> i in x.got || GetHeld(threads, i))
  }

  lemma CoveredStep(x: Tickets, threads: seq<Pc>, t: nat, x': Tickets, threads': seq<Pc>)
    requires Covered(x, threads) && t < |threads| == |threads'| && threads' == threads[t := threads'[t]]
    requires Advances(x, threads[t], x', threads'[t])
    ensures Covered(x', threads')
  {
    hide Advances;
    var pc, pc' := threads[t], threads'[t];
    HoldsOn(x, pc, x', pc');
    forall i: nat | i < x'.put ensures i in x'.stored || PutHeld(threads', i) {
      if i == x.put {
        assert ToPut(threads'[t]) == i;
      } else if i !in x'.stored {
        var u :| 0 <= u < |threads| && ToPut(threads[u]) == i;
        assert ToPut(threads'[u]) == i;
      }
    }
    forall i: nat | i < x'.get ensures i in x'.got || GetHeld(threads', i) {
      if i == x.get {
        assert GetOf(threads'[t]) == i;
      } else if i !in x'.got {
        var u :| 0 <= u < |threads| && GetOf(threads[u]) == i;
        assert GetOf(threads'[u]) == i;
      }
    }
  }

  /** A ticket stays with its thread until it is used. */
  lemma HoldsOn(x: Tickets, pc: Pc, x': Tickets, pc': Pc)
    requires Advances(x, pc, x', pc')
    ensures x.stored <= x'.stored && x.got.Keys <= x'.got.Keys
    ensures x'.put == x.put || (x'.put == x.put + 1 && ToPut(pc') == x.put)
    ensures x'.get == x.get || (x'.get == x.get + 1 && GetOf(pc') == x.get)
    ensures ToPut(pc) == -1 || ToPut(pc') == ToPut(pc) || ToPut(pc) in x'.stored
    ensures GetOf(pc) == -1 || GetOf(pc') == GetOf(pc) || GetOf(pc) in x'.got
  {
  }

  lemma {:induction false} CoveredRun(cfg: Config, n: nat, evs: seq<Event>)
    requires Registered(cfg, n)
    ensures var s := Run(Init(cfg, n), evs); Covered(s.x, s.threads)
    decreases |evs|
  {
    hide Inv; hide Step; hide Covered; hide Advances;
    if evs == [] {
      NoneDrawn(Init(cfg, n));
    } else {
      var prev, ev := evs[..|evs| - 1], evs[|evs| - 1];
      CoveredRun(cfg, n, prev);
      RunInv(cfg, n, prev);
      var s := Run(Init(cfg, n), prev);
      if ev.t < n && !s.threads[ev.t].Idle? {
        StepAdvances(s, ev);
        CoveredStep(s.x, s.threads, ev.t, Step(s, ev).x, Step(s, ev).threads);
      } else {
        CoveredIdle(s, ev);
      }
    }
  }

  lemma NoneDrawn(s: State)
    requires s.x.put == s.x.get == 0
    ensures Covered(s.x, s.threads)
  {
  }

  lemma CoveredIdle(s: State, ev: Event)
    requires Inv(s) && Covered(s.x, s.threads) && (ev.t < |s.threads| ==> s.threads[ev.t].Idle?)
    ensures Covered(Step(s, ev).x, Step(s, ev).threads)
  {
    hide Inv;
    IsSized(s);
    var s' := Step(s, ev);
    forall i: nat | PutHeld(s.threads, i) ensures PutHeld(s'.threads, i) {
      var t :| 0 <= t < |s.threads| && ToPut(s.threads[t]) == i;
      assert ToPut(s'.threads[t]) == i;
    }
    forall i: nat | GetHeld(s.threads, i) ensures GetHeld(s'.threads, i) {
      var t :| 0 <= t < |s.threads| && GetOf(s.threads[t]) == i;
      assert GetOf(s'.threads[t]) == i;
    }
  }

  /** No ticket is lost or skipped: in every run each enqueue ticket drawn has had its value stored
      or is with an enqueuer on its way to the cell, and each dequeue ticket drawn has delivered or
      is with a dequeuer at or on its way to the cell. */
  lemma NoTicketLost(cfg: Config, n: nat, s: State)
    requires Reachable(cfg, n, s)
    ensures forall i: nat :: i < s.x.put ==>
      i in s.x.stored || exists t :: 0 <= t < n == |s.threads| && ToPut(s.threads[t]) == i
    ensures forall i: nat :: i < s.x.get ==>
      i in s.x.got || exists t :: 0 <= t < n == |s.threads| && GetOf(s.threads[t]) == i
  {
    hide Inv; hide Run; hide Init;
    ReachableInv(cfg, n, s);
    var evs :| s == Run(Init(cfg, n), evs);
    CoveredRun(cfg, n, evs);
    forall i: nat | i < s.x.put && i !in s.x.stored
      ensures exists t :: 0 <= t < n == |s.threads| && ToPut(s.threads[t]) == i
    {
      var t :| 0 <= t < |s.threads| && ToPut(s.threads[t]) == i;
    }
    forall i: nat | i < s.x.get && i !in s.x.got
      ensures exists t :: 0 <= t < n == |s.threads| && GetOf(s.threads[t]) == i
    {
      var t :| 0 <= t < |s.threads| && GetOf(s.threads[t]) == i;
    }
  }

  // ---- reclamation goes as far as the handles let it

  /** At some moment a registered handle was at segment p. */
  ghost predicate WasHandle(cfg: Config, since: set<Segments>, p: nat) {
    exists g, t :: g in since && HandleAt(cfg, g, t, p)
  }

  predicate HandleAt(cfg: Config, g: Segments, t: nat, p: nat) {
    || (t in cfg.deqs && t < |g.pop| && g.pop[t] == p)
    || (t in cfg.enqs && t < |g.push| && g.push[t] == p)
  }

  predicate Scanned(pc: Pc) { Locked(pc) && !pc.RecStart? }

  /** The segment found so far is one that some handle was at since the call began. */
  ghost predicate FoundHandle(cfg: Config, call: Call, pc: Pc) {
    Scanned(pc) ==> call.Call? && WasHandle(cfg, call.since, pc.min)
  }

  lemma WasHandleLater(cfg: Config, since: set<Segments>, g: Segments, p: nat)
    requires WasHandle(cfg, since, p)
    ensures WasHandle(cfg, since + {g}, p)
  {
    var g0, t :| g0 in since && HandleAt(cfg, g0, t, p);
    assert g0 in since + {g};
  }

  /** A scan's next candidate is the one it had or a handle's segment as it is now. */
  lemma ScanFinds(s: State, t: nat)
    requires Sized(s) && t < |s.threads| && ReclaimPc(s.threads[t])
    ensures var s' := ReclaimStep(s, t);
      && |s'.threads| == |s.threads| && s'.g == s.g
      && (Scanned(s'.threads[t]) ==>
            || (Scanned(s.threads[t]) && s'.threads[t].min == s.threads[t].min)
            || exists u :: HandleAt(s.cfg, s.g, u, s'.threads[t].min))
  {
    hide Sized; hide IdOf; hide Claimed;
    ScanSized(s);
    var pc := s.threads[t];
    if pc.RecStart? && s.cfg.deqs != [] {
      assert HandleAt(s.cfg, s.g, s.cfg.deqs[0], s.g.pop[s.cfg.deqs[0]]);
    } else if pc.ScanDeq? && pc.m < |s.cfg.deqs| {
      assert HandleAt(s.cfg, s.g, s.cfg.deqs[pc.m], s.g.pop[s.cfg.deqs[pc.m]]);
    } else if pc.ScanEnq? && pc.m < |s.cfg.enqs| {
      assert HandleAt(s.cfg, s.g, s.cfg.enqs[pc.m], s.g.push[s.cfg.enqs[pc.m]]);
    }
  }

  lemma ScanSized(s: State)
    requires Sized(s)
    ensures |s.g.push| == |s.g.pop| == |s.threads|
    ensures forall m :: 0 <= m < |s.cfg.enqs| ==> s.cfg.enqs[m] < |s.threads|
    ensures forall m :: 0 <= m < |s.cfg.deqs| ==> s.cfg.deqs[m] < |s.threads|
  {
  }

  lemma FoundStep(s: State, ev: Event, call: Call, t: nat)
    requires Inv(s) && t < |s.threads| && FoundHandle(s.cfg, call, s.threads[t])
    requires !s.threads[t].Idle? ==> call.Call?
    requires !Begins(s, ev) || ev.t != t
    ensures var s' := Step(s, ev);
      |s'.threads| == |s.threads| && FoundHandle(s.cfg, Later(call, s, s', ev.t, t), s'.threads[t])
  {
    hide Inv; hide FindStep; hide TicketStep; hide ReclaimStep; hide WasHandle; hide Advances;
    IsSized(s);
    StepShape(s, ev);
    var s' := Step(s, ev);
    if Scanned(s.threads[t]) { WasHandleLater(s.cfg, call.since, s'.g, s.threads[t].min); }
    if ev.t < |s.threads| && !s.threads[ev.t].Idle? {
      StepAdvances(s, ev);
      if ev.t == t {
        if ReclaimPc(s.threads[t]) {
          ScanFinds(s, t);
          if Scanned(s'.threads[t]) && exists u :: HandleAt(s.cfg, s.g, u, s'.threads[t].min) {
            NowHandle(s.cfg, call.since, s'.g, s'.threads[t].min);
          }
        } else {
          NotScanned(s.x, s.threads[t], s'.x, s'.threads[t]);
        }
      }
    }
  }

  lemma NowHandle(cfg: Config, since: set<Segments>, g: Segments, p: nat)
    requires exists u :: HandleAt(cfg, g, u, p)
    ensures WasHandle(cfg, since + {g}, p)
  {
    var u :| HandleAt(cfg, g, u, p);
    assert g in since + {g};
  }

  lemma NotScanned(x: Tickets, pc: Pc, x': Tickets, pc': Pc)
    requires Advances(x, pc, x', pc') && !ReclaimPc(pc) && !pc.Idle?
    ensures !Scanned(pc')
  {
  }

  lemma {:induction false} FoundRun(cfg: Config, n: nat, evs: seq<Event>, t: nat)
    requires Registered(cfg, n) && t < n
    ensures var s := Run(Init(cfg, n), evs);
      |s.threads| == n && FoundHandle(cfg, LastCall(Init(cfg, n), evs, t), s.threads[t])
    decreases |evs|
  {
    hide Inv; hide Step; hide FoundHandle; hide Registered; hide Serves;
    RunInv(cfg, n, evs);
    if evs == [] {
      NothingFound(cfg, NoCall, Idle);
    } else {
      var prev, ev := evs[..|evs| - 1], evs[|evs| - 1];
      var s, call := Run(Init(cfg, n), prev), LastCall(Init(cfg, n), prev, t);
      RunInv(cfg, n, prev);
      FoundRun(cfg, n, prev, t);
      CallsServed(cfg, n, prev, t);
      HasCall(call, s.x, s.threads[t]);
      if ev.t == t && Begins(s, ev) {
        IsSized(s);
        FirstStep(s, ev);
        NothingFound(cfg, LastCall(Init(cfg, n), evs, t), Step(s, ev).threads[t]);
      } else {
        FoundStep(s, ev, call, t);
      }
    }
  }

  lemma FirstStep(s: State, ev: Event)
    requires Sized(s) && Begins(s, ev)
    ensures |Step(s, ev).threads| == |s.threads| && Step(s, ev).threads[ev.t].Ticket?
  {
  }

  lemma HasCall(call: Call, x: Tickets, pc: Pc)
    requires Serves(call, x, pc)
    ensures pc.Idle? || call.Call?
  {
  }

  lemma NothingFound(cfg: Config, call: Call, pc: Pc)
    requires !Scanned(pc)
    ensures FoundHandle(cfg, call, pc)
  {
  }

  /** Reclamation takes all it may: the segment a thread is about to make the first is one that no
      handle is behind, and one that some handle was at since the dequeue began; and a thread gives
      up only if some handle was since then in the first segment itself. */
  lemma ReclaimsUpToAHandle(cfg: Config, n: nat, evs: seq<Event>, t: nat)
    requires Registered(cfg, n) && t < n
    ensures var s, call := Run(Init(cfg, n), evs), LastCall(Init(cfg, n), evs, t);
      && |s.threads| == n
      && (s.threads[t].Unlock? ==>
            && HandleInv(s.g, cfg, IdOf(s.g.nodes, s.threads[t].min), s.x.put, s.x.get)
            && call.Call? && WasHandle(cfg, call.since, s.threads[t].min))
      && (s.threads[t].Decide? && IdOf(s.g.nodes, s.threads[t].min) <= s.threads[t].init ==>
            && s.threads[t].min < |s.g.nodes| && s.g.nodes[s.threads[t].min].id == s.r.floor
            && call.Call? && WasHandle(cfg, call.since, s.threads[t].min))
  {
    hide Run; hide LastCall; hide Init; hide WasHandle; hide Inv; hide HandleInv; hide Registered;
    FoundRun(cfg, n, evs, t);
    RunInv(cfg, n, evs);
    var s := Run(Init(cfg, n), evs);
    if s.threads[t].Unlock? { HandlesAboveNewFloor(s, t); }
    if s.threads[t].Decide? { DecideKnows(s, t); }
  }

  lemma DecideKnows(s: State, t: nat)
    requires Inv(s) && t < |s.threads| && s.threads[t].Decide?
    ensures s.threads[t].init == s.r.floor && s.threads[t].min < |s.g.nodes|
    ensures s.g.nodes[s.threads[t].min].id >= s.r.floor
  {
    hide ListInv; hide HandleInv; hide TicketInv; hide OwnTickets; hide ReclaimInv; hide WalkInv; hide TicketPcInv;
    assert ThreadInv(s, t);
  }

  /** A dequeuer that has its value is still in the segment of its ticket. */
  ghost predicate InSegment(g: Segments, t: nat, pc: Pc) {
    pc.GetOver? ==> t < |g.pop| && OnList(g, g.pop[t]) && g.nodes[g.pop[t]].id == pc.i / N
  }

  lemma InSegmentStep(s: State, ev: Event, t: nat)
    requires Inv(s) && t < |s.threads| && InSegment(s.g, t, s.threads[t])
    ensures |Step(s, ev).threads| == |s.threads| && InSegment(Step(s, ev).g, t, Step(s, ev).threads[t])
  {
    hide Inv; hide FindStep; hide TicketStep; hide ReclaimStep; hide Advances; hide ListInv; hide WalkInv;
    IsSized(s);
    if ev.t < |s.threads| && !s.threads[ev.t].Idle? {
      var pc := s.threads[ev.t];
      StepAdvances(s, ev);
      if FindPc(pc) {
        FindHasEffect(s, ev.t);
        if ev.t == t { FindNotOver(s.x, pc, Step(s, ev).x, Step(s, ev).threads[t]); }
      } else if TicketPc(pc) {
        TicketStepFrame(s, ev.t, ev.cmd);
        if ev.t == t { OverHere(s, t, Step(s, ev).x, Step(s, ev).threads[t]); }
      } else {
        ReclaimStepFrame(s, ev.t);
        if ev.t == t { NeverOverAgain(s, t); }
      }
    }
  }

  lemma FindNotOver(x: Tickets, pc: Pc, x': Tickets, pc': Pc)
    requires Advances(x, pc, x', pc') && FindPc(pc)
    ensures !pc'.GetOver?
  {
  }

  lemma OverHere(s: State, t: nat, x': Tickets, pc': Pc)
    requires Inv(s) && t < |s.threads| && TicketPc(s.threads[t]) && Advances(s.x, s.threads[t], x', pc')
    ensures InSegment(s.g, t, pc')
  {
    hide ListInv; hide HandleInv; hide TicketInv; hide OwnTickets; hide ReclaimInv; hide ReclaimPcInv; hide TicketPcInv;
    assert ThreadInv(s, t);
  }

  lemma NeverOverAgain(s: State, t: nat)
    requires Sized(s) && t < |s.threads| && ReclaimPc(s.threads[t])
    ensures |ReclaimStep(s, t).threads| == |s.threads| && !ReclaimStep(s, t).threads[t].GetOver?
  {
    hide Sized; hide Lower; hide IdOf; hide Claimed;
    ScanSized(s);
  }

  lemma {:induction false} InSegmentRun(cfg: Config, n: nat, evs: seq<Event>, t: nat)
    requires Registered(cfg, n) && t < n
    ensures var s := Run(Init(cfg, n), evs); |s.threads| == n && InSegment(s.g, t, s.threads[t])
    decreases |evs|
  {
    hide Inv; hide Step; hide Registered;
    if evs != [] {
      RunInv(cfg, n, evs[..|evs| - 1]);
      InSegmentRun(cfg, n, evs[..|evs| - 1], t);
      InSegmentStep(Run(Init(cfg, n), evs[..|evs| - 1]), evs[|evs| - 1], t);
    }
  }

  /** When reclamation is tried: by the dequeue of the last ticket of a segment, and exactly when
      nobody else is at it and the segment is at least `threshold` segments ahead of the first. */
  lemma ReclaimTriedExactly(cfg: Config, n: nat, s: State, ev: Event)
    requires Reachable(cfg, n, s) && ev.t < |s.threads| && s.threads[ev.t].GetOver?
    ensures var s', i := Step(s, ev), s.threads[ev.t].i;
      && |s'.threads| == |s.threads|
      && (s'.threads[ev.t] == RecLock(s.r.floor) <==>
            (i + 1) % N == 0 && s.r.initId != NULL && i / N >= s.r.floor + cfg.threshold)
      && (s'.threads[ev.t] == RecLock(s.r.floor) || s'.threads[ev.t].Idle?)
  {
    hide Inv; hide Run; hide Init;
    ReachableInv(cfg, n, s);
    var evs :| s == Run(Init(cfg, n), evs);
    InSegmentRun(cfg, n, evs, ev.t);
    IsSized(s);
    FirstId(s);
  }

  lemma FirstId(s: State)
    requires Inv(s)
    ensures s.r.initId >= 0 ==> s.r.initId == s.r.floor
    ensures s.r.initId < 0 ==> s.r.initId == NULL
  {
  }
}
