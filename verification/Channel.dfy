/** The buffered channel of channel/channel.c: a ring of `cap` items, each with a lap counter.
    A sender may use an item when its lap equals the lap in `tail`, a receiver when it equals the
    lap in `head`; whoever wins the compare-and-swap of `tail` or `head` owns the item until it
    increments the item's lap.

    Each atomic access is one step and a run is any schedule of any number of senders and
    receivers.  Laps are 32 bits wide in the program; `Step` keeps them apart for ever and
    `Narrow` compares what 32 bits hold.  How far behind a thread may fall before that matters
    is the subject of the last section. */
module Channel {

  type Val = int

  /** The two halves of `tail` and `head`. */
  datatype Ticket = Ticket(pos: nat, lap: nat)

  datatype Item = Item(lap: nat, data: Val)

  datatype Pc =
    | Idle
    // chan_trysend_buf
    | SLoad(d: Val)
    | SCheck(d: Val, at: Ticket)
    | SCas(d: Val, at: Ticket)
    | SWrite(d: Val, at: Ticket)
    | SRelease(d: Val, at: Ticket)
    // chan_tryrecv_buf
    | RLoad
    | RCheck(at: Ticket)
    | RCas(at: Ticket)
    | RRead(at: Ticket, k: nat)
    | RRelease(at: Ticket, k: nat)

  /** `sent` lists the values in the order in which sends won `tail`; `won` counts the receives
      that won `head`, and got[k] is what the k-th of them read. */
  datatype State = State(
    cap: nat, tail: Ticket, head: Ticket, ring: seq<Item>, threads: seq<Pc>,
    sent: seq<Val>, won: nat, got: map<nat, Val>)

  datatype Cmd = Send(d: Val) | Receive
  datatype Event = Event(t: nat, cmd: Cmd)

  function Goto(s: State, t: nat, pc: Pc): State
    requires t < |s.threads|
  {
    s.(threads := s.threads[t := pc])
  }

  function Next(cap: nat, at: Ticket): Ticket {
    if at.pos + 1 == cap then Ticket(0, at.lap + 2) else Ticket(at.pos + 1, at.lap)
  }

  function SendStep(s: State, t: nat): State
    requires t < |s.threads|
  {
    match s.threads[t]
    case SLoad(d) => Goto(s, t, SCheck(d, s.tail))
    case SCheck(d, at) =>
      if at.pos >= |s.ring| then s
      else if s.ring[at.pos].lap != at.lap then Goto(s, t, Idle)
      else Goto(s, t, SCas(d, at))
    case SCas(d, at) =>
      if s.tail == at then Goto(s.(tail := Next(s.cap, at), sent := s.sent + [d]), t, SWrite(d, at))
      else Goto(s, t, SLoad(d))
    case SWrite(d, at) =>
      if at.pos >= |s.ring| then s
      else Goto(s.(ring := s.ring[at.pos := s.ring[at.pos].(data := d)]), t, SRelease(d, at))
    case SRelease(d, at) =>
      if at.pos >= |s.ring| then s
      else Goto(s.(ring := s.ring[at.pos := s.ring[at.pos].(lap := s.ring[at.pos].lap + 1)]), t, Idle)
    case _ => s
  }

  function ReceiveStep(s: State, t: nat): State
    requires t < |s.threads|
  {
    match s.threads[t]
    case RLoad => Goto(s, t, RCheck(s.head))
    case RCheck(at) =>
      if at.pos >= |s.ring| then s
      else if s.ring[at.pos].lap != at.lap then Goto(s, t, Idle)
      else Goto(s, t, RCas(at))
    case RCas(at) =>
      if s.head == at then Goto(s.(head := Next(s.cap, at), won := s.won + 1), t, RRead(at, s.won))
      else Goto(s, t, RLoad)
    case RRead(at, k) =>
      if at.pos >= |s.ring| then s
      else Goto(s.(got := s.got[k := s.ring[at.pos].data]), t, RRelease(at, k))
    case RRelease(at, k) =>
      if at.pos >= |s.ring| then s
      else Goto(s.(ring := s.ring[at.pos := s.ring[at.pos].(lap := s.ring[at.pos].lap + 1)]), t, Idle)
    case _ => s
  }

  predicate SendPc(pc: Pc) { pc.SLoad? || pc.SCheck? || pc.SCas? || pc.SWrite? || pc.SRelease? }

  function Step(s: State, ev: Event): State {
    if ev.t >= |s.threads| then s
    else if s.threads[ev.t].Idle? then Goto(s, ev.t, if ev.cmd.Send? then SLoad(ev.cmd.d) else RLoad)
    else if SendPc(s.threads[ev.t]) then SendStep(s, ev.t)
    else ReceiveStep(s, ev.t)
  }

  function Init(cap: nat, n: nat, junk: Val): State {
    State(cap, Ticket(0, 0), Ticket(0, 1), seq(cap, _ => Item(0, junk)), seq(n, _ => Idle), [], 0, map[])
  }

  function Run(s: State, evs: seq<Event>): State
    decreases |evs|
  {
    if evs == [] then s else Step(Run(s, evs[..|evs| - 1]), evs[|evs| - 1])
  }

  // ------------------------------------------------------------------ tickets and numbers

  /** The number of the ticket for item p in round l. */
  ghost function Number(cap: nat, p: nat, l: nat): nat { if l == 0 then p else cap + Number(cap, p, l - 1) }

  lemma {:induction false} NextNumber(cap: nat, p: nat, l: nat)
    requires p < cap
    ensures p + 1 < cap ==> Number(cap, p + 1, l) == Number(cap, p, l) + 1
    ensures p + 1 == cap ==> Number(cap, 0, l + 1) == Number(cap, p, l) + 1
  {
    if l > 0 { NextNumber(cap, p, l - 1); }
  }

  /** Tickets are numbered in the order of rounds, then of items. */
  lemma {:induction false} NumberOrder(cap: nat, p: nat, l: nat, q: nat, m: nat)
    requires p < cap && q < cap && (l < m || (l == m && p < q))
    ensures Number(cap, p, l) < Number(cap, q, m)
    decreases l + m
  {
    if l > 0 { NumberOrder(cap, p, l - 1, q, m - 1); }
    else if m > 1 { NumberOrder(cap, p, 0, q, m - 1); }
  }

  // ------------------------------------------------------------------ invariant

  /** The rounds of item p that have been won, given the round and position of the next ticket. */
  ghost function Rounds(pos: nat, round: nat, p: nat): nat { if p < pos then round + 1 else round }

  ghost function SendsWon(s: State, p: nat): nat { Rounds(s.tail.pos, s.tail.lap / 2, p) }
  ghost function ReceivesWon(s: State, p: nat): nat { Rounds(s.head.pos, s.head.lap / 2, p) }

  /** The item a thread owns, -1 for none. */
  function OwnedBy(pc: Pc): int {
    if pc.SWrite? || pc.SRelease? || pc.RRead? || pc.RRelease? then pc.at.pos else -1
  }

  ghost predicate TicketsInv(s: State) {
    && s.cap > 0 && |s.ring| == s.cap
    && s.tail.pos < s.cap && s.head.pos < s.cap
    && s.tail.lap % 2 == 0 && s.head.lap % 2 == 1
    && |s.sent| == Number(s.cap, s.tail.pos, s.tail.lap / 2)
    && s.won == Number(s.cap, s.head.pos, s.head.lap / 2)
    && (forall k :: k in s.got ==> k < s.won && k < |s.sent| && s.got[k] == s.sent[k])
  }

  /** Lap 2l: the sends and receives of rounds below l are over; lap 2l + 1: so is the send of
      round l, and its value is there.  Each side is at most one win ahead of that. */
  ghost predicate ItemInv(s: State, p: nat)
    requires p < |s.ring|
  {
    var lap := s.ring[p].lap;
    var l := lap / 2;
    if lap % 2 == 0 then
      ReceivesWon(s, p) == l && l <= SendsWon(s, p) <= l + 1
    else
      && SendsWon(s, p) == l + 1 && l <= ReceivesWon(s, p) <= l + 1
      && Number(s.cap, p, l) < |s.sent| && s.ring[p].data == s.sent[Number(s.cap, p, l)]
  }

  ghost predicate OneOwner(threads: seq<Pc>) {
    forall t, u :: 0 <= t < u < |threads| && OwnedBy(threads[t]) == OwnedBy(threads[u]) ==> OwnedBy(threads[t]) == -1
  }

  ghost predicate TicketLess(a: Ticket, b: Ticket) { a.lap < b.lap || (a.lap == b.lap && a.pos < b.pos) }

  /** A send that has won its ticket and not given its item on. */
  ghost predicate SenderOwns(s: State, at: Ticket, d: Val) {
    && at.pos < s.cap == |s.ring| && s.ring[at.pos].lap == at.lap && at.lap % 2 == 0
         && SendsWon(s, at.pos) == at.lap / 2 + 1
    && Number(s.cap, at.pos, at.lap / 2) < |s.sent| && s.sent[Number(s.cap, at.pos, at.lap / 2)] == d
  }

  ghost predicate ReceiverOwns(s: State, at: Ticket) {
    && at.pos < s.cap == |s.ring| && s.ring[at.pos].lap == at.lap && at.lap % 2 == 1
    && ReceivesWon(s, at.pos) == at.lap / 2 + 1
  }

  /** A ticket read from `now`, and whether its item was found ready if it is still the next. */
  ghost predicate Read(s: State, at: Ticket, now: Ticket, ready: bool) {
    && at.pos < s.cap == |s.ring| && at.lap % 2 == now.lap % 2 && (at == now || TicketLess(at, now))
    && (ready && at == now ==> s.ring[at.pos].lap == at.lap)
  }

  ghost predicate PcInv(s: State, pc: Pc) {
    && (pc.SCheck? || pc.SCas? ==> Read(s, pc.at, s.tail, pc.SCas?))
    && (pc.RCheck? || pc.RCas? ==> Read(s, pc.at, s.head, pc.RCas?))
    && (pc.SWrite? || pc.SRelease? ==> SenderOwns(s, pc.at, pc.d))
    && (pc.SRelease? ==> s.ring[pc.at.pos].data == pc.d)
    && (pc.RRead? || pc.RRelease? ==> ReceiverOwns(s, pc.at))
    && (pc.RRead? ==> pc.k == Number(s.cap, pc.at.pos, pc.at.lap / 2) < s.won)
  }

  ghost predicate Inv(s: State) {
    && TicketsInv(s)
    && (forall p :: 0 <= p < |s.ring| ==> ItemInv(s, p))
    && OneOwner(s.threads)
    && (forall t :: 0 <= t < |s.threads| ==> PcInv(s, s.threads[t]))
  }

  lemma InitInv(cap: nat, n: nat, junk: Val)
    requires cap > 0
    ensures Inv(Init(cap, n, junk))
  {
  }

  // ------------------------------------------------------------------ steps

  lemma TicketsShape(s: State)
    requires Inv(s)
    ensures s.tail.pos < s.cap == |s.ring| && s.head.pos < s.cap && s.tail.lap % 2 == 0 && s.head.lap % 2 == 1
  {
  }

  /** Loads and checks, and compare-and-swaps that fail, change only the thread's own place. */
  lemma OnlyMoves(s: State, t: nat, pc: Pc)
    requires Inv(s) && t < |s.threads| && PcInv(s, pc) && OwnedBy(pc) in {-1, OwnedBy(s.threads[t])}
    ensures Inv(Goto(s, t, pc))
  {
    var s' := Goto(s, t, pc);
    hide TicketsInv; hide Number;
    forall p | 0 <= p < |s'.ring| ensures ItemInv(s', p) { assert ItemInv(s, p); }
    forall u | 0 <= u < |s'.threads| ensures PcInv(s', s'.threads[u]) {
      assert PcInv(s, if u == t then pc else s.threads[u]);
    }
  }

  lemma NewOwner(threads: seq<Pc>, t: nat, pc: Pc)
    requires OneOwner(threads) && t < |threads|
    requires forall u :: 0 <= u < |threads| && u != t ==> OwnedBy(threads[u]) != OwnedBy(pc)
    ensures OneOwner(threads[t := pc])
  {
  }

  /** Any item, and any other thread, when a send wins `tail`. */
  lemma SendWinsItem(s: State, s': State, p: nat)
    requires p < |s.ring| && s.tail.pos < |s.ring| && s.ring[s.tail.pos].lap == s.tail.lap && s'.ring == s.ring
    requires ItemInv(s, p)
    requires s'.cap == s.cap && s'.head == s.head && |s'.sent| == |s.sent| + 1 && s.sent <= s'.sent
    requires SendsWon(s', p) == SendsWon(s, p) + if p == s.tail.pos then 1 else 0
    ensures ItemInv(s', p)
  {
    hide Number;
  }

  lemma SendWinsOther(s: State, s': State, pc: Pc)
    requires s.tail.pos < s.cap == |s.ring| && s.ring[s.tail.pos].lap == s.tail.lap && s'.ring == s.ring && PcInv(s, pc)
    requires ItemInv(s, s.tail.pos) && s'.tail == Next(s.cap, s.tail)
    requires s'.cap == s.cap && s'.head == s.head && |s'.sent| == |s.sent| + 1 && s.sent <= s'.sent && s'.won == s.won
    requires forall p :: 0 <= p < s.cap ==> SendsWon(s', p) == SendsWon(s, p) + if p == s.tail.pos then 1 else 0
    ensures PcInv(s', pc) && OwnedBy(pc) != s.tail.pos
  {
    hide Number;
  }

  /** Any item, and any other thread, when a receive wins `head`. */
  lemma ReceiveWinsItem(s: State, s': State, p: nat)
    requires p < |s.ring| && s.head.pos < |s.ring| && s.ring[s.head.pos].lap == s.head.lap && s'.ring == s.ring
    requires ItemInv(s, p)
    requires s'.cap == s.cap && s'.tail == s.tail && s'.sent == s.sent && s.head.lap % 2 == 1
    requires ReceivesWon(s', p) == ReceivesWon(s, p) + if p == s.head.pos then 1 else 0
    ensures ItemInv(s', p)
  {
    hide Number;
  }

  lemma ReceiveWinsOther(s: State, s': State, pc: Pc)
    requires s.head.pos < s.cap == |s.ring| && s.ring[s.head.pos].lap == s.head.lap && s'.ring == s.ring && PcInv(s, pc)
    requires ItemInv(s, s.head.pos) && s'.head == Next(s.cap, s.head)
    requires s'.cap == s.cap && s'.tail == s.tail && s'.sent == s.sent && s'.won == s.won + 1 && s.head.lap % 2 == 1
    requires forall p :: 0 <= p < s.cap ==> ReceivesWon(s', p) == ReceivesWon(s, p) + if p == s.head.pos then 1 else 0
    ensures PcInv(s', pc) && OwnedBy(pc) != s.head.pos
  {
    hide Number;
  }

  /** Winning `tail`: the item was free for exactly this ticket. */
  lemma SendWinsTicket(s: State, t: nat)
    requires Inv(s) && t < |s.threads| && s.threads[t].SCas? && s.threads[t].at == s.tail
    ensures var s', at := SendStep(s, t), s.tail;
      && TicketsInv(s') && ItemInv(s, at.pos) && s.ring[at.pos].lap == at.lap && PcInv(s', s'.threads[t])
      && forall p :: 0 <= p < s.cap ==> SendsWon(s', p) == SendsWon(s, p) + if p == at.pos then 1 else 0
  {
    var pc := s.threads[t];
    assert PcInv(s, pc);
    assert ItemInv(s, pc.at.pos);
    NextNumber(s.cap, pc.at.pos, pc.at.lap / 2);
  }

  lemma SendWins(s: State, t: nat)
    requires Inv(s) && t < |s.threads| && s.threads[t].SCas? && s.threads[t].at == s.tail
    ensures Inv(SendStep(s, t))
  {
    hide Number; hide TicketsInv; hide OneOwner; hide PcInv; hide ItemInv;
    var s', at := SendStep(s, t), s.tail;
    SendWinsTicket(s, t);
    TicketsShape(s);
    forall p | 0 <= p < |s'.ring| ensures ItemInv(s', p) { assert ItemInv(s, p); SendWinsItem(s, s', p); }
    forall u | 0 <= u < |s'.threads| && u != t ensures PcInv(s', s'.threads[u]) && OwnedBy(s.threads[u]) != at.pos {
      assert PcInv(s, s.threads[u]);
      SendWinsOther(s, s', s.threads[u]);
    }
    NewOwner(s.threads, t, s'.threads[t]);
  }

  /** Winning `head`: the item held exactly this ticket's value. */
  lemma ReceiveWinsTicket(s: State, t: nat)
    requires Inv(s) && t < |s.threads| && s.threads[t].RCas? && s.threads[t].at == s.head
    ensures var s', at := ReceiveStep(s, t), s.head;
      && TicketsInv(s') && ItemInv(s, at.pos) && s.ring[at.pos].lap == at.lap && PcInv(s', s'.threads[t])
      && forall p :: 0 <= p < s.cap ==> ReceivesWon(s', p) == ReceivesWon(s, p) + if p == at.pos then 1 else 0
  {
    var pc := s.threads[t];
    assert PcInv(s, pc);
    assert ItemInv(s, pc.at.pos);
    NextNumber(s.cap, pc.at.pos, pc.at.lap / 2);
  }

  lemma ReceiveWins(s: State, t: nat)
    requires Inv(s) && t < |s.threads| && s.threads[t].RCas? && s.threads[t].at == s.head
    ensures Inv(ReceiveStep(s, t))
  {
    hide Number; hide TicketsInv; hide OneOwner; hide PcInv; hide ItemInv;
    var s', at := ReceiveStep(s, t), s.head;
    ReceiveWinsTicket(s, t);
    TicketsShape(s);
    forall p | 0 <= p < |s'.ring| ensures ItemInv(s', p) { assert ItemInv(s, p); ReceiveWinsItem(s, s', p); }
    forall u | 0 <= u < |s'.threads| && u != t ensures PcInv(s', s'.threads[u]) && OwnedBy(s.threads[u]) != at.pos {
      assert PcInv(s, s.threads[u]);
      ReceiveWinsOther(s, s', s.threads[u]);
    }
    NewOwner(s.threads, t, s'.threads[t]);
  }

  /** What other threads know does not depend on an item they do not own: a ticket they found
      ready is not the next one any more. */
  lemma OthersKeep(s: State, s': State, t: nat, u: nat)
    requires Inv(s) && t < |s.threads| && u < |s.threads| && u != t && OwnedBy(s.threads[t]) >= 0
    requires OwnedBy(s.threads[t]) < |s.ring| == |s'.ring|
    requires s'.ring == s.ring[OwnedBy(s.threads[t]) := s'.ring[OwnedBy(s.threads[t])]]
    requires s'.cap == s.cap && s'.tail == s.tail && s'.head == s.head && s'.sent == s.sent && s'.won == s.won
    ensures PcInv(s', s.threads[u])
  {
    hide Number; hide TicketsInv; hide ItemInv; hide OneOwner;
    assert PcInv(s, s.threads[u]) && PcInv(s, s.threads[t]);
    NotTwice(s.threads, t, u);
    TicketsShape(s);
  }

  lemma NotTwice(threads: seq<Pc>, t: nat, u: nat)
    requires OneOwner(threads) && t < |threads| && u < |threads| && u != t && OwnedBy(threads[t]) >= 0
    ensures OwnedBy(threads[u]) != OwnedBy(threads[t])
  {
    if t < u {
      assert !(OwnedBy(threads[t]) == OwnedBy(threads[u]));
    } else {
      assert !(OwnedBy(threads[u]) == OwnedBy(threads[t]));
    }
  }

  lemma OwnersUnmoved(threads: seq<Pc>, t: nat, pc: Pc)
    requires OneOwner(threads) && t < |threads| && OwnedBy(pc) in {-1, OwnedBy(threads[t])}
    ensures OneOwner(threads[t := pc])
  {
  }

  /** The item of a thread that writes it or gives it on. */
  lemma OwnItem(s: State, t: nat)
    requires Inv(s) && t < |s.threads|
    ensures s.threads[t].SWrite? || s.threads[t].SRelease? ==>
      var s', p := SendStep(s, t), s.threads[t].at.pos;
      p < |s.ring| && |s'.ring| == |s.ring| && s'.ring == s.ring[p := s'.ring[p]] && ItemInv(s', p)
          && PcInv(s', s'.threads[t])
    ensures s.threads[t].RRead? || s.threads[t].RRelease? ==>
      var s', p := ReceiveStep(s, t), s.threads[t].at.pos;
      p < |s.ring| && |s'.ring| == |s.ring| && s'.ring == s.ring[p := s'.ring[p]] && ItemInv(s', p)
          && PcInv(s', s'.threads[t])
  {
    hide Number; hide TicketsInv; hide OneOwner;
    var pc := s.threads[t];
    assert PcInv(s, pc);
    if OwnedBy(pc) >= 0 { assert ItemInv(s, pc.at.pos); }
  }

  lemma OtherItem(s: State, s': State, p: nat, q: nat)
    requires p < |s.ring| == |s'.ring| && q < |s.ring| && q != p && s'.ring == s.ring[p := s'.ring[p]] && ItemInv(s, q)
    requires s'.cap == s.cap && s'.tail == s.tail && s'.head == s.head && s'.sent == s.sent
    ensures ItemInv(s', q)
  {
    hide Number;
  }

  /** The owner of an item reads it: what it reads is what was sent. */
  lemma ReadsSent(s: State, t: nat)
    requires Inv(s) && t < |s.threads| && s.threads[t].RRead?
    ensures TicketsInv(ReceiveStep(s, t))
  {
    hide Number; hide OneOwner;
    assert PcInv(s, s.threads[t]);
    assert ItemInv(s, s.threads[t].at.pos);
  }

  /** The owner of an item writes it, reads it or gives it on. */
  lemma OwnerStep(s: State, t: nat)
    requires Inv(s) && t < |s.threads| && OwnedBy(s.threads[t]) >= 0
    ensures Inv(if SendPc(s.threads[t]) then SendStep(s, t) else ReceiveStep(s, t))
  {
    hide Number; hide OneOwner; hide ItemInv; hide PcInv;
    var s' := if SendPc(s.threads[t]) then SendStep(s, t) else ReceiveStep(s, t);
    var p := s.threads[t].at.pos;
    OwnItem(s, t);
    if s.threads[t].RRead? { ReadsSent(s, t); }
    OwnersUnmoved(s.threads, t, s'.threads[t]);
    forall q | 0 <= q < |s'.ring| ensures ItemInv(s', q) { if q != p { OtherItem(s, s', p, q); } }
    forall u | 0 <= u < |s'.threads| ensures PcInv(s', s'.threads[u]) { if u != t { OthersKeep(s, s', t, u); } }
  }

  lemma StepInv(s: State, ev: Event)
    requires Inv(s)
    ensures Inv(Step(s, ev))
  {
    if ev.t < |s.threads| {
      var t, pc := ev.t, s.threads[ev.t];
      if OwnedBy(pc) >= 0 { OwnerStep(s, t); }
      else if pc.SCas? && pc.at == s.tail { SendWins(s, t); }
      else if pc.RCas? && pc.at == s.head { ReceiveWins(s, t); }
      else {
        assert PcInv(s, pc);
        OnlyMoves(s, t, Step(s, ev).threads[t]);
      }
    }
  }

  /** The capacity and the threads are those the run was started with. */
  predicate Made(cap: nat, n: nat, s: State) { s.cap == cap && |s.threads| == n }

  lemma {:induction false} RunInv(cap: nat, n: nat, junk: Val, evs: seq<Event>)
    requires cap > 0
    ensures var s := Run(Init(cap, n, junk), evs); Inv(s) && Busy(s) && Made(cap, n, s)
    decreases |evs|
  {
    hide Inv; hide Step; hide Busy;
    if evs == [] {
      InitInv(cap, n, junk);
      NobodyAhead(cap, n, junk);
    } else {
      RunInv(cap, n, junk, evs[..|evs| - 1]);
      var s, ev := Run(Init(cap, n, junk), evs[..|evs| - 1]), evs[|evs| - 1];
      StepInv(s, ev);
      StepBusy(s, ev);
      StepShape(s, ev);
    }
  }

  lemma StepShape(s: State, ev: Event)
    ensures Step(s, ev).cap == s.cap && |Step(s, ev).threads| == |s.threads| && |Step(s, ev).ring| == |s.ring|
  {
  }

  // ------------------------------------------------------------------ who is at work on an item

  /** A send or a receive has won item p and has not given it on. */
  ghost predicate Ahead(s: State, p: nat)
    requires p < |s.ring|
  {
    var lap := s.ring[p].lap;
    if lap % 2 == 0 then SendsWon(s, p) == lap / 2 + 1 else ReceivesWon(s, p) == lap / 2 + 1
  }

  ghost predicate Owned(threads: seq<Pc>, p: nat) { exists t :: 0 <= t < |threads| && OwnedBy(threads[t]) == p }

  /** Whenever that is so, some thread owns the item. */
  ghost predicate Busy(s: State) {
    forall p :: 0 <= p < |s.ring| && Ahead(s, p) ==> Owned(s.threads, p)
  }

  lemma NobodyAhead(cap: nat, n: nat, junk: Val)
    ensures Busy(Init(cap, n, junk))
  {
  }

  lemma StillOwned(threads: seq<Pc>, t: nat, pc: Pc, p: nat)
    requires Owned(threads, p) && t < |threads| && (OwnedBy(threads[t]) == p ==> OwnedBy(pc) == p)
    ensures Owned(threads[t := pc], p)
  {
    var u :| 0 <= u < |threads| && OwnedBy(threads[u]) == p;
    assert OwnedBy(threads[t := pc][u]) == p;
  }

  /** What a step of thread t from s to s' does to the owner's side of item p. */
  ghost predicate KeepsOwner(s: State, s': State, t: nat, p: nat)
    requires t < |s.threads| && p < |s.ring|
  {
    && |s'.threads| == |s.threads| && s'.threads == s.threads[t := s'.threads[t]] && |s'.ring| == |s.ring|
    && (Ahead(s', p) && !Ahead(s, p) ==> OwnedBy(s'.threads[t]) == p)
    && (Ahead(s', p) && OwnedBy(s.threads[t]) == p ==> OwnedBy(s'.threads[t]) == p)
  }

  lemma WinKeepsOwner(s: State, t: nat, p: nat)
    requires Inv(s) && t < |s.threads| && p < |s.ring|
    ensures s.threads[t].SCas? && s.threads[t].at == s.tail ==> KeepsOwner(s, SendStep(s, t), t, p)
    ensures s.threads[t].RCas? && s.threads[t].at == s.head ==> KeepsOwner(s, ReceiveStep(s, t), t, p)
  {
    hide Number; hide OneOwner; hide TicketsInv; hide PcInv; hide ItemInv; hide Rounds;
    var pc := s.threads[t];
    if pc.SCas? && pc.at == s.tail { SendWinsTicket(s, t); }
    if pc.RCas? && pc.at == s.head { ReceiveWinsTicket(s, t); }
    TicketsShape(s);
  }

  lemma ReleaseKeepsOwner(s: State, t: nat, p: nat)
    requires Inv(s) && t < |s.threads| && p < |s.ring|
    ensures s.threads[t].SRelease? ==> KeepsOwner(s, SendStep(s, t), t, p)
    ensures s.threads[t].RRelease? ==> KeepsOwner(s, ReceiveStep(s, t), t, p)
  {
    hide Number; hide OneOwner; hide TicketsInv; hide Rounds;
    assert PcInv(s, s.threads[t]);
    assert ItemInv(s, p);
  }

  lemma OtherKeepsOwner(s: State, ev: Event, p: nat)
    requires ev.t < |s.threads| && p < |s.ring|
    requires var pc := s.threads[ev.t];
      !pc.SRelease? && !pc.RRelease? && !(pc.SCas? && pc.at == s.tail) && !(pc.RCas? && pc.at == s.head)
    ensures KeepsOwner(s, Step(s, ev), ev.t, p)
  {
    hide Rounds;
  }

  lemma StepKeepsOwner(s: State, ev: Event, p: nat)
    requires Inv(s) && ev.t < |s.threads| && p < |s.ring|
    ensures KeepsOwner(s, Step(s, ev), ev.t, p)
  {
    hide Inv; hide KeepsOwner; hide SendStep; hide ReceiveStep;
    var t, pc := ev.t, s.threads[ev.t];
    if (pc.SCas? && pc.at == s.tail) || (pc.RCas? && pc.at == s.head) { WinKeepsOwner(s, t, p); }
    else if pc.SRelease? || pc.RRelease? { ReleaseKeepsOwner(s, t, p); }
    else { OtherKeepsOwner(s, ev, p); }
  }

  lemma StepBusy(s: State, ev: Event)
    requires Inv(s) && Busy(s)
    ensures Busy(Step(s, ev))
  {
    hide Inv; hide Ahead; hide Owned; hide SendStep; hide ReceiveStep;
    if ev.t < |s.threads| {
      var s' := Step(s, ev);
      StepShape(s, ev);
      forall p | 0 <= p < |s'.ring| && Ahead(s', p) ensures Owned(s'.threads, p) {
        StepKeepsOwner(s, ev, p);
        if OwnedBy(s'.threads[ev.t]) == p { OwnsIt(s'.threads, ev.t); }
        else { StillOwned(s.threads, ev.t, s'.threads[ev.t], p); }
      }
    }
  }

  lemma OwnsIt(threads: seq<Pc>, t: nat)
    requires t < |threads| && OwnedBy(threads[t]) >= 0
    ensures Owned(threads, OwnedBy(threads[t]))
  {
  }

  // ------------------------------------------------------------------ theorems

  ghost predicate Reachable(cap: nat, n: nat, junk: Val, s: State) {
    cap > 0 && exists evs :: s == Run(Init(cap, n, junk), evs)
  }

  lemma ReachableInv(cap: nat, n: nat, junk: Val, s: State)
    requires Reachable(cap, n, junk, s)
    ensures Inv(s) && Busy(s) && Made(cap, n, s)
  {
    var evs :| s == Run(Init(cap, n, junk), evs);
    RunInv(cap, n, junk, evs);
  }

  /** In every run and for every capacity, the k-th winning receive reads what the k-th winning
      send put in; receives never run ahead of sends, and sends never more than the capacity
      ahead of receives. */
  lemma ReceivesMatchSends(cap: nat, n: nat, junk: Val, s: State)
    requires Reachable(cap, n, junk, s)
    ensures forall k :: k in s.got ==> k < s.won && k < |s.sent| && s.got[k] == s.sent[k]
    ensures s.won <= |s.sent| <= s.won + cap
  {
    ReachableInv(cap, n, junk, s);
    AtMostCapacity(s);
  }

  lemma AtMostCapacity(s: State)
    requires Inv(s)
    ensures s.won <= |s.sent| <= s.won + s.cap
  {
    hide PcInv; hide OneOwner;
    var h, t := s.head.lap / 2, s.tail.lap / 2;
    assert ItemInv(s, s.tail.pos) && ItemInv(s, s.head.pos);
    if (h, s.head.pos) != (t, s.tail.pos) { NumberOrder(s.cap, s.head.pos, h, s.tail.pos, t); }
    assert Number(s.cap, s.head.pos, h + 1) == s.won + s.cap;
    if (h + 1, s.head.pos) != (t, s.tail.pos) { NumberOrder(s.cap, s.tail.pos, t, s.head.pos, h + 1); }
  }

  /** An item never has two owners, and its lap says which side owns it: even while a sender
      writes it, odd while a receiver reads it. */
  lemma OneOwnerPerItem(cap: nat, n: nat, junk: Val, s: State)
    requires Reachable(cap, n, junk, s)
    ensures |s.threads| == n && |s.ring| == s.cap == cap
    ensures forall t, u :: 0 <= t < u < |s.threads| && OwnedBy(s.threads[t]) != -1 ==>
      OwnedBy(s.threads[t]) != OwnedBy(s.threads[u])
    ensures forall t :: 0 <= t < |s.threads| && OwnedBy(s.threads[t]) != -1 ==>
      0 <= OwnedBy(s.threads[t]) < |s.ring| && (s.ring[OwnedBy(s.threads[t])].lap % 2 == 0 <==> SendPc(s.threads[t]))
  {
    ReachableInv(cap, n, junk, s);
    forall t | 0 <= t < |s.threads| && OwnedBy(s.threads[t]) != -1
      ensures 0 <= OwnedBy(s.threads[t]) < |s.ring|
      ensures (s.ring[OwnedBy(s.threads[t])].lap % 2 == 0 <==> SendPc(s.threads[t]))
    {
      assert PcInv(s, s.threads[t]);
    }
  }

  /** Item p has not been received in the round of `at`: receives have not got to that ticket. */
  lemma NotYetReceived(s: State, at: Ticket)
    requires Inv(s) && at.pos < s.cap && ReceivesWon(s, at.pos) <= at.lap / 2
    ensures s.won <= Number(s.cap, at.pos, at.lap / 2)
  {
    hide PcInv; hide OneOwner; hide ItemInv;
    var h, l := s.head.lap / 2, at.lap / 2;
    if (h, s.head.pos) != (l, at.pos) { NumberOrder(s.cap, s.head.pos, h, at.pos, l); }
  }

  lemma NotYetSent(s: State, at: Ticket)
    requires Inv(s) && at.pos < s.cap && SendsWon(s, at.pos) <= at.lap / 2
    ensures |s.sent| <= Number(s.cap, at.pos, at.lap / 2)
  {
    hide PcInv; hide OneOwner; hide ItemInv;
    var h, l := s.tail.lap / 2, at.lap / 2;
    if (h, s.tail.pos) != (l, at.pos) { NumberOrder(s.cap, s.tail.pos, h, at.pos, l); }
  }

  /** The item the next send needs, when it is not ready and nobody is at work on it. */
  lemma NotReadyMeansFull(s: State)
    requires Inv(s) && Busy(s) && s.ring[s.tail.pos].lap != s.tail.lap
    ensures s.tail.lap - 2 <= s.ring[s.tail.pos].lap < s.tail.lap
    ensures !Owned(s.threads, s.tail.pos) ==> |s.sent| == s.won + s.cap
  {
    hide PcInv; hide OneOwner; hide Owned;
    assert ItemInv(s, s.tail.pos);
    if !Owned(s.threads, s.tail.pos) {
      assert !Ahead(s, s.tail.pos);
      NotYetReceived(s, Ticket(s.tail.pos, s.tail.lap - 2));
      AtMostCapacity(s);
    }
  }

  lemma NotReadyMeansEmpty(s: State)
    requires Inv(s) && Busy(s) && s.ring[s.head.pos].lap != s.head.lap
    ensures s.head.lap - 2 <= s.ring[s.head.pos].lap < s.head.lap
    ensures !Owned(s.threads, s.head.pos) ==> |s.sent| == s.won
  {
    hide PcInv; hide OneOwner; hide Owned;
    assert ItemInv(s, s.head.pos);
    if !Owned(s.threads, s.head.pos) {
      assert !Ahead(s, s.head.pos);
      NotYetSent(s, s.head);
      AtMostCapacity(s);
    }
  }

  /** A send that gives up has found one of three things: another send has won the place it had
      read, since it read it; or a thread is at work on the item; or the channel is full. */
  lemma SendGivesUp(cap: nat, n: nat, junk: Val, s: State, t: nat, cmd: Cmd)
    requires Reachable(cap, n, junk, s) && t < n
    ensures Inv(s) && |s.threads| == n && s.cap == cap
    ensures s.threads[t].SCheck? && Step(s, Event(t, cmd)).threads[t].Idle? ==>
      var at := s.threads[t].at;
      && (|s.sent| > Number(cap, at.pos, at.lap / 2) || Owned(s.threads, at.pos) || |s.sent| == s.won + cap)
      && at.pos < |s.ring| && (at == s.tail ==> at.lap - 2 <= s.ring[at.pos].lap < at.lap)
  {
    hide Number; hide Inv; hide Busy; hide Owned; hide Reachable;
    ReachableInv(cap, n, junk, s);
    if s.threads[t].SCheck? && Step(s, Event(t, cmd)).threads[t].Idle? {
      SendHasRead(s, t);
      if s.threads[t].at == s.tail { NotReadyMeansFull(s); }
    }
  }

  lemma SendHasRead(s: State, t: nat)
    requires Inv(s) && t < |s.threads| && s.threads[t].SCheck?
    ensures var at := s.threads[t].at;
      at.pos < |s.ring| && s.tail.pos < |s.ring| && (at == s.tail || Number(s.cap, at.pos, at.lap / 2) < |s.sent|)
  {
    var at := s.threads[t].at;
    assert PcInv(s, s.threads[t]);
    if at != s.tail { NumberOrder(s.cap, at.pos, at.lap / 2, s.tail.pos, s.tail.lap / 2); }
  }

  /** A receive that gives up, likewise: another receive has won the place it had read; or a
      thread is at work on the item; or the channel is empty. */
  lemma ReceiveGivesUp(cap: nat, n: nat, junk: Val, s: State, t: nat, cmd: Cmd)
    requires Reachable(cap, n, junk, s) && t < n
    ensures Inv(s) && |s.threads| == n && s.cap == cap
    ensures s.threads[t].RCheck? && Step(s, Event(t, cmd)).threads[t].Idle? ==>
      var at := s.threads[t].at;
      && (s.won > Number(cap, at.pos, at.lap / 2) || Owned(s.threads, at.pos) || |s.sent| == s.won)
      && at.pos < |s.ring| && (at == s.head ==> at.lap - 2 <= s.ring[at.pos].lap < at.lap)
  {
    hide Number; hide Inv; hide Busy; hide Owned; hide Reachable;
    ReachableInv(cap, n, junk, s);
    if s.threads[t].RCheck? && Step(s, Event(t, cmd)).threads[t].Idle? {
      ReceiveHasRead(s, t);
      if s.threads[t].at == s.head { NotReadyMeansEmpty(s); }
    }
  }

  lemma ReceiveHasRead(s: State, t: nat)
    requires Inv(s) && t < |s.threads| && s.threads[t].RCheck?
    ensures var at := s.threads[t].at;
      at.pos < |s.ring| && s.head.pos < |s.ring| && (at == s.head || Number(s.cap, at.pos, at.lap / 2) < s.won)
  {
    var at := s.threads[t].at;
    assert PcInv(s, s.threads[t]);
    if at != s.head { NumberOrder(s.cap, at.pos, at.lap / 2, s.head.pos, s.head.lap / 2); }
  }

  // ------------------------------------------------------------------ what a call was asked for

  /** A call as its caller sees it: the command, the number of the place it won, -1 for none, and
      the states from its start to now. */
  datatype Call = NoCall | Call(cmd: Cmd, place: int, since: set<State>)

  predicate Begins(s: State, ev: Event) { ev.t < |s.threads| && s.threads[ev.t].Idle? }

  /** The call goes on with a step from s to s' by thread v. */
  ghost function Later(call: Call, s: State, s': State, v: nat, t: nat): Call {
    if call.NoCall? then NoCall
    else call.(
      place := if v == t && |s'.sent| > |s.sent| then |s.sent|
               else if v == t && s'.won > s.won then s.won else call.place,
      since := call.since + {s'})
  }

  /** The last call that thread t has begun in a run, told from the schedule. */
  ghost function LastCall(o: State, evs: seq<Event>, t: nat): Call
    decreases |evs|
  {
    if evs == [] then NoCall
    else
      var s, ev := Run(o, evs[..|evs| - 1]), evs[|evs| - 1];
      if ev.t == t && Begins(s, ev) then Call(ev.cmd, -1, {Step(s, ev)})
      else Later(LastCall(o, evs[..|evs| - 1], t), s, Step(s, ev), ev.t, t)
  }

  /** The values given to the send calls of a run, in the order in which these won their places. */
  ghost function Given(o: State, evs: seq<Event>): seq<Val>
    decreases |evs|
  {
    if evs == [] then []
    else
      var prev, ev := evs[..|evs| - 1], evs[|evs| - 1];
      var call := LastCall(o, prev, ev.t);
      if |Run(o, evs).sent| == |Run(o, prev).sent| then Given(o, prev)
      else Given(o, prev) + [if call.Call? && call.cmd.Send? then call.cmd.d else 0]
  }

  /** The channel was full, or the item of the next send in a thread's hands. */
  ghost predicate NoRoom(s: State) { |s.sent| == s.won + s.cap || Owned(s.threads, s.tail.pos) }

  ghost predicate Nothing(s: State) { |s.sent| == s.won || Owned(s.threads, s.head.pos) }

  ghost predicate WasNoRoom(since: set<State>) { exists x :: x in since && NoRoom(x) }
  ghost predicate WasNothing(since: set<State>) { exists x :: x in since && Nothing(x) }
  ghost predicate WasSent(since: set<State>, k: nat) { exists x :: x in since && |x.sent| == k }
  ghost predicate WasWon(since: set<State>, k: nat) { exists x :: x in since && x.won == k }

  /** Another send, another receive, came before this call. */
  ghost predicate Outrun(since: set<State>, sends: bool) {
    exists j, k :: j < k
      && (if sends then WasSent(since, j) && WasSent(since, k) else WasWon(since, j) && WasWon(since, k))
  }

  lemma WasLater(since: set<State>, s: State, k: nat)
    ensures WasNoRoom(since) || NoRoom(s) ==> WasNoRoom(since + {s})
    ensures WasNothing(since) || Nothing(s) ==> WasNothing(since + {s})
    ensures WasSent(since, k) || |s.sent| == k ==> WasSent(since + {s}, k)
    ensures WasWon(since, k) || s.won == k ==> WasWon(since + {s}, k)
  {
    hide NoRoom; hide Nothing;
    var since' := since + {s};
    assert s in since';
    if WasNoRoom(since) {
      var x :| x in since && NoRoom(x);
      assert x in since';
    }
    if WasNothing(since) {
      var x :| x in since && Nothing(x);
      assert x in since';
    }
    if WasSent(since, k) {
      var x :| x in since && |x.sent| == k;
      assert x in since';
    }
    if WasWon(since, k) {
      var x :| x in since && x.won == k;
      assert x in since';
    }
  }

  lemma OutrunLater(since: set<State>, s: State, sends: bool)
    requires Outrun(since, sends)
    ensures Outrun(since + {s}, sends)
  {
    hide WasSent; hide WasWon;
    var j, k :| j < k
      && (if sends then WasSent(since, j) && WasSent(since, k) else WasWon(since, j) && WasWon(since, k));
    WasLater(since, s, j);
    WasLater(since, s, k);
  }

  /** The send has put its value in the place it won. */
  predicate HasSent(call: Call, s: State)
    requires call.Call?
  {
    call.cmd.Send? && 0 <= call.place < |s.sent| && s.sent[call.place] == call.cmd.d
  }

  predicate HasReceived(call: Call, s: State)
    requires call.Call?
  {
    call.cmd.Receive? && 0 <= call.place && call.place in s.got
  }

  /** The call that pc works for, and how far it has come. */
  ghost predicate Serves(call: Call, s: State, pc: Pc) {
    if pc.Idle? then
      call.Call? ==>
        || HasSent(call, s) || HasReceived(call, s)
        || (call.place == -1 && Outrun(call.since, call.cmd.Send?))
        || (call.place == -1 && call.cmd.Send? && WasNoRoom(call.since))
        || (call.place == -1 && call.cmd.Receive? && WasNothing(call.since))
    else
      && call.Call?
      && (SendPc(pc) ==> call.cmd == Send(pc.d)) && (!SendPc(pc) ==> call.cmd.Receive?)
      && (pc.SLoad? || pc.SCheck? || pc.SCas? || pc.RLoad? || pc.RCheck? || pc.RCas? ==> call.place == -1)
      && (pc.SCheck? || pc.SCas? ==> WasSent(call.since, Number(s.cap, pc.at.pos, pc.at.lap / 2)))
      && (pc.RCheck? || pc.RCas? ==> WasWon(call.since, Number(s.cap, pc.at.pos, pc.at.lap / 2)))
      && (pc.SWrite? || pc.SRelease? ==> HasSent(call, s))
      && (pc.RRead? ==> call.place == pc.k)
      && (pc.RRelease? ==> HasReceived(call, s))
  }

  /** How a step takes its own thread on. */
  ghost predicate Advances(s: State, s': State, t: nat) {
    && t < |s.threads| == |s'.threads| && s'.threads == s.threads[t := s'.threads[t]] && s'.cap == s.cap
    && s.got.Keys <= s'.got.Keys
    && var pc, pc' := s.threads[t], s'.threads[t];
    && (if pc.SCas? && pc'.SWrite? then s'.sent == s.sent + [pc.d] else s'.sent == s.sent)
    && (if pc'.RRead? then pc.RCas? && s'.won == s.won + 1 && pc'.k == s.won else s'.won == s.won)
    && (SendPc(pc) ==> (SendPc(pc') && pc'.d == pc.d) || pc'.Idle?)
    && (!SendPc(pc) ==> !SendPc(pc'))
    && (pc.SLoad? ==> pc'.SCheck? && Number(s.cap, pc'.at.pos, pc'.at.lap / 2) == |s.sent|)
    && (pc.RLoad? ==> pc'.RCheck? && Number(s.cap, pc'.at.pos, pc'.at.lap / 2) == s.won)
    && (pc.SCheck? ==>
          || (pc'.SCas? && pc'.at == pc.at)
          || (pc'.Idle? && (NoRoom(s') || Number(s.cap, pc.at.pos, pc.at.lap / 2) < |s.sent|)))
    && (pc.RCheck? ==>
          || (pc'.RCas? && pc'.at == pc.at)
          || (pc'.Idle? && (Nothing(s') || Number(s.cap, pc.at.pos, pc.at.lap / 2) < s.won)))
    && (pc.SCas? ==> pc'.SWrite? || pc'.SLoad?) && (pc.RCas? ==> pc'.RRead? || pc'.RLoad?)
    && (pc.SWrite? ==> pc'.SRelease?) && (pc.RRead? ==> pc' == RRelease(pc.at, pc.k) && pc.k in s'.got)
    && (pc.SRelease? || pc.RRelease? ==> pc'.Idle?)
  }

  /** A check that fails does so for want of room, or too late. */
  lemma SendFails(s: State, t: nat)
    requires Inv(s) && Busy(s) && t < |s.threads| && s.threads[t].SCheck?
    requires var at := s.threads[t].at; at.pos < |s.ring| && s.ring[at.pos].lap != at.lap
    ensures NoRoom(Goto(s, t, Idle)) || Number(s.cap, s.threads[t].at.pos, s.threads[t].at.lap / 2) < |s.sent|
  {
    hide Inv; hide Busy; hide Number;
    SendHasRead(s, t);
    if s.threads[t].at == s.tail {
      NotReadyMeansFull(s);
      if Owned(s.threads, s.tail.pos) { StillOwnedIdle(s, t, s.tail.pos); }
    }
  }

  lemma ReceiveFails(s: State, t: nat)
    requires Inv(s) && Busy(s) && t < |s.threads| && s.threads[t].RCheck?
    requires var at := s.threads[t].at; at.pos < |s.ring| && s.ring[at.pos].lap != at.lap
    ensures Nothing(Goto(s, t, Idle)) || Number(s.cap, s.threads[t].at.pos, s.threads[t].at.lap / 2) < s.won
  {
    hide Inv; hide Busy; hide Number;
    ReceiveHasRead(s, t);
    if s.threads[t].at == s.head {
      NotReadyMeansEmpty(s);
      if Owned(s.threads, s.head.pos) { StillOwnedIdle(s, t, s.head.pos); }
    }
  }

  lemma StillOwnedIdle(s: State, t: nat, p: nat)
    requires t < |s.threads| && OwnedBy(s.threads[t]) == -1 && Owned(s.threads, p)
    ensures Owned(Goto(s, t, Idle).threads, p)
  {
    var u :| 0 <= u < |s.threads| && OwnedBy(s.threads[u]) == p;
    assert OwnedBy(Goto(s, t, Idle).threads[u]) == p;
  }

  /** The places the next calls will win, and where a thread at work is. */
  lemma Places(s: State, t: nat)
    requires Inv(s) && t < |s.threads|
    ensures Number(s.cap, s.tail.pos, s.tail.lap / 2) == |s.sent| && Number(s.cap, s.head.pos, s.head.lap / 2) == s.won
    ensures var pc := s.threads[t]; !pc.Idle? && !pc.SLoad? && !pc.RLoad? ==> pc.at.pos < |s.ring|
  {
    hide ItemInv; hide OneOwner; hide Number;
    assert PcInv(s, s.threads[t]);
  }

  lemma StepAdvances(s: State, ev: Event)
    requires Inv(s) && Busy(s) && ev.t < |s.threads| && !s.threads[ev.t].Idle?
    ensures Advances(s, Step(s, ev), ev.t)
  {
    hide Inv; hide Busy; hide Number; hide NoRoom; hide Nothing;
    var t, pc := ev.t, s.threads[ev.t];
    Places(s, t);
    if pc.SCheck? && s.ring[pc.at.pos].lap != pc.at.lap { SendFails(s, t); }
    if pc.RCheck? && s.ring[pc.at.pos].lap != pc.at.lap { ReceiveFails(s, t); }
  }

  lemma ServesOn(call: Call, s: State, s': State, t: nat)
    requires Advances(s, s', t) && !s.threads[t].Idle? && Serves(call, s, s.threads[t])
    ensures Serves(Later(call, s, s', t, t), s', s'.threads[t])
  {
    hide WasNoRoom; hide WasNothing; hide WasSent; hide WasWon; hide Outrun; hide NoRoom; hide Nothing; hide Number;
    var pc := s.threads[t];
    WasLater(call.since, s', |s'.sent|);
    WasLater(call.since, s', s'.won);
    if Compares(pc) {
      var k := Number(s.cap, pc.at.pos, pc.at.lap / 2);
      WasLater(call.since, s', k);
      if pc.SCheck? && k < |s'.sent| { Overtaken(call.since + {s'}, k, |s'.sent|, true); }
      if pc.RCheck? && k < s'.won { Overtaken(call.since + {s'}, k, s'.won, false); }
    }
  }

  lemma Overtaken(since: set<State>, j: nat, k: nat, sends: bool)
    requires j < k
    requires if sends then WasSent(since, j) && WasSent(since, k) else WasWon(since, j) && WasWon(since, k)
    ensures Outrun(since, sends)
  {
  }

  lemma ServesStill(call: Call, s: State, s': State, v: nat, t: nat, pc: Pc)
    requires v != t && Serves(call, s, pc)
    requires s.sent <= s'.sent && s.got.Keys <= s'.got.Keys && s'.cap == s.cap
    ensures Serves(Later(call, s, s', v, t), s', pc)
  {
    hide WasNoRoom; hide WasNothing; hide WasSent; hide WasWon; hide Outrun; hide NoRoom; hide Nothing; hide Number;
    if call.Call? {
      WasLater(call.since, s', 0);
      if Compares(pc) { WasLater(call.since, s', Number(s.cap, pc.at.pos, pc.at.lap / 2)); }
      if Outrun(call.since, call.cmd.Send?) { OutrunLater(call.since, s', call.cmd.Send?); }
    }
  }

  lemma ServesStep(s: State, ev: Event, call: Call, t: nat)
    requires Inv(s) && Busy(s) && t < |s.threads| && Serves(call, s, s.threads[t])
    ensures var s' := Step(s, ev);
      && |s'.threads| == |s.threads|
      && Serves(if ev.t == t && Begins(s, ev) then Call(ev.cmd, -1, {s'}) else Later(call, s, s', ev.t, t),
                s', s'.threads[t])
  {
    hide Inv; hide Busy; hide SendStep; hide ReceiveStep; hide Serves; hide Advances;
    var s' := Step(s, ev);
    if ev.t < |s.threads| && !s.threads[ev.t].Idle? {
      StepAdvances(s, ev);
      AdvancesFrame(s, s', ev.t);
      if ev.t == t { ServesOn(call, s, s', t); } else { ServesStill(call, s, s', ev.t, t, s.threads[t]); }
    } else if ev.t != t {
      ServesStill(call, s, s', ev.t, t, s.threads[t]);
    } else {
      ServesFirst(s, ev);
    }
  }

  lemma AdvancesFrame(s: State, s': State, t: nat)
    requires Advances(s, s', t)
    ensures t < |s.threads| == |s'.threads| && s'.threads == s.threads[t := s'.threads[t]]
    ensures s.sent <= s'.sent && s.got.Keys <= s'.got.Keys && s'.cap == s.cap
  {
  }

  lemma ServesFirst(s: State, ev: Event)
    requires Begins(s, ev)
    ensures var s' := Step(s, ev);
      |s'.threads| == |s.threads| && Serves(Call(ev.cmd, -1, {s'}), s', s'.threads[ev.t])
  {
  }

  lemma {:induction false} CallsServed(cap: nat, n: nat, junk: Val, evs: seq<Event>, t: nat)
    requires cap > 0 && t < n
    ensures var s := Run(Init(cap, n, junk), evs);
      |s.threads| == n && Serves(LastCall(Init(cap, n, junk), evs, t), s, s.threads[t])
    decreases |evs|
  {
    hide Step; hide Inv; hide Busy; hide Serves;
    RunInv(cap, n, junk, evs);
    if evs == [] {
      NothingServed(Init(cap, n, junk));
    } else {
      var prev := evs[..|evs| - 1];
      RunInv(cap, n, junk, prev);
      CallsServed(cap, n, junk, prev, t);
      ServesStep(Run(Init(cap, n, junk), prev), evs[|evs| - 1], LastCall(Init(cap, n, junk), prev, t), t);
    }
  }

  lemma NothingServed(s: State)
    ensures Serves(NoCall, s, Idle)
  {
  }

  /** How calls end, in every run.  A send has put the value its caller gave in the place it won, a
      receive has read the value of the place it won; a call that has won no place gave up for a
      reason: at some moment of the call the channel was full (empty), or a thread was at work on
      the very item it needed, or another send (receive) won a place meanwhile. */
  lemma CallsReturn(cap: nat, n: nat, junk: Val, evs: seq<Event>, t: nat)
    requires cap > 0 && t < n
    ensures var s, call := Run(Init(cap, n, junk), evs), LastCall(Init(cap, n, junk), evs, t);
      && |s.threads| == n
      && (s.threads[t].Idle? && call.Call? ==>
            match call.cmd
            case Send(d) =>
              || (0 <= call.place < |s.sent| && s.sent[call.place] == d)
              || (call.place == -1 && exists x :: x in call.since && NoRoom(x))
              || (call.place == -1 && exists x, y :: x in call.since && y in call.since && |x.sent| < |y.sent|)
            case Receive =>
              || (0 <= call.place && call.place in s.got)
              || (call.place == -1 && exists x :: x in call.since && Nothing(x))
              || (call.place == -1 && exists x, y :: x in call.since && y in call.since && x.won < y.won))
  {
    hide Run; hide LastCall; hide Init; hide Outrun; hide NoRoom; hide Nothing;
    CallsServed(cap, n, junk, evs, t);
    var call := LastCall(Init(cap, n, junk), evs, t);
    if call.Call? && Outrun(call.since, call.cmd.Send?) { WhoOutran(call.since, call.cmd.Send?); }
  }

  lemma WhoOutran(since: set<State>, sends: bool)
    requires Outrun(since, sends)
    ensures if sends then exists x, y :: x in since && y in since && |x.sent| < |y.sent|
      else exists x, y :: x in since && y in since && x.won < y.won
  {
    var j, k :| j < k
      && (if sends then WasSent(since, j) && WasSent(since, k) else WasWon(since, j) && WasWon(since, k));
    if sends {
      var x :| x in since && |x.sent| == j;
      var y :| y in since && |y.sent| == k;
    } else {
      var x :| x in since && x.won == j;
      var y :| y in since && y.won == k;
    }
  }

  /** The values sent are those the callers gave, in the order in which they won their places. */
  lemma {:induction false} SentAreGiven(cap: nat, n: nat, junk: Val, evs: seq<Event>)
    requires cap > 0
    ensures Run(Init(cap, n, junk), evs).sent == Given(Init(cap, n, junk), evs)
    decreases |evs|
  {
    hide Step; hide Inv; hide Busy; hide Serves; hide Advances; hide LastCall;
    if evs != [] {
      var prev, ev := evs[..|evs| - 1], evs[|evs| - 1];
      var s := Run(Init(cap, n, junk), prev);
      SentAreGiven(cap, n, junk, prev);
      RunInv(cap, n, junk, prev);
      if ev.t < n && !s.threads[ev.t].Idle? {
        CallsServed(cap, n, junk, prev, ev.t);
        StepAdvances(s, ev);
        SendGiven(s, Step(s, ev), ev.t, LastCall(Init(cap, n, junk), prev, ev.t));
      } else {
        SameSent(s, ev);
      }
    }
  }

  lemma SendGiven(s: State, s': State, t: nat, call: Call)
    requires Advances(s, s', t) && !s.threads[t].Idle? && Serves(call, s, s.threads[t])
    ensures if |s'.sent| == |s.sent| then s'.sent == s.sent
      else call.Call? && call.cmd.Send? && s'.sent == s.sent + [call.cmd.d]
  {
  }

  lemma SameSent(s: State, ev: Event)
    requires ev.t < |s.threads| ==> s.threads[ev.t].Idle?
    ensures Step(s, ev).sent == s.sent
  {
  }

  /** The channel as its callers see it: the k-th winning receive reads the value given to the k-th
      winning send. */
  lemma DeliversInOrder(cap: nat, n: nat, junk: Val, evs: seq<Event>, k: nat)
    requires cap > 0 && k in Run(Init(cap, n, junk), evs).got
    ensures k < |Given(Init(cap, n, junk), evs)|
    ensures Run(Init(cap, n, junk), evs).got[k] == Given(Init(cap, n, junk), evs)[k]
  {
    hide Run; hide Given; hide Init;
    SentAreGiven(cap, n, junk, evs);
    assert Reachable(cap, n, junk, Run(Init(cap, n, junk), evs));
    ReceivesMatchSends(cap, n, junk, Run(Init(cap, n, junk), evs));
  }

  // ------------------------------------------------------------------ laps of 32 bits

  const LAPS: nat := 0x1_0000_0000

  predicate Same32(a: nat, b: nat) { a % LAPS == b % LAPS }

  predicate SameTicket32(a: Ticket, b: Ticket) { a.pos == b.pos && Same32(a.lap, b.lap) }

  predicate Compares(pc: Pc) { pc.SCheck? || pc.SCas? || pc.RCheck? || pc.RCas? }

  /** The steps that compare laps, on what 32 bits hold of them. */
  function CompareStep(s: State, t: nat): State
    requires t < |s.threads|
  {
    match s.threads[t]
    case SCheck(d, at) =>
      if at.pos >= |s.ring| then s
      else if !Same32(s.ring[at.pos].lap, at.lap) then Goto(s, t, Idle)
      else Goto(s, t, SCas(d, at))
    case SCas(d, at) =>
      if SameTicket32(s.tail, at) then Goto(s.(tail := Next(s.cap, s.tail), sent := s.sent + [d]), t, SWrite(d, at))
      else Goto(s, t, SLoad(d))
    case RCheck(at) =>
      if at.pos >= |s.ring| then s
      else if !Same32(s.ring[at.pos].lap, at.lap) then Goto(s, t, Idle)
      else Goto(s, t, RCas(at))
    case RCas(at) =>
      if SameTicket32(s.head, at) then Goto(s.(head := Next(s.cap, s.head), won := s.won + 1), t, RRead(at, s.won))
      else Goto(s, t, RLoad)
    case _ => s
  }

  function Narrow(s: State, ev: Event): State {
    if ev.t < |s.threads| && Compares(s.threads[ev.t]) then CompareStep(s, ev.t) else Step(s, ev)
  }

  function NarrowRun(s: State, evs: seq<Event>): State
    decreases |evs|
  {
    if evs == [] then s else Narrow(NarrowRun(s, evs[..|evs| - 1]), evs[|evs| - 1])
  }

  /** A thread about to compare a ticket is at most b rounds behind. */
  ghost predicate Within(tail: Ticket, head: Ticket, pc: Pc, b: nat) {
    && (pc.SCheck? || pc.SCas? ==> tail.lap - pc.at.lap <= 2 * b)
    && (pc.RCheck? || pc.RCas? ==> head.lap - pc.at.lap <= 2 * b)
  }

  ghost predicate AllWithin(s: State, b: nat) {
    forall t :: 0 <= t < |s.threads| ==> Within(s.tail, s.head, s.threads[t], b)
  }

  /** Whenever the run takes a step no thread is more than b rounds behind. */
  ghost predicate LagWithin(s: State, evs: seq<Event>, b: nat)
    decreases |evs|
  {
    evs == [] || (LagWithin(s, evs[..|evs| - 1], b) && AllWithin(NarrowRun(s, evs[..|evs| - 1]), b))
  }

  lemma SameWhenNear(a: nat, b: nat)
    requires b - LAPS < a < b + LAPS
    ensures Same32(a, b) <==> a == b
  {
  }

  /** No item is more than two laps from either ticket. */
  lemma ItemLaps(s: State, p: nat)
    requires Inv(s) && p < |s.ring|
    ensures s.tail.lap - 2 <= s.ring[p].lap <= s.tail.lap + 2
    ensures s.head.lap - 2 <= s.ring[p].lap <= s.head.lap + 2
  {
    hide Number; hide PcInv; hide OneOwner;
    assert ItemInv(s, p);
  }

  // ---- at most 2^31 - 2 rounds: the same runs

  /** Comparing 32 bits decides as comparing the laps does. */
  lemma NarrowAgrees(s: State, ev: Event)
    requires Inv(s) && AllWithin(s, LAPS / 2 - 2)
    ensures Narrow(s, ev) == Step(s, ev)
  {
    hide Number; hide ItemInv; hide OneOwner; hide Same32; hide TicketsInv;
    if ev.t < |s.threads| && Compares(s.threads[ev.t]) {
      var pc := s.threads[ev.t];
      assert PcInv(s, pc) && Within(s.tail, s.head, pc, LAPS / 2 - 2);
      ItemLaps(s, pc.at.pos);
      SameWhenNear(s.ring[pc.at.pos].lap, pc.at.lap);
      SameWhenNear(if SendPc(pc) then s.tail.lap else s.head.lap, pc.at.lap);
    }
  }

  /** A run of the program's 32-bit laps in which no thread falls 2^31 - 1 rounds behind between
      reading a ticket and comparing it is a run of laps that never wrap; all that is shown of
      those holds of it. */
  lemma {:induction false} NarrowRunsAgree(cap: nat, n: nat, junk: Val, evs: seq<Event>)
    requires cap > 0 && LagWithin(Init(cap, n, junk), evs, LAPS / 2 - 2)
    ensures NarrowRun(Init(cap, n, junk), evs) == Run(Init(cap, n, junk), evs)
    ensures Reachable(cap, n, junk, NarrowRun(Init(cap, n, junk), evs))
    decreases |evs|
  {
    hide Narrow; hide Step; hide Inv; hide AllWithin; hide Init;
    if evs != [] {
      NarrowRunsAgree(cap, n, junk, evs[..|evs| - 1]);
      RunInv(cap, n, junk, evs[..|evs| - 1]);
      NarrowAgrees(Run(Init(cap, n, junk), evs[..|evs| - 1]), evs[|evs| - 1]);
    }
  }

  // ---- at most 2^31 - 1 rounds: a check may pass wrongly, a compare-and-swap may not

  /** A check that passes wrongly is of a ticket that is no longer the next. */
  lemma WrongCheck(s: State, t: nat)
    requires Inv(s) && t < |s.threads| && (s.threads[t].SCheck? || s.threads[t].RCheck?)
    requires Within(s.tail, s.head, s.threads[t], LAPS / 2 - 1) && s.threads[t].at.pos < |s.ring|
    requires var at := s.threads[t].at; Same32(s.ring[at.pos].lap, at.lap) && s.ring[at.pos].lap != at.lap
    ensures s.threads[t].SCheck? ==> PcInv(s, SCas(s.threads[t].d, s.threads[t].at))
    ensures s.threads[t].RCheck? ==> PcInv(s, RCas(s.threads[t].at))
  {
    hide Number; hide ItemInv; hide OneOwner; hide Same32; hide TicketsInv;
    var at := s.threads[t].at;
    assert PcInv(s, s.threads[t]);
    ItemLaps(s, at.pos);
    if s.ring[at.pos].lap < at.lap + LAPS { SameWhenNear(s.ring[at.pos].lap, at.lap); }
  }

  lemma NarrowStepInv(s: State, ev: Event)
    requires Inv(s) && AllWithin(s, LAPS / 2 - 1)
    ensures Inv(Narrow(s, ev)) && Narrow(s, ev).cap == s.cap && |Narrow(s, ev).threads| == |s.threads|
  {
    hide Number; hide ItemInv; hide OneOwner; hide Same32; hide TicketsInv;
    StepInv(s, ev);
    StepShape(s, ev);
    if ev.t < |s.threads| && Compares(s.threads[ev.t]) {
      var pc := s.threads[ev.t];
      assert PcInv(s, pc) && Within(s.tail, s.head, pc, LAPS / 2 - 1);
      SameWhenNear(if SendPc(pc) then s.tail.lap else s.head.lap, pc.at.lap);
      var lap := s.ring[pc.at.pos].lap;
      if lap == pc.at.lap { SameWhenNear(lap, lap); }
      if (pc.SCheck? || pc.RCheck?) && Same32(lap, pc.at.lap) && lap != pc.at.lap {
        WrongCheck(s, ev.t);
        OnlyMoves(s, ev.t, if pc.SCheck? then SCas(pc.d, pc.at) else RCas(pc.at));
      } else {
        assert Narrow(s, ev) == Step(s, ev);
      }
    }
  }

  lemma {:induction false} NarrowRunInv(cap: nat, n: nat, junk: Val, evs: seq<Event>, b: nat)
    requires cap > 0 && b < LAPS / 2 && LagWithin(Init(cap, n, junk), evs, b)
    ensures var s := NarrowRun(Init(cap, n, junk), evs); Inv(s) && Made(cap, n, s)
    decreases |evs|
  {
    hide Narrow; hide Inv;
    if evs == [] {
      InitInv(cap, n, junk);
    } else {
      NarrowRunInv(cap, n, junk, evs[..|evs| - 1], b);
      NarrowStepInv(NarrowRun(Init(cap, n, junk), evs[..|evs| - 1]), evs[|evs| - 1]);
    }
  }

  /** Every receive that has read has read what was sent in its place, receives do not overtake
      sends, and sends are at most the capacity ahead. */
  ghost predicate InStep(s: State) {
    && (forall k :: k in s.got ==> k < s.won && k < |s.sent| && s.got[k] == s.sent[k])
    && s.won <= |s.sent| <= s.won + s.cap
  }

  // ---- 2^31 rounds: a sender that sleeps through them

  ghost predicate Reaches(o: State, s: State) {
    exists evs :: s == NarrowRun(o, evs) && LagWithin(o, evs, LAPS / 2)
  }

  lemma ReachesStep(o: State, s: State, t: nat, cmd: Cmd)
    requires Reaches(o, s) && AllWithin(s, LAPS / 2)
    ensures Reaches(o, Narrow(s, Event(t, cmd)))
  {
    var evs :| s == NarrowRun(o, evs) && LagWithin(o, evs, LAPS / 2);
    assert (evs + [Event(t, cmd)])[..|evs|] == evs;
    assert Narrow(s, Event(t, cmd)) == NarrowRun(o, evs + [Event(t, cmd)]);
  }

  /** Thread 1 may take a step: it is not behind, and nobody else is too far behind. */
  ghost predicate OthersWithin(s: State) {
    |s.threads| >= 2 && forall u :: 0 <= u < |s.threads| && u != 1 ==> Within(s.tail, s.head, s.threads[u], LAPS / 2)
  }

  lemma Steps(o: State, s: State, cmd: Cmd, s': State)
    requires Reaches(o, s) && OthersWithin(s) && s' == Narrow(s, Event(1, cmd))
    requires var pc := s.threads[1];
      (pc.SCheck? || pc.SCas? ==> pc.at == s.tail) && (pc.RCheck? || pc.RCas? ==> pc.at == s.head)
    ensures Reaches(o, s')
  {
    ReachesStep(o, s, 1, cmd);
  }

  /** Thread 1 sends x, undisturbed. */
  lemma SendsOne(o: State, s: State, x: Val) returns (s': State)
    requires Reaches(o, s) && OthersWithin(s) && OthersWithin(s.(tail := Next(s.cap, s.tail))) && s.threads[1] == Idle
    requires s.tail.pos < |s.ring| && s.ring[s.tail.pos].lap == s.tail.lap
    ensures Reaches(o, s')
    ensures s' == s.(tail := Next(s.cap, s.tail), ring := s.ring[s.tail.pos := Item(s.tail.lap + 1, x)],
      sent := s.sent + [x])
  {
    hide Reaches; hide Same32; hide NarrowRun;
    var at, c := s.tail, Send(x);
    SameWhenNear(at.lap, at.lap);
    var s1, s2, s3 := Goto(s, 1, SLoad(x)), Goto(s, 1, SCheck(x, at)), Goto(s, 1, SCas(x, at));
    Steps(o, s, c, s1);
    Steps(o, s1, c, s2);
    Steps(o, s2, c, s3);
    var s4 := Goto(s.(tail := Next(s.cap, at), sent := s.sent + [x]), 1, SWrite(x, at));
    Steps(o, s3, c, s4);
    var s5 := Goto(s4.(ring := s.ring[at.pos := Item(at.lap, x)]), 1, SRelease(x, at));
    Steps(o, s4, c, s5);
    s' := Goto(s5.(ring := s5.ring[at.pos := Item(at.lap + 1, x)]), 1, Idle);
    Steps(o, s5, c, s');
    assert s'.threads == s.threads;
  }

  /** Thread 1 wins a receive and reads, undisturbed. */
  lemma ReadsOne(o: State, s: State) returns (s': State)
    requires Reaches(o, s) && OthersWithin(s) && OthersWithin(s.(head := Next(s.cap, s.head))) && s.threads[1] == Idle
    requires s.head.pos < |s.ring| && s.ring[s.head.pos].lap == s.head.lap
    ensures s' == Goto(s.(head := Next(s.cap, s.head), won := s.won + 1,
      got := s.got[s.won := s.ring[s.head.pos].data]),
                       1, RRelease(s.head, s.won))
    ensures Reaches(o, s')
  {
    hide Reaches; hide Same32; hide NarrowRun;
    var at, c := s.head, Receive;
    SameWhenNear(at.lap, at.lap);
    var s1, s2, s3 := Goto(s, 1, RLoad), Goto(s, 1, RCheck(at)), Goto(s, 1, RCas(at));
    Steps(o, s, c, s1);
    Steps(o, s1, c, s2);
    Steps(o, s2, c, s3);
    var s4 := Goto(s.(head := Next(s.cap, at), won := s.won + 1), 1, RRead(at, s.won));
    Steps(o, s3, c, s4);
    s' := Goto(s4.(got := s.got[s.won := s.ring[at.pos].data]), 1, RRelease(at, s.won));
    Steps(o, s4, c, s');
  }

  /** Thread 0 is about to use the first ticket for d; all others are idle. */
  ghost predicate Dozing(s: State, d: Val) {
    && |s.threads| >= 2 && s.threads[0] == SCas(d, Ticket(0, 0))
    && forall u :: 0 < u < |s.threads| ==> s.threads[u] == Idle
  }

  /** Nothing but x has been sent, the last j values from item 0 on have not been received, and the
      item the next send needs is free. */
  ghost predicate Sent(s: State, x: Val, j: nat) {
    && |s.ring| == s.cap > 0 && |s.sent| == s.won + j && (forall k :: 0 <= k < |s.sent| ==> s.sent[k] == x)
    && s.tail.lap % 2 == 0 && s.tail.pos < s.cap
  }

  /** Thread 0 has slept while everything sent was received. */
  ghost predicate Slept(s: State, x: Val, d: Val) {
    && Dozing(s, d) && Sent(s, x, 0) && s.head == Ticket(s.tail.pos, s.tail.lap + 1)
    && forall i :: 0 <= i < s.cap ==> s.ring[i].lap == if i < s.tail.pos then s.tail.lap + 2 else s.tail.lap
  }

  lemma FallsAsleep(cap: nat, n: nat, x: Val, d: Val, junk: Val) returns (s: State)
    requires cap > 0 && n >= 2
    ensures Reaches(Init(cap, n, junk), s) && Slept(s, x, d) && s.tail == Ticket(0, 0) && s.cap == cap
  {
    hide Same32;
    var o := Init(cap, n, junk);
    assert o == NarrowRun(o, []) && LagWithin(o, [], LAPS / 2);
    hide Reaches; hide NarrowRun; hide LagWithin;
    s := LoadsFirst(o, o, d);
    assert s.ring == o.ring;
  }

  /** Thread 0 reads the first ticket and finds its item free. */
  lemma LoadsFirst(o: State, s: State, d: Val) returns (s': State)
    requires Reaches(o, s) && |s.threads| >= 2 && (forall u :: 0 <= u < |s.threads| ==> s.threads[u] == Idle)
    requires s.tail == Ticket(0, 0) && |s.ring| > 0 && s.ring[0].lap == 0
    ensures Reaches(o, s') && s' == Goto(s, 0, SCas(d, Ticket(0, 0)))
  {
    hide Reaches; hide NarrowRun; hide Same32;
    SameWhenNear(0, 0);
    var at := Ticket(0, 0);
    ReachesStep(o, s, 0, Send(d));
    var s1, s2 := Goto(s, 0, SLoad(d)), Goto(s, 0, SCheck(d, at));
    assert Narrow(s, Event(0, Send(d))) == s1;
    ReachesStep(o, s1, 0, Receive);
    assert Narrow(s1, Event(0, Receive)) == s2;
    ReachesStep(o, s2, 0, Receive);
    s' := Goto(s, 0, SCas(d, at));
    assert Narrow(s2, Event(0, Receive)) == s';
  }

  lemma DozingWithin(s: State, d: Val)
    requires Dozing(s, d) && s.tail.lap <= LAPS
    ensures OthersWithin(s) && AllWithin(s, LAPS / 2)
  {
  }

  /** One value is sent and received. */
  lemma Exchange(o: State, s: State, x: Val, d: Val) returns (s': State)
    requires Reaches(o, s) && Slept(s, x, d) && s.tail.lap + 2 <= LAPS
    ensures Reaches(o, s') && Slept(s', x, d) && s'.tail == Next(s.cap, s.tail) && s'.cap == s.cap
  {
    hide Reaches; hide NarrowRun; hide Same32;
    DozingWithin(s, d);
    DozingWithin(s.(tail := Next(s.cap, s.tail)), d);
    var s1 := SendsOne(o, s, x);
    DozingWithin(s1, d);
    DozingWithin(s1.(head := Next(s1.cap, s1.head)), d);
    var s2 := ReadsOne(o, s1);
    var at := s.head;
    s' := Goto(s2.(ring := s2.ring[at.pos := s2.ring[at.pos].(lap := at.lap + 1)]), 1, Idle);
    Steps(o, s2, Receive, s');
    assert s'.threads == s.threads;
  }

  /** ... again and again, until the next ticket is the given one. */
  lemma {:induction false} ExchangeMany(o: State, s: State, x: Val, d: Val, at: Ticket) returns (s': State)
    requires Reaches(o, s) && Slept(s, x, d) && at.pos < s.cap && at.lap % 2 == 0 && at.lap + 2 <= LAPS
    requires s.tail == at || TicketLess(s.tail, at)
    ensures Reaches(o, s') && Slept(s', x, d) && s'.tail == at && s'.cap == s.cap
    decreases at.lap - s.tail.lap, s.cap - s.tail.pos
  {
    hide Reaches; hide NarrowRun; hide Same32;
    s' := s;
    if s.tail != at {
      s' := Exchange(o, s, x, d);
      s' := ExchangeMany(o, s', x, d, at);
    }
  }

  /** Items 0 to j - 1 hold x, sent in the round of the given lap and not received. */
  ghost predicate Filled(s: State, x: Val, d: Val, lap: nat, j: nat) {
    && Dozing(s, d) && Sent(s, x, j) && j <= s.cap && s.head == Ticket(0, lap + 1)
    && s.tail == (if j < s.cap then Ticket(j, lap) else Ticket(0, lap + 2))
    && (forall i :: 0 <= i < j ==> s.ring[i] == Item(lap + 1, x))
    && (forall i :: j <= i < s.cap ==> s.ring[i].lap == lap)
  }

  lemma {:induction false} Fill(o: State, s: State, x: Val, d: Val, j: nat) returns (s': State)
    requires Reaches(o, s) && Slept(s, x, d) && s.tail.pos == 0 && s.tail.lap + 2 <= LAPS && j <= s.cap
    ensures Reaches(o, s') && Filled(s', x, d, s.tail.lap, j) && s'.cap == s.cap
  {
    hide Reaches; hide NarrowRun; hide Same32;
    s' := s;
    if j > 0 {
      var s1 := Fill(o, s, x, d, j - 1);
      DozingWithin(s1, d);
      DozingWithin(s1.(tail := Next(s1.cap, s1.tail)), d);
      s' := SendsOne(o, s1, x);
    }
  }

  /** Thread 0 wakes up, takes the ticket of 2^31 rounds later for its own, and overwrites item 0. */
  lemma Overwrites(o: State, s: State, x: Val, d: Val) returns (s': State)
    requires Reaches(o, s) && Filled(s, x, d, LAPS - 2, s.cap)
    ensures Reaches(o, s') && OthersWithin(s') && s'.cap == s.cap && s'.threads[1] == Idle
    ensures s'.head == s.head && s'.won == s.won && s'.got == s.got && s'.sent == s.sent + [d]
    ensures s'.ring == s.ring[0 := Item(LAPS - 1, d)] && s'.threads[0].SRelease?
    ensures forall u :: 0 < u < |s'.threads| ==> s'.threads[u] == Idle
  {
    hide Reaches; hide NarrowRun;
    var at := Ticket(0, 0);
    DozingWithin(s, d);
    ReachesStep(o, s, 0, Receive);
    var s1 := Goto(s.(tail := Next(s.cap, s.tail), sent := s.sent + [d]), 0, SWrite(d, at));
    assert Narrow(s, Event(0, Receive)) == s1;
    ReachesStep(o, s1, 0, Receive);
    s' := Goto(s1.(ring := s.ring[0 := Item(LAPS - 1, d)]), 0, SRelease(d, at));
    assert Narrow(s1, Event(0, Receive)) == s';
  }

  /** The bound is needed, whatever the capacity: a sender that sleeps through 2^31 rounds takes
      the ticket for its own and overwrites a value that has not been received. */
  lemma SleeperOverwrites(cap: nat, n: nat, x: Val, d: Val, junk: Val) returns (s: State)
    requires cap > 0 && n >= 2 && x != d
    ensures Reaches(Init(cap, n, junk), s)
    ensures exists k: nat :: k in s.got && k < |s.sent| && s.got[k] != s.sent[k]
  {
    hide Reaches; hide NarrowRun; hide Init;
    var o := Init(cap, n, junk);
    s := FallsAsleep(cap, n, x, d, junk);
    s := ExchangeMany(o, s, x, d, Ticket(0, LAPS - 2));
    s := Fill(o, s, x, d, cap);
    var k := s.won;
    assert s.sent[k] == x;
    s := Overwrites(o, s, x, d);
    s := ReadsOne(o, s);
    assert k in s.got && s.got[k] == d && s.sent[k] == x;
  }

  lemma {:induction false} LagGrows(s: State, evs: seq<Event>, a: nat, b: nat)
    requires LagWithin(s, evs, a) && a <= b
    ensures LagWithin(s, evs, b)
    decreases |evs|
  {
    hide NarrowRun; hide AllWithin;
    if evs != [] {
      LagGrows(s, evs[..|evs| - 1], a, b);
      WithinGrows(NarrowRun(s, evs[..|evs| - 1]), a, b);
    }
  }

  lemma WithinGrows(s: State, a: nat, b: nat)
    requires AllWithin(s, a) && a <= b
    ensures AllWithin(s, b)
  {
    forall t | 0 <= t < |s.threads| ensures Within(s.tail, s.head, s.threads[t], b) {
      assert Within(s.tail, s.head, s.threads[t], a);
    }
  }

  /** With 32-bit laps, for every capacity, number of threads and bound b: receives match sends in
      every run in which no thread falls more than b rounds behind between reading a ticket and
      comparing it, if and only if b is less than 2^31. */
  lemma NarrowExactlyWithinLag(cap: nat, n: nat, junk: Val, b: nat)
    requires cap > 0 && n >= 2
    ensures (forall evs :: LagWithin(Init(cap, n, junk), evs, b) ==> InStep(NarrowRun(Init(cap, n, junk), evs))) <==>
      b < LAPS / 2
  {
    hide NarrowRun; hide LagWithin; hide Init;
    var o := Init(cap, n, junk);
    if b < LAPS / 2 {
      forall evs | LagWithin(o, evs, b) ensures InStep(NarrowRun(o, evs)) {
        NarrowRunInv(cap, n, junk, evs, b);
        InvInStep(NarrowRun(o, evs));
      }
    } else {
      var s := SleeperOverwrites(cap, n, 0, 1, junk);
      var evs :| s == NarrowRun(o, evs) && LagWithin(o, evs, LAPS / 2);
      LagGrows(o, evs, LAPS / 2, b);
      assert !InStep(NarrowRun(o, evs));
    }
  }

  lemma InvInStep(s: State)
    requires Inv(s)
    ensures InStep(s)
  {
    hide ItemInv; hide PcInv; hide OneOwner; hide Number;
    AtMostCapacity(s);
  }
}
