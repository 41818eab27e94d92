/** A client of the message bus of mbus/mbus.c: senders pin it by counting themselves in with a
    compare-and-swap of the whole record, call its callback, and count themselves out; it can be
    unregistered only by a compare-and-swap that expects a count of zero.  Clients do not touch
    each other, so one is modelled, with any number of threads and any schedule. */
module Mbus {

  /** The record of a client; what the callback and its context are does not matter. */
  datatype Client = Client(registered: bool, refcnt: nat, callback: int, ctx: int)

  const NONE := Client(false, 0, 0, 0)

  datatype Pc =
    | Idle
    | Register(callback: int, ctx: int)
    // execute_client_callback
    | SendLoad(msg: int)
    | SendCas(msg: int, seen: Client)
    | Calling(msg: int, callback: int, ctx: int)
    // bus_unregister
    | DropLoad
    | DropCas(seen: Client)

  /** A callback that was called, and with what. */
  datatype Delivery = Delivery(callback: int, ctx: int, msg: int)

  /** `delivered` lists the callbacks called so far, `refused` counts the sends that found no
      client; told[t] is what the last call of thread t answers. */
  datatype State = State(
    client: Client, threads: seq<Pc>, delivered: seq<Delivery>, refused: nat, told: map<nat, bool>)

  datatype Cmd = DoRegister(callback: int, ctx: int) | DoSend(msg: int) | DoUnregister
  datatype Event = Event(t: nat, cmd: Cmd)

  function Goto(s: State, t: nat, pc: Pc): State
    requires t < |s.threads|
  {
    s.(threads := s.threads[t := pc])
  }

  function Answer(s: State, t: nat, ok: bool): State
    requires t < |s.threads|
  {
    Goto(s.(told := s.told[t := ok]), t, Idle)
  }

  /** The loop test after a load or a failed compare-and-swap. */
  function SendOn(s: State, t: nat, msg: int): State
    requires t < |s.threads|
  {
    if s.client.registered then Goto(s, t, SendCas(msg, s.client))
    else Answer(s.(refused := s.refused + 1), t, false)
  }

  /** `gone` is the answer when the client is not registered: no to a caller that never saw it
      registered, yes when somebody else has unregistered it meanwhile. */
  function DropOn(s: State, t: nat, gone: bool): State
    requires t < |s.threads|
  {
    if s.client.registered then Goto(s, t, DropCas(s.client.(refcnt := 0))) else Answer(s, t, gone)
  }

  function Step(s: State, ev: Event): State {
    if ev.t >= |s.threads| then s
    else
      var t, c := ev.t, s.client;
      match s.threads[t]
      case Idle =>
        Goto(s, t, match ev.cmd
                   case DoRegister(callback, ctx) => Register(callback, ctx)
                   case DoSend(msg) => SendLoad(msg)
                   case DoUnregister => DropLoad)
      case Register(callback, ctx) =>
        Answer(if c == NONE then s.(client := Client(true, 0, callback, ctx)) else s, t, c == NONE)
      case SendLoad(msg) => SendOn(s, t, msg)
      case SendCas(msg, seen) =>
        if c == seen then
          Goto(s.(client := seen.(refcnt := seen.refcnt + 1)), t, Calling(msg, seen.callback, seen.ctx))
        else SendOn(s, t, msg)
      case Calling(msg, callback, ctx) =>
        if c.refcnt == 0 then s
        else
          Answer(s.(client := c.(refcnt := c.refcnt - 1), delivered := s.delivered + [Delivery(callback, ctx, msg)]),
                 t, true)
      case DropLoad => DropOn(s, t, false)
      case DropCas(seen) => if c == seen then Answer(s.(client := NONE), t, true) else DropOn(s, t, true)
  }

  function Init(n: nat): State { State(NONE, seq(n, _ => Idle), [], 0, map[]) }

  function Run(s: State, evs: seq<Event>): State
    decreases |evs|
  {
    if evs == [] then s else Step(Run(s, evs[..|evs| - 1]), evs[|evs| - 1])
  }

  // ------------------------------------------------------------------ invariant

  /** The threads between their compare-and-swap and their decrement. */
  ghost function Callers(threads: seq<Pc>): set<nat> {
    set t: nat | t < |threads| && threads[t].Calling?
  }

  ghost predicate Inv(s: State) {
    && s.client.refcnt == |Callers(s.threads)|
    && (!s.client.registered ==> s.client == NONE)
    && (forall t :: 0 <= t < |s.threads| && s.threads[t].Calling? ==>
          s.threads[t].callback == s.client.callback && s.threads[t].ctx == s.client.ctx)
    && (forall t :: 0 <= t < |s.threads| && s.threads[t].SendCas? ==> s.threads[t].seen.registered)
    && (forall t :: 0 <= t < |s.threads| && s.threads[t].DropCas? ==>
          s.threads[t].seen.registered && s.threads[t].seen.refcnt == 0)
  }

  /** What one step does to the set of callers. */
  lemma CallersMove(threads: seq<Pc>, t: nat, pc: Pc)
    requires t < |threads|
    ensures var threads' := threads[t := pc];
      Callers(threads') == if pc.Calling? then Callers(threads) + {t} else Callers(threads) - {t}
  {
  }

  /** One thread more or less in a call changes their number by one. */
  lemma CallersCount(threads: seq<Pc>, t: nat, pc: Pc)
    requires t < |threads|
    ensures |Callers(threads[t := pc])| ==
      |Callers(threads)| + (if pc.Calling? then 1 else 0) - (if threads[t].Calling? then 1 else 0)
  {
    var was := Callers(threads);
    CallersMove(threads, t, pc);
    assert t in was <==> threads[t].Calling?;
    if t in was { assert |was - {t}| == |was| - 1; } else { assert was - {t} == was; }
  }

  lemma CountStep(s: State, ev: Event)
    requires Inv(s)
    ensures Step(s, ev).client.refcnt == |Callers(Step(s, ev).threads)|
  {
    hide Callers;
    var s', t := Step(s, ev), ev.t;
    if t < |s.threads| && s' != s {
      assert s'.threads == s.threads[t := s'.threads[t]];
      CallersCount(s.threads, t, s'.threads[t]);
    }
  }

  lemma StepInv(s: State, ev: Event)
    requires Inv(s)
    ensures Inv(Step(s, ev))
  {
    CountStep(s, ev);
    if s.client.refcnt == 0 { NobodyCalls(s.threads); }
    hide Callers;
  }

  lemma NobodyCalls(threads: seq<Pc>)
    requires |Callers(threads)| == 0
    ensures forall t :: 0 <= t < |threads| ==> !threads[t].Calling?
  {
    forall t | 0 <= t < |threads| ensures !threads[t].Calling? {
      assert t !in Callers(threads);
    }
  }

  lemma {:induction false} RunInv(n: nat, evs: seq<Event>)
    ensures Inv(Run(Init(n), evs))
    decreases |evs|
  {
    if evs == [] {
      assert Callers(Init(n).threads) == {};
    } else {
      RunInv(n, evs[..|evs| - 1]);
      StepInv(Run(Init(n), evs[..|evs| - 1]), evs[|evs| - 1]);
    }
  }

  // ------------------------------------------------------------------ theorems

  ghost predicate Reachable(n: nat, s: State) {
    exists evs :: s == Run(Init(n), evs)
  }

  /** In every run the reference count is the number of senders in the middle of a call, and
      every callback in progress is that of the client as it is registered now. */
  lemma CountIsCallers(n: nat, s: State)
    requires Reachable(n, s)
    ensures s.client.refcnt == |set t: nat | t < |s.threads| && s.threads[t].Calling?|
    ensures forall t :: 0 <= t < |s.threads| && s.threads[t].Calling? ==>
      s.client.registered && s.threads[t].callback == s.client.callback && s.threads[t].ctx == s.client.ctx
  {
    var evs :| s == Run(Init(n), evs);
    RunInv(n, evs);
    forall t | 0 <= t < |s.threads| && s.threads[t].Calling? ensures s.client.registered {
      assert t in Callers(s.threads);
    }
  }

  /** A step that changes the registration, callback or context happens with no callback in
      progress: a non-zero count pins all three. */
  lemma PinnedWhileCalling(n: nat, s: State, ev: Event)
    requires Reachable(n, s)
    ensures var c, c' := s.client, Step(s, ev).client;
      (c'.registered, c'.callback, c'.ctx) != (c.registered, c.callback, c.ctx) ==>
        c.refcnt == 0 && forall t :: 0 <= t < |s.threads| ==> !s.threads[t].Calling?
  {
    var evs :| s == Run(Init(n), evs);
    RunInv(n, evs);
    if s.client.refcnt == 0 { NobodyCalls(s.threads); }
  }

  /** A message is refused only at a moment when the client is not registered. */
  lemma RefusedOnlyWhenGone(n: nat, s: State, ev: Event)
    requires Reachable(n, s) && Step(s, ev).refused > s.refused
    ensures !s.client.registered && s.client.refcnt == 0
  {
    var evs :| s == Run(Init(n), evs);
    RunInv(n, evs);
  }

  // ------------------------------------------------------------------ what a call was asked for

  /** A call as its caller sees it: the command, the number of the callback it called, -1 for none,
      and the client from its start to now. */
  datatype Call = NoCall | Call(cmd: Cmd, made: int, since: set<Client>)

  /** The call goes on with a step from s to s' by thread v. */
  ghost function Later(call: Call, s: State, s': State, v: nat, t: nat): Call {
    if call.NoCall? then NoCall
    else call.(made := if v == t && |s'.delivered| > |s.delivered| then |s.delivered| else call.made,
               since := call.since + {s'.client})
  }

  /** The last call that thread t has begun in a run, told from the schedule. */
  ghost function LastCall(o: State, evs: seq<Event>, t: nat): Call
    decreases |evs|
  {
    if evs == [] then NoCall
    else
      var s, ev := Run(o, evs[..|evs| - 1]), evs[|evs| - 1];
      if ev.t == t && t < |s.threads| && s.threads[t].Idle? then Call(ev.cmd, -1, {Step(s, ev).client})
      else Later(LastCall(o, evs[..|evs| - 1], t), s, Step(s, ev), ev.t, t)
  }

  ghost predicate WasGone(since: set<Client>) { exists c :: c in since && !c.registered }

  /** The client was, at some moment, one with this callback and context. */
  ghost predicate Was(since: set<Client>, callback: int, ctx: int) {
    exists c :: c in since && c.registered && c.callback == callback && c.ctx == ctx
  }

  ghost predicate WasTaken(since: set<Client>) { exists c :: c in since && c.registered }

  lemma WasLater(since: set<Client>, c: Client, callback: int, ctx: int)
    ensures WasGone(since) || !c.registered ==> WasGone(since + {c})
    ensures WasTaken(since) || c.registered ==> WasTaken(since + {c})
    ensures Was(since, callback, ctx) || (c.registered && c.callback == callback && c.ctx == ctx) ==>
      Was(since + {c}, callback, ctx)
  {
    var since' := since + {c};
    assert c in since';
    if WasGone(since) {
      var x :| x in since && !x.registered;
      assert x in since';
    }
    if WasTaken(since) {
      var x :| x in since && x.registered;
      assert x in since';
    }
    if Was(since, callback, ctx) {
      var x :| x in since && x.registered && x.callback == callback && x.ctx == ctx;
      assert x in since';
    }
  }

  /** What a call that has answered has done. */
  ghost predicate Returned(call: Call, delivered: seq<Delivery>, ok: bool)
    requires call.Call?
  {
    match call.cmd
    case DoRegister(callback, ctx) => if ok then Was(call.since, callback, ctx) else WasTaken(call.since)
    case DoSend(msg) =>
      if ok then
        && 0 <= call.made < |delivered| && delivered[call.made].msg == msg
        && Was(call.since, delivered[call.made].callback, delivered[call.made].ctx)
      else call.made == -1 && WasGone(call.since)
    case DoUnregister => WasGone(call.since) && (ok ==> WasTaken(call.since))
  }

  /** The call that pc works for, and how far it has come. */
  ghost predicate Serves(call: Call, s: State, t: nat, pc: Pc) {
    match pc
    case Idle => call.Call? ==> t in s.told && Returned(call, s.delivered, s.told[t])
    case Register(callback, ctx) => call.Call? && call.cmd == DoRegister(callback, ctx)
    case SendLoad(msg) => call.Call? && call.cmd == DoSend(msg) && call.made == -1
    case SendCas(msg, _) => call.Call? && call.cmd == DoSend(msg) && call.made == -1
    case Calling(msg, callback, ctx) =>
      call.Call? && call.cmd == DoSend(msg) && call.made == -1 && Was(call.since, callback, ctx)
    case DropLoad => call.Call? && call.cmd.DoUnregister?
    case DropCas(_) => call.Call? && call.cmd.DoUnregister? && WasTaken(call.since)
  }

  lemma ServesOn(call: Call, s: State, ev: Event)
    requires Inv(s) && ev.t < |s.threads| && !s.threads[ev.t].Idle? && Serves(call, s, ev.t, s.threads[ev.t])
    ensures var s' := Step(s, ev);
      |s'.threads| == |s.threads| && Serves(Later(call, s, s', ev.t, ev.t), s', ev.t, s'.threads[ev.t])
  {
    hide Was; hide WasGone; hide WasTaken; hide Callers;
    var s', pc := Step(s, ev), s.threads[ev.t];
    CallerCounts(s, ev.t);
    WasLater(call.since, s'.client, s'.client.callback, s'.client.ctx);
    if pc.Calling? { WasLater(call.since, s'.client, pc.callback, pc.ctx); }
    if pc.Register? { WasLater(call.since, s'.client, pc.callback, pc.ctx); }
  }

  lemma CallerCounts(s: State, t: nat)
    requires Inv(s) && t < |s.threads|
    ensures s.threads[t].Calling? ==> s.client.refcnt > 0
  {
    if s.threads[t].Calling? { assert t in Callers(s.threads); }
  }

  lemma ServesStill(call: Call, s: State, s': State, v: nat, t: nat, pc: Pc)
    requires v != t && Serves(call, s, t, pc) && s.delivered <= s'.delivered
    requires t in s.told ==> t in s'.told && s'.told[t] == s.told[t]
    ensures Serves(Later(call, s, s', v, t), s', t, pc)
  {
    hide Was; hide WasGone; hide WasTaken;
    if call.Call? {
      WasLater(call.since, s'.client, 0, 0);
      if pc.Calling? { WasLater(call.since, s'.client, pc.callback, pc.ctx); }
      if call.cmd.DoRegister? { WasLater(call.since, s'.client, call.cmd.callback, call.cmd.ctx); }
      if 0 <= call.made < |s.delivered| {
        WasLater(call.since, s'.client, s.delivered[call.made].callback, s.delivered[call.made].ctx);
      }
    }
  }

  lemma StepKeeps(s: State, ev: Event, t: nat)
    requires t < |s.threads| && t != ev.t
    ensures var s' := Step(s, ev);
      && |s'.threads| == |s.threads| && s'.threads[t] == s.threads[t] && s.delivered <= s'.delivered
      && (t in s.told ==> t in s'.told && s'.told[t] == s.told[t])
  {
  }

  lemma ServesStep(s: State, ev: Event, call: Call, t: nat)
    requires Inv(s) && t < |s.threads| && Serves(call, s, t, s.threads[t])
    ensures var s' := Step(s, ev);
      && |s'.threads| == |s.threads|
      && Serves(if ev.t == t && s.threads[t].Idle? then Call(ev.cmd, -1, {s'.client})
                else Later(call, s, s', ev.t, t), s', t, s'.threads[t])
  {
    hide Inv; hide Later;
    if ev.t != t {
      hide Step; hide Serves;
      StepKeeps(s, ev, t);
      ServesStill(call, s, Step(s, ev), ev.t, t, s.threads[t]);
    } else if !s.threads[t].Idle? {
      hide Step; hide Serves;
      ServesOn(call, s, ev);
    }
  }

  lemma {:induction false} CallsServed(n: nat, evs: seq<Event>, t: nat)
    requires t < n
    ensures var s := Run(Init(n), evs); |s.threads| == n && Serves(LastCall(Init(n), evs, t), s, t, s.threads[t])
    decreases |evs|
  {
    hide Step; hide Inv; hide Serves;
    if evs == [] {
      NothingServed(Init(n), t);
    } else {
      var prev := evs[..|evs| - 1];
      RunInv(n, prev);
      CallsServed(n, prev, t);
      ServesStep(Run(Init(n), prev), evs[|evs| - 1], LastCall(Init(n), prev, t), t);
    }
  }

  lemma NothingServed(s: State, t: nat)
    ensures Serves(NoCall, s, t, Idle)
  {
  }

  /** What calls answer, in every run.  A registration says yes only if the client was at some
      moment the one it asked for, and no only if at some moment there was one already.  A send says
      yes only if it has called the callback of a client registered during the call, with its own
      context and the message given, and no only if at some moment no client was registered, and
      then it called nothing.  An unregistration says yes only if the client was registered and was
      gone during the call, and no only if it was gone. */
  lemma CallsReturn(n: nat, evs: seq<Event>, t: nat)
    requires t < n
    ensures var s, call := Run(Init(n), evs), LastCall(Init(n), evs, t);
      && |s.threads| == n
      && (s.threads[t].Idle? && call.Call? ==>
            && t in s.told
            && match call.cmd {
                 case DoRegister(callback, ctx) =>
                   if s.told[t] then
                     exists c :: c in call.since && c.registered && c.callback == callback && c.ctx == ctx
                   else exists c :: c in call.since && c.registered
                 case DoSend(msg) =>
                   if s.told[t] then
                     && 0 <= call.made < |s.delivered| && s.delivered[call.made].msg == msg
                     && exists c :: c in call.since && c.registered
                          && c.callback == s.delivered[call.made].callback && c.ctx == s.delivered[call.made].ctx
                   else call.made == -1 && exists c :: c in call.since && !c.registered
                 case DoUnregister =>
                   && (exists c :: c in call.since && !c.registered)
                   && (s.told[t] ==> exists c :: c in call.since && c.registered)
               })
  {
    hide Run; hide LastCall; hide Init;
    CallsServed(n, evs, t);
  }
}
