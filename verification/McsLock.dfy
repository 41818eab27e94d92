/** The MCS queue lock of mcslock/mcslock.c.  Thread t always acquires with its own node t, as
    often as it likes.  Each atomic access is one step and a run is any schedule of any number
    of threads. */
module McsLock {

  const NULL := -1

  datatype Pc =
    | Idle
    // mcslock_acquire
    | Init
    | Exchange
    | SetWait(prev: nat)
    | Link(prev: nat)
    | Spin
    | Holding
    // mcslock_release
    | LoadNext
    | TryClear
    | AwaitNext
    | Signal(nx: nat)

  /** The lock word and the nodes' fields. */
  datatype Nodes = Nodes(lock: int, next: seq<int>, wait: seq<bool>)

  /** `arrived` lists the threads in the order of their exchanges and `entered` in the order in
      which they got the lock; the first `done` have released it.  at[t] is where the acquisition
      of t that is not over stands in `arrived`, -1 for none. */
  datatype State = State(m: Nodes, threads: seq<Pc>, arrived: seq<nat>, entered: seq<nat>, done: nat, at: seq<int>)

  function Goto(s: State, t: nat, pc: Pc): State
    requires t < |s.threads|
  {
    s.(threads := s.threads[t := pc])
  }

  predicate Sized(s: State) { |s.m.next| == |s.m.wait| == |s.at| == |s.threads| }

  function AcquireStep(s: State, t: nat): State
    requires Sized(s) && t < |s.threads|
  {
    var m := s.m;
    match s.threads[t]
    case Idle => Goto(s, t, Init)
    case Init => Goto(s.(m := m.(next := m.next[t := NULL])), t, Exchange)
    case Exchange =>
      var s1 := s.(m := m.(lock := t), arrived := s.arrived + [t], at := s.at[t := |s.arrived|]);
      if m.lock < 0 then Goto(s1.(entered := s.entered + [t]), t, Holding) else Goto(s1, t, SetWait(m.lock))
    case SetWait(prev) => Goto(s.(m := m.(wait := m.wait[t := true])), t, Link(prev))
    case Link(prev) =>
      if prev < |m.next| then Goto(s.(m := m.(next := m.next[prev := t])), t, Spin) else s
    case Spin => if m.wait[t] then s else Goto(s.(entered := s.entered + [t]), t, Holding)
    case _ => s
  }

  /** The release is over: the node is the thread's own again. */
  function Leave(s: State, t: nat): State
    requires Sized(s) && t < |s.threads|
  {
    Goto(s.(done := s.done + 1, at := s.at[t := NULL]), t, Idle)
  }

  function ReleaseStep(s: State, t: nat): State
    requires Sized(s) && t < |s.threads|
  {
    var m := s.m;
    match s.threads[t]
    case Holding => Goto(s, t, LoadNext)
    case LoadNext => if m.next[t] >= 0 then Goto(s, t, Signal(m.next[t])) else Goto(s, t, TryClear)
    case TryClear =>
      if m.lock == t then Leave(s.(m := m.(lock := NULL)), t) else Goto(s, t, AwaitNext)
    case AwaitNext => if m.next[t] >= 0 then Goto(s, t, Signal(m.next[t])) else s
    case Signal(nx) => if nx < |m.wait| then Leave(s.(m := m.(wait := m.wait[nx := false])), t) else s
    case _ => s
  }

  predicate Releasing(pc: Pc) { pc.LoadNext? || pc.TryClear? || pc.AwaitNext? || pc.Signal? }

  function Step(s: State, t: nat): State {
    if !(Sized(s) && t < |s.threads|) then s
    else if s.threads[t].Holding? || Releasing(s.threads[t]) then ReleaseStep(s, t)
    else AcquireStep(s, t)
  }

  function Start(n: nat): State {
    State(Nodes(NULL, seq(n, _ => NULL), seq(n, _ => false)), seq(n, _ => Idle), [], [], 0, seq(n, _ => NULL))
  }

  /** A run is a schedule: which thread makes the next step. */
  function Run(s: State, sched: seq<nat>): State
    decreases |sched|
  {
    if sched == [] then s else Step(Run(s, sched[..|sched| - 1]), sched[|sched| - 1])
  }

  // ------------------------------------------------------------------ invariant

  /** Threads whose acquisition is not over, in order of arrival; `at` is its inverse. */
  ghost predicate QueueInv(arrived: seq<nat>, done: nat, at: seq<int>) {
    && done <= |arrived|
    && (forall j :: done <= j < |arrived| ==> arrived[j] < |at| && at[arrived[j]] == j)
    && (forall t :: 0 <= t < |at| && at[t] != NULL ==> done <= at[t] < |arrived| && arrived[at[t]] == t)
  }

  /** The node at place j is linked to the one behind it once that thread has stored the link. */
  ghost predicate LinkInv(s: State, j: nat) {
    && s.done <= j < |s.arrived| && s.arrived[j] < |s.m.next|
    && s.m.next[s.arrived[j]] ==
       if j + 1 < |s.arrived| && s.arrived[j + 1] < |s.threads|
           && s.threads[s.arrived[j + 1]].Spin? then s.arrived[j + 1] else NULL
  }

  ghost predicate PcInv(s: State, t: nat)
    requires Sized(s) && t < |s.threads|
  {
    var pc := s.threads[t];
    && (pc.Idle? || pc.Init? || pc.Exchange? <==> s.at[t] == NULL)
    && (pc.Exchange? ==> s.m.next[t] == NULL)
    && (pc.SetWait? || pc.Link? ==> s.done < s.at[t] < |s.arrived| && pc.prev == s.arrived[s.at[t] - 1])
    && (pc.Link? ==> s.m.wait[t])
    && (pc.Spin? ==> (s.m.wait[t] <==> s.at[t] > s.done))
    && (pc.Holding? || Releasing(pc) ==> s.at[t] == s.done)
    && (pc.AwaitNext? || pc.Signal? ==> s.done + 1 < |s.arrived|)
    && (pc.Signal? ==> pc.nx == s.arrived[s.done + 1] && pc.nx < |s.threads| && s.threads[pc.nx].Spin?)
  }

  ghost predicate EnteredInv(s: State) {
    && s.entered <= s.arrived
    && |s.entered| == s.done + if s.done < |s.arrived| && s.arrived[s.done] < |s.threads|
         && !s.threads[s.arrived[s.done]].Spin? then 1 else 0
  }

  ghost predicate Inv(s: State) {
    && Sized(s)
    && QueueInv(s.arrived, s.done, s.at)
    && s.m.lock == (if s.done < |s.arrived| then s.arrived[|s.arrived| - 1] else NULL)
    && (forall j :: s.done <= j < |s.arrived| ==> LinkInv(s, j))
    && (forall t :: 0 <= t < |s.threads| ==> PcInv(s, t))
    && EnteredInv(s)
  }

  lemma StartInv(n: nat)
    ensures Inv(Start(n))
  {
  }

  /** A step that changes only the mover's place. */
  lemma OnlyMoves(s: State, t: nat, pc: Pc)
    requires Inv(s) && t < |s.threads| && !s.threads[t].Spin? && !pc.Spin?
    requires PcInv(Goto(s, t, pc), t)
    ensures Inv(Goto(s, t, pc))
  {
    var s' := Goto(s, t, pc);
    assert forall u :: 0 <= u < |s.threads| ==> s'.threads[u].Spin? == s.threads[u].Spin?;
    hide QueueInv;
    forall j | s'.done <= j < |s'.arrived| ensures LinkInv(s', j) { assert LinkInv(s, j); }
    forall u | 0 <= u < |s'.threads| ensures PcInv(s', u) { assert PcInv(s, u); }
  }

  /** The steps of a release that only look. */
  lemma LookInv(s: State, t: nat)
    requires Inv(s) && t < |s.threads|
    requires var pc := s.threads[t]; pc.Holding? || pc.LoadNext? || pc.AwaitNext? || (pc.TryClear? && s.m.lock != t)
    ensures Inv(Step(s, t))
  {
    var pc := s.threads[t];
    assert PcInv(s, t);
    assert LinkInv(s, s.done) && s.arrived[s.done] == t;
    if pc.AwaitNext? && s.m.next[t] < 0 {
    } else {
      OnlyMoves(s, t, Step(s, t).threads[t]);
    }
  }

  lemma InitStep(s: State, t: nat)
    requires Inv(s) && t < |s.threads| && s.threads[t].Init?
    ensures Inv(Step(s, t))
  {
    var s' := Step(s, t);
    assert PcInv(s, t);
    forall j | s'.done <= j < |s'.arrived| ensures LinkInv(s', j) { assert LinkInv(s, j); assert s.arrived[j] != t; }
    forall u | 0 <= u < |s'.threads| ensures PcInv(s', u) { assert PcInv(s, u); }
  }

  /** The exchange puts the thread at the end of the queue, in front of an empty one. */
  lemma ExchangeLinks(s: State, t: nat, j: nat)
    requires Inv(s) && t < |s.threads| && s.threads[t].Exchange? && s.done <= j <= |s.arrived|
    ensures LinkInv(Step(s, t), j)
  {
    assert PcInv(s, t);
    if j < |s.arrived| {
      assert LinkInv(s, j);
      if j + 1 < |s.arrived| { assert s.arrived[j + 1] != t; }
    }
  }

  lemma ExchangeStep(s: State, t: nat)
    requires Inv(s) && t < |s.threads| && s.threads[t].Exchange?
    ensures Inv(Step(s, t))
  {
    hide LinkInv; hide PcInv;
    var s' := Step(s, t);
    ExchangeReady(s, t);
    assert QueueInv(s'.arrived, s'.done, s'.at);
    forall j | s'.done <= j < |s'.arrived| ensures LinkInv(s', j) { ExchangeLinks(s, t, j); }
    forall u | 0 <= u < |s'.threads| ensures PcInv(s', u) { ExchangeThreads(s, t, u); }
  }

  lemma ExchangeReady(s: State, t: nat)
    requires Inv(s) && t < |s.threads| && s.threads[t].Exchange?
    ensures s.at[t] == NULL
  {
    hide LinkInv; hide EnteredInv; hide QueueInv;
    assert PcInv(s, t);
  }

  lemma ExchangeThreads(s: State, t: nat, u: nat)
    requires Inv(s) && t < |s.threads| && s.threads[t].Exchange? && u < |s.threads|
    ensures PcInv(Step(s, t), u)
  {
    assert PcInv(s, t) && PcInv(s, u);
    assert s.at[u] != NULL ==> s.done <= s.at[u] < |s.arrived|;
    hide LinkInv; hide EnteredInv; hide QueueInv;
  }

  lemma SetWaitStep(s: State, t: nat)
    requires Inv(s) && t < |s.threads| && s.threads[t].SetWait?
    ensures Inv(Step(s, t))
  {
    var s' := Step(s, t);
    assert PcInv(s, t);
    forall j | s'.done <= j < |s'.arrived| ensures LinkInv(s', j) { assert LinkInv(s, j); }
    forall u | 0 <= u < |s'.threads| ensures PcInv(s', u) { assert PcInv(s, u); }
  }

  /** The link goes to the thread in front, which is still in the queue. */
  lemma LinkLinks(s: State, t: nat, j: nat)
    requires Inv(s) && t < |s.threads| && s.threads[t].Link? && s.done <= j < |s.arrived|
    ensures LinkInv(Step(s, t), j)
  {
    assert PcInv(s, t) && LinkInv(s, s.at[t] - 1) && LinkInv(s, j);
    if j + 1 == s.at[t] { assert s.arrived[j] == s.threads[t].prev; } else { assert s.arrived[j] != s.threads[t].prev; }
  }

  lemma LinkStep(s: State, t: nat)
    requires Inv(s) && t < |s.threads| && s.threads[t].Link?
    ensures Inv(Step(s, t))
  {
    var s' := Step(s, t);
    assert PcInv(s, t);
    forall j | s'.done <= j < |s'.arrived| ensures LinkInv(s', j) { LinkLinks(s, t, j); }
    assert LinkInv(s, s.at[t] - 1);
    hide LinkInv;
    forall u | 0 <= u < |s'.threads| ensures PcInv(s', u) { assert PcInv(s, u); }
  }

  /** A thread that need not wait is at the front. */
  lemma SpinFront(s: State, t: nat)
    requires Inv(s) && t < |s.threads| && s.threads[t].Spin? && !s.m.wait[t]
    ensures s.at[t] == s.done < |s.arrived| && s.arrived[s.done] == t
  {
    hide LinkInv; hide EnteredInv;
    assert PcInv(s, t);
  }

  lemma SpinLinks(s: State, t: nat, j: nat)
    requires Inv(s) && t < |s.threads| && s.threads[t].Spin? && !s.m.wait[t] && s.done <= j < |s.arrived|
    ensures LinkInv(Step(s, t), j)
  {
    hide PcInv; hide EnteredInv;
    SpinFront(s, t);
    assert LinkInv(s, j);
    if j + 1 < |s.arrived| { assert s.arrived[j + 1] != t; }
  }

  lemma SpinThreads(s: State, t: nat, u: nat)
    requires Inv(s) && t < |s.threads| && s.threads[t].Spin? && !s.m.wait[t] && u < |s.threads|
    ensures PcInv(Step(s, t), u)
  {
    hide LinkInv; hide EnteredInv; hide QueueInv;
    SpinFront(s, t);
    assert PcInv(s, u) && PcInv(s, t);
    if s.threads[u].Signal? { NotFrontTwice(s, t, s.done + 1); }
  }

  lemma NotFrontTwice(s: State, t: nat, j: nat)
    requires Inv(s) && t < |s.threads| && s.at[t] == s.done < j < |s.arrived|
    ensures s.arrived[j] != t
  {
    hide LinkInv; hide EnteredInv; hide PcInv;
  }

  lemma SpinEnters(s: State, t: nat)
    requires Inv(s) && t < |s.threads| && s.threads[t].Spin? && !s.m.wait[t]
    ensures EnteredInv(Step(s, t))
  {
    hide LinkInv; hide PcInv; hide QueueInv;
    SpinFront(s, t);
    assert Step(s, t).entered == s.arrived[..s.done + 1];
  }

  /** The thread at the front goes in. */
  lemma SpinStep(s: State, t: nat)
    requires Inv(s) && t < |s.threads| && s.threads[t].Spin?
    ensures Inv(Step(s, t))
  {
    hide LinkInv; hide PcInv; hide EnteredInv; hide QueueInv;
    var s' := Step(s, t);
    if !s.m.wait[t] {
      SpinEnters(s, t);
      forall j | s'.done <= j < |s'.arrived| ensures LinkInv(s', j) { SpinLinks(s, t, j); }
      forall u | 0 <= u < |s'.threads| ensures PcInv(s', u) { SpinThreads(s, t, u); }
    }
  }

  lemma ClearStep(s: State, t: nat)
    requires Inv(s) && t < |s.threads| && s.threads[t].TryClear? && s.m.lock == t
    ensures Inv(Step(s, t))
  {
    var s' := Step(s, t);
    assert PcInv(s, t);
    assert s.at[t] == s.done && s.at[t] == |s.arrived| - 1;
    forall u | 0 <= u < |s'.threads| ensures PcInv(s', u) { assert PcInv(s, u); }
  }

  /** The wake-up goes to the thread behind, which has linked itself and spins. */
  lemma SignalThreads(s: State, t: nat, u: nat)
    requires Inv(s) && t < |s.threads| && s.threads[t].Signal? && u < |s.threads|
    ensures PcInv(Step(s, t), u)
  {
    assert PcInv(s, t) && PcInv(s, u);
    assert s.arrived[s.done] == t && s.at[s.threads[t].nx] == s.done + 1;
    assert u != t ==> s.at[u] != s.done;
    hide QueueInv; hide EnteredInv; hide LinkInv;
  }

  lemma SignalStep(s: State, t: nat)
    requires Inv(s) && t < |s.threads| && s.threads[t].Signal?
    ensures Inv(Step(s, t))
  {
    var s' := Step(s, t);
    assert PcInv(s, t);
    assert s.arrived[s.done] == t && s.at[s.threads[t].nx] == s.done + 1;
    forall j | s'.done <= j < |s'.arrived| ensures LinkInv(s', j) { assert LinkInv(s, j); assert s.arrived[j] != t; }
    forall u | 0 <= u < |s'.threads| ensures PcInv(s', u) { SignalThreads(s, t, u); }
    hide PcInv; hide LinkInv;
  }

  lemma StepInv(s: State, t: nat)
    requires Inv(s)
    ensures Inv(Step(s, t))
  {
    if t < |s.threads| {
      var pc := s.threads[t];
      if pc.Idle? { assert PcInv(s, t); OnlyMoves(s, t, Init); }
      else if pc.Init? { InitStep(s, t); }
      else if pc.Exchange? { ExchangeStep(s, t); }
      else if pc.SetWait? { SetWaitStep(s, t); }
      else if pc.Link? { LinkStep(s, t); }
      else if pc.Spin? { SpinStep(s, t); }
      else if pc.Signal? { SignalStep(s, t); }
      else if pc.TryClear? && s.m.lock == t { ClearStep(s, t); }
      else { LookInv(s, t); }
    }
  }

  lemma {:induction false} RunInv(n: nat, sched: seq<nat>)
    ensures Inv(Run(Start(n), sched))
    decreases |sched|
  {
    if sched == [] {
      StartInv(n);
    } else {
      RunInv(n, sched[..|sched| - 1]);
      StepInv(Run(Start(n), sched[..|sched| - 1]), sched[|sched| - 1]);
    }
  }

  // ------------------------------------------------------------------ theorems

  ghost predicate Reachable(n: nat, s: State) {
    exists sched :: s == Run(Start(n), sched)
  }

  lemma ReachableInv(n: nat, s: State)
    requires Reachable(n, s)
    ensures Inv(s)
  {
    var sched :| s == Run(Start(n), sched);
    RunInv(n, sched);
  }

  /** At most one thread has the lock, and threads get it strictly in the order of their
      exchanges, in every run. */
  lemma ExclusiveAndFifo(n: nat, s: State)
    requires Reachable(n, s)
    ensures forall t, u :: 0 <= t < u < |s.threads| ==>
      !((s.threads[t].Holding? || Releasing(s.threads[t])) && (s.threads[u].Holding? || Releasing(s.threads[u])))
    ensures s.entered <= s.arrived && s.done <= |s.entered| <= s.done + 1
    ensures forall t :: 0 <= t < |s.threads| && s.threads[t].Holding? ==>
      |s.entered| > 0 && s.entered[|s.entered| - 1] == t
  {
    ReachableInv(n, s);
    forall t | 0 <= t < |s.threads| && (s.threads[t].Holding? || Releasing(s.threads[t]))
      ensures s.done < |s.arrived| && s.arrived[s.done] == t
    {
      assert PcInv(s, t);
    }
  }

  /** A releaser that waits to be linked does not wait for nothing: the next thread has made
      its exchange and has not yet stored the link. */
  lemma ReleaseHasLinker(n: nat, s: State, t: nat)
    requires Reachable(n, s) && t < |s.threads| && s.threads[t].AwaitNext? && t < |s.m.next| && s.m.next[t] == NULL
    ensures exists u :: 0 <= u < |s.threads| && u != t && s.threads[u] in {SetWait(t), Link(t)}
  {
    ReachableInv(n, s);
    assert PcInv(s, t) && LinkInv(s, s.done);
    var u := s.arrived[s.done + 1];
    assert PcInv(s, u);
    assert s.threads[u] in {SetWait(t), Link(t)};
  }

  /** Once a thread has released the lock nobody else touches its node, so it can be reused. */
  lemma NodeIsOwn(n: nat, s: State, t: nat, u: nat)
    requires Reachable(n, s) && t < |s.threads| && u < |s.threads| && u != t
    requires s.threads[t].Idle? || s.threads[t].Init? || s.threads[t].Exchange?
    ensures |s.m.next| == |s.m.wait| == |Step(s, u).m.next| == |Step(s, u).m.wait| == |s.threads|
    ensures Step(s, u).m.next[t] == s.m.next[t] && Step(s, u).m.wait[t] == s.m.wait[t]
  {
    hide LinkInv; hide EnteredInv; hide Reachable; hide QueueInv;
    ReachableInv(n, s);
    assert PcInv(s, t) && PcInv(s, u);
    InQueue(s, t, u);
  }

  /** Those in the queue, in front of a thread or behind it, are not elsewhere. */
  lemma InQueue(s: State, t: nat, u: nat)
    requires Inv(s) && t < |s.threads| && u < |s.threads| && s.at[t] == NULL
    ensures s.threads[u].Link? ==> s.threads[u].prev != t
    ensures s.threads[u].Signal? ==> s.threads[u].nx != t
  {
    hide LinkInv; hide EnteredInv;
    assert PcInv(s, u);
  }

  /** The wake-up a waiting thread gets is for it alone: a thread leaves its spin only at the
      front of the queue. */
  lemma OnlyFrontProceeds(n: nat, s: State, t: nat)
    requires Reachable(n, s) && t < |s.threads| && s.threads[t].Spin?
    ensures t < |s.m.wait| && (!s.m.wait[t] <==> s.done < |s.arrived| && s.arrived[s.done] == t)
  {
    ReachableInv(n, s);
    assert PcInv(s, t);
  }

  /** When a thread gets the lock and when it is free again: an acquisition succeeds, at once or at
      the end of its wait, exactly when all that arrived before it have released; a release without
      a successor to signal goes through exactly when nobody has arrived behind it. */
  lemma GrantedExactly(n: nat, s: State, t: nat)
    requires Reachable(n, s) && t < |s.threads|
    ensures |Step(s, t).threads| == |s.threads| == |s.at|
    ensures s.threads[t].Exchange? ==> (Step(s, t).threads[t].Holding? <==> s.done == |s.arrived|)
    ensures s.threads[t].Spin? ==> (Step(s, t).threads[t].Holding? <==> s.at[t] == s.done)
    ensures s.threads[t].TryClear? ==> (Step(s, t).threads[t].Idle? <==> s.done + 1 == |s.arrived|)
  {
    hide LinkInv; hide EnteredInv;
    ReachableInv(n, s);
    assert PcInv(s, t);
  }
}
