/** The linked queue of mpsc/mpsc.c: any number of pushing threads and one consuming thread.  A
    push swaps the new node into `tail` and then links it, behind the old tail or as `head`.

    Each atomic access is one step and a run is any schedule.  Nodes are named by the order of
    their exchanges and memory is not reused; `bad` records an access to a freed node. */
module Mpsc {

  type Val = int
  const NULL := -1

  datatype Pusher = PIdle | Swap(v: Val) | Link(behind: int, k: nat)

  datatype Consumer =
    | CIdle
    | CasTail(p: nat)
    | CasHead(p: nat)
    | AwaitNext(p: nat)
    | StoreHead(p: nat, nx: nat)
    | FreeNode(p: nat)

  /** `log` lists the values in the order of the exchanges, `pusher` the threads that pushed them;
      the first `freed` nodes have been popped and freed. */
  datatype State = State(
    head: int, tail: int, next: seq<int>, bad: bool, freed: nat,
    threads: seq<Pusher>, cons: Consumer, log: seq<Val>, pusher: seq<nat>, out: seq<Val>)

  datatype Event = Push(t: nat, v: Val) | Consume

  function Touch(s: State, p: int): State { s.(bad := s.bad || p < s.freed) }

  function PushStep(s: State, t: nat, v: Val): State
    requires t < |s.threads| && |s.next| == |s.log|
  {
    match s.threads[t]
    case PIdle => s.(threads := s.threads[t := Swap(v)])
    case Swap(w) =>
      s.(tail := |s.log|, next := s.next + [NULL], log := s.log + [w], pusher := s.pusher + [t],
         threads := s.threads[t := Link(s.tail, |s.log|)])
    case Link(behind, k) =>
      var s1 := s.(threads := s.threads[t := PIdle]);
      if behind < 0 then s1.(head := k)
      else if behind < |s.next| then Touch(s1, behind).(next := s.next[behind := k])
      else s
  }

  /** queue_pop, which the caller enters only when queue_has_front says so. */
  function ConsumeStep(s: State): State
    requires |s.next| == |s.log|
  {
    match s.cons
    case CIdle => if s.head < 0 then s else s.(cons := CasTail(s.head))
    case CasTail(p) => if s.tail == p then s.(tail := NULL, cons := CasHead(p)) else s.(cons := AwaitNext(p))
    case CasHead(p) => s.(head := if s.head == p then NULL else s.head, cons := FreeNode(p))
    case AwaitNext(p) =>
      if p >= |s.next| then s
      else if s.next[p] < 0 then Touch(s, p) else Touch(s, p).(cons := StoreHead(p, s.next[p]))
    case StoreHead(p, nx) => s.(head := nx, cons := FreeNode(p))
    case FreeNode(p) =>
      if p >= |s.log| then s
      else Touch(s, p).(freed := p + 1, out := s.out + [s.log[p]], cons := CIdle)
  }

  function Step(s: State, ev: Event): State {
    if |s.next| != |s.log| then s
    else if ev.Consume? then ConsumeStep(s)
    else if ev.t < |s.threads| then PushStep(s, ev.t, ev.v)
    else s
  }

  function Init(n: nat): State {
    State(NULL, NULL, [], false, 0, seq(n, _ => PIdle), CIdle, [], [], [])
  }

  function Run(s: State, evs: seq<Event>): State
    decreases |evs|
  {
    if evs == [] then s else Step(Run(s, evs[..|evs| - 1]), evs[|evs| - 1])
  }

  // ------------------------------------------------------------------ invariant

  /** The oldest node that is not popped: a pop counts once `tail` or `head` has been moved. */
  function Front(s: State): nat { if s.cons.CasHead? || s.cons.FreeNode? then s.freed + 1 else s.freed }

  /** The thread that pushed node k has not linked it yet. */
  ghost predicate Pending(s: State, k: nat, behind: int) {
    k < |s.pusher| && s.pusher[k] < |s.threads| && s.threads[s.pusher[k]] == Link(behind, k)
  }

  /** The oldest node is `head`, or the thread that pushed it is about to make it so. */
  ghost predicate FrontInv(s: State) {
    var g := Front(s);
    var nobody := if s.cons.CasHead? then s.cons.p else NULL;
    && g <= |s.log|
    && s.tail == (if g < |s.log| then |s.log| - 1 else NULL)
    && (if g < |s.log| then s.head == g || (s.head == nobody && Pending(s, g, NULL)) else s.head == nobody)
  }

  /** Every later node is linked behind the one before it, or is about to be. */
  ghost predicate LinkInv(s: State, k: nat)
    requires |s.next| == |s.log|
  {
    0 < k < |s.log| && (s.next[k - 1] == k || (s.next[k - 1] == NULL && Pending(s, k, k - 1)))
  }

  /** A link still to be stored goes to a node that is not popped. */
  ghost predicate PushInv(s: State, t: nat)
    requires t < |s.threads| && |s.next| == |s.log|
  {
    s.threads[t].Link? ==>
      var behind, k := s.threads[t].behind, s.threads[t].k;
      && k < |s.pusher| == |s.log| && s.pusher[k] == t
      && (if k == Front(s) then behind == NULL && s.head != k
          else k > Front(s) && behind == k - 1 && s.next[k - 1] == NULL)
  }

  ghost predicate ConsumerInv(s: State)
    requires |s.next| == |s.log|
  {
    && (!s.cons.CIdle? ==> s.cons.p == s.freed < |s.log|)
    && (s.cons.CasTail? || s.cons.AwaitNext? || s.cons.StoreHead? ==> s.head == s.cons.p)
    && (s.cons.AwaitNext? || s.cons.StoreHead? ==> s.freed + 1 < |s.log|)
    && (s.cons.StoreHead? ==> s.cons.nx == s.freed + 1 && s.next[s.freed] == s.freed + 1)
  }

  ghost predicate Inv(s: State) {
    && !s.bad
    && |s.next| == |s.log| == |s.pusher|
    && s.freed <= |s.log| && s.out == s.log[..s.freed]
    && FrontInv(s)
    && ConsumerInv(s)
    && (forall k :: Front(s) < k < |s.log| ==> LinkInv(s, k))
    && (|s.log| > 0 ==> s.next[|s.log| - 1] == NULL)
    && (forall t :: 0 <= t < |s.threads| ==> PushInv(s, t))
  }

  lemma InitInv(n: nat)
    ensures Inv(Init(n))
  {
  }

  // ------------------------------------------------------------------ steps

  lemma SwapInv(s: State, t: nat, v: Val)
    requires Inv(s) && t < |s.threads| && s.threads[t].Swap?
    ensures Inv(PushStep(s, t, v))
  {
    var s' := PushStep(s, t, v);
    assert s'.threads[t] == Link(s.tail, |s.log|) && s'.pusher[|s.log|] == t;
    forall k | Front(s') < k < |s'.log| ensures LinkInv(s', k) { if k < |s.log| { assert LinkInv(s, k); } }
    forall u | 0 <= u < |s'.threads| ensures PushInv(s', u) { assert PushInv(s, u); }
  }

  lemma LinkStep(s: State, t: nat, v: Val)
    requires Inv(s) && t < |s.threads| && s.threads[t].Link?
    ensures Inv(PushStep(s, t, v))
  {
    var s' := PushStep(s, t, v);
    assert PushInv(s, t);
    forall k | Front(s') < k < |s'.log| ensures LinkInv(s', k) { assert LinkInv(s, k); }
    forall u | 0 <= u < |s'.threads| ensures PushInv(s', u) { assert PushInv(s, u); }
  }

  lemma CallInv(s: State, t: nat, v: Val)
    requires Inv(s) && t < |s.threads| && s.threads[t].PIdle?
    ensures Inv(PushStep(s, t, v))
  {
    var s' := PushStep(s, t, v);
    forall k | Front(s') < k < |s'.log| ensures LinkInv(s', k) { assert LinkInv(s, k); }
    forall u | 0 <= u < |s'.threads| ensures PushInv(s', u) { assert PushInv(s, u); }
  }

  /** Taking the last node: whoever swaps next finds no old tail and will set `head` itself. */
  lemma EmptyInv(s: State)
    requires Inv(s) && (s.cons.CasTail? || s.cons.CasHead?)
    ensures Inv(ConsumeStep(s))
  {
    var s' := ConsumeStep(s);
    forall k | Front(s') < k < |s'.log| ensures LinkInv(s', k) { assert LinkInv(s, k); }
    forall u | 0 <= u < |s'.threads| ensures PushInv(s', u) { assert PushInv(s, u); }
  }

  lemma AdvanceInv(s: State)
    requires Inv(s) && (s.cons.AwaitNext? || s.cons.StoreHead?)
    ensures Inv(ConsumeStep(s))
  {
    var s' := ConsumeStep(s);
    assert LinkInv(s, s.freed + 1);
    forall k | Front(s') < k < |s'.log| ensures LinkInv(s', k) { assert LinkInv(s, k); }
    forall u | 0 <= u < |s'.threads| ensures PushInv(s', u) { assert PushInv(s, u); }
  }

  lemma EndsInv(s: State)
    requires Inv(s) && (s.cons.CIdle? || s.cons.FreeNode?)
    ensures Inv(ConsumeStep(s))
  {
    var s' := ConsumeStep(s);
    forall k | Front(s') < k < |s'.log| ensures LinkInv(s', k) { assert LinkInv(s, k); }
    forall u | 0 <= u < |s'.threads| ensures PushInv(s', u) { assert PushInv(s, u); }
  }

  lemma StepInv(s: State, ev: Event)
    requires Inv(s)
    ensures Inv(Step(s, ev))
  {
    if ev.Consume? {
      if s.cons.CasTail? || s.cons.CasHead? { EmptyInv(s); }
      else if s.cons.AwaitNext? || s.cons.StoreHead? { AdvanceInv(s); }
      else { EndsInv(s); }
    }
    else if ev.t < |s.threads| {
      if s.threads[ev.t].PIdle? { CallInv(s, ev.t, ev.v); }
      else if s.threads[ev.t].Swap? { SwapInv(s, ev.t, ev.v); }
      else { LinkStep(s, ev.t, ev.v); }
    }
  }

  lemma {:induction false} RunInv(n: nat, evs: seq<Event>)
    ensures Inv(Run(Init(n), evs))
    decreases |evs|
  {
    if evs == [] {
      InitInv(n);
    } else {
      RunInv(n, evs[..|evs| - 1]);
      StepInv(Run(Init(n), evs[..|evs| - 1]), evs[|evs| - 1]);
    }
  }

  // ------------------------------------------------------------------ theorems

  ghost predicate Reachable(n: nat, s: State) {
    exists evs :: s == Run(Init(n), evs)
  }

  lemma ReachableInv(n: nat, s: State)
    requires Reachable(n, s)
    ensures Inv(s)
  {
    var evs :| s == Run(Init(n), evs);
    RunInv(n, evs);
  }

  /** In every run items come out in the order of the tail exchanges, none lost and none twice,
      and no freed node is ever touched; what queue_front reads is the oldest item. */
  lemma FifoByExchange(n: nat, s: State)
    requires Reachable(n, s)
    ensures !s.bad
    ensures s.freed <= |s.log| && s.out == s.log[..s.freed]
    ensures s.cons.CIdle? && s.head != NULL ==> s.head == s.freed < |s.log|
  {
    ReachableInv(n, s);
  }

  /** Between pops, queue_has_front says no exactly when the queue is empty or the thread that
      pushed the oldest item has not stored its link yet. */
  lemma NoFrontExactlyWhen(n: nat, s: State)
    requires Reachable(n, s) && s.cons.CIdle?
    ensures s.head == NULL <==>
      s.freed == |s.log| || exists t :: 0 <= t < |s.threads| && s.threads[t] == Link(NULL, s.freed)
  {
    ReachableInv(n, s);
    if s.head == NULL && s.freed < |s.log| {
      assert s.threads[s.pusher[s.freed]] == Link(NULL, s.freed);
    }
    if t :| 0 <= t < |s.threads| && s.threads[t] == Link(NULL, s.freed) {
      assert PushInv(s, t);
    }
  }

  /** No thread that still has a link to store refers to a node that was popped. */
  lemma PendingLinksAreLive(n: nat, s: State, t: nat)
    requires Reachable(n, s) && t < |s.threads| && s.threads[t].Link?
    ensures s.threads[t].behind == NULL || s.freed <= s.threads[t].behind < |s.log|
    ensures s.threads[t].behind == NULL ==> s.threads[t].k == Front(s)
  {
    ReachableInv(n, s);
    assert PushInv(s, t);
  }

  /** The consumer that waits for a link does not wait for nothing. */
  lemma AwaitedLinkComes(n: nat, s: State)
    requires Reachable(n, s) && s.cons.AwaitNext? && s.cons.p < |s.next| && s.next[s.cons.p] == NULL
    ensures exists t :: 0 <= t < |s.threads| && s.threads[t] == Link(s.cons.p, s.cons.p + 1)
  {
    ReachableInv(n, s);
    assert LinkInv(s, s.freed + 1);
    assert s.threads[s.pusher[s.freed + 1]] == Link(s.freed, s.freed + 1);
  }

  // ------------------------------------------------------------------ what the callers gave

  /** The values given to the pushes that thread t has begun in a run, told from the schedule. */
  ghost function Begun(o: State, evs: seq<Event>, t: nat): seq<Val>
    decreases |evs|
  {
    if evs == [] then []
    else
      var s, ev := Run(o, evs[..|evs| - 1]), evs[|evs| - 1];
      var before := Begun(o, evs[..|evs| - 1], t);
      if ev.Push? && ev.t == t && t < |s.threads| && s.threads[t].PIdle? then before + [ev.v] else before
  }

  /** The values in the queue that thread t pushed. */
  ghost function Mine(log: seq<Val>, pusher: seq<nat>, t: nat): seq<Val>
    requires |log| == |pusher|
    decreases |log|
  {
    if log == [] then []
    else
      var last := |log| - 1;
      Mine(log[..last], pusher[..last], t) + if pusher[last] == t then [log[last]] else []
  }

  /** The value of a push that has not got to its exchange. */
  function Waiting(pc: Pusher): seq<Val> { if pc.Swap? then [pc.v] else [] }

  lemma MineAppend(log: seq<Val>, pusher: seq<nat>, v: Val, u: nat, t: nat)
    requires |log| == |pusher|
    ensures Mine(log + [v], pusher + [u], t) == Mine(log, pusher, t) + if u == t then [v] else []
  {
    assert (log + [v])[..|log|] == log && (pusher + [u])[..|log|] == pusher;
  }

  lemma BegunStep(s: State, ev: Event, t: nat)
    requires Inv(s) && t < |s.threads|
    ensures var s' := Step(s, ev);
      && |s'.threads| == |s.threads| && |s'.log| == |s'.pusher|
      && Mine(s'.log, s'.pusher, t) + Waiting(s'.threads[t]) == Mine(s.log, s.pusher, t) + Waiting(s.threads[t])
           + if ev.Push? && ev.t == t && s.threads[t].PIdle? then [ev.v] else []
  {
    hide Inv; hide Mine; hide PushStep; hide ConsumeStep;
    SameLength(s);
    if ev.Push? && ev.t < |s.threads| { PushMine(s, ev.t, ev.v, t); } else if ev.Consume? { ConsumeKeeps(s); }
  }

  lemma SameLength(s: State)
    requires Inv(s)
    ensures |s.next| == |s.log| == |s.pusher|
  {
  }

  lemma ConsumeKeeps(s: State)
    requires |s.next| == |s.log|
    ensures var s' := ConsumeStep(s); s'.log == s.log && s'.pusher == s.pusher && s'.threads == s.threads
  {
  }

  lemma PushMine(s: State, u: nat, v: Val, t: nat)
    requires |s.next| == |s.log| == |s.pusher| && u < |s.threads| && t < |s.threads|
    ensures var s' := PushStep(s, u, v);
      && |s'.threads| == |s.threads| && |s'.log| == |s'.pusher|
      && Mine(s'.log, s'.pusher, t) + Waiting(s'.threads[t]) == Mine(s.log, s.pusher, t) + Waiting(s.threads[t])
           + if u == t && s.threads[t].PIdle? then [v] else []
  {
    hide Mine;
    if s.threads[u].Swap? { MineAppend(s.log, s.pusher, s.threads[u].v, u, t); }
  }

  /** In every run the queue holds, of each thread, exactly the values its pushes were given, in the
      order in which it pushed them; only the last may be missing, while its push is on its way. */
  lemma {:induction false} PushedAreGiven(n: nat, evs: seq<Event>, t: nat)
    requires t < n
    ensures var s := Run(Init(n), evs);
      && |s.threads| == n && |s.log| == |s.pusher|
      && Begun(Init(n), evs, t) == Mine(s.log, s.pusher, t) + Waiting(s.threads[t])
    decreases |evs|
  {
    hide Step; hide Inv; hide Mine;
    if evs == [] {
      assert Mine([], [], t) == [] by { NothingPushed(t); }
    } else {
      var prev := evs[..|evs| - 1];
      RunInv(n, prev);
      PushedAreGiven(n, prev, t);
      BegunStep(Run(Init(n), prev), evs[|evs| - 1], t);
    }
  }

  lemma NothingPushed(t: nat)
    ensures Mine([], [], t) == []
  {
  }

  /** A pop takes the oldest item: once it has begun, it ends with that item delivered, and it
      begins whenever queue_has_front says yes. */
  lemma PopDelivers(n: nat, s: State)
    requires Reachable(n, s)
    ensures s.cons.CIdle? ==> (Step(s, Consume).cons.CIdle? <==> s.head == NULL)
    ensures !s.cons.CIdle? ==> s.cons.p == |s.out| < |s.log|
    ensures !s.cons.CIdle? && Step(s, Consume).cons.CIdle? ==> Step(s, Consume).out == s.out + [s.log[|s.out|]]
  {
    ReachableInv(n, s);
  }
}
