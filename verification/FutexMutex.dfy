/** The futex mutex of channel/channel.c: a word that is 0 when unlocked, 1 when locked with
    no waiter known, 2 when there may be waiters.  Each atomic access and each futex call is one
    step and a run is any schedule of any number of threads; a sleeper may also wake up for no
    reason. */
module FutexMutex {

  const UNLOCKED := 0
  const LOCKED_NO_WAITER := 1
  const LOCKED := 2

  datatype Pc =
    | Idle
    // mutex_lock
    | TryFast
    | Mark
    | Wait
    | Asleep
    | Retry
    | Holding
    // mutex_unlock
    | Clear
    | Wake

  datatype State = State(val: int, threads: seq<Pc>)

  /** Thread t makes its next step; `who` is the sleeper that futex_wake picks. */
  datatype Event = Event(t: nat, who: nat)

  function Goto(s: State, t: nat, pc: Pc): State
    requires t < |s.threads|
  {
    s.(threads := s.threads[t := pc])
  }

  /** The slow path: mark the lock as having waiters unless it is already. */
  function Slow(val: int): Pc { if val == LOCKED then Wait else Mark }

  predicate Sleeps(threads: seq<Pc>) { exists u :: 0 <= u < |threads| && threads[u].Asleep? }

  function Step(s: State, ev: Event): State {
    if ev.t >= |s.threads| then s
    else
      var t := ev.t;
      match s.threads[t]
      case Idle => Goto(s, t, TryFast)
      case TryFast =>
        if s.val == UNLOCKED then Goto(s.(val := LOCKED_NO_WAITER), t, Holding) else Goto(s, t, Slow(s.val))
      case Mark =>
        if s.val == UNLOCKED then Goto(s, t, Retry)
        else Goto(s.(val := if s.val == LOCKED_NO_WAITER then LOCKED else s.val), t, Wait)
      case Wait => Goto(s, t, if s.val == LOCKED then Asleep else Retry)
      case Asleep => Goto(s, t, Retry)
      case Retry =>
        if s.val == UNLOCKED then Goto(s.(val := LOCKED), t, Holding) else Goto(s, t, Slow(s.val))
      case Holding =>
        Goto(s.(val := s.val - 1), t, if s.val != LOCKED_NO_WAITER then Clear else Idle)
      case Clear => Goto(s.(val := UNLOCKED), t, Wake)
      case Wake =>
        if ev.who < |s.threads| && s.threads[ev.who].Asleep? then Goto(Goto(s, ev.who, Retry), t, Idle)
        else if Sleeps(s.threads) then s
        else Goto(s, t, Idle)
  }

  function Init(n: nat): State { State(UNLOCKED, seq(n, _ => Idle)) }

  function Run(s: State, evs: seq<Event>): State
    decreases |evs|
  {
    if evs == [] then s else Step(Run(s, evs[..|evs| - 1]), evs[|evs| - 1])
  }

  // ------------------------------------------------------------------ invariant

  /** Holds the lock, or has begun to give it back and not yet cleared the word. */
  predicate Owns(pc: Pc) { pc.Holding? || pc.Clear? }

  /** Will see to it that the sleepers are not forgotten: owes a wake-up, or is awake on the
      slow path and will put 2 in the word before it sleeps or takes the lock. */
  predicate Responsible(pc: Pc) { pc.Clear? || pc.Wake? || pc.Mark? || pc.Wait? || pc.Retry? }

  predicate SomeoneResponsible(threads: seq<Pc>) { exists u :: 0 <= u < |threads| && Responsible(threads[u]) }

  ghost predicate OneOwner(threads: seq<Pc>) {
    forall t, u :: 0 <= t < u < |threads| && Owns(threads[t]) ==> !Owns(threads[u])
  }

  ghost predicate SomeOwner(threads: seq<Pc>) { exists t :: 0 <= t < |threads| && Owns(threads[t]) }

  ghost predicate Inv(s: State) {
    && UNLOCKED <= s.val <= LOCKED
    && OneOwner(s.threads)
    && (s.val == UNLOCKED <==> !SomeOwner(s.threads))
    && (Sleeps(s.threads) ==> s.val == LOCKED || SomeoneResponsible(s.threads))
  }

  /** A step changes at most the mover's ownership, and it becomes an owner only when the word is 0. */
  lemma OwnerMoves(s: State, ev: Event)
    requires Inv(s) && ev.t < |s.threads|
    ensures var s' := Step(s, ev);
      && |s'.threads| == |s.threads|
      && (forall u :: 0 <= u < |s.threads| && u != ev.t ==> Owns(s'.threads[u]) == Owns(s.threads[u]))
      && (Owns(s'.threads[ev.t]) && !Owns(s.threads[ev.t]) ==> s.val == UNLOCKED && s'.val != UNLOCKED)
      && (Owns(s.threads[ev.t]) == Owns(s'.threads[ev.t]) ==> (s.val == UNLOCKED <==> s'.val == UNLOCKED))
      && (Owns(s.threads[ev.t]) && !Owns(s'.threads[ev.t]) ==> s'.val == UNLOCKED)
      && UNLOCKED <= s'.val <= LOCKED
  {
    assert Owns(s.threads[ev.t]) ==> SomeOwner(s.threads);
  }

  lemma OwnerStep(s: State, ev: Event)
    requires Inv(s)
    ensures var s' := Step(s, ev);
      UNLOCKED <= s'.val <= LOCKED && OneOwner(s'.threads) && (s'.val == UNLOCKED <==> !SomeOwner(s'.threads))
  {
    var s', t := Step(s, ev), ev.t;
    if t < |s.threads| {
      OwnerMoves(s, ev);
      hide Step; hide Owns;
      if s.val != UNLOCKED && !Owns(s.threads[t]) {
        var o :| 0 <= o < |s.threads| && Owns(s.threads[o]);
        assert Owns(s'.threads[o]);
      }
    }
  }

  lemma WakeStep(s: State, ev: Event)
    requires Inv(s)
    ensures var s' := Step(s, ev); Sleeps(s'.threads) ==> s'.val == LOCKED || SomeoneResponsible(s'.threads)
  {
    var s' := Step(s, ev);
    if ev.t < |s.threads| && Sleeps(s'.threads) && s'.val != LOCKED {
      var t := ev.t;
      var z :| 0 <= z < |s'.threads| && s'.threads[z].Asleep?;
      if Responsible(s'.threads[t]) {
      } else if s.threads[t].Wake? {
        assert s.threads[z].Asleep?;
        assert Responsible(s'.threads[ev.who]);
      } else {
        assert z != t && s.threads[z].Asleep?;
        assert s.val != LOCKED;
        var r :| 0 <= r < |s.threads| && Responsible(s.threads[r]);
        assert r != t ==> s'.threads[r] == s.threads[r];
      }
    }
  }

  lemma {:induction false} RunInv(n: nat, evs: seq<Event>)
    ensures Inv(Run(Init(n), evs))
    decreases |evs|
  {
    if evs != [] {
      RunInv(n, evs[..|evs| - 1]);
      OwnerStep(Run(Init(n), evs[..|evs| - 1]), evs[|evs| - 1]);
      WakeStep(Run(Init(n), evs[..|evs| - 1]), evs[|evs| - 1]);
    }
  }

  // ------------------------------------------------------------------ theorems

  ghost predicate Reachable(n: nat, s: State) {
    exists evs :: s == Run(Init(n), evs)
  }

  /** At most one thread holds the mutex, in every run, and the word is 0 exactly when nobody
      holds it or is in the middle of giving it back. */
  lemma MutualExclusion(n: nat, s: State)
    requires Reachable(n, s)
    ensures forall t, u :: 0 <= t < u < |s.threads| ==> !(s.threads[t].Holding? && s.threads[u].Holding?)
    ensures s.val == UNLOCKED <==> forall t :: 0 <= t < |s.threads| ==> !s.threads[t].Holding? && !s.threads[t].Clear?
    ensures forall t :: 0 <= t < |s.threads| && s.threads[t].Holding? ==> s.val in {LOCKED_NO_WAITER, LOCKED}
  {
    var evs :| s == Run(Init(n), evs);
    RunInv(n, evs);
    forall t | 0 <= t < |s.threads| && s.threads[t].Holding? ensures s.val in {LOCKED_NO_WAITER, LOCKED} {
      assert Owns(s.threads[t]);
    }
  }

  /** No wake-up is lost: while a thread sleeps, the word is 2, or an unlocker still owes a
      wake-up, or an awake thread on the slow path will put 2 there. */
  lemma NoLostWakeup(n: nat, s: State, t: nat)
    requires Reachable(n, s) && t < |s.threads| && s.threads[t].Asleep?
    ensures s.val == LOCKED || exists u :: 0 <= u < |s.threads| && u != t && Responsible(s.threads[u])
  {
    var evs :| s == Run(Init(n), evs);
    RunInv(n, evs);
    if s.val != LOCKED {
      assert Sleeps(s.threads);
      var u :| 0 <= u < |s.threads| && Responsible(s.threads[u]);
      assert u != t;
    }
  }

  /** What being responsible comes to: an unlocker's wake-up rouses a sleeper if there is one,
      and a thread awake on the slow path sleeps or takes the lock only with the word at 2. */
  lemma ResponsibilityIsKept(s: State, ev: Event)
    requires Inv(s) && ev.t < |s.threads| && Responsible(s.threads[ev.t])
    ensures var s', pc, pc' := Step(s, ev), s.threads[ev.t], Step(s, ev).threads[ev.t];
      && (Responsible(pc') || pc'.Asleep? || pc'.Holding? || (pc.Wake? && pc'.Idle?))
      && (pc'.Asleep? || pc'.Holding? ==> s'.val == LOCKED)
      && (pc.Wake? && pc'.Idle? && Sleeps(s.threads) ==>
            ev.who < |s.threads| && s.threads[ev.who].Asleep? && s'.threads[ev.who].Retry?)
  {
  }

  /** A thread's attempt to take the mutex succeeds exactly when no thread holds it or is in the
      middle of giving it back. */
  lemma TakenExactlyWhenFree(n: nat, s: State, ev: Event)
    requires Reachable(n, s) && ev.t < |s.threads| && (s.threads[ev.t].TryFast? || s.threads[ev.t].Retry?)
    ensures |Step(s, ev).threads| == |s.threads|
    ensures Step(s, ev).threads[ev.t].Holding? <==>
      forall t :: 0 <= t < |s.threads| ==> !s.threads[t].Holding? && !s.threads[t].Clear?
  {
    hide Reachable;
    MutualExclusion(n, s);
  }
}
