/** The timer table of lf-timer/lf_timer.c: any number of threads allocate, set, reset,
    cancel and free timers and move the clock, while any number of threads look for due
    timers.  `earliest` is a hint: a thread whose clock has not reached it does not scan.

    Each atomic access is one step and a run is any schedule.  A callback is the business of
    its caller: whatever it does to timers can be done by some thread of the schedule. */
module LfTimer {

  const INVALID: nat := 0xFFFF_FFFF_FFFF_FFFF

  /** How an activation of a timer ended. */
  datatype End = Live | Fired(at: nat) | WasReset | Cancelled | Reallocated

  /** One activation: a successful set or reset; `loose` says that the timer was on the free
      list when it began, or that a call to free it had already found it inactive. */
  datatype Activation = Activation(timer: nat, exp: nat, end: End, loose: bool)

  /** A scan in progress: entries base..base+|ahead| have been read but not looked at. */
  datatype Scan = Scan(now: nat, top: nat, base: nat, ahead: seq<nat>, low: nat)

  datatype Pc =
    | Idle
    // update_expiration: `active` says which state of the timer it expects
    | CheckIdx(i: nat, exp: nat, active: bool)
    | LoadExp(i: nat, exp: nat, active: bool)
    | CasExp(i: nat, exp: nat, active: bool, seen: nat)
    // update_earliest
    | LoadEarliest(exp: nat)
    | CasEarliest(exp: nat, seen: nat)
    // lf_timer_expire
    | ReadNow
    | Test(now: nat)
    | ResetEarliest(now: nat)
    | ReadTop(now: nat)
    | Scanning(sc: Scan)
    | ExpireLoad(sc: Scan, p: nat)
    | ExpireCas(sc: Scan, p: nat, seen: nat)
    // lf_timer_tick_set
    | TickLoad(tick: nat)
    | TickCas(tick: nat, seen: nat)
    // lf_timer_free
    | FreeCheck(i: nat)
    | FreeLoad(i: nat)
    | FreePush(i: nat)

  /** The global table; `free` is the list of free timers, head first. */
  datatype Table = Table(max: nat, earliest: nat, current: nat, hi: nat, exps: seq<nat>, free: seq<nat>)

  /** `acts` records all activations and `which` the one a timer is in, -1 for none; `told` is what
      a thread's last set, reset or cancel answers its caller. */
  datatype State = State(
    tab: Table, acts: seq<Activation>, which: seq<int>, told: map<nat, bool>, threads: seq<Pc>)

  datatype Cmd = Set(i: nat, exp: nat) | Reset(i: nat, exp: nat) | Cancel(i: nat)
               | Expire | Tick(tick: nat) | Alloc | Free(i: nat)
  datatype Event = Event(t: nat, cmd: Cmd)

  // ------------------------------------------------------------------ steps

  function Goto(s: State, t: nat, pc: Pc): State
    requires t < |s.threads|
  {
    s.(threads := s.threads[t := pc])
  }

  /** A set, reset or cancel of thread t has come to its answer. */
  function Answer(s: State, t: nat, ok: bool, pc: Pc): State
    requires t < |s.threads|
  {
    s.(told := s.told[t := ok], threads := s.threads[t := pc])
  }

  function Min(a: nat, b: nat): nat { if a < b then a else b }

  predicate Sized(s: State) {
    |s.tab.exps| == s.tab.max + 4 && |s.which| == s.tab.max && s.tab.hi <= s.tab.max
  }

  /** Timer i's expiration becomes INVALID and the activation it was in ends. */
  function Ended(s: State, i: nat, end: End): State
    requires Sized(s) && i < s.tab.max
  {
    var a := s.which[i];
    s.(tab := s.tab.(exps := s.tab.exps[i := INVALID]), which := s.which[i := -1],
       acts := if 0 <= a < |s.acts| then s.acts[a := s.acts[a].(end := end)] else s.acts)
  }

  /** Timer i is on the free list, or about to be put there. */
  predicate Loose(s: State, i: nat) {
    i in s.tab.free || exists t :: 0 <= t < |s.threads| && s.threads[t] == FreePush(i)
  }

  function Begun(s: State, i: nat, exp: nat): State
    requires Sized(s) && i < s.tab.max
  {
    s.(tab := s.tab.(exps := s.tab.exps[i := exp]), which := s.which[i := |s.acts|],
       acts := s.acts + [Activation(i, exp, Live, Loose(s, i))])
  }

  /** Writes timer i's expiration: ends the activation it was in, and begins one if exp is valid. */
  function Write(s: State, i: nat, exp: nat, end: End): State
    requires Sized(s) && i < s.tab.max
  {
    if exp == INVALID then Ended(s, i, end) else Begun(Ended(s, i, end), i, exp)
  }

  /** A call begins; lf_timer_alloc is a single step. */
  function Call(s: State, t: nat, cmd: Cmd): State
    requires Sized(s) && t < |s.threads|
  {
    match cmd
    case Set(i, exp) => if exp < INVALID then Goto(s, t, CheckIdx(i, exp, false)) else Answer(s, t, false, Idle)
    case Reset(i, exp) => if exp < INVALID then Goto(s, t, CheckIdx(i, exp, true)) else Answer(s, t, false, Idle)
    case Cancel(i) => Goto(s, t, CheckIdx(i, INVALID, true))
    case Expire => Goto(s, t, ReadNow)
    case Tick(tick) => if tick < INVALID then Goto(s, t, TickLoad(tick)) else s
    case Free(i) => Goto(s, t, FreeCheck(i))
    case Alloc =>
      if s.tab.free == [] || s.tab.free[0] >= s.tab.max then s
      else
        var i := s.tab.free[0];
        var s1 := Write(s, i, INVALID, Reallocated);
        s1.(tab := s1.tab.(free := s.tab.free[1..], hi := if s.tab.hi < i + 1 then i + 1 else s.tab.hi))
  }

  function EndOf(pc: Pc): End
    requires pc.CasExp?
  {
    if pc.exp == INVALID then Cancelled else WasReset
  }

  function UpdateStep(s: State, t: nat): State
    requires Sized(s) && t < |s.threads|
  {
    var tab := s.tab;
    match s.threads[t]
    case CheckIdx(i, exp, active) =>
      if i >= tab.hi then Answer(s, t, false, Idle) else Goto(s, t, LoadExp(i, exp, active))
    case LoadExp(i, exp, active) =>
      if i >= tab.max then s
      else if active == (tab.exps[i] == INVALID) then Answer(s, t, false, Idle)
      else Goto(s, t, CasExp(i, exp, active, tab.exps[i]))
    case CasExp(i, exp, active, seen) =>
      if i >= tab.max then s
      else if tab.exps[i] == seen then
        Answer(Write(s, i, exp, EndOf(s.threads[t])), t, true, if exp == INVALID then Idle else LoadEarliest(exp))
      else Goto(s, t, LoadExp(i, exp, active))
    case LoadEarliest(exp) =>
      if exp >= tab.earliest then Goto(s, t, Idle) else Goto(s, t, CasEarliest(exp, tab.earliest))
    case CasEarliest(exp, seen) =>
      if tab.earliest == seen then Goto(s.(tab := tab.(earliest := exp)), t, Idle)
      else Goto(s, t, LoadEarliest(exp))
    case TickLoad(tick) =>
      if tick <= tab.current then Goto(s, t, Idle) else Goto(s, t, TickCas(tick, tab.current))
    case TickCas(tick, seen) =>
      if tab.current == seen then Goto(s.(tab := tab.(current := tick)), t, Idle)
      else if tick <= tab.current then Goto(s, t, Idle)
      else Goto(s, t, TickCas(tick, tab.current))
    case FreeCheck(i) =>
      if i >= tab.hi then Goto(s, t, Idle) else Goto(s, t, FreeLoad(i))
    case FreeLoad(i) =>
      if i >= tab.max then s
      else if tab.exps[i] != INVALID then Goto(s, t, Idle) else Goto(s, t, FreePush(i))
    case FreePush(i) => Goto(s.(tab := tab.(free := [i] + tab.free)), t, Idle)
    case _ => s
  }

  /** The scan reads ahead two entries at a time, as the unrolled loop does, and looks at
      entry base next. */
  predicate ReadsAhead(sc: Scan) { sc.base % 2 == 0 && |sc.ahead| < 4 }

  function Looked(sc: Scan): Scan
    requires sc.ahead != []
  {
    sc.(base := sc.base + 1, ahead := sc.ahead[1..])
  }

  function ExpireStep(s: State, t: nat): State
    requires Sized(s) && t < |s.threads|
  {
    var tab := s.tab;
    match s.threads[t]
    case ReadNow => Goto(s, t, Test(tab.current))
    case Test(now) =>
      if tab.earliest <= now then Goto(s, t, ResetEarliest(now)) else Goto(s, t, Idle)
    case ResetEarliest(now) => Goto(s.(tab := tab.(earliest := INVALID)), t, ReadTop(now))
    case ReadTop(now) => Goto(s, t, Scanning(Scan(now, tab.hi, 0, [], INVALID)))
    case Scanning(sc) =>
      if ReadsAhead(sc) then
        if sc.base + |sc.ahead| < |tab.exps| then
          Goto(s, t, Scanning(sc.(ahead := sc.ahead + [tab.exps[sc.base + |sc.ahead|]])))
        else s
      else if sc.ahead == [] then s
      else if sc.ahead[0] <= sc.now then
        if sc.base >= sc.top then Goto(s, t, LoadEarliest(sc.low))
        else Goto(s, t, ExpireLoad(Looked(sc), sc.base))
      else Goto(s, t, Scanning(Looked(sc).(low := Min(sc.low, sc.ahead[0]))))
    case ExpireLoad(sc, p) =>
      if p >= tab.max then s
      else if tab.exps[p] > sc.now then Goto(s, t, Scanning(sc))
      else Goto(s, t, ExpireCas(sc, p, tab.exps[p]))
    case ExpireCas(sc, p, seen) =>
      if p >= tab.max then s
      else if tab.exps[p] == seen then Goto(Write(s, p, INVALID, Fired(sc.now)), t, Scanning(sc))
      else Goto(s, t, ExpireLoad(sc, p))
    case _ => s
  }

  predicate ExpirePc(pc: Pc) {
    pc.ReadNow? || pc.Test? || pc.ResetEarliest? || pc.ReadTop? || pc.Scanning? || pc.ExpireLoad? || pc.ExpireCas?
  }

  function Step(s: State, ev: Event): State {
    if !(Sized(s) && ev.t < |s.threads|) then s
    else if s.threads[ev.t].Idle? then Call(s, ev.t, ev.cmd)
    else if ExpirePc(s.threads[ev.t]) then ExpireStep(s, ev.t)
    else UpdateStep(s, ev.t)
  }

  function Init(max: nat, n: nat): State {
    State(Table(max, INVALID, 0, 0, seq(max + 4, _ => 0), seq(max, i => i)), [], seq(max, _ => -1), map[],
          seq(n, _ => Idle))
  }

  function Run(s: State, evs: seq<Event>): State
    decreases |evs|
  {
    if evs == [] then s else Step(Run(s, evs[..|evs| - 1]), evs[|evs| - 1])
  }

  // ------------------------------------------------------------------ invariant

  ghost predicate TableInv(tab: Table) {
    && |tab.exps| == tab.max + 4
    && tab.hi <= tab.max
    && tab.earliest <= INVALID && tab.current < INVALID
    && (forall i :: 0 <= i < |tab.exps| ==> tab.exps[i] <= INVALID)
    && (forall i :: tab.hi <= i < |tab.exps| ==> tab.exps[i] == 0)
  }

  /** Timers that were never allocated come last on the free list, in order. */
  ghost predicate FreeInv(tab: Table) {
    && tab.hi <= tab.max && |tab.free| >= tab.max - tab.hi
    && (forall k :: 0 <= k < |tab.free| - (tab.max - tab.hi) ==> tab.free[k] < tab.hi)
    && (forall k :: |tab.free| - (tab.max - tab.hi) <= k < |tab.free| ==> tab.free[k] == tab.max - (|tab.free| - k))
  }

  predicate IsLive(act: Activation, i: nat, exp: nat) { act.timer == i && act.exp == exp && act.end.Live? }

  /** A timer in the table is active exactly when it is in a live activation, with that expiration. */
  ghost predicate ActsInv(tab: Table, acts: seq<Activation>, which: seq<int>) {
    && |which| == tab.max <= |tab.exps|
    && (forall i :: 0 <= i < tab.max && which[i] != -1 ==>
          0 <= which[i] < |acts| && IsLive(acts[which[i]], i, tab.exps[i]) && i < tab.hi)
    && (forall i :: 0 <= i < tab.hi <= tab.max ==> (which[i] == -1 <==> tab.exps[i] == INVALID))
    && (forall a :: 0 <= a < |acts| && acts[a].end.Live? ==> acts[a].timer < tab.max && which[acts[a].timer] == a)
    && (forall a :: 0 <= a < |acts| && acts[a].end.Fired? ==> acts[a].exp <= acts[a].end.at <= tab.current)
    && (forall a :: 0 <= a < |acts| ==> acts[a].timer < tab.max && acts[a].exp < INVALID)
  }

  ghost predicate ScanInv(tab: Table, sc: Scan) {
    && sc.now <= tab.current
    && sc.top <= tab.hi
    && sc.base <= tab.max
    && |sc.ahead| <= 4 && (sc.base % 2 == 1 ==> |sc.ahead| == 3)
    && sc.low <= INVALID
    // the entry that follows the last timer has been seen to be 0
    && (sc.base + |sc.ahead| > tab.max ==> sc.ahead[tab.max - sc.base] == 0)
  }

  ghost predicate PcInv(tab: Table, pc: Pc) {
    && (pc.CheckIdx? || pc.LoadExp? || pc.CasExp? ==> pc.exp <= INVALID)
    && (pc.LoadExp? || pc.CasExp? ==> pc.i < tab.hi)
    && (pc.CasExp? ==> (pc.active <==> pc.seen != INVALID) && (!pc.active ==> pc.exp < INVALID))
    && ((pc.CheckIdx? || pc.LoadExp?) && !pc.active ==> pc.exp < INVALID)
    && (pc.LoadEarliest? ==> pc.exp <= INVALID)
    && (pc.CasEarliest? ==> pc.exp < pc.seen <= INVALID)
    && (pc.Test? || pc.ResetEarliest? || pc.ReadTop? ==> pc.now <= tab.current)
    && (pc.Scanning? ==> ScanInv(tab, pc.sc))
    && (pc.ExpireLoad? || pc.ExpireCas? ==> ScanInv(tab, pc.sc) && pc.p < pc.sc.top)
    && (pc.ExpireCas? ==> pc.seen <= pc.sc.now)
    && (pc.TickLoad? ==> pc.tick < INVALID)
    && (pc.TickCas? ==> pc.seen < pc.tick < INVALID)
    && (pc.FreeLoad? || pc.FreePush? ==> pc.i < tab.hi)
  }

  /** A scan will still meet timer i with expiration e, or has taken e into account. */
  ghost predicate ScanCovers(sc: Scan, i: nat, e: nat) {
    || sc.low <= e
    || (i < sc.top && sc.base + |sc.ahead| <= i)
    || (i < sc.top && sc.base <= i < sc.base + |sc.ahead| && sc.ahead[i - sc.base] == e)
  }

  /** A thread that will lower `earliest` to e or less, or fire timer i. */
  ghost predicate Covers(pc: Pc, i: nat, e: nat) {
    || ((pc.LoadEarliest? || pc.CasEarliest?) && pc.exp <= e)
    || pc.ReadTop?
    || ((pc.Scanning? || pc.ExpireLoad? || pc.ExpireCas?) && ScanCovers(pc.sc, i, e))
    || ((pc.ExpireLoad? || pc.ExpireCas?) && pc.p == i && e <= pc.sc.now)
  }

  ghost predicate SomeoneCovers(threads: seq<Pc>, i: nat, e: nat) {
    exists t :: 0 <= t < |threads| && Covers(threads[t], i, e)
  }

  /** An active timer is no earlier than the hint, or somebody is about to see to it. */
  ghost predicate Hinted(tab: Table, threads: seq<Pc>, i: nat)
    requires i < |tab.exps|
  {
    tab.exps[i] == INVALID || tab.earliest <= tab.exps[i] || SomeoneCovers(threads, i, tab.exps[i])
  }

  ghost predicate Inv(s: State) {
    && Sized(s)
    && TableInv(s.tab) && FreeInv(s.tab) && ActsInv(s.tab, s.acts, s.which)
    && (forall t :: 0 <= t < |s.threads| ==> PcInv(s.tab, s.threads[t]))
    && (forall i :: 0 <= i < s.tab.hi ==> Hinted(s.tab, s.threads, i))
  }

  lemma InitInv(max: nat, n: nat)
    ensures Inv(Init(max, n))
  {
  }

  // ------------------------------------------------------------------ keeping the hint

  lemma StillHinted(tab: Table, tab': Table, threads: seq<Pc>, threads': seq<Pc>, t: nat, i: nat)
    requires i < |tab.exps| == |tab'.exps| && Hinted(tab, threads, i) && tab'.exps[i] == tab.exps[i]
    requires t < |threads| == |threads'| && threads' == threads[t := threads'[t]]
    requires tab'.earliest <= tab.earliest
    requires Covers(threads[t], i, tab.exps[i]) ==> Covers(threads'[t], i, tab.exps[i]) || tab'.earliest <= tab.exps[i]
    ensures Hinted(tab', threads', i)
  {
    var e := tab.exps[i];
    if SomeoneCovers(threads, i, e) {
      var u :| 0 <= u < |threads| && Covers(threads[u], i, e);
      if u != t { assert Covers(threads'[u], i, e); }
    }
  }

  /** Writing timer i: an updater of the hint follows, and other timers do not notice. */
  lemma WriteHinted(s: State, i: nat, exp: nat, end: End, t: nat, pc': Pc, k: nat)
    requires Inv(s) && i < s.tab.max && t < |s.threads| && k < s.tab.hi
    requires exp == INVALID || Covers(pc', i, exp)
    requires k != i && Covers(s.threads[t], k, s.tab.exps[k]) ==> Covers(pc', k, s.tab.exps[k])
    ensures var s' := Goto(Write(s, i, exp, end), t, pc'); Hinted(s'.tab, s'.threads, k)
  {
    var s' := Goto(Write(s, i, exp, end), t, pc');
    if k == i {
      assert s'.threads[t] == pc';
    } else {
      StillHinted(s.tab, s'.tab, s.threads, s'.threads, t, k);
    }
  }

  lemma EndedActs(s: State, i: nat, end: End)
    requires Sized(s) && TableInv(s.tab) && ActsInv(s.tab, s.acts, s.which) && i < s.tab.hi && !end.Live?
    requires end.Fired? ==> s.tab.exps[i] <= end.at <= s.tab.current
    ensures var s' := Ended(s, i, end); TableInv(s'.tab) && ActsInv(s'.tab, s'.acts, s'.which)
  {
  }

  lemma BegunActs(s: State, i: nat, exp: nat)
    requires Sized(s) && TableInv(s.tab) && ActsInv(s.tab, s.acts, s.which) && i < s.tab.hi && exp < INVALID
    requires s.which[i] == -1
    ensures var s' := Begun(s, i, exp); TableInv(s'.tab) && ActsInv(s'.tab, s'.acts, s'.which)
  {
  }

  lemma WriteActs(s: State, i: nat, exp: nat, end: End)
    requires Sized(s) && TableInv(s.tab) && ActsInv(s.tab, s.acts, s.which) && i < s.tab.hi && exp <= INVALID
    requires !end.Live?
    requires end.Fired? ==> s.tab.exps[i] <= end.at <= s.tab.current
    ensures var s' := Write(s, i, exp, end); TableInv(s'.tab) && ActsInv(s'.tab, s'.acts, s'.which)
  {
    EndedActs(s, i, end);
    hide ActsInv; hide TableInv;
    if exp != INVALID { BegunActs(Ended(s, i, end), i, exp); }
  }

  lemma PcKept(tab: Table, tab': Table, pc: Pc)
    requires PcInv(tab, pc) && tab.max == tab'.max && tab.hi <= tab'.hi && tab.current <= tab'.current
    ensures PcInv(tab', pc)
  {
  }

  /** Clock steps, free-list steps and loads change no expiration and only lower the hint. */
  lemma UpdateHinted(s: State, t: nat, k: nat)
    requires Inv(s) && t < |s.threads| && !ExpirePc(s.threads[t]) && !s.threads[t].Idle? && k < s.tab.hi
    ensures var s' := UpdateStep(s, t); Sized(s') && s'.tab.hi == s.tab.hi && Hinted(s'.tab, s'.threads, k)
  {
    var s', pc := UpdateStep(s, t), s.threads[t];
    assert PcInv(s.tab, pc);
    if pc.CasExp? && s.tab.exps[pc.i] == pc.seen {
      WriteHinted(s, pc.i, pc.exp, EndOf(pc), t, if pc.exp == INVALID then Idle else LoadEarliest(pc.exp), k);
    } else {
      StillHinted(s.tab, s'.tab, s.threads, s'.threads, t, k);
    }
  }

  /** The table as an update step leaves it. */
  lemma UpdateTable(s: State, t: nat)
    requires Inv(s) && t < |s.threads| && !ExpirePc(s.threads[t]) && !s.threads[t].Idle?
    ensures var s' := UpdateStep(s, t);
      && Sized(s') && TableInv(s'.tab) && FreeInv(s'.tab) && ActsInv(s'.tab, s'.acts, s'.which)
  {
    hide Hinted; hide ScanInv; hide TableInv; hide ActsInv; hide FreeInv; hide Write;
    var s', pc := UpdateStep(s, t), s.threads[t];
    assert PcInv(s.tab, pc);
    if pc.CasExp? && s.tab.exps[pc.i] == pc.seen {
      WriteActs(s, pc.i, pc.exp, EndOf(pc));
      WriteFrame(s, pc.i, pc.exp, EndOf(pc));
      FreeDepends(s.tab, s'.tab);
    } else if pc.FreePush? {
      FreePushed(s.tab, pc.i);
    } else {
      TableBounds(s.tab);
      MovedClocks(s.tab, s'.tab, s.acts, s.which);
    }
  }

  lemma WriteFrame(s: State, i: nat, exp: nat, end: End)
    requires Sized(s) && i < s.tab.max
    ensures var s' := Write(s, i, exp, end);
      && Sized(s') && s'.tab == s.tab.(exps := s'.tab.exps) && s'.threads == s.threads
      && s'.tab.exps == s.tab.exps[i := exp]
  {
  }

  lemma FreeDepends(tab: Table, tab': Table)
    requires FreeInv(tab) && tab'.free == tab.free && tab'.hi == tab.hi && tab'.max == tab.max
    ensures FreeInv(tab')
  {
  }

  lemma FreePushed(tab: Table, i: nat)
    requires FreeInv(tab) && i < tab.hi
    ensures FreeInv(tab.(free := [i] + tab.free))
    ensures TableInv(tab) ==> TableInv(tab.(free := [i] + tab.free))
    ensures forall acts, which :: ActsInv(tab, acts, which) ==> ActsInv(tab.(free := [i] + tab.free), acts, which)
  {
  }

  /** The hint and the clock move. */
  lemma MovedClocks(tab: Table, tab': Table, acts: seq<Activation>, which: seq<int>)
    requires TableInv(tab) && FreeInv(tab) && ActsInv(tab, acts, which)
    requires tab' == tab.(earliest := tab'.earliest, current := tab'.current)
    requires tab'.earliest <= INVALID && tab.current <= tab'.current < INVALID
    ensures TableInv(tab') && FreeInv(tab') && ActsInv(tab', acts, which)
  {
  }

  lemma UpdatePcInv(s: State, t: nat)
    requires Inv(s) && t < |s.threads| && !ExpirePc(s.threads[t]) && !s.threads[t].Idle?
    ensures var s' := UpdateStep(s, t);
      && s'.tab.max == s.tab.max && s'.tab.hi == s.tab.hi && s.tab.current <= s'.tab.current
      && |s'.threads| == |s.threads| && s'.threads == s.threads[t := s'.threads[t]]
      && PcInv(s'.tab, s'.threads[t])
  {
    hide FreeInv; hide ActsInv; hide Hinted; hide ScanInv;
    var pc := s.threads[t];
    assert PcInv(s.tab, pc);
    assert s.threads[t := pc] == s.threads;
  }

  lemma UpdateInv(s: State, t: nat)
    requires Inv(s) && t < |s.threads| && !ExpirePc(s.threads[t]) && !s.threads[t].Idle?
    ensures Inv(UpdateStep(s, t))
  {
    hide UpdateStep;
    var s' := UpdateStep(s, t);
    UpdateTable(s, t);
    UpdatePcInv(s, t);
    forall k | 0 <= k < s'.tab.hi ensures Hinted(s'.tab, s'.threads, k) { UpdateHinted(s, t, k); }
    hide Hinted; hide TableInv; hide FreeInv; hide ActsInv; hide PcInv;
    forall u | 0 <= u < |s'.threads| ensures PcInv(s'.tab, s'.threads[u]) {
      if u != t { PcKept(s.tab, s'.tab, s.threads[u]); }
    }
  }

  lemma CallInv(s: State, t: nat, cmd: Cmd)
    requires Inv(s) && t < |s.threads| && s.threads[t].Idle?
    ensures Inv(Call(s, t, cmd))
  {
    var s' := Call(s, t, cmd);
    if cmd.Alloc? {
      if s.tab.free != [] { AllocInv(s, t); }
    } else if s' != s {
      assert PcInv(s.tab, s'.threads[t]);
      hide TableInv; hide FreeInv; hide ActsInv; hide PcInv;
      forall k | 0 <= k < s'.tab.hi ensures Hinted(s'.tab, s'.threads, k) {
        StillHinted(s.tab, s'.tab, s.threads, s'.threads, t, k);
      }
    }
  }

  /** Allocation takes a timer that was freed, or the first one never used. */
  lemma AllocInv(s: State, t: nat)
    requires Inv(s) && t < |s.threads| && s.tab.free != []
    ensures s.tab.free[0] < s.tab.max && Inv(Call(s, t, Alloc))
    ensures var s', i := Call(s, t, Alloc), s.tab.free[0];
      && s'.tab.free == s.tab.free[1..] && i < s'.tab.hi
      && s'.tab.exps == s.tab.exps[i := INVALID]
  {
    hide TableInv; hide ActsInv; hide PcInv; hide Hinted; hide Write;
    var s', i := Call(s, t, Alloc), s.tab.free[0];
    assert i <= s.tab.hi;
    WriteFrame(s, i, INVALID, Reallocated);
    AllocTable(s, i);
    forall u | 0 <= u < |s'.threads| ensures PcInv(s'.tab, s'.threads[u]) { PcKept(s.tab, s'.tab, s.threads[u]); }
    forall k | 0 <= k < s'.tab.hi ensures Hinted(s'.tab, s'.threads, k) { AllocHinted(s, i, s'.tab, k); }
  }

  /** A timer taken off the free list: one used before, or the next one never used. */
  lemma AllocTable(s: State, i: nat)
    requires Sized(s) && TableInv(s.tab) && ActsInv(s.tab, s.acts, s.which) && i < s.tab.max && i <= s.tab.hi
    ensures var s' := Write(s, i, INVALID, Reallocated);
      var tab := s'.tab.(free := s.tab.free[if s.tab.free == [] then 0 else 1..], hi := if s.tab.hi < i + 1 then i + 1
          else s.tab.hi);
      TableInv(tab) && ActsInv(tab, s'.acts, s'.which)
  {
  }

  lemma AllocHinted(s: State, i: nat, tab': Table, k: nat)
    requires Sized(s) && i <= s.tab.hi && i < s.tab.max && k < tab'.hi && |tab'.exps| == |s.tab.exps|
    requires forall j :: 0 <= j < s.tab.hi ==> Hinted(s.tab, s.threads, j)
    requires tab'.earliest == s.tab.earliest && tab'.exps == Write(s, i, INVALID, Reallocated).tab.exps
    requires tab'.hi == if s.tab.hi < i + 1 then i + 1 else s.tab.hi
    ensures Hinted(tab', s.threads, k)
  {
    hide SomeoneCovers;
    if k != i { assert Hinted(s.tab, s.threads, k); }
  }

  // ------------------------------------------------------------------ expiring

  /** One look or one read of the scan, for the timers it is answerable for. */
  lemma ScanStepCovers(tab: Table, sc: Scan, k: nat)
    requires TableInv(tab) && ScanInv(tab, sc) && k < tab.hi && ScanCovers(sc, k, tab.exps[k])
    ensures ReadsAhead(sc) ==> sc.base + |sc.ahead| < |tab.exps|
    ensures ReadsAhead(sc) ==> ScanCovers(sc.(ahead := sc.ahead + [tab.exps[sc.base + |sc.ahead|]]), k, tab.exps[k])
    ensures !ReadsAhead(sc) ==> sc.ahead != []
    ensures !ReadsAhead(sc) && sc.ahead[0] <= sc.now && sc.base >= sc.top ==> sc.low <= tab.exps[k]
    ensures !ReadsAhead(sc) && sc.ahead[0] <= sc.now && sc.base < sc.top ==>
      ScanCovers(Looked(sc), k, tab.exps[k]) || (k == sc.base && tab.exps[k] <= sc.now)
    ensures !ReadsAhead(sc) && sc.ahead[0] > sc.now ==>
      ScanCovers(Looked(sc).(low := Min(sc.low, sc.ahead[0])), k, tab.exps[k])
  {
  }

  lemma ExpireHinted(s: State, t: nat, k: nat)
    requires Inv(s) && t < |s.threads| && ExpirePc(s.threads[t]) && k < s.tab.hi
    ensures var s' := ExpireStep(s, t); Sized(s') && s'.tab.hi == s.tab.hi && Hinted(s'.tab, s'.threads, k)
  {
    hide ScanCovers; hide ActsInv; hide FreeInv; hide TableInv; hide Write; hide ScanInv; hide Hinted; hide ReadsAhead;
    var s', pc := ExpireStep(s, t), s.threads[t];
    assert PcInv(s.tab, pc);
    var e := s.tab.exps[k];
    if pc.ExpireLoad? || pc.ExpireCas? { ExpireBounds(s, t); }
    if pc.ResetEarliest? {
      NewlyHinted(s'.tab, s'.threads, t, k);
    } else if pc.ExpireCas? && s.tab.exps[pc.p] == pc.seen {
      WriteFrame(s, pc.p, INVALID, Fired(pc.sc.now));
      WriteHinted(s, pc.p, INVALID, Fired(pc.sc.now), t, Scanning(pc.sc), k);
    } else {
      if pc.Scanning? && ScanCovers(pc.sc, k, e) { ScanStepCovers(s.tab, pc.sc, k); }
      if pc.ReadTop? { ScanCoversAll(s.tab, pc.now, k); }
      assert s.threads[t := pc] == s.threads;
      StillHinted(s.tab, s'.tab, s.threads, s'.threads, t, k);
    }
  }

  lemma NewlyHinted(tab: Table, threads: seq<Pc>, t: nat, k: nat)
    requires k < |tab.exps| && t < |threads| && threads[t].ReadTop?
    ensures Hinted(tab, threads, k)
  {
    assert Covers(threads[t], k, tab.exps[k]);
  }

  lemma ScanCoversAll(tab: Table, now: nat, k: nat)
    requires k < tab.hi && k < |tab.exps|
    ensures ScanCovers(Scan(now, tab.hi, 0, [], INVALID), k, tab.exps[k])
  {
  }

  /** The scan stays inside the table and never passes the entry after the last timer. */
  lemma ScanStepInv(tab: Table, sc: Scan)
    requires TableInv(tab) && ScanInv(tab, sc)
    ensures ReadsAhead(sc) ==> sc.base + |sc.ahead| < |tab.exps|
    ensures ReadsAhead(sc) ==> ScanInv(tab, sc.(ahead := sc.ahead + [tab.exps[sc.base + |sc.ahead|]]))
    ensures !ReadsAhead(sc) ==> sc.ahead != []
    ensures !ReadsAhead(sc) && !(sc.ahead[0] <= sc.now && sc.base >= sc.top) ==>
      ScanInv(tab, Looked(sc)) && ScanInv(tab, Looked(sc).(low := Min(sc.low, sc.ahead[0])))
  {
    if !ReadsAhead(sc) && sc.base == tab.max {
      assert sc.ahead[0] == 0;
    }
  }

  lemma ExpireTable(s: State, t: nat)
    requires Inv(s) && t < |s.threads| && ExpirePc(s.threads[t])
    ensures var s' := ExpireStep(s, t);
      && Sized(s') && TableInv(s'.tab) && FreeInv(s'.tab) && ActsInv(s'.tab, s'.acts, s'.which)
  {
    hide Hinted; hide ScanInv; hide TableInv; hide ActsInv; hide FreeInv; hide Write;
    var s', pc := ExpireStep(s, t), s.threads[t];
    assert PcInv(s.tab, pc);
    if pc.ExpireLoad? || pc.ExpireCas? { ExpireBounds(s, t); }
    if pc.ExpireCas? && s.tab.exps[pc.p] == pc.seen {
      ScanBounds(s.tab, pc.sc);
      WriteActs(s, pc.p, INVALID, Fired(pc.sc.now));
      WriteFrame(s, pc.p, INVALID, Fired(pc.sc.now));
      FreeDepends(s.tab, s'.tab);
    } else {
      TableBounds(s.tab);
      MovedClocks(s.tab, s'.tab, s.acts, s.which);
    }
  }

  lemma TableBounds(tab: Table)
    requires TableInv(tab)
    ensures tab.earliest <= INVALID && tab.current < INVALID
  {
  }

  lemma ScanBounds(tab: Table, sc: Scan)
    requires ScanInv(tab, sc)
    ensures sc.now <= tab.current && sc.top <= tab.hi && sc.base <= tab.max
  {
  }

  lemma ExpirePcInv(s: State, t: nat)
    requires Inv(s) && t < |s.threads| && ExpirePc(s.threads[t])
    ensures var s' := ExpireStep(s, t);
      && s'.tab.max == s.tab.max && s'.tab.hi == s.tab.hi && s.tab.current <= s'.tab.current
      && |s'.threads| == |s.threads| && s'.threads == s.threads[t := s'.threads[t]]
      && PcInv(s'.tab, s'.threads[t])
  {
    hide FreeInv; hide ActsInv; hide Hinted; hide ScanInv; hide TableInv; hide Write; hide ReadsAhead; hide Looked;
    var pc := s.threads[t];
    assert PcInv(s.tab, pc);
    assert s.threads[t := pc] == s.threads;
    if pc.ExpireLoad? || pc.ExpireCas? { ExpireBounds(s, t); }
    if pc.Scanning? { ScanStepInv(s.tab, pc.sc); ScanBounds(s.tab, pc.sc); ScanLow(s.tab, pc.sc); }
    if pc.ExpireCas? { WriteFrame(s, pc.p, INVALID, Fired(pc.sc.now)); }
    if pc.ReadTop? { ScanStarts(s.tab, pc.now); }
    if pc.ExpireLoad? || pc.ExpireCas? { ScanKept(s, ExpireStep(s, t).tab, pc.sc); }
  }

  lemma ScanStarts(tab: Table, now: nat)
    requires now <= tab.current
    ensures ScanInv(tab, Scan(now, tab.hi, 0, [], INVALID))
  {
  }

  lemma ScanLow(tab: Table, sc: Scan)
    requires ScanInv(tab, sc) && TableInv(tab)
    ensures sc.low <= INVALID
    ensures !ReadsAhead(sc) && sc.ahead != [] && sc.base < sc.top ==>
      ScanInv(tab, Looked(sc)) && Looked(sc).top == sc.top
  {
    if !ReadsAhead(sc) && sc.ahead != [] { ScanStepInv(tab, sc); }
  }

  lemma ScanKept(s: State, tab': Table, sc: Scan)
    requires ScanInv(s.tab, sc) && tab'.max == s.tab.max && tab'.hi == s.tab.hi && tab'.current == s.tab.current
    ensures ScanInv(tab', sc)
  {
  }

  lemma ExpireBounds(s: State, t: nat)
    requires Inv(s) && t < |s.threads| && (s.threads[t].ExpireLoad? || s.threads[t].ExpireCas?)
    ensures s.threads[t].p < s.tab.max
  {
    hide TableInv; hide FreeInv; hide ActsInv; hide Hinted;
    assert PcInv(s.tab, s.threads[t]);
  }

  lemma ExpireInv(s: State, t: nat)
    requires Inv(s) && t < |s.threads| && ExpirePc(s.threads[t])
    ensures Inv(ExpireStep(s, t))
  {
    hide ExpireStep;
    var s' := ExpireStep(s, t);
    ExpireTable(s, t);
    ExpirePcInv(s, t);
    forall k | 0 <= k < s'.tab.hi ensures Hinted(s'.tab, s'.threads, k) { ExpireHinted(s, t, k); }
    hide Hinted; hide TableInv; hide FreeInv; hide ActsInv; hide PcInv;
    forall u | 0 <= u < |s'.threads| ensures PcInv(s'.tab, s'.threads[u]) {
      if u != t { PcKept(s.tab, s'.tab, s.threads[u]); }
    }
  }

  lemma StepInv(s: State, ev: Event)
    requires Inv(s)
    ensures Inv(Step(s, ev))
  {
    if ev.t < |s.threads| {
      hide Inv; hide UpdateStep; hide ExpireStep; hide Call;
      if s.threads[ev.t].Idle? { CallInv(s, ev.t, ev.cmd); }
      else if ExpirePc(s.threads[ev.t]) { ExpireInv(s, ev.t); }
      else { UpdateInv(s, ev.t); }
    }
  }

  /** The table and the threads are those the run was started with. */
  predicate Made(max: nat, n: nat, s: State) { s.tab.max == max && |s.threads| == n }

  lemma {:induction false} RunInv(max: nat, n: nat, evs: seq<Event>)
    ensures var s := Run(Init(max, n), evs); Inv(s) && LooseInv(s) && Made(max, n, s)
    decreases |evs|
  {
    hide Inv; hide Step; hide LooseInv;
    if evs == [] {
      InitInv(max, n);
      NothingLoose(max, n);
    } else {
      RunInv(max, n, evs[..|evs| - 1]);
      var s, ev := Run(Init(max, n), evs[..|evs| - 1]), evs[|evs| - 1];
      StepInv(s, ev);
      LooseStep(s, ev);
      StepShape(s, ev);
    }
  }

  lemma StepShape(s: State, ev: Event)
    ensures Step(s, ev).tab.max == s.tab.max && |Step(s, ev).threads| == |s.threads|
  {
    hide Loose; hide Write; hide ReadsAhead; hide Looked;
    if Sized(s) && ev.t < |s.threads| {
      var pc := s.threads[ev.t];
      if pc.Idle? && ev.cmd.Alloc? && s.tab.free != [] && s.tab.free[0] < s.tab.max {
        WriteFrame(s, s.tab.free[0], INVALID, Reallocated);
      } else if pc.CasExp? && pc.i < s.tab.max {
        WriteFrame(s, pc.i, pc.exp, EndOf(pc));
      } else if pc.ExpireCas? && pc.p < s.tab.max {
        WriteFrame(s, pc.p, INVALID, Fired(pc.sc.now));
      }
    }
  }

  // ------------------------------------------------------------------ timers on the free list

  /** An activation that did not begin on a loose timer keeps its timer off the free list, and
      is not ended by an allocation. */
  ghost predicate LooseInv(s: State) {
    && (forall a :: 0 <= a < |s.acts| && s.acts[a].end.Live? && !s.acts[a].loose ==> !Loose(s, s.acts[a].timer))
    && (forall a :: 0 <= a < |s.acts| && s.acts[a].end.Reallocated? ==> s.acts[a].loose)
  }

  lemma NothingLoose(max: nat, n: nat)
    ensures LooseInv(Init(max, n))
  {
  }

  /** What a step may do: a timer becomes loose only while it is inactive; an activation that
      begins records whether its timer is loose; an allocation ends only a loose timer's. */
  ghost predicate LooseEffect(s: State, s': State) {
    && |s.acts| <= |s'.acts|
    && (forall i: nat :: Loose(s', i) && !Loose(s, i) ==> forall a :: 0 <= a < |s.acts| && s.acts[a].timer == i ==>
          !s.acts[a].end.Live?)
    && (forall a :: 0 <= a < |s.acts| ==>
          && s'.acts[a].timer == s.acts[a].timer && s'.acts[a].loose == s.acts[a].loose
          && (s'.acts[a].end.Live? ==> s.acts[a].end.Live?)
          && (s'.acts[a].end.Reallocated? && !s.acts[a].end.Reallocated? ==>
                s.acts[a].end.Live? && Loose(s, s.acts[a].timer)))
    && (forall a :: |s.acts| <= a < |s'.acts| ==>
          s'.acts[a].end.Live? && (Loose(s', s'.acts[a].timer) ==> s'.acts[a].loose))
  }

  lemma LooseKept(s: State, s': State)
    requires LooseInv(s) && LooseEffect(s, s')
    ensures LooseInv(s')
  {
    hide Loose;
  }

  /** Steps that write no expiration and do not find a timer to free. */
  lemma LooseSame(s: State, s': State)
    requires s'.acts == s.acts && forall i: nat :: Loose(s', i) ==> Loose(s, i)
    ensures LooseEffect(s, s')
  {
    hide Loose;
  }

  /** A step that moves only thread t. */
  lemma LooseMoves(s: State, t: nat, pc: Pc, i: nat)
    requires t < |s.threads| && !pc.FreePush? && Loose(Goto(s, t, pc), i)
    ensures Loose(s, i)
  {
    if i !in s.tab.free {
      var u :| 0 <= u < |s.threads| && Goto(s, t, pc).threads[u] == FreePush(i);
      assert s.threads[u] == FreePush(i);
    }
  }

  /** Writing timer i's expiration. */
  lemma LooseWrite(s: State, i: nat, exp: nat, end: End, t: nat, pc: Pc)
    requires Inv(s) && i < s.tab.hi && t < |s.threads| && !pc.FreePush? && !end.Live? && !end.Reallocated?
    ensures LooseEffect(s, Goto(Write(s, i, exp, end), t, pc))
  {
    hide Hinted; hide PcInv; hide TableInv; hide FreeInv; hide Loose;
    var s1 := Write(s, i, exp, end);
    var s' := Goto(s1, t, pc);
    forall k: nat | Loose(s', k) ensures Loose(s, k) { LooseMoves(s1, t, pc, k); LooseDepends(s1, s, k); }
    LooseDepends(Ended(s, i, end), s, i);
  }

  lemma LooseDepends(s: State, s': State, i: nat)
    requires s'.tab.free == s.tab.free && s'.threads == s.threads
    ensures Loose(s', i) == Loose(s, i)
  {
  }

  lemma LooseUpdate(s: State, t: nat)
    requires Inv(s) && t < |s.threads| && !ExpirePc(s.threads[t]) && !s.threads[t].Idle?
    ensures LooseEffect(s, UpdateStep(s, t))
  {
    hide Hinted; hide TableInv; hide FreeInv; hide Loose; hide LooseEffect; hide Write;
    var s', pc := UpdateStep(s, t), s.threads[t];
    assert PcInv(s.tab, pc);
    if pc.CasExp? && s.tab.exps[pc.i] == pc.seen {
      var pc' := if pc.exp == INVALID then Idle else LoadEarliest(pc.exp);
      WriteFrame(s, pc.i, pc.exp, EndOf(pc));
      LooseWrite(s, pc.i, pc.exp, EndOf(pc), t, pc');
      LooseAnswered(s, Goto(Write(s, pc.i, pc.exp, EndOf(pc)), t, pc'), s');
    } else if pc.FreeLoad? && s.tab.exps[pc.i] == INVALID {
      LooseFound(s, t);
    } else if pc.FreePush? {
      forall i: nat | Loose(s', i) ensures Loose(s, i) { LoosePushed(s, t, i); }
      LooseSame(s, s');
    } else {
      forall i: nat | Loose(s', i) ensures Loose(s, i) { LooseElsewhere(s, s', t, i); }
      LooseSame(s, s');
    }
  }

  lemma LooseAnswered(s: State, s1: State, s2: State)
    requires LooseEffect(s, s1) && s2 == s1.(told := s2.told)
    ensures LooseEffect(s, s2)
  {
    hide Loose;
    forall i: nat ensures Loose(s1, i) == Loose(s2, i) { LooseDepends(s1, s2, i); }
  }

  lemma LooseElsewhere(s: State, s': State, t: nat, i: nat)
    requires t < |s.threads| == |s'.threads| && s'.threads == s.threads[t := s'.threads[t]]
    requires s'.tab.free == s.tab.free && (s'.threads[t] == s.threads[t] || !s'.threads[t].FreePush?) && Loose(s', i)
    ensures Loose(s, i)
  {
    if i !in s.tab.free {
      var u :| 0 <= u < |s'.threads| && s'.threads[u] == FreePush(i);
      assert s.threads[u] == FreePush(i);
    }
  }

  lemma LoosePushed(s: State, t: nat, i: nat)
    requires t < |s.threads| && Sized(s) && s.threads[t].FreePush? && Loose(UpdateStep(s, t), i)
    ensures Loose(s, i)
  {
    var s', j := UpdateStep(s, t), s.threads[t].i;
    if i == j { assert s.threads[t] == FreePush(i); }
    else if i !in s.tab.free {
      var u :| 0 <= u < |s'.threads| && s'.threads[u] == FreePush(i);
      assert s.threads[u] == FreePush(i);
    }
  }

  /** A call to free finds the timer inactive. */
  lemma LooseFound(s: State, t: nat)
    requires Inv(s) && t < |s.threads| && s.threads[t].FreeLoad? && s.threads[t].i < s.tab.hi
    requires s.tab.exps[s.threads[t].i] == INVALID
    ensures LooseEffect(s, UpdateStep(s, t))
  {
    hide Hinted; hide PcInv; hide FreeInv; hide TableInv;
    var s', j := UpdateStep(s, t), s.threads[t].i;
    assert s' == Goto(s, t, FreePush(j));
    forall i: nat | Loose(s', i) && i != j ensures Loose(s, i) {
      if i !in s.tab.free {
        var u :| 0 <= u < |s'.threads| && s'.threads[u] == FreePush(i);
        assert s.threads[u] == FreePush(i);
      }
    }
    hide Loose;
  }

  lemma LooseExpire(s: State, t: nat)
    requires Inv(s) && t < |s.threads| && ExpirePc(s.threads[t])
    ensures LooseEffect(s, ExpireStep(s, t))
  {
    hide Hinted; hide TableInv; hide FreeInv; hide Loose; hide LooseEffect; hide Write;
    var s', pc := ExpireStep(s, t), s.threads[t];
    assert PcInv(s.tab, pc);
    if pc.ExpireCas? && s.tab.exps[pc.p] == pc.seen {
      LooseWrite(s, pc.p, INVALID, Fired(pc.sc.now), t, Scanning(pc.sc));
    } else {
      assert s.threads[t := pc] == s.threads;
      forall i: nat | Loose(s', i) ensures Loose(s, i) { LooseElsewhere(s, s', t, i); }
      LooseSame(s, s');
    }
  }

  lemma LooseAlloc(s: State, t: nat)
    requires Inv(s) && t < |s.threads|
    ensures LooseEffect(s, Call(s, t, Alloc))
  {
    hide Hinted; hide TableInv; hide FreeInv; hide PcInv;
    var s' := Call(s, t, Alloc);
    if s' != s {
      var i := s.tab.free[0];
      forall k: nat | Loose(s', k) ensures Loose(s, k) { if k in s'.tab.free { assert k in s.tab.free; } }
      assert Loose(s, i);
      hide Loose;
    }
  }

  lemma LooseCall(s: State, t: nat, cmd: Cmd)
    requires Inv(s) && t < |s.threads| && s.threads[t].Idle?
    ensures LooseEffect(s, Call(s, t, cmd))
  {
    hide Hinted; hide TableInv; hide FreeInv; hide PcInv; hide Loose; hide LooseEffect; hide Write;
    if cmd.Alloc? { LooseAlloc(s, t); }
    else {
      var s' := Call(s, t, cmd);
      assert s.threads[t := s.threads[t]] == s.threads;
      forall i: nat | Loose(s', i) ensures Loose(s, i) { LooseElsewhere(s, s', t, i); }
      LooseSame(s, s');
    }
  }

  lemma LooseStep(s: State, ev: Event)
    requires Inv(s) && LooseInv(s)
    ensures LooseInv(Step(s, ev))
  {
    hide Inv; hide UpdateStep; hide ExpireStep; hide Call; hide LooseInv; hide LooseEffect;
    if Sized(s) && ev.t < |s.threads| {
      if s.threads[ev.t].Idle? { LooseCall(s, ev.t, ev.cmd); }
      else if ExpirePc(s.threads[ev.t]) { LooseExpire(s, ev.t); }
      else { LooseUpdate(s, ev.t); }
      LooseKept(s, Step(s, ev));
    }
  }

  // ------------------------------------------------------------------ theorems

  ghost predicate Reachable(max: nat, n: nat, s: State) {
    exists evs :: s == Run(Init(max, n), evs)
  }

  lemma ReachableInv(max: nat, n: nat, s: State)
    requires Reachable(max, n, s)
    ensures Inv(s) && LooseInv(s) && Made(max, n, s)
  {
    var evs :| s == Run(Init(max, n), evs);
    RunInv(max, n, evs);
  }

  /** Past resetting the hint, or about to lower it. */
  predicate InFlight(pc: Pc) {
    pc.LoadEarliest? || pc.CasEarliest? || pc.ReadTop? || pc.Scanning? || pc.ExpireLoad? || pc.ExpireCas?
  }

  /** In every run, when no setter or expirer is in flight, the hint is no later than any
      activation that has not ended. */
  lemma HintNeverLate(max: nat, n: nat, s: State)
    requires Reachable(max, n, s)
    requires forall t :: 0 <= t < |s.threads| ==> !InFlight(s.threads[t])
    ensures forall a :: 0 <= a < |s.acts| && s.acts[a].end.Live? ==> s.tab.earliest <= s.acts[a].exp
  {
    ReachableInv(max, n, s);
    forall a | 0 <= a < |s.acts| && s.acts[a].end.Live? ensures s.tab.earliest <= s.acts[a].exp {
      assert Hinted(s.tab, s.threads, s.acts[a].timer);
    }
  }

  /** A thread that takes the fast path skips a due activation only when another thread is
      already seeing to it: about to lower the hint that far, or in a scan that will meet it. */
  lemma SkipIsJustified(max: nat, n: nat, s: State, t: nat, a: nat)
    requires Reachable(max, n, s) && t < |s.threads| && s.threads[t].Test? && a < |s.acts|
    requires Step(s, Event(t, Expire)).threads[t].Idle?
    requires s.acts[a].end.Live? && s.acts[a].exp <= s.threads[t].now
    ensures exists u :: 0 <= u < |s.threads| && u != t && Covers(s.threads[u], s.acts[a].timer, s.acts[a].exp)
  {
    ReachableInv(max, n, s);
    assert Hinted(s.tab, s.threads, s.acts[a].timer);
    var u :| 0 <= u < |s.threads| && Covers(s.threads[u], s.acts[a].timer, s.acts[a].exp);
    assert u != t;
  }

  /** An activation is live exactly while its timer holds its expiration; it fires only once
      the clock has reached it. */
  lemma ActivationsAreTheTable(max: nat, n: nat, s: State)
    requires Reachable(max, n, s)
    ensures forall a :: 0 <= a < |s.acts| && s.acts[a].end.Live? ==>
      s.acts[a].timer < s.tab.hi <= |s.tab.exps| && s.tab.exps[s.acts[a].timer] == s.acts[a].exp
    ensures forall a, b :: 0 <= a < b < |s.acts| && s.acts[a].end.Live? && s.acts[b].end.Live? ==>
      s.acts[a].timer != s.acts[b].timer
    ensures forall i :: 0 <= i < s.tab.hi && s.tab.hi <= |s.tab.exps| && s.tab.exps[i] != INVALID ==>
      exists a :: 0 <= a < |s.acts| && IsLive(s.acts[a], i, s.tab.exps[i])
    ensures forall a :: 0 <= a < |s.acts| && s.acts[a].end.Fired? ==> s.acts[a].exp <= s.acts[a].end.at <= s.tab.current
  {
    ReachableInv(max, n, s);
    forall i | 0 <= i < s.tab.hi && s.tab.exps[i] != INVALID
      ensures exists a :: 0 <= a < |s.acts| && IsLive(s.acts[a], i, s.tab.exps[i])
    {
      assert IsLive(s.acts[s.which[i]], i, s.tab.exps[i]);
    }
  }

  lemma EndsStep(s: State, ev: Event, a: nat)
    requires Inv(s) && a < |s.acts|
    ensures var s' := Step(s, ev); a < |s'.acts| && SameActivation(s.acts[a], s'.acts[a])
  {
    hide TableInv; hide FreeInv; hide PcInv; hide Hinted; hide Loose; hide Write; hide ReadsAhead; hide Min;
    if Sized(s) && ev.t < |s.threads| {
      var pc := s.threads[ev.t];
      if pc.Idle? {
        if ev.cmd.Alloc? && s.tab.free != [] && s.tab.free[0] < s.tab.max {
          WriteEnds(s, s.tab.free[0], INVALID, Reallocated, a);
        }
      } else if pc.CasExp? && pc.i < s.tab.max {
        WriteEnds(s, pc.i, pc.exp, EndOf(pc), a);
      } else if pc.ExpireCas? && pc.p < s.tab.max {
        WriteEnds(s, pc.p, INVALID, Fired(pc.sc.now), a);
      }
    }
  }

  lemma WriteEnds(s: State, i: nat, exp: nat, end: End, a: nat)
    requires Sized(s) && ActsInv(s.tab, s.acts, s.which) && a < |s.acts| && i < s.tab.max
    ensures var s' := Write(s, i, exp, end); a < |s'.acts| && SameActivation(s.acts[a], s'.acts[a])
  {
    hide Loose;
  }

  /** The same activation later on: if it had ended, in every respect. */
  predicate SameActivation(was: Activation, now: Activation) {
    && now.timer == was.timer && now.exp == was.exp && now.loose == was.loose
    && (!was.end.Live? ==> now == was)
  }

  /** Each activation ends at most once, in one way, fired, reset, cancelled or its timer handed
      out again: an activation that has ended in a run has ended in the same way in every longer
      run. */
  lemma {:induction false} EndsOnce(max: nat, n: nat, evs: seq<Event>, more: seq<Event>, a: nat)
    requires a < |Run(Init(max, n), evs).acts|
    ensures var s, s' := Run(Init(max, n), evs), Run(Init(max, n), evs + more);
      a < |s'.acts| && SameActivation(s.acts[a], s'.acts[a])
    decreases |more|
  {
    hide Inv; hide Step; hide Init; hide LooseInv;
    if more == [] {
      assert evs + more == evs;
    } else {
      var more0, ev := more[..|more| - 1], more[|more| - 1];
      assert (evs + more)[..|evs + more| - 1] == evs + more0 && (evs + more)[|evs + more| - 1] == ev;
      EndsOnce(max, n, evs, more0, a);
      RunInv(max, n, evs + more0);
      EndsStep(Run(Init(max, n), evs + more0), ev, a);
    }
  }

  /** In every run an activation is ended by an allocation only if its timer was on the free
      list when it began, or a call to free it had already found it inactive; while an activation
      that did not begin so is live, its timer is not on the free list. */
  lemma ReallocatedMeansLoose(max: nat, n: nat, s: State, a: nat)
    requires Reachable(max, n, s) && a < |s.acts|
    ensures s.acts[a].end.Reallocated? ==> s.acts[a].loose
    ensures s.acts[a].end.Live? && !s.acts[a].loose ==> s.acts[a].timer !in s.tab.free
  {
    hide Inv; hide Reachable;
    ReachableInv(max, n, s);
  }

  /** And at the allocation itself: it ends an activation if and only if the timer it takes is
      active. */
  lemma AllocEnds(max: nat, n: nat, s: State, t: nat, a: nat)
    requires Reachable(max, n, s) && t < |s.threads| && s.threads[t].Idle? && a < |s.acts| && s.acts[a].end.Live?
    ensures var s' := Step(s, Event(t, Alloc));
      a < |s'.acts| && (s'.acts[a].end == Reallocated <==> s.tab.free != [] && s.tab.free[0] == s.acts[a].timer)
      && (s'.acts[a].end != Reallocated ==> s'.acts[a] == s.acts[a])
  {
    hide TableInv; hide PcInv; hide Hinted; hide Loose; hide Reachable; hide LooseInv;
    ReachableInv(max, n, s);
  }

  lemma ReachableStep(max: nat, n: nat, s: State, s': State, t: nat, cmd: Cmd)
    requires Reachable(max, n, s) && s' == Step(s, Event(t, cmd))
    ensures Reachable(max, n, s')
  {
    var evs :| s == Run(Init(max, n), evs);
    assert (evs + [Event(t, cmd)])[..|evs|] == evs;
    assert s' == Run(Init(max, n), evs + [Event(t, cmd)]);
  }

  /** A table of one timer and one thread. */
  function Single(
      earliest: nat, e: nat, free: seq<nat>, acts: seq<Activation>, which: int, told: map<nat, bool>, pc: Pc): State
  {
    State(Table(1, earliest, 0, 1, [e, 0, 0, 0, 0], free), acts, [which], told, [pc])
  }

  lemma FreedTimer()
    ensures Reachable(1, 1, Single(INVALID, INVALID, [0], [], -1, map[], Idle))
  {
    hide Reachable;
    FirstAllocated();
    var s1 := Single(INVALID, INVALID, [], [], -1, map[], Idle);
    ReachableStep(1, 1, s1, Goto(s1, 0, FreeCheck(0)), 0, Free(0));
    ReachableStep(1, 1, Goto(s1, 0, FreeCheck(0)), Goto(s1, 0, FreeLoad(0)), 0, Expire);
    ReachableStep(1, 1, Goto(s1, 0, FreeLoad(0)), Goto(s1, 0, FreePush(0)), 0, Expire);
    ReachableStep(1, 1, Goto(s1, 0, FreePush(0)), Single(INVALID, INVALID, [0], [], -1, map[], Idle), 0, Expire);
  }

  lemma FirstAllocated()
    ensures Reachable(1, 1, Single(INVALID, INVALID, [], [], -1, map[], Idle))
  {
    var o := Init(1, 1);
    assert o == Run(o, []) && Reachable(1, 1, o);
    hide Reachable; hide Run;
    assert o == State(Table(1, INVALID, 0, 0, [0, 0, 0, 0, 0], [0]), [], [-1], map[], [Idle]);
    ReachableStep(1, 1, o, Single(INVALID, INVALID, [], [], -1, map[], Idle), 0, Alloc);
  }

  lemma SetWhileFree(e: nat)
    requires e < INVALID
    ensures Reachable(1, 1, Single(e, e, [0], [Activation(0, e, Live, true)], 0, map[0 := true], Idle))
  {
    hide Reachable;
    FreedTimer();
    var s0, acts := Single(INVALID, INVALID, [0], [], -1, map[], Idle), [Activation(0, e, Live, true)];
    var s1, s2, s3 := Goto(s0, 0, CheckIdx(0, e, false)), Goto(s0, 0, LoadExp(0, e, false)),
        Goto(s0, 0, CasExp(0, e, false, INVALID));
    ReachableStep(1, 1, s0, s1, 0, Set(0, e));
    ReachableStep(1, 1, s1, s2, 0, Expire);
    ReachableStep(1, 1, s2, s3, 0, Expire);
    assert Loose(s3, 0);
    var s4 := Single(INVALID, e, [0], acts, 0, map[0 := true], LoadEarliest(e));
    assert Step(s3, Event(0, Expire)).acts == acts;
    ReachableStep(1, 1, s3, s4, 0, Expire);
    ReachableStep(1, 1, s4, Goto(s4, 0, CasEarliest(e, INVALID)), 0, Expire);
    var s5 := Single(e, e, [0], acts, 0, map[0 := true], Idle);
    ReachableStep(1, 1, Goto(s4, 0, CasEarliest(e, INVALID)), s5, 0, Expire);
  }

  /** It does happen: a timer that was freed is set, and then handed out again. */
  lemma FreedTimerReallocated(e: nat)
    requires e < INVALID
    ensures exists s :: Reachable(1, 1, s) && s.acts == [Activation(0, e, Reallocated, true)]
  {
    hide Reachable;
    SetWhileFree(e);
    var s := Single(e, e, [0], [Activation(0, e, Live, true)], 0, map[0 := true], Idle);
    var s' := Step(s, Event(0, Alloc));
    ReachableStep(1, 1, s, s', 0, Alloc);
    assert s'.acts == [Activation(0, e, Reallocated, true)];
  }

  /** The scan of an expiring thread reads inside the table. */
  lemma ScanInBounds(max: nat, n: nat, s: State, t: nat)
    requires Reachable(max, n, s) && t < |s.threads| && s.threads[t].Scanning?
    ensures var sc := s.threads[t].sc;
      && (ReadsAhead(sc) ==> sc.base + |sc.ahead| < |s.tab.exps|)
      && (!ReadsAhead(sc) ==> sc.ahead != [])
      && sc.base <= s.tab.max
      && (sc.base == s.tab.max && !ReadsAhead(sc) ==> Step(s, Event(t, Expire)).threads[t] == LoadEarliest(sc.low))
  {
    ReachableInv(max, n, s);
    assert PcInv(s.tab, s.threads[t]);
    ScanStepInv(s.tab, s.threads[t].sc);
  }

  // ------------------------------------------------------------------ what a call was asked for

  /** A call as its caller sees it: the command; the number of activations there had been when it
      began or, once it scans, when it read the high watermark; the clock it read, -1 before that;
      the activations it began and ended, -1 for none; and the tables from its start to now. */
  datatype Request =
    | NoRequest
    | Request(cmd: Cmd, known: nat, clock: int, made: int, ended: int, since: set<Table>)

  function TimerOf(cmd: Cmd): nat {
    if cmd.Set? || cmd.Reset? || cmd.Cancel? then cmd.i else 0
  }

  /** The activation of timer i that a step from `which` to which' ended, or else `ended`. */
  function EndedIn(which: seq<int>, which': seq<int>, i: nat, ended: int): int {
    if i < |which| && i < |which'| && which[i] >= 0 && which'[i] != which[i] then which[i] else ended
  }

  /** The call goes on with a step from s to s' by thread v. */
  ghost function Later(req: Request, s: State, s': State, v: nat, t: nat): Request {
    if req.NoRequest? then NoRequest
    else if v != t || v >= |s.threads| then req.(since := req.since + {s'.tab})
    else req.(
      known := if s.threads[t].ReadTop? then |s.acts| else req.known,
      clock := if s.threads[t].ReadNow? then s.tab.current else req.clock,
      made := if |s'.acts| > |s.acts| then |s.acts| else req.made,
      ended := EndedIn(s.which, s'.which, TimerOf(req.cmd), req.ended),
      since := req.since + {s'.tab})
  }

  predicate Begins(s: State, ev: Event) { Sized(s) && ev.t < |s.threads| && s.threads[ev.t].Idle? }

  /** The last call that thread t has begun in a run, told from the schedule. */
  ghost function LastRequest(o: State, evs: seq<Event>, t: nat): Request
    decreases |evs|
  {
    if evs == [] then NoRequest
    else
      var s, ev := Run(o, evs[..|evs| - 1]), evs[|evs| - 1];
      if ev.t == t && Begins(s, ev) then Request(ev.cmd, |s.acts|, -1, -1, -1, {Step(s, ev).tab})
      else Later(LastRequest(o, evs[..|evs| - 1], t), s, Step(s, ev), ev.t, t)
  }

  ghost predicate HintWasLate(since: set<Table>, now: int) { exists x :: x in since && x.earliest > now }

  ghost predicate ClockWas(since: set<Table>, now: int) { exists x :: x in since && x.current == now }

  /** At some moment timer i was not allocated, or not as `active` asks. */
  ghost predicate WasRefused(since: set<Table>, i: nat, active: bool) {
    exists x :: x in since && Refuses(x, i, active)
  }

  predicate Refuses(x: Table, i: nat, active: bool) {
    i >= x.hi || (i < |x.exps| && (active <==> x.exps[i] == INVALID))
  }

  ghost predicate WasFreed(since: set<Table>, i: nat) { exists x :: x in since && x.free != [] && x.free[0] == i }

  lemma WasLater(since: set<Table>, x: Table, now: int, i: nat, active: bool)
    ensures HintWasLate(since, now) || x.earliest > now ==> HintWasLate(since + {x}, now)
    ensures ClockWas(since, now) || x.current == now ==> ClockWas(since + {x}, now)
    ensures WasRefused(since, i, active) || Refuses(x, i, active) ==> WasRefused(since + {x}, i, active)
    ensures WasFreed(since, i) || (x.free != [] && x.free[0] == i) ==> WasFreed(since + {x}, i)
  {
    var since' := since + {x};
    assert x in since';
    if HintWasLate(since, now) {
      var y :| y in since && y.earliest > now;
      assert y in since';
    }
    if ClockWas(since, now) {
      var y :| y in since && y.current == now;
      assert y in since';
    }
    if WasRefused(since, i, active) {
      var y :| y in since && Refuses(y, i, active);
      assert y in since';
    }
    if WasFreed(since, i) {
      var y :| y in since && y.free != [] && y.free[0] == i;
      assert y in since';
    }
  }

  /** None of the first `known` activations is live and due. */
  ghost predicate NoneDue(acts: seq<Activation>, known: nat, now: int) {
    forall a :: 0 <= a < known && a < |acts| && acts[a].exp <= now ==> !acts[a].end.Live?
  }

  /** The scan is still to come to timer i, or has read e from it. */
  ghost predicate Ahead(sc: Scan, i: nat, e: nat) {
    && i < sc.top
    && (sc.base + |sc.ahead| <= i || (sc.base <= i < sc.base + |sc.ahead| && sc.ahead[i - sc.base] == e))
  }

  /** Those of the first `known` activations that are live and due are ahead of the scan, except
      for that of timer p. */
  ghost predicate ScanDue(acts: seq<Activation>, known: nat, sc: Scan, p: int) {
    forall a :: 0 <= a < known && a < |acts| && acts[a].exp <= sc.now && acts[a].end.Live? ==>
      acts[a].timer == p || Ahead(sc, acts[a].timer, acts[a].exp)
  }

  /** An expire has fired all that was due, or found the hint to be later than the clock. */
  ghost predicate Expired(req: Request, acts: seq<Activation>)
    requires req.Request?
  {
    ClockWas(req.since, req.clock) && (HintWasLate(req.since, req.clock) || NoneDue(acts, req.known, req.clock))
  }

  predicate Asks(cmd: Cmd, i: nat, exp: nat, active: bool) {
    || (cmd == Set(i, exp) && exp < INVALID && !active)
    || (cmd == Reset(i, exp) && exp < INVALID && active)
    || (cmd == Cancel(i) && exp == INVALID && active)
  }

  /** A set, reset or cancel has ended and begun the activations it should. */
  predicate Wrote(made: int, ended: int, acts: seq<Activation>, i: nat, exp: nat, active: bool) {
    && (if active then
          && 0 <= ended < |acts| && acts[ended].timer == i
          && acts[ended].end == (if exp == INVALID then Cancelled else WasReset)
        else ended == -1)
    && (if exp != INVALID then 0 <= made < |acts| && acts[made].timer == i && acts[made].exp == exp
        else made == -1)
  }

  ghost predicate Updated(req: Request, s: State, t: nat, i: nat, exp: nat, active: bool)
    requires req.Request?
  {
    && t in s.told
    && (s.told[t] ==> (req.cmd.Cancel? || exp < INVALID) && Wrote(req.made, req.ended, s.acts, i, exp, active))
    && (!s.told[t] ==> (!req.cmd.Cancel? && exp >= INVALID) || WasRefused(req.since, i, active))
  }

  /** What a call that is over has done. */
  ghost predicate Returned(req: Request, s: State, t: nat)
    requires req.Request?
  {
    match req.cmd
    case Set(i, exp) => Updated(req, s, t, i, exp, false)
    case Reset(i, exp) => Updated(req, s, t, i, exp, true)
    case Cancel(i) => Updated(req, s, t, i, INVALID, true)
    case Expire => Expired(req, s.acts)
    case Tick(tick) => tick >= INVALID || s.tab.current >= tick
    case Free(i) => WasRefused(req.since, i, false) || WasFreed(req.since, i)
    case Alloc => true
  }

  /** The call that a thread works for, and how far it has come. */
  ghost predicate Serves(req: Request, s: State, t: nat, pc: Pc) {
    if pc.Idle? then req.Request? ==> req.known <= |s.acts| && Returned(req, s, t)
    else
      && req.Request? && req.known <= |s.acts|
      && (if pc.CheckIdx? || pc.LoadExp? || pc.CasExp? then
            Asks(req.cmd, pc.i, pc.exp, pc.active) && req.made == -1 && req.ended == -1
          else if pc.LoadEarliest? || pc.CasEarliest? then
            || (req.cmd.Expire? && Expired(req, s.acts))
            || ((req.cmd.Set? || req.cmd.Reset?) && t in s.told && s.told[t]
                && req.cmd.exp < INVALID && Wrote(req.made, req.ended, s.acts, req.cmd.i, req.cmd.exp, req.cmd.Reset?))
          else if pc.TickLoad? || pc.TickCas? then req.cmd == Tick(pc.tick)
          else if pc.FreeCheck? || pc.FreeLoad? || pc.FreePush? then req.cmd == Free(pc.i)
          else req.cmd.Expire? && ExpireServes(req, s, pc))
  }

  ghost predicate ExpireServes(req: Request, s: State, pc: Pc)
    requires req.Request?
  {
    && (pc.Test? || pc.ResetEarliest? || pc.ReadTop? ==> req.clock == pc.now && ClockWas(req.since, req.clock))
    && (pc.Scanning? || pc.ExpireLoad? || pc.ExpireCas? ==>
          && req.clock == pc.sc.now && ClockWas(req.since, req.clock)
          && ScanDue(s.acts, req.known, pc.sc, if pc.Scanning? then -1 else pc.p))
  }

  /** What every step leaves alone, whosever it is. */
  ghost predicate Kept(s: State, s': State, v: nat) {
    && |s.acts| <= |s'.acts| && (forall a :: 0 <= a < |s.acts| ==> SameActivation(s.acts[a], s'.acts[a]))
    && s.tab.current <= s'.tab.current
    && (forall t :: t != v ==> (t in s'.told <==> t in s.told) && (t in s.told ==> s'.told[t] == s.told[t]))
  }

  lemma StepKeeps(s: State, ev: Event)
    requires Inv(s)
    ensures Kept(s, Step(s, ev), ev.t)
  {
    hide Inv; hide Step;
    forall a: nat | a < |s.acts| ensures a < |Step(s, ev).acts| && SameActivation(s.acts[a], Step(s, ev).acts[a]) {
      EndsStep(s, ev, a);
    }
    StepTells(s, ev);
  }

  lemma StepTells(s: State, ev: Event)
    requires Inv(s)
    ensures var s' := Step(s, ev);
      && |s.acts| <= |s'.acts| && s.tab.current <= s'.tab.current
      && forall t :: t != ev.t ==> (t in s'.told <==> t in s.told) && (t in s.told ==> s'.told[t] == s.told[t])
  {
    hide TableInv; hide FreeInv; hide Hinted; hide ActsInv; hide Loose; hide Write; hide ScanInv; hide ReadsAhead;
    hide Looked;
    if ev.t < |s.threads| {
      var pc := s.threads[ev.t];
      assert PcInv(s.tab, pc);
      if pc.Idle? && ev.cmd.Alloc? && s.tab.free != [] && s.tab.free[0] < s.tab.max {
        WriteTells(s, s.tab.free[0], INVALID, Reallocated);
      } else if pc.CasExp? && pc.i < s.tab.max {
        WriteTells(s, pc.i, pc.exp, EndOf(pc));
      } else if pc.ExpireCas? && pc.p < s.tab.max {
        WriteTells(s, pc.p, INVALID, Fired(pc.sc.now));
      }
    }
  }

  lemma WriteTells(s: State, i: nat, exp: nat, end: End)
    requires Sized(s) && i < s.tab.max
    ensures var s' := Write(s, i, exp, end);
      |s.acts| <= |s'.acts| && s'.tab.current == s.tab.current && s'.told == s.told && s'.threads == s.threads
  {
  }

  lemma DueStays(acts: seq<Activation>, acts': seq<Activation>, known: nat, now: int, sc: Scan, p: int)
    requires |acts| <= |acts'| && known <= |acts|
    requires forall a :: 0 <= a < |acts| ==> SameActivation(acts[a], acts'[a])
    ensures NoneDue(acts, known, now) ==> NoneDue(acts', known, now)
    ensures ScanDue(acts, known, sc, p) ==> ScanDue(acts', known, sc, p)
  {
  }

  lemma WroteStays(acts: seq<Activation>, acts': seq<Activation>, made: int, ended: int, i: nat, exp: nat, active: bool)
    requires Wrote(made, ended, acts, i, exp, active) && |acts| <= |acts'|
    requires forall a :: 0 <= a < |acts| ==> SameActivation(acts[a], acts'[a])
    ensures Wrote(made, ended, acts', i, exp, active)
  {
  }

  /** Another thread's step takes nothing back. */
  lemma ServesStill(req: Request, s: State, s': State, v: nat, t: nat, pc: Pc)
    requires v != t && Serves(req, s, t, pc) && Kept(s, s', v)
    ensures Serves(Later(req, s, s', v, t), s', t, pc)
  {
    hide ClockWas; hide HintWasLate; hide WasRefused; hide WasFreed; hide ScanDue; hide NoneDue; hide Wrote;
    hide SameActivation;
    if req.Request? {
      ReturnedStill(req, s, s', v, t, pc);
      WasLater(req.since, s'.tab, req.clock, 0, false);
      if pc.Scanning? || pc.ExpireLoad? || pc.ExpireCas? {
        DueStays(s.acts, s'.acts, req.known, req.clock, pc.sc, if pc.Scanning? then -1 else pc.p);
      }
    }
  }

  lemma ReturnedStill(req: Request, s: State, s': State, v: nat, t: nat, pc: Pc)
    requires v != t && req.Request? && req.known <= |s.acts| && Kept(s, s', v)
    ensures var req' := req.(since := req.since + {s'.tab});
      && (Returned(req, s, t) ==> Returned(req', s', t))
      && (Expired(req, s.acts) ==> Expired(req', s'.acts))
      && ((req.cmd.Set? || req.cmd.Reset?) && req.cmd.exp < INVALID
          && Wrote(req.made, req.ended, s.acts, req.cmd.i, req.cmd.exp, req.cmd.Reset?) ==>
            Wrote(req.made, req.ended, s'.acts, req.cmd.i, req.cmd.exp, req.cmd.Reset?))
  {
    hide ClockWas; hide HintWasLate; hide WasRefused; hide WasFreed; hide ScanDue; hide NoneDue; hide Wrote;
    hide SameActivation;
    DueStays(s.acts, s'.acts, req.known, req.clock, Scan(0, 0, 0, [], 0), -1);
    var i := if req.cmd.Free? then req.cmd.i else TimerOf(req.cmd);
    WasLater(req.since, s'.tab, req.clock, i, !req.cmd.Set? && !req.cmd.Free?);
    if req.cmd.Set? || req.cmd.Reset? || req.cmd.Cancel? {
      var exp := if req.cmd.Cancel? then INVALID else req.cmd.exp;
      if Wrote(req.made, req.ended, s.acts, req.cmd.i, exp, !req.cmd.Set?) {
        WroteStays(s.acts, s'.acts, req.made, req.ended, req.cmd.i, exp, !req.cmd.Set?);
      }
    }
  }

  /** A call begins. */
  lemma CallServes(s: State, ev: Event)
    requires Inv(s) && ev.t < |s.threads| && s.threads[ev.t].Idle?
    ensures var s' := Step(s, ev);
      && |s'.threads| == |s.threads|
      && Serves(Request(ev.cmd, |s.acts|, -1, -1, -1, {s'.tab}), s', ev.t, s'.threads[ev.t])
  {
    hide TableInv; hide FreeInv; hide ActsInv; hide Hinted; hide PcInv; hide Write; hide Loose;
    hide ClockWas; hide HintWasLate; hide WasRefused; hide WasFreed; hide ScanDue; hide NoneDue;
    if ev.cmd.Alloc? && s.tab.free != [] && s.tab.free[0] < s.tab.max {
      WriteTells(s, s.tab.free[0], INVALID, Reallocated);
    }
  }

  /** A set, reset or cancel whose compare-and-swap succeeds. */
  lemma WriteServes(s: State, i: nat, exp: nat, end: End, active: bool)
    requires Inv(s) && i < s.tab.hi && exp <= INVALID
    requires active <==> s.tab.exps[i] != INVALID
    requires end == if exp == INVALID then Cancelled else WasReset
    ensures var s' := Write(s, i, exp, end);
      && Wrote(if |s'.acts| > |s.acts| then |s.acts| else -1, EndedIn(s.which, s'.which, i, -1),
               s'.acts, i, exp, active)
      && |s'.acts| >= |s.acts|
  {
    hide TableInv; hide FreeInv; hide Hinted; hide PcInv; hide Loose;
  }

  lemma UpdateServes(req: Request, s: State, t: nat)
    requires Inv(s) && t < |s.threads| && Serves(req, s, t, s.threads[t])
    requires s.threads[t].CheckIdx? || s.threads[t].LoadExp? || s.threads[t].CasExp?
    ensures var s' := UpdateStep(s, t);
      && |s'.threads| == |s.threads|
      && Serves(Later(req, s, s', t, t), s', t, s'.threads[t])
  {
    hide TableInv; hide FreeInv; hide ActsInv; hide Hinted; hide Write; hide Loose; hide Wrote;
    hide ClockWas; hide HintWasLate; hide WasRefused; hide WasFreed; hide ScanDue; hide NoneDue;
    var s', pc := UpdateStep(s, t), s.threads[t];
    assert PcInv(s.tab, pc);
    WasLater(req.since, s'.tab, 0, pc.i, pc.active);
    if pc.CasExp? && s.tab.exps[pc.i] == pc.seen {
      WriteServes(s, pc.i, pc.exp, EndOf(pc), pc.active);
      WriteTells(s, pc.i, pc.exp, EndOf(pc));
    }
  }

  /** The steps after an update has been made, and those of the clock and the free list. */
  lemma FinishServes(req: Request, s: State, t: nat)
    requires Inv(s) && t < |s.threads| && Serves(req, s, t, s.threads[t])
    requires !ExpirePc(s.threads[t]) && !s.threads[t].Idle?
    requires !(s.threads[t].CheckIdx? || s.threads[t].LoadExp? || s.threads[t].CasExp?)
    ensures var s' := UpdateStep(s, t);
      && |s'.threads| == |s.threads|
      && Serves(Later(req, s, s', t, t), s', t, s'.threads[t])
  {
    hide TableInv; hide FreeInv; hide ActsInv; hide Hinted; hide Write; hide Loose; hide Wrote;
    hide ClockWas; hide HintWasLate; hide WasRefused; hide WasFreed; hide ScanDue; hide NoneDue;
    var s', pc := UpdateStep(s, t), s.threads[t];
    assert PcInv(s.tab, pc);
    WasLater(req.since, s'.tab, req.clock, if req.cmd.Free? then req.cmd.i else 0, false);
  }

  /** One step of the scan keeps what is due ahead of it. */
  lemma ScanStepDue(tab: Table, acts: seq<Activation>, which: seq<int>, known: nat, sc: Scan)
    requires TableInv(tab) && ActsInv(tab, acts, which) && ScanInv(tab, sc) && ScanDue(acts, known, sc, -1)
    ensures ReadsAhead(sc) ==> sc.base + |sc.ahead| < |tab.exps|
    ensures ReadsAhead(sc) ==> ScanDue(acts, known, sc.(ahead := sc.ahead + [tab.exps[sc.base + |sc.ahead|]]), -1)
    ensures !ReadsAhead(sc) ==> sc.ahead != []
    ensures !ReadsAhead(sc) && sc.ahead[0] <= sc.now && sc.base >= sc.top ==> NoneDue(acts, known, sc.now)
    ensures !ReadsAhead(sc) && sc.ahead[0] <= sc.now && sc.base < sc.top ==> ScanDue(acts, known, Looked(sc), sc.base)
    ensures !ReadsAhead(sc) && sc.ahead[0] > sc.now ==>
      ScanDue(acts, known, Looked(sc).(low := Min(sc.low, sc.ahead[0])), -1)
  {
    hide TableInv; hide ActsInv; hide ScanInv; hide ScanDue; hide NoneDue; hide Looked; hide Min;
    ScanStepInv(tab, sc);
    if ReadsAhead(sc) { ReadDue(tab, acts, which, known, sc); } else { LookDue(acts, known, sc); }
  }

  lemma ReadDue(tab: Table, acts: seq<Activation>, which: seq<int>, known: nat, sc: Scan)
    requires ActsInv(tab, acts, which) && ScanDue(acts, known, sc, -1) && sc.base + |sc.ahead| < |tab.exps|
    ensures ScanDue(acts, known, sc.(ahead := sc.ahead + [tab.exps[sc.base + |sc.ahead|]]), -1)
  {
  }

  lemma LookDue(acts: seq<Activation>, known: nat, sc: Scan)
    requires ScanDue(acts, known, sc, -1) && sc.ahead != []
    ensures sc.ahead[0] <= sc.now && sc.base >= sc.top ==> NoneDue(acts, known, sc.now)
    ensures sc.ahead[0] <= sc.now && sc.base < sc.top ==> ScanDue(acts, known, Looked(sc), sc.base)
    ensures sc.ahead[0] > sc.now ==> ScanDue(acts, known, Looked(sc).(low := Min(sc.low, sc.ahead[0])), -1)
  {
  }

  lemma ScanServes(req: Request, s: State, t: nat)
    requires Inv(s) && t < |s.threads| && Serves(req, s, t, s.threads[t]) && s.threads[t].Scanning?
    ensures var s' := ExpireStep(s, t);
      && |s'.threads| == |s.threads|
      && Serves(Later(req, s, s', t, t), s', t, s'.threads[t])
  {
    hide TableInv; hide FreeInv; hide ActsInv; hide Hinted; hide ScanInv; hide ReadsAhead; hide Looked;
    hide ClockWas; hide HintWasLate; hide ScanDue; hide NoneDue;
    var pc := s.threads[t];
    assert PcInv(s.tab, pc);
    ScanStepDue(s.tab, s.acts, s.which, req.known, pc.sc);
    WasLater(req.since, s.tab, req.clock, 0, false);
    if pc.sc.ahead != [] { LookedNow(pc.sc); }
  }

  lemma LookedNow(sc: Scan)
    requires sc.ahead != []
    ensures Looked(sc).now == sc.now
  {
  }

  /** The scan starts with every timer that has been set ahead of it. */
  lemma StartDue(tab: Table, acts: seq<Activation>, which: seq<int>, now: nat)
    requires ActsInv(tab, acts, which)
    ensures ScanDue(acts, |acts|, Scan(now, tab.hi, 0, [], INVALID), -1)
  {
  }

  /** Firing timer p, or finding that it is not due after all, leaves the others. */
  lemma FireDue(s: State, known: nat, sc: Scan, p: nat)
    requires Inv(s) && p < s.tab.max && ScanDue(s.acts, known, sc, p) && known <= |s.acts|
    ensures s.tab.exps[p] > sc.now ==> ScanDue(s.acts, known, sc, -1)
    ensures ScanDue(Write(s, p, INVALID, Fired(sc.now)).acts, known, sc, -1)
  {
    hide TableInv; hide FreeInv; hide Hinted; hide PcInv; hide Loose; hide Ahead;
  }

  lemma FireServes(req: Request, s: State, t: nat)
    requires Inv(s) && t < |s.threads| && Serves(req, s, t, s.threads[t])
    requires s.threads[t].ExpireLoad? || s.threads[t].ExpireCas?
    ensures var s' := ExpireStep(s, t);
      && |s'.threads| == |s.threads|
      && Serves(Later(req, s, s', t, t), s', t, s'.threads[t])
  {
    hide TableInv; hide FreeInv; hide ActsInv; hide Hinted; hide ScanInv; hide Write;
    hide ClockWas; hide HintWasLate; hide ScanDue; hide NoneDue;
    var s', pc := ExpireStep(s, t), s.threads[t];
    ExpireBounds(s, t);
    FireDue(s, req.known, pc.sc, pc.p);
    WriteTells(s, pc.p, INVALID, Fired(pc.sc.now));
    WasLater(req.since, s'.tab, req.clock, 0, false);
  }

  lemma LookServes(req: Request, s: State, t: nat)
    requires Inv(s) && t < |s.threads| && Serves(req, s, t, s.threads[t])
    requires s.threads[t].ReadNow? || s.threads[t].Test? || s.threads[t].ResetEarliest? || s.threads[t].ReadTop?
    ensures var s' := ExpireStep(s, t);
      && |s'.threads| == |s.threads|
      && Serves(Later(req, s, s', t, t), s', t, s'.threads[t])
  {
    hide TableInv; hide FreeInv; hide ActsInv; hide Hinted; hide ScanInv;
    hide ClockWas; hide HintWasLate; hide ScanDue; hide NoneDue;
    var s', pc := ExpireStep(s, t), s.threads[t];
    WasLater(req.since, s'.tab, if pc.ReadNow? then s.tab.current else req.clock, 0, false);
    if pc.ReadTop? { StartDue(s.tab, s.acts, s.which, pc.now); }
  }

  lemma ServesStep(s: State, ev: Event, req: Request, t: nat)
    requires Inv(s) && t < |s.threads| && Serves(req, s, t, s.threads[t])
    ensures var s' := Step(s, ev);
      && |s'.threads| == |s.threads|
      && Serves(if ev.t == t && Begins(s, ev) then Request(ev.cmd, |s.acts|, -1, -1, -1, {s'.tab})
                else Later(req, s, s', ev.t, t), s', t, s'.threads[t])
  {
    hide Inv; hide UpdateStep; hide ExpireStep; hide Call; hide Serves; hide Later; hide Kept;
    IsSized(s);
    StepShape(s, ev);
    var s' := Step(s, ev);
    if ev.t != t {
      StepKeeps(s, ev);
      ServesStill(req, s, s', ev.t, t, s.threads[t]);
      OthersStay(s, ev, t);
    } else {
      var pc := s.threads[t];
      if pc.Idle? { CallServes(s, ev); }
      else if pc.Scanning? { ScanServes(req, s, t); }
      else if pc.ExpireLoad? || pc.ExpireCas? { FireServes(req, s, t); }
      else if ExpirePc(pc) { LookServes(req, s, t); }
      else if pc.CheckIdx? || pc.LoadExp? || pc.CasExp? { UpdateServes(req, s, t); }
      else { FinishServes(req, s, t); }
    }
  }

  lemma IsSized(s: State)
    requires Inv(s)
    ensures Sized(s)
  {
  }

  lemma OthersStay(s: State, ev: Event, t: nat)
    requires Inv(s) && t < |s.threads| && ev.t != t
    ensures |Step(s, ev).threads| == |s.threads| && Step(s, ev).threads[t] == s.threads[t]
  {
    hide Inv; hide UpdateStep; hide ExpireStep; hide Call;
    IsSized(s);
    if ev.t < |s.threads| {
      if s.threads[ev.t].Idle? { CallFrame(s, ev.t, ev.cmd); }
      else if ExpirePc(s.threads[ev.t]) { ExpirePcInv(s, ev.t); }
      else { UpdatePcInv(s, ev.t); }
    }
  }

  lemma CallFrame(s: State, t: nat, cmd: Cmd)
    requires Sized(s) && t < |s.threads|
    ensures var s' := Call(s, t, cmd); |s'.threads| == |s.threads| && s'.threads == s.threads[t := s'.threads[t]]
  {
    hide Write;
    assert s.threads[t := s.threads[t]] == s.threads;
    if cmd.Alloc? && s.tab.free != [] && s.tab.free[0] < s.tab.max {
      WriteFrame(s, s.tab.free[0], INVALID, Reallocated);
    }
  }

  /** In every run, every call does what its caller has asked for. */
  lemma {:induction false} CallsServed(max: nat, n: nat, evs: seq<Event>, t: nat)
    requires t < n
    ensures var s := Run(Init(max, n), evs);
      |s.threads| == n && Serves(LastRequest(Init(max, n), evs, t), s, t, s.threads[t])
    decreases |evs|
  {
    hide Inv; hide Step; hide Serves; hide LooseInv;
    if evs == [] {
      NothingAsked(Init(max, n), t);
    } else {
      var prev := evs[..|evs| - 1];
      RunInv(max, n, prev);
      CallsServed(max, n, prev, t);
      ServesStep(Run(Init(max, n), prev), evs[|evs| - 1], LastRequest(Init(max, n), prev, t), t);
    }
  }

  lemma NothingAsked(s: State, t: nat)
    ensures Serves(NoRequest, s, t, Idle)
  {
  }

  /** A call of lf_timer_expire that has returned has fired what was due: with the clock it read,
      no activation that had begun before the call, or before it read the high watermark of its
      scan, is live and due; unless at some moment of the call the hint was later than that clock,
      and it did not scan. */
  lemma ExpireFiresDue(max: nat, n: nat, evs: seq<Event>, t: nat)
    requires t < n
    ensures var s, req := Run(Init(max, n), evs), LastRequest(Init(max, n), evs, t);
      && |s.threads| == n
      && (s.threads[t].Idle? && req.Request? && req.cmd.Expire? ==>
            && (exists x :: x in req.since && x.current == req.clock)
            && ((exists x :: x in req.since && x.earliest > req.clock)
                || forall a :: 0 <= a < req.known && a < |s.acts| && s.acts[a].exp <= req.clock ==>
                     !s.acts[a].end.Live?))
  {
    hide Run; hide LastRequest; hide Init;
    CallsServed(max, n, evs, t);
  }

  /** A scan that is over has left none of the activations it had to meet live and due. */
  lemma ScanFiresDue(max: nat, n: nat, evs: seq<Event>, ev: Event, a: nat)
    requires ev.t < n
    ensures var s, req := Run(Init(max, n), evs), LastRequest(Init(max, n), evs, ev.t);
      && |s.threads| == n == |Step(s, ev).threads|
      && (s.threads[ev.t].Scanning? && !ExpirePc(Step(s, ev).threads[ev.t]) ==>
            req.Request? && (a < req.known && a < |s.acts| && s.acts[a].exp <= req.clock ==> !s.acts[a].end.Live?))
  {
    hide Run; hide LastRequest; hide Init; hide Inv; hide LooseInv;
    var s, req := Run(Init(max, n), evs), LastRequest(Init(max, n), evs, ev.t);
    CallsServed(max, n, evs, ev.t);
    RunInv(max, n, evs);
    IsSized(s);
    StepShape(s, ev);
    if s.threads[ev.t].Scanning? { ScanEnds(req, s, ev.t); }
  }

  lemma ScanEnds(req: Request, s: State, t: nat)
    requires Inv(s) && t < |s.threads| && Serves(req, s, t, s.threads[t]) && s.threads[t].Scanning?
    ensures var s' := ExpireStep(s, t);
      && |s'.threads| == |s.threads| && req.Request?
      && (!ExpirePc(s'.threads[t]) ==> NoneDue(s.acts, req.known, req.clock))
  {
    hide FreeInv; hide ActsInv; hide Hinted; hide ScanInv; hide TableInv; hide ScanDue; hide NoneDue;
    var pc := s.threads[t];
    assert PcInv(s.tab, pc);
    ScanStepDue(s.tab, s.acts, s.which, req.known, pc.sc);
  }

  /** What set, reset and cancel answer.  They say yes exactly when they have done what they were
      asked: a set has begun an activation of the timer with the given expiration and ended none, a
      reset has ended a live one and begun another, a cancel has ended a live one.  They say no
      only if the expiration is not valid or if at some moment of the call the timer was not
      allocated, was active already for a set, or was not active for a reset or cancel. */
  lemma UpdatesAnswer(max: nat, n: nat, evs: seq<Event>, t: nat, i: nat, exp: nat)
    requires t < n
    ensures var s, req := Run(Init(max, n), evs), LastRequest(Init(max, n), evs, t);
      && |s.threads| == n
      && (s.threads[t].Idle? && req.Request? && req.cmd in {Set(i, exp), Reset(i, exp), Cancel(i)} ==>
            && t in s.told
            && (s.told[t] ==>
                  && (req.cmd.Set? <==> req.ended == -1) && (req.cmd.Cancel? <==> req.made == -1)
                  && (req.ended != -1 ==>
                        && 0 <= req.ended < |s.acts| && s.acts[req.ended].timer == i
                        && s.acts[req.ended].end == (if req.cmd.Cancel? then Cancelled else WasReset))
                  && (req.made != -1 ==>
                        && 0 <= req.made < |s.acts| && s.acts[req.made].timer == i && s.acts[req.made].exp == exp))
            && (!s.told[t] ==>
                  || (!req.cmd.Cancel? && exp >= INVALID)
                  || (exists x :: x in req.since && Refuses(x, i, !req.cmd.Set?))))
  {
    hide Run; hide LastRequest; hide Init; hide Inv; hide LooseInv;
    CallsServed(max, n, evs, t);
    RunInv(max, n, evs);
    MadeAreValid(Run(Init(max, n), evs));
  }

  lemma MadeAreValid(s: State)
    requires Inv(s)
    ensures forall a :: 0 <= a < |s.acts| ==> s.acts[a].exp < INVALID
  {
  }

  /** A call of lf_timer_tick_set that has returned leaves the clock no earlier than it asked, and
      one of lf_timer_free has put the timer on the free list or has at some moment found it not
      allocated or active. */
  lemma TickAndFreeReturn(max: nat, n: nat, evs: seq<Event>, t: nat)
    requires t < n
    ensures var s, req := Run(Init(max, n), evs), LastRequest(Init(max, n), evs, t);
      && |s.threads| == n
      && (s.threads[t].Idle? && req.Request? && req.cmd.Tick? && req.cmd.tick < INVALID ==>
            s.tab.current >= req.cmd.tick)
      && (s.threads[t].Idle? && req.Request? && req.cmd.Free? ==>
            exists x :: x in req.since &&
              ((x.free != [] && x.free[0] == req.cmd.i) || Refuses(x, req.cmd.i, false)))
  {
    hide Run; hide LastRequest; hide Init;
    CallsServed(max, n, evs, t);
    var s, req := Run(Init(max, n), evs), LastRequest(Init(max, n), evs, t);
    if s.threads[t].Idle? && req.Request? && req.cmd.Free? {
      if WasRefused(req.since, req.cmd.i, false) {
        var x :| x in req.since && Refuses(x, req.cmd.i, false);
      } else {
        var x :| x in req.since && x.free != [] && x.free[0] == req.cmd.i;
      }
    }
  }

  /** The command a step works for. */
  function Working(s: State, ev: Event, req: Request): Cmd {
    if ev.t < |s.threads| && !s.threads[ev.t].Idle? && req.Request? then req.cmd else ev.cmd
  }

  /** Who ends an activation, and how it is recorded: expire fires it, reset and cancel of its own
      timer end it as such, and nothing else but an allocation does. */
  lemma EndedBy(max: nat, n: nat, evs: seq<Event>, ev: Event, a: nat)
    requires var s := Run(Init(max, n), evs); a < |s.acts| && s.acts[a].end.Live?
    ensures var s, s' := Run(Init(max, n), evs), Run(Init(max, n), evs + [ev]);
      a < |s'.acts| &&
      var cmd := Working(s, ev, LastRequest(Init(max, n), evs, ev.t));
      match s'.acts[a].end
      case Live => true
      case Fired(at) => cmd == Expire && s.acts[a].exp <= at
      case WasReset => cmd.Reset? && cmd.i == s.acts[a].timer
      case Cancelled => cmd == Cancel(s.acts[a].timer)
      case Reallocated => cmd == Alloc
  {
    hide LastRequest; hide Init; hide Inv; hide LooseInv; hide Step; hide Serves;
    assert (evs + [ev])[..|evs|] == evs;
    var s := Run(Init(max, n), evs);
    RunInv(max, n, evs);
    if ev.t < n { CallsServed(max, n, evs, ev.t); }
    EndedByStep(s, ev, LastRequest(Init(max, n), evs, ev.t), a);
  }

  lemma EndedByStep(s: State, ev: Event, req: Request, a: nat)
    requires Inv(s) && a < |s.acts| && s.acts[a].end.Live?
    requires ev.t < |s.threads| ==> Serves(req, s, ev.t, s.threads[ev.t])
    ensures var s' := Step(s, ev);
      a < |s'.acts| &&
      var cmd := Working(s, ev, req);
      match s'.acts[a].end
      case Live => true
      case Fired(at) => cmd == Expire && s.acts[a].exp <= at
      case WasReset => cmd.Reset? && cmd.i == s.acts[a].timer
      case Cancelled => cmd == Cancel(s.acts[a].timer)
      case Reallocated => cmd == Alloc
  {
    hide TableInv; hide FreeInv; hide Hinted; hide Loose; hide Write; hide ReadsAhead; hide Min; hide ScanInv;
    hide ClockWas; hide HintWasLate; hide WasRefused; hide WasFreed; hide ScanDue; hide NoneDue; hide Wrote;
    if ev.t < |s.threads| {
      var pc := s.threads[ev.t];
      assert PcInv(s.tab, pc);
      if pc.Idle? {
        if ev.cmd.Alloc? && s.tab.free != [] && s.tab.free[0] < s.tab.max {
          WriteEndsOne(s, s.tab.free[0], INVALID, Reallocated, a);
        }
      } else if pc.CasExp? && pc.i < s.tab.max {
        WriteEndsOne(s, pc.i, pc.exp, EndOf(pc), a);
      } else if pc.ExpireCas? && pc.p < s.tab.max {
        WriteEndsOne(s, pc.p, INVALID, Fired(pc.sc.now), a);
      }
    }
  }

  lemma WriteEndsOne(s: State, i: nat, exp: nat, end: End, a: nat)
    requires Sized(s) && ActsInv(s.tab, s.acts, s.which) && a < |s.acts| && i < s.tab.max && s.acts[a].end.Live?
    ensures var s' := Write(s, i, exp, end);
      && a < |s'.acts|
      && (if s.acts[a].timer == i then s'.acts[a].end == end && s.tab.exps[i] == s.acts[a].exp
          else s'.acts[a].end.Live?)
  {
    hide Loose;
  }

  // ------------------------------------------------------------------ the scan on its own

  /** The smallest entry, INVALID when there is none. */
  function Lowest(exps: seq<nat>): (low: nat)
    ensures low <= INVALID && forall i :: 0 <= i < |exps| ==> low <= exps[i]
    ensures low == INVALID || low in exps
  {
    if exps == [] then INVALID else Min(Lowest(exps[..|exps| - 1]), exps[|exps| - 1])
  }

  /** Entries before p have been looked at: the due ones fired, the others untouched. */
  ghost predicate Swept(exps: seq<nat>, was: seq<nat>, now: nat, p: nat) {
    && p <= |exps| == |was|
    && (forall i :: 0 <= i < p ==> exps[i] == if was[i] <= now then INVALID else was[i])
    && (forall i :: p <= i < |exps| ==> exps[i] == was[i])
  }

  /** One look of the scan, at entry p whose value w was read earlier. */
  method Look(exps: array<nat>, now: nat, top: nat, p: nat, w: nat, low: nat, ghost was: seq<nat>)
    returns (stop: bool, low': nat)
    requires p < exps.Length && w == exps[p] && now < INVALID
    requires Swept(exps[..], was, now, p) && low == Lowest(exps[..p])
    modifies exps
    ensures stop == (w <= now && p >= top)
    ensures stop ==> exps[..] == old(exps[..]) && low' == low
    ensures !stop ==> Swept(exps[..], was, now, p + 1) && low' == Lowest(exps[..p + 1])
  {
    stop, low' := false, low;
    if w <= now {
      if p >= top {
        stop := true;
      } else {
        exps[p] := INVALID;
      }
    } else {
      low' := Min(low, w);
    }
    assert !stop ==> exps[..p + 1][..p] == old(exps[..p]);
  }

  /** Two looks, at entries p and p + 1. */
  method LookPair(exps: array<nat>, now: nat, top: nat, p: nat, w0: nat, w1: nat, low: nat, ghost was: seq<nat>)
    returns (done: bool, low': nat, ghost stop: nat)
    requires p + 1 < exps.Length && w0 == exps[p] && w1 == exps[p + 1] && now < INVALID
    requires Swept(exps[..], was, now, p) && low == Lowest(exps[..p])
    modifies exps
    ensures p <= stop <= p + 2 && (done <==> stop < p + 2)
    ensures Swept(exps[..], was, now, stop) && low' == Lowest(exps[..stop])
    ensures forall i :: p <= i < stop && top <= i ==> was[i] > now
    ensures done ==> was[stop] <= now && stop >= top
  {
    hide Lowest;
    done, low' := Look(exps, now, top, p, w0, low, was);
    stop := p;
    if !done {
      done, low' := Look(exps, now, top, p + 1, w1, low', was);
      stop := if done then p + 1 else p + 2;
    }
  }

  /** scan_timers without interference: with four zero entries after the last timer the
      unrolled loop stops inside the table, at the first entry from `top` on that is not after
      `now`; it has fired exactly the due timers before that entry and returns the smallest
      expiration left before it. */
  method ScanTimers(exps: array<nat>, now: nat, top: nat) returns (earliest: nat, ghost stop: nat)
    requires exps.Length >= 4 && top <= exps.Length - 4 && now < INVALID
    requires forall i :: exps.Length - 4 <= i < exps.Length ==> exps[i] == 0
    modifies exps
    ensures top <= stop <= exps.Length - 4 && old(exps[stop]) <= now
    ensures forall i :: top <= i < stop ==> old(exps[i]) > now
    ensures Swept(exps[..], old(exps[..]), now, stop)
    ensures earliest == Lowest(exps[..stop])
  {
    ghost var was := exps[..];
    var max := exps.Length - 4;
    earliest, stop := INVALID, 0;
    var pair0, pair1 := exps[0], exps[1];
    var ptr, done := 2, false;
    while !done
      invariant done ==> top <= stop <= max && was[stop] <= now
      invariant !done ==> 2 <= ptr <= max + 2 && stop == ptr - 2 && pair0 == exps[ptr - 2] && pair1 == exps[ptr - 1]
      invariant stop <= max && Swept(exps[..], was, now, stop) && earliest == Lowest(exps[..stop])
      invariant forall i :: top <= i < stop ==> was[i] > now
      decreases !done, max - stop
    {
      var w0, w1 := pair0, pair1;
      pair0, pair1, ptr := exps[ptr], exps[ptr + 1], ptr + 2;
      done, earliest, stop := LookPair(exps, now, top, ptr - 4, w0, w1, earliest, was);
      if !done {
        w0, w1 := pair0, pair1;
        pair0, pair1, ptr := exps[ptr], exps[ptr + 1], ptr + 2;
        done, earliest, stop := LookPair(exps, now, top, ptr - 4, w0, w1, earliest, was);
      }
    }
  }
}
