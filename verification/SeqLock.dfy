/** The sequence lock of seqlock/seqlock.c.  Writers make the counter odd, copy their data in
    and make it even again; a reader copies the data out and keeps the copy if the counter has
    not changed.  Data is copied piece by piece, so a copy may meet a write half way.

    Each atomic access is one step and a run is any schedule.  The counter is 32 bits wide:
    `count` is how often it has been incremented, and what a thread reads is `count` modulo
    2^32. */
module SeqLock {

  const MODULUS: nat := 0x1_0000_0000

  type Data = seq<int>

  datatype Pc =
    | Idle
    // seqlock_write
    | WLoad(d: Data)
    | WCas(d: Data, seen: nat)
    | WCopy(d: Data, k: nat)
    | WRelease
    // seqlock_read: `since` is the value of `count` when the counter was read
    | RLoad
    | RCopy(since: nat, buf: Data)
    | RCheck(since: nat, buf: Data)

  /** What a read returned, with the value of `count` when the attempt that succeeded, the read's
      last, loaded the counter before its copy and after it. */
  datatype Result = Result(buf: Data, since: nat, until: nat)

  /** `versions` lists the data of all writes begun so far, after the initial data; `results`
      what the reads that are over returned; `writer` is the thread between making the counter
      odd and making it even, -1 for none. */
  datatype State = State(count: nat, data: Data, threads: seq<Pc>, versions: seq<Data>, results: seq<Result>,
      writer: int)

  datatype Cmd = Write(d: Data) | Read
  datatype Event = Event(t: nat, cmd: Cmd)

  function Goto(s: State, t: nat, pc: Pc): State
    requires t < |s.threads|
  {
    s.(threads := s.threads[t := pc])
  }

  /** What a load of the counter returns. */
  function Counter(count: nat): nat { count % MODULUS }

  function WriteStep(s: State, t: nat): State
    requires t < |s.threads|
  {
    match s.threads[t]
    case WLoad(d) => if Counter(s.count) % 2 == 0 then Goto(s, t, WCas(d, Counter(s.count))) else s
    case WCas(d, seen) =>
      if Counter(s.count) != seen then Goto(s, t, WLoad(d))
      else Goto(s.(count := s.count + 1, versions := s.versions + [d], writer := t), t, WCopy(d, 0))
    case WCopy(d, k) =>
      if k < |d| && k < |s.data| then Goto(s.(data := s.data[k := d[k]]), t, WCopy(d, k + 1)) else Goto(s, t, WRelease)
    case WRelease => Goto(s.(count := s.count + 1, writer := -1), t, Idle)
    case _ => s
  }

  function ReadStep(s: State, t: nat): State
    requires t < |s.threads|
  {
    match s.threads[t]
    case RLoad => if Counter(s.count) % 2 == 0 then Goto(s, t, RCopy(s.count, [])) else s
    case RCopy(since, buf) =>
      if |buf| < |s.data| then Goto(s, t, RCopy(since, buf + [s.data[|buf|]])) else Goto(s, t, RCheck(since, buf))
    case RCheck(since, buf) =>
      if Counter(s.count) == Counter(since)
          then Goto(s.(results := s.results + [Result(buf, since, s.count)]), t, Idle) else Goto(s, t, RLoad)
    case _ => s
  }

  predicate WritePc(pc: Pc) { pc.WLoad? || pc.WCas? || pc.WCopy? || pc.WRelease? }

  function Step(s: State, ev: Event): State {
    if ev.t >= |s.threads| then s
    else if s.threads[ev.t].Idle? then
      if ev.cmd.Read? then Goto(s, ev.t, RLoad)
      else if |ev.cmd.d| == |s.data| then Goto(s, ev.t, WLoad(ev.cmd.d))
      else s
    else if WritePc(s.threads[ev.t]) then WriteStep(s, ev.t)
    else ReadStep(s, ev.t)
  }

  function Init(n: nat, d: Data): State {
    State(0, d, seq(n, _ => Idle), [d], [], -1)
  }

  function Run(s: State, evs: seq<Event>): State
    decreases |evs|
  {
    if evs == [] then s else Step(Run(s, evs[..|evs| - 1]), evs[|evs| - 1])
  }

  // ------------------------------------------------------------------ invariant

  predicate Writing(pc: Pc) { pc.WCopy? || pc.WRelease? }

  ghost predicate OneWriter(threads: seq<Pc>, count: nat, writer: int) {
    && (forall t :: 0 <= t < |threads| ==> (Writing(threads[t]) <==> writer == t))
    && (count % 2 == 1 <==> writer != -1)
  }

  /** The data is the last version, except for what a writer in progress has not copied yet. */
  ghost predicate DataInv(s: State) {
    && |s.versions| == (s.count + 1) / 2 + 1
    && (forall j :: 0 <= j < |s.versions| ==> |s.versions[j]| == |s.data|)
    && (s.count % 2 == 0 ==> s.data == s.versions[s.count / 2])
  }

  ghost predicate PcInv(s: State, pc: Pc) {
    && (pc.WLoad? || pc.WCas? || pc.WCopy? ==> |pc.d| == |s.data|)
    && (pc.WCas? ==> pc.seen % 2 == 0)
    && (pc.WCopy? ==>
          && s.versions != [] && pc.d == s.versions[|s.versions| - 1]
          && pc.k <= |s.data| && pc.d[..pc.k] == s.data[..pc.k])
    && (pc.WRelease? ==> s.versions != [] && s.data == s.versions[|s.versions| - 1])
    && (pc.RCopy? || pc.RCheck? ==>
          pc.since <= s.count && pc.since % 2 == 0
          && (pc.since == s.count ==> pc.buf <= s.data))
    && (pc.RCopy? ==> |pc.buf| <= |s.data|)
    && (pc.RCheck? ==> |pc.buf| == |s.data|)
  }

  ghost predicate Inv(s: State) {
    && OneWriter(s.threads, s.count, s.writer)
    && DataInv(s)
    && (forall t :: 0 <= t < |s.threads| ==> PcInv(s, s.threads[t]))
  }

  lemma EvenCounter(count: nat)
    ensures Counter(count) % 2 == count % 2
  {
  }

  lemma InitInv(n: nat, d: Data)
    ensures Inv(Init(n, d))
  {
  }

  /** Steps that write neither the counter nor the data. */
  lemma OnlyMoves(s: State, t: nat, pc: Pc, results: seq<Result>)
    requires Inv(s) && t < |s.threads| && PcInv(s, pc) && !Writing(s.threads[t]) && !Writing(pc)
    ensures Inv(Goto(s.(results := results), t, pc))
  {
    var s' := Goto(s.(results := results), t, pc);
    hide DataInv;
    forall u | 0 <= u < |s'.threads| ensures PcInv(s', s'.threads[u]) {
      assert PcInv(s, if u == t then pc else s.threads[u]);
    }
  }

  /** The compare-and-swap that makes the counter odd finds no writer in progress, whether or
      not the counter has gone round in the meantime. */
  lemma BeginInv(s: State, t: nat)
    requires Inv(s) && t < |s.threads| && s.threads[t].WCas? && Counter(s.count) == s.threads[t].seen
    ensures Inv(WriteStep(s, t))
  {
    var s' := WriteStep(s, t);
    assert PcInv(s, s.threads[t]);
    EvenCounter(s.count);
    assert s'.data[..0] == s'.threads[t].d[..0];
    forall u | 0 <= u < |s'.threads| ensures PcInv(s', s'.threads[u]) { assert PcInv(s, s.threads[u]); }
  }

  lemma CopyInv(s: State, t: nat)
    requires Inv(s) && t < |s.threads| && s.threads[t].WCopy?
    ensures Inv(WriteStep(s, t))
  {
    var s', pc := WriteStep(s, t), s.threads[t];
    assert PcInv(s, pc);
    if pc.k < |s.data| {
      assert s'.data[..pc.k + 1] == s.data[..pc.k] + [pc.d[pc.k]] == pc.d[..pc.k + 1];
    } else {
      assert pc.d == pc.d[..pc.k] == s.data[..pc.k] == s.data;
    }
    forall u | 0 <= u < |s'.threads| ensures PcInv(s', s'.threads[u]) { assert PcInv(s, s.threads[u]); }
  }

  lemma ReleaseInv(s: State, t: nat)
    requires Inv(s) && t < |s.threads| && s.threads[t].WRelease?
    ensures Inv(WriteStep(s, t))
  {
    var s' := WriteStep(s, t);
    assert PcInv(s, s.threads[t]);
    forall u | 0 <= u < |s'.threads| ensures PcInv(s', s'.threads[u]) { assert PcInv(s, s.threads[u]); }
  }

  lemma StepInv(s: State, ev: Event)
    requires Inv(s)
    ensures Inv(Step(s, ev))
  {
    var s', t := Step(s, ev), ev.t;
    if t < |s.threads| && s' != s {
      var pc := s.threads[t];
      assert PcInv(s, pc);
      EvenCounter(s.count);
      if pc.WCopy? { CopyInv(s, t); }
      else if pc.WRelease? { ReleaseInv(s, t); }
      else if pc.WCas? && Counter(s.count) == pc.seen { BeginInv(s, t); }
      else {
        if pc.RCopy? && |pc.buf| < |s.data| {
          assert s.data[..|pc.buf| + 1] == s.data[..|pc.buf|] + [s.data[|pc.buf|]];
        }
        OnlyMoves(s, t, s'.threads[t], s'.results);
      }
    }
  }

  /** The number of writes begun while the read took place. */
  function Writes(r: Result): int { (r.until - r.since) / 2 }

  /** A read that fewer than 2^31 writes overlapped returned the version that was there when it
      began, as a whole. */
  ghost predicate Whole(r: Result, versions: seq<Data>) {
    && 0 <= r.since / 2 < |versions|
    && r.since % 2 == 0 && r.since <= r.until
    && (r.until - r.since) % MODULUS == 0
    && (Writes(r) < MODULUS / 2 ==> r.buf == versions[r.since / 2])
  }

  ghost predicate AllWhole(s: State) {
    forall j :: 0 <= j < |s.results| ==> Whole(s.results[j], s.versions)
  }

  /** The counter takes two moments for the same exactly when the increments between them are a
      multiple of 2^32, so it tells them apart when there are fewer. */
  lemma CounterAgrees(since: nat, count: nat)
    requires since <= count
    ensures Counter(since) == Counter(count) <==> (count - since) % MODULUS == 0
    ensures count - since < MODULUS && Counter(since) == Counter(count) ==> since == count
  {
  }

  /** What a read is about to keep with fewer than 2^32 increments since it began is what is in
      the lock, and no write is in progress. */
  lemma KeptIsWhole(s: State, t: nat)
    requires Inv(s) && t < |s.threads| && s.threads[t].RCheck?
    requires Counter(s.threads[t].since) == Counter(s.count) && s.count - s.threads[t].since < MODULUS
    ensures s.threads[t].since == s.count && s.writer == -1
    ensures s.threads[t].buf == s.data == s.versions[s.count / 2]
  {
    var pc := s.threads[t];
    assert PcInv(s, pc);
    CounterAgrees(pc.since, s.count);
    assert pc.buf == s.data[..|s.data|] == s.data;
  }

  lemma WholeStep(s: State, ev: Event)
    requires Inv(s) && AllWhole(s)
    ensures AllWhole(Step(s, ev))
  {
    var s', t := Step(s, ev), ev.t;
    if t < |s.threads| && s.threads[t].RCheck? {
      var pc := s.threads[t];
      assert PcInv(s, pc);
      CounterAgrees(pc.since, s.count);
      if Counter(s.count) == Counter(pc.since) && s.count - pc.since < MODULUS { KeptIsWhole(s, t); }
    }
    forall j | 0 <= j < |s'.results| ensures Whole(s'.results[j], s'.versions) {
      if j < |s.results| { assert Whole(s.results[j], s.versions); }
    }
  }

  lemma {:induction false} RunInv(n: nat, d: Data, evs: seq<Event>)
    ensures var s := Run(Init(n, d), evs); Inv(s) && AllWhole(s) && |s.threads| == n && |s.data| == |d|
    decreases |evs|
  {
    if evs == [] {
      InitInv(n, d);
    } else {
      RunInv(n, d, evs[..|evs| - 1]);
      var s := Run(Init(n, d), evs[..|evs| - 1]);
      StepInv(s, evs[|evs| - 1]);
      WholeStep(s, evs[|evs| - 1]);
    }
  }

  // ------------------------------------------------------------------ a run that goes wrong

  ghost predicate Reaches(s: State, s': State) { exists evs :: s' == Run(s, evs) }

  lemma ReachesStep(s: State, s1: State, ev: Event)
    requires Reaches(s, s1)
    ensures Reaches(s, Step(s1, ev))
  {
    var evs :| s1 == Run(s, evs);
    assert (evs + [ev])[..|evs|] == evs;
    assert Step(s1, ev) == Run(s, evs + [ev]);
  }

  /** A writer that is not disturbed copies its data in. */
  lemma {:induction false} CopyAll(o: State, s: State, t: nat)
    requires Reaches(o, s) && t < |s.threads| && s.threads[t].WCopy? && |s.threads[t].d| == |s.data|
    requires s.threads[t].k <= |s.data| && s.data[..s.threads[t].k] == s.threads[t].d[..s.threads[t].k]
    ensures Reaches(o, s.(data := s.threads[t].d, threads := s.threads[t := WRelease]))
    decreases |s.data| - s.threads[t].k
  {
    var pc, s' := s.threads[t], Step(s, Event(t, Read));
    ReachesStep(o, s, Event(t, Read));
    if pc.k < |s.data| {
      assert s' == s.(data := s.data[pc.k := pc.d[pc.k]], threads := s.threads[t := WCopy(pc.d, pc.k + 1)]);
      assert s'.data[..pc.k + 1] == pc.d[..pc.k + 1];
      CopyAll(o, s', t);
      assert s'.threads[t := WRelease] == s.threads[t := WRelease];
    } else {
      assert s.data == s.data[..pc.k] == pc.d[..pc.k] == pc.d;
    }
  }

  /** One undisturbed write. */
  lemma WriteOnce(o: State, s: State, t: nat, d: Data)
    requires Reaches(o, s) && t < |s.threads| && s.threads[t].Idle? && |d| == |s.data| && s.count % 2 == 0
    requires s.writer == -1
    ensures Reaches(o, s.(count := s.count + 2, data := d, versions := s.versions + [d]))
  {
    var e := Event(t, Write(d));
    EvenCounter(s.count);
    var s1 := Goto(s, t, WLoad(d));
    assert s1 == Step(s, e);
    ReachesStep(o, s, e);
    var s2 := Goto(s, t, WCas(d, Counter(s.count)));
    assert s2 == Step(s1, e);
    ReachesStep(o, s1, e);
    var s3 := Goto(s.(count := s.count + 1, versions := s.versions + [d], writer := t), t, WCopy(d, 0));
    assert s3 == Step(s2, e);
    ReachesStep(o, s2, e);
    CopyAll(o, s3, t);
    var s4 := s3.(data := d, threads := s3.threads[t := WRelease]);
    ReachesStep(o, s4, e);
    assert Step(s4, e).threads == s.threads;
  }

  lemma {:induction false} WriteMany(o: State, s: State, t: nat, d: Data, m: nat) returns (s': State)
    requires Reaches(o, s) && t < |s.threads| && s.threads[t].Idle? && |d| == |s.data| && s.count % 2 == 0
    requires s.writer == -1
    ensures Reaches(o, s') && s' == s.(count := s.count + 2 * m, data := s'.data, versions := s'.versions)
    ensures s'.data == (if m == 0 then s.data else d) && |s'.versions| == |s.versions| + m
    ensures forall v :: v in s'.versions ==> v in s.versions || v == d
    decreases m
  {
    s' := s;
    if m > 0 {
      s' := WriteMany(o, s, t, d, m - 1);
      WriteOnce(o, s', t, d);
      s' := s'.(count := s'.count + 2, data := d, versions := s'.versions + [d]);
    }
  }

  /** A reader that is not disturbed copies the rest of the data out. */
  lemma {:induction false} ReadRest(o: State, s: State, t: nat)
    requires Reaches(o, s) && t < |s.threads| && s.threads[t].RCopy? && |s.threads[t].buf| <= |s.data|
    ensures var buf := s.threads[t].buf;
      Reaches(o, Goto(s, t, RCheck(s.threads[t].since, buf + s.data[|buf|..])))
    decreases |s.data| - |s.threads[t].buf|
  {
    var pc, s' := s.threads[t], Step(s, Event(t, Read));
    ReachesStep(o, s, Event(t, Read));
    if |pc.buf| < |s.data| {
      ReadRest(o, s', t);
      assert pc.buf + [s.data[|pc.buf|]] + s.data[|pc.buf| + 1..] == pc.buf + s.data[|pc.buf|..];
      assert s'.threads[t := RCheck(pc.since, pc.buf + s.data[|pc.buf|..])] ==
          s.threads[t := RCheck(pc.since, pc.buf + s.data[|pc.buf|..])];
    } else {
      assert pc.buf + s.data[|pc.buf|..] == pc.buf;
    }
  }

  lemma ReadFirst(n: nat, d: Data)
    requires n >= 2 && |d| >= 2
    ensures var o := Init(n, d); Reaches(o, Goto(o, 0, RCopy(0, [d[0]])))
  {
    var o, e := Init(n, d), Event(0, Read);
    assert o == Run(o, []);
    ReachesStep(o, o, e);
    var s1 := Goto(o, 0, RLoad);
    assert s1 == Step(o, e);
    ReachesStep(o, s1, e);
    var s2 := Goto(o, 0, RCopy(0, []));
    assert s2.threads == s1.threads[0 := RCopy(0, [])];
    assert s2 == Step(s1, e);
    ReachesStep(o, s2, e);
    assert [] + [d[0]] == [d[0]];
    assert Goto(o, 0, RCopy(0, [d[0]])).threads == s2.threads[0 := RCopy(0, [d[0]])];
    assert Goto(o, 0, RCopy(0, [d[0]])) == Step(s2, e);
  }

  /** What a reader is left with that has its first piece before m writes of d' and the rest after. */
  lemma ReadAcrossWrites(n: nat, d: Data, d': Data, m: nat) returns (s: State)
    requires n >= 2 && |d| == |d'| >= 2 && 0 < m
    ensures Reaches(Init(n, d), s) && 0 < |s.threads| && s.count == 2 * m && s.results == []
    ensures s.threads[0] == RCheck(0, [d[0]] + d'[1..]) && forall v :: v in s.versions ==> v == d || v == d'
  {
    var o := Init(n, d);
    ReadFirst(n, d);
    var s3 := Goto(o, 0, RCopy(0, [d[0]]));
    hide Step; hide Run; hide Reaches;
    var s4 := WriteMany(o, s3, 1, d', m);
    ReadRest(o, s4, 0);
    s := Goto(s4, 0, RCheck(0, [d[0]] + d'[1..]));
  }

  /** A read of the state's that w writes overlapped and that returned no version. */
  ghost predicate Mixed(s: State, j: int, w: int) {
    0 <= j < |s.results| && Writes(s.results[j]) == w && s.results[j].buf !in s.versions
  }

  /** Where the increments of w writes bring the counter back to where it was. */
  lemma CounterWraps(w: nat)
    requires w % (MODULUS / 2) == 0
    ensures Counter(2 * w) == 0
  {
    var q := w / (MODULUS / 2);
    assert 2 * w == q * MODULUS;
  }

  /** The last step of a read that w writes overlapped, for w a multiple of 2^31. */
  lemma MixedCheck(s: State, buf: Data, w: nat)
    requires 0 < |s.threads| && s.threads[0] == RCheck(0, buf) && s.count == 2 * w && s.results == []
    requires w % (MODULUS / 2) == 0 && buf !in s.versions
    ensures Mixed(Step(s, Event(0, Read)), 0, w)
  {
    hide Counter;
    CounterWraps(w);
    assert Counter(0) == 0 by { CounterWraps(0); }
    assert Step(s, Event(0, Read)).results == [Result(buf, 0, 2 * w)];
  }

  /** With 2^31 writes, or a multiple of that, between its first and its second piece, a reader
      keeps a mix of two versions. */
  lemma MixedRead(n: nat, d: Data, w: nat) returns (s': State)
    requires n >= 2 && |d| >= 2 && w > 0 && w % (MODULUS / 2) == 0
    ensures Reaches(Init(n, d), s') && Mixed(s', 0, w)
  {
    hide Step; hide Run; hide Reaches; hide Mixed; hide Init;
    var d' := seq(|d|, j requires 0 <= j < |d| => d[j] + 1);
    var s := ReadAcrossWrites(n, d, d', w);
    var e, buf := Event(0, Read), [d[0]] + d'[1..];
    ReachesStep(Init(n, d), s, e);
    assert buf[0] != d'[0] && buf[1] != d[1];
    MixedCheck(s, buf, w);
    s' := Step(s, e);
  }

  /** However many writes a run has: a read that fewer than 2^31 of them overlapped returned the
      data of one write, and any that overlapped none that of the last write before it. */
  lemma ReadsAreWhole(n: nat, d: Data, s: State, j: nat)
    requires Reaches(Init(n, d), s) && j < |s.results| && Writes(s.results[j]) < MODULUS / 2
    ensures s.results[j].since == s.results[j].until && s.results[j].since / 2 < |s.versions|
    ensures s.results[j].buf == s.versions[s.results[j].since / 2]
  {
    var evs :| s == Run(Init(n, d), evs);
    RunInv(n, d, evs);
    assert Whole(s.results[j], s.versions);
  }

  lemma WholeUnlessWrapped(r: Result, versions: seq<Data>)
    requires Whole(r, versions)
    ensures r.buf in versions || (Writes(r) > 0 && Writes(r) % (MODULUS / 2) == 0)
  {
    var q := (r.until - r.since) / MODULUS;
    assert r.until - r.since == q * MODULUS;
    assert Writes(r) == q * (MODULUS / 2);
  }

  /** For every number of writes w: some run has a read that w writes overlapped and that is not
      whole, if and only if w is a multiple of 2^31 other than 0. */
  lemma MixedExactlyAtWraps(n: nat, d: Data, w: nat)
    requires n >= 2 && |d| >= 2
    ensures (exists s, j :: Reaches(Init(n, d), s) && Mixed(s, j, w)) <==> w > 0 && w % (MODULUS / 2) == 0
  {
    hide Init; hide Inv; hide Whole; hide Writes;
    if w > 0 && w % (MODULUS / 2) == 0 {
      var s := MixedRead(n, d, w);
      assert Mixed(s, 0, w);
    } else {
      forall s, j | Reaches(Init(n, d), s) ensures !Mixed(s, j, w) {
        var evs :| s == Run(Init(n, d), evs);
        RunInv(n, d, evs);
        if 0 <= j < |s.results| {
          assert Whole(s.results[j], s.versions); WholeUnlessWrapped(s.results[j], s.versions);
        }
      }
    }
  }

  /** At every moment of every run: a reader that is about to keep its copy, fewer than 2^31
      writes after it began, has the data as it is, which is one version as a whole; and there
      is never more than one writer between making the counter odd and making it even. */
  lemma AcceptedReadIsWhole(n: nat, d: Data, s: State, t: nat)
    requires Reaches(Init(n, d), s) && t < n
    ensures |s.threads| == n
    ensures var pc := s.threads[t];
      pc.RCheck? && Counter(pc.since) == Counter(s.count) && s.count - pc.since < MODULUS ==>
        pc.buf == s.data && s.data in s.versions
    ensures forall u, v :: 0 <= u < v < n ==> !(Writing(s.threads[u]) && Writing(s.threads[v]))
  {
    var evs :| s == Run(Init(n, d), evs);
    RunInv(n, d, evs);
    if s.threads[t].RCheck? && Counter(s.threads[t].since) == Counter(s.count)
        && s.count - s.threads[t].since < MODULUS {
      KeptIsWhole(s, t);
    }
  }

  // ------------------------------------------------------------------ what a call was asked for

  /** A call as its caller sees it: the command, the counter when it began, and the number of the
      version it wrote or of the result it returned, -1 for none yet. */
  datatype Call = NoCall | Call(cmd: Cmd, from: nat, made: int)

  predicate Begins(s: State, ev: Event) {
    ev.t < |s.threads| && s.threads[ev.t].Idle? && (ev.cmd.Write? ==> |ev.cmd.d| == |s.data|)
  }

  /** The call goes on with a step of its thread from s to s'. */
  function Later(call: Call, s: State, s': State): Call {
    if call.NoCall? then NoCall
    else if |s'.versions| > |s.versions| then call.(made := |s.versions|)
    else if |s'.results| > |s.results| then call.(made := |s.results|)
    else call
  }

  /** The last call that thread t has begun in a run, told from the schedule. */
  ghost function LastCall(o: State, evs: seq<Event>, t: nat): Call
    decreases |evs|
  {
    if evs == [] then NoCall
    else
      var s, ev := Run(o, evs[..|evs| - 1]), evs[|evs| - 1];
      var call := LastCall(o, evs[..|evs| - 1], t);
      if ev.t != t then call
      else if Begins(s, ev) then Call(ev.cmd, s.count, -1)
      else Later(call, s, Step(s, ev))
  }

  /** The write has written what its caller gave, after the call began. */
  predicate HasWritten(call: Call, versions: seq<Data>)
    requires call.Call?
  {
    call.cmd.Write? && call.from / 2 < call.made < |versions| && versions[call.made] == call.cmd.d
  }

  /** The read has returned what it found after the call began. */
  predicate HasRead(call: Call, results: seq<Result>)
    requires call.Call?
  {
    call.cmd.Read? && 0 <= call.made < |results| && call.from <= results[call.made].since
  }

  /** The call that pc works for, and how far it has come. */
  predicate Serves(call: Call, s: State, pc: Pc) {
    if pc.Idle? then
      call.Call? ==>
        if call.cmd.Write? then HasWritten(call, s.versions) && 2 * call.made <= s.count else HasRead(call, s.results)
    else
      && call.Call? && call.from <= s.count
      && (pc.WLoad? || pc.WCas? ==> call.cmd == Write(pc.d))
      && (Writing(pc) ==> HasWritten(call, s.versions))
      && (!WritePc(pc) ==> call.cmd.Read?)
      && (pc.RCopy? || pc.RCheck? ==> call.from <= pc.since)
  }

  lemma ServesOn(call: Call, s: State, ev: Event)
    requires Inv(s) && ev.t < |s.threads| && !s.threads[ev.t].Idle? && Serves(call, s, s.threads[ev.t])
    ensures var s' := Step(s, ev); |s'.threads| == |s.threads| && Serves(Later(call, s, s'), s', s'.threads[ev.t])
  {
    hide OneWriter; hide Counter;
    assert PcInv(s, s.threads[ev.t]);
    if s.threads[ev.t].WRelease? { WriterCounts(s, ev.t); }
    if s.threads[ev.t].WCas? { CasCounts(s, ev.t); }
  }

  /** The version a writer works on is the last. */
  lemma WriterCounts(s: State, t: nat)
    requires Inv(s) && t < |s.threads| && Writing(s.threads[t])
    ensures s.count % 2 == 1 && 2 * |s.versions| == s.count + 3
  {
  }

  lemma CasCounts(s: State, t: nat)
    requires Inv(s) && t < |s.threads| && s.threads[t].WCas?
    ensures Counter(s.count) == s.threads[t].seen ==> s.count % 2 == 0 && 2 * |s.versions| == s.count + 2
  {
    EvenCounter(s.count);
    assert PcInv(s, s.threads[t]);
  }

  /** What a step leaves as it was. */
  lemma StepKeeps(s: State, ev: Event)
    ensures var s' := Step(s, ev);
      && s.versions <= s'.versions && s.results <= s'.results && s.count <= s'.count
      && |s'.threads| == |s.threads| && forall t :: 0 <= t < |s.threads| && t != ev.t ==> s'.threads[t] == s.threads[t]
  {
  }

  lemma ServesStep(s: State, ev: Event, call: Call, t: nat)
    requires Inv(s) && t < |s.threads| && Serves(call, s, s.threads[t])
    ensures var s' := Step(s, ev);
      && |s'.threads| == |s.threads|
      && Serves(if ev.t != t then call else if Begins(s, ev) then Call(ev.cmd, s.count, -1) else Later(call, s, s'),
                s', s'.threads[t])
  {
    hide Inv; hide WriteStep; hide ReadStep;
    StepKeeps(s, ev);
    if ev.t == t && !s.threads[t].Idle? { ServesOn(call, s, ev); }
  }

  lemma {:induction false} CallsServed(n: nat, d: Data, evs: seq<Event>, t: nat)
    requires t < n
    ensures var s := Run(Init(n, d), evs);
      |s.threads| == n && Serves(LastCall(Init(n, d), evs, t), s, s.threads[t])
    decreases |evs|
  {
    hide Step; hide Inv; hide Serves; hide AllWhole;
    if evs == [] {
      NothingServed(Init(n, d));
    } else {
      var prev := evs[..|evs| - 1];
      RunInv(n, d, prev);
      CallsServed(n, d, prev, t);
      ServesStep(Run(Init(n, d), prev), evs[|evs| - 1], LastCall(Init(n, d), prev, t), t);
    }
  }

  lemma NothingServed(s: State)
    ensures Serves(NoCall, s, Idle)
  {
  }

  /** How calls end, in every run.  A write that has returned has made the data its caller gave a
      version, begun after the call and complete.  A read that has returned took the counter after
      the call began; so if fewer than 2^31 writes overlapped it, what it returned is a version no
      older than the last one complete when the call began. */
  lemma CallsReturn(n: nat, d: Data, evs: seq<Event>, t: nat)
    requires t < n
    ensures var s, call := Run(Init(n, d), evs), LastCall(Init(n, d), evs, t);
      && |s.threads| == n
      && (s.threads[t].Idle? && call.Call? ==>
            match call.cmd
            case Write(w) =>
              call.from / 2 < call.made <= s.count / 2 && call.made < |s.versions| && s.versions[call.made] == w
            case Read =>
              && 0 <= call.made < |s.results|
              && var r := s.results[call.made];
              && call.from <= r.since <= r.until && r.since / 2 < |s.versions|
              && (Writes(r) < MODULUS / 2 ==> r.buf == s.versions[r.since / 2]))
  {
    hide Run; hide LastCall; hide Init; hide Inv;
    CallsServed(n, d, evs, t);
    RunInv(n, d, evs);
    var s, call := Run(Init(n, d), evs), LastCall(Init(n, d), evs, t);
    if s.threads[t].Idle? && call.Call? && call.cmd.Read? { assert Whole(s.results[call.made], s.versions); }
  }

  /** The data of the writes of a run, as their callers gave it, in the order in which they began. */
  ghost function Given(o: State, evs: seq<Event>): seq<Data>
    decreases |evs|
  {
    if evs == [] then []
    else
      var prev, ev := evs[..|evs| - 1], evs[|evs| - 1];
      var call := LastCall(o, prev, ev.t);
      if |Run(o, evs).versions| == |Run(o, prev).versions| then Given(o, prev)
      else Given(o, prev) + [if call.Call? && call.cmd.Write? then call.cmd.d else []]
  }

  lemma {:induction false} VersionsAreGiven(n: nat, d: Data, evs: seq<Event>)
    ensures Run(Init(n, d), evs).versions == [d] + Given(Init(n, d), evs)
    decreases |evs|
  {
    hide Step; hide LastCall; hide Serves; hide Inv; hide AllWhole;
    if evs != [] {
      var prev, ev := evs[..|evs| - 1], evs[|evs| - 1];
      var s := Run(Init(n, d), prev);
      VersionsAreGiven(n, d, prev);
      RunInv(n, d, prev);
      if ev.t < n { CallsServed(n, d, prev, ev.t); }
      WriteGiven(s, ev, LastCall(Init(n, d), prev, ev.t));
    }
  }

  lemma WriteGiven(s: State, ev: Event, call: Call)
    requires ev.t < |s.threads| ==> Serves(call, s, s.threads[ev.t])
    ensures var s' := Step(s, ev);
      if |s'.versions| == |s.versions| then s'.versions == s.versions
      else call.Call? && call.cmd.Write? && s'.versions == s.versions + [call.cmd.d]
  {
  }

  // ------------------------------------------------------------------ the copy

  /** The first `at` bytes are those of src, the others what they were. */
  ghost predicate CopiedTo(dst: seq<int>, src: seq<int>, was: seq<int>, at: nat) {
    && at <= |src| && at <= |dst| == |was|
    && (forall j :: 0 <= j < at ==> dst[j] == src[j])
    && (forall j :: at <= j < |dst| ==> dst[j] == was[j])
  }

  lemma NothingCopied(dst: seq<int>, src: seq<int>)
    ensures CopiedTo(dst, src, dst, 0) && Sum([]) == 0
  {
  }

  /** atomic_memcpy: pieces of 8 bytes while there is room, then at most one of 4, of 2 and of 1;
      together they are exactly the first sz bytes. */
  method AtomicMemcpy(dst: array<int>, src: array<int>, sz: nat) returns (pieces: seq<nat>)
    requires dst != src && sz <= dst.Length && sz <= src.Length
    modifies dst
    ensures CopiedTo(dst[..], src[..], old(dst[..]), sz)
    ensures Sum(pieces) == sz && |pieces| <= sz / 8 + 3
    ensures forall j :: 0 <= j < |pieces| ==> pieces[j] in {1, 2, 4, 8}
  {
    hide CopiedTo; hide Sum;
    ghost var was := dst[..];
    var at: nat, rest: nat := 0, sz;
    pieces := [];
    NothingCopied(was, src[..]);
    while rest >= 8
      invariant at + rest == sz && at == 8 * |pieces| && Sum(pieces) == at
      invariant forall j :: 0 <= j < |pieces| ==> pieces[j] == 8
      invariant CopiedTo(dst[..], src[..], was, at)
    {
      at, rest, pieces := CopyPiece(dst, src, at, rest, 8, pieces, was);
    }
    if rest >= 4 { at, rest, pieces := CopyPiece(dst, src, at, rest, 4, pieces, was); }
    if rest >= 2 { at, rest, pieces := CopyPiece(dst, src, at, rest, 2, pieces, was); }
    if rest >= 1 { at, rest, pieces := CopyPiece(dst, src, at, rest, 1, pieces, was); }
  }

  function Sum(pieces: seq<nat>): nat {
    if pieces == [] then 0 else Sum(pieces[..|pieces| - 1]) + pieces[|pieces| - 1]
  }

  /** One load and one store of `size` bytes. */
  method CopyPiece(dst: array<int>, src: array<int>, at: nat, rest: nat, size: nat, pieces: seq<nat>,
      ghost was: seq<int>)
    returns (at': nat, rest': nat, pieces': seq<nat>)
    requires dst != src && size <= rest && at + rest <= dst.Length && at + rest <= src.Length
    requires CopiedTo(dst[..], src[..], was, at)
    modifies dst
    ensures at' == at + size && rest' == rest - size && pieces' == pieces + [size]
    ensures Sum(pieces') == Sum(pieces) + size
    ensures CopiedTo(dst[..], src[..], was, at')
  {
    forall j | at <= j < at + size {
      dst[j] := src[j];
    }
    at', rest', pieces' := at + size, rest - size, pieces + [size];
    assert pieces'[..|pieces|] == pieces;
  }
}
