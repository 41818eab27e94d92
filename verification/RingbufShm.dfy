/** The variable-size chunk buffer of ringbuf-shm/ringbuffer.c, shared by one producer and one
    consumer.  A chunk is an 8-byte header followed by its bytes padded to a multiple of 8;
    when a chunk does not fit before the end of the buffer, a gap element fills the rest and the
    chunk goes to the start.

    Positions are multiples of 8 throughout, so memory is kept in words of 8 bytes and `head`
    and `tail` count words; sizes, reservations and the arithmetic that makes them are in bytes.
    The buffer holds `size` words. */
module RingbufShm {
  import opened Modular

  datatype Word = Header(size: nat, gap: bool) | Data(bits: int)

  /** A chunk of `size` bytes; the last word may be partly padding. */
  datatype Chunk = Chunk(size: nat, data: seq<int>)

  /** The words that n bytes take once padded. */
  function Words(n: nat): nat { (n + 7) / 8 }

  // ------------------------------------------------------------------ layout

  /** Position x of the lap that tail is in, or of the next one. */
  function At(mem: seq<Word>, x: nat): Word
    requires x < 2 * |mem|
  {
    if x < |mem| then mem[x] else mem[x - |mem|]
  }

  /** Where head is, counted from the start of tail's lap. */
  function Ahead(size: nat, head: nat, tail: nat): nat { if head >= tail then head else head + size }

  /** At position x there is a header and the bytes of chunk c, all before the end of a lap. */
  ghost predicate ChunkAt(mem: seq<Word>, x: nat, c: Chunk) {
    && x + 1 + Words(c.size) <= 2 * |mem| && |c.data| == Words(c.size)
    && (x < |mem| ==> x + 1 + Words(c.size) <= |mem|)
    && At(mem, x) == Header(c.size, false)
    && (forall k :: 0 <= k < |c.data| ==> At(mem, x + 1 + k) == Data(c.data[k]))
  }

  predicate GapAt(mem: seq<Word>, x: nat) {
    x < |mem| && mem[x] == Header(8 * (|mem| - x) - 8, true)
  }

  /** From x to end the buffer holds the chunks q, one after the other, with at most one gap,
      which reaches the end of the lap and is followed by a chunk. */
  ghost predicate Parses(mem: seq<Word>, x: nat, end: nat, q: seq<Chunk>)
    decreases |q|
  {
    if q == [] then x == end
    else
      && x < end < 2 * |mem|
      && (if GapAt(mem, x) then ParsesAt(mem, |mem|, end, q) else ParsesAt(mem, x, end, q))
  }

  /** The first chunk starts at x itself. */
  ghost predicate ParsesAt(mem: seq<Word>, x: nat, end: nat, q: seq<Chunk>)
    requires q != []
    decreases |q|, 0
  {
    && ChunkAt(mem, x, q[0])
    && x + 1 + Words(q[0].size) <= end
    && Parses(mem, x + 1 + Words(q[0].size), end, q[1..])
  }

  /** Parsing depends only on the words between x and end. */
  lemma {:induction false} ParsesFrame(mem: seq<Word>, mem': seq<Word>, x: nat, end: nat, q: seq<Chunk>)
    requires Parses(mem, x, end, q) && |mem'| == |mem| && end < 2 * |mem|
    requires forall y :: x <= y < end ==> At(mem', y) == At(mem, y)
    ensures Parses(mem', x, end, q)
    decreases |q|
  {
    if q != [] {
      assert At(mem', x) == At(mem, x);
      var y := if GapAt(mem, x) then |mem| else x;
      assert ParsesAt(mem, y, end, q);
      ParsesFrame(mem, mem', y + 1 + Words(q[0].size), end, q[1..]);
      forall k | 0 <= k < |q[0].data| ensures At(mem', y + 1 + k) == Data(q[0].data[k]) {
        assert At(mem, y + 1 + k) == Data(q[0].data[k]);
      }
      assert ParsesAt(mem', y, end, q);
    }
  }

  lemma {:induction false} ParsesOrder(mem: seq<Word>, x: nat, end: nat, q: seq<Chunk>)
    requires Parses(mem, x, end, q)
    ensures x <= end
    decreases |q|
  {
  }

  /** A chunk written where the parsed part ends, with or without a gap before it. */
  lemma {:induction false} ParsesAppend(mem: seq<Word>, x: nat, end: nat, q: seq<Chunk>, c: Chunk, start: nat)
    requires Parses(mem, x, end, q) && ChunkAt(mem, start, c) && start + 1 + Words(c.size) < 2 * |mem|
    requires start == end < 2 * |mem| || (start == |mem| && end < |mem| && GapAt(mem, end))
    ensures Parses(mem, x, start + 1 + Words(c.size), q + [c])
    decreases |q|
  {
    var stop := start + 1 + Words(c.size);
    if q == [] {
      assert [c][1..] == [];
      assert ParsesAt(mem, start, stop, [c]);
      assert q + [c] == [c];
    } else {
      var y := if GapAt(mem, x) then |mem| else x;
      assert ParsesAt(mem, y, end, q);
      var next := y + 1 + Words(q[0].size);
      ParsesAppend(mem, next, end, q[1..], c, start);
      ParsesOrder(mem, next, stop, q[1..] + [c]);
      assert (q + [c])[1..] == q[1..] + [c] && (q + [c])[0] == q[0];
      assert ParsesAt(mem, y, stop, q + [c]);
    }
  }

  /** Once tail is in the next lap, positions are counted from there. */
  lemma {:induction false} ParsesShift(mem: seq<Word>, x: nat, end: nat, q: seq<Chunk>)
    requires Parses(mem, x, end, q) && |mem| <= x && end < 2 * |mem|
    ensures x <= end && Parses(mem, x - |mem|, end - |mem|, q)
    decreases |q|
  {
    ParsesOrder(mem, x, end, q);
    if q != [] {
      var c, x', end' := q[0], x - |mem|, end - |mem|;
      assert ParsesAt(mem, x, end, q);
      ParsesShift(mem, x + 1 + Words(c.size), end, q[1..]);
      assert At(mem, x') == At(mem, x);
      forall k | 0 <= k < |c.data| ensures At(mem, x' + 1 + k) == Data(c.data[k]) {
        assert At(mem, x + 1 + k) == Data(c.data[k]);
      }
      assert ParsesAt(mem, x', end', q);
    }
  }

  // ------------------------------------------------------------------ reservations

  function Pad(n: nat): nat { 8 * Words(n) }

  /** rsvd and gapd as ringbuf_write_request_max leaves them; `at` is the word of the header
      before the returned pointer.  A null pointer goes with rsvd == 0. */
  datatype Reservation = Reservation(rsvd: nat, gapd: nat, at: nat)

  const NONE := Reservation(0, 0, 0)

  function Request(size: nat, head: nat, tail: nat, minimum: nat): Reservation
    requires head < size && tail < size
  {
    var bytes, h, t := 8 * size, 8 * head, 8 * tail;
    var padded := 16 + Pad(minimum);
    var space: int := if h > t then Pos(t - h + bytes, bytes) - 1 else if h < t then t - h - 1 else bytes - 1;
    var end := h + space;
    if end > bytes then
      var len1 := bytes - h;
      if len1 < padded then
        var len2 := Pos(end, bytes);
        if len2 < padded then NONE else Reservation(len2, len1, 0)
      else Reservation(len1, 0, head)
    else if space < padded then NONE
    else Reservation(space, 0, head)
  }

  /** What a written chunk must satisfy: the reservation counts the header too. */
  predicate Fits(res: Reservation, written: nat) { 8 + Pad(written) <= res.rsvd }

  /** Where the chunk's header goes, counted from the start of tail's lap. */
  function Start(size: nat, head: nat, tail: nat, gap: bool): nat {
    if gap then size else Ahead(size, head, tail)
  }

  /** A chunk of n words fits behind head: it does not reach tail, so head and tail do not
      meet, and it does not run over the end of the buffer. */
  predicate Room(size: nat, head: nat, tail: nat, gap: bool, n: nat) {
    var start := Start(size, head, tail, gap);
    && start + 1 + n < tail + size
    && (start < size ==> start + 1 + n <= size)
    && (gap ==> head >= tail)
  }

  /** A reservation is as good as its arithmetic: a chunk is safe to write if and only if its
      padded bytes and its header are within rsvd. */
  lemma AdvanceSafeExactly(size: nat, head: nat, tail: nat, minimum: nat, written: nat)
    requires head < size && tail < size && Request(size, head, tail, minimum) != NONE
    ensures var res := Request(size, head, tail, minimum);
      Fits(res, written) <==> Room(size, head, tail, res.gapd > 0, Words(written))
    ensures var res := Request(size, head, tail, minimum);
      && (res.gapd > 0 ==> head >= tail && res.gapd == 8 * (size - head))
      && res.at == (if res.gapd > 0 then 0 else head)
      && 16 + Pad(minimum) <= res.rsvd
  {
    var bytes, h, t := 8 * size, 8 * head, 8 * tail;
    if h > t { assert Pos(t - h + bytes, bytes) == t - h + bytes; }
    var space := if h > t then t - h + bytes - 1 else if h < t then t - h - 1 else bytes - 1;
    if h + space > bytes { assert Pos(h + space, bytes) == h + space - bytes; }
  }

  /** A request is refused exactly when a chunk of the minimum, with one word to spare, fits neither
      at head nor, behind a gap, at the start of the buffer. */
  lemma GrantedExactly(size: nat, head: nat, tail: nat, minimum: nat)
    requires head < size && tail < size
    ensures Request(size, head, tail, minimum) != NONE <==>
      || Room(size, head, tail, false, Words(minimum) + 1)
      || (head >= tail && Room(size, head, tail, true, Words(minimum) + 1))
  {
    var bytes, h, t := 8 * size, 8 * head, 8 * tail;
    if h > t { assert Pos(t - h + bytes, bytes) == t - h + bytes; }
    var space := if h > t then t - h + bytes - 1 else if h < t then t - h - 1 else bytes - 1;
    if h + space > bytes { assert Pos(h + space, bytes) == h + space - bytes; }
  }

  /** The assertion in ringbuf_write_advance is not enough: 24 bytes written to a reservation
      of 31 take head back to tail, and the buffer looks empty. */
  lemma AssertIsNotEnough()
    ensures var res := Request(4, 0, 0, 8);
      && 24 <= res.rsvd == 31 && res.gapd == 0 && !Fits(res, 24)
      && Pos(8 * 0 + res.gapd + 8 + Pad(24), 8 * 4) == 8 * 0
  {
    assert Pos(32, 32) == Pos(0, 32) == 0;
  }

  // ------------------------------------------------------------------ producer and consumer

  datatype Producer =
    | PIdle
    | PGot(min: nat, res: Reservation)
    | PFill(res: Reservation, c: Chunk, k: nat)
    | PGap(res: Reservation, c: Chunk)
    | PHeader(res: Reservation, c: Chunk)
    | PStore(res: Reservation, c: Chunk)

  datatype Consumer =
    | CIdle
    | CHeader(head: nat)
    | CSkip
    | CSecond
    | CCopy(at: nat, size: nat, acc: seq<int>)
    | CAdvance(acc: seq<int>)

  /** `sent` and `received` list the chunks published and taken; `q` those in between.  When
      `strict` is set the producer writes no more than the minimum it asked for. */
  datatype State = State(
    size: nat, strict: bool, mem: seq<Word>, head: nat, tail: nat,
    prod: Producer, cons: Consumer, sent: seq<Chunk>, received: seq<Chunk>, q: seq<Chunk>)

  datatype Event = Ask(min: nat) | Write(c: Chunk) | Produce | Consume

  predicate Sized(s: State) { s.head < s.size && s.tail < s.size == |s.mem| }

  function Put(mem: seq<Word>, p: nat, w: Word): seq<Word> { if p < |mem| then mem[p := w] else mem }

  function ProducerStep(s: State, ev: Event): State
    requires Sized(s)
  {
    match s.prod
    case PIdle => if ev.Ask? then Asked(s, ev.min) else s
    case PGot(min, res) =>
      if ev.Ask? then Asked(s, ev.min)
      else if ev.Write? && |ev.c.data| == Words(ev.c.size) && Fits(res, ev.c.size)
          && (s.strict ==> ev.c.size <= min) then
        s.(prod := PFill(res, ev.c, 0))
      else s
    case PFill(res, c, k) =>
      if k < |c.data| then s.(mem := Put(s.mem, res.at + 1 + k, Data(c.data[k])), prod := PFill(res, c, k + 1))
      else s.(prod := PGap(res, c))
    case PGap(res, c) =>
      if res.gapd >= 8 then s.(mem := Put(s.mem, s.head, Header(res.gapd - 8, true)), prod := PHeader(res, c))
      else s.(prod := PHeader(res, c))
    case PHeader(res, c) => s.(mem := Put(s.mem, res.at, Header(c.size, false)), prod := PStore(res, c))
    case PStore(res, c) =>
      s.(head := Pos(8 * s.head + res.gapd + 8 + Pad(c.size), 8 * s.size) / 8,
         sent := s.sent + [c], q := s.q + [c], prod := PIdle)
  }

  /** ringbuf_write_request_max: only the load of tail is shared. */
  function Asked(s: State, min: nat): State
    requires Sized(s)
  {
    var res := Request(s.size, s.head, s.tail, min);
    s.(prod := if res == NONE then PIdle else PGot(min, res))
  }

  /** The readable words, as ringbuf_read_request computes them. */
  function Readable(size: nat, head: nat, tail: nat): nat
    requires head < size && tail < size
  {
    if head > tail then head - tail else Pos(head - tail + size, size)
  }

  function ConsumerStep(s: State): State
    requires Sized(s)
  {
    match s.cons
    case CIdle => if Readable(s.size, s.head, s.tail) == 0 then s else s.(cons := CHeader(s.head))
    case CHeader(head) =>
      if head >= s.size || !s.mem[s.tail].Header? then s
      else if s.tail + Readable(s.size, head, s.tail) > s.size && s.mem[s.tail].gap then s.(cons := CSkip)
      else s.(cons := CCopy(s.tail, s.mem[s.tail].size, []))
    case CSkip => s.(tail := Pos(s.tail + (s.size - s.tail), s.size), cons := CSecond)
    case CSecond => if !s.mem[0].Header? then s else s.(cons := CCopy(0, s.mem[0].size, []))
    case CCopy(at, size, acc) =>
      if |acc| == Words(size) then s.(cons := CAdvance(acc))
      else if at + 1 + |acc| < |s.mem| && s.mem[at + 1 + |acc|].Data? then
        s.(cons := CCopy(at, size, acc + [s.mem[at + 1 + |acc|].bits]))
      else s
    case CAdvance(acc) =>
      if !s.mem[s.tail].Header? then s
      else
        s.(tail := Pos(s.tail + 1 + Words(s.mem[s.tail].size), s.size), cons := CIdle,
           received := s.received + [Chunk(s.mem[s.tail].size, acc)], q := if s.q == [] then [] else s.q[1..])
  }

  function Step(s: State, ev: Event): State {
    if !Sized(s) then s else if ev.Consume? then ConsumerStep(s) else ProducerStep(s, ev)
  }

  function Init(mem: seq<Word>, strict: bool): State {
    State(|mem|, strict, mem, 0, 0, PIdle, CIdle, [], [], [])
  }

  function Run(s: State, evs: seq<Event>): State
    decreases |evs|
  {
    if evs == [] then s else Step(Run(s, evs[..|evs| - 1]), evs[|evs| - 1])
  }

  // ------------------------------------------------------------------ invariant

  ghost predicate LayoutInv(mem: seq<Word>, size: nat, head: nat, tail: nat, q: seq<Chunk>) {
    head < size && tail < size == |mem| && Parses(mem, tail, Ahead(size, head, tail), q)
  }

  ghost predicate Copied(mem: seq<Word>, at: nat, c: Chunk, k: nat) {
    k <= |c.data| && at + 1 + k <= |mem| && forall j :: 0 <= j < k ==> mem[at + 1 + j] == Data(c.data[j])
  }

  /** The reservation the producer holds is still good for its chunk. */
  ghost predicate Held(size: nat, strict: bool, head: nat, tail: nat, res: Reservation, c: Chunk) {
    && |c.data| == Words(c.size)
    && Room(size, head, tail, res.gapd > 0, Words(c.size))
    && (strict ==> Room(size, head, tail, res.gapd > 0, Words(c.size) + 1))
    && (res.gapd > 0 ==> res.gapd == 8 * (size - head))
    && res.at == (if res.gapd > 0 then 0 else head)
  }

  /** A reservation still holds what it promised. */
  ghost predicate Roomy(size: nat, head: nat, tail: nat, gap: bool, rsvd: nat) {
    forall n: nat :: 8 + 8 * n <= rsvd ==> Room(size, head, tail, gap, n)
  }

  ghost predicate ProducerInv(mem: seq<Word>, size: nat, strict: bool, head: nat, tail: nat, prod: Producer) {
    match prod
    case PIdle => true
    case PGot(min, res) =>
      && Roomy(size, head, tail, res.gapd > 0, res.rsvd)
      && 16 + Pad(min) <= res.rsvd
      && (res.gapd > 0 ==> res.gapd == 8 * (size - head))
      && res.at == (if res.gapd > 0 then 0 else head)
    case PFill(res, c, k) => Held(size, strict, head, tail, res, c) && Copied(mem, res.at, c, k)
    case PGap(res, c) => Held(size, strict, head, tail, res, c) && Copied(mem, res.at, c, |c.data|)
    case PHeader(res, c) =>
      && Held(size, strict, head, tail, res, c) && Copied(mem, res.at, c, |c.data|)
      && (res.gapd > 0 ==> GapAt(mem, head))
    case PStore(res, c) =>
      && Held(size, strict, head, tail, res, c) && Copied(mem, res.at, c, |c.data|)
      && (res.gapd > 0 ==> GapAt(mem, head))
      && res.at < |mem| && mem[res.at] == Header(c.size, false)
  }

  ghost predicate ConsumerInv(mem: seq<Word>, size: nat, tail: nat, q: seq<Chunk>, cons: Consumer) {
    && (!cons.CIdle? ==> q != [])
    && match cons
       case CIdle => true
       case CHeader(head) => head < size && head != tail && (GapAt(mem, tail) ==> Ahead(size, head, tail) > size)
       case CSkip => GapAt(mem, tail)
       case CSecond => tail == 0 && !GapAt(mem, tail)
       case CCopy(at, n, acc) => at == tail && !GapAt(mem, tail) && n == q[0].size && acc <= q[0].data
       case CAdvance(acc) => !GapAt(mem, tail) && acc == q[0].data
  }

  ghost predicate Inv(s: State) {
    && LayoutInv(s.mem, s.size, s.head, s.tail, s.q)
    && s.sent == s.received + s.q
    && ProducerInv(s.mem, s.size, s.strict, s.head, s.tail, s.prod)
    && ConsumerInv(s.mem, s.size, s.tail, s.q, s.cons)
    && (s.strict && s.head == 0 ==> s.sent == [])
  }

  lemma InitInv(mem: seq<Word>, strict: bool)
    requires mem != []
    ensures Inv(Init(mem, strict))
  {
  }

  // ------------------------------------------------------------------ the consumer

  lemma ReadableIsAhead(size: nat, head: nat, tail: nat)
    requires head < size && tail < size
    ensures tail + Readable(size, head, tail) == Ahead(size, head, tail)
  {
    if head == tail { assert Pos(size, size) == Pos(0, size) == 0; }
  }

  /** What is at tail while there is something to read. */
  lemma FirstChunk(mem: seq<Word>, size: nat, head: nat, tail: nat, q: seq<Chunk>)
    requires LayoutInv(mem, size, head, tail, q) && q != []
    ensures mem[tail].Header?
    ensures GapAt(mem, tail) ==>
      mem[tail].gap && Ahead(size, head, tail) > size && ParsesAt(mem, size, Ahead(size, head, tail), q)
    ensures !GapAt(mem, tail) ==>
      ParsesAt(mem, tail, Ahead(size, head, tail), q) && mem[tail] == Header(q[0].size, false)
  {
    var y := if GapAt(mem, tail) then size else tail;
    assert ParsesAt(mem, y, Ahead(size, head, tail), q);
    assert ChunkAt(mem, y, q[0]);
  }

  /** Reading on gives the producer more room, never less. */
  lemma RoomStable(size: nat, head: nat, tail: nat, gap: bool, n: nat, x: nat)
    requires head < size && tail < size && Room(size, head, tail, gap, n)
    requires tail <= x <= Ahead(size, head, tail) && (gap ==> head >= tail)
    ensures x <= 2 * size && Room(size, head, if x < size then x else x - size, gap, n)
    ensures Ahead(size, head, if x < size then x else x - size) ==
      Ahead(size, head, tail) - (if x < size then 0 else size)
  {
  }

  lemma ProducerKeeps(mem: seq<Word>, size: nat, strict: bool, head: nat, tail: nat, prod: Producer, x: nat)
    requires head < size && tail < size && ProducerInv(mem, size, strict, head, tail, prod)
    requires tail <= x <= Ahead(size, head, tail)
    ensures ProducerInv(mem, size, strict, head, if x < size then x else x - size, prod)
  {
    var tail' := if x < size then x else x - size;
    forall gap: bool, n: nat | Room(size, head, tail, gap, n) ensures Room(size, head, tail', gap, n) {
      RoomStable(size, head, tail, gap, n, x);
    }
    forall gap: bool, rsvd: nat | Roomy(size, head, tail, gap, rsvd) ensures Roomy(size, head, tail', gap, rsvd) {
      forall n: nat | 8 + 8 * n <= rsvd ensures Room(size, head, tail', gap, n) {
        assert Room(size, head, tail, gap, n);
      }
    }
    hide Room; hide Roomy;
  }

  lemma ReadHeaderInv(s: State)
    requires Inv(s) && (s.cons.CIdle? || s.cons.CHeader? || s.cons.CSecond? || s.cons.CCopy?)
    ensures Inv(ConsumerStep(s))
  {
    ReadableIsAhead(s.size, s.head, s.tail);
    if s.q != [] { FirstChunk(s.mem, s.size, s.head, s.tail, s.q); }
    match s.cons
    case CIdle =>
    case CHeader(head) =>
      ReadableIsAhead(s.size, head, s.tail);
      hide Parses; hide ParsesAt; hide ProducerInv;
    case CSecond =>
    case CCopy(at, n, acc) =>
      if |acc| < Words(n) {
        assert At(s.mem, s.tail + 1 + |acc|) == Data(s.q[0].data[|acc|]);
      }
  }

  lemma SkipInv(s: State)
    requires Inv(s) && s.cons.CSkip?
    ensures Inv(ConsumerStep(s))
  {
    var a := Ahead(s.size, s.head, s.tail);
    FirstChunk(s.mem, s.size, s.head, s.tail, s.q);
    assert Pos(s.size, s.size) == Pos(0, s.size) == 0;
    assert Parses(s.mem, s.size, a, s.q);
    ParsesShift(s.mem, s.size, a, s.q);
    ProducerKeeps(s.mem, s.size, s.strict, s.head, s.tail, s.prod, s.size);
    assert At(s.mem, s.size) == s.mem[0];
  }

  lemma AdvanceInv(s: State)
    requires Inv(s) && s.cons.CAdvance?
    ensures Inv(ConsumerStep(s))
    ensures ConsumerStep(s).received == s.received + [s.q[0]]
  {
    var a := Ahead(s.size, s.head, s.tail);
    FirstChunk(s.mem, s.size, s.head, s.tail, s.q);
    var c := s.q[0];
    var x := s.tail + 1 + Words(c.size);
    assert Pos(x, s.size) == if x < s.size then x else x - s.size;
    if x >= s.size { ParsesShift(s.mem, x, a, s.q[1..]); }
    ProducerKeeps(s.mem, s.size, s.strict, s.head, s.tail, s.prod, x);
    assert s.received + s.q == s.received + [c] + s.q[1..];
    assert Chunk(c.size, s.cons.acc) == c;
  }

  // ------------------------------------------------------------------ the producer

  /** A write behind head and before tail touches nothing that is still to be read. */
  lemma WriteFree(mem: seq<Word>, size: nat, head: nat, tail: nat, q: seq<Chunk>, cons: Consumer, y: nat, w: Word)
    requires LayoutInv(mem, size, head, tail, q) && ConsumerInv(mem, size, tail, q, cons)
    requires Ahead(size, head, tail) <= y < tail + size
    ensures var mem' := Put(mem, if y < size then y else y - size, w);
      LayoutInv(mem', size, head, tail, q) && ConsumerInv(mem', size, tail, q, cons)
  {
    var mem' := Put(mem, if y < size then y else y - size, w);
    ParsesFrame(mem, mem', tail, Ahead(size, head, tail), q);
    if q != [] { FirstChunk(mem, size, head, tail, q); }
  }

  /** Where a word of the chunk goes, and that it is free. */
  lemma FillPlace(s: State, res: Reservation, c: Chunk, k: nat)
    requires s.head < s.size && s.tail < s.size && Held(s.size, s.strict, s.head, s.tail, res, c) && k < |c.data|
    ensures var y := Start(s.size, s.head, s.tail, res.gapd > 0) + 1 + k;
      Ahead(s.size, s.head, s.tail) <= y < s.tail + s.size
          && res.at + 1 + k == (if y < s.size then y else y - s.size) < s.size
  {
  }

  lemma FillsOn(mem: seq<Word>, at: nat, c: Chunk, k: nat)
    requires Copied(mem, at, c, k) && k < |c.data| && at + 1 + k < |mem|
    ensures Copied(Put(mem, at + 1 + k, Data(c.data[k])), at, c, k + 1)
  {
  }

  lemma FillInv(s: State)
    requires Inv(s) && s.prod.PFill?
    ensures Inv(ProducerStep(s, Produce))
  {
    hide ConsumerInv; hide Held; hide Room; hide Copied; hide Put; hide Parses;
    var res, c, k := s.prod.res, s.prod.c, s.prod.k;
    CopiedSome(s.mem, res.at, c, k);
    if k < |c.data| {
      FillPlace(s, res, c, k);
      WriteFree(s.mem, s.size, s.head, s.tail, s.q, s.cons, Start(s.size, s.head, s.tail, res.gapd > 0) + 1 + k,
          Data(c.data[k]));
      FillsOn(s.mem, res.at, c, k);
    }
  }

  lemma CopiedSome(mem: seq<Word>, at: nat, c: Chunk, k: nat)
    requires Copied(mem, at, c, k)
    ensures k <= |c.data|
  {
  }

  lemma GapInv(s: State)
    requires Inv(s) && s.prod.PGap?
    ensures Inv(ProducerStep(s, Produce))
  {
    var res := s.prod.res;
    if res.gapd >= 8 {
      WriteFree(s.mem, s.size, s.head, s.tail, s.q, s.cons, s.head, Header(res.gapd - 8, true));
    }
    hide LayoutInv; hide ConsumerInv;
  }

  lemma HeaderInv(s: State)
    requires Inv(s) && s.prod.PHeader?
    ensures Inv(ProducerStep(s, Produce))
  {
    var res, c := s.prod.res, s.prod.c;
    var start := Start(s.size, s.head, s.tail, res.gapd > 0);
    WriteFree(s.mem, s.size, s.head, s.tail, s.q, s.cons, start, Header(c.size, false));
    assert s.head < s.size && s.tail < s.size == |s.mem|;
    hide LayoutInv; hide ConsumerInv;
  }

  /** Where head goes: just behind the chunk, and never onto tail. */
  lemma NewHead(size: nat, strict: bool, head: nat, tail: nat, res: Reservation, c: Chunk)
    requires head < size && tail < size && Held(size, strict, head, tail, res, c)
    ensures var head' := Pos(8 * head + res.gapd + 8 + Pad(c.size), 8 * size) / 8;
      && head' < size && Ahead(size, head', tail) == Start(size, head, tail, res.gapd > 0) + 1 + Words(c.size)
      && head' != tail && (strict ==> head' != 0)
  {
    var sum := 8 * head + res.gapd + 8 + Pad(c.size);
    assert sum == 8 * (if res.gapd > 0 then size + 1 + Words(c.size) else head + 1 + Words(c.size));
    assert Pos(sum, 8 * size) == if sum < 8 * size then sum else sum - 8 * size;
  }

  /** Publishing: the chunk, and the gap before it, become part of what parses. */
  lemma StoreInv(s: State)
    requires Inv(s) && s.prod.PStore?
    ensures Inv(ProducerStep(s, Produce))
  {
    hide Parses; hide Pos; hide Room; hide Held; hide Copied; hide LayoutInv; hide GapAt; hide Ahead;
    var res, c := s.prod.res, s.prod.c;
    InBuffer(s.mem, s.size, s.head, s.tail, s.q);
    HeldLoosely(s.size, s.strict, s.head, s.tail, res, c);
    Publishes(s.mem, s.size, s.head, s.tail, s.q, res, c);
    NewHead(s.size, s.strict, s.head, s.tail, res, c);
    assert s.received + s.q + [c] == s.received + (s.q + [c]);
    assert s.q != [] ==> (s.q + [c])[0] == s.q[0];
  }

  lemma InBuffer(mem: seq<Word>, size: nat, head: nat, tail: nat, q: seq<Chunk>)
    requires LayoutInv(mem, size, head, tail, q)
    ensures head < size && tail < size == |mem|
  {
  }

  lemma HeldLoosely(size: nat, strict: bool, head: nat, tail: nat, res: Reservation, c: Chunk)
    requires Held(size, strict, head, tail, res, c)
    ensures Held(size, false, head, tail, res, c)
  {
  }

  lemma RequestRoomy(size: nat, head: nat, tail: nat, minimum: nat)
    requires head < size && tail < size && Request(size, head, tail, minimum) != NONE
    ensures var res := Request(size, head, tail, minimum); Roomy(size, head, tail, res.gapd > 0, res.rsvd)
  {
    var res := Request(size, head, tail, minimum);
    forall n: nat | 8 + 8 * n <= res.rsvd ensures Room(size, head, tail, res.gapd > 0, n) {
      AdvanceSafeExactly(size, head, tail, minimum, 8 * n);
      assert Words(8 * n) == n;
    }
  }

  lemma AskInv(s: State, ev: Event)
    requires Inv(s) && (s.prod.PIdle? || s.prod.PGot?)
    ensures Inv(ProducerStep(s, ev))
  {
    if ev.Ask? {
      var res := Request(s.size, s.head, s.tail, ev.min);
      if res != NONE {
        AdvanceSafeExactly(s.size, s.head, s.tail, ev.min, 0);
        RequestRoomy(s.size, s.head, s.tail, ev.min);
      }
    } else if ev.Write? && s.prod.PGot? && ev.c.size <= s.prod.min {
      assert Words(ev.c.size) <= Words(s.prod.min);
      assert Room(s.size, s.head, s.tail, s.prod.res.gapd > 0, Words(ev.c.size) + 1);
    }
    hide LayoutInv; hide ConsumerInv;
  }

  lemma StepInv(s: State, ev: Event)
    requires Inv(s)
    ensures Inv(Step(s, ev))
  {
    if ev.Consume? {
      if s.cons.CSkip? { SkipInv(s); } else if s.cons.CAdvance? { AdvanceInv(s); } else { ReadHeaderInv(s); }
    } else {
      if s.prod.PStore? { StoreInv(s); }
      else if s.prod.PIdle? || s.prod.PGot? { AskInv(s, ev); }
      else if s.prod.PFill? { FillInv(s); }
      else if s.prod.PGap? { GapInv(s); }
      else { HeaderInv(s); }
    }
  }

  lemma {:induction false} RunInv(mem: seq<Word>, strict: bool, evs: seq<Event>)
    requires mem != []
    ensures var s := Run(Init(mem, strict), evs); Inv(s) && s.strict == strict && s.size == |mem|
    decreases |evs|
  {
    hide Inv;
    if evs == [] {
      InitInv(mem, strict);
    } else {
      RunInv(mem, strict, evs[..|evs| - 1]);
      StepInv(Run(Init(mem, strict), evs[..|evs| - 1]), evs[|evs| - 1]);
    }
  }

  // ------------------------------------------------------------------ theorems

  ghost predicate Reachable(mem: seq<Word>, strict: bool, s: State) {
    mem != [] && exists evs :: s == Run(Init(mem, strict), evs)
  }

  lemma ReachableInv(mem: seq<Word>, strict: bool, s: State)
    requires Reachable(mem, strict, s)
    ensures Inv(s) && s.strict == strict && s.size == |mem|
  {
    var evs :| s == Run(Init(mem, strict), evs);
    RunInv(mem, strict, evs);
  }

  /** In every interleaving the consumer takes exactly the chunks the producer published, in
      order and unchanged, and from tail to head the buffer parses as those not yet taken. */
  lemma ChunksInOrder(mem: seq<Word>, strict: bool, s: State)
    requires Reachable(mem, strict, s)
    ensures s.sent == s.received + s.q
    ensures s.head < s.size && s.tail < s.size == |s.mem| == |mem|
    ensures Parses(s.mem, s.tail, Ahead(s.size, s.head, s.tail), s.q)
    ensures Readable(s.size, s.head, s.tail) == 0 <==> s.q == []
  {
    ReachableInv(mem, strict, s);
    ReadableIsAhead(s.size, s.head, s.tail);
  }

  /** No write of the producer changes a word that is still to be read. */
  lemma WritesMissUnread(mem: seq<Word>, strict: bool, s: State, ev: Event, y: nat)
    requires Reachable(mem, strict, s) && !ev.Consume?
    requires s.tail <= y < Ahead(s.size, s.head, s.tail)
    ensures |Step(s, ev).mem| == |s.mem| && y < 2 * |s.mem| && At(Step(s, ev).mem, y) == At(s.mem, y)
  {
    ReachableInv(mem, strict, s);
    ProducerStepsMiss(s, ev, y);
  }

  lemma ProducerStepsMiss(s: State, ev: Event, y: nat)
    requires Inv(s) && s.tail <= y < Ahead(s.size, s.head, s.tail)
    ensures y < 2 * |s.mem| && |ProducerStep(s, ev).mem| == |s.mem| && At(ProducerStep(s, ev).mem, y) == At(s.mem, y)
  {
    hide Parses; hide ConsumerInv;
    if !s.prod.PIdle? {
      assert s.prod.res.gapd > 0 ==> s.prod.res.gapd == 8 * (s.size - s.head);
    }
  }

  /** When the producer writes no more than it asked for, head is 0 only before the first chunk. */
  lemma HeadNeverZero(mem: seq<Word>, s: State)
    requires Reachable(mem, true, s)
    ensures s.sent != [] ==> s.head != 0
  {
    ReachableInv(mem, true, s);
  }

  // ------------------------------------------------------------------ what a call was asked for

  /** The producer writes a chunk into the reservation it holds. */
  predicate Accepts(s: State, ev: Event) {
    && ev.Write? && s.prod.PGot? && |ev.c.data| == Words(ev.c.size) && Fits(s.prod.res, ev.c.size)
    && (s.strict ==> ev.c.size <= s.prod.min)
  }

  /** The chunks the producer has been given to write in a run, told from the schedule. */
  ghost function Given(o: State, evs: seq<Event>): seq<Chunk>
    decreases |evs|
  {
    if evs == [] then []
    else
      var s, ev := Run(o, evs[..|evs| - 1]), evs[|evs| - 1];
      Given(o, evs[..|evs| - 1]) + if Accepts(s, ev) then [ev.c] else []
  }

  /** The chunk being written. */
  function InHand(prod: Producer): seq<Chunk> { if prod.PIdle? || prod.PGot? then [] else [prod.c] }

  lemma GivenStep(s: State, ev: Event)
    requires Sized(s)
    ensures var s' := Step(s, ev);
      s'.sent + InHand(s'.prod) == s.sent + InHand(s.prod) + if Accepts(s, ev) then [ev.c] else []
  {
    hide Pos; hide Request; hide Put; hide Words; hide Pad;
  }

  /** The buffer as its callers see it: what the producer was given is, in order and unchanged, what
      the consumer has received, what is still to be read, and the chunk being written. */
  lemma {:induction false} DeliversGiven(mem: seq<Word>, strict: bool, evs: seq<Event>)
    requires mem != []
    ensures var s := Run(Init(mem, strict), evs);
      Given(Init(mem, strict), evs) == s.received + s.q + InHand(s.prod)
    decreases |evs|
  {
    hide Step; hide Inv; hide InHand; hide Accepts;
    RunInv(mem, strict, evs);
    SentIs(Run(Init(mem, strict), evs));
    if evs == [] {
      NothingInHand();
    } else {
      var prev := evs[..|evs| - 1];
      DeliversGiven(mem, strict, prev);
      RunInv(mem, strict, prev);
      SentIs(Run(Init(mem, strict), prev));
      GivenStep(Run(Init(mem, strict), prev), evs[|evs| - 1]);
    }
  }

  lemma NothingInHand()
    ensures InHand(PIdle) == []
  {
  }

  lemma SentIs(s: State)
    requires Inv(s)
    ensures Sized(s) && s.sent == s.received + s.q
  {
  }

  /** A request is granted while the consumer is at work exactly when there is room by the tail it
      has reached; and a read finds a chunk exactly when there is one. */
  lemma AnswersExactly(mem: seq<Word>, strict: bool, s: State, min: nat)
    requires Reachable(mem, strict, s)
    ensures s.prod.PIdle? || s.prod.PGot? ==>
      (Step(s, Ask(min)).prod.PGot? <==>
         || Room(s.size, s.head, s.tail, false, Words(min) + 1)
         || (s.head >= s.tail && Room(s.size, s.head, s.tail, true, Words(min) + 1)))
    ensures s.cons.CIdle? ==> (Step(s, Consume).cons.CIdle? <==> s.q == [])
  {
    hide Parses; hide Inv; hide Request; hide Room; hide Readable; hide Reachable;
    ReachableInv(mem, strict, s);
    SentIs(s);
    ChunksInOrder(mem, strict, s);
    GrantedExactly(s.size, s.head, s.tail, min);
  }

  // ------------------------------------------------------------------ the functions themselves

  /** The buffer as an object.  Without interference each function does to the queue of chunks
      what its name says; the producer's payload is written between request and advance. */
  class RingBuffer {
    const size: nat
    const mem: array<Word>
    var head: nat
    var tail: nat
    var rsvd: nat
    var gapd: nat

    ghost predicate Valid(q: seq<Chunk>)
      reads this, mem
    {
      size == mem.Length && LayoutInv(mem[..], size, head, tail, q)
    }

    constructor (words: nat)
      requires words > 0
      ensures Valid([]) && size == words && fresh(mem)
    {
      size := words;
      mem := new Word[words](_ => Data(0));
      head, tail, rsvd, gapd := 0, 0, 0, 0;
    }

    method WriteRequestMax(minimum: nat, ghost q: seq<Chunk>) returns (at: int)
      requires Valid(q)
      modifies this`rsvd, this`gapd
      ensures Valid(q)
      ensures var res := Request(size, head, tail, minimum);
        rsvd == res.rsvd && gapd == res.gapd && at == (if res == NONE then -1 else res.at)
      ensures at < 0 ==> rsvd == 0
      ensures at >= 0 <==>
        || Room(size, head, tail, false, Words(minimum) + 1)
        || (head >= tail && Room(size, head, tail, true, Words(minimum) + 1))
      ensures at >= 0 ==> Roomy(size, head, tail, gapd > 0, rsvd)
    {
      hide Parses; hide Roomy; hide Pos; hide Pad; hide Room; hide Words;
      var bytes, h, t, padded := 8 * size, 8 * head, 8 * tail, 16 + Pad(minimum);
      var space;
      if h > t {
        space := Pos(t - h + bytes, bytes) - 1;
      } else if h < t {
        space := t - h - 1;
      } else {
        space := bytes - 1;
      }
      var end := h + space;
      rsvd, gapd, at := 0, 0, -1;
      if end > bytes {
        var len1 := bytes - h;
        if len1 < padded {
          var len2 := Pos(end, bytes);
          if len2 >= padded {
            rsvd, gapd, at := len2, len1, 0;
          }
        } else {
          rsvd, gapd, at := len1, 0, head;
        }
      } else if space >= padded {
        rsvd, gapd, at := space, 0, head;
      }
      GrantedExactly(size, head, tail, minimum);
      if at >= 0 { RequestRoomy(size, head, tail, minimum); }
    }

    /** Publishes the chunk whose payload has been written behind the reserved header. */
    method WriteAdvance(written: nat, ghost q: seq<Chunk>, ghost c: Chunk)
      requires Valid(q) && c.size == written
      requires Held(size, false, head, tail, Reservation(rsvd, gapd, if gapd > 0 then 0 else head), c)
      requires Copied(mem[..], if gapd > 0 then 0 else head, c, |c.data|)
      modifies this`head, mem
      ensures Valid(q + [c]) && tail == old(tail)
    {
      ghost var res := Reservation(rsvd, gapd, if gapd > 0 then 0 else head);
      ghost var start := Start(size, head, tail, gapd > 0);
      ghost var m0 := mem[..];
      if gapd > 0 {
        mem[head] := Header(gapd - 8, true);
        WriteFree(m0, size, head, tail, q, CIdle, head, Header(gapd - 8, true));
        assert mem[..] == Put(m0, head, Header(gapd - 8, true));
        ghost var m1 := mem[..];
        mem[0] := Header(written, false);
        WriteFree(m1, size, head, tail, q, CIdle, size, Header(written, false));
        assert mem[..] == Put(m1, 0, Header(written, false));
      } else {
        mem[head] := Header(written, false);
        WriteFree(m0, size, head, tail, q, CIdle, start, Header(written, false));
        assert mem[..] == Put(m0, head, Header(written, false));
      }
      assert Copied(mem[..], res.at, c, |c.data|);
      Publishes(mem[..], size, head, tail, q, res, c);
      head := Pos(8 * head + gapd + 8 + Pad(written), 8 * size) / 8;
    }

    /** The oldest chunk, or none; a gap at tail is skipped on the way. */
    method ReadRequest(ghost q: seq<Chunk>) returns (at: int, toread: nat)
      requires Valid(q)
      modifies this`tail
      ensures Valid(q) && (at < 0 <==> q == [])
      ensures q != [] ==> at == tail && toread == q[0].size && !GapAt(mem[..], tail) && ChunkAt(mem[..], tail, q[0])
    {
      ReadableIsAhead(size, head, tail);
      var space := Readable(size, head, tail);
      at, toread := -1, 0;
      if space > 0 {
        FirstChunk(mem[..], size, head, tail, q);
        at := tail;
        if tail + space > size && mem[tail].gap {
          ParsesShift(mem[..], size, Ahead(size, head, tail), q);
          assert Pos(size, size) == Pos(0, size) == 0;
          tail := Pos(tail + (size - tail), size);
          at := 0;
          FirstChunk(mem[..], size, head, tail, q);
        }
        toread := mem[at].size;
      }
    }

    /** Gives the oldest chunk back to the producer.  After a read request there is no gap at
        tail; where there is one the call moves past it and no chunk is given back. */
    method ReadAdvance(ghost q: seq<Chunk>)
      requires Valid(q) && q != []
      modifies this`tail
      ensures Valid(if old(GapAt(mem[..], tail)) then q else q[1..])
      ensures old(GapAt(mem[..], tail)) ==> tail == 0 && !GapAt(mem[..], tail)
    {
      hide Pos;
      FirstChunk(mem[..], size, head, tail, q);
      ghost var a := Ahead(size, head, tail);
      ghost var x := tail + 1 + Words(mem[tail].size);
      if GapAt(mem[..], tail) {
        ParsesShift(mem[..], size, a, q);
        assert At(mem[..], size) == mem[0];
      } else if x >= size { ParsesShift(mem[..], x, a, q[1..]); }
      PosInLap(x, size);
      tail := Pos(tail + 1 + Words(mem[tail].size), size);
    }
  }

  lemma PosInLap(x: nat, size: nat)
    requires x < 2 * size
    ensures Pos(x, size) == if x < size then x else x - size
  {
    if x >= size { assert Pos(x, size) == Pos(x - size, size); }
  }

  lemma Publishes(mem: seq<Word>, size: nat, head: nat, tail: nat, q: seq<Chunk>, res: Reservation, c: Chunk)
    requires LayoutInv(mem, size, head, tail, q) && Held(size, false, head, tail, res, c)
    requires Copied(mem, res.at, c, |c.data|)
    requires mem[res.at] == Header(c.size, false) && (res.gapd > 0 ==> GapAt(mem, head))
    ensures LayoutInv(mem, size, Pos(8 * head + res.gapd + 8 + Pad(c.size), 8 * size) / 8, tail, q + [c])
  {
    var start := Start(size, head, tail, res.gapd > 0);
    forall k | 0 <= k < |c.data| ensures At(mem, start + 1 + k) == Data(c.data[k]) {
      assert mem[res.at + 1 + k] == Data(c.data[k]);
    }
    assert ChunkAt(mem, start, c);
    ParsesAppend(mem, tail, Ahead(size, head, tail), q, c, start);
    NewHead(size, false, head, tail, res, c);
  }
}
