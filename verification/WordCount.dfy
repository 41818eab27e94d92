/** The map-reduce word count of map-reduce/word-count.c.  Each thread counts the words of its
    slice of the file in a hash table of its own, whose buckets are lists in alphabetic order;
    then each thread merges its range of buckets of all tables into the main table.

    Threads share only the file, which they read, and in the merge they write different
    buckets, so they are run one after the other here.  A word whose bucket is not in the table
    makes the program step outside the table; here that ends the count with an outcome of its
    own. */
module WordCount {

  /** A word in lower case, letter by letter: 0 for 'a' to 25 for 'z'. */
  type Word = seq<nat>

  predicate IsLetter(c: char) { 'A' <= c <= 'Z' || 'a' <= c <= 'z' }

  function Lower(c: char): nat
    requires IsLetter(c)
  {
    if c <= 'Z' then (c - 'A') as nat else (c - 'a') as nat
  }

  // ------------------------------------------------------------------ the text of a file

  const SMALL: string := "abcdefghijklmnopqrstuvwxyz"
  const LARGE: string := "ABCDEFGHIJKLMNOPQRSTUVWXYZ"

  predicate InAlphabet(c: char) { c in SMALL || c in LARGE }

  /** The text is the word, in small and large letters. */
  predicate Spells(text: string, w: Word) {
    && |text| == |w|
    && forall k :: 0 <= k < |w| ==> w[k] < |SMALL| == |LARGE| && (text[k] == SMALL[w[k]] || text[k] == LARGE[w[k]])
  }

  /** The word stands at i, with no letter before it and none after it. */
  predicate OccursAt(s: string, w: Word, i: nat) {
    && w != [] && i + |w| <= |s| && Spells(s[i..i + |w|], w)
    && (i == 0 || !InAlphabet(s[i - 1])) && (i + |w| == |s| || !InAlphabet(s[i + |w|]))
  }

  /** Where w occurs in s. */
  ghost function Occurrences(s: string, w: Word): set<nat> {
    set i: nat | i < |s| && OccursAt(s, w, i)
  }

  /** Letter k of the alphabet. */
  lemma Alphabet(k: nat)
    requires k < 26
    ensures |SMALL| == |LARGE| == 26
    ensures SMALL[k] == 'a' + k as char && LARGE[k] == 'A' + k as char
  {
  }

  /** Letters are those of the alphabet. */
  lemma LettersAre(c: char)
    ensures IsLetter(c) <==> InAlphabet(c)
  {
    if 'a' <= c <= 'z' {
      Alphabet((c - 'a') as nat);
    } else if 'A' <= c <= 'Z' {
      Alphabet((c - 'A') as nat);
    } else {
      forall k: nat | k < 26 ensures SMALL[k] != c && LARGE[k] != c { Alphabet(k); }
    }
  }

  /** A letter is number k, large or small, if and only if it is the k-th of the alphabet. */
  lemma LowerIs(c: char, k: nat)
    requires IsLetter(c)
    ensures Lower(c) < 26
    ensures Lower(c) == k <==> k < |SMALL| == |LARGE| && (c == SMALL[k] || c == LARGE[k])
  {
    Alphabet(Lower(c));
    if k < 26 { Alphabet(k); }
  }

  // ------------------------------------------------------------------ words of a file

  /** The first position from i on that holds no letter. */
  function NextSep(s: string, i: nat): (r: nat)
    requires i <= |s|
    ensures i <= r <= |s|
    ensures forall j :: i <= j < r ==> IsLetter(s[j])
    ensures r < |s| ==> !IsLetter(s[r])
    decreases |s| - i
  {
    if i < |s| && IsLetter(s[i]) then NextSep(s, i + 1) else i
  }

  function LowerAll(s: string): Word
    requires forall j :: 0 <= j < |s| ==> IsLetter(s[j])
  {
    seq(|s|, j requires 0 <= j < |s| => Lower(s[j]))
  }

  /** A word starts at i. */
  predicate StartsAt(s: string, i: nat)
    requires i < |s|
  {
    IsLetter(s[i]) && (i == 0 || !IsLetter(s[i - 1]))
  }

  /** The word that starts at i: all letters up to the next position without one. */
  function WordAt(s: string, i: nat): Word
    requires i < |s|
  {
    LowerAll(s[i..NextSep(s, i)])
  }

  /** The word found at i is the one that stands there. */
  lemma OccursExactly(s: string, w: Word, i: nat)
    requires i < |s|
    ensures OccursAt(s, w, i) <==> StartsAt(s, i) && WordAt(s, i) == w
  {
    hide IsLetter; hide InAlphabet; hide Lower;
    if i > 0 { LettersAre(s[i - 1]); }
    var e := NextSep(s, i);
    if e < |s| { LettersAre(s[e]); }
    if OccursAt(s, w, i) {
      SpelledLetters(s, w, i);
      if i + |w| < |s| { LettersAre(s[i + |w|]); }
      assert e == i + |w|;
      forall k | 0 <= k < |w| ensures WordAt(s, i)[k] == w[k] { LowerIs(s[i + k], w[k]); }
    }
    if StartsAt(s, i) && WordAt(s, i) == w {
      forall k | 0 <= k < |w|
        ensures w[k] < |SMALL| == |LARGE| && (s[i..e][k] == SMALL[w[k]] || s[i..e][k] == LARGE[w[k]])
      {
        LowerIs(s[i + k], w[k]);
      }
    }
  }

  /** Where the words found are w. */
  ghost function Starts(s: string, w: Word): set<nat> {
    set i: nat | i < |s| && StartsAt(s, i) && WordAt(s, i) == w
  }

  lemma OccurrencesAre(s: string, w: Word)
    ensures Occurrences(s, w) == Starts(s, w)
  {
    hide OccursAt; hide StartsAt; hide WordAt;
    forall i: nat | i < |s| ensures OccursAt(s, w, i) <==> StartsAt(s, i) && WordAt(s, i) == w {
      OccursExactly(s, w, i);
    }
  }

  /** The same letter, large or small. */
  predicate SameLetter(c: char, d: char) {
    exists k :: 0 <= k < |SMALL| == |LARGE| && c in {SMALL[k], LARGE[k]} && d in {SMALL[k], LARGE[k]}
  }

  predicate SameText(a: string, b: string) {
    |a| == |b| && forall k :: 0 <= k < |a| ==> SameLetter(a[k], b[k])
  }

  /** Two words of the file are counted as one if and only if they are of the same length and agree
      letter by letter up to case. */
  lemma SameWordExactly(s: string, i: nat, j: nat)
    requires i < |s| && j < |s| && StartsAt(s, i) && StartsAt(s, j)
    ensures WordAt(s, i) == WordAt(s, j) <==> SameText(s[i..NextSep(s, i)], s[j..NextSep(s, j)])
  {
    hide IsLetter; hide Lower; hide SameLetter;
    var a, b := s[i..NextSep(s, i)], s[j..NextSep(s, j)];
    forall k | 0 <= k < |a| == |b| ensures SameLetter(a[k], b[k]) <==> LowerAll(a)[k] == LowerAll(b)[k] {
      SameLetterExactly(a[k], b[k]);
    }
  }

  lemma SameLetterExactly(c: char, d: char)
    requires IsLetter(c) && IsLetter(d)
    ensures SameLetter(c, d) <==> Lower(c) == Lower(d)
  {
    LowerIs(c, Lower(c));
    LowerIs(d, Lower(c));
    if SameLetter(c, d) {
      var k :| 0 <= k < |SMALL| == |LARGE| && c in {SMALL[k], LARGE[k]} && d in {SMALL[k], LARGE[k]};
      LowerIs(c, k);
      LowerIs(d, k);
    }
  }

  lemma SpelledLetters(s: string, w: Word, i: nat)
    requires i + |w| <= |s| && Spells(s[i..i + |w|], w)
    ensures forall k :: i <= k < i + |w| ==> IsLetter(s[k])
  {
    forall k | i <= k < i + |w| ensures IsLetter(s[k]) {
      assert s[k] == s[i..i + |w|][k - i];
      LettersAre(s[k]);
    }
  }

  /** The letters read since the last separator, and the words completed, between lo and p. */
  function Carry(s: string, lo: nat, p: nat): Word
    requires lo <= p <= |s|
    decreases p
  {
    if p == lo || !IsLetter(s[p - 1]) then [] else Carry(s, lo, p - 1) + [Lower(s[p - 1])]
  }

  function Done(s: string, lo: nat, p: nat): seq<Word>
    requires lo <= p <= |s|
    decreases p
  {
    if p == lo then []
    else if IsLetter(s[p - 1]) then Done(s, lo, p - 1)
    else Done(s, lo, p - 1) + Flush(Carry(s, lo, p - 1))
  }

  function Flush(w: Word): seq<Word> { if w == [] then [] else [w] }

  /** The words of the slice from lo to hi. */
  function Words(s: string, lo: nat, hi: nat): seq<Word>
    requires lo <= hi <= |s|
  {
    Done(s, lo, hi) + Flush(Carry(s, lo, hi))
  }

  function Count(ws: seq<Word>, w: Word): nat {
    if ws == [] then 0 else Count(ws[..|ws| - 1], w) + if ws[|ws| - 1] == w then 1 else 0
  }

  lemma {:induction false} CountConcat(a: seq<Word>, b: seq<Word>, w: Word)
    ensures Count(a + b, w) == Count(a, w) + Count(b, w)
    decreases |b|
  {
    if b == [] {
      assert a + b == a;
    } else {
      CountConcat(a, b[..|b| - 1], w);
      assert (a + b)[..|a + b| - 1] == a + b[..|b| - 1];
    }
  }

  /** A slice can be cut where there is no letter without cutting a word. */
  lemma {:induction false} CutBetweenWords(s: string, a: nat, b: nat, c: nat)
    requires a <= b < c <= |s| && !IsLetter(s[b])
    ensures Carry(s, a, c) == Carry(s, b, c)
    ensures Done(s, a, c) == Words(s, a, b) + Done(s, b, c)
    decreases c
  {
    if c > b + 1 {
      CutBetweenWords(s, a, b, c - 1);
      assert Words(s, a, b) + (Done(s, b, c - 1) + Flush(Carry(s, b, c - 1))) ==
          Words(s, a, b) + Done(s, b, c - 1) + Flush(Carry(s, b, c - 1));
    } else {
      assert Done(s, b, c) == [] && Carry(s, b, c) == [];
    }
  }

  lemma WordsSplit(s: string, a: nat, b: nat, c: nat)
    requires a <= b <= c <= |s| && (b == c || !IsLetter(s[b]))
    ensures Words(s, a, c) == Words(s, a, b) + Words(s, b, c)
  {
    if b < c {
      CutBetweenWords(s, a, b, c);
    }
  }

  // ------------------------------------------------------------------ what the words are

  /** The starts before p of the words that end before p. */
  ghost function EndedBefore(s: string, w: Word, p: nat): set<nat>
    requires p <= |s|
  {
    set i: nat | i < p && StartsAt(s, i) && NextSep(s, i) < p && WordAt(s, i) == w
  }

  lemma {:induction false} CarryIsRun(s: string, p: nat)
    requires p <= |s|
    ensures var n := |Carry(s, 0, p)|;
      && n <= p && (forall j :: p - n <= j < p ==> IsLetter(s[j]))
      && (n == p || !IsLetter(s[p - n - 1]))
      && Carry(s, 0, p) == LowerAll(s[p - n..p])
  {
    if p > 0 && IsLetter(s[p - 1]) {
      CarryIsRun(s, p - 1);
    }
  }

  lemma {:induction false} NextSepIs(s: string, i: nat, r: nat)
    requires i <= r <= |s| && (forall j :: i <= j < r ==> IsLetter(s[j])) && (r == |s| || !IsLetter(s[r]))
    ensures NextSep(s, i) == r
    decreases r - i
  {
    if i < r { NextSepIs(s, i + 1, r); }
  }

  /** Only the word in progress can end at p, and it does when there is no letter at p. */
  lemma EndedStep(s: string, w: Word, p: nat)
    requires p < |s|
    ensures var c := Carry(s, 0, p);
      && |c| <= p && p - |c| !in EndedBefore(s, w, p)
      && EndedBefore(s, w, p + 1) == EndedBefore(s, w, p) + if !IsLetter(s[p]) && c != []
           && c == w then {p - |c|} else {}
  {
    CarryIsRun(s, p);
    var c := Carry(s, 0, p);
    var st := p - |c|;
    if !IsLetter(s[p]) {
      if c != [] {
        NextSepIs(s, st, p);
        assert StartsAt(s, st) && WordAt(s, st) == c;
      }
      forall i: nat | i <= p && StartsAt(s, i) && NextSep(s, i) == p ensures i == st && c != [] {
        LastStart(s, i, st, p);
      }
    }
  }

  lemma EndedCount(s: string, w: Word, p: nat)
    requires p < |s|
    ensures var c := Carry(s, 0, p);
      |EndedBefore(s, w, p + 1)| == |EndedBefore(s, w, p)| + if !IsLetter(s[p]) && c != [] && c == w then 1 else 0
  {
    hide EndedBefore; hide Carry; hide IsLetter;
    EndedStep(s, w, p);
  }

  /** The words completed before p are exactly those that start and end before p. */
  lemma {:induction false} DoneCounts(s: string, w: Word, p: nat)
    requires p <= |s|
    ensures Count(Done(s, 0, p), w) == |EndedBefore(s, w, p)|
  {
    hide Carry; hide IsLetter; hide EndedBefore; hide Done; hide Count;
    if p > 0 {
      DoneCounts(s, w, p - 1);
      EndedCount(s, w, p - 1);
      DoneStep(s, w, p);
    } else {
      NothingEnded(s, w);
    }
  }

  lemma NothingEnded(s: string, w: Word)
    ensures Count(Done(s, 0, 0), w) == |EndedBefore(s, w, 0)|
  {
  }

  lemma DoneStep(s: string, w: Word, p: nat)
    requires 0 < p <= |s|
    ensures var c := Carry(s, 0, p - 1);
      Count(Done(s, 0, p), w) == Count(Done(s, 0, p - 1), w) + if !IsLetter(s[p - 1]) && c != [] && c == w then 1 else 0
  {
    hide Carry;
    var c := Carry(s, 0, p - 1);
    CountConcat(Done(s, 0, p - 1), Flush(c), w);
    assert Count(Flush(c), w) == if c != [] && c == w then 1 else 0;
  }

  /** The word in progress at the end of the file is the only one that does not end before it. */
  lemma LastOccurrence(s: string, w: Word)
    ensures var c := Carry(s, 0, |s|);
      && |c| <= |s| && |s| - |c| !in EndedBefore(s, w, |s|)
      && Starts(s, w) == EndedBefore(s, w, |s|) + if c != [] && c == w then {|s| - |c|} else {}
  {
    CarryIsRun(s, |s|);
    var c := Carry(s, 0, |s|);
    var st := |s| - |c|;
    if c != [] {
      NextSepIs(s, st, |s|);
      assert StartsAt(s, st) && WordAt(s, st) == c;
    }
    forall i: nat | i < |s| && StartsAt(s, i) && NextSep(s, i) == |s| ensures i == st && c != [] {
      LastStart(s, i, st, |s|);
    }
  }

  /** A word of the file is a longest run of letters: the words of the whole file count what
      occurs in it. */
  lemma WordsAreOccurrences(s: string, w: Word)
    ensures Count(Words(s, 0, |s|), w) == |Occurrences(s, w)|
  {
    hide Carry; hide StartsAt; hide WordAt; hide NextSep; hide Occurrences; hide EndedBefore; hide Done; hide Starts;
    OccurrencesAre(s, w);
    var c := Carry(s, 0, |s|);
    DoneCounts(s, w, |s|);
    LastOccurrence(s, w);
    CountConcat(Done(s, 0, |s|), Flush(c), w);
    assert Count(Flush(c), w) == if c != [] && c == w then 1 else 0;
  }

  /** Two starts of the same run of letters are the same. */
  lemma LastStart(s: string, i: nat, st: nat, e: nat)
    requires i < |s| && st <= e <= |s| && StartsAt(s, i) && NextSep(s, i) == e
    requires (forall j :: st <= j < e ==> IsLetter(s[j])) && (st == 0 || !IsLetter(s[st - 1]))
    ensures i == st && st < e
  {
  }

  // ------------------------------------------------------------------ slices

  /** Where the slice of thread t starts, of n; the slice of thread n would start at the end. */
  function SliceStart(s: string, n: nat, t: nat): (r: nat)
    requires 0 < n && t <= n
    ensures r <= |s|
  {
    if t == 0 then 0 else if t == n then |s| else SliceBound(|s|, n, t); NextSep(s, |s| / n * t)
  }

  lemma SliceBound(size: nat, n: nat, t: nat)
    requires 0 < n && t <= n
    ensures 0 <= size / n * t <= size
  {
    assert size / n * t <= size / n * n by { Multiply(size / n, t, n); }
    assert size / n * n <= size;
  }

  lemma Multiply(a: nat, b: nat, c: nat)
    requires b <= c
    ensures a * b <= a * c && b * a <= c * a
  {
  }

  lemma {:induction false} NextSepMonotone(s: string, i: nat, j: nat)
    requires i <= j <= |s|
    ensures NextSep(s, i) <= NextSep(s, j)
  {
    if NextSep(s, i) > j { NextSepIs(s, j, NextSep(s, i)); }
  }

  /** Slices follow one another, and no word lies across two of them. */
  lemma SlicesInOrder(s: string, n: nat, t: nat)
    requires 0 < n && t < n
    ensures SliceStart(s, n, t) <= SliceStart(s, n, t + 1)
    ensures var b := SliceStart(s, n, t + 1); b == |s| || !IsLetter(s[b])
  {
    SliceBound(|s|, n, t);
    if t + 1 < n {
      SliceBound(|s|, n, t + 1);
      Multiply(|s| / n, t, t + 1);
      NextSepMonotone(s, |s| / n * t, |s| / n * (t + 1));
    }
  }

  /** buff_init: the two loops move the ends of an even slice to the next separators.  It fails
      when one of them runs off the end of the file. */
  method BuffInit(s: string, tid: nat, n: nat) returns (ok: bool, current: nat, slice: int)
    requires tid < n
    ensures ok <==> (tid == 0 || SliceStart(s, n, tid) < |s|) && (tid == n - 1 || SliceStart(s, n, tid + 1) < |s|)
    ensures ok ==> current == SliceStart(s, n, tid) && current + slice == SliceStart(s, n, tid + 1)
  {
    SliceBound(|s|, n, tid);
    SliceBound(|s|, n, tid + 1);
    slice := |s| / n;
    current := slice * tid;
    if tid == n - 1 { slice := slice + |s| % n; }
    var end := current + slice;
    assert end == if tid == n - 1 then |s| else |s| / n * (tid + 1) by { LastSlice(|s|, n, tid); }
    ghost var first, last := current, end;
    ok := false;
    if tid != 0 {
      while true
        invariant first <= current <= |s| && current + slice == end && NextSep(s, current) == NextSep(s, first)
        decreases |s| - current
      {
        if current >= |s| { return; }
        if !IsLetter(s[current]) { break; }
        current, slice := current + 1, slice - 1;
      }
    }
    if tid != n - 1 {
      while true
        invariant last <= end <= |s| && current + slice == end && NextSep(s, end) == NextSep(s, last)
        decreases |s| - end
      {
        if end >= |s| { return; }
        if !IsLetter(s[end]) { break; }
        end, slice := end + 1, slice + 1;
      }
    }
    ok := true;
  }

  lemma LastSlice(size: nat, n: nat, t: nat)
    requires t < n
    ensures size / n * t + size / n == size / n * (t + 1)
    ensures t == n - 1 ==> size / n * t + size / n + size % n == size
  {
  }

  // ------------------------------------------------------------------ order and hash codes

  /** strcasecmp: negative, zero or positive. */
  function Compare(a: Word, b: Word): int {
    if a == [] && b == [] then 0
    else if a == [] then -1
    else if b == [] then 1
    else if a[0] != b[0] then a[0] - b[0]
    else Compare(a[1..], b[1..])
  }

  lemma {:induction false} CompareIsOrder(a: Word, b: Word)
    ensures Compare(a, b) == 0 <==> a == b
    ensures Compare(a, b) < 0 <==> Compare(b, a) > 0
    decreases |a|
  {
    if a != [] && b != [] && a[0] == b[0] {
      CompareIsOrder(a[1..], b[1..]);
      assert a == [a[0]] + a[1..] && b == [b[0]] + b[1..];
    }
  }

  lemma {:induction false} CompareTransitive(a: Word, b: Word, c: Word)
    requires Compare(a, b) < 0 && Compare(b, c) < 0
    ensures Compare(a, c) < 0
    decreases |a|
  {
    if a != [] && b != [] && c != [] && a[0] == b[0] == c[0] {
      CompareTransitive(a[1..], b[1..], c[1..]);
    }
  }

  predicate Letters(w: Word) { forall j :: 0 <= j < |w| ==> w[j] < 26 }

  function Pow32(k: nat): (p: nat)
    ensures p > 0
  {
    if k == 0 then 1 else 32 * Pow32(k - 1)
  }

  /** The first k letters, five bits each. */
  function Code(w: Word, k: nat): nat {
    if k == 0 || w == [] then 0 else w[0] * Pow32(k - 1) + Code(w[1..], k - 1)
  }

  const CODE_LETTERS := 6

  /** A smaller letter in front outweighs whatever follows it. */
  lemma LetterBits(x: nat, y: nat, p: nat, rest: nat)
    requires x < y && rest < p
    ensures x * p + rest < y * p
  {
    Multiply(p, x + 1, y);
    assert p * (x + 1) == p * x + p;
  }

  lemma {:induction false} CodeBound(w: Word, k: nat)
    requires Letters(w)
    ensures Code(w, k) < Pow32(k)
    decreases k
  {
    if k > 0 && w != [] {
      CodeBound(w[1..], k - 1);
      LetterBits(w[0], 32, Pow32(k - 1), Code(w[1..], k - 1));
    }
  }

  /** The hash code keeps the alphabetic order. */
  lemma {:induction false} CodeMonotone(a: Word, b: Word, k: nat)
    requires Letters(a) && Letters(b) && Compare(a, b) <= 0
    ensures Code(a, k) <= Code(b, k)
    decreases k
  {
    if k > 0 && a != [] && b != [] {
      if a[0] == b[0] {
        CodeMonotone(a[1..], b[1..], k - 1);
      } else {
        CodeBound(a[1..], k - 1);
        LetterBits(a[0], b[0], Pow32(k - 1), Code(a[1..], k - 1));
      }
    }
  }

  /** get_code: each letter goes into the five bits below those of the letter before; the bits
      are clear, so or-ing them in is adding. */
  method GetCode(w: Word) returns (code: nat)
    requires Letters(w)
    ensures code == Code(w, CODE_LETTERS)
  {
    code := 0;
    var i, at: nat := CODE_LETTERS - 1, 0;
    while i >= 0 && at < |w|
      invariant -1 <= i < CODE_LETTERS && at == CODE_LETTERS - 1 - i <= |w|
      invariant code + Code(w[at..], i + 1) == Code(w, CODE_LETTERS)
    {
      assert w[at..][1..] == w[at + 1..];
      code := code + w[at] * Pow32(i);
      i, at := i - 1, at + 1;
    }
  }

  // ------------------------------------------------------------------ scaling codes to buckets

  /** The code of six z's: code_max, and code_range as well since the code of "a" is 0. */
  const CODE_MAX: nat := 865920825

  /** scale_range: the codes from 0 to CODE_MAX are spread over nb buckets. */
  function ScaleRange(code: nat, nb: nat): nat { code * nb / CODE_MAX }

  /** The first six letters are all z. */
  predicate SixZ(w: Word) { |w| >= CODE_LETTERS && forall j :: 0 <= j < CODE_LETTERS ==> w[j] == 25 }

  function MaxCode(k: nat): nat { if k == 0 then 0 else 25 * Pow32(k - 1) + MaxCode(k - 1) }

  lemma MaxCodeIs()
    ensures MaxCode(CODE_LETTERS) == CODE_MAX
  {
    assert Pow32(1) == 32 && Pow32(2) == 1024 && Pow32(3) == 32768 && Pow32(4) == 1048576 && Pow32(5) == 33554432;
    assert MaxCode(1) == 25 && MaxCode(2) == 825 && MaxCode(3) == 26425 && MaxCode(4) == 845625
        && MaxCode(5) == 27060025;
  }

  /** No code is larger than that of k z's, and only a word that begins with them has it. */
  lemma {:induction false} LargestCode(w: Word, k: nat)
    requires Letters(w)
    ensures Code(w, k) <= MaxCode(k)
    ensures Code(w, k) == MaxCode(k) <==> |w| >= k && forall j :: 0 <= j < k ==> w[j] == 25
    decreases k
  {
    if k > 0 && w != [] {
      LargestCode(w[1..], k - 1);
      Multiply(Pow32(k - 1), w[0], 25);
      if w[0] < 25 { LetterBits(w[0], 25, Pow32(k - 1), 0); }
      assert |w| >= k && (forall j :: 0 <= j < k ==> w[j] == 25) ==> forall j :: 0 <= j < k - 1 ==> w[1..][j] == 25;
      assert w[0] == 25 && (forall j :: 0 <= j < k - 1 && j < |w[1..]| ==> w[1..][j] == 25) ==>
          forall j :: 0 <= j < k && j < |w| ==> w[j] == 25 by {
        assert forall j :: 0 < j < |w| ==> w[j] == w[1..][j - 1];
      }
    }
  }

  /** Larger codes go to no smaller bucket. */
  lemma ScaleMonotone(c: nat, d: nat, nb: nat)
    requires c <= d
    ensures ScaleRange(c, nb) <= ScaleRange(d, nb)
  {
    Multiply(nb, c, d);
  }

  /** A word has a bucket in the table if and only if it does not begin with six z's. */
  lemma InTableExactly(w: Word, nb: nat)
    requires Letters(w) && nb > 0
    ensures InTable(nb, w) <==> !SixZ(w)
  {
    var c := Code(w, CODE_LETTERS);
    LargestCode(w, CODE_LETTERS);
    MaxCodeIs();
    if c < CODE_MAX { Multiply(nb, c, CODE_MAX - 1); } else { assert c == CODE_MAX; }
  }

  /** For instance "zzzzzz" goes to the bucket after the last, however many there are. */
  lemma SixZOutside(nb: nat)
    requires nb > 0
    ensures BucketOf(nb, [25, 25, 25, 25, 25, 25]) == nb
  {
    var w := [25, 25, 25, 25, 25, 25];
    LargestCode(w, CODE_LETTERS);
    MaxCodeIs();
    assert SixZ(w);
  }

  /** The program divides in floating point and truncates.  A quotient that is off by less than
      1 / y, and exact when it is a whole number, truncates to the whole quotient. */
  lemma TruncatedQuotient(x: nat, y: nat, q: real)
    requires y > 0
    requires -1.0 < q * y as real - x as real < 1.0
    requires x % y == 0 ==> q == (x / y) as real
    ensures q.Floor == x / y
  {
    var k, r := x / y, x % y;
    if r > 0 {
      assert x as real == k as real * y as real + r as real by { assert x == k * y + r; }
      assert q > k as real by { if q <= k as real { Scaled(q, k as real, y as real); } }
      assert q < k as real + 1.0 by { if q >= k as real + 1.0 { Scaled(k as real + 1.0, q, y as real); } }
    }
  }

  lemma Scaled(a: real, b: real, y: real)
    requires a <= b && y > 0.0
    ensures a * y <= b * y
  {
  }

  /** With at most 8192 buckets the rounding of a double, one part in 2^53, is small enough: what
      scale_range computes is ScaleRange. */
  lemma DoubleIsExact(code: nat, nb: nat, q: real)
    requires code <= CODE_MAX && nb <= MAX_BUCKETS
    requires var x := (code * nb) as real;
      -x <= (q * CODE_MAX as real - x) * 9007199254740992.0 <= x
    requires code * nb % CODE_MAX == 0 ==> q == (code * nb / CODE_MAX) as real
    ensures q.Floor == ScaleRange(code, nb)
  {
    Multiply(nb, code, CODE_MAX);
    Multiply(CODE_MAX, nb, MAX_BUCKETS);
    assert code * nb <= CODE_MAX * 8192 < 9007199254740992;
    TruncatedQuotient(code * nb, CODE_MAX, q);
  }

  const MAX_BUCKETS := 8192
  const MIN_BUCKETS := 26

  /** The buckets wc_init makes for a file of this size, one for every 32 bytes within limits. */
  function Buckets(size: nat): (nb: nat)
    ensures MIN_BUCKETS <= nb <= MAX_BUCKETS
  {
    var words := size / 32;
    var some := if words < MAX_BUCKETS then words else MAX_BUCKETS;
    if some > MIN_BUCKETS then some else MIN_BUCKETS
  }

  // ------------------------------------------------------------------ hash tables

  datatype Entry = Entry(word: Word, count: nat)

  type Bucket = seq<Entry>

  /** The bucket of w in a table of nb buckets. */
  function BucketOf(nb: nat, w: Word): nat { ScaleRange(Code(w, CODE_LETTERS), nb) }

  predicate InTable(nb: nat, w: Word) { BucketOf(nb, w) < nb }

  predicate AllInTable(nb: nat, ws: seq<Word>) { forall i :: 0 <= i < |ws| ==> InTable(nb, ws[i]) }

  /** The words of a bucket are in alphabetic order, without repetition. */
  ghost predicate Sorted(b: Bucket) {
    && (forall i :: 0 <= i < |b| ==> Letters(b[i].word))
    && (forall i, j :: 0 <= i < j < |b| ==> Compare(b[i].word, b[j].word) < 0)
  }

  ghost predicate TableInv(nb: nat, t: seq<Bucket>) {
    && |t| == nb
    && (forall j :: 0 <= j < |t| ==> Sorted(t[j]))
    && (forall j, i :: 0 <= j < |t| && 0 <= i < |t[j]| ==> BucketOf(nb, t[j][i].word) == j)
  }

  /** The counter of w, 0 when it is not there. */
  ghost function Counter(b: Bucket, w: Word): nat {
    if b == [] then 0 else if b[0].word == w then b[0].count else Counter(b[1..], w)
  }

  ghost function CounterIn(nb: nat, t: seq<Bucket>, w: Word): nat {
    if BucketOf(nb, w) < |t| then Counter(t[BucketOf(nb, w)], w) else 0
  }

  lemma {:induction false} CounterAbsent(b: Bucket, w: Word)
    requires forall i :: 0 <= i < |b| ==> b[i].word != w
    ensures Counter(b, w) == 0
  {
    if b != [] { CounterAbsent(b[1..], w); }
  }

  /** ht_find with its early exit: entries with another code are passed over, and the first
      entry with the same code that comes after w ends the search. */
  method Find(b: Bucket, w: Word) returns (at: int)
    requires Sorted(b) && Letters(w)
    ensures at < |b| && (at >= 0 ==> b[at].word == w)
    ensures at < 0 ==> forall i :: 0 <= i < |b| ==> b[i].word != w
  {
    var hval := GetCode(w);
    at := 0;
    while at < |b|
      invariant 0 <= at <= |b|
      invariant forall i :: 0 <= i < at ==> b[i].word != w
    {
      var hash := GetCode(b[at].word);
      if hash == hval {
        var res := Compare(b[at].word, w);
        CompareIsOrder(b[at].word, w);
        if res == 0 { return; }
        if res > 0 {
          LaterIsAfter(b, at, w);
          at := -1;
          return;
        }
      }
      at := at + 1;
    }
    at := -1;
  }

  /** Behind an entry that comes after w there is no w. */
  lemma LaterIsAfter(b: Bucket, at: nat, w: Word)
    requires Sorted(b) && at < |b| && Compare(b[at].word, w) > 0
    ensures forall i :: at <= i < |b| ==> b[i].word != w && Compare(w, b[i].word) < 0
  {
    forall i | at <= i < |b| ensures b[i].word != w && Compare(w, b[i].word) < 0 {
      CompareIsOrder(w, b[at].word);
      if i > at { CompareTransitive(w, b[at].word, b[i].word); }
      CompareIsOrder(w, b[i].word);
    }
  }

  /** ht_insert: the place before the first entry that comes after w, found among entries whose
      code is not smaller. */
  method Place(b: Bucket, w: Word) returns (at: nat)
    requires Sorted(b) && Letters(w) && forall i :: 0 <= i < |b| ==> b[i].word != w
    ensures at <= |b|
    ensures forall i :: 0 <= i < at ==> Compare(b[i].word, w) < 0
    ensures forall i :: at <= i < |b| ==> Compare(w, b[i].word) < 0
  {
    var hval := GetCode(w);
    at := 0;
    while at < |b|
      invariant at <= |b|
      invariant forall i :: 0 <= i < at ==> Compare(b[i].word, w) < 0
    {
      var hash := GetCode(b[at].word);
      CompareIsOrder(b[at].word, w);
      CompareIsOrder(w, b[at].word);
      if hash >= hval {
        if Compare(b[at].word, w) > 0 {
          LaterIsAfter(b, at, w);
          return;
        }
      } else if Compare(b[at].word, w) > 0 {
        CodeMonotone(w, b[at].word, CODE_LETTERS);
        assert false;
      }
      at := at + 1;
    }
  }

  lemma {:induction false} CounterBump(b: Bucket, at: nat, n: nat, v: Word)
    requires Sorted(b) && at < |b|
    ensures var b' := b[at := Entry(b[at].word, b[at].count + n)];
      Sorted(b') && Counter(b', v) == Counter(b, v) + if v == b[at].word then n else 0
  {
    var b' := b[at := Entry(b[at].word, b[at].count + n)];
    if at > 0 {
      CompareIsOrder(b[0].word, b[at].word);
      CounterBump(b[1..], at - 1, n, v);
      assert b'[1..] == b[1..][at - 1 := Entry(b[at].word, b[at].count + n)];
    } else {
      assert b'[1..] == b[1..];
    }
  }

  lemma {:induction false} CounterInsert(b: Bucket, at: nat, e: Entry, v: Word)
    requires at <= |b| && forall i :: 0 <= i < |b| ==> b[i].word != e.word
    ensures Counter(b[..at] + [e] + b[at..], v) == if v == e.word then e.count else Counter(b, v)
  {
    var b' := b[..at] + [e] + b[at..];
    if at > 0 {
      CounterInsert(b[1..], at - 1, e, v);
      assert b'[1..] == b[1..][..at - 1] + [e] + b[1..][at - 1..];
    } else {
      assert b'[1..] == b;
      if v == e.word { CounterAbsent(b, v); }
    }
  }

  lemma InsertedSorted(b: Bucket, at: nat, e: Entry)
    requires Sorted(b) && at <= |b| && Letters(e.word)
    requires forall i :: 0 <= i < at ==> Compare(b[i].word, e.word) < 0
    requires forall i :: at <= i < |b| ==> Compare(e.word, b[i].word) < 0
    ensures Sorted(b[..at] + [e] + b[at..])
  {
  }

  /** Adds n to the counter of w in its bucket; the entry is made if it is not there. */
  method AddToBucket(b: Bucket, w: Word, n: nat) returns (b': Bucket)
    requires Sorted(b) && Letters(w)
    ensures Sorted(b') && forall v :: Counter(b', v) == Counter(b, v) + if v == w then n else 0
    ensures forall i :: 0 <= i < |b'| ==> b'[i].word == w || exists j :: 0 <= j < |b| && b[j].word == b'[i].word
  {
    var at := Find(b, w);
    if at >= 0 {
      b' := b[at := Entry(b[at].word, b[at].count + n)];
      forall v ensures Sorted(b') && Counter(b', v) == Counter(b, v) + if v == w then n else 0 {
        CounterBump(b, at, n, v);
      }
      assert Sorted(b') by { CounterBump(b, at, n, w); }
    } else {
      var place := Place(b, w);
      b' := b[..place] + [Entry(w, n)] + b[place..];
      InsertedSorted(b, place, Entry(w, n));
      forall v ensures Counter(b', v) == Counter(b, v) + if v == w then n else 0 {
        CounterInsert(b, place, Entry(w, n), v);
        if v == w { CounterAbsent(b, v); }
      }
    }
  }

  method Add(nb: nat, table: array<Bucket>, w: Word, n: nat)
    requires TableInv(nb, table[..]) && Letters(w) && InTable(nb, w)
    modifies table
    ensures TableInv(nb, table[..])
    ensures forall v :: CounterIn(nb, table[..], v) == old(CounterIn(nb, table[..], v)) + if v == w then n else 0
  {
    var code := GetCode(w);
    var j := ScaleRange(code, nb);
    ghost var t0 := table[..];
    assert t0[j] == table[j];
    var b := AddToBucket(table[j], w, n);
    assert forall i :: 0 <= i < |b| ==> BucketOf(nb, b[i].word) == j;
    table[j] := b;
    assert table[..] == t0[j := b];
    CounterUpdated(nb, t0, j, b, w, n);
    hide Sorted; hide Counter; hide Code; hide ScaleRange;
  }

  lemma CounterUpdated(nb: nat, t: seq<Bucket>, j: nat, b: Bucket, w: Word, n: nat)
    requires j < |t| && j == BucketOf(nb, w)
    requires forall v :: Counter(b, v) == Counter(t[j], v) + if v == w then n else 0
    ensures forall v :: CounterIn(nb, t[j := b], v) == CounterIn(nb, t, v) + if v == w then n else 0
  {
  }

  // ------------------------------------------------------------------ map

  lemma {:induction false} CarryLetters(s: string, lo: nat, p: nat)
    requires lo <= p <= |s|
    ensures Letters(Carry(s, lo, p))
    decreases p
  {
    if p > lo && IsLetter(s[p - 1]) { CarryLetters(s, lo, p - 1); }
  }

  /** The table has counted the words ws on top of what it held at first. */
  ghost predicate Counted(nb: nat, t: seq<Bucket>, t0: seq<Bucket>, ws: seq<Word>) {
    TableInv(nb, t) && forall v :: CounterIn(nb, t, v) == CounterIn(nb, t0, v) + Count(ws, v)
  }

  // ------------------------------------------------------------------ the word buffer

  /** The buffer grows by this many bytes at a time. */
  const WORD_SIZE := 32

  function Padded(n: nat): nat { (n + WORD_SIZE - 1) / WORD_SIZE * WORD_SIZE }

  function Max(a: nat, b: nat): nat { if a < b then b else a }

  function Longest(ws: seq<Word>): nat {
    if ws == [] then 0 else Max(Longest(ws[..|ws| - 1]), |ws[|ws| - 1]|)
  }

  /** The terminator of w goes past the buffer: w fills it to the last byte, and no word before it
      in the slice has made it larger. */
  predicate Overruns(before: seq<Word>, w: Word) {
    w != [] && |w| % WORD_SIZE == 0 && Longest(before) <= |w|
  }

  predicate AllFit(ws: seq<Word>) { forall i :: 0 <= i < |ws| ==> !Overruns(ws[..i], ws[i]) }

  lemma PaddedIs(n: nat)
    ensures n <= Padded(n) < n + WORD_SIZE && Padded(n) % WORD_SIZE == 0
    ensures Padded(n) == n <==> n % WORD_SIZE == 0
  {
  }

  lemma PaddedUnique(n: nat, m: nat)
    requires n <= m < n + WORD_SIZE && m % WORD_SIZE == 0
    ensures Padded(n) == m
  {
  }

  /** add_letter, for a word behind others of which the longest has `longest` letters: the buffer
      is the smallest that holds all letters so far. */
  method AddLetter(word: Word, size: nat, letter: nat, ghost longest: nat) returns (word': Word, size': nat)
    requires size == Padded(Max(longest, |word|))
    ensures word' == word + [letter] && size' == Padded(Max(longest, |word'|))
  {
    PaddedIs(Max(longest, |word|));
    size' := size;
    if size == 0 || |word| > size - 1 { size' := size + WORD_SIZE; }
    word' := word + [letter];
    PaddedUnique(Max(longest, |word'|), size');
  }

  /** A word more fits behind ws if and only if it does not overrun. */
  lemma FitsBehind(ws: seq<Word>, w: Word)
    ensures AllFit(ws + Flush(w)) <==> AllFit(ws) && !Overruns(ws, w)
    ensures Longest(ws + Flush(w)) == Max(Longest(ws), |w|)
  {
    var all := ws + Flush(w);
    assert forall i :: 0 <= i < |ws| ==> all[i] == ws[i] && all[..i] == ws[..i];
    if w == [] {
      assert all == ws;
    } else {
      assert all[..|ws|] == ws && all[|ws|] == w;
      if AllFit(all) {
        assert !Overruns(all[..|ws|], all[|ws|]);
        forall i | 0 <= i < |ws| ensures !Overruns(ws[..i], ws[i]) { assert !Overruns(all[..i], all[i]); }
      }
    }
  }

  lemma PrefixFits(a: seq<Word>, b: seq<Word>)
    requires a <= b && AllFit(b)
    ensures AllFit(a)
  {
    forall i | 0 <= i < |a| ensures !Overruns(a[..i], a[i]) {
      assert a[..i] == b[..i] && !Overruns(b[..i], b[i]);
    }
  }

  // ------------------------------------------------------------------ a slice

  /** How counting a word can go wrong: its bucket is not in the table, or its terminator not in
      the word buffer. */
  datatype Fault = Fine | Outside | Overrun

  /** What a fault, or none, says about the words ws of a slice. */
  predicate Explains(f: Fault, nb: nat, ws: seq<Word>) {
    && (f.Fine? <==> AllInTable(nb, ws) && AllFit(ws))
    && (f.Outside? ==> !AllInTable(nb, ws))
    && (f.Overrun? ==> !AllFit(ws))
  }

  /** add_sep: the word read so far, if any, is counted behind the words ws, unless its terminator
      does not fit or its bucket is not in the table. */
  method AddSep(nb: nat, table: array<Bucket>, word: Word, size: nat, ghost t0: seq<Bucket>, ghost ws: seq<Word>)
    returns (f: Fault)
    requires Counted(nb, table[..], t0, ws) && Letters(word) && Explains(Fine, nb, ws)
    requires size == Padded(Max(Longest(ws), |word|))
    modifies table
    ensures Explains(f, nb, ws + Flush(word))
    ensures f.Fine? ==> Counted(nb, table[..], t0, ws + Flush(word))
  {
    hide AllInTable; hide AllFit; hide Longest;
    ghost var t1 := table[..];
    ConcatInTable(nb, ws, Flush(word));
    FitsBehind(ws, word);
    FlushInTable(nb, word);
    f := Fine;
    if word != [] {
      PaddedIs(Max(Longest(ws), |word|));
      PaddedIs(Longest(ws));
      if |word| >= size { return Overrun; }
      var code := GetCode(word);
      if ScaleRange(code, nb) >= nb { return Outside; }
      Add(nb, table, word, 1);
    }
    forall v ensures CounterIn(nb, table[..], v) == CounterIn(nb, t0, v) + Count(ws + Flush(word), v) {
      CountConcat(ws, Flush(word), v);
      assert CounterIn(nb, t1, v) == CounterIn(nb, t0, v) + Count(ws, v);
      if word != [] { assert Flush(word)[..0] == []; }
    }
  }

  lemma FlushInTable(nb: nat, w: Word)
    ensures AllInTable(nb, Flush(w)) <==> w == [] || InTable(nb, w)
  {
    if w != [] { assert Flush(w)[0] == w; }
  }

  lemma {:induction false} DonePrefix(s: string, lo: nat, p: nat, q: nat)
    requires lo <= p <= q <= |s|
    ensures Done(s, lo, p) <= Done(s, lo, q)
    decreases q
  {
    if p < q { DonePrefix(s, lo, p, q - 1); }
  }

  lemma PrefixInTable(nb: nat, a: seq<Word>, b: seq<Word>)
    requires a <= b && AllInTable(nb, b)
    ensures AllInTable(nb, a)
  {
    forall i | 0 <= i < |a| ensures InTable(nb, a[i]) { assert InTable(nb, b[i]); }
  }

  lemma ConcatInTable(nb: nat, a: seq<Word>, b: seq<Word>)
    ensures AllInTable(nb, a + b) <==> AllInTable(nb, a) && AllInTable(nb, b)
  {
    if AllInTable(nb, a + b) {
      forall i | 0 <= i < |a| ensures InTable(nb, a[i]) { assert InTable(nb, (a + b)[i]); }
      forall i | 0 <= i < |b| ensures InTable(nb, b[i]) { assert InTable(nb, (a + b)[|a| + i]); }
    }
  }

  /** What the byte at p does to the words. */
  lemma OneMore(s: string, lo: nat, p: nat)
    requires lo <= p < |s|
    ensures !IsLetter(s[p]) ==>
      Done(s, lo, p + 1) == Done(s, lo, p) + Flush(Carry(s, lo, p)) && Carry(s, lo, p + 1) == []
    ensures IsLetter(s[p]) ==>
      Done(s, lo, p + 1) == Done(s, lo, p) && Carry(s, lo, p + 1) == Carry(s, lo, p) + [Lower(s[p])]
  {
  }

  /** buff_proceed on the buffer from p to q of a slice that starts at lo: a word may begin in
      an earlier buffer and go on in a later one.  It goes well exactly when all the words it
      completes fit the word buffer and have a bucket in the table. */
  method BuffProceed(nb: nat, table: array<Bucket>, s: string, p: nat, q: nat, word: Word, size: nat, last: bool,
                     ghost lo: nat, ghost t0: seq<Bucket>)
    returns (f: Fault, word': Word, size': nat)
    requires lo <= p <= q <= |s| && Underway(nb, table[..], t0, s, lo, p, word, size)
    modifies table
    ensures Explains(f, nb, if last then Words(s, lo, q) else Done(s, lo, q))
    ensures f.Fine? && !last ==> Underway(nb, table[..], t0, s, lo, q, word', size')
    ensures f.Fine? && last ==> Counted(nb, table[..], t0, Words(s, lo, q))
  {
    hide Counted; hide Explains; hide Longest; hide Padded; hide Done; hide Carry; hide IsLetter;
    f, word', size' := Fine, word, size;
    for i := p to q
      invariant f == Fine && Underway(nb, table[..], t0, s, lo, i, word', size')
    {
      OneMore(s, lo, i);
      if !IsLetter(s[i]) {
        CarryLetters(s, lo, i);
        FitsBehind(Done(s, lo, i), word');
        f := AddSep(nb, table, word', size', t0, Done(s, lo, i));
        if f != Fine {
          FaultLater(f, nb, s, lo, i + 1, q);
          return;
        }
        word' := [];
      } else {
        word', size' := AddLetter(word', size', Lower(s[i]), Longest(Done(s, lo, i)));
      }
    }
    if last {
      CarryLetters(s, lo, q);
      f := AddSep(nb, table, word', size', t0, Done(s, lo, q));
      word' := [];
    }
  }

  /** What is wrong with the words completed stays wrong. */
  lemma FaultLater(f: Fault, nb: nat, s: string, lo: nat, p: nat, q: nat)
    requires lo <= p <= q <= |s| && f != Fine && Explains(f, nb, Done(s, lo, p))
    ensures Explains(f, nb, Done(s, lo, q)) && Explains(f, nb, Words(s, lo, q))
  {
    hide AllInTable; hide AllFit; hide Done;
    DonePrefix(s, lo, p, q);
    FaultStays(f, nb, Done(s, lo, p), Done(s, lo, q));
    FaultStays(f, nb, Done(s, lo, p), Words(s, lo, q));
  }

  lemma FaultStays(f: Fault, nb: nat, a: seq<Word>, b: seq<Word>)
    requires a <= b && f != Fine && Explains(f, nb, a)
    ensures Explains(f, nb, b)
  {
    hide AllInTable; hide AllFit;
    if AllInTable(nb, b) { PrefixInTable(nb, a, b); }
    if AllFit(b) { PrefixFits(a, b); }
  }

  function Empty(nb: nat): seq<Bucket> { seq(nb, _ => []) }

  lemma EmptyCounts(nb: nat)
    ensures TableInv(nb, Empty(nb)) && forall v :: CounterIn(nb, Empty(nb), v) == 0
    ensures Counted(nb, Empty(nb), Empty(nb), [])
  {
  }

  /** A slice can be worked out exactly when both its ends are found inside the file. */
  predicate SliceOk(s: string, tid: nat, n: nat)
    requires tid < n
  {
    (tid == 0 || SliceStart(s, n, tid) < |s|) && (tid == n - 1 || SliceStart(s, n, tid + 1) < |s|)
  }

  /** The words completed before p have been counted, the one in progress is in hand, and the word
      buffer has room for the longest of them. */
  ghost predicate Underway(nb: nat, t: seq<Bucket>, t0: seq<Bucket>, s: string, lo: nat, p: nat, word: Word, size: nat)
    requires lo <= p <= |s|
  {
    && word == Carry(s, lo, p) && size == Padded(Max(Longest(Done(s, lo, p)), |word|))
    && Counted(nb, t, t0, Done(s, lo, p)) && Explains(Fine, nb, Done(s, lo, p))
  }

  lemma SliceBegins(nb: nat, t: seq<Bucket>, t0: seq<Bucket>, s: string, lo: nat)
    requires lo <= |s| && Counted(nb, t, t0, [])
    ensures Words(s, lo, lo) == [] && Explains(Fine, nb, []) && Underway(nb, t, t0, s, lo, lo, [], 0)
  {
  }

  /** The loop of mr_map: the slice from lo to hi, read in buffers of at most `chunk` bytes. */
  method CountSlice(nb: nat, table: array<Bucket>, s: string, lo: nat, hi: nat, chunk: nat, ghost t0: seq<Bucket>)
    returns (f: Fault)
    requires lo <= hi <= |s| && chunk > 0 && Counted(nb, table[..], t0, [])
    modifies table
    ensures Explains(f, nb, Words(s, lo, hi))
    ensures f.Fine? ==> Counted(nb, table[..], t0, Words(s, lo, hi))
  {
    hide Counted; hide Explains; hide Words; hide Done; hide Carry; hide Underway;
    SliceBegins(nb, table[..], t0, s, lo);
    var current, slice, word, wsize := lo, hi - lo, [], 0;
    f := Fine;
    if slice == 0 { return; }
    while slice > 0
      invariant f == Fine && lo <= current <= hi && slice == hi - current
      invariant slice > 0 ==> Underway(nb, table[..], t0, s, lo, current, word, wsize)
      invariant slice == 0 ==> Counted(nb, table[..], t0, Words(s, lo, hi)) && Explains(Fine, nb, Words(s, lo, hi))
    {
      var size := if chunk < slice then chunk else slice;
      f, word, wsize := BuffProceed(nb, table, s, current, current + size, word, wsize, size == slice, lo, t0);
      if f != Fine {
        if size < slice { FaultLater(f, nb, s, lo, current + size, hi); }
        return;
      }
      current, slice := current + size, slice - size;
    }
  }

  /** The words of thread t's slice. */
  function SliceWords(s: string, n: nat, t: nat): seq<Word>
    requires t < n
  {
    SlicesInOrder(s, n, t); Words(s, SliceStart(s, n, t), SliceStart(s, n, t + 1))
  }

  /** mr_map up to the barrier: the table of thread tid counts the words of its slice, however
      large the buffers are in which the slice is read. */
  method MapSlice(nb: nat, s: string, tid: nat, n: nat, chunk: nat)
    returns (ok: bool, f: Fault, table: seq<Bucket>)
    requires tid < n && chunk > 0
    ensures ok <==> SliceOk(s, tid, n)
    ensures ok ==> Explains(f, nb, SliceWords(s, n, tid))
    ensures ok && f.Fine? ==> Counted(nb, table, Empty(nb), SliceWords(s, n, tid))
  {
    hide Counted; hide SliceStart; hide Words; hide Explains; hide SliceOk;
    var cache := new Bucket[nb](_ => []);
    table := cache[..];
    assert table == Empty(nb);
    EmptyCounts(nb);
    SlicesInOrder(s, n, tid);
    var current, slice;
    f := Fine;
    ok, current, slice := BuffInit(s, tid, n);
    assert ok <==> SliceOk(s, tid, n) by { SliceOkIs(s, tid, n); }
    if ok {
      f := CountSlice(nb, cache, s, current, current + slice, chunk, Empty(nb));
      table := cache[..];
    }
  }

  lemma SliceOkIs(s: string, tid: nat, n: nat)
    requires tid < n
    ensures SliceOk(s, tid, n) <==>
      (tid == 0 || SliceStart(s, n, tid) < |s|) && (tid == n - 1 || SliceStart(s, n, tid + 1) < |s|)
  {
  }

  // ------------------------------------------------------------------ reduce

  lemma {:induction false} CounterSnoc(b: Bucket, i: nat, v: Word)
    requires Sorted(b) && i < |b|
    ensures Counter(b[..i + 1], v) == Counter(b[..i], v) + if v == b[i].word then b[i].count else 0
  {
    if i > 0 {
      CompareIsOrder(b[0].word, b[i].word);
      CounterSnoc(b[1..], i - 1, v);
      assert b[..i + 1][1..] == b[1..][..i] && b[..i][1..] == b[1..][..i - 1];
    }
  }

  /** The counter of v in all the tables together. */
  ghost function Total(nb: nat, tables: seq<seq<Bucket>>, v: Word): nat {
    if tables == [] then 0 else Total(nb, tables[..|tables| - 1], v) + CounterIn(nb, tables[|tables| - 1], v)
  }

  /** __merge_results: one bucket of one table into the main table. */
  method MergeBucket(nb: nat, main: array<Bucket>, t: seq<Bucket>, j: nat)
    requires nb > 0 && TableInv(nb, main[..]) && TableInv(nb, t) && j < nb
    modifies main
    ensures TableInv(nb, main[..])
    ensures forall v :: CounterIn(nb, main[..], v) == old(CounterIn(nb, main[..], v)) + if BucketOf(nb, v) == j
      then CounterIn(nb, t, v) else 0
  {
    var b := t[j];
    ghost var m0 := main[..];
    assert Sorted(b);
    for i := 0 to |b|
      invariant TableInv(nb, main[..])
      invariant forall v :: CounterIn(nb, main[..], v) == CounterIn(nb, m0, v) + Counter(b[..i], v)
    {
      forall v ensures Counter(b[..i + 1], v) == Counter(b[..i], v) + if v == b[i].word then b[i].count else 0 {
        CounterSnoc(b, i, v);
      }
      Add(nb, main, b[i].word, b[i].count);
    }
    assert b[..|b|] == b;
    forall v ensures CounterIn(nb, main[..], v) == CounterIn(nb, m0, v) + if BucketOf(nb, v) == j
        then CounterIn(nb, t, v) else 0 {
      if BucketOf(nb, v) != j { CounterAbsent(b, v); }
    }
  }

  /** The first bucket of thread tid; threads beyond the number of buckets have none. */
  function RangeStart(buckets: nat, n: nat, tid: nat): nat
    requires n > 0 && buckets > 0
  {
    var workers := if n > buckets then buckets else n;
    if tid >= workers then buckets else buckets / workers * tid
  }

  /** Ranges follow one another from bucket 0 to the last, so each bucket is in exactly one. */
  lemma RangesInOrder(buckets: nat, n: nat, tid: nat)
    requires 0 < n && 0 < buckets && tid < n
    ensures RangeStart(buckets, n, 0) == 0 && RangeStart(buckets, n, n) == buckets
    ensures RangeStart(buckets, n, tid) <= RangeStart(buckets, n, tid + 1) <= buckets
  {
    var workers := if n > buckets then buckets else n;
    if tid < workers {
      SliceBound(buckets, workers, tid);
      SliceBound(buckets, workers, tid + 1);
      Multiply(buckets / workers, tid, tid + 1);
    }
  }

  predicate InRange(nb: nat, n: nat, tid: nat, v: Word)
    requires n > 0 && nb > 0
  {
    RangeStart(nb, n, tid) <= BucketOf(nb, v) < RangeStart(nb, n, tid + 1)
  }

  /** wc_merge_results: the buckets of thread tid, from all tables, into the main table. */
  method MergeResults(nb: nat, main: array<Bucket>, tables: seq<seq<Bucket>>, tid: nat, n: nat)
    requires nb > 0 && TableInv(nb, main[..]) && tid < n && forall i :: 0 <= i < |tables| ==> TableInv(nb, tables[i])
    modifies main
    ensures TableInv(nb, main[..])
    ensures forall v ::
      CounterIn(nb, main[..], v) == old(CounterIn(nb, main[..], v)) + if InRange(nb, n, tid, v)
          then Total(nb, tables, v) else 0
  {
    RangesInOrder(nb, n, tid);
    var workers := n;
    if n > nb {
      if tid > nb - 1 { return; }
      workers := nb;
    }
    var wk := nb / workers;
    var lo := wk * tid;
    var hi := lo + wk;
    if tid == workers - 1 { hi := hi + nb % workers; }
    assert hi == RangeStart(nb, n, tid + 1) by { LastSlice(nb, workers, tid); }
    ghost var m0 := main[..];
    for i := 0 to |tables|
      invariant TableInv(nb, main[..])
      invariant forall v ::
        CounterIn(nb, main[..], v) == CounterIn(nb, m0, v) + if lo <= BucketOf(nb, v) < hi
            then Total(nb, tables[..i], v) else 0
    {
      ghost var m1 := main[..];
      for j := lo to hi
        invariant TableInv(nb, main[..])
        invariant forall v ::
          CounterIn(nb, main[..], v) == CounterIn(nb, m1, v) + if lo <= BucketOf(nb, v) < j
              then CounterIn(nb, tables[i], v) else 0
      {
        MergeBucket(nb, main, tables[i], j);
      }
      assert tables[..i + 1][..i] == tables[..i];
    }
    assert tables[..|tables|] == tables;
  }

  /** The tables together have counted the words ws. */
  ghost predicate Totals(nb: nat, tables: seq<seq<Bucket>>, ws: seq<Word>) {
    && (forall i :: 0 <= i < |tables| ==> TableInv(nb, tables[i]))
    && (forall v :: Total(nb, tables, v) == Count(ws, v))
  }

  lemma NoWords(nb: nat, s: string, n: nat)
    requires n > 0
    ensures SliceStart(s, n, 0) == 0 && SliceStart(s, n, n) == |s|
    ensures Words(s, 0, 0) == [] && AllInTable(nb, []) && Totals(nb, [], [])
  {
  }

  /** No word of any slice overruns the buffer of the thread that reads it. */
  predicate SlicesFit(s: string, n: nat) { forall t :: 0 <= t < n ==> AllFit(SliceWords(s, n, t)) }

  /** What the map phase says about the whole file. */
  predicate Mapped(ok: bool, f: Fault, nb: nat, s: string, n: nat)
    requires n > 0
  {
    && (ok && f.Fine? <==>
          (forall t :: 0 <= t < n ==> SliceOk(s, t, n)) && AllInTable(nb, Words(s, 0, |s|)) && SlicesFit(s, n))
    && (!ok ==> exists t :: 0 <= t < n && !SliceOk(s, t, n))
    && (ok && f.Outside? ==> !AllInTable(nb, Words(s, 0, |s|)))
    && (ok && f.Overrun? ==> !SlicesFit(s, n))
  }

  /** The map phase of all threads. */
  method MapAll(nb: nat, s: string, n: nat, chunk: nat) returns (ok: bool, f: Fault, tables: seq<seq<Bucket>>)
    requires n > 0 && chunk > 0
    ensures Mapped(ok, f, nb, s, n)
    ensures ok && f.Fine? ==> Totals(nb, tables, Words(s, 0, |s|))
  {
    hide SliceOk; hide Words; hide SliceStart; hide AllInTable; hide AllFit; hide Totals; hide Counted; hide SliceWords;
    tables, ok, f := [], true, Fine;
    NoWords(nb, s, n);
    for t := 0 to n
      invariant ok && f == Fine && |tables| == t
      invariant forall i :: 0 <= i < t ==> SliceOk(s, i, n) && AllFit(SliceWords(s, n, i))
      invariant Totals(nb, tables, Words(s, 0, SliceStart(s, n, t)))
      invariant AllInTable(nb, Words(s, 0, SliceStart(s, n, t)))
    {
      var table;
      ok, f, table := MapSlice(nb, s, t, n, chunk);
      if !ok { return; }
      SlicesGrow(nb, s, n, t);
      if f != Fine { return; }
      TotalsGrow(nb, s, n, t, tables, table);
      tables := tables + [table];
    }
  }

  /** How a count ends: with a table, because a slice could not be worked out, because a word has
      no bucket in the table, or because a word does not fit the word buffer. */
  datatype Outcome = Counts(table: seq<Bucket>) | SliceFailed | OutsideTable | BufferOverrun

  /** The whole program on a table of nb buckets: with any number of threads and any buffer size
      it ends with the number of times each word occurs in the file, exactly when every slice can
      be worked out, every word has a bucket and every word fits its thread's word buffer. */
  method MapReduce(nb: nat, s: string, n: nat, chunk: nat) returns (r: Outcome)
    requires nb > 0 && n > 0 && chunk > 0
    ensures r.Counts? <==>
      (forall t :: 0 <= t < n ==> SliceOk(s, t, n)) && AllInTable(nb, Words(s, 0, |s|)) && SlicesFit(s, n)
    ensures r.OutsideTable? ==> !AllInTable(nb, Words(s, 0, |s|))
    ensures r.BufferOverrun? ==> !SlicesFit(s, n)
    ensures r.SliceFailed? ==> exists t :: 0 <= t < n && !SliceOk(s, t, n)
    ensures r.Counts? ==> TableInv(nb, r.table) && forall v :: CounterIn(nb, r.table, v) == Count(Words(s, 0, |s|), v)
  {
    hide Words; hide AllInTable; hide Count; hide SlicesFit; hide SliceOk;
    var main := new Bucket[nb](_ => []);
    assert main[..] == Empty(nb);
    EmptyCounts(nb);
    var ok, f, tables := MapAll(nb, s, n, chunk);
    if !ok { return SliceFailed; }
    if f == Outside { return OutsideTable; }
    if f == Overrun { return BufferOverrun; }
    RangesInOrder(nb, n, 0);
    for t := 0 to n
      invariant TableInv(nb, main[..])
      invariant forall v ::
        CounterIn(nb, main[..], v) == if BucketOf(nb, v) < RangeStart(nb, n, t) then Total(nb, tables, v) else 0
    {
      RangesInOrder(nb, n, t);
      MergeResults(nb, main, tables, t, n);
    }
    forall v ensures CounterIn(nb, main[..], v) == Total(nb, tables, v) {
      if !InTable(nb, v) { NothingOutside(nb, tables, v); }
    }
    r := Counts(main[..]);
  }

  lemma {:induction false} NothingOutside(nb: nat, tables: seq<seq<Bucket>>, v: Word)
    requires !InTable(nb, v) && forall i :: 0 <= i < |tables| ==> TableInv(nb, tables[i])
    ensures Total(nb, tables, v) == 0
  {
    if tables != [] { NothingOutside(nb, tables[..|tables| - 1], v); }
  }

  /** A word that begins with six z's stands at i. */
  predicate SixZAt(s: string, i: nat) {
    && i + 6 <= |s| && (i == 0 || !InAlphabet(s[i - 1]))
    && forall k :: i <= k < i + 6 ==> s[k] == 'z' || s[k] == 'Z'
  }

  /** Some word of the file begins with six z's. */
  predicate HasSixZ(s: string) { exists i: nat :: i < |s| && SixZAt(s, i) }

  lemma SixZAtExactly(s: string, i: nat)
    requires i < |s|
    ensures SixZAt(s, i) <==> StartsAt(s, i) && SixZ(WordAt(s, i))
  {
    hide InAlphabet;
    if i > 0 { LettersAre(s[i - 1]); }
    var e := NextSep(s, i);
    if SixZAt(s, i) {
      assert i + 6 <= e;
      forall k | 0 <= k < 6 ensures WordAt(s, i)[k] == 25 { assert s[i + k] == 'z' || s[i + k] == 'Z'; }
    }
    if StartsAt(s, i) && SixZ(WordAt(s, i)) {
      forall k | i <= k < i + 6 ensures s[k] == 'z' || s[k] == 'Z' { assert WordAt(s, i)[k - i] == 25; }
    }
  }

  /** There is one thread, or a separator in the last thread's even share of the file. */
  predicate LastShareSeparated(s: string, n: nat)
    requires n > 0
  {
    n == 1 || (SliceBound(|s|, n, n - 1); NextSep(s, |s| / n * (n - 1)) < |s|)
  }

  /** The program as it is, with the buckets it makes for the file: for every file, number of
      threads and buffer size it counts the occurrences of every word if and only if the last
      share has a separator, no word of the file begins with six z's, and no word has a positive
      multiple of 32 letters and only words no longer than itself before it in its slice. */
  method CountWords(s: string, n: nat, chunk: nat) returns (r: Outcome)
    requires n > 0 && chunk > 0
    ensures r.Counts? <==> LastShareSeparated(s, n) && !HasSixZ(s) && SlicesFit(s, n)
    ensures r.SliceFailed? ==> !LastShareSeparated(s, n)
    ensures r.OutsideTable? ==> HasSixZ(s)
    ensures r.BufferOverrun? ==> !SlicesFit(s, n)
    ensures r.Counts? ==> forall v :: CounterIn(Buckets(|s|), r.table, v) == |Occurrences(s, v)|
    ensures r.Counts? ==> TableInv(Buckets(|s|), r.table) && Lists(s, r.table)
  {
    hide Words; hide Occurrences; hide AllInTable; hide HasSixZ; hide SliceOk; hide SlicesFit;
    hide CounterIn; hide Count; hide TableInv; hide LastShareSeparated; hide Lists;
    forall v ensures Count(Words(s, 0, |s|), v) == |Occurrences(s, v)| { WordsAreOccurrences(s, v); }
    SlicesOkExactly(s, n);
    InTableFile(s, Buckets(|s|));
    r := MapReduce(Buckets(|s|), s, n, chunk);
    if r.Counts? { CountersList(s, Buckets(|s|), r.table); }
  }

  /** The entries of the table are the words of the file, each with the number of times it occurs. */
  ghost predicate Lists(s: string, t: seq<Bucket>) {
    && (forall j, i :: 0 <= j < |t| && 0 <= i < |t[j]| ==> t[j][i].count == |Occurrences(s, t[j][i].word)|)
    && (forall w :: |Occurrences(s, w)| > 0 ==> exists j, i :: 0 <= j < |t| && 0 <= i < |t[j]| && t[j][i].word == w)
  }

  lemma CountersList(s: string, nb: nat, t: seq<Bucket>)
    requires TableInv(nb, t) && forall v :: CounterIn(nb, t, v) == |Occurrences(s, v)|
    ensures Lists(s, t)
  {
    hide Occurrences; hide BucketOf; hide Compare;
    forall j, i | 0 <= j < |t| && 0 <= i < |t[j]| ensures t[j][i].count == |Occurrences(s, t[j][i].word)| {
      CounterOfEntry(t[j], i);
      assert CounterIn(nb, t, t[j][i].word) == t[j][i].count;
    }
    forall w | |Occurrences(s, w)| > 0
      ensures exists j, i :: 0 <= j < |t| && 0 <= i < |t[j]| && t[j][i].word == w
    {
      assert CounterIn(nb, t, w) > 0;
      var i := EntryOfCounter(t[BucketOf(nb, w)], w);
      assert t[BucketOf(nb, w)][i].word == w;
    }
  }

  lemma {:induction false} CounterOfEntry(b: Bucket, i: nat)
    requires Sorted(b) && i < |b|
    ensures Counter(b, b[i].word) == b[i].count
    decreases |b|
  {
    if i > 0 {
      assert Compare(b[0].word, b[i].word) < 0;
      CompareSelf(b[i].word);
      CounterOfEntry(b[1..], i - 1);
    }
  }

  lemma {:induction false} CompareSelf(w: Word)
    ensures Compare(w, w) == 0
  {
    if w != [] { CompareSelf(w[1..]); }
  }

  lemma {:induction false} EntryOfCounter(b: Bucket, w: Word) returns (i: nat)
    requires Counter(b, w) > 0
    ensures i < |b| && b[i].word == w
    decreases |b|
  {
    i := 0;
    if b[0].word != w {
      i := EntryOfCounter(b[1..], w);
      i := i + 1;
    }
  }

  /** A file of nothing but 32 letters, or any other multiple of 32, is one that overruns. */
  lemma FullBufferOverruns(s: string)
    requires s != [] && |s| % WORD_SIZE == 0 && forall i :: 0 <= i < |s| ==> IsLetter(s[i])
    ensures !SlicesFit(s, 1)
  {
    var ws := SliceWords(s, 1, 0);
    AllLetters(s, |s|);
    assert ws == [Carry(s, 0, |s|)];
    assert Overruns(ws[..0], ws[0]);
  }

  lemma {:induction false} AllLetters(s: string, p: nat)
    requires p <= |s| && forall i :: 0 <= i < |s| ==> IsLetter(s[i])
    ensures Done(s, 0, p) == [] && |Carry(s, 0, p)| == p
  {
    if p > 0 { AllLetters(s, p - 1); }
  }

  /** Every word of the file is one the condition of `CountWords` never minds. */
  predicate PlainWords(s: string) {
    forall i: nat :: i < |s| && StartsAt(s, i) ==> !SixZ(WordAt(s, i)) && |WordAt(s, i)| % WORD_SIZE != 0
  }

  /** A file that ends in a separator and has plain words only is counted right by any number of
      threads. */
  lemma PlainFilesAreCounted(s: string, n: nat)
    requires n > 0 && s != [] && !IsLetter(s[|s| - 1]) && PlainWords(s)
    ensures LastShareSeparated(s, n) && !HasSixZ(s) && SlicesFit(s, n)
  {
    SeparatedAtEnd(s, n);
    forall i: nat | i < |s| ensures !SixZAt(s, i) { SixZAtExactly(s, i); }
    forall t | 0 <= t < n ensures AllFit(SliceWords(s, n, t)) { PlainSliceFits(s, n, t); }
  }

  lemma PlainSliceFits(s: string, n: nat, t: nat)
    requires t < n && PlainWords(s)
    ensures AllFit(SliceWords(s, n, t))
  {
    hide Words; hide WordAt; hide StartsAt; hide SliceWords; hide SliceStart; hide Longest; hide PlainWords;
    var ws, before, all := SliceWords(s, n, t), Words(s, 0, SliceStart(s, n, t)), Words(s, 0, |s|);
    SlicesJoin(s, n, t);
    forall i | 0 <= i < |ws| ensures !Overruns(ws[..i], ws[i]) {
      assert all[|before| + i] == ws[i];
      PlainWord(s, ws[i]);
    }
  }

  lemma PlainWord(s: string, w: Word)
    requires PlainWords(s) && w in Words(s, 0, |s|)
    ensures |w| % WORD_SIZE != 0
  {
    hide Words; hide WordAt; hide StartsAt;
    WordsOccur(s, w);
  }

  lemma {:induction false} CountPositive(ws: seq<Word>, w: Word)
    ensures Count(ws, w) > 0 <==> w in ws
  {
    if ws != [] {
      CountPositive(ws[..|ws| - 1], w);
      assert ws == ws[..|ws| - 1] + [ws[|ws| - 1]];
    }
  }

  /** The words of a file are those that occur in it. */
  lemma WordsOccur(s: string, w: Word)
    ensures w in Words(s, 0, |s|) <==> exists i: nat :: i < |s| && StartsAt(s, i) && WordAt(s, i) == w
  {
    CountPositive(Words(s, 0, |s|), w);
    WordsAreOccurrences(s, w);
    OccurrencesAre(s, w);
    if i: nat :| i < |s| && StartsAt(s, i) && WordAt(s, i) == w { assert i in Starts(s, w); }
    if w in Words(s, 0, |s|) {
      assert Starts(s, w) != {};
      var i :| i in Starts(s, w);
    }
  }

  lemma WordAtLetters(s: string, i: nat)
    requires i < |s|
    ensures Letters(WordAt(s, i))
  {
  }

  lemma InTableFile(s: string, nb: nat)
    requires nb > 0
    ensures AllInTable(nb, Words(s, 0, |s|)) <==> !HasSixZ(s)
  {
    var ws := Words(s, 0, |s|);
    if HasSixZ(s) {
      var i: nat :| i < |s| && SixZAt(s, i);
      SixZAtExactly(s, i);
      WordsOccur(s, WordAt(s, i));
      WordAtLetters(s, i);
      InTableExactly(WordAt(s, i), nb);
    } else {
      forall k | 0 <= k < |ws| ensures InTable(nb, ws[k]) {
        WordsOccur(s, ws[k]);
        var i: nat :| i < |s| && StartsAt(s, i) && WordAt(s, i) == ws[k];
        SixZAtExactly(s, i);
        WordAtLetters(s, i);
        InTableExactly(ws[k], nb);
      }
    }
  }

  /** What one more slice adds to the words. */
  lemma SlicesJoin(s: string, n: nat, t: nat)
    requires t < n
    ensures Words(s, 0, SliceStart(s, n, t + 1)) == Words(s, 0, SliceStart(s, n, t)) + SliceWords(s, n, t)
    ensures Words(s, 0, SliceStart(s, n, t + 1)) <= Words(s, 0, |s|)
  {
    var a, b := SliceStart(s, n, t), SliceStart(s, n, t + 1);
    SlicesInOrder(s, n, t);
    if t > 0 { SlicesInOrder(s, n, t - 1); }
    assert a == 0 || a == b || !IsLetter(s[a]);
    hide SliceStart; hide NextSep;
    if a == 0 {
      assert Words(s, 0, 0) + Words(s, 0, b) == Words(s, 0, b);
    } else {
      WordsSplit(s, 0, a, b);
    }
    WordsSplit(s, 0, b, |s|);
  }

  /** What it adds to the words that have to be in the table. */
  lemma SlicesGrow(nb: nat, s: string, n: nat, t: nat)
    requires t < n
    ensures var a, b := Words(s, 0, SliceStart(s, n, t)), Words(s, 0, SliceStart(s, n, t + 1));
      && (AllInTable(nb, b) <==> AllInTable(nb, a) && AllInTable(nb, SliceWords(s, n, t)))
      && (AllInTable(nb, Words(s, 0, |s|)) ==> AllInTable(nb, b))
  {
    hide SliceStart; hide Words; hide AllInTable; hide SliceWords;
    SlicesJoin(s, n, t);
    ConcatInTable(nb, Words(s, 0, SliceStart(s, n, t)), SliceWords(s, n, t));
    if AllInTable(nb, Words(s, 0, |s|)) { PrefixInTable(nb, Words(s, 0, SliceStart(s, n, t + 1)), Words(s, 0, |s|)); }
  }

  lemma TotalsGrow(nb: nat, s: string, n: nat, t: nat, tables: seq<seq<Bucket>>, table: seq<Bucket>)
    requires t < n && Totals(nb, tables, Words(s, 0, SliceStart(s, n, t)))
    requires Counted(nb, table, Empty(nb), SliceWords(s, n, t))
    ensures Totals(nb, tables + [table], Words(s, 0, SliceStart(s, n, t + 1)))
  {
    hide SliceStart; hide Words; hide SliceWords; hide Count; hide Total; hide TableInv;
    forall v ensures Total(nb, tables + [table], v) == Count(Words(s, 0, SliceStart(s, n, t + 1)), v) {
      SlicesAdd(nb, s, n, t, tables, table, v);
    }
  }

  lemma SlicesAdd(nb: nat, s: string, n: nat, t: nat, tables: seq<seq<Bucket>>, table: seq<Bucket>, v: Word)
    requires t < n && Total(nb, tables, v) == Count(Words(s, 0, SliceStart(s, n, t)), v)
    requires Counted(nb, table, Empty(nb), SliceWords(s, n, t))
    ensures Total(nb, tables + [table], v) == Count(Words(s, 0, SliceStart(s, n, t + 1)), v)
  {
    hide Words; hide SliceStart; hide CounterIn; hide TableInv; hide SliceWords;
    EmptyCounts(nb);
    assert CounterIn(nb, table, v) == Count(SliceWords(s, n, t), v);
    hide Count;
    assert (tables + [table])[..|tables|] == tables;
    SlicesJoin(s, n, t);
    CountConcat(Words(s, 0, SliceStart(s, n, t)), SliceWords(s, n, t), v);
  }

  /** No slice fails if and only if the last share has a separator, for then every slice's ends
      are found before that one. */
  lemma SlicesOkExactly(s: string, n: nat)
    requires n > 0
    ensures (forall t :: 0 <= t < n ==> SliceOk(s, t, n)) <==> LastShareSeparated(s, n)
  {
    hide NextSep;
    if LastShareSeparated(s, n) {
      forall t | 0 <= t < n ensures SliceOk(s, t, n) {
        if 0 < t { StartsBefore(s, n, t); }
        if t + 1 < n { StartsBefore(s, n, t + 1); }
      }
    } else {
      assert !SliceOk(s, n - 1, n);
    }
  }

  lemma StartsBefore(s: string, n: nat, t: nat)
    requires 0 < t < n && LastShareSeparated(s, n)
    ensures SliceStart(s, n, t) < |s|
  {
    SliceBound(|s|, n, t);
    SliceBound(|s|, n, n - 1);
    Multiply(|s| / n, t, n - 1);
    NextSepMonotone(s, |s| / n * t, |s| / n * (n - 1));
  }

  /** In particular no slice fails on a file that ends in a separator. */
  lemma SeparatedAtEnd(s: string, n: nat)
    requires n > 0 && s != [] && !IsLetter(s[|s| - 1])
    ensures LastShareSeparated(s, n)
  {
    if n > 1 {
      SliceBound(|s|, n, n - 1);
      LastSlice(|s|, n, n - 1);
      NextSepMonotone(s, |s| / n * (n - 1), |s| - 1);
    }
  }

  /** Going through the buckets in order gives the words in alphabetic order. */
  lemma BucketsInOrder(nb: nat, t: seq<Bucket>, a: nat, i: nat, b: nat, j: nat)
    requires TableInv(nb, t) && a <= b < |t| && i < |t[a]| && j < |t[b]| && (a == b ==> i < j)
    ensures Compare(t[a][i].word, t[b][j].word) < 0
  {
    var x, y := t[a][i].word, t[b][j].word;
    if a < b {
      CompareIsOrder(x, y);
      CompareIsOrder(y, x);
      assert BucketOf(nb, x) == a && BucketOf(nb, y) == b;
      if Compare(y, x) <= 0 {
        CodeMonotone(y, x, CODE_LETTERS);
        ScaleMonotone(Code(y, CODE_LETTERS), Code(x, CODE_LETTERS), nb);
      }
    }
  }
}
