/** Facts about remainders that the ring-shaped structures share: a ring of n
    slots keeps index i in slot i mod n. */
module Modular {

  /** The slot of index i in a ring of n slots, found by going round whole laps. */
  function Pos(i: int, n: nat): (p: nat)
    requires n > 0
    ensures p < n
    decreases if i < 0 then n - i else i
  {
    if i < 0 then Pos(i + n, n) else if i >= n then Pos(i - n, n) else i
  }

  /** Going round laps is the remainder. */
  lemma {:induction false} PosIsRemainder(i: int, n: nat)
    requires n > 0
    ensures Pos(i, n) == i % n
    decreases if i < 0 then n - i else i
  {
    if i < 0 {
      PosIsRemainder(i + n, n);
      RemainderShift(i, n);
    } else if i >= n {
      PosIsRemainder(i - n, n);
      RemainderShift(i - n, n);
    } else {
      QuotientUnique(i, 0, i, n);
    }
  }

  lemma RemainderShift(i: int, n: nat)
    requires n > 0
    ensures (i + n) % n == i % n
  {
    QuotientUnique(i + n, i / n + 1, i % n, n);
  }

  /** Moving a whole lap keeps the slot. */
  lemma SameSlotNextLap(i: int, n: nat)
    requires n > 0
    ensures Pos(i + n, n) == Pos(i, n) == Pos(i - n, n)
  {
    PosIsRemainder(i + n, n);
    PosIsRemainder(i, n);
    PosIsRemainder(i - n, n);
    RemainderShift(i, n);
    RemainderShift(i - n, n);
  }

  /** Two indices less than one lap apart never share a slot. */
  lemma {:induction false} DistinctWithinLap(i: int, j: int, n: nat)
    requires 0 < j - i < n
    ensures Pos(i, n) != Pos(j, n)
    decreases if i < 0 then n - i else i
  {
    if i < 0 {
      SameSlotNextLap(i, n);
      SameSlotNextLap(j, n);
      DistinctWithinLap(i + n, j + n, n);
    } else if i >= n {
      DistinctWithinLap(i - n, j - n, n);
    }
  }

  /** Indices that share a slot and are ordered are at least one lap apart. */
  lemma LapApart(i: int, j: int, n: nat)
    requires n > 0 && Pos(i, n) == Pos(j, n) && i < j
    ensures i + n <= j
  {
    if j - i < n { DistinctWithinLap(i, j, n); }
  }

  /** Every index has exactly one representative in the lap that ends before f. */
  lemma {:induction false} Representative(i: int, f: int, n: nat) returns (k: int)
    requires n > 0
    ensures f - n <= k < f && Pos(k, n) == Pos(i, n)
    decreases if i < f then f - i else i - f + n + 1
  {
    SameSlotNextLap(i, n);
    if i < f - n {
      k := Representative(i + n, f, n);
    } else if i >= f {
      k := Representative(i - n, f, n);
    } else {
      k := i;
    }
  }

  /** A quotient and an in-range remainder determine division. */
  lemma QuotientUnique(x: int, q: int, r: int, n: nat)
    requires n > 0 && x == q * n + r && 0 <= r < n
    ensures x / n == q && x % n == r
  {
    var q', r' := x / n, x % n;
    assert (q' - q) * n == r - r';
    if r > r' {
      SmallMultiple(q' - q, n, r - r');
    } else if r < r' {
      assert (q - q') * n == r' - r;
      SmallMultiple(q - q', n, r' - r);
    } else {
      NoZeroDivisor(q' - q, n);
    }
  }

  /** A multiple of n strictly between 0 and n does not exist. */
  lemma SmallMultiple(k: int, n: nat, d: int)
    requires 0 < d < n
    ensures k * n != d
  {
    if k >= 1 { Grows(k, 1, n); } else { Grows(0, k, n); }
  }

  lemma Grows(a: int, b: int, n: nat)
    requires a >= b
    ensures a * n >= b * n
  {
  }

  lemma NoZeroDivisor(k: int, n: nat)
    requires n > 0 && k * n == 0
    ensures k == 0
  {
  }
}
