/** Indices that wrap around, shared by the ring buffers and the hash table. */
module RingIndex {
  /** The remainder of `p` by `n`, by repeated subtraction. */
  function SlotOf(p: nat, n: nat): (i: nat)
    requires n > 0
    ensures i < n
  {
    if p < n then p else SlotOf(p - n, n)
  }

  /** It is the remainder. */
  lemma {:induction false} SlotOfIsRemainder(p: nat, n: nat)
    requires n > 0
    ensures SlotOf(p, n) == p % n
    decreases p
  {
    if p >= n {
      SlotOfIsRemainder(p - n, n);
      RemainderOfRest(p, n);
    }
  }

  lemma RemainderOfRest(p: nat, n: nat)
    requires 0 < n <= p
    ensures (p - n) % n == p % n
  {
    var q, r := p / n, p % n;
    assert p - n == (q - 1) * n + r;
    RemainderUnique(p - n, q - 1, r, n);
  }

  lemma RemainderUnique(p: int, q: int, r: int, n: int)
    requires 0 <= r < n && p == q * n + r
    ensures p % n == r
  {
    var q', r' := p / n, p % n;
    assert (q - q') * n == r' - r by { assert p == q' * n + r'; }
    NoMultipleBetween(q - q', n);
  }

  lemma NoMultipleBetween(k: int, n: int)
    requires n > 0 && -n < k * n < n
    ensures k == 0
  {
  }

  function Inc(i: nat, n: nat): nat { if i + 1 >= n then 0 else i + 1 }

  function Dec(i: nat, n: nat): nat
    requires n > 0
  {
    if i == 0 then n - 1 else i - 1
  }

  lemma {:induction false} IncIsSuccessor(p: nat, n: nat)
    requires n > 0
    ensures Inc(SlotOf(p, n), n) == SlotOf(p + 1, n)
    ensures Dec(SlotOf(p + 1, n), n) == SlotOf(p, n)
  {
    if p >= n { IncIsSuccessor(p - n, n); }
  }

  /** Two positions less than a lap apart are in different slots. */
  lemma {:induction false} Distinct(p: nat, q: nat, n: nat)
    requires n > 0 && p < q < p + n
    ensures SlotOf(p, n) != SlotOf(q, n)
  {
    if p >= n { Distinct(p - n, q - n, n); }
  }

  lemma {:induction false} SlotOfAdd(p: nat, q: nat, k: nat, n: nat)
    requires n > 0 && SlotOf(p, n) == SlotOf(q, n)
    ensures SlotOf(p + k, n) == SlotOf(q + k, n)
    decreases k
  {
    if k > 0 {
      SlotOfAdd(p, q, k - 1, n);
      IncIsSuccessor(p + k - 1, n);
      IncIsSuccessor(q + k - 1, n);
    }
  }

  lemma SlotOfIdempotent(q: nat, n: nat)
    requires n > 0
    ensures SlotOf(SlotOf(q, n), n) == SlotOf(q, n)
  {
  }

  lemma SlotOfSmall(i: nat, n: nat)
    requires i < n
    ensures SlotOf(i, n) == i
  {
  }

  lemma SlotOfLap(i: nat, n: nat)
    requires n > 0
    ensures SlotOf(i + n, n) == SlotOf(i, n)
  {
  }
}
