/** Bitwise operations on natural numbers, and what they do to powers of two. */
module Bits {
  import opened RingIndex

  function And(a: nat, b: nat): nat
    decreases a
  {
    if a == 0 || b == 0 then 0
    else (if a % 2 == 1 && b % 2 == 1 then 1 else 0) + 2 * And(a / 2, b / 2)
  }

  function Or(a: nat, b: nat): nat
    decreases a + b
  {
    if a == 0 && b == 0 then 0
    else (if a % 2 == 1 || b % 2 == 1 then 1 else 0) + 2 * Or(a / 2, b / 2)
  }

  /** Shifting right by `k` bits. */
  function Shr(a: nat, k: nat): nat
    decreases k
  {
    if k == 0 then a else Shr(a / 2, k - 1)
  }

  function Pow2(k: nat): (n: nat)
    ensures n > 0
  {
    if k == 0 then 1 else 2 * Pow2(k - 1)
  }

  ghost predicate IsPow2(n: nat) { exists k :: n == Pow2(k) }

  lemma DoublingKeepsPow2(n: nat)
    requires IsPow2(n)
    ensures IsPow2(2 * n)
  {
    var k: nat :| n == Pow2(k);
    assert 2 * n == Pow2(k + 1);
  }

  // --------------------------------------------------------------------- masking

  lemma {:induction false} RemainderDoubles(h: nat, m: nat)
    requires m > 0
    ensures SlotOf(h, 2 * m) == h % 2 + 2 * SlotOf(h / 2, m)
  {
    if h >= 2 * m {
      RemainderDoubles(h - 2 * m, m);
      assert (h - 2 * m) / 2 == h / 2 - m && (h - 2 * m) % 2 == h % 2;
    }
  }

  lemma AndOdd(h: nat, m: nat)
    requires m > 0
    ensures And(h, 2 * m - 1) == h % 2 + 2 * And(h / 2, m - 1)
  {
    assert (2 * m - 1) % 2 == 1 && (2 * m - 1) / 2 == m - 1;
  }

  lemma {:induction false} MaskPow2(h: nat, k: nat)
    ensures And(h, Pow2(k) - 1) == SlotOf(h, Pow2(k))
    decreases k
  {
    hide And, SlotOf;
    if k == 0 {
      OneSlot(h);
    } else {
      MaskPow2(h / 2, k - 1);
      AndOdd(h, Pow2(k - 1));
      RemainderDoubles(h, Pow2(k - 1));
    }
  }

  lemma {:induction false} OneSlot(h: nat)
    ensures SlotOf(h, 1) == 0 == And(h, 0)
  {
    if h > 0 { OneSlot(h - 1); }
  }

  /** Masking with a power of two less one takes the remainder. */
  lemma MaskIsRemainder(h: nat, n: nat)
    requires IsPow2(n)
    ensures n > 0 && And(h, n - 1) == SlotOf(h, n)
  {
    var k: nat :| n == Pow2(k);
    MaskPow2(h, k);
  }

  lemma {:induction false} AndSelf(a: nat)
    ensures And(a, a) == a
    decreases a
  {
    if a > 0 { AndSelf(a / 2); }
  }

  /** A number has no bit in common with its predecessor only if it is a power of two. */
  lemma {:induction false} NoCommonBit(a: nat)
    requires a > 0 && And(a, a - 1) == 0
    ensures IsPow2(a)
    decreases a
  {
    if a == 1 {
      assert 1 == Pow2(0);
    } else if a % 2 == 1 {
      assert (a - 1) / 2 == a / 2;
      AndSelf(a / 2);
    } else {
      assert (a - 1) / 2 == a / 2 - 1 && a == 2 * (a / 2);
      NoCommonBit(a / 2);
      DoublingKeepsPow2(a / 2);
    }
  }

  // -------------------------------------------------------------------- smearing

  /** `x` has at most `l` bits, and the top `j` of `l` bits are ones. */
  predicate TopOnes(x: nat, l: nat, j: nat)
  {
    j <= l && Pow2(l) - Pow2(l - j) <= x < Pow2(l)
  }

  lemma {:induction false} ShrHalf(x: nat, k: nat)
    ensures Shr(x, k) / 2 == Shr(x / 2, k)
    decreases k
  {
    if k > 0 { ShrHalf(x / 2, k - 1); }
  }

  /** Shifting out all bits that may be zero leaves only ones. */
  lemma {:induction false} ShrTop(x: nat, l: nat, m: nat, k: nat)
    requires m <= k <= l && Pow2(l) - Pow2(m) <= x < Pow2(l)
    ensures Shr(x, k) == Pow2(l - k) - 1
    decreases k
  {
    if k > 0 { ShrTop(x / 2, l - 1, if m > 0 then m - 1 else 0, k - 1); }
  }

  lemma {:induction false} ShrBelow(x: nat, l: nat, k: nat)
    requires x < Pow2(l)
    ensures Shr(x, k) < Pow2(l)
    decreases k
  {
    if k > 0 { ShrBelow(x / 2, l, k - 1); }
  }

  lemma {:induction false} OrBounds(a: nat, b: nat, l: nat)
    requires a < Pow2(l) && b < Pow2(l)
    ensures a <= Or(a, b) < Pow2(l)
    decreases l
  {
    if l > 0 && (a > 0 || b > 0) { OrBounds(a / 2, b / 2, l - 1); }
  }

  lemma OrBit(a: nat, b: nat)
    ensures Or(a, b) == 2 * Or(a / 2, b / 2) + if a % 2 == 1 || b % 2 == 1 then 1 else 0
  {
  }

  function Twice(j: nat, l: nat): nat { if 2 * j < l then 2 * j else l }

  /** Or-ing with a copy shifted by the number of leading ones doubles them. */
  lemma {:induction false} SmearStep(x: nat, l: nat, j: nat)
    requires 1 <= j && TopOnes(x, l, j)
    ensures TopOnes(Or(x, Shr(x, j)), l, Twice(j, l))
    decreases l
  {
    hide Or, Shr;
    if j == l {
      ShrBelow(x, l, j);
      OrBounds(x, Shr(x, j), l);
    } else {
      SmearStep(x / 2, l - 1, j);
      ShrHalf(x, j);
      OrBit(x, Shr(x, j));
      if 2 * j >= l {
        ShrTop(x, l, l - j, j);
        LowBitOfOnes(l - j);
      }
    }
  }

  lemma LowBitOfOnes(k: nat)
    requires k > 0
    ensures (Pow2(k) - 1) % 2 == 1
  {
  }

  /** The number of bits of `x`. */
  lemma {:induction false} BitLength(x: nat) returns (l: nat)
    requires x > 0
    ensures l > 0 && Pow2(l - 1) <= x < Pow2(l)
    decreases x
  {
    if x == 1 {
      l := 1;
      assert Pow2(0) == 1;
    } else {
      var k := BitLength(x / 2);
      l := k + 1;
    }
  }

  lemma {:induction false} Pow2Monotone(a: nat, b: nat)
    requires Pow2(a) < Pow2(b)
    ensures a < b
    decreases b
  {
    if a > 0 && b > 0 { Pow2Monotone(a - 1, b - 1); }
  }
}
