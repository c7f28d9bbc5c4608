/**
 * Three prime tables that must give the same answers: trial division, a sieve
 * computed beforehand, and a hybrid that asks the sieve first.
 */
module Primes {
  predicate Divides(d: int, n: int)
    requires d != 0
  {
    n % d == 0
  }

  predicate Prime(n: int)
  {
    n > 1 && forall d :: 2 <= d < n ==> !Divides(d, n)
  }

  /** `r` is the smallest prime greater than `p`. */
  predicate LeastPrimeAbove(p: int, r: int)
  {
    Prime(r) && p < r && forall m :: p < m < r ==> !Prime(m)
  }

  // -------------------------------------------------------------- divisibility

  lemma Distribute(a: int, b: int, d: int)
    ensures (a + b) * d == a * d + b * d && (a - b) * d == a * d - b * d
  {
  }

  lemma OnlyZeroFits(x: int, d: int)
    requires 0 <= x * d < d
    ensures x == 0
  {
  }

  lemma Multiple(d: int, k: int)
    requires d > 0
    ensures Divides(d, k * d)
  {
    var n := k * d;
    var q, r := n / d, n % d;
    assert n == q * d + r;
    assert (k - q) * d == r by { Distribute(k, q, d); }
    OnlyZeroFits(k - q, d);
  }

  lemma DividesSum(d: int, a: int, b: int)
    requires d > 0 && Divides(d, a) && Divides(d, b)
    ensures Divides(d, a + b) && Divides(d, a - b)
  {
    var x, y := a / d, b / d;
    assert a == x * d && b == y * d;
    Distribute(x, y, d);
    Multiple(d, x + y);
    Multiple(d, x - y);
  }

  lemma DividesProduct(d: int, a: int, k: int)
    requires d > 0 && Divides(d, a)
    ensures Divides(d, k * a)
  {
    var x := a / d;
    assert a == x * d;
    assert k * a == (k * x) * d by { Regroup(k, x, d); }
    Multiple(d, k * x);
  }

  lemma Regroup(k: int, x: int, d: int)
    ensures k * (x * d) == (k * x) * d
  {
  }

  lemma DividesTransitive(d: int, e: int, n: int)
    requires d > 0 && e > 0 && Divides(d, e) && Divides(e, n)
    ensures Divides(d, n)
  {
    var k := n / e;
    assert n == k * e;
    DividesProduct(d, e, k);
  }

  /** The quotient by a proper divisor is one too, and the smaller of the two
      is at most the square root. */
  lemma Cofactor(d: int, n: int) returns (k: int)
    requires 2 <= d < n && Divides(d, n)
    ensures 2 <= k < n && Divides(k, n) && (k * k <= n || d * d <= n)
  {
    k := n / d;
    assert n == k * d;
    CofactorBounds(k, d, n);
    Multiple(k, d);
    assert d * k == k * d;
  }

  lemma PositiveFactor(k: int, d: int)
    requires d > 0 && k * d > 0
    ensures k > 0
  {
  }

  lemma CofactorBounds(k: int, d: int, n: int)
    requires 2 <= d < n && n == k * d
    ensures 2 <= k < n && (k * k <= n || d * d <= n)
  {
    PositiveFactor(k, d);
    if k <= d {
      assert k * k <= k * d;
    } else {
      assert d * d <= k * d;
    }
  }

  /** Trying divisors up to the square root is enough. */
  lemma SquareRootSuffices(n: int, i: int)
    requires n > 1 && i >= 2 && i * i > n
    requires forall d :: 2 <= d < i && d < n ==> !Divides(d, n)
    ensures Prime(n)
  {
    forall d | 2 <= d < n ensures !Divides(d, n) {
      if Divides(d, n) {
        var k := Cofactor(d, n);
        RootBelow(k, d, i, n);
      }
    }
  }

  lemma RootBelow(k: int, d: int, i: int, n: int)
    requires k >= 0 && d >= 0 && i >= 0 && i * i > n && (k * k <= n || d * d <= n)
    ensures k < i || d < i
  {
    if k >= i { SquareGrows(i, k); }
    if d >= i { SquareGrows(i, d); }
  }

  lemma SquareGrows(i: int, k: int)
    requires 0 <= i <= k
    ensures i * i <= k * k
  {
    assert i * i <= i * k;
  }

  // ------------------------------------------------------ infinitely many primes

  function Factorial(n: nat): (r: nat)
    ensures r >= 1
  {
    if n == 0 then 1 else n * Factorial(n - 1)
  }

  lemma {:induction false} FactorialDivides(d: nat, n: nat)
    requires 1 <= d <= n
    ensures Divides(d, Factorial(n))
  {
    if d == n {
      assert n * Factorial(n - 1) == Factorial(n - 1) * n;
      Multiple(d, Factorial(n - 1));
    } else {
      FactorialDivides(d, n - 1);
      DividesProduct(d, Factorial(n - 1), n);
    }
  }

  lemma {:induction false} PrimeDivisor(n: int) returns (q: int)
    requires n >= 2
    ensures Prime(q) && q <= n && Divides(q, n)
    decreases n
  {
    if Prime(n) {
      q := n;
    } else {
      var d :| 2 <= d < n && Divides(d, n);
      q := PrimeDivisor(d);
      DividesTransitive(q, d, n);
    }
  }

  lemma SuccessorCoprime(q: int, n: int)
    requires q >= 2 && Divides(q, n)
    ensures !Divides(q, n + 1)
  {
    if Divides(q, n + 1) { DividesSum(q, n + 1, n); }
  }

  lemma PrimesAreUnbounded(p: nat) returns (q: int)
    ensures Prime(q) && p < q
  {
    q := PrimeDivisor(Factorial(p) + 1);
    if q <= p {
      FactorialDivides(q, p);
      SuccessorCoprime(q, Factorial(p));
    }
  }

  // ------------------------------------------------------------- trial division

  class OnTheFlyPrimeTable {
    constructor () {}

    /** Decides primality of every integer. */
    method IsPrime(n: int) returns (r: bool)
      ensures r <==> Prime(n)
    {
      if n <= 1 { return false; }
      var i := 2;
      while i * i <= n
        invariant i >= 2
        invariant forall d :: 2 <= d < i && d < n ==> !Divides(d, n)
        decreases n - i
      {
        StepBelow(i, n);
        if n % i == 0 {
          assert Divides(i, n);
          return false;
        }
        i := i + 1;
      }
      SquareRootSuffices(n, i);
      r := true;
    }

    /** The least prime above `p`; a negative `p` ends the loop before it starts. */
    method GetNextPrime(p: int) returns (r: int)
      ensures p >= 0 ==> LeastPrimeAbove(p, r)
      ensures p < 0 ==> r == -1
    {
      ghost var q := 1;
      if p >= 0 { q := PrimesAreUnbounded(p); }
      var n := p + 1;
      while n > 0
        invariant p < n && if p >= 0 then 0 < n <= q else n == p + 1
        invariant forall m :: p < m < n ==> !Prime(m)
        decreases q - n
      {
        var prime := IsPrime(n);
        if prime { return n; }
        n := n + 1;
      }
      r := -1;
    }
  }

  lemma StepBelow(i: int, n: int)
    requires i >= 2 && i * i <= n
    ensures i < n
  {
    assert i * 2 <= i * i;
  }

  // ------------------------------------------------------------------ the sieve

  /** What the sieve believes of `n` once the multiples of all numbers below `i`
      are struck out. */
  predicate Sieved(n: int, i: int)
  {
    n > 1 && forall d :: 2 <= d < i && d < n ==> !Divides(d, n)
  }

  /** A number already struck out strikes nothing new. */
  lemma CompositeStrikesNothing(i: int, n: int)
    requires i >= 2 && !Sieved(i, i) && Sieved(n, i)
    ensures Sieved(n, i + 1)
  {
    if i < n && Divides(i, n) {
      var d :| 2 <= d < i && Divides(d, i);
      DividesTransitive(d, i, n);
    }
  }

  /** Between a multiple of `i` and the next there is no other. */
  lemma NoMultipleBetween(i: int, j: int, n: int)
    requires i >= 2 && Divides(i, j) && j <= n < j + i && Divides(i, n)
    ensures n == j
  {
    DividesSum(i, n, j);
  }

  class PreCalculatedPrimeTable {
    const size: int
    const table: array<bool>

    ghost predicate Valid()
      reads this, table
    {
      size == table.Length && size >= 2 && forall n :: 0 <= n < size ==> (table[n] <==> Prime(n))
    }

    /** The table marks exactly the primes in 0..max. */
    constructor (max: int)
      requires max >= 1
      ensures Valid() && size == max + 1 && fresh(table)
    {
      size := max + 1;
      table := new bool[max + 1];
      new;
      CalculatePrimesUpTo(max);
      forall n | 0 <= n < size ensures table[n] <==> Prime(n) {
        assert Sieved(n, max + 1) <==> Prime(n);
      }
    }

    method CalculatePrimesUpTo(max: int)
      requires max >= 1 && table.Length == max + 1
      modifies table
      ensures forall n :: 0 <= n <= max ==> (table[n] <==> Sieved(n, max + 1))
    {
      for k := 0 to table.Length
        invariant forall n :: 0 <= n < k ==> table[n]
      {
        table[k] := true;
      }
      table[1] := false;
      table[0] := false;
      var i := 2;
      while i <= max
        invariant 2 <= i <= max + 1
        invariant forall n :: 0 <= n <= max ==> (table[n] <==> Sieved(n, i))
      {
        StrikeMultiples(i, max);
        i := i + 1;
      }
    }

    /** One turn of the sieve. */
    method StrikeMultiples(i: int, max: int)
      requires 2 <= i <= max && table.Length == max + 1
      requires forall n :: 0 <= n <= max ==> (table[n] <==> Sieved(n, i))
      modifies table
      ensures forall n :: 0 <= n <= max ==> (table[n] <==> Sieved(n, i + 1))
    {
      if !table[i] {
        forall n | 0 <= n <= max ensures table[n] <==> Sieved(n, i + 1) {
          if Sieved(n, i) { CompositeStrikesNothing(i, n); }
        }
        return;
      }
      var j := 2 * i;
      Multiple(i, 1);
      Multiple(i, 2);
      forall n | i < n < j ensures !Divides(i, n) {
        if Divides(i, n) { NoMultipleBetween(i, i, n); }
      }
      while j <= max
        invariant i < j && Divides(i, j)
        invariant forall n :: 0 <= n <= max ==> (table[n] <==> Sieved(n, i) && !(i < n < j && Divides(i, n)))
      {
        forall n | j < n < j + i ensures !Divides(i, n) {
          if Divides(i, n) { NoMultipleBetween(i, j, n); }
        }
        DividesSum(i, j, i);
        table[j] := false;
        j := j + i;
      }
    }

    method IsPrime(n: int) returns (r: bool)
      requires Valid()
      ensures r <==> n < size && Prime(n)
    {
      r := 0 <= n && n < size && table[n];
    }

    /** The least prime above `p` if the table holds it, and -1 otherwise. */
    method GetNextPrime(p: int) returns (r: int)
      requires Valid() && p >= -1
      ensures r != -1 ==> LeastPrimeAbove(p, r) && r < size
      ensures r == -1 <==> forall m :: p < m < size ==> !Prime(m)
    {
      var n := p + 1;
      while n < size
        invariant p < n
        invariant forall m :: p < m < n ==> !Prime(m)
      {
        if table[n] { return n; }
        n := n + 1;
      }
      r := -1;
    }
  }

  // ------------------------------------------------------------------ the hybrid

  class HybridPrimeTable {
    const onTheFly: OnTheFlyPrimeTable
    const precalc: PreCalculatedPrimeTable?
    const maxPrecalculated: int

    ghost predicate Valid()
      reads this, precalc, if precalc == null then {} else {precalc.table}
    {
      precalc != null ==> precalc.Valid() && precalc.size == maxPrecalculated + 1
    }

    constructor (forceOnTheFly: bool, max: int)
      requires !forceOnTheFly ==> max >= 1
      ensures Valid() && maxPrecalculated == max && (precalc == null <==> forceOnTheFly)
    {
      onTheFly := new OnTheFlyPrimeTable();
      if forceOnTheFly {
        precalc := null;
      } else {
        precalc := new PreCalculatedPrimeTable(max);
      }
      maxPrecalculated := max;
    }

    method IsPrime(n: int) returns (r: bool)
      requires Valid()
      ensures r <==> Prime(n)
    {
      if precalc != null && n < maxPrecalculated {
        r := precalc.IsPrime(n);
      } else {
        r := onTheFly.IsPrime(n);
      }
    }

    /** The least prime above `p` in both modes exactly when `p` is not negative,
        except that a table holding 2 answers -1 too. */
    method GetNextPrime(p: int) returns (r: int)
      requires Valid()
      requires precalc != null && p < maxPrecalculated ==> p >= -1
      ensures LeastPrimeAbove(p, r) <==> p >= 0 || (precalc != null && maxPrecalculated >= 2)
      ensures !LeastPrimeAbove(p, r) ==> r == -1
    {
      assert Prime(2);
      var next := -1;
      if precalc != null && p < maxPrecalculated {
        next := precalc.GetNextPrime(p);
      }
      if next != -1 {
        r := next;
      } else {
        r := onTheFly.GetNextPrime(p);
      }
    }
  }
}
