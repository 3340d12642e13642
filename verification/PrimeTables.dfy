/**
  Four primality tests and two searches for the next prime, all measured against one definition.

  Integers are mathematical.  The table constructor needs max >= 1: the sieve writes index 1 of an
  array of max(1, max + 1) flags.
 */
module PrimeTables {
  import opened Common

  ghost predicate Divides(d: int, n: int)
    requires d > 0
  {
    exists k :: n == d * k
  }

  ghost predicate Prime(n: int) {
    n >= 2 && forall d | 2 <= d < n :: !Divides(d, n)
  }

  ghost predicate LeastPrimeAbove(p: int, q: int) {
    p < q && Prime(q) && forall n | p < n < q :: !Prime(n)
  }

  // ---------- divisibility ----------

  lemma DividesIffNoRemainder(d: int, n: int)
    requires d > 0
    ensures Divides(d, n) <==> n % d == 0
  {
    if k :| n == d * k {
      RemainderOfMultiple(d, k);
    }
    assert n == d * (n / d) + n % d;
  }

  lemma RemainderOfMultiple(d: int, k: int)
    requires d > 0
    ensures (d * k) % d == 0
  {
    var r := (d * k) % d;
    var q := (d * k) / d;
    assert d * (k - q) == r;
    if k - q >= 1 {
      MulMonotonic(d, 1, k - q);
    } else if k - q <= -1 {
      MulMonotonic(d, k - q, -1);
    }
  }

  lemma DividesTransitive(a: int, b: int, n: int)
    requires a > 0 && b > 0 && Divides(a, b) && Divides(b, n)
    ensures Divides(a, n)
  {
    var k :| b == a * k;
    var m :| n == b * m;
    assert n == a * (k * m);
  }

  // A composite number has a divisor no larger than its square root.
  lemma SmallDivisor(n: int) returns (d: int)
    requires n >= 2 && !Prime(n)
    ensures 2 <= d < n && d * d <= n && Divides(d, n)
  {
    var a :| 2 <= a < n && Divides(a, n);
    var b := Cofactor(a, n);
    if a <= b {
      d := a;
      MulMonotonic(a, a, b);
    } else {
      d := b;
      MulMonotonic(b, b, a);
    }
  }

  lemma Cofactor(a: int, n: int) returns (b: int)
    requires 2 <= a < n && Divides(a, n)
    ensures n == a * b == b * a && 2 <= b < n && Divides(b, n)
  {
    b :| n == a * b;
    if b <= 1 {
      MulMonotonic(a, b, 1);
    }
    MulMonotonic(b, 2, a);
    assert n == b * a;
  }

  // No divisor from 2 up to and including the square root, so none at all.
  lemma PrimeByTrial(n: int, i: int)
    requires n >= 2 && i >= 2 && i * i > n
    requires forall d | 2 <= d < i && d < n :: !Divides(d, n)
    ensures Prime(n)
  {
    if !Prime(n) {
      var d := SmallDivisor(n);
      if d >= i {
        MulMonotonic(d, i, d);
        MulMonotonic(i, i, d);
      }
    }
  }

  // An even divisor means an even number.
  lemma OddHasNoEvenDivisor(n: int, d: int)
    requires n % 2 != 0 && d > 0 && d % 2 == 0
    ensures !Divides(d, n)
  {
    if Divides(d, n) {
      assert d == 2 * (d / 2);
      DividesTransitive(2, d, n);
      DividesIffNoRemainder(2, n);
    }
  }

  // The guard i > n / i is the test i * i > n without the product.
  lemma QuotientGuard(n: int, i: int)
    requires n >= 0 && i > 0
    ensures i > n / i <==> i * i > n
  {
    assert n == i * (n / i) + n % i;
    if i > n / i {
      MulMonotonic(i, n / i + 1, i);
      assert i * (n / i + 1) == i * (n / i) + i;
    } else {
      MulMonotonic(i, i, n / i);
    }
  }

  ghost predicate NoDivisorBelow(n: int, i: int) {
    forall d | 2 <= d < i && d < n :: !Divides(d, n)
  }

  // Trial division by every odd number up to the square root.
  method IsPrime(n: int) returns (prime: bool)
    ensures prime <==> Prime(n)
  {
    if n <= 1 {
      return false;
    }
    if n % 2 == 0 {
      DividesIffNoRemainder(2, n);
      return n == 2;
    }
    var i := 3;
    OddHasNoEvenDivisor(n, 2);
    while true
      invariant i >= 3 && i % 2 == 1 && NoDivisorBelow(n, i)
      decreases n - i
    {
      QuotientGuard(n, i);
      if i > n / i {
        break;
      }
      MulMonotonic(i, 3, i);
      DividesIffNoRemainder(i, n);
      if n % i == 0 {
        return false;
      }
      OddHasNoEvenDivisor(n, i + 1);
      i := i + 2;
    }
    PrimeByTrial(n, i);
    return true;
  }

  // ---------- there is always a next prime ----------

  lemma {:induction false} DividesFactorial(d: int, n: nat)
    requires 1 <= d <= n
    ensures Divides(d, Factorial(n))
  {
    assert Factorial(n) == n * Factorial(n - 1);
    if d < n {
      DividesFactorial(d, n - 1);
      var k :| Factorial(n - 1) == d * k;
      assert n * (d * k) == d * (n * k);
    }
  }

  lemma {:induction false} PrimeFactor(n: int) returns (q: int)
    requires n >= 2
    ensures Prime(q) && Divides(q, n)
    decreases n
  {
    if Prime(n) {
      q := n;
      assert n == n * 1;
    } else {
      var d := SmallDivisor(n);
      q := PrimeFactor(d);
      DividesTransitive(q, d, n);
    }
  }

  // Euclid: a prime factor of p! + 1 lies above p.
  lemma Euclid(p: nat) returns (q: int)
    ensures q > p && Prime(q)
  {
    var f := Factorial(p);
    q := PrimeFactor(f + 1);
    if q <= p {
      DividesFactorial(q, p);
      DividesIffNoRemainder(q, f);
      DividesIffNoRemainder(q, f + 1);
      ConsecutiveRemainders(q, f);
    }
  }

  lemma ConsecutiveRemainders(q: int, f: int)
    requires q >= 2
    ensures f % q != 0 || (f + 1) % q != 0
  {
    if f % q == 0 && (f + 1) % q == 0 {
      var a, b := f / q, (f + 1) / q;
      OneIsNoMultiple(q, b - a);
    }
  }

  lemma OneIsNoMultiple(q: int, k: int)
    requires q >= 2
    ensures q * k != 1
  {
    if k >= 1 {
      MulMonotonic(q, 1, k);
    } else {
      MulMonotonic(q, k, 0);
    }
  }

  class OnTheFlyPrimeTable {
    constructor ()
    {
    }

    method IsPrime(n: int) returns (prime: bool)
      ensures prime <==> Prime(n)
    {
      if n <= 1 {
        return false;
      }
      var i := 2;
      while i * i <= n
        invariant i >= 2
        invariant forall d | 2 <= d < i && d < n :: !Divides(d, n)
        decreases n - i
      {
        MulMonotonic(i, 2, i);
        DividesIffNoRemainder(i, n);
        if n % i == 0 {
          return false;
        }
        i := i + 1;
      }
      PrimeByTrial(n, i);
      return true;
    }

    // The search has no bound; it ends because there is a prime above every p.
    method GetNextPrime(p: int) returns (q: int)
      ensures p < 0 ==> q == -1
      ensures p >= 0 ==> LeastPrimeAbove(p, q)
    {
      if p < 0 {
        return -1;
      }
      ghost var bound := Euclid(p);
      var n := p + 1;
      while true
        invariant p < n <= bound
        invariant forall m | p < m < n :: !Prime(m)
        decreases bound - n
      {
        var prime := IsPrime(n);
        if prime {
          return n;
        }
        n := n + 1;
      }
    }
  }

  // ---------- the sieve ----------

  // n has been marked once all multiples d * d, d * d + d, ... of the d below i have been marked.
  ghost predicate Struck(n: int, i: int) {
    exists d | 2 <= d < i :: d * d <= n && Divides(d, n)
  }

  lemma StruckStep(n: int, i: int)
    requires i >= 2
    ensures Struck(n, i + 1) <==> Struck(n, i) || (i * i <= n && Divides(i, n))
  {
  }

  // Multiples of a number that is itself marked are marked already.
  lemma MarkedFactorAddsNothing(n: int, i: int)
    requires i >= 2 && Struck(i, i)
    ensures Struck(n, i + 1) <==> Struck(n, i)
  {
    StruckStep(n, i);
    if i * i <= n && Divides(i, n) {
      var d :| 2 <= d < i && d * d <= i && Divides(d, i);
      DividesTransitive(d, i, n);
      MulMonotonic(i, 1, i);
    }
  }

  // Even candidates above 2 add nothing either.
  lemma EvenFactorAddsNothing(n: int, i: int)
    requires i >= 3 && i % 2 == 0
    ensures Struck(n, i + 1) <==> Struck(n, i)
  {
    StruckStep(n, i);
    if i * i <= n && Divides(i, n) {
      assert i == 2 * (i / 2);
      DividesTransitive(2, i, n);
      MulMonotonic(i, 2, i);
      assert 2 * 2 <= n;
    }
  }

  lemma UnstruckIsPrime(n: int, i: int)
    requires n >= 2 && i >= 2 && i * i > n
    ensures Prime(n) <==> !Struck(n, i)
  {
    if !Prime(n) {
      var d := SmallDivisor(n);
      if d >= i {
        MulMonotonic(d, i, d);
        MulMonotonic(i, i, d);
      }
    }
    if Struck(n, i) {
      var d :| 2 <= d < i && d * d <= n && Divides(d, n);
      MulMonotonic(d, 2, d);
    }
  }

  lemma MarkedFactorSkipped(i: int, max: int)
    requires i >= 2 && Struck(i, i)
    ensures forall n | 0 <= n <= max :: Struck(n, i + 1) <==> Struck(n, i)
  {
    forall n | 0 <= n <= max
      ensures Struck(n, i + 1) <==> Struck(n, i)
    {
      MarkedFactorAddsNothing(n, i);
    }
  }

  lemma EvenFactorSkipped(i: int, max: int)
    requires i >= 3 && i % 2 == 0
    ensures forall n | 0 <= n <= max :: Struck(n, i + 1) <==> Struck(n, i)
  {
    forall n | 0 <= n <= max
      ensures Struck(n, i + 1) <==> Struck(n, i)
    {
      EvenFactorAddsNothing(n, i);
    }
  }

  lemma UnstruckArePrime(i: int, max: int)
    requires i >= 2 && i * i > max
    ensures forall n | 2 <= n <= max :: Prime(n) <==> !Struck(n, i)
  {
    forall n | 2 <= n <= max
      ensures Prime(n) <==> !Struck(n, i)
    {
      UnstruckIsPrime(n, i);
    }
  }

  lemma NextMultiple(i: int, j: int, n: int)
    requires i >= 2 && Divides(i, j) && j <= n < j + i
    ensures Divides(i, n) <==> n == j
    ensures Divides(i, j + i)
  {
    var k :| j == i * k;
    assert j + i == i * (k + 1);
    if m :| n == i * m {
      if m >= k + 1 {
        MulMonotonic(i, k + 1, m);
      } else if m <= k - 1 {
        MulMonotonic(i, m, k - 1);
      }
    }
  }

  function Max(a: int, b: int): int {
    if a < b then b else a
  }

  class PreCalculatedPrimeTable {
    const isPrimeSize: nat
    const isPrime: array<bool>

    ghost predicate Valid()
      reads isPrime
    {
      && isPrime.Length == isPrimeSize >= 2
      && forall n | 0 <= n < isPrimeSize :: isPrime[n] <==> Prime(n)
    }

    constructor (max: int)
      requires max >= 1
      ensures Valid() && isPrimeSize == max + 1 && fresh(isPrime)
    {
      isPrimeSize := Max(1, max + 1);
      isPrime := new bool[Max(1, max + 1)];
      new;
      CalculatePrimesUpTo(isPrimeSize - 1);
    }

    // The flags once all factors below i have been struck out.
    ghost predicate StruckBelow(i: int)
      reads isPrime
    {
      forall n | 0 <= n < isPrime.Length :: isPrime[n] <==> n >= 2 && !Struck(n, i)
    }

    method CalculatePrimesUpTo(max: int)
      requires max >= 1 && isPrime.Length == isPrimeSize == max + 1
      modifies isPrime
      ensures Valid()
    {
      forall n | 0 <= n < isPrime.Length {
        isPrime[n] := true;
      }
      isPrime[0], isPrime[1] := false, false;
      var i := 2;
      while i * i <= max
        invariant i == 2 || (i >= 3 && i % 2 == 1)
        invariant StruckBelow(i)
        decreases max - i
      {
        MulMonotonic(i, 2, i);
        StrikeOut(i, max);
        i := i + i % 2 + 1;
      }
      UnstruckArePrime(i, max);
    }

    // One turn of the loop, and why it can go on with the next odd number.
    method StrikeOut(i: int, max: int)
      requires 2 <= i <= max && (i == 2 || i % 2 == 1) && isPrime.Length == max + 1 && StruckBelow(i)
      modifies isPrime
      ensures StruckBelow(i + i % 2 + 1)
    {
      if isPrime[i] {
        MarkMultiples(i, max);
      } else {
        MarkedFactorSkipped(i, max);
      }
      if i % 2 == 1 {
        EvenFactorSkipped(i + 1, max);
      }
    }

    // The inner loop: marks the multiples of i from i * i on.
    method MarkMultiples(i: int, max: int)
      requires i >= 2 && isPrime.Length == max + 1 && StruckBelow(i)
      modifies isPrime
      ensures StruckBelow(i + 1)
    {
      MulMonotonic(i, 2, i);
      var j := i * i;
      while j <= max
        invariant j >= i * i && Divides(i, j)
        invariant forall n | 0 <= n <= max ::
            isPrime[n] <==> n >= 2 && !Struck(n, i) && !(i * i <= n < j && Divides(i, n))
        decreases max - j
      {
        forall n | j <= n < j + i
          ensures Divides(i, n) <==> n == j
        {
          NextMultiple(i, j, n);
        }
        NextMultiple(i, j, j);
        isPrime[j] := false;
        j := j + i;
      }
      forall n | 0 <= n <= max
        ensures Struck(n, i + 1) <==> Struck(n, i) || (i * i <= n && Divides(i, n))
      {
        StruckStep(n, i);
      }
    }

    method IsPrime(n: int) returns (prime: bool)
      requires Valid()
      ensures prime <==> n < isPrimeSize && Prime(n)
    {
      return 0 <= n && n < isPrimeSize && isPrime[n];
    }

    // The least prime above p in the table, or -1 if the table holds none.
    method GetNextPrime(p: int) returns (q: int)
      requires Valid() && p >= -1
      ensures q != -1 ==> q < isPrimeSize && LeastPrimeAbove(p, q)
      ensures q == -1 ==> forall n | p < n < isPrimeSize :: !Prime(n)
    {
      var n := p + 1;
      while n < isPrimeSize
        invariant n > p
        invariant forall m | p < m < n && m < isPrimeSize :: !Prime(m)
      {
        if isPrime[n] {
          return n;
        }
        n := n + 1;
      }
      return -1;
    }
  }

  // ---------- the hybrid table ----------

  class HybridPrimeTable {
    const onTheFly: OnTheFlyPrimeTable
    const precalc: PreCalculatedPrimeTable?
    const maxPrecalculated: int

    ghost predicate Valid()
      reads if precalc == null then {} else {precalc.isPrime}
    {
      precalc != null ==> precalc.Valid() && precalc.isPrimeSize == maxPrecalculated + 1
    }

    constructor (forceOnTheFly: bool, maxPrecalculated: int)
      requires forceOnTheFly || maxPrecalculated >= 1
      ensures Valid() && (precalc == null <==> forceOnTheFly) && this.maxPrecalculated == maxPrecalculated
    {
      onTheFly := new OnTheFlyPrimeTable();
      if forceOnTheFly {
        precalc := null;
      } else {
        precalc := new PreCalculatedPrimeTable(maxPrecalculated);
      }
      this.maxPrecalculated := maxPrecalculated;
    }

    method IsPrime(n: int) returns (prime: bool)
      requires Valid()
      ensures prime <==> Prime(n)
    {
      if precalc != null && n < maxPrecalculated {
        prime := precalc.IsPrime(n);
      } else {
        prime := onTheFly.IsPrime(n);
      }
    }

    // The least prime above p, whether or not it lies in the table.  Below zero the two tables
    // disagree: only the pre-calculated one answers for p == -1.
    method GetNextPrime(p: int) returns (q: int)
      requires Valid() && (precalc != null ==> p >= -1)
      ensures p >= 0 ==> LeastPrimeAbove(p, q)
      ensures p < 0 ==> q == if precalc != null && maxPrecalculated >= 2 then 2 else -1
    {
      var nextPrime := -1;
      if precalc != null && p < maxPrecalculated {
        nextPrime := precalc.GetNextPrime(p);
        TwoIsPrime();
      }
      if nextPrime != -1 {
        return nextPrime;
      }
      q := onTheFly.GetNextPrime(p);
    }
  }

  lemma TwoIsPrime()
    ensures Prime(2) && !Prime(0) && !Prime(1)
  {
  }
}
