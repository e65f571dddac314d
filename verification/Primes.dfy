/** Four prime testers and their searches, after prime_tables.h, sample1.cc and sample8_unittest.cc. */
module Primes {

  // ---------- Prime numbers ----------

  predicate Divides(d: int, n: int)
    requires d > 0
  {
    n % d == 0
  }

  ghost predicate IsPrimeNumber(n: int) {
    n >= 2 && forall d :: 2 <= d < n ==> !Divides(d, n)
  }

  /** Some divisor from lo up to hi. */
  ghost predicate HasDivisor(n: int, lo: int, hi: int) {
    exists d :: 2 <= d && lo <= d < hi && Divides(d, n)
  }

  lemma Quotient(n: int, d: int)
    requires d > 0 && Divides(d, n)
    ensures n == d * (n / d)
  {
  }

  lemma ProductIsMultiple(d: int, k: int)
    requires d > 0
    ensures Divides(d, d * k)
  {
    RemainderOfSum(d, k, 0);
  }

  lemma RemainderOfSum(d: int, k: int, r: int)
    requires 0 <= r < d
    ensures (d * k + r) % d == r
  {
    var n := d * k + r;
    var q := n / d;
    assert n == d * q + n % d;
    if q > k {
      TimesOrder(d, k + 1, q);
    } else if q < k {
      TimesOrder(d, q + 1, k);
    }
  }

  lemma TimesOrder(d: int, a: int, b: int)
    requires d >= 0 && a <= b
    ensures d * a <= d * b
  {
  }

  lemma DividesTrans(a: int, b: int, n: int)
    requires a > 0 && b > 0 && Divides(a, b) && Divides(b, n)
    ensures Divides(a, n)
  {
    Quotient(b, a);
    Quotient(n, b);
    var k, m := b / a, n / b;
    assert n == (a * k) * m == a * (k * m);
    ProductIsMultiple(a, k * m);
  }

  /** The cofactor of a divisor divides too. */
  lemma Cofactor(n: int, d: int)
    requires n >= 2 && 2 <= d < n && Divides(d, n)
    ensures var e := n / d; 2 <= e < n && Divides(e, n) && n == d * e
  {
    Quotient(n, d);
    CofactorBounds(n, d, n / d);
    ProductIsMultiple(n / d, d);
    Commutes(n / d, d);
  }

  lemma CofactorBounds(n: int, d: int, e: int)
    requires n >= 2 && 2 <= d < n && n == d * e
    ensures 2 <= e < n
  {
    if e <= 1 {
      TimesOrder(d, e, 1);
    } else {
      TimesOrder(e, 2, d);
      Commutes(d, e);
    }
  }

  lemma Commutes(a: int, b: int)
    ensures a * b == b * a
  {
  }

  /** Trying divisors up to the square root is enough. */
  lemma SquareRootIsEnough(n: int, i: int)
    requires n >= 2 && i >= 2 && i * i > n && !HasDivisor(n, 2, i)
    ensures IsPrimeNumber(n)
  {
    forall d | 2 <= d < n ensures !Divides(d, n) {
      if Divides(d, n) {
        Cofactor(n, d);
        var e := n / d;
        if d >= i && e >= i {
          TimesOrder(i, i, e);
          TimesOrder(e, i, d);
        }
      }
    }
  }

  // ---------- There is always a larger prime ----------

  function Factorial(n: nat): (f: nat)
    ensures f >= 1
  {
    if n == 0 then 1 else Factorial(n - 1) * n
  }

  lemma {:induction false} DividesFactorial(d: nat, n: nat)
    requires 1 <= d <= n
    ensures Divides(d, Factorial(n))
  {
    if d < n {
      DividesFactorial(d, n - 1);
    }
    FactorDivides(d, n, Factorial(n - 1));
  }

  lemma FactorDivides(d: nat, n: nat, f: nat)
    requires d >= 1 && f >= 1 && (d == n || Divides(d, f))
    ensures Divides(d, f * n)
  {
    if d == n {
      ProductIsMultiple(n, f);
      Commutes(n, f);
    } else {
      ProductIsMultiple(f, n);
      DividesTrans(d, f, f * n);
    }
  }

  /** Every number from two on has a prime divisor. */
  lemma {:induction false} PrimeDivisor(n: int) returns (q: int)
    requires n >= 2
    ensures IsPrimeNumber(q) && Divides(q, n)
  {
    if IsPrimeNumber(n) {
      q := n;
    } else {
      var d :| 2 <= d < n && Divides(d, n);
      q := PrimeDivisor(d);
      DividesTrans(q, d, n);
    }
  }

  /** Euclid's theorem: a prime divisor of p! + 1 is above p. */
  lemma LargerPrime(p: nat) returns (q: int)
    ensures q > p && IsPrimeNumber(q)
  {
    q := PrimeDivisor(Factorial(p) + 1);
    if q <= p {
      DividesFactorial(q, p);
      Quotient(Factorial(p), q);
      RemainderOfSum(q, Factorial(p) / q, 1);
    }
  }

  /** The smallest prime above p. */
  ghost predicate IsNextPrime(q: int, p: int) {
    q > p && IsPrimeNumber(q) && forall n :: p < n < q ==> !IsPrimeNumber(n)
  }

  lemma OneNextPrime(q: int, r: int, p: int)
    requires IsNextPrime(q, p) && IsNextPrime(r, p)
    ensures q == r
  {
  }

  // ---------- Trial division ----------

  class OnTheFlyPrimeTable {
    constructor () {}

    method IsPrime(n: int) returns (prime: bool)
      ensures prime <==> IsPrimeNumber(n)
    {
      if n <= 1 { return false; }
      var i := 2;
      while i * i <= n
        invariant i >= 2 && !HasDivisor(n, 2, i)
        decreases n - i
      {
        SquareAbove(i);
        if n % i == 0 {
          assert Divides(i, n);
          return false;
        }
        i := i + 1;
      }
      SquareRootIsEnough(n, i);
      return true;
    }

    /** The search ends, as there is a larger prime. */
    method GetNextPrime(p: int) returns (q: int)
      ensures if p < 0 then q == -1 else IsNextPrime(q, p)
    {
      if p < 0 { return -1; }
      ghost var larger := LargerPrime(p);
      var n := p + 1;
      while true
        invariant p < n <= larger && forall m :: p < m < n ==> !IsPrimeNumber(m)
        decreases larger - n
      {
        var prime := IsPrime(n);
        if prime { return n; }
        n := n + 1;
      }
    }
  }

  lemma SquareAbove(i: int)
    requires i >= 2
    ensures i * i > i
  {
    TimesOrder(i, 2, i);
  }

  /** Two is the next prime of every negative number, so that finding none is wrong. */
  lemma TwoIsFirst(p: int)
    requires p < 0
    ensures IsNextPrime(2, p)
  {
  }

  lemma TableFromStart(size: int)
    ensures (forall m :: -1 < m < size ==> !IsPrimeNumber(m)) <==> size <= 2
  {
    TwoIsFirst(-1);
  }

  // ---------- The sieve ----------

  /** Marking the multiples of all divisors below i, from their squares on, marks the number. */
  ghost predicate IsMarked(n: int, i: int) {
    exists d :: 2 <= d < i && d * d <= n && Divides(d, n)
  }

  lemma MarkedIsComposite(n: int, i: int)
    requires IsMarked(n, i) && n >= 2
    ensures !IsPrimeNumber(n)
  {
    var d :| 2 <= d < i && d * d <= n && Divides(d, n);
    SquareAbove(d);
  }

  /** The smaller of two cofactors marks a composite number. */
  lemma CompositeIsMarked(n: int, i: int)
    requires n >= 2 && !IsPrimeNumber(n) && i * i > n && i >= 2
    ensures IsMarked(n, i)
  {
    var d :| 2 <= d < n && Divides(d, n);
    Cofactor(n, d);
    SmallerMarks(n, i, d, n / d);
  }

  lemma SmallerMarks(n: int, i: int, d: int, e: int)
    requires i >= 2 && i * i > n && 2 <= d && 2 <= e && n == d * e && Divides(d, n) && Divides(e, n)
    ensures IsMarked(n, i)
  {
    var s, t := if d <= e then d else e, if d <= e then e else d;
    Commutes(d, e);
    TimesOrder(s, s, t);
    assert s * s <= n;
    if s >= i {
      TimesOrder(i, i, s);
      TimesOrder(s, i, s);
      Commutes(i, s);
    }
  }

  /** Multiples of a composite number are marked already. */
  lemma CompositeMarksNothing(n: int, i: int)
    requires i >= 2 && !IsPrimeNumber(i) && Divides(i, n) && i * i <= n
    ensures IsMarked(n, i)
  {
    var d :| 2 <= d < i && Divides(d, i);
    DividesTrans(d, i, n);
    TimesOrder(d, d, i);
    TimesOrder(i, d, i);
    Commutes(d, i);
  }

  /** Even numbers above two mark nothing that two has not marked. */
  lemma EvenMarksNothing(n: int, i: int)
    requires i > 2 && i % 2 == 0 && Divides(i, n) && i * i <= n
    ensures IsMarked(n, i)
  {
    DividesTrans(2, i, n);
    TimesOrder(i, 2, i);
  }

  /** What the number i adds on the way to the next number that is tried. */
  lemma NextMarks(n: int, i: int)
    requires i == 2 || (i > 2 && i % 2 == 1)
    ensures IsMarked(n, i + i % 2 + 1) <==> IsMarked(n, i) || (Divides(i, n) && i * i <= n)
  {
    if IsMarked(n, i + i % 2 + 1) && !IsMarked(n, i) {
      var d :| 2 <= d < i + i % 2 + 1 && d * d <= n && Divides(d, n);
      if d > i {
        EvenMarksNothing(n, d);
        var e :| 2 <= e < d && e * e <= n && Divides(e, n);
      }
    }
  }

  lemma CompositeChangesNothing(n: int, i: int)
    requires (i == 2 || (i > 2 && i % 2 == 1)) && !IsPrimeNumber(i)
    ensures IsMarked(n, i + i % 2 + 1) <==> IsMarked(n, i)
  {
    NextMarks(n, i);
    if Divides(i, n) && i * i <= n {
      CompositeMarksNothing(n, i);
    }
  }

  lemma MarksAreComposites(i: int, max: int)
    requires i >= 2 && i * i > max
    ensures forall n :: 2 <= n <= max ==> (IsMarked(n, i) <==> !IsPrimeNumber(n))
  {
    forall n | 2 <= n <= max ensures IsMarked(n, i) <==> !IsPrimeNumber(n) {
      if IsMarked(n, i) {
        MarkedIsComposite(n, i);
      } else if !IsPrimeNumber(n) {
        CompositeIsMarked(n, i);
      }
    }
  }

  lemma NextMultiple(n: int, i: int, j: int)
    requires i >= 2 && Divides(i, j) && Divides(i, n) && j < n
    ensures j + i <= n
  {
    Quotient(n, i);
    Quotient(j, i);
    if n / i <= j / i {
      TimesOrder(i, n / i, j / i);
    } else {
      TimesOrder(i, j / i + 1, n / i);
    }
  }

  lemma StaysMultiple(i: int, j: int)
    requires i >= 2 && Divides(i, j)
    ensures Divides(i, j + i)
  {
    Quotient(j, i);
    ProductIsMultiple(i, j / i + 1);
  }

  /** The numbers tried: two and the odd ones above. */
  predicate IsTried(i: int) { i == 2 || (i > 2 && i % 2 == 1) }

  lemma NextIsTried(i: int)
    requires IsTried(i)
    ensures IsTried(i + i % 2 + 1) && i + i % 2 + 1 > i
  {
  }

  class PreCalculatedPrimeTable {
    const isPrimeSize: int
    const isPrime: array<bool>

    ghost predicate Valid()
      reads isPrime
    {
      isPrime.Length == isPrimeSize && forall n :: 0 <= n < isPrimeSize ==> (isPrime[n] <==> IsPrimeNumber(n))
    }

    constructor (max: int)
      requires max >= 1
      ensures Valid() && isPrimeSize == max + 1 && fresh(isPrime)
    {
      isPrimeSize := if max + 1 > 1 then max + 1 else 1;
      isPrime := new bool[if max + 1 > 1 then max + 1 else 1];
      new;
      CalculatePrimesUpTo(isPrimeSize - 1);
    }

    /** The multiples of the divisors below i are crossed out, and no others. */
    ghost predicate Sieved(i: int, max: int)
      requires isPrime.Length == max + 1 && max >= 1
      reads isPrime
    {
      !isPrime[0] && !isPrime[1] && forall n :: 2 <= n <= max ==> (isPrime[n] <==> !IsMarked(n, i))
    }

    /** Crosses out the multiples of each prime from its square on, trying two and the odd numbers. */
    method CalculatePrimesUpTo(max: int)
      requires isPrime.Length == isPrimeSize == max + 1 && max >= 1
      modifies isPrime
      ensures Valid()
    {
      forall n | 0 <= n < isPrime.Length { isPrime[n] := true; }
      isPrime[0], isPrime[1] := false, false;
      var i := 2;
      while i * i <= max
        invariant IsTried(i) && Sieved(i, max)
        decreases max - i
      {
        SquareAbove(i);
        NextIsTried(i);
        TryNumber(i, max);
        i := i + i % 2 + 1;
      }
      MarksAreComposites(i, max);
    }

    /** The body of the outer loop. */
    method TryNumber(i: int, max: int)
      requires isPrime.Length == max + 1 && IsTried(i) && i < i * i <= max && Sieved(i, max)
      modifies isPrime
      ensures Sieved(i + i % 2 + 1, max)
    {
      if isPrime[i] {
        CrossOut(i, max);
        forall n | 2 <= n <= max ensures isPrime[n] <==> !IsMarked(n, i + i % 2 + 1) {
          NextMarks(n, i);
        }
      } else {
        MarkedIsComposite(i, i);
        forall n | 2 <= n <= max ensures isPrime[n] <==> !IsMarked(n, i + i % 2 + 1) {
          CompositeChangesNothing(n, i);
        }
      }
    }

    /** The inner loop: crosses out the multiples of i from its square on. */
    method CrossOut(i: int, max: int)
      requires isPrime.Length == max + 1 && i >= 2 && i * i <= max
      modifies isPrime
      ensures forall n :: 0 <= n <= max ==> (isPrime[n] <==> old(isPrime[n]) && !(Divides(i, n) && i * i <= n))
    {
      var j := i * i;
      ProductIsMultiple(i, i);
      while j <= max
        invariant Divides(i, j) && j >= i * i
        invariant forall n :: 0 <= n <= max ==> (isPrime[n] <==> old(isPrime[n]) && !(Divides(i, n) && i * i <= n < j))
        decreases max - j
      {
        isPrime[j] := false;
        forall n | j < n <= max && Divides(i, n) ensures j + i <= n {
          NextMultiple(n, i, j);
        }
        StaysMultiple(i, j);
        j := j + i;
      }
    }

    method IsPrime(n: int) returns (prime: bool)
      requires Valid()
      ensures prime <==> n < isPrimeSize && IsPrimeNumber(n)
    {
      prime := 0 <= n && n < isPrimeSize && isPrime[n];
    }

    /** The next prime within the table, or -1. */
    method GetNextPrime(p: int) returns (q: int)
      requires Valid() && p >= -1
      ensures q == -1 ==> forall m :: p < m < isPrimeSize ==> !IsPrimeNumber(m)
      ensures q != -1 ==> IsNextPrime(q, p) && q < isPrimeSize
    {
      var n := p + 1;
      while n < isPrimeSize
        invariant p < n && forall m :: p < m < n ==> !IsPrimeNumber(m)
      {
        if isPrime[n] { return n; }
        n := n + 1;
      }
      return -1;
    }
  }

  // ---------- Both ----------

  class HybridPrimeTable {
    const onTheFlyImpl: OnTheFlyPrimeTable
    const precalcImpl: PreCalculatedPrimeTable?
    const maxPrecalculated: int

    ghost predicate Valid()
      reads if precalcImpl != null then {precalcImpl.isPrime} else {}
    {
      precalcImpl != null ==> precalcImpl.Valid() && precalcImpl.isPrimeSize == maxPrecalculated + 1
    }

    constructor (forceOnTheFly: bool, maxPrecalculated: int)
      requires forceOnTheFly || maxPrecalculated >= 1
      ensures Valid()
    {
      onTheFlyImpl := new OnTheFlyPrimeTable();
      if forceOnTheFly {
        precalcImpl := null;
      } else {
        precalcImpl := new PreCalculatedPrimeTable(maxPrecalculated);
      }
      this.maxPrecalculated := maxPrecalculated;
    }

    method IsPrime(n: int) returns (prime: bool)
      requires Valid()
      ensures prime <==> IsPrimeNumber(n)
    {
      if precalcImpl != null && n < maxPrecalculated {
        prime := precalcImpl.IsPrime(n);
      } else {
        prime := onTheFlyImpl.IsPrime(n);
      }
    }

    /** The next prime, except for negative p: then the search on the fly finds none, and only a table that
        reaches 2 answers rightly. */
    method GetNextPrime(p: int) returns (q: int)
      requires Valid() && (precalcImpl != null ==> p >= -1)
      ensures if p >= 0 || (precalcImpl != null && maxPrecalculated >= 2) then IsNextPrime(q, p) else q == -1
    {
      if p < 0 {
        TwoIsFirst(p);
        if precalcImpl != null { TableFromStart(precalcImpl.isPrimeSize); }
      }
      q := -1;
      if precalcImpl != null && p < maxPrecalculated {
        q := precalcImpl.GetNextPrime(p);
      }
      if q == -1 {
        q := onTheFlyImpl.GetNextPrime(p);
      }
    }
  }

  // ---------- Trial division by odd numbers ----------

  method IsPrimeByOddDivisors(n: int) returns (prime: bool)
    ensures prime <==> IsPrimeNumber(n)
  {
    if n <= 1 { return false; }
    if n % 2 == 0 {
      assert Divides(2, n);
      return n == 2;
    }
    var i := 3;
    while true
      invariant i >= 3 && i % 2 == 1 && !HasDivisor(n, 2, i) && i <= n + 2
      decreases n + 2 - i
    {
      if i > n / i {
        QuotientBelow(n, i);
        SquareRootIsEnough(n, i);
        return true;
      }
      QuotientAbove(n, i);
      if n % i == 0 {
        assert Divides(i, n);
        return false;
      }
      assert !HasDivisor(n, 2, i + 2) by {
        if HasDivisor(n, 2, i + 2) {
          var d :| 2 <= d < i + 2 && Divides(d, n);
          if d == i + 1 { DividesTrans(2, d, n); }
        }
      }
      i := i + 2;
    }
  }

  lemma QuotientBelow(n: int, i: int)
    requires n >= 0 && i > 0 && i > n / i
    ensures i * i > n
  {
    assert n == i * (n / i) + n % i;
    TimesOrder(i, n / i + 1, i);
  }

  lemma QuotientAbove(n: int, i: int)
    requires n >= 1 && i >= 2 && i <= n / i
    ensures i < n
  {
    assert n == i * (n / i) + n % i;
    TimesOrder(i, i, n / i);
    SquareAbove(i);
  }

  /** The product of the numbers up to n; 1 for negative n. */
  method ComputeFactorial(n: int) returns (result: int)
    ensures result == if n < 0 then 1 else Factorial(n)
  {
    result := 1;
    var i := 1;
    while i <= n
      invariant 1 <= i && (if n >= 0 then i <= n + 1 else i == 1) && result == Factorial(i - 1)
    {
      result := result * i;
      i := i + 1;
    }
  }
}
