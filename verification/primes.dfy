/** Divisibility and prime numbers: what the search of next_prime relies on. */
module Primes {

  predicate Divides(d: nat, n: nat)
    requires d > 0
  {
    n % d == 0
  }

  predicate IsPrime(n: nat) {
    n >= 2 && forall d | 2 <= d < n :: !Divides(d, n)
  }

  /** No divisor but 1 below k. */
  predicate NoDivisorBelow(n: nat, k: nat) {
    forall d | 2 <= d < k :: !Divides(d, n)
  }

  lemma QuotientDivides(d: nat, n: nat, q: nat)
    requires d > 0 && n == d * q
    ensures Divides(d, n)
    ensures n / d == q
  {
    assert (d * q) % d == 0 by { ModOfMultiple(d, q, 0); }
  }

  lemma MulGrows(a: int, b: int, d: nat)
    requires a <= b
    ensures d * a <= d * b
  {
  }

  /** The remainder of a multiple of d plus something small. */
  lemma {:induction false} ModOfMultiple(d: nat, q: int, r: int)
    requires 0 <= r < d
    ensures (d * q + r) % d == r && (d * q + r) / d == q
  {
    var n := d * q + r;
    assert n == d * (n / d) + n % d;
    if q < n / d { MulGrows(q + 1, n / d, d); }
    if n / d < q { MulGrows(n / d + 1, q, d); }
  }

  lemma DividesTransitive(d: nat, e: nat, n: nat)
    requires d > 0 && e > 0 && Divides(d, e) && Divides(e, n)
    ensures Divides(d, n)
  {
    var a, b := e / d, n / e;
    assert n == e * b == (d * a) * b == d * (a * b);
    QuotientDivides(d, n, a * b);
  }

  lemma QuotientIsDivisor(d: nat, n: nat)
    requires 2 <= d < n && Divides(d, n)
    ensures 2 <= n / d < n && Divides(n / d, n) && n == d * (n / d)
  {
    var e := n / d;
    assert n == d * e == e * d;
    QuotientDivides(e, n, d);
  }

  lemma RootBound(d: nat, e: nat, i: nat)
    requires i > 0 && d >= i && e >= i
    ensures (d * e) / i >= i
  {
    var n := d * e;
    MulGrows(i, e, d);
    MulGrows(i, d, i);
    assert n >= i * i;
    if n / i < i { MulGrows(n / i + 1, i, i); }
  }

  /** A number with no divisor up to its square root is prime. */
  lemma NoDivisorUpToRoot(n: nat, i: nat)
    requires n >= 2 && i > 0 && NoDivisorBelow(n, i) && n / i < i
    ensures IsPrime(n)
  {
    forall d | 2 <= d < n ensures !Divides(d, n) {
      if Divides(d, n) {
        QuotientIsDivisor(d, n);
        RootBound(d, n / d, i);
      }
    }
  }

  predicate HasProperDivisor(n: nat) {
    exists d | 2 <= d < n :: Divides(d, n)
  }

  /** Numbers that have a divisor themselves need not be tried as divisors. */
  lemma {:induction false} SkipComposites(n: nat, i: nat, j: nat)
    requires 2 <= i <= j && NoDivisorBelow(n, i)
    requires forall d | i <= d < j :: HasProperDivisor(d)
    ensures NoDivisorBelow(n, j)
    decreases j - i
  {
    if i < j {
      assert HasProperDivisor(i);
      var e :| 2 <= e < i && Divides(e, i);
      if Divides(i, n) { DividesTransitive(e, i, n); }
      SkipComposites(n, i + 1, j);
    }
  }

  // ----- there is always a larger prime

  function Factorial(n: nat): (f: nat)
    ensures f >= 1
  {
    if n == 0 then 1 else n * Factorial(n - 1)
  }

  lemma {:induction false} DividesFactorial(d: nat, n: nat)
    requires 1 <= d <= n
    ensures Divides(d, Factorial(n))
  {
    if d == n {
      QuotientDivides(d, Factorial(n), Factorial(n - 1));
    } else {
      DividesFactorial(d, n - 1);
      var f := Factorial(n - 1);
      assert Factorial(n) == n * (d * (f / d)) == d * (n * (f / d));
      QuotientDivides(d, Factorial(n), n * (f / d));
    }
  }

  lemma {:induction false} LeastDivisorIsPrime(n: nat, k: nat) returns (p: nat)
    requires n >= 2 && 2 <= k <= n && NoDivisorBelow(n, k)
    ensures IsPrime(p) && Divides(p, n) && k <= p <= n
    decreases n - k
  {
    if Divides(k, n) {
      p := k;
      forall d | 2 <= d < k ensures !Divides(d, k) {
        if Divides(d, k) { DividesTransitive(d, k, n); }
      }
    } else {
      assert k != n;
      p := LeastDivisorIsPrime(n, k + 1);
    }
  }

  lemma NextIsNotDivisible(d: nat, n: nat)
    requires d >= 2 && Divides(d, n)
    ensures !Divides(d, n + 1)
  {
    assert n == d * (n / d);
    ModOfMultiple(d, n / d, 1);
  }

  /** Euclid: some prime is at least n. */
  lemma PrimeAtLeast(n: nat) returns (p: nat)
    ensures IsPrime(p) && p >= n
  {
    var m := Factorial(n) + 1;
    p := LeastDivisorIsPrime(m, 2);
    if p < n {
      DividesFactorial(p, n);
      NextIsNotDivisible(p, Factorial(n));
    }
  }
}
