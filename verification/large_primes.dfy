/** Pocklington's criterion, and the primality of the limits of next_prime. */
module LargePrimes {
  import opened Primes
  import opened Remainders
  import opened Fermat

  // ----- the order of a number modulo a prime

  lemma PowOfProduct(b: nat, e: nat, q: nat, m: nat)
    requires m >= 2 && Pow(b, e) % m == 1
    ensures Pow(b, e * q) % m == 1
    decreases q
  {
    if q == 0 {
      ModOfMultiple(m, 0, 1);
    } else {
      PowOfProduct(b, e, q - 1, m);
      Distribute(e, q - 1, 1);
      PowSum(b, e * (q - 1), e);
      RemainderOfProduct(m, Pow(b, e * (q - 1)), Pow(b, e));
      ModOfMultiple(m, 0, 1);
    }
  }

  /** The least exponent that gives 1. */
  lemma {:induction false} Order(b: nat, e: nat, m: nat) returns (least: nat)
    requires m >= 2 && e >= 1 && Pow(b, e) % m == 1
    ensures 1 <= least <= e && Pow(b, least) % m == 1
    ensures forall j | 1 <= j < least :: Pow(b, j) % m != 1
    decreases e
  {
    if j :| 1 <= j < e && Pow(b, j) % m == 1 {
      least := Order(b, j, m);
    } else {
      least := e;
    }
  }

  lemma OrderDivides(b: nat, least: nat, e: nat, m: nat)
    requires m >= 2 && least >= 1 && Pow(b, least) % m == 1 && Pow(b, e) % m == 1
    requires forall j | 1 <= j < least :: Pow(b, j) % m != 1
    ensures Divides(least, e)
  {
    var q, r := e / least, e % least;
    assert e == least * q + r;
    PowOfProduct(b, least, q, m);
    PowSum(b, least * q, r);
    RemainderOfProduct(m, Pow(b, least * q), Pow(b, r));
    assert 1 * Pow(b, r) == Pow(b, r);
  }

  // ----- Pocklington

  /** y has order r modulo n, and y - 1 is invertible: the proof is the inverse. */
  predicate HasOrder(n: nat, r: nat, y: nat, inverse: nat) {
    n >= 2 && y >= 1 && Pow(y, r) % n == 1 && ((y - 1) * inverse) % n == 1
  }

  lemma OneModDivisor(n: nat, p: nat, x: nat)
    requires n >= 2 && p >= 2 && Divides(p, n) && x % n == 1
    ensures x % p == 1
  {
    var q := n / p;
    assert x == n * (x / n) + 1 && n == p * q;
    assert n * (x / n) == p * (q * (x / n));
    ModOfMultiple(p, q * (x / n), 1);
  }

  /** Then every prime divisor of n is one more than a multiple of r. */
  lemma PrimeDivisorsAreOneMore(n: nat, r: nat, y: nat, inverse: nat, p: nat)
    requires HasOrder(n, r, y, inverse) && IsPrime(r) && IsPrime(p) && Divides(p, n)
    ensures Divides(r, p - 1)
  {
    OneModDivisor(n, p, Pow(y, r));
    OneModDivisor(n, p, (y - 1) * inverse);
    NotDivisible(p, y, r);
    LittleTheorem(p, y);
    var k := Order(y, r, p);
    OrderDivides(y, k, r, p);
    OrderDivides(y, k, p - 1, p);
    DivisorOfPrime(r, k);
    if k == 1 {
      assert Pow(y, 1) == y * Pow(y, 0) == y;
      OneMinusOne(p, y, inverse);
    }
  }

  /** What has a power that leaves 1 is not divisible. */
  lemma NotDivisible(p: nat, y: nat, r: nat)
    requires p >= 2 && r >= 1 && Pow(y, r) % p == 1
    ensures !Divides(p, y)
  {
    if Divides(p, y) { DividesProduct(p, y, Pow(y, r - 1)); }
  }

  lemma OneMinusOne(p: nat, y: nat, inverse: nat)
    requires p >= 2 && y >= 1 && y % p == 1
    ensures ((y - 1) * inverse) % p == 0
  {
    RemainderOfDifference(p, y, 1);
    ModOfMultiple(p, 0, 1);
    ModOfMultiple(p, 0, 0);
    DividesProduct(p, y - 1, inverse);
  }

  /** A number is prime if all its prime divisors are above its square root. */
  lemma LargeDivisorsOnly(n: nat, bound: nat)
    requires n >= 2 && bound > 0 && n / bound < bound
    requires forall p: nat | IsPrime(p) && Divides(p, n) :: p >= bound
    ensures IsPrime(n)
  {
    if !IsPrime(n) {
      var d :| 2 <= d < n && Divides(d, n);
      var e := LeastDivisorIsPrime(d, 2);
      DividesTransitive(e, d, n);
      QuotientIsDivisor(d, n);
      var f := LeastDivisorIsPrime(n / d, 2);
      DividesTransitive(f, n / d, n);
      RootBound(d, n / d, bound);
    }
  }

  // ----- powers by squaring

  /** y to the power of e leaves v modulo n. */
  predicate Leaves(n: nat, y: nat, e: nat, v: nat)
    requires n > 0
  {
    Pow(y, e) % n == v
  }

  lemma Start(n: nat, y: nat)
    requires 1 <= y < n
    ensures Leaves(n, y, 1, y)
  {
    assert Pow(y, 1) == y * Pow(y, 0) == y;
    ModOfMultiple(n, 0, y);
  }

  /** The next bit of the exponent is 0; q and w are quotient and remainder of the square. */
  lemma Square(n: nat, y: nat, e: nat, v: nat, q: nat, w: nat)
    requires n > 0 && Leaves(n, y, e, v) && v * v == n * q + w && w < n
    ensures Leaves(n, y, 2 * e, w)
  {
    PowSum(y, e, e);
    RemainderOfProduct(n, Pow(y, e), Pow(y, e));
    ModOfMultiple(n, q, w);
  }

  /** The next bit is 1. */
  lemma SquareTimes(n: nat, y: nat, e: nat, v: nat, q: nat, t: nat, s: nat, w: nat)
    requires n > 0 && Leaves(n, y, e, v) && v * v == n * q + t && t < n && t * y == n * s + w && w < n
    ensures Leaves(n, y, 2 * e + 1, w)
  {
    Square(n, y, e, v, q, t);
    assert Pow(y, 2 * e + 1) == y * Pow(y, 2 * e) == Pow(y, 2 * e) * y;
    RemainderOfProduct(n, Pow(y, 2 * e), y);
    ModOfMultiple(n, s, w);
  }

  lemma Ordered(n: nat, r: nat, y: nat, inverse: nat, q: nat)
    requires n >= 2 && y >= 1 && Leaves(n, y, r, 1) && (y - 1) * inverse == n * q + 1
    ensures HasOrder(n, r, y, inverse)
  {
    ModOfMultiple(n, q, 1);
  }

  /** A prime divisor that is one more than a multiple of a, and of a prime b that does not divide a, is one more than one of a * b. */
  lemma BothDivide(a: nat, b: nat, m: nat)
    requires a >= 1 && IsPrime(b) && Divides(a, m) && Divides(b, m) && !Divides(b, a)
    ensures Divides(a * b, m)
  {
    var q := m / a;
    assert m == a * q;
    PrimeDividesFactor(b, a, q);
    assert q == b * (q / b);
    assert m == a * (b * (q / b)) == a * b * (q / b);
    assert a * b > 0;
    QuotientDivides(a * b, m, q / b);
  }
}
