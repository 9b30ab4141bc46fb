/** Prime divisors of products, and Fermat's little theorem. */
module Fermat {
  import opened Primes
  import opened Remainders

  // ----- a prime that divides a product divides a factor

  lemma DividesSum(d: nat, a: nat, b: nat)
    requires d > 0 && Divides(d, a)
    ensures Divides(d, a + b) <==> Divides(d, b)
  {
    RemainderOfSum(d, a, b);
  }

  lemma DividesProduct(d: nat, a: nat, b: nat)
    requires d > 0 && Divides(d, a)
    ensures Divides(d, a * b) && Divides(d, b * a)
  {
    assert a * b == (d * (a / d)) * b == d * ((a / d) * b);
    QuotientDivides(d, a * b, (a / d) * b);
  }

  /** The least k with p | k * b. */
  lemma {:induction false} LeastMultiplier(p: nat, b: nat, k: nat) returns (least: nat)
    requires p >= 1 && k >= 1 && Divides(p, k * b)
    ensures 1 <= least <= k && Divides(p, least * b)
    ensures forall j | 1 <= j < least :: !Divides(p, j * b)
    decreases k
  {
    if j :| 1 <= j < k && Divides(p, j * b) {
      least := LeastMultiplier(p, b, j);
    } else {
      least := k;
    }
  }

  lemma LeastMultiplierDivides(p: nat, b: nat, least: nat, k: nat)
    requires p >= 1 && least >= 1 && Divides(p, least * b) && Divides(p, k * b)
    requires forall j | 1 <= j < least :: !Divides(p, j * b)
    ensures Divides(least, k)
  {
    var q, r := k / least, k % least;
    assert k * b == (least * q + r) * b == q * (least * b) + r * b;
    DividesProduct(p, least * b, q);
    DividesSum(p, q * (least * b), r * b);
  }

  lemma DivisorOfPrime(p: nat, d: nat)
    requires IsPrime(p) && d >= 1 && Divides(d, p)
    ensures d == 1 || d == p
  {
    if d > p { ModOfMultiple(d, 0, p); }
  }

  lemma PrimeDividesFactor(p: nat, a: nat, b: nat)
    requires IsPrime(p) && a >= 1 && Divides(p, a * b)
    ensures Divides(p, a) || Divides(p, b)
  {
    var k := LeastMultiplier(p, b, a);
    QuotientDivides(p, p, 1);
    DividesProduct(p, p, b);
    LeastMultiplierDivides(p, b, k, a);
    LeastMultiplierDivides(p, b, k, p);
    DivisorOfPrime(p, k);
    if k == 1 { assert 1 * b == b; }
  }

  // ----- powers

  function Pow(b: nat, e: nat): nat {
    if e == 0 then 1 else b * Pow(b, e - 1)
  }

  lemma {:induction false} PowSum(b: nat, d: nat, e: nat)
    ensures Pow(b, d + e) == Pow(b, d) * Pow(b, e)
  {
    if d > 0 {
      PowSum(b, d - 1, e);
      assert b * (Pow(b, d - 1) * Pow(b, e)) == b * Pow(b, d - 1) * Pow(b, e);
    }
  }

  lemma {:induction false} PowPositive(b: nat, e: nat)
    requires b >= 1
    ensures Pow(b, e) >= 1
  {
    if e > 0 { PowPositive(b, e - 1); }
  }

  // ----- binomial coefficients

  function Choose(n: nat, k: nat): nat {
    if k == 0 then 1 else if n == 0 then 0 else Choose(n - 1, k - 1) + Choose(n - 1, k)
  }

  lemma {:induction false} ChooseBeyond(n: nat, k: nat)
    requires k > n
    ensures Choose(n, k) == 0
  {
    if n > 0 { ChooseBeyond(n - 1, k - 1); ChooseBeyond(n - 1, k); }
  }

  lemma {:induction false} ChooseAll(n: nat)
    ensures Choose(n, n) == 1
  {
    if n > 0 { ChooseAll(n - 1); ChooseBeyond(n - 1, n); }
  }

  lemma Assemble(k: int, n: int, a: int, b: int, c: int, d: int)
    requires a == c + d && k * b == (n - 1) * d && (k - 1) * a == (n - 1) * c
    ensures k * (a + b) == n * a
  {
    assert (n - 1) * a == (n - 1) * c + (n - 1) * d by { Distribute(n - 1, c, d); }
    assert k * (a + b) == k * a + k * b by { Distribute(k, a, b); }
    assert k * a == (k - 1) * a + a;
    assert n * a == (n - 1) * a + a;
  }

  lemma {:induction false} ChooseSymmetric(n: nat, k: nat)
    requires n >= 1 && k >= 1
    ensures k * Choose(n, k) == n * Choose(n - 1, k - 1)
    decreases n
  {
    var a, b := Choose(n - 1, k - 1), Choose(n - 1, k);
    assert Choose(n, k) == a + b;
    if n == 1 {
      if k > 1 { ChooseBeyond(0, k - 1); }
      ChooseBeyond(0, k);
      assert k == 1 ==> a == 1 && k * (a + b) == 1;
    } else {
      ChooseSymmetric(n - 1, k);
      if k >= 2 {
        ChooseSymmetric(n - 1, k - 1);
        Assemble(k, n, a, b, Choose(n - 2, k - 2), Choose(n - 2, k - 1));
      } else {
        Assemble(k, n, a, b, 0, Choose(n - 2, 0));
      }
    }
  }

  lemma PrimeDividesChoose(p: nat, k: nat)
    requires IsPrime(p) && 0 < k < p
    ensures Divides(p, Choose(p, k))
  {
    ChooseSymmetric(p, k);
    QuotientDivides(p, k * Choose(p, k), Choose(p - 1, k - 1));
    PrimeDividesFactor(p, k, Choose(p, k));
    if Divides(p, k) { ModOfMultiple(p, 0, k); }
  }

  // ----- the binomial theorem, and what is left of it modulo a prime

  /** The first k terms of the expansion of (a + 1) ^ n. */
  function BinomialSum(n: nat, a: nat, k: nat): nat {
    if k == 0 then 0 else BinomialSum(n, a, k - 1) + Choose(n, k - 1) * Pow(a, k - 1)
  }

  lemma Split(c: int, d: int, a: int, x: int)
    ensures (c + d) * (a * x) == d * (a * x) + a * (c * x)
  {
    Distribute(a * x, c, d);
    assert a * (c * x) == c * (a * x);
  }

  lemma {:induction false} BinomialSumStep(n: nat, a: nat, k: nat)
    requires n >= 1
    ensures BinomialSum(n, a, k + 1) == BinomialSum(n - 1, a, k + 1) + a * BinomialSum(n - 1, a, k)
  {
    if k == 0 {
      assert BinomialSum(n, a, 0) == BinomialSum(n - 1, a, 0) == 0;
      assert Choose(n, 0) == Choose(n - 1, 0) == 1;
    } else {
      BinomialSumStep(n, a, k - 1);
      var c, d, x := Choose(n - 1, k - 1), Choose(n - 1, k), Pow(a, k - 1);
      var s, t := BinomialSum(n - 1, a, k), BinomialSum(n - 1, a, k - 1);
      BinomialTerms(n, a, k);
      Split(c, d, a, x);
      Distribute(a, t, c * x);
    }
  }

  /** The definitions, one term at a time. */
  lemma BinomialTerms(n: nat, a: nat, k: nat)
    requires n >= 1 && k >= 1
    ensures var c, d, x := Choose(n - 1, k - 1), Choose(n - 1, k), Pow(a, k - 1);
      && BinomialSum(n, a, k + 1) == BinomialSum(n, a, k) + (c + d) * (a * x)
      && BinomialSum(n - 1, a, k + 1) == BinomialSum(n - 1, a, k) + d * (a * x)
      && BinomialSum(n - 1, a, k) == BinomialSum(n - 1, a, k - 1) + c * x
  {
    assert Pow(a, k) == a * Pow(a, k - 1);
    assert Choose(n, k) == Choose(n - 1, k - 1) + Choose(n - 1, k);
  }

  lemma {:induction false} BinomialTheorem(n: nat, a: nat)
    ensures Pow(a + 1, n) == BinomialSum(n, a, n + 1)
  {
    if n == 0 {
      assert BinomialSum(0, a, 1) == BinomialSum(0, a, 0) + Choose(0, 0) * Pow(a, 0) == 1;
    } else {
      BinomialTheorem(n - 1, a);
      BinomialSumStep(n, a, n);
      ChooseBeyond(n - 1, n);
      var s := BinomialSum(n - 1, a, n);
      assert BinomialSum(n - 1, a, n + 1) == s + Choose(n - 1, n) * Pow(a, n) == s;
      assert (a + 1) * s == s + a * s;
    }
  }

  lemma {:induction false} BinomialSumModPrime(p: nat, a: nat, k: nat)
    requires IsPrime(p) && 1 <= k <= p
    ensures BinomialSum(p, a, k) % p == 1
  {
    if k == 1 {
      assert BinomialSum(p, a, 1) == BinomialSum(p, a, 0) + Choose(p, 0) * Pow(a, 0) == 1;
      ModOfMultiple(p, 0, 1);
    } else {
      BinomialSumModPrime(p, a, k - 1);
      PrimeDividesChoose(p, k - 1);
      DividesProduct(p, Choose(p, k - 1), Pow(a, k - 1));
      RemainderOfSum(p, BinomialSum(p, a, k - 1), Choose(p, k - 1) * Pow(a, k - 1));
      ModOfMultiple(p, 0, 1);
    }
  }

  // ----- Fermat

  lemma {:induction false} FermatPower(p: nat, a: nat)
    requires IsPrime(p)
    ensures Pow(a, p) % p == a % p
  {
    if a > 0 {
      var b := a - 1;
      FermatPower(p, b);
      BinomialTheorem(p, b);
      BinomialSumModPrime(p, b, p);
      ChooseAll(p);
      assert BinomialSum(p, b, p + 1) == BinomialSum(p, b, p) + 1 * Pow(b, p);
      RemainderOfSum(p, BinomialSum(p, b, p), Pow(b, p));
      RemainderOfSum(p, 1, b);
      ModOfMultiple(p, 0, 1);
    } else {
      assert Pow(0, p) == 0 * Pow(0, p - 1);
    }
  }

  lemma CancelRemainder(m: nat, a: nat, b: nat)
    requires m > 0 && (a + b) % m == b % m
    ensures Divides(m, a)
  {
    RemainderOfDifference(m, a + b, b);
    ModOfMultiple(m, 0, 0);
  }

  lemma CancelFactor(p: nat, a: nat, z: nat)
    requires IsPrime(p) && a >= 1 && !Divides(p, a) && z >= 1 && (a * z) % p == a % p
    ensures z % p == 1
  {
    assert a * z == a * (z - 1) + a by { Distribute(a, z - 1, 1); }
    CancelRemainder(p, a * (z - 1), a);
    PrimeDividesFactor(p, a, z - 1);
    RemainderOfSum(p, z - 1, 1);
    ModOfMultiple(p, 0, 1);
  }

  lemma LittleTheorem(p: nat, a: nat)
    requires IsPrime(p) && a >= 1 && !Divides(p, a)
    ensures Pow(a, p - 1) % p == 1
  {
    FermatPower(p, a);
    PowPositive(a, p - 1);
    CancelFactor(p, a, Pow(a, p - 1));
  }
}
