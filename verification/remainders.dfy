/** Remainders of sums and products. */
module Remainders {
  import opened Primes

  lemma Distribute(a: int, b: int, c: int)
    ensures a * (b + c) == a * b + a * c
  {
  }

  lemma {:induction false} SameRemainder(m: nat, q: int, r: int)
    requires m > 0
    ensures (m * q + r) % m == r % m
  {
    Distribute(m, q, r / m);
    ModOfMultiple(m, q + r / m, r % m);
  }

  lemma RemainderOfSum(m: nat, a: int, b: int)
    requires m > 0
    ensures (a + b) % m == (a % m + b) % m == (a % m + b % m) % m
  {
    var q, r, s, t := a / m, a % m, b / m, b % m;
    assert a + b == m * q + (r + b) && r + b == m * s + (r + t);
    SameRemainder(m, q, r + b);
    SameRemainder(m, s, r + t);
  }

  lemma RemainderOfDifference(m: nat, a: int, b: int)
    requires m > 0
    ensures (a - b) % m == (a % m - b % m) % m
  {
    Distribute(m, a / m, -(b / m));
    SameRemainder(m, a / m - b / m, a % m - b % m);
  }

  lemma RemainderOfProduct(m: nat, a: int, b: int)
    requires m > 0
    ensures (a * b) % m == (a % m * b) % m == (a % m * (b % m)) % m
  {
    var q, r, s, t := a / m, a % m, b / m, b % m;
    assert a * b == m * (q * b) + r * b by { Distribute(b, m * q, r); assert b * (m * q) == m * (q * b); }
    SameRemainder(m, q * b, r * b);
    assert r * b == m * (r * s) + r * t by { Distribute(r, m * s, t); assert r * (m * s) == m * (r * s); }
    SameRemainder(m, r * s, r * t);
  }
}
