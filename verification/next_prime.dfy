/** __next_prime: the least prime that is not less than a number, by trial division with the numbers
    that are not divisible by 2, 3, 5 or 7. */
module NextPrimeSearch {
  import opened Primes
  import opened PrimeTables
  import PrimeCertificates

  // ----- the specification

  /** r is the least prime that is not less than n. */
  predicate IsNextPrime(n: nat, r: nat) {
    IsPrime(r) && n <= r && NoPrimeIn(n, r)
  }

  predicate NoPrimeIn(a: nat, b: nat) {
    forall x | a <= x < b :: !IsPrime(x)
  }

  /** The first entry that is not less than v, as std::lower_bound finds it in a sorted table. */
  function LowerBound(s: seq<nat>, v: nat): (i: nat)
    ensures i <= |s| && (forall k | 0 <= k < i :: s[k] < v) && (i < |s| ==> v <= s[i])
  {
    if |s| == 0 || v <= s[0] then 0 else 1 + LowerBound(s[1..], v)
  }

  lemma SmallCase(n: nat)
    requires 0 < n <= 211
    ensures var i := LowerBound(SMALL_PRIMES, n); 0 < i < 48 && IsNextPrime(n, SMALL_PRIMES[i])
  {
    var i := LowerBound(SMALL_PRIMES, n);
    assert SMALL_PRIMES[47] == 211 && SMALL_PRIMES[0] == 0 && SMALL_PRIMES[1] == 2;
    SmallPrimeIsPrime(i);
    forall x | n <= x < SMALL_PRIMES[i] ensures !IsPrime(x) {
      if i > 1 {
        assert SMALL_PRIMES[i - 1] < n;
        SmallGapIsComposite(i - 1, x);
      }
    }
  }

  // ----- the search

  /** The width of size_t. */
  datatype Width = Bits32 | Bits64

  function Modulus(w: Width): nat {
    match w case Bits32 => 0x1_0000_0000 case Bits64 => 0x1_0000_0000_0000_0000
  }

  /** The largest number that passes the overflow check. */
  function Limit(w: Width): nat {
    match w case Bits32 => 0xFFFFFFFB case Bits64 => 0xFFFFFFFFFFFFFFC5
  }

  lemma LimitIsPrime(w: Width)
    ensures IsPrime(Limit(w))
  {
    match w
    case Bits32 => PrimeCertificates.Limit32();
    case Bits64 => PrimeCertificates.Limit64();
  }

  function Wrap(w: Width, x: nat): nat { x % Modulus(w) }

  datatype Result = Found(prime: nat) | Overflow

  datatype Trial = Prime | Composite | Open

  lemma NoSmallDivisor(n: nat)
    requires OnWheel(n)
    ensures NoDivisorBelow(n, 11)
  {
    forall d | 2 <= d < 11 ensures !Divides(d, n) {
      if Divides(d, n) {
        DividesTransitive(if d % 2 == 0 then 2 else if d % 3 == 0 then 3 else d, d, n);
      }
    }
  }

  lemma ProductIsComposite(n: nat, i: nat)
    requires i >= 2 && n / i >= i && n == (n / i) * i
    ensures !IsPrime(n)
  {
    QuotientDivides(i, n, n / i);
    assert n >= 2 * i;
    assert Divides(i, n);
  }

  lemma NotProductNotDivisor(n: nat, i: nat)
    requires i > 0 && n != (n / i) * i
    ensures !Divides(i, n)
  {
  }

  /** Divides n by the small primes from 11 on. */
  method TrySmallPrimes(n: nat) returns (t: Trial)
    requires n > 211 && OnWheel(n)
    ensures t == Prime ==> IsPrime(n)
    ensures t == Composite ==> !IsPrime(n)
    ensures t == Open ==> NoDivisorBelow(n, 211)
  {
    NoSmallDivisor(n);
    assert SMALL_PRIMES[5] == 11 && SMALL_PRIMES[47] == 211;
    for j := 5 to 47
      invariant NoDivisorBelow(n, SMALL_PRIMES[j])
    {
      var p := SMALL_PRIMES[j];
      PrimeEntry(j);
      var q := n / p;
      if q < p {
        NoDivisorUpToRoot(n, p);
        return Prime;
      }
      if n == q * p {
        ProductIsComposite(n, p);
        return Composite;
      }
      NotProductNotDivisor(n, p);
      forall x | p < x < SMALL_PRIMES[j + 1] ensures HasProperDivisor(x) { SmallGapIsComposite(j, x); }
      SkipComposites(n, p + 1, SMALL_PRIMES[j + 1]);
    }
    return Open;
  }

  /** Where turn k of the inner loop is before test s. */
  function Position(k: nat, s: nat): nat
    requires s <= 48
  {
    L * k + (if s < 48 then INDICES[s] else L + 1)
  }

  lemma PositionStep(k: nat, s: nat)
    requires s < 48
    ensures Position(k, s + 1) == Position(k, s) + STEPS[s] && 0 < STEPS[s] <= 10
    ensures forall x | Position(k, s) < x < Position(k, s + 1) :: !OnWheel(x)
  {
    WheelStep(k, s);
  }

  lemma NoWrap(w: Width, x: nat)
    requires x < Modulus(w)
    ensures Wrap(w, x) == x
  {
    ModOfMultiple(Modulus(w), 0, x);
  }

  /** After a failed test no divisor is skipped on the way to the next one. */
  lemma NextDivisor(n: nat, w: Width, k: nat, s: nat)
    requires s < 48 && n < Modulus(w)
    requires var i := Position(k, s); i >= 211 && NoDivisorBelow(n, i) && n / i >= i && n != (n / i) * i
    ensures var i, j := Position(k, s), Position(k, s + 1);
      Wrap(w, i + STEPS[s]) == j && i < j <= n && NoDivisorBelow(n, j)
  {
    var i, j := Position(k, s), Position(k, s + 1);
    PositionStep(k, s);
    RootIsSmaller(n, i);
    NoWrap(w, j);
    NotProductNotDivisor(n, i);
    forall x | i + 1 <= x < j ensures HasProperDivisor(x) { OffWheelIsComposite(x); }
    SkipComposites(n, i + 1, j);
  }

  /** Divides n by the numbers on the wheel from 211 on. */
  method TryWheel(n: nat, w: Width) returns (t: Trial)
    requires 211 < n < Modulus(w) && OnWheel(n) && NoDivisorBelow(n, 211)
    ensures t == (if IsPrime(n) then Prime else Composite)
  {
    var i := 211;
    ghost var turn := 1;
    assert INDICES[0] == 1;
    while true
      invariant i == Position(turn, 0) && 211 <= i <= n && NoDivisorBelow(n, i)
      decreases n - i
    {
      ghost var i0 := i;
      for s := 0 to 48
        invariant i == Position(turn, s) && 211 <= i <= n && NoDivisorBelow(n, i)
        invariant if s == 0 then i == i0 else i0 < i
      {
        var q := n / i;
        if q < i {
          NoDivisorUpToRoot(n, i);
          return Prime;
        }
        if n == q * i {
          ProductIsComposite(n, i);
          return Composite;
        }
        NextDivisor(n, w, turn, s);
        i := Wrap(w, i + STEPS[s]);
      }
      assert INDICES[0] == 1 && Position(turn, 48) == Position(turn + 1, 0);
      turn := turn + 1;
    }
  }

  lemma RootIsSmaller(n: nat, i: nat)
    requires i >= 211 && n / i >= i
    ensures i + 10 <= n
  {
    MulGrows(i, n / i, i);
    MulGrows(211, i, i);
    assert n >= i * (n / i) >= i * i >= i * 211;
  }

  // ----- the candidates

  lemma {:induction false} SkippedAreComposite(k: nat, t: nat)
    requires t < 48 && k >= 1
    ensures NoPrimeIn(L * k + INDICES[t] + 1, L * k + NextIndex(t))
  {
    WheelStep(k, t);
    forall x | L * k + INDICES[t] + 1 <= x < L * k + NextIndex(t) ensures !IsPrime(x) { OffWheelIsComposite(x); }
  }

  /** The first candidate: no prime lies between n and it. */
  lemma FirstCandidate(n: nat, k: nat, r: nat, t: nat)
    requires n > 211 && n == L * k + r && r < L && t == LowerBound(INDICES, r)
    ensures k >= 1 && t < 48 && L * k + INDICES[t] >= n && NoPrimeIn(n, L * k + INDICES[t])
  {
    assert INDICES[47] == 209 && INDICES[0] == 1;
    if t > 0 {
      SkippedAreComposite(k, t - 1);
      assert INDICES[t - 1] < r;
    } else {
      forall x | n <= x < L * k + 1 ensures !IsPrime(x) {
        WheelRepeats(0, k);
        OffWheelIsComposite(x);
      }
    }
  }

  /** No candidate can pass the limit while there is no prime up to it. */
  lemma Fits(n: nat, next: nat, w: Width)
    requires n <= Limit(w) && NoPrimeIn(n, next)
    ensures next <= Limit(w) && Wrap(w, next) == next
  {
    LimitIsPrime(w);
    NoWrap(w, next);
  }

  /**
   * Without a word to overflow the search ends as well: some prime that is at least n is never passed while no prime
   * was met.
   */
  lemma SearchIsBounded(n: nat) returns (bound: nat)
    ensures bound >= n && IsPrime(bound)
    ensures forall next: nat | NoPrimeIn(n, next) :: next <= bound
  {
    bound := PrimeAtLeast(n);
  }

  /** The candidate after a composite one fits, and no prime lies between them. */
  lemma NextCandidate(n: nat, w: Width, k: nat, t: nat)
    requires t < 48 && k >= 1 && n == L * k + INDICES[t] && n <= Limit(w)
    requires !IsPrime(n)
    ensures var next := L * k + NextIndex(t);
      n < next <= Limit(w) && Wrap(w, next) == next && NoPrimeIn(n, next)
  {
    WheelStep(k, t);
    SkippedAreComposite(k, t);
    Fits(n, L * k + NextIndex(t), w);
  }

  /** The candidate after a composite one: the next index, in the next plane after the last one. */
  method Advance(n0: nat, w: Width, k0: nat, i0: nat) returns (n: nat, k: nat, i: nat)
    requires i0 < 48 && k0 >= 1 && n0 == L * k0 + INDICES[i0] && n0 <= Limit(w) && !IsPrime(n0)
    ensures k >= 1 && i < 48 && n == L * k + INDICES[i] && n0 < n <= Limit(w) && NoPrimeIn(n0, n)
  {
    NextCandidate(n0, w, k0, i0);
    k, i := k0, i0 + 1;
    if i == 48 {
      k, i := k + 1, 0;
      assert INDICES[0] == 1;
    }
    assert L * k + INDICES[i] == L * k0 + NextIndex(i0);
    n := Wrap(w, L * k + INDICES[i]);
  }

  lemma CandidateIsOnWheel(k: nat, t: nat)
    requires t < 48
    ensures OnWheel(L * k + INDICES[t])
  {
    WheelStep(k, t);
  }

  method TrialDivision(n: nat, w: Width) returns (prime: bool)
    requires 211 < n < Modulus(w) && OnWheel(n)
    ensures prime == IsPrime(n)
  {
    var t := TrySmallPrimes(n);
    if t == Open {
      t := TryWheel(n, w);
    }
    return t == Prime;
  }

  /** Returns the least prime that is not less than n0, or reports that it may not fit. */
  method NextPrime(n0: nat, w: Width) returns (r: Result)
    requires n0 < Modulus(w)
    ensures n0 == 0 ==> r == Found(0)
    ensures 0 < n0 <= Limit(w) ==> r.Found? && IsNextPrime(n0, r.prime)
    ensures n0 > Limit(w) ==> r == Overflow
  {
    if n0 <= SMALL_PRIMES[47] {
      if n0 > 0 { SmallCase(n0); }
      return Found(SMALL_PRIMES[LowerBound(SMALL_PRIMES, n0)]);
    }
    if n0 > Limit(w) {
      return Overflow;
    }
    var n := SearchCandidates(n0, w);
    return Found(n);
  }

  lemma FirstFits(n: nat, w: Width, k: nat, r: nat, t: nat)
    requires 211 < n <= Limit(w) && n == L * k + r && r < L && t == LowerBound(INDICES, r)
    ensures k >= 1 && t < 48 && NoPrimeIn(n, L * k + INDICES[t])
    ensures n <= L * k + INDICES[t] <= Limit(w) && Wrap(w, L * k + INDICES[t]) == L * k + INDICES[t]
  {
    FirstCandidate(n, k, r, t);
    Fits(n, L * k + INDICES[t], w);
  }

  /** The first candidate that is not less than n0. */
  method Begin(n0: nat, w: Width) returns (n: nat, k: nat, i: nat)
    requires 211 < n0 <= Limit(w)
    ensures k >= 1 && i < 48 && n == L * k + INDICES[i] && n0 <= n <= Limit(w) && NoPrimeIn(n0, n)
  {
    k := n0 / L;
    var r := n0 - k * L;
    i := LowerBound(INDICES, r);
    FirstFits(n0, w, k, r, i);
    n := Wrap(w, L * k + INDICES[i]);
  }

  method SearchCandidates(n0: nat, w: Width) returns (n: nat)
    requires 211 < n0 <= Limit(w)
    ensures IsNextPrime(n0, n)
  {
    var k0, i;
    n, k0, i := Begin(n0, w);
    while true
      invariant k0 >= 1 && i < 48 && n == L * k0 + INDICES[i] && n0 <= n <= Limit(w)
      invariant NoPrimeIn(n0, n)
      decreases Limit(w) - n
    {
      CandidateIsOnWheel(k0, i);
      var prime := TrialDivision(n, w);
      if prime {
        return;
      }
      n, k0, i := Advance(n, w, k0, i);
    }
  }
}
