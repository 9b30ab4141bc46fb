/** The tables of __next_prime: the primes up to 211, and the numbers below 210 that are not divisible by 2, 3, 5 or 7. */
module PrimeTables {
  import opened Primes
  import opened Remainders

  const SMALL_PRIMES: seq<nat> :=
    [0, 2, 3, 5, 7, 11, 13, 17, 19, 23, 29, 31] +
    [37, 41, 43, 47, 53, 59, 61, 67, 71, 73, 79, 83] +
    [89, 97, 101, 103, 107, 109, 113, 127, 131, 137, 139, 149] +
    [151, 157, 163, 167, 173, 179, 181, 191, 193, 197, 199, 211]

  const INDICES: seq<nat> :=
    [1, 11, 13, 17, 19, 23, 29, 31, 37, 41, 43, 47] +
    [53, 59, 61, 67, 71, 73, 79, 83, 89, 97, 101, 103] +
    [107, 109, 113, 121, 127, 131, 137, 139, 143, 149, 151, 157] +
    [163, 167, 169, 173, 179, 181, 187, 191, 193, 197, 199, 209]

  /** What is added to the divisor after each of the 48 tests in one turn of the inner loop. */
  const STEPS: seq<nat> :=
    [10, 2, 4, 2, 4, 6, 2, 6, 4, 2, 4, 6] +
    [6, 2, 6, 4, 2, 6, 4, 6, 8, 4, 2, 4] +
    [2, 4, 8, 6, 4, 6, 2, 4, 6, 2, 6, 6] +
    [4, 2, 4, 6, 2, 6, 4, 2, 4, 2, 10, 2]

  const L: nat := 210

  /** A number that the search looks at: not divisible by 2, 3, 5 or 7. */
  predicate OnWheel(x: nat) {
    x % 2 != 0 && x % 3 != 0 && x % 5 != 0 && x % 7 != 0
  }

  // ----- the tables

  /** From a to b the search skips nothing that is on the wheel. */
  predicate Step(a: nat, s: nat, b: nat) {
    && a + s == b && (s == 2 || s == 4 || s == 6 || s == 8 || s == 10)
    && OnWheel(a) && !OnWheel(a + 1)
    && (s >= 4 ==> !OnWheel(a + 2) && !OnWheel(a + 3))
    && (s >= 6 ==> !OnWheel(a + 4) && !OnWheel(a + 5))
    && (s >= 8 ==> !OnWheel(a + 6) && !OnWheel(a + 7))
    && (s >= 10 ==> !OnWheel(a + 8) && !OnWheel(a + 9))
  }

  lemma StepSkips(a: nat, s: nat, b: nat, g: nat)
    requires Step(a, s, b) && 0 < g < s
    ensures !OnWheel(a + g)
  {
  }

  function NextIndex(t: nat): nat
    requires t < 48
  {
    if t < 47 then INDICES[t + 1] else L + 1
  }

  lemma StepTable(t: nat)
    requires t < 48
    ensures Step(INDICES[t], STEPS[t], NextIndex(t)) && INDICES[t] < L
  {
    if t < 1 {} else if t < 2 {} else if t < 3 {} else if t < 4 {} else if t < 5 {} else if t < 6 {} else if t < 7 {} else if t < 8 {}
    else if t < 9 {} else if t < 10 {} else if t < 11 {} else if t < 12 {} else if t < 13 {} else if t < 14 {} else if t < 15 {} else if t < 16 {}
    else if t < 17 {} else if t < 18 {} else if t < 19 {} else if t < 20 {} else if t < 21 {} else if t < 22 {} else if t < 23 {} else if t < 24 {}
    else if t < 25 {} else if t < 26 {} else if t < 27 {} else if t < 28 {} else if t < 29 {} else if t < 30 {} else if t < 31 {} else if t < 32 {}
    else if t < 33 {} else if t < 34 {} else if t < 35 {} else if t < 36 {} else if t < 37 {} else if t < 38 {} else if t < 39 {} else if t < 40 {}
    else if t < 41 {} else if t < 42 {} else if t < 43 {} else if t < 44 {} else if t < 45 {} else if t < 46 {} else if t < 47 {} else {}
  }

  /** The least factor of a composite number below 17 * 17. */
  predicate HasSmallFactor(x: nat) {
    (x > 2 && x % 2 == 0) || (x > 3 && x % 3 == 0) || (x > 5 && x % 5 == 0) ||
    (x > 7 && x % 7 == 0) || (x > 11 && x % 11 == 0) || (x > 13 && x % 13 == 0)
  }

  lemma PrimeEntry(j: nat)
    requires 1 <= j < 48
    ensures 2 <= SMALL_PRIMES[j] <= 211 && !HasSmallFactor(SMALL_PRIMES[j]) && (j < 47 ==> SMALL_PRIMES[j] < SMALL_PRIMES[j + 1])
  {
    if j < 12 {} else if j < 24 {} else if j < 36 {} else {}
  }

  /** Between a and b there are only composite numbers. */
  predicate Gap(a: nat, b: nat) {
    && b - a <= 14
    && (b > a + 1 ==> HasSmallFactor(a + 1))    && (b > a + 2 ==> HasSmallFactor(a + 2))
    && (b > a + 3 ==> HasSmallFactor(a + 3))    && (b > a + 4 ==> HasSmallFactor(a + 4))
    && (b > a + 5 ==> HasSmallFactor(a + 5))    && (b > a + 6 ==> HasSmallFactor(a + 6))
    && (b > a + 7 ==> HasSmallFactor(a + 7))    && (b > a + 8 ==> HasSmallFactor(a + 8))
    && (b > a + 9 ==> HasSmallFactor(a + 9))    && (b > a + 10 ==> HasSmallFactor(a + 10))
    && (b > a + 11 ==> HasSmallFactor(a + 11))    && (b > a + 12 ==> HasSmallFactor(a + 12))
    && (b > a + 13 ==> HasSmallFactor(a + 13))
  }

  lemma PrimeGap(j: nat)
    requires 1 <= j < 47
    ensures Gap(SMALL_PRIMES[j], SMALL_PRIMES[j + 1])
  {
    if j < 2 {} else if j < 3 {} else if j < 4 {} else if j < 5 {} else if j < 6 {} else if j < 7 {} else if j < 8 {} else if j < 9 {}
    else if j < 10 {} else if j < 11 {} else if j < 12 {} else if j < 13 {} else if j < 14 {} else if j < 15 {} else if j < 16 {} else if j < 17 {}
    else if j < 18 {} else if j < 19 {} else if j < 20 {} else if j < 21 {} else if j < 22 {} else if j < 23 {} else if j < 24 {} else if j < 25 {}
    else if j < 26 {} else if j < 27 {} else if j < 28 {} else if j < 29 {} else if j < 30 {} else if j < 31 {} else if j < 32 {} else if j < 33 {}
    else if j < 34 {} else if j < 35 {} else if j < 36 {} else if j < 37 {} else if j < 38 {} else if j < 39 {} else if j < 40 {} else if j < 41 {}
    else if j < 42 {} else if j < 43 {} else if j < 44 {} else if j < 45 {} else if j < 46 {} else {}
  }

  lemma SmallFactorDivides(x: nat)
    requires HasSmallFactor(x)
    ensures HasProperDivisor(x)
  {
    var d := if x > 2 && x % 2 == 0 then 2 else if x > 3 && x % 3 == 0 then 3 else if x > 5 && x % 5 == 0 then 5
      else if x > 7 && x % 7 == 0 then 7 else if x > 11 && x % 11 == 0 then 11 else 13;
    assert 2 <= d < x && Divides(d, x);
  }

  lemma SmallPrimeIsPrime(j: nat)
    requires 1 <= j < 48
    ensures IsPrime(SMALL_PRIMES[j])
  {
    var p := SMALL_PRIMES[j];
    PrimeEntry(j);
    forall d | 2 <= d < 17 && d < p ensures !Divides(d, p) {
      if Divides(d, p) {
        DividesTransitive(if d % 2 == 0 then 2 else if d % 3 == 0 then 3 else d, d, p);
      }
    }
    if p >= 17 { NoDivisorUpToRoot(p, 17); }
  }

  lemma GapIsComposite(a: nat, b: nat, g: nat)
    requires Gap(a, b) && 0 < g < b - a
    ensures HasSmallFactor(a + g)
  {
  }

  lemma SmallGapIsComposite(j: nat, x: nat)
    requires 1 <= j < 47 && SMALL_PRIMES[j] < x < SMALL_PRIMES[j + 1]
    ensures HasProperDivisor(x)
  {
    PrimeGap(j);
    GapIsComposite(SMALL_PRIMES[j], SMALL_PRIMES[j + 1], x - SMALL_PRIMES[j]);
    SmallFactorDivides(x);
  }

  /** A number above 7 that is not on the wheel is composite. */
  lemma OffWheelIsComposite(x: nat)
    requires x > 7 && !OnWheel(x)
    ensures HasProperDivisor(x)
  {
    SmallFactorDivides(x);
  }

  lemma WheelRepeats(x: nat, k: nat)
    ensures OnWheel(L * k + x) <==> OnWheel(x)
  {
    SameRemainder(2, 105 * k, x);
    SameRemainder(3, 70 * k, x);
    SameRemainder(5, 42 * k, x);
    SameRemainder(7, 30 * k, x);
  }

  /** Position t in turn k is on the wheel, and nothing between it and the next position is. */
  lemma WheelStep(k: nat, t: nat)
    requires t < 48
    ensures OnWheel(L * k + INDICES[t])
    ensures L * k + INDICES[t] + STEPS[t] == L * k + NextIndex(t) && 0 < STEPS[t] <= 10
    ensures forall x | L * k + INDICES[t] < x < L * k + NextIndex(t) :: !OnWheel(x)
  {
    StepTable(t);
    WheelRepeats(INDICES[t], k);
    forall x | L * k + INDICES[t] < x < L * k + NextIndex(t) ensures !OnWheel(x) {
      var g := x - (L * k + INDICES[t]);
      StepSkips(INDICES[t], STEPS[t], NextIndex(t), g);
      WheelRepeats(INDICES[t] + g, k);
    }
  }
}
