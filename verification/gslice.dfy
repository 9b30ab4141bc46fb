/** The indices of a generalized slice, counted through like an odometer. */
module GeneralizedSlice {
  import opened Primes
  import opened Remainders

  // ----- numbers in mixed radix, the most significant digit first

  function Product(size: seq<nat>): nat {
    if size == [] then 1 else size[0] * Product(size[1..])
  }

  predicate AreDigits(a: seq<nat>, size: seq<nat>) {
    |a| == |size| && forall i | 0 <= i < |a| :: a[i] < size[i]
  }

  function Number(a: seq<nat>, size: seq<nat>): nat
    requires |a| == |size|
  {
    if a == [] then 0 else a[0] * Product(size[1..]) + Number(a[1..], size[1..])
  }

  /** The digits of k: what [class.gslice] of ISO C++ calls the indices, in row-major order. */
  function Digits(k: nat, size: seq<nat>): (a: seq<nat>)
    ensures |a| == |size|
  {
    if size == [] then []
    else
      var w := Product(size[1..]);
      if w == 0 then seq(|size|, _ => 0) else [k / w] + Digits(k % w, size[1..])
  }

  function Dot(stride: seq<nat>, a: seq<nat>): nat
    requires |stride| == |a|
  {
    if a == [] then 0 else stride[0] * a[0] + Dot(stride[1..], a[1..])
  }

  lemma OneMore(n: nat, w: nat)
    ensures w * (n + 1) == (n + 1) * w == n * w + w
  {
  }

  lemma {:induction false} NumberBelow(a: seq<nat>, size: seq<nat>)
    requires AreDigits(a, size)
    ensures Number(a, size) < Product(size)
  {
    if a != [] {
      NumberBelow(a[1..], size[1..]);
      OneMore(a[0], Product(size[1..]));
      MulGrows(a[0] + 1, size[0], Product(size[1..]));
      assert size[0] * Product(size[1..]) == Product(size[1..]) * size[0];
    }
  }

  /** Digits and their number determine each other. */
  lemma {:induction false} DigitsOfNumber(a: seq<nat>, size: seq<nat>)
    requires AreDigits(a, size)
    ensures Digits(Number(a, size), size) == a
  {
    if a != [] {
      var w, r := Product(size[1..]), Number(a[1..], size[1..]);
      NumberBelow(a[1..], size[1..]);
      ModOfMultiple(w, a[0], r);
      assert a[0] * w == w * a[0];
      DigitsOfNumber(a[1..], size[1..]);
    }
  }

  lemma {:induction false} NumberOfDigits(k: nat, size: seq<nat>)
    requires k < Product(size)
    ensures AreDigits(Digits(k, size), size) && Number(Digits(k, size), size) == k
  {
    if size != [] {
      var w := Product(size[1..]);
      QuotientBelow(k, w, size[0]);
      NumberOfDigits(k % w, size[1..]);
      assert Digits(k, size)[1..] == Digits(k % w, size[1..]);
    }
  }

  lemma QuotientBelow(k: nat, w: nat, n: nat)
    requires k < n * w
    ensures w > 0 && k / w < n && k % w < w && k / w * w + k % w == k
  {
    assert w > 0;
    if k / w >= n { MulGrows(n, k / w, w); }
  }

  // ----- adding one

  predicate AreLast(a: seq<nat>, size: seq<nat>) {
    |a| == |size| && forall i | 0 <= i < |a| :: a[i] + 1 == size[i]
  }

  predicate AreZero(a: seq<nat>) {
    forall i | 0 <= i < |a| :: a[i] == 0
  }

  lemma {:induction false} LastNumber(a: seq<nat>, size: seq<nat>)
    requires AreLast(a, size)
    ensures Number(a, size) + 1 == Product(size)
  {
    if a != [] {
      LastNumber(a[1..], size[1..]);
      OneMore(a[0], Product(size[1..]));
    }
  }

  lemma {:induction false} ZeroNumber(a: seq<nat>, size: seq<nat>, stride: seq<nat>)
    requires |a| == |size| == |stride| && AreZero(a)
    ensures Number(a, size) == 0 && Dot(stride, a) == 0
  {
    if a != [] { ZeroNumber(a[1..], size[1..], stride[1..]); }
  }

  /** b is a with digit i one more, and the digits after it, which were the last, back to zero. */
  predicate IsNext(a: seq<nat>, b: seq<nat>, size: seq<nat>, i: nat) {
    && i < |a| == |b| == |size| && a[..i] == b[..i] && b[i] == a[i] + 1
    && AreLast(a[i + 1..], size[i + 1..]) && AreZero(b[i + 1..])
  }

  lemma {:induction false} NextNumber(a: seq<nat>, b: seq<nat>, size: seq<nat>, i: nat)
    requires IsNext(a, b, size, i)
    ensures Number(b, size) == Number(a, size) + 1
    decreases i
  {
    if i == 0 {
      LastNumber(a[1..], size[1..]);
      ZeroNumber(b[1..], size[1..], b[1..]);
      OneMore(a[0], Product(size[1..]));
    } else {
      assert a[0] == a[..i][0] == b[..i][0] == b[0];
      assert a[1..][..i - 1] == a[..i][1..] == b[..i][1..] == b[1..][..i - 1];
      assert a[1..][i..] == a[i + 1..] && b[1..][i..] == b[i + 1..] && size[1..][i..] == size[i + 1..];
      NextNumber(a[1..], b[1..], size[1..], i - 1);
    }
  }

  /** What the digits after i contribute at most. */
  function Rest(stride: seq<nat>, size: seq<nat>, i: nat): int
    requires i <= |stride| == |size|
    decreases |size| - i
  {
    if i == |size| then 0 else stride[i] * (size[i] - 1) + Rest(stride, size, i + 1)
  }

  lemma {:induction false} RestIsDot(stride: seq<nat>, a: seq<nat>, size: seq<nat>, i: nat)
    requires i <= |a| == |stride| == |size| && AreLast(a[i..], size[i..])
    ensures Dot(stride[i..], a[i..]) == Rest(stride, size, i)
    decreases |a| - i
  {
    if i < |a| {
      assert a[i..][1..] == a[i + 1..] && stride[i..][1..] == stride[i + 1..] && size[i..][1..] == size[i + 1..];
      assert a[i..][0] + 1 == size[i..][0];
      RestIsDot(stride, a, size, i + 1);
    }
  }

  lemma {:induction false} NextDot(stride: seq<nat>, a: seq<nat>, b: seq<nat>, size: seq<nat>, i: nat)
    requires IsNext(a, b, size, i) && |stride| == |a|
    ensures Dot(stride, b) == Dot(stride, a) + stride[i] - Rest(stride, size, i + 1)
    decreases i
  {
    if i == 0 {
      RestIsDot(stride, a, size, 1);
      ZeroNumber(b[1..], size[1..], stride[1..]);
      OneMore(a[0], stride[0]);
    } else {
      assert a[0] == a[..i][0] == b[..i][0] == b[0];
      assert a[1..][..i - 1] == a[..i][1..] == b[..i][1..] == b[1..][..i - 1];
      assert a[1..][i..] == a[i + 1..] && b[1..][i..] == b[i + 1..] && size[1..][i..] == size[i + 1..];
      NextDot(stride[1..], a[1..], b[1..], size[1..], i - 1);
      RestOfRest(stride, size, i);
    }
  }

  lemma {:induction false} RestOfRest(stride: seq<nat>, size: seq<nat>, i: nat)
    requires 1 <= i < |stride| == |size|
    ensures Rest(stride[1..], size[1..], i) == Rest(stride, size, i + 1)
    decreases |size| - i
  {
    if i + 1 < |size| { RestOfRest(stride, size, i + 1); }
  }

  // ----- counting through

  /** One more than the largest size_t. */
  const MODULUS: nat := 0x1_0000_0000_0000_0000

  function Wrap(x: int): nat { x % MODULUS }

  /** v is entry k of the slice, where a are the digits of k. */
  predicate IsEntry(v: nat, a: seq<nat>, k: nat, start: nat, size: seq<nat>, stride: seq<nat>) {
    |stride| == |size| && AreDigits(a, size) && Number(a, size) == k && v == Wrap(start + Dot(stride, a))
  }

  /** In other words, the entry that the digits of k select. */
  lemma EntryMeaning(v: nat, a: seq<nat>, k: nat, start: nat, size: seq<nat>, stride: seq<nat>)
    requires IsEntry(v, a, k, start, size, stride)
    ensures a == Digits(k, size) && v == Wrap(start + Dot(stride, Digits(k, size)))
  {
    DigitsOfNumber(a, size);
  }

  method CountEntries(size: seq<nat>) returns (k: nat)
    ensures k == if size == [] then 0 else Wrap(Product(size))
  {
    k := if |size| != 0 then 1 else 0;
    for i := 0 to |size|
      invariant k == if size == [] then 0 else Wrap(Product(size[..i]))
    {
      assert size[..i + 1][..i] == size[..i];
      ProductOfMore(size[..i + 1]);
      RemainderOfProduct(MODULUS, Product(size[..i]), size[i]);
      k := Wrap(k * size[i]);
    }
    assert size[..|size|] == size;
  }

  lemma {:induction false} ProductOfMore(size: seq<nat>)
    requires size != []
    ensures Product(size) == Product(size[..|size| - 1]) * size[|size| - 1]
  {
    if |size| > 1 {
      var n := |size| - 1;
      ProductOfMore(size[1..]);
      assert size[1..][..n - 1] == size[..n][1..];
      assert size[0] * (Product(size[..n][1..]) * size[n]) == size[0] * Product(size[..n][1..]) * size[n];
    }
  }

  /** The entry after that for a: digit i has gone up. */
  method NextEntry(before: nat, ghost x: int, size: seq<nat>, stride: seq<nat>, i: nat) returns (entry: nat)
    requires i < |size| == |stride| && before == Wrap(x) && forall j | 0 <= j < |size| :: size[j] > 0
    ensures entry == Wrap(x + stride[i] - Rest(stride, size, i + 1))
  {
    RemainderOfSum(MODULUS, x, stride[i]);
    entry := Wrap(before + stride[i]);
    ghost var y := x + stride[i];
    for j := i + 1 to |size|
      invariant entry == Wrap(y) && y - Rest(stride, size, j) == x + stride[i] - Rest(stride, size, i + 1)
    {
      RemainderOfDifference(MODULUS, y, stride[j] * (size[j] - 1));
      y := y - stride[j] * (size[j] - 1);
      entry := Wrap(entry - Wrap(stride[j] * (size[j] - 1)));
      RemainderOfDifference(MODULUS, y + stride[j] * (size[j] - 1), stride[j] * (size[j] - 1));
    }
  }

  /** Counts the digits up by one; digit i is the one that grows. If all were the last, over is the answer. */
  method Advance(a: seq<nat>, size: seq<nat>) returns (over: bool, indices: seq<nat>, i: nat)
    requires AreDigits(a, size) && a != []
    ensures if over then AreLast(a, size) else i < |size| && a[i] + 1 < size[i] && IsNext(a, indices, size, i)
  {
    indices, i := a, |a| - 1;
    while true
      invariant i < |size| == |indices| && indices[..i + 1] == a[..i + 1] && AreZero(indices[i + 1..])
      invariant AreLast(a[i + 1..], size[i + 1..])
      decreases i
    {
      assert a[i] == a[..i + 1][i] == indices[i];
      indices := indices[i := indices[i] + 1];
      if indices[i] < size[i] {
        return false, indices, i;
      }
      if i == 0 {
        assert a[0..] == a && size[0..] == size;
        return true, indices, i;
      }
      indices := indices[i := 0];
      i := i - 1;
      assert indices[i + 1..] == [0] + indices[i + 2..];
    }
  }

  /** The entries in d are those of the slice, for the digits in rows. */
  predicate AreEntries(d: seq<nat>, rows: seq<seq<nat>>, start: nat, size: seq<nat>, stride: seq<nat>) {
    |d| == |rows| && forall k: nat | k < |d| :: IsEntry(d[k], rows[k], k, start, size, stride)
  }

  lemma OneMoreEntry(d: seq<nat>, rows: seq<seq<nat>>, v: nat, a: seq<nat>, start: nat, size: seq<nat>, stride: seq<nat>)
    requires AreEntries(d, rows, start, size, stride) && IsEntry(v, a, |d|, start, size, stride)
    ensures AreEntries(d + [v], rows + [a], start, size, stride)
  {
    var e, r := d + [v], rows + [a];
    forall k: nat | k < |e| ensures IsEntry(e[k], r[k], k, start, size, stride) {
      if k < |d| { assert IsEntry(d[k], rows[k], k, start, size, stride); }
    }
  }

  /** The product of the sizes, as the code counts it, is the size of the array. */
  predicate WritesInBounds(size: seq<nat>) {
    Product(size) < MODULUS || Wrap(Product(size)) == 0
  }

  /**
   * Fills in the entries; rows are the digits of their numbers. The counting does not stop at the end of the array
   * but at the last digits: inBounds says that it did not come to write past the end, where the model stops. That
   * is so if and only if the product of the sizes fits a word or is counted as none. It is only in the first case
   * that there are as many entries as there are digits.
   */
  method Init(start: nat, size: seq<nat>, stride: seq<nat>)
    returns (d: array<nat>, ghost rows: seq<seq<nat>>, inBounds: bool)
    requires |stride| == |size| && start < MODULUS && forall i | 0 <= i < |size| :: size[i] < MODULUS
    ensures d.Length == if size == [] then 0 else Wrap(Product(size))
    ensures AreEntries(d[..], rows, start, size, stride)
    ensures inBounds <==> WritesInBounds(size)
    ensures size != [] ==> (d.Length == Product(size) <==> Product(size) < MODULUS)
  {
    var indices := seq(|size|, _ => 0);
    var k := CountEntries(size);
    d, rows := new nat[k], [];
    CountedRight(size);
    if k == 0 {
      return d, rows, true;
    }
    k := 0;
    PositiveWhenCounted(size);
    ZeroNumber(indices, size, stride);
    ProductIsPositive(size);
    ModOfMultiple(MODULUS, 0, start);
    d[0] := start;
    rows := [indices];
    assert d[..1] == [start];
    while true
      invariant k < d.Length && |rows| == k + 1 && AreEntries(d[..k + 1], rows, start, size, stride)
      invariant IsEntry(d[k], indices, k, start, size, stride)
      decreases d.Length - k
    {
      var over, next, i := Advance(indices, size);
      if over {
        LastNumber(indices, size);
        assert d[..] == d[..k + 1];
        return d, rows, true;
      }
      Advanced(indices, next, size, stride, i);
      ghost var filled := d[..k + 1];
      k := k + 1;
      if k == d.Length {
        assert d[..] == filled;
        return d, rows, false;
      }
      d[k] := NextEntry(d[k - 1], start + Dot(stride, indices), size, stride, i);
      OneMoreEntry(filled, rows, d[k], next, start, size, stride);
      indices, rows := next, rows + [next];
      assert d[..k + 1] == filled + [d[k]];
    }
  }

  lemma CountedRight(size: seq<nat>)
    ensures Wrap(Product(size)) <= Product(size)
    ensures Wrap(Product(size)) == Product(size) <==> Product(size) < MODULUS
  {
    if Product(size) < MODULUS { ModOfMultiple(MODULUS, 0, Product(size)); }
  }

  lemma PositiveWhenCounted(size: seq<nat>)
    requires Wrap(Product(size)) > 0
    ensures Product(size) > 0
  {
    if Product(size) == 0 { ModOfMultiple(MODULUS, 0, 0); }
  }

  /** Sizes for which the array has 2^32 entries and the counting goes on past them, and sizes for which it has none. */
  lemma SizesThatOverflow()
    ensures var size := [0x1_0000_0000, 0x1_0000_0001];
      Wrap(Product(size)) == 0x1_0000_0000 < Product(size) && !WritesInBounds(size)
    ensures var size := [0x1_0000_0000, 0x1_0000_0000];
      Wrap(Product(size)) == 0 < Product(size)
  {
    PairProduct(0x1_0000_0000, 0x1_0000_0001);
    PairProduct(0x1_0000_0000, 0x1_0000_0000);
  }

  lemma PairProduct(a: nat, b: nat)
    ensures Product([a, b]) == a * b
  {
    assert [a, b][1..] == [b] && [b][1..] == [];
    assert Product([b]) == b * Product([]) == b;
  }

  lemma {:induction false} ProductIsPositive(size: seq<nat>)
    requires Product(size) > 0
    ensures forall i | 0 <= i < |size| :: size[i] > 0
  {
    if size != [] { ProductIsPositive(size[1..]); }
  }

  lemma Advanced(a: seq<nat>, b: seq<nat>, size: seq<nat>, stride: seq<nat>, i: nat)
    requires AreDigits(a, size) && |stride| == |size| && IsNext(a, b, size, i) && a[i] + 1 < size[i]
    ensures AreDigits(b, size) && Number(b, size) == Number(a, size) + 1 < Product(size)
    ensures Dot(stride, b) == Dot(stride, a) + stride[i] - Rest(stride, size, i + 1)
  {
    NextNumber(a, b, size, i);
    NextDot(stride, a, b, size, i);
    forall j | 0 <= j < |b| ensures b[j] < size[j] {
      if j < i {
        assert b[j] == b[..i][j] == a[..i][j];
      } else if j > i {
        assert b[j] == b[i + 1..][j - (i + 1)] && a[j] == a[i + 1..][j - (i + 1)];
      }
    }
    NumberBelow(b, size);
  }
}
