/** The variable length numbers of DWARF 4 (section 7.6), as an exception table holds them. */
module Leb128 {
  import opened UnicodeForms
  import opened Remainders
  import opened Fermat

  const WORD: int := 0x1_0000_0000_0000_0000

  /** A number starts at p: some byte from there on has its high bit clear. */
  predicate Readable(s: seq<Byte>, p: int)
    decreases |s| - p
  {
    0 <= p < |s| && (s[p] < 0x80 || Readable(s, p + 1))
  }

  /** The position after the number that starts at p. */
  function End(s: seq<Byte>, p: int): (q: nat)
    requires Readable(s, p)
    ensures p < q <= |s|
    decreases |s| - p
  {
    if s[p] < 0x80 then p + 1 else End(s, p + 1)
  }

  function Unsigned(s: seq<Byte>, p: int): nat
    requires Readable(s, p)
    decreases |s| - p
  {
    s[p] % 0x80 + if s[p] < 0x80 then 0 else 0x80 * Unsigned(s, p + 1)
  }

  function Signed(s: seq<Byte>, p: int): int
    requires Readable(s, p)
    decreases |s| - p
  {
    if s[p] < 0x40 then s[p]
    else if s[p] < 0x80 then s[p] - 0x80
    else s[p] % 0x80 + 0x80 * Signed(s, p + 1)
  }

  /** The value of a machine word that is read as a signed one. */
  function ToSigned(n: nat): int
    requires n < WORD
  {
    if n < WORD / 2 then n else n - WORD
  }

  /** The signed 64-bit number that n is, modulo 2^64. */
  function Wrapped(n: int): int {
    ToSigned(n % WORD)
  }

  lemma WrapKeeps(n: int)
    ensures Wrapped(n) == n <==> -(WORD / 2) <= n < WORD / 2
  {
    if 0 <= n < WORD { SameRemainder(WORD, 0, n); }
    if -WORD <= n < 0 { SameRemainder(WORD, -1, n + WORD); }
  }

  // ----- numbers of up to ten bytes; more would shift by 64 bits or more

  predicate Short(s: seq<Byte>, p: int) {
    Readable(s, p) && End(s, p) - p <= 10
  }

  lemma SevenMore(shift: nat)
    ensures Pow(2, shift + 7) == 0x80 * Pow(2, shift)
  {
    PowSum(2, shift, 7);
    assert Pow(2, 7) == 0x80 by {
      assert Pow(2, 3) == 8 && Pow(2, 5) == 4 * Pow(2, 3) && Pow(2, 7) == 4 * Pow(2, 5);
    }
  }

  lemma TenSevens()
    ensures Pow(2, 63) == WORD / 2 && Pow(2, 70) == 0x40 * WORD
  {
    assert Pow(2, 0) == 1;
    SevenMore(0); SevenMore(7); SevenMore(14); SevenMore(21); SevenMore(28);
    SevenMore(35); SevenMore(42); SevenMore(49); SevenMore(56); SevenMore(63);
  }

  /** Seven more bits: what is read so far, as a word and without a limit, and what the rest stands for. */
  lemma AddBits(whole: nat, weight: nat, wider: nat, b: nat)
    requires wider == 0x80 * weight && whole < weight && b < 0x80
    ensures (whole % WORD + weight * b % WORD) % WORD == (whole + weight * b) % WORD
    ensures whole + weight * b < wider
  {
    RemainderOfSum(WORD, whole, weight * b);
    assert weight * b <= weight * 0x7F;
  }

  lemma Regroup(whole: nat, weight: nat, wider: nat, b: nat, rest: int)
    requires wider == 0x80 * weight
    ensures whole + weight * (b + 0x80 * rest) == whole + weight * b + wider * rest
  {
    Distribute(weight, b, 0x80 * rest);
    assert weight * (0x80 * rest) == (0x80 * weight) * rest;
  }

  /** What a byte adds to the numbers that start at it. */
  lemma FirstByte(s: seq<Byte>, p: nat, whole: nat, weight: nat, wider: nat)
    requires Readable(s, p) && wider == 0x80 * weight
    ensures var next := whole + weight * (s[p] % 0x80);
            if s[p] < 0x80 then
              && whole + weight * Unsigned(s, p) == next
              && whole + weight * Signed(s, p) == if s[p] < 0x40 then next else next - wider
            else
              && whole + weight * Unsigned(s, p) == next + wider * Unsigned(s, p + 1)
              && whole + weight * Signed(s, p) == next + wider * Signed(s, p + 1)
  {
    if s[p] >= 0x80 {
      Regroup(whole, weight, wider, s[p] % 0x80, Unsigned(s, p + 1));
      Regroup(whole, weight, wider, s[p] % 0x80, Signed(s, p + 1));
    } else {
      Regroup(whole, weight, wider, s[p] % 0x80, -1);
    }
  }

  /** Seven bits moved up by shift. */
  function Moved(b: nat, shift: nat): nat {
    Pow(2, shift) * (b % 0x80)
  }

  /** What is read of the number at p before the byte at q, as a number and as a word. */
  predicate ReadUpTo(s: seq<Byte>, p: nat, q: nat, shift: nat, result: nat, whole: nat)
    requires Readable(s, p)
  {
    && Readable(s, q) && End(s, q) == End(s, p)
    && result == whole % WORD && whole < Pow(2, shift)
    && Unsigned(s, p) == whole + Pow(2, shift) * Unsigned(s, q)
    && Signed(s, p) == whole + Pow(2, shift) * Signed(s, q)
  }

  predicate ReadAll(s: seq<Byte>, p: nat, q: nat, shift: nat, result: nat, whole: nat, last: Byte)
    requires Readable(s, p)
  {
    && 0 < q == End(s, p) && last == s[q - 1] < 0x80
    && result == whole % WORD && whole < Pow(2, shift)
    && Unsigned(s, p) == whole
    && Signed(s, p) == if last < 0x40 then whole else whole - Pow(2, shift)
  }

  lemma NextByte(s: seq<Byte>, p: nat, q: nat, shift: nat, result: nat, whole: nat)
    requires Readable(s, p) && ReadUpTo(s, p, q, shift, result, whole)
    ensures var wider := whole + Moved(s[q], shift);
            var word := (result + Moved(s[q], shift) % WORD) % WORD;
            if s[q] < 0x80 then ReadAll(s, p, q + 1, shift + 7, word, wider, s[q])
            else ReadUpTo(s, p, q + 1, shift + 7, word, wider)
  {
    SevenMore(shift);
    AddBits(whole, Pow(2, shift), Pow(2, shift + 7), s[q] % 0x80);
    FirstByte(s, q, whole, Pow(2, shift), Pow(2, shift + 7));
  }

  lemma NothingRead(s: seq<Byte>, p: nat)
    requires Readable(s, p)
    ensures ReadUpTo(s, p, p, 0, 0, 0)
  {
    assert Pow(2, 0) == 1;
  }

  /**
   * The loop over the bytes. `whole` is what the bits read so far amount to without a limit on the width; the
   * bits that are or-ed in lie above them, so that `+` stands for `|`.
   */
  method ReadBits(s: seq<Byte>, p: nat) returns (result: nat, shift: nat, last: Byte, q: nat, ghost whole: nat)
    requires Short(s, p)
    ensures p < q <= |s| && shift == 7 * (q - p)
    ensures ReadAll(s, p, q, shift, result, whole, last)
  {
    result, shift, q, whole, last := 0, 0, p, 0, 0;
    NothingRead(s, p);
    var more := true;
    while more
      invariant p <= q <= |s|
      invariant shift == 7 * (q - p)
      invariant more ==> ReadUpTo(s, p, q, shift, result, whole)
      invariant !more ==> p < q && ReadAll(s, p, q, shift, result, whole, last)
      decreases |s| - q
    {
      last := s[q];
      NextByte(s, p, q, shift, result, whole);
      result := (result + Moved(last, shift) % WORD) % WORD;
      whole := whole + Moved(last, shift);
      shift := shift + 7;
      q := q + 1;
      more := last >= 0x80;
    }
  }

  method ReadULEB128(s: seq<Byte>, p: nat) returns (value: nat, q: nat)
    requires Short(s, p)
    ensures value == Unsigned(s, p) % WORD && q == End(s, p)
  {
    ghost var whole;
    var shift, last;
    value, shift, last, q, whole := ReadBits(s, p);
  }

  /** What lies above the bits read is all ones when the sign bit, the last byte's 0x40, is set. */
  method ReadSLEB128(s: seq<Byte>, p: nat) returns (value: int, q: nat)
    requires Short(s, p)
    ensures value == Wrapped(Signed(s, p)) && q == End(s, p)
  {
    ghost var whole;
    var result, shift, last;
    result, shift, last, q, whole := ReadBits(s, p);
    if last / 0x40 % 2 == 1 && shift < 64 {
      ExtendSign(whole, shift);
      result := result + (WORD - Pow(2, shift));
    } else if last / 0x40 % 2 == 1 {
      assert shift == 70;
      BeyondTheWord(whole);
    }
    value := ToSigned(result);
  }

  lemma PowGrows(d: nat, e: nat)
    requires d <= e
    ensures 0 < Pow(2, d) <= Pow(2, e)
  {
    PowPositive(2, d);
    PowPositive(2, e - d);
    PowSum(2, d, e - d);
    assert Pow(2, d) * Pow(2, e - d) >= Pow(2, d) * 1;
  }

  lemma ExtendSign(whole: nat, shift: nat)
    requires shift <= 63 && whole < Pow(2, shift)
    ensures 0 < Pow(2, shift) <= WORD / 2
    ensures whole % WORD == whole && (whole - Pow(2, shift)) % WORD == whole + (WORD - Pow(2, shift)) < WORD
  {
    PowGrows(shift, 63);
    TenSevens();
    SameRemainder(WORD, 0, whole);
    SameRemainder(WORD, -1, whole + (WORD - Pow(2, shift)));
  }

  lemma BeyondTheWord(whole: nat)
    ensures (whole - Pow(2, 70)) % WORD == whole % WORD
  {
    TenSevens();
    assert whole == WORD * (whole / WORD) + whole % WORD;
    SameRemainder(WORD, whole / WORD - 0x40, whole % WORD);
  }

  // ----- what the encoder of DWARF writes is read back

  function Encode(n: nat): (s: seq<Byte>) {
    if n < 0x80 then [n] else [n % 0x80 + 0x80] + Encode(n / 0x80)
  }

  function EncodeSigned(n: int): (s: seq<Byte>)
    decreases if n < 0 then -n else n
  {
    if -0x40 <= n < 0x40 then [n % 0x80] else [n % 0x80 + 0x80] + EncodeSigned(n / 0x80)
  }

  /** Wherever the encoded number stands. */
  lemma {:induction false} EncodedIsRead(before: seq<Byte>, n: nat, after: seq<Byte>)
    ensures var s, p := before + Encode(n) + after, |before|;
            Readable(s, p) && Unsigned(s, p) == n && End(s, p) == p + |Encode(n)|
    decreases n
  {
    var s, p := before + Encode(n) + after, |before|;
    assert s[p] == Encode(n)[0];
    if n >= 0x80 {
      EncodedIsRead(before + [n % 0x80 + 0x80], n / 0x80, after);
      assert s == before + [n % 0x80 + 0x80] + Encode(n / 0x80) + after;
    }
  }

  lemma {:induction false} EncodedSignedIsRead(before: seq<Byte>, n: int, after: seq<Byte>)
    ensures var s, p := before + EncodeSigned(n) + after, |before|;
            Readable(s, p) && Signed(s, p) == n && End(s, p) == p + |EncodeSigned(n)|
    decreases if n < 0 then -n else n
  {
    var s, p := before + EncodeSigned(n) + after, |before|;
    assert s[p] == EncodeSigned(n)[0];
    if !(-0x40 <= n < 0x40) {
      EncodedSignedIsRead(before + [n % 0x80 + 0x80], n / 0x80, after);
      assert s == before + [n % 0x80 + 0x80] + EncodeSigned(n / 0x80) + after;
    }
  }

  lemma {:induction false} EncodedLength(n: nat, k: nat)
    requires k > 0 && n < Pow(2, 7 * k)
    ensures |Encode(n)| <= k
  {
    if n >= 0x80 {
      if k == 1 { assert Pow(2, 0) == 1; SevenMore(0); }
      SevenMore(7 * (k - 1));
      EncodedLength(n / 0x80, k - 1);
    }
  }

  lemma {:induction false} EncodedSignedLength(n: int, k: nat)
    requires k > 0 && 0 <= 2 * n + Pow(2, 7 * k) < 2 * Pow(2, 7 * k)
    ensures |EncodeSigned(n)| <= k
    decreases k
  {
    if !(-0x40 <= n < 0x40) {
      if k == 1 { assert Pow(2, 0) == 1; SevenMore(0); }
      SevenMore(7 * (k - 1));
      PowSum(2, 1, 7 * (k - 1) - 1);
      EncodedSignedLength(n / 0x80, k - 1);
    }
  }

  /** Every 64-bit number is short enough, and what the readers return for it is the number. */
  lemma RoundTrip(before: seq<Byte>, n: nat, after: seq<Byte>)
    requires n < WORD
    ensures var s, p := before + Encode(n) + after, |before|;
            Short(s, p) && Unsigned(s, p) % WORD == n && End(s, p) == |s| - |after|
  {
    EncodedIsRead(before, n, after);
    TenSevens();
    EncodedLength(n, 10);
    SameRemainder(WORD, 0, n);
  }

  lemma SignedRoundTrip(before: seq<Byte>, n: int, after: seq<Byte>)
    requires -(WORD / 2) <= n < WORD / 2
    ensures var s, p := before + EncodeSigned(n) + after, |before|;
            Short(s, p) && Wrapped(Signed(s, p)) == n && End(s, p) == |s| - |after|
  {
    EncodedSignedIsRead(before, n, after);
    TenSevens();
    EncodedSignedLength(n, 10);
    WrapKeeps(n);
  }
}
