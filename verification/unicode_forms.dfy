/** Code points and their encoding forms, as the Unicode RFCs define them. */
module UnicodeForms {

  type Byte = x: nat | x < 0x100
  type Unit16 = x: nat | x < 0x1_0000
  type Unit32 = x: nat | x < 0x1_0000_0000

  /** A code point that is not a surrogate. */
  predicate IsScalar(u: nat) {
    u < 0xD800 || 0xE000 <= u < 0x11_0000
  }

  // ----- UTF-8: sections 3 and 4 of RFC 3629

  predicate IsTail(b: Byte) { 0x80 <= b <= 0xBF }

  /** The production UTF8-char. */
  predicate Utf8Char(b: seq<Byte>) {
    || (|b| == 1 && b[0] <= 0x7F)
    || (|b| == 2 && 0xC2 <= b[0] <= 0xDF && IsTail(b[1]))
    || (|b| == 3 && Utf8Lead3(b[0], b[1]) && IsTail(b[2]))
    || (|b| == 4 && Utf8Lead4(b[0], b[1]) && IsTail(b[2]) && IsTail(b[3]))
  }

  predicate Utf8Lead3(b0: Byte, b1: Byte) {
    || (b0 == 0xE0 && 0xA0 <= b1 <= 0xBF)
    || (0xE1 <= b0 <= 0xEC && IsTail(b1))
    || (b0 == 0xED && 0x80 <= b1 <= 0x9F)
    || (0xEE <= b0 <= 0xEF && IsTail(b1))
  }

  predicate Utf8Lead4(b0: Byte, b1: Byte) {
    || (b0 == 0xF0 && 0x90 <= b1 <= 0xBF)
    || (0xF1 <= b0 <= 0xF3 && IsTail(b1))
    || (b0 == 0xF4 && 0x80 <= b1 <= 0x8F)
  }

  /** How many bytes a character has that begins with the byte; 0 if none does. */
  function Utf8Length(b0: Byte): nat {
    if b0 < 0x80 then 1 else if b0 < 0xC2 then 0 else if b0 < 0xE0 then 2 else if b0 < 0xF0 then 3
    else if b0 < 0xF5 then 4 else 0
  }

  lemma Utf8LengthIsLength(b: seq<Byte>)
    requires Utf8Char(b)
    ensures Utf8Length(b[0]) == |b|
  {
  }

  /** The code point of a UTF-8 character: six more bits with every tail byte. */
  function Utf8Value(b: seq<Byte>): nat
    requires Utf8Char(b)
  {
    if |b| == 1 then b[0]
    else if |b| == 2 then 0x40 * Minus(b[0], 0xC0) + Minus(b[1], 0x80)
    else if |b| == 3 then 0x1000 * Minus(b[0], 0xE0) + 0x40 * Minus(b[1], 0x80) + Minus(b[2], 0x80)
    else 0x4_0000 * Minus(b[0], 0xF0) + 0x1000 * Minus(b[1], 0x80) + 0x40 * Minus(b[2], 0x80) + Minus(b[3], 0x80)
  }

  /** The payload of a unit above the pattern that marks it. */
  function Minus(unit: nat, pattern: nat): nat
    requires pattern <= unit
  {
    unit - pattern
  }

  lemma Utf8ValueRange(b: seq<Byte>)
    requires Utf8Char(b)
    ensures IsScalar(Utf8Value(b))
    ensures match |b|
      case 1 => Utf8Value(b) < 0x80
      case 2 => 0x80 <= Utf8Value(b) < 0x800
      case 3 => 0x800 <= Utf8Value(b) < 0x1_0000
      case _ => 0x1_0000 <= Utf8Value(b)
  {
  }

  /** No code point has two encodings. */
  lemma Utf8Unique(a: seq<Byte>, b: seq<Byte>)
    requires Utf8Char(a) && Utf8Char(b) && Utf8Value(a) == Utf8Value(b)
    ensures a == b
  {
    Utf8ValueRange(a);
    Utf8ValueRange(b);
  }

  /** A text is a sequence of characters: what good says of a sequence and a length is that they begin it with one. */
  ghost predicate Text<T(!new)>(good: (seq<T>, nat) -> bool, s: seq<T>) {
    s == [] || exists n: nat :: 0 < n <= |s| && good(s, n) && Text(good, s[n..])
  }

  /** The production UTF8-octets, with no character above max. */
  ghost predicate Utf8Octets(b: seq<Byte>, max: nat) {
    Text(Utf8CharUpTo(max), b)
  }

  function Utf8CharUpTo(max: nat): (seq<Byte>, nat) -> bool {
    (b: seq<Byte>, n: nat) => Utf8Prefix(b, n, max)
  }

  predicate Utf8Prefix(b: seq<Byte>, n: nat, max: nat) {
    0 < n <= |b| && Utf8Char(b[..n]) && Utf8Value(b[..n]) <= max
  }

  // ----- UTF-16: section 2 of RFC 2781

  predicate IsHigh(w: nat) { 0xD800 <= w <= 0xDBFF }

  predicate IsLow(w: nat) { 0xDC00 <= w <= 0xDFFF }

  predicate Utf16Char(w: seq<Unit16>) {
    || (|w| == 1 && !IsHigh(w[0]) && !IsLow(w[0]))
    || (|w| == 2 && IsHigh(w[0]) && IsLow(w[1]))
  }

  function Utf16Value(w: seq<Unit16>): nat
    requires Utf16Char(w)
  {
    if |w| == 1 then w[0] else 0x1_0000 + 0x400 * Minus(w[0], 0xD800) + Minus(w[1], 0xDC00)
  }

  lemma Utf16Unique(a: seq<Unit16>, b: seq<Unit16>)
    requires Utf16Char(a) && Utf16Char(b) && Utf16Value(a) == Utf16Value(b)
    ensures a == b
  {
  }

  predicate Utf16Prefix(w: seq<Unit16>, n: nat, max: nat) {
    0 < n <= |w| && Utf16Char(w[..n]) && Utf16Value(w[..n]) <= max
  }

  /** Text in UTF-16 with no character above max. */
  ghost predicate Utf16Text(w: seq<Unit16>, max: nat) {
    Text(Utf16CharUpTo(max), w)
  }

  function Utf16CharUpTo(max: nat): (seq<Unit16>, nat) -> bool {
    (w: seq<Unit16>, n: nat) => Utf16Prefix(w, n, max)
  }
}
