/**
 * The converters between UTF-8 and UCS-4 or UTF-16. Masks and shifts are
 * written as remainders and quotients by powers of two.
 */
module Utf8Codecs {
  import opened UnicodeForms
  import opened Transcoding

  const MARK: seq<Byte> := [0xEF, 0xBB, 0xBF]

  // ----- one turn of each loop

  /** What the encoders write for a code point of two, three or four bytes. */
  function Bytes2(wc: nat): seq<Byte>
    requires wc < 0x800
  {
    [0xC0 + wc / 0x40, 0x80 + wc % 0x40]
  }

  function Bytes3(wc: nat): seq<Byte>
    requires wc < 0x1_0000
  {
    [0xE0 + wc / 0x1000, 0x80 + wc / 0x40 % 0x40, 0x80 + wc % 0x40]
  }

  function Bytes4(wc: nat): seq<Byte> {
    [0xF0 + wc / 0x4_0000 % 0x10, 0x80 + wc / 0x1000 % 0x40, 0x80 + wc / 0x40 % 0x40, 0x80 + wc % 0x40]
  }

  /** The same for a surrogate pair. */
  function PairBytes(wc1: nat, wc2: nat): seq<Byte> {
    var z := wc1 / 0x40 % 0x10 + 1;
    [0xF0 + z / 4, 0x80 + z % 4 * 0x10 + wc1 / 4 % 0x10, 0x80 + wc1 % 4 * 0x10 + wc2 / 0x40 % 0x10, 0x80 + wc2 % 0x40]
  }

  function Ucs4ToUtf8(s: seq<Unit32>, max: nat): Step<Byte>
    requires s != []
  {
    var wc := s[0];
    if wc / 0x800 == 0x1B || wc > max then Malformed(0)
    else if wc < 0x80 then Consume(1, [wc])
    else if wc < 0x800 then Consume(1, Bytes2(wc))
    else if wc < 0x1_0000 then Consume(1, Bytes3(wc))
    else Consume(1, Bytes4(wc))
  }

  /** The tests of the byte after a lead byte of three or four. */
  predicate GoodSecond3(c1: Byte, c2: Byte) {
    if c1 == 0xE0 then c2 / 0x20 == 5 else if c1 == 0xED then c2 / 0x20 == 4 else c2 / 0x40 == 2
  }

  predicate GoodSecond4(c1: Byte, c2: Byte) {
    if c1 == 0xF0 then 0x90 <= c2 <= 0xBF else if c1 == 0xF4 then c2 / 0x10 == 8 else c2 / 0x40 == 2
  }

  /** The code point the payload bits of two, three or four bytes make up. */
  function Bits2(c1: nat, c2: nat): nat {
    c1 % 0x20 * 0x40 + c2 % 0x40
  }

  function Bits3(c1: nat, c2: nat, c3: nat): nat {
    c1 % 0x10 * 0x1000 + c2 % 0x40 * 0x40 + c3 % 0x40
  }

  function Bits4(c1: nat, c2: nat, c3: nat, c4: nat): nat {
    c1 % 8 * 0x4_0000 + c2 % 0x40 * 0x1000 + c3 % 0x40 * 0x40 + c4 % 0x40
  }

  function Utf8ToUcs4(s: seq<Byte>, max: nat): Step<Unit32>
    requires s != []
  {
    var c1 := s[0];
    if c1 < 0x80 then
      if c1 > max then Malformed(1) else Consume(1, [c1])
    else if c1 < 0xC2 then Malformed(1)
    else if c1 < 0xE0 then
      if |s| < 2 then CutShort
      else if s[1] / 0x40 != 2 then Malformed(1)
      else
        var t := Bits2(c1, s[1]);
        if t > max then Malformed(1) else Consume(2, [t])
    else if c1 < 0xF0 then
      if |s| < 3 then CutShort
      else if !GoodSecond3(c1, s[1]) || s[2] / 0x40 != 2 then Malformed(1)
      else
        var t := Bits3(c1, s[1], s[2]);
        if t > max then Malformed(1) else Consume(3, [t])
    else if c1 < 0xF5 then
      if |s| < 4 then CutShort
      else if !GoodSecond4(c1, s[1]) || s[2] / 0x40 != 2 || s[3] / 0x40 != 2 then Malformed(1)
      else
        var t := Bits4(c1, s[1], s[2], s[3]);
        if t > max then Malformed(1) else Consume(4, [t])
    else Malformed(1)
  }

  /** The code point of a surrogate pair. */
  function PairBits(wc1: nat, wc2: nat): nat {
    (wc1 / 0x40 % 0x10 + 1) * 0x1_0000 + wc1 % 0x40 * 0x400 + wc2 % 0x400
  }

  function Utf16ToUtf8(s: seq<Unit16>, max: nat): Step<Byte>
    requires s != []
  {
    var wc1 := s[0];
    if wc1 > max then Malformed(0)
    else if wc1 < 0x80 then Consume(1, [wc1])
    else if wc1 < 0x800 then Consume(1, Bytes2(wc1))
    else if 0xD800 <= wc1 < 0xDC00 then
      if |s| < 2 then CutShort
      else
        var wc2 := s[1];
        if wc2 / 0x400 != 0x37 then Malformed(0)
        else if PairBits(wc1, wc2) > max then Malformed(4)
        else Consume(2, PairBytes(wc1, wc2))
    else if 0xDC00 <= wc1 < 0xE000 then Malformed(0)
    else Consume(1, Bytes3(wc1))
  }

  /** The surrogates of the code point that four bytes encode. */
  function HighBits(c1: nat, c2: nat, c3: nat): int {
    0xD800 + (c1 % 8 * 4 + c2 / 0x10 % 4 - 1) * 0x40 + c2 % 0x10 * 4 + c3 / 0x10 % 4
  }

  function LowBits(c3: nat, c4: nat): nat {
    0xDC00 + c3 % 0x10 * 0x40 + c4 % 0x40
  }

  function Utf8ToUtf16(s: seq<Byte>, max: nat): Step<Unit16>
    requires s != []
  {
    var c1 := s[0];
    if c1 > max then Malformed(1)
    else if c1 < 0x80 then Consume(1, [c1])
    else if c1 < 0xC2 then Malformed(1)
    else if c1 < 0xE0 then
      if |s| < 2 then CutShort
      else if s[1] / 0x40 != 2 then Malformed(1)
      else
        var t := Bits2(c1, s[1]);
        if t > max then Malformed(1) else Consume(2, [t])
    else if c1 < 0xF0 then
      if |s| < 3 then CutShort
      else if !GoodSecond3(c1, s[1]) || s[2] / 0x40 != 2 then Malformed(1)
      else
        var t := Bits3(c1, s[1], s[2]);
        if t > max then Malformed(1) else Consume(3, [t])
    else if c1 < 0xF5 then
      if |s| < 4 then CutShort
      else if !GoodSecond4(c1, s[1]) || s[2] / 0x40 != 2 || s[3] / 0x40 != 2 then Malformed(1)
      else if Bits4(c1, s[1], s[2], s[3]) > max then Malformed(2)
      else Consume(4, [HighBits(c1, s[1], s[2]), LowBits(s[2], s[3])])
    else Malformed(1)
  }

  // ----- the loops' turns as functions of the rest of the input

  function Ucs4ToUtf8Turn(max: nat): (turn: seq<Unit32> -> Step<Byte>)
    ensures Steady(turn)
  {
    var turn := (s: seq<Unit32>) => if s == [] then CutShort else Ucs4ToUtf8(s, max);
    assert Steady(turn) by {
      forall s: seq<Unit32> ensures SteadyAt(turn, s) {
        forall t: seq<Unit32> | s != [] && Ucs4ToUtf8(s, max).Consume? { Ucs4ToUtf8Prefix(s, t, max); }
      }
    }
    turn
  }

  lemma Ucs4ToUtf8Prefix(s: seq<Unit32>, t: seq<Unit32>, max: nat)
    requires s != [] && Ucs4ToUtf8(s, max).Consume?
    ensures Ucs4ToUtf8(s + t, max) == Ucs4ToUtf8(s, max)
  {
  }

  function Utf8ToUcs4Turn(max: nat): (turn: seq<Byte> -> Step<Unit32>)
    ensures Steady(turn)
  {
    var turn := (s: seq<Byte>) => if s == [] then CutShort else Utf8ToUcs4(s, max);
    assert Steady(turn) by {
      forall s: seq<Byte> ensures SteadyAt(turn, s) {
        forall t: seq<Byte> | s != [] && Utf8ToUcs4(s, max).Consume? { Utf8ToUcs4Prefix(s, t, max); }
      }
    }
    turn
  }

  lemma Utf8ToUcs4Prefix(s: seq<Byte>, t: seq<Byte>, max: nat)
    requires s != [] && Utf8ToUcs4(s, max).Consume?
    ensures Utf8ToUcs4(s + t, max) == Utf8ToUcs4(s, max)
  {
  }

  function Utf16ToUtf8Turn(max: nat): (turn: seq<Unit16> -> Step<Byte>)
    ensures Steady(turn)
  {
    var turn := (s: seq<Unit16>) => if s == [] then CutShort else Utf16ToUtf8(s, max);
    assert Steady(turn) by {
      forall s: seq<Unit16> ensures SteadyAt(turn, s) {
        forall t: seq<Unit16> | s != [] && Utf16ToUtf8(s, max).Consume? { Utf16ToUtf8Prefix(s, t, max); }
      }
    }
    turn
  }

  lemma Utf16ToUtf8Prefix(s: seq<Unit16>, t: seq<Unit16>, max: nat)
    requires s != [] && Utf16ToUtf8(s, max).Consume?
    ensures Utf16ToUtf8(s + t, max) == Utf16ToUtf8(s, max)
  {
  }

  function Utf8ToUtf16Turn(max: nat): (turn: seq<Byte> -> Step<Unit16>)
    ensures Steady(turn)
  {
    var turn := (s: seq<Byte>) => if s == [] then CutShort else Utf8ToUtf16(s, max);
    assert Steady(turn) by {
      forall s: seq<Byte> ensures SteadyAt(turn, s) {
        forall t: seq<Byte> | s != [] && Utf8ToUtf16(s, max).Consume? { Utf8ToUtf16Prefix(s, t, max); }
      }
    }
    turn
  }

  lemma Utf8ToUtf16Prefix(s: seq<Byte>, t: seq<Byte>, max: nat)
    requires s != [] && Utf8ToUtf16(s, max).Consume?
    ensures Utf8ToUtf16(s + t, max) == Utf8ToUtf16(s, max)
  {
  }

  // ----- digits to the base 0x40, and what the surrogates carry

  lemma Bytes2Meaning(u: nat)
    requires 0x80 <= u < 0x800
    ensures Utf8Char(Bytes2(u)) && Utf8Value(Bytes2(u)) == u
  {
  }

  lemma Bytes3Meaning(u: nat)
    requires 0x800 <= u < 0x1_0000 && IsScalar(u)
    ensures Utf8Char(Bytes3(u)) && Utf8Value(Bytes3(u)) == u
  {
    var x, y, z := u / 0x1000, u / 0x40 % 0x40, u % 0x40;
    assert u / 0x40 / 0x40 == x;
    assert u == 0x1000 * x + 0x40 * y + z;
  }

  lemma Bytes4Meaning(u: nat)
    requires 0x1_0000 <= u < 0x11_0000
    ensures Utf8Char(Bytes4(u)) && Utf8Value(Bytes4(u)) == u
  {
    var v, w, x, y := u / 0x4_0000, u / 0x1000 % 0x40, u / 0x40 % 0x40, u % 0x40;
    assert u / 0x40 / 0x40 / 0x40 == v && u / 0x40 / 0x40 == u / 0x1000;
    assert u == 0x4_0000 * v + 0x1000 * w + 0x40 * x + y;
  }

  lemma HighMeaning(p: nat)
    requires p < 0x400
    ensures var w := 0xD800 + p;
      w / 0x40 % 0x10 == p / 0x40 && w % 0x40 == p % 0x40 && w / 4 % 0x10 == p / 4 % 0x10 && w % 4 == p % 4
  {
    assert (0xD800 + p) / 0x40 == 0x360 + p / 0x40;
    assert (0xD800 + p) / 4 == 0x3600 + p / 4;
  }

  lemma LowMeaning(q: nat)
    requires q < 0x400
    ensures var w := 0xDC00 + q;
      w % 0x400 == q && w / 0x40 % 0x10 == q / 0x40 && w % 0x40 == q % 0x40
  {
    assert (0xDC00 + q) / 0x40 == 0x370 + q / 0x40;
  }

  lemma PairMeaning(p: nat, q: nat)
    requires p < 0x400 && q < 0x400
    ensures PairBits(0xD800 + p, 0xDC00 + q) == 0x1_0000 + 0x400 * p + q
  {
    HighMeaning(p);
    LowMeaning(q);
    assert p == 0x40 * (p / 0x40) + p % 0x40;
  }

  lemma PairBytesMeaning(p: nat, q: nat)
    requires p < 0x400 && q < 0x400
    ensures var b := PairBytes(0xD800 + p, 0xDC00 + q);
      Utf8Char(b) && Utf8Value(b) == 0x1_0000 + 0x400 * p + q
  {
    HighMeaning(p);
    LowMeaning(q);
    var z := p / 0x40 + 1;
    assert z == 4 * (z / 4) + z % 4;
    assert p == 0x40 * (p / 0x40) + 4 * (p / 4 % 0x10) + p % 4;
    assert q == 0x40 * (q / 0x40) + q % 0x40;
  }

  lemma SurrogateBits(c1: nat, c2: nat, c3: nat, c4: nat)
    requires 0xF0 <= c1 <= 0xF4 && 0x80 <= c2 < 0xC0 && 0x80 <= c3 < 0xC0 && 0x80 <= c4 < 0xC0
    requires 0x1_0000 <= Bits4(c1, c2, c3, c4) < 0x11_0000
    ensures IsHigh(HighBits(c1, c2, c3)) && IsLow(LowBits(c3, c4))
    ensures 0x1_0000 + 0x400 * (HighBits(c1, c2, c3) - 0xD800) + (LowBits(c3, c4) - 0xDC00) == Bits4(c1, c2, c3, c4)
  {
    assert c2 % 0x40 == 0x10 * (c2 / 0x10 % 4) + c2 % 0x10;
    assert c3 % 0x40 == 0x10 * (c3 / 0x10 % 4) + c3 % 0x10;
  }

  lemma Payload(c: nat)
    requires 0x80 <= c < 0xF8
    ensures c < 0xC0 ==> c % 0x40 == c - 0x80
    ensures 0xC0 <= c < 0xE0 ==> c % 0x20 == c - 0xC0
    ensures 0xE0 <= c < 0xF0 ==> c % 0x10 == c - 0xE0
    ensures 0xF0 <= c ==> c % 8 == c - 0xF0
  {
  }

  // ----- when a turn finds its input cut short

  /** Less bytes than the first one announces. */
  predicate Utf8Short(s: seq<Byte>) {
    s != [] && |s| < Utf8Length(s[0])
  }

  /** The beginning of a character is cut short. */
  lemma Utf8Beginning(s: seq<Byte>, t: seq<Byte>, n: nat, max: nat)
    requires 0 < |s| < n && Utf8Prefix(s + t, n, max)
    ensures Utf8Short(s)
  {
    Utf8LengthIsLength((s + t)[..n]);
  }

  predicate Utf16Short(s: seq<Unit16>) {
    |s| == 1 && IsHigh(s[0])
  }

  lemma Utf16Beginning(s: seq<Unit16>, t: seq<Unit16>, n: nat, max: nat)
    requires 0 < |s| < n && Utf16Prefix(s + t, n, max)
    ensures Utf16Short(s) && s[0] <= max
  {
    assert (s + t)[..n][0] == s[0];
  }

  /** Cut short is what is shorter than announced, and malformed what is not and begins with no character up to max. */
  lemma CutShortMeaning(s: seq<Byte>, w: seq<Unit16>, max: nat)
    requires s != [] && w != []
    ensures Utf8ToUcs4(s, max).CutShort? <==> Utf8Short(s)
    ensures Utf8ToUtf16(s, max).CutShort? <==> Utf8Short(s) && s[0] <= max
    ensures Utf16ToUtf8(w, max).CutShort? <==> Utf16Short(w) && w[0] <= max
  {
  }

  // ----- what one turn means

  /** A turn of the UCS-4 decoder takes one UTF8-char of RFC 3629 up to max and emits its code point ... */
  lemma Utf8ToUcs4Meaning(s: seq<Byte>, max: nat)
    requires s != [] && Utf8ToUcs4(s, max).Consume?
    ensures var r := Utf8ToUcs4(s, max);
      Utf8Prefix(s, r.taken, max) && r.units == [Utf8Value(s[..r.taken])]
  {
    var n := Utf8ToUcs4(s, max).taken;
    if n >= 2 { Payload(s[0]); Payload(s[1]); }
    if n >= 3 { Payload(s[2]); }
    if n == 4 { Payload(s[3]); }
  }

  /** ... and it takes one whenever there is one. */
  lemma Utf8ToUcs4Complete(s: seq<Byte>, n: nat, max: nat)
    requires Utf8Prefix(s, n, max)
    ensures Utf8ToUcs4(s, max) == Consume(n, [Utf8Value(s[..n])])
  {
    if n >= 2 { Payload(s[0]); Payload(s[1]); }
    if n >= 3 { Payload(s[2]); }
    if n == 4 { Payload(s[3]); }
  }

  /** The other decoder does the same, but wants the lead byte to be at most max as well. */
  lemma DecodersAgree(s: seq<Byte>, max: nat)
    requires s != []
    ensures Utf8ToUtf16(s, max).Consume? <==> Utf8ToUcs4(s, max).Consume? && s[0] <= max
    ensures Utf8ToUtf16(s, max).Consume? ==> Utf8ToUtf16(s, max).taken == Utf8ToUcs4(s, max).taken
  {
  }

  lemma Utf8ToUtf16Meaning(s: seq<Byte>, max: nat)
    requires s != [] && Utf8ToUtf16(s, max).Consume?
    ensures var r := Utf8ToUtf16(s, max);
      Utf8Prefix(s, r.taken, max) && Utf16Char(r.units) && Utf16Value(r.units) == Utf8Value(s[..r.taken])
  {
    Utf8ToUcs4Meaning(s, max);
    DecodersAgree(s, max);
    if s[0] >= 0xF0 { SurrogateBits(s[0], s[1], s[2], s[3]); }
  }

  /** The encoders accept a unit of UCS-4: a number up to the limit that is no surrogate. */
  predicate Ucs4Accepted(u: nat, max: nat) {
    u <= max && !(0xD800 <= u < 0xE000)
  }

  lemma Ucs4ToUtf8Meaning(s: seq<Unit32>, max: nat)
    requires s != []
    ensures var r := Ucs4ToUtf8(s, max);
      && (r.Consume? <==> Ucs4Accepted(s[0], max)) && (r.Malformed? <==> !Ucs4Accepted(s[0], max))
      && (r.Consume? ==> r.taken == 1)
      && (r.Consume? && s[0] <= 0x10_FFFF ==> Utf8Char(r.units) && Utf8Value(r.units) == s[0])
  {
    var u := s[0];
    if 0x80 <= u < 0x800 { Bytes2Meaning(u); }
    if 0x800 <= u < 0x1_0000 && IsScalar(u) { Bytes3Meaning(u); }
    if 0x1_0000 <= u < 0x11_0000 { Bytes4Meaning(u); }
  }

  lemma Utf16ToUtf8Meaning(s: seq<Unit16>, max: nat)
    requires s != [] && Utf16ToUtf8(s, max).Consume?
    ensures var r := Utf16ToUtf8(s, max);
      Utf16Prefix(s, r.taken, max) && Utf8Char(r.units) && Utf8Value(r.units) == Utf16Value(s[..r.taken])
  {
    var u := s[0];
    if IsHigh(u) {
      PairMeaning(u - 0xD800, s[1] - 0xDC00);
      PairBytesMeaning(u - 0xD800, s[1] - 0xDC00);
    } else if 0x80 <= u < 0x800 {
      Bytes2Meaning(u);
    } else if 0x800 <= u {
      Bytes3Meaning(u);
    }
  }

  lemma Utf16ToUtf8Complete(s: seq<Unit16>, n: nat, max: nat)
    requires Utf16Prefix(s, n, max)
    ensures Utf16ToUtf8(s, max).Consume? && Utf16ToUtf8(s, max).taken == n
  {
    if n == 2 { PairMeaning(s[0] - 0xD800, s[1] - 0xDC00); }
  }

  // ----- the room it takes to find malformed input

  /**
   * The decoders look at a character if there is room for one unit; a character above the limit needs the room that its
   * form would take, if that is a surrogate pair or its four bytes.
   */
  lemma MalformedNeeds(s: seq<Byte>, w: seq<Unit16>, u: seq<Unit32>, max: nat)
    requires s != [] && w != [] && u != []
    ensures Utf8ToUcs4(s, max).Malformed? ==> Utf8ToUcs4(s, max).need == 1
    ensures Utf8ToUtf16(s, max).Malformed? ==>
      Utf8ToUtf16(s, max).need == if s[0] <= max && |s| >= 4 && Utf8Char(s[..4]) then 2 else 1
    ensures Utf16ToUtf8(w, max).Malformed? ==>
      Utf16ToUtf8(w, max).need == if w[0] <= max && |w| >= 2 && IsHigh(w[0]) && IsLow(w[1]) then 4 else 0
    ensures Ucs4ToUtf8(u, max).Malformed? ==> Ucs4ToUtf8(u, max).need == 0
  {
  }
}
