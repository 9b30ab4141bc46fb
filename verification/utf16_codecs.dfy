/** The converters between UCS-4 and UTF-16 as bytes, in either byte order. */
module Utf16Codecs {
  import opened UnicodeForms
  import opened Transcoding
  import Utf8Codecs
  import Utf8Theorems

  datatype Order = BigEndian | LittleEndian

  function Mark(order: Order): seq<Byte> {
    UnitBytes(0xFEFF, order)
  }

  /** How a unit is stored, and read. */
  function UnitBytes(t: Unit16, order: Order): seq<Byte> {
    if order == BigEndian then [t / 0x100, t % 0x100] else [t % 0x100, t / 0x100]
  }

  function Unit(first: Byte, second: Byte, order: Order): Unit16 {
    if order == BigEndian then Join(first, second) else Join(second, first)
  }

  function Join(high: nat, low: nat): nat {
    0x100 * high + low
  }

  lemma UnitRoundTrip(t: Unit16, first: Byte, second: Byte, order: Order)
    ensures var b := UnitBytes(t, order); Unit(b[0], b[1], order) == t
    ensures UnitBytes(Unit(first, second, order), order) == [first, second]
  {
  }

  // ----- one turn of each loop

  function Ucs4ToUtf16(s: seq<Unit32>, max: nat, order: Order): Step<Byte>
    requires s != []
  {
    var wc := s[0];
    if wc / 0x800 == 0x1B || wc > max then Malformed(0)
    else if wc < 0x1_0000 then Consume(1, UnitBytes(wc, order))
    else Consume(1, UnitBytes(High(wc), order) + UnitBytes(Low(wc), order))
  }

  /** The surrogates of a code point; a limit above the last of them lets other numbers through. */
  function High(wc: nat): Unit16 {
    var plane := wc / 0x1_0000 % 0x20;
    (if plane == 0 then 0xFFC0 else 0xD800 + (plane - 1) * 0x40) + wc / 0x400 % 0x40
  }

  function Low(wc: nat): Unit16 {
    0xDC00 + wc % 0x400
  }

  function Utf16ToUcs4(s: seq<Byte>, max: nat, order: Order): Step<Unit32>
    requires s != []
  {
    if |s| < 2 then CutShort
    else
      var c1: nat := Unit(s[0], s[1], order);
      if c1 / 0x400 == 0x37 then Malformed(1)
      else if c1 / 0x400 != 0x36 then
        if c1 > max then Malformed(1) else Consume(2, [c1])
      else if |s| < 4 then CutShort
      else
        var c2 := Unit(s[2], s[3], order);
        if c2 / 0x400 != 0x37 then Malformed(1)
        else
          var t := Utf8Codecs.PairBits(c1, c2);
          if t > max then Malformed(1) else Consume(4, [t])
  }

  function Ucs4ToUtf16Turn(max: nat, order: Order): (turn: seq<Unit32> -> Step<Byte>)
    ensures Steady(turn)
  {
    var turn := (s: seq<Unit32>) => if s == [] then CutShort else Ucs4ToUtf16(s, max, order);
    assert Steady(turn) by {
      forall s: seq<Unit32> ensures SteadyAt(turn, s) {
        forall t: seq<Unit32> | s != [] && Ucs4ToUtf16(s, max, order).Consume? { Ucs4ToUtf16Prefix(s, t, max, order); }
      }
    }
    turn
  }

  lemma Ucs4ToUtf16Prefix(s: seq<Unit32>, t: seq<Unit32>, max: nat, order: Order)
    requires s != [] && Ucs4ToUtf16(s, max, order).Consume?
    ensures Ucs4ToUtf16(s + t, max, order) == Ucs4ToUtf16(s, max, order)
  {
  }

  function Utf16ToUcs4Turn(max: nat, order: Order): (turn: seq<Byte> -> Step<Unit32>)
    ensures Steady(turn)
  {
    var turn := (s: seq<Byte>) => if s == [] then CutShort else Utf16ToUcs4(s, max, order);
    assert Steady(turn) by {
      forall s: seq<Byte> ensures SteadyAt(turn, s) {
        forall t: seq<Byte> | s != [] && Utf16ToUcs4(s, max, order).Consume? { Utf16ToUcs4Prefix(s, t, max, order); }
      }
    }
    turn
  }

  lemma Utf16ToUcs4Prefix(s: seq<Byte>, t: seq<Byte>, max: nat, order: Order)
    requires s != [] && Utf16ToUcs4(s, max, order).Consume?
    ensures Utf16ToUcs4(s + t, max, order) == Utf16ToUcs4(s, max, order)
  {
  }

  // ----- what one turn means

  lemma SurrogatesOf(wc: nat)
    requires 0x1_0000 <= wc < 0x11_0000
    ensures IsHigh(High(wc)) && IsLow(Low(wc)) && Utf16Value([High(wc), Low(wc)]) == wc
  {
    assert wc / 0x1_0000 == wc / 0x400 / 0x40;
    assert wc / 0x400 == 0x40 * (wc / 0x1_0000) + wc / 0x400 % 0x40;
    assert wc == 0x400 * (wc / 0x400) + wc % 0x400;
  }

  /** The units that the bytes of one character stand for. */
  function Units(b: seq<Byte>, order: Order): seq<Unit16>
    requires |b| == 2 || |b| == 4
  {
    if |b| == 2 then [Unit(b[0], b[1], order)] else [Unit(b[0], b[1], order), Unit(b[2], b[3], order)]
  }

  predicate BytesPrefix(b: seq<Byte>, n: nat, max: nat, order: Order) {
    && n <= |b| && (n == 2 || n == 4)
    && Utf16Char(Units(b[..n], order)) && Utf16Value(Units(b[..n], order)) <= max
  }

  function Utf16CharIn(max: nat, order: Order): (seq<Byte>, nat) -> bool {
    (b: seq<Byte>, n: nat) => BytesPrefix(b, n, max, order)
  }

  lemma Utf16ToUcs4Meaning(s: seq<Byte>, max: nat, order: Order)
    requires s != [] && Utf16ToUcs4(s, max, order).Consume?
    ensures var r := Utf16ToUcs4(s, max, order);
      BytesPrefix(s, r.taken, max, order) && r.units == [Utf16Value(Units(s[..r.taken], order))]
  {
    if Utf16ToUcs4(s, max, order).taken == 4 {
      Utf8Codecs.PairMeaning(Unit(s[0], s[1], order) - 0xD800, Unit(s[2], s[3], order) - 0xDC00);
    }
  }

  lemma Utf16ToUcs4Complete(s: seq<Byte>, n: nat, max: nat, order: Order)
    requires BytesPrefix(s, n, max, order)
    ensures Utf16ToUcs4(s, max, order) == Consume(n, [Utf16Value(Units(s[..n], order))])
  {
    if n == 4 {
      Utf8Codecs.PairMeaning(Unit(s[0], s[1], order) - 0xD800, Unit(s[2], s[3], order) - 0xDC00);
    }
  }

  /** A turn of the encoder writes the bytes of the UTF-16 form of a code point, and rejects surrogates and what exceeds max. */
  lemma Ucs4ToUtf16Meaning(s: seq<Unit32>, max: nat, order: Order)
    requires s != []
    ensures var r := Ucs4ToUtf16(s, max, order);
      && (r.Malformed? <==> !Utf8Codecs.Ucs4Accepted(s[0], max))
      && (r.Consume? <==> Utf8Codecs.Ucs4Accepted(s[0], max))
      && (r.Consume? ==> r.taken == 1 && (|r.units| == 2 || |r.units| == 4))
      && (r.Consume? && s[0] <= 0x10_FFFF ==>
            Utf16Char(Units(r.units, order)) && Utf16Value(Units(r.units, order)) == s[0])
  {
    if 0x1_0000 <= s[0] < 0x11_0000 {
      SurrogatesOf(s[0]);
      UnitRoundTrip(High(s[0]), 0, 0, order);
      UnitRoundTrip(Low(s[0]), 0, 0, order);
    } else if s[0] < 0x1_0000 {
      UnitRoundTrip(s[0], 0, 0, order);
    }
  }

  // ----- there and back

  lemma SameUnits(a: seq<Byte>, b: seq<Byte>, order: Order)
    requires |a| == |b| && (|a| == 2 || |a| == 4) && Units(a, order) == Units(b, order)
    ensures a == b
  {
    SameUnit(a[0], a[1], b[0], b[1], order);
    if |a| == 4 { SameUnit(a[2], a[3], b[2], b[3], order); }
  }

  lemma SameUnit(a0: Byte, a1: Byte, b0: Byte, b1: Byte, order: Order)
    requires Unit(a0, a1, order) == Unit(b0, b1, order)
    ensures a0 == b0 && a1 == b1
  {
  }

  lemma BytesUnique(a: seq<Byte>, b: seq<Byte>, order: Order)
    requires (|a| == 2 || |a| == 4) && (|b| == 2 || |b| == 4)
    requires Utf16Char(Units(a, order)) && Utf16Char(Units(b, order))
    requires Utf16Value(Units(a, order)) == Utf16Value(Units(b, order))
    ensures a == b
  {
    Utf16Unique(Units(a, order), Units(b, order));
    assert |Units(a, order)| == |Units(b, order)|;
    SameUnits(a, b, order);
  }

  lemma Ucs4Decodes(max: nat, order: Order)
    requires max <= 0x10_FFFF
    ensures Undoes(Ucs4ToUtf16Turn(max, order), Utf16ToUcs4Turn(max, order))
  {
    forall s: seq<Unit32> | s != [] && Ucs4ToUtf16(s, max, order).Consume?
      ensures UndoesTurn(Ucs4ToUtf16(s, max, order), Utf16ToUcs4Turn(max, order), s)
    {
      var r := Ucs4ToUtf16(s, max, order);
      Ucs4ToUtf16Meaning(s, max, order);
      forall t ensures Utf16ToUcs4Turn(max, order)(r.units + t) == Consume(|r.units|, s[..r.taken]) {
        assert (r.units + t)[..|r.units|] == r.units;
        Utf16ToUcs4Complete(r.units + t, |r.units|, max, order);
      }
    }
  }

  lemma Ucs4Encodes(max: nat, order: Order)
    ensures Undoes(Utf16ToUcs4Turn(max, order), Ucs4ToUtf16Turn(max, order))
  {
    forall s: seq<Byte> | s != [] && Utf16ToUcs4(s, max, order).Consume?
      ensures UndoesTurn(Utf16ToUcs4(s, max, order), Ucs4ToUtf16Turn(max, order), s)
    {
      var r := Utf16ToUcs4(s, max, order);
      Utf16ToUcs4Meaning(s, max, order);
      forall t ensures Ucs4ToUtf16Turn(max, order)(r.units + t) == Consume(|r.units|, s[..r.taken]) {
        Ucs4ToUtf16Meaning(r.units + t, max, order);
        BytesUnique(Ucs4ToUtf16(r.units + t, max, order).units, s[..r.taken], order);
      }
    }
  }

  lemma DecodedIsCodePoint(b: seq<Byte>, max: nat, order: Order)
    requires b != [] && max > 0x10_FFFF
    ensures Utf16ToUcs4(b, max, order) == Utf16ToUcs4(b, 0x10_FFFF, order)
    ensures Utf16ToUcs4(b, max, order).Consume? ==> Utf16ToUcs4(b, max, order).units[0] <= 0x10_FFFF
  {
    if Utf16ToUcs4(b, max, order).Consume? {
      Utf16ToUcs4Meaning(b, max, order);
      Utf16ToUcs4Complete(b, Utf16ToUcs4(b, max, order).taken, 0x10_FFFF, order);
    }
  }

  /** Beyond the last code point the limit makes no difference to the decoder, nor to the encoder of code points. */
  lemma LastCodePoint(max: nat, order: Order, s: seq<Unit32>, b: seq<Byte>, room: nat, space: nat)
    requires max > 0x10_FFFF
    ensures (forall u | u in s :: u <= 0x10_FFFF) ==>
      Run(Ucs4ToUtf16Turn(max, order), s, room) == Run(Ucs4ToUtf16Turn(0x10_FFFF, order), s, room)
    ensures Run(Utf16ToUcs4Turn(max, order), b, space) == Run(Utf16ToUcs4Turn(0x10_FFFF, order), b, space)
    ensures forall u | u in Run(Utf16ToUcs4Turn(max, order), b, space).units :: u <= 0x10_FFFF
  {
    if forall u | u in s :: u <= 0x10_FFFF {
      forall i | 0 <= i < |s| ensures Ucs4ToUtf16Turn(max, order)(s[i..]) == Ucs4ToUtf16Turn(0x10_FFFF, order)(s[i..]) {
        assert s[i..][0] == s[i] && s[i] in s;
      }
      SameRun(Ucs4ToUtf16Turn(max, order), Ucs4ToUtf16Turn(0x10_FFFF, order), s, room);
    }
    forall i | 0 <= i < |b| ensures Utf16ToUcs4Turn(max, order)(b[i..]) == Utf16ToUcs4Turn(0x10_FFFF, order)(b[i..]) {
      DecodedIsCodePoint(b[i..], max, order);
    }
    SameRun(Utf16ToUcs4Turn(max, order), Utf16ToUcs4Turn(0x10_FFFF, order), b, space);
    forall r: seq<Byte> | r != [] && Utf16ToUcs4Turn(max, order)(r).Consume?
      ensures AllFit(Utf16ToUcs4Turn(max, order)(r).units, Utf8Theorems.IsCodePoint())
    {
      DecodedIsCodePoint(r, max, order);
    }
    EmitsOnly(Utf16ToUcs4Turn(max, order), Utf8Theorems.IsCodePoint(), b, space);
  }

  /**
   * UCS-4 to UTF-16 in bytes and back, and UTF-16 in bytes to UCS-4 and back. What the encoder accepts returns if and
   * only if it is made of code points. What the decoder accepts always returns.
   */
  lemma RoundTrips(max: nat, order: Order, s: seq<Unit32>, b: seq<Byte>, room: nat, space: nat)
    ensures var e := Run(Ucs4ToUtf16Turn(max, order), s, room);
      e.status == Ok && |s| <= space ==>
        (Run(Utf16ToUcs4Turn(max, order), e.units, space) == Outcome(Ok, |e.units|, s)
         <==> forall u | u in s :: u <= 0x10_FFFF)
    ensures var d := Run(Utf16ToUcs4Turn(max, order), b, room);
      d.status == Ok && |b| <= space
      ==> Run(Ucs4ToUtf16Turn(max, order), d.units, space) == Outcome(Ok, |d.units|, b)
  {
    if Run(Ucs4ToUtf16Turn(max, order), s, room).status == Ok && |s| <= space { EncodedReturns(max, order, s, room, space); }
    if Run(Utf16ToUcs4Turn(max, order), b, room).status == Ok && |b| <= space {
      Ucs4Encodes(max, order);
      RoundTrip(Utf16ToUcs4Turn(max, order), Ucs4ToUtf16Turn(max, order), b, room, space);
    }
  }

  lemma EncodedReturns(max: nat, order: Order, s: seq<Unit32>, room: nat, space: nat)
    requires Run(Ucs4ToUtf16Turn(max, order), s, room).status == Ok && |s| <= space
    ensures var b := Run(Ucs4ToUtf16Turn(max, order), s, room).units;
      Run(Utf16ToUcs4Turn(max, order), b, space) == Outcome(Ok, |b|, s) <==> forall u | u in s :: u <= 0x10_FFFF
  {
    var b := Run(Ucs4ToUtf16Turn(max, order), s, room).units;
    if max <= 0x10_FFFF {
      Ucs4Decodes(max, order);
      RoundTrip(Ucs4ToUtf16Turn(max, order), Utf16ToUcs4Turn(max, order), s, room, space);
      Ucs4ToUtf16Accepts(s, max, order, room);
    } else {
      LastCodePoint(max, order, s, b, room, space);
      if forall u | u in s :: u <= 0x10_FFFF {
        Ucs4Decodes(0x10_FFFF, order);
        RoundTrip(Ucs4ToUtf16Turn(0x10_FFFF, order), Utf16ToUcs4Turn(0x10_FFFF, order), s, room, space);
      }
    }
  }

  lemma Ucs4ToUtf16Tells(max: nat, order: Order)
    ensures Tells(Ucs4ToUtf16Turn(max, order), OneUnit(Utf8Theorems.FitsUcs4(max)), Never(), 4)
  {
    var fits := Utf8Theorems.FitsUcs4(max);
    forall s: seq<Unit32> | s != [] ensures TellsTurn(Ucs4ToUtf16Turn(max, order)(s), OneUnit(fits), Never(), 4, s) {
      Ucs4ToUtf16Meaning(s, max, order);
    }
  }

  /** What the encoder accepts it accepts everywhere; with room it accepts the sequences of such units and nothing else. */
  lemma Ucs4ToUtf16Accepts(s: seq<Unit32>, max: nat, order: Order, room: nat)
    ensures Run(Ucs4ToUtf16Turn(max, order), s, room).status == Ok ==> forall u | u in s :: Utf8Codecs.Ucs4Accepted(u, max)
    ensures 4 * |s| <= room && (forall u | u in s :: Utf8Codecs.Ucs4Accepted(u, max)) ==>
      Run(Ucs4ToUtf16Turn(max, order), s, room).status == Ok
  {
    Ucs4ToUtf16Tells(max, order);
    EncoderAccepts(Ucs4ToUtf16Turn(max, order), Utf8Theorems.FitsUcs4(max), 4, s, room);
  }

  // ----- headers

  /** With the same header mode on both sides the texts return that return without headers. */
  lemma HeadersRoundTrip(max: nat, order: Order, header: bool, s: seq<Unit32>, room: nat, space: nat)
    requires |s| <= space && Encoded(Ucs4ToUtf16Turn(max, order), Mark(order), header, s, room).status == Ok
    ensures var b := Encoded(Ucs4ToUtf16Turn(max, order), Mark(order), header, s, room).units;
      var d := Decoded(Utf16ToUcs4Turn(max, order), Mark(order), header, b, space);
      d == Outcome(Ok, |b|, s) <==> forall u | u in s :: u <= 0x10_FFFF
  {
    hide Ucs4ToUtf16Turn, Utf16ToUcs4Turn;
    var mark := Mark(order);
    if header {
      HeaderAround(Ucs4ToUtf16Turn(max, order), Utf16ToUcs4Turn(max, order), mark, s, room, space);
      EncodedReturns(max, order, s, room - |mark|, space);
    } else {
      EncodedReturns(max, order, s, room, space);
    }
  }

  /** When only the decoder is asked to skip a header, exactly the texts that begin with U+FEFF do not return. */
  lemma UnmatchedHeader(max: nat, order: Order, s: seq<Unit32>, room: nat, space: nat)
    requires |s| <= space && forall u | u in s :: u <= 0x10_FFFF
    requires Run(Ucs4ToUtf16Turn(max, order), s, room).status == Ok
    ensures var b := Run(Ucs4ToUtf16Turn(max, order), s, room).units;
      Decoded(Utf16ToUcs4Turn(max, order), Mark(order), true, b, space) == Outcome(Ok, |b|, s) <==> s == [] || s[0] != 0xFEFF
  {
    hide Ucs4ToUtf16Turn, Utf16ToUcs4Turn;
    var b := Run(Ucs4ToUtf16Turn(max, order), s, room).units;
    EncodedReturns(max, order, s, room, space);
    if s != [] {
      assert s[0] in s;
      MarkFromUcs4(max, order, s, room);
    }
    SkippedMark(Utf16ToUcs4Turn(max, order), b, s, 0xFEFF, space, Mark(order));
  }

  lemma MarkFromUcs4(max: nat, order: Order, s: seq<Unit32>, room: nat)
    requires s != [] && s[0] <= 0x10_FFFF && Run(Ucs4ToUtf16Turn(max, order), s, room).status == Ok
    ensures var b, mark := Run(Ucs4ToUtf16Turn(max, order), s, room).units, Mark(order);
      if s[0] == 0xFEFF then mark <= b && Utf16ToUcs4Turn(max, order)(mark) == Consume(2, [0xFEFF]) else !(mark <= b)
  {
    TakeTurn(Ucs4ToUtf16Turn(max, order), s, room);
    Ucs4ToUtf16Meaning(s, max, order);
    var c, b, mark := Ucs4ToUtf16(s, max, order).units, Run(Ucs4ToUtf16Turn(max, order), s, room).units, Mark(order);
    UnitRoundTrip(0xFEFF, 0, 0, order);
    assert Units(mark, order) == [0xFEFF];
    assert b[0] == c[0] && b[1] == c[1];
    if s[0] == 0xFEFF { BytesUnique(c, mark, order); }
  }

  /** A unit that is not complete, or a high surrogate without a complete unit behind it. */
  predicate BytesShort(s: seq<Byte>, order: Order) {
    |s| < 2 || (|s| < 4 && IsHigh(Unit(s[0], s[1], order)))
  }

  function AreBytesShort(order: Order): seq<Byte> -> bool {
    (s: seq<Byte>) => BytesShort(s, order)
  }

  /** The beginning of a character is cut short. */
  lemma BytesBeginning(s: seq<Byte>, t: seq<Byte>, n: nat, max: nat, order: Order)
    requires |s| < n && BytesPrefix(s + t, n, max, order)
    ensures BytesShort(s, order)
  {
    if |s| >= 2 { assert (s + t)[..n][0] == s[0] && (s + t)[..n][1] == s[1]; }
  }

  lemma Utf16ToUcs4Tells(max: nat, order: Order)
    ensures Tells(Utf16ToUcs4Turn(max, order), Utf16CharIn(max, order), AreBytesShort(order), 1)
  {
    forall s: seq<Byte> | s != []
      ensures TellsTurn(Utf16ToUcs4Turn(max, order)(s), Utf16CharIn(max, order), AreBytesShort(order), 1, s)
    {
      if Utf16ToUcs4(s, max, order).Consume? { Utf16ToUcs4Meaning(s, max, order); }
      forall n: nat | BytesPrefix(s, n, max, order) { Utf16ToUcs4Complete(s, n, max, order); }
    }
  }

  /** The decoder accepts exactly the texts of RFC 2781 in its byte order, up to max. */
  lemma Utf16ToUcs4Accepts(b: seq<Byte>, max: nat, order: Order, room: nat)
    requires |b| <= room
    ensures Run(Utf16ToUcs4Turn(max, order), b, room).status == Ok <==> Text(Utf16CharIn(max, order), b)
  {
    Utf16ToUcs4Tells(max, order);
    TellsReads(Utf16ToUcs4Turn(max, order), Utf16CharIn(max, order), AreBytesShort(order), 1);
    Accepts(Utf16ToUcs4Turn(max, order), Utf16CharIn(max, order), 1, b, room);
  }

  /** After such a text: the beginning of a unit or of a surrogate pair is Partial, all else that begins with no character an Error. */
  lemma Utf16ToUcs4Ends(b: seq<Byte>, p: seq<Byte>, max: nat, order: Order, room: nat)
    requires Text(Utf16CharIn(max, order), b) && |b| + 4 <= room && forall n: nat :: !BytesPrefix(p, n, max, order)
    ensures var r := Run(Utf16ToUcs4Turn(max, order), b + p, room);
      r.taken == |b| && r.status == if p == [] then Ok else if BytesShort(p, order) then Partial else Error
  {
    Utf16ToUcs4Tells(max, order);
    Ends(Utf16ToUcs4Turn(max, order), Utf16CharIn(max, order), AreBytesShort(order), 1, b, p, room);
  }

  /** The encoder takes what it accepts, and ends with an Error exactly if there is something else. */
  lemma Ucs4ToUtf16Ends(b: seq<Unit32>, p: seq<Unit32>, max: nat, order: Order, room: nat)
    requires 4 * |b| + 4 <= room
    requires (forall u | u in b :: Utf8Codecs.Ucs4Accepted(u, max)) && (p != [] ==> !Utf8Codecs.Ucs4Accepted(p[0], max))
    ensures var r := Run(Ucs4ToUtf16Turn(max, order), b + p, room);
      r.taken == |b| && r.status == if p == [] then Ok else Error
  {
    Ucs4ToUtf16Tells(max, order);
    EncoderEnds(Ucs4ToUtf16Turn(max, order), Utf8Theorems.FitsUcs4(max), 4, b, p, room);
  }

  /** The decoder looks at a character if there is room for one unit, the encoder in any case. */
  lemma MalformedNeeds(s: seq<Byte>, u: seq<Unit32>, max: nat, order: Order)
    requires s != [] && u != []
    ensures Utf16ToUcs4(s, max, order).Malformed? ==> Utf16ToUcs4(s, max, order).need == 1
    ensures Ucs4ToUtf16(u, max, order).Malformed? ==> Ucs4ToUtf16(u, max, order).need == 0
  {
  }
}
