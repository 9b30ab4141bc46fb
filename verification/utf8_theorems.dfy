/** What the UTF-8 converters accept, and that they undo each other. */
module Utf8Theorems {
  import opened UnicodeForms
  import opened Transcoding
  import opened Utf8Codecs

  // ----- UCS-4

  /** A well-formed character is decoded whatever follows it. */
  lemma DecodeToUcs4(b: seq<Byte>, t: seq<Byte>, max: nat)
    requires Utf8Char(b) && Utf8Value(b) <= max
    ensures Utf8ToUcs4Turn(max)(b + t) == Consume(|b|, [Utf8Value(b)])
  {
    assert (b + t)[..|b|] == b && Utf8Prefix(b + t, |b|, max);
    Utf8ToUcs4Complete(b + t, |b|, max);
  }

  lemma Ucs4Decodes(max: nat)
    requires max <= 0x10_FFFF
    ensures Undoes(Ucs4ToUtf8Turn(max), Utf8ToUcs4Turn(max))
  {
    forall s: seq<Unit32> | s != [] && Ucs4ToUtf8(s, max).Consume?
      ensures UndoesTurn(Ucs4ToUtf8(s, max), Utf8ToUcs4Turn(max), s)
    {
      var r := Ucs4ToUtf8(s, max);
      Ucs4ToUtf8Meaning(s, max);
      forall t { DecodeToUcs4(r.units, t, max); }
    }
  }

  lemma Ucs4Encodes(max: nat)
    ensures Undoes(Utf8ToUcs4Turn(max), Ucs4ToUtf8Turn(max))
  {
    forall s: seq<Byte> | s != [] && Utf8ToUcs4(s, max).Consume?
      ensures UndoesTurn(Utf8ToUcs4(s, max), Ucs4ToUtf8Turn(max), s)
    {
      var r := Utf8ToUcs4(s, max);
      Utf8ToUcs4Meaning(s, max);
      Utf8ValueRange(s[..r.taken]);
      forall t ensures Ucs4ToUtf8Turn(max)(r.units + t) == Consume(|r.units|, s[..r.taken]) {
        var e := Ucs4ToUtf8(r.units + t, max);
        Ucs4ToUtf8Meaning(r.units + t, max);
        Utf8Unique(e.units, s[..r.taken]);
      }
    }
  }

  /** Beyond the last code point the limit makes no difference to the decoder, nor to the encoder of code points. */
  lemma LastCodePoint(max: nat, s: seq<Unit32>, b: seq<Byte>, room: nat, space: nat)
    requires max > 0x10_FFFF
    ensures (forall u | u in s :: u <= 0x10_FFFF) ==>
      Run(Ucs4ToUtf8Turn(max), s, room) == Run(Ucs4ToUtf8Turn(0x10_FFFF), s, room)
    ensures Run(Utf8ToUcs4Turn(max), b, space) == Run(Utf8ToUcs4Turn(0x10_FFFF), b, space)
    ensures forall u | u in Run(Utf8ToUcs4Turn(max), b, space).units :: u <= 0x10_FFFF
  {
    hide Run, Steady, Ucs4ToUtf8Turn, Utf8ToUcs4Turn;
    if forall u | u in s :: u <= 0x10_FFFF { EncodedCodePoints(max, s, room); }
    DecodedCodePoints(max, b, space);
  }

  lemma EncodedCodePoints(max: nat, s: seq<Unit32>, room: nat)
    requires max > 0x10_FFFF && forall u | u in s :: u <= 0x10_FFFF
    ensures Run(Ucs4ToUtf8Turn(max), s, room) == Run(Ucs4ToUtf8Turn(0x10_FFFF), s, room)
  {
    hide Run;
    forall i | 0 <= i < |s| ensures Ucs4ToUtf8Turn(max)(s[i..]) == Ucs4ToUtf8Turn(0x10_FFFF)(s[i..]) {
      assert s[i..][0] == s[i] && s[i] in s;
    }
    SameRun(Ucs4ToUtf8Turn(max), Ucs4ToUtf8Turn(0x10_FFFF), s, room);
  }

  lemma DecodedCodePoints(max: nat, b: seq<Byte>, space: nat)
    requires max > 0x10_FFFF
    ensures Run(Utf8ToUcs4Turn(max), b, space) == Run(Utf8ToUcs4Turn(0x10_FFFF), b, space)
    ensures forall u | u in Run(Utf8ToUcs4Turn(max), b, space).units :: u <= 0x10_FFFF
  {
    hide Run, Utf8ToUcs4;
    forall i | 0 <= i < |b| ensures Utf8ToUcs4Turn(max)(b[i..]) == Utf8ToUcs4Turn(0x10_FFFF)(b[i..]) {
      DecodedIsScalar(b[i..], max);
    }
    SameRun(Utf8ToUcs4Turn(max), Utf8ToUcs4Turn(0x10_FFFF), b, space);
    forall r: seq<Byte> | r != [] && Utf8ToUcs4Turn(max)(r).Consume?
      ensures AllFit(Utf8ToUcs4Turn(max)(r).units, IsCodePoint())
    {
      DecodedIsScalar(r, max);
    }
    EmitsOnly(Utf8ToUcs4Turn(max), IsCodePoint(), b, space);
  }

  function IsCodePoint(): Unit32 -> bool {
    (u: Unit32) => u <= 0x10_FFFF
  }

  lemma DecodedIsScalar(b: seq<Byte>, max: nat)
    requires b != [] && max > 0x10_FFFF
    ensures Utf8ToUcs4(b, max) == Utf8ToUcs4(b, 0x10_FFFF)
    ensures Utf8ToUcs4(b, max).Consume? ==> |Utf8ToUcs4(b, max).units| == 1 && Utf8ToUcs4(b, max).units[0] <= 0x10_FFFF
  {
    if Utf8ToUcs4(b, max).Consume? {
      var n := Utf8ToUcs4(b, max).taken;
      Utf8ToUcs4Meaning(b, max);
      Utf8ValueRange(b[..n]);
      Utf8ToUcs4Complete(b, n, 0x10_FFFF);
    }
  }

  /**
   * UCS-4 to UTF-8 and back, and UTF-8 to UCS-4 and back. What the encoder accepts returns if and only if it is made
   * of code points; with a limit above the last of them it accepts more. What the decoder accepts always returns.
   */
  lemma Ucs4RoundTrips(max: nat, s: seq<Unit32>, b: seq<Byte>, room: nat, space: nat)
    ensures var e := Run(Ucs4ToUtf8Turn(max), s, room);
      e.status == Ok && |s| <= space ==>
        (Run(Utf8ToUcs4Turn(max), e.units, space) == Outcome(Ok, |e.units|, s) <==> forall u | u in s :: u <= 0x10_FFFF)
    ensures var d := Run(Utf8ToUcs4Turn(max), b, room);
      d.status == Ok && |b| <= space
      ==> Run(Ucs4ToUtf8Turn(max), d.units, space) == Outcome(Ok, |d.units|, b)
  {
    var e := Run(Ucs4ToUtf8Turn(max), s, room);
    if e.status == Ok && |s| <= space {
      if max <= 0x10_FFFF {
        Ucs4Decodes(max);
        RoundTrip(Ucs4ToUtf8Turn(max), Utf8ToUcs4Turn(max), s, room, space);
        Ucs4ToUtf8Accepts(s, max, room);
      } else {
        LastCodePoint(max, s, e.units, room, space);
        if forall u | u in s :: u <= 0x10_FFFF {
          Ucs4Decodes(0x10_FFFF);
          RoundTrip(Ucs4ToUtf8Turn(0x10_FFFF), Utf8ToUcs4Turn(0x10_FFFF), s, room, space);
        }
      }
    }
    if Run(Utf8ToUcs4Turn(max), b, room).status == Ok && |b| <= space {
      Ucs4Encodes(max);
      RoundTrip(Utf8ToUcs4Turn(max), Ucs4ToUtf8Turn(max), b, room, space);
    }
  }

  function IsUtf8Short(): seq<Byte> -> bool {
    (s: seq<Byte>) => Utf8Short(s)
  }

  lemma Utf8ToUcs4Tells(max: nat)
    ensures Tells(Utf8ToUcs4Turn(max), Utf8CharUpTo(max), IsUtf8Short(), 1)
  {
    forall s: seq<Byte> | s != [] ensures TellsTurn(Utf8ToUcs4Turn(max)(s), Utf8CharUpTo(max), IsUtf8Short(), 1, s) {
      CutShortMeaning(s, [0], max);
      if Utf8ToUcs4(s, max).Consume? { Utf8ToUcs4Meaning(s, max); }
      forall n: nat | Utf8Prefix(s, n, max) { Utf8ToUcs4Complete(s, n, max); }
    }
  }

  /** After UTF8-octets up to max, what begins with no such character: a part of one as announced is Partial, all else an Error. */
  lemma Utf8ToUcs4Ends(b: seq<Byte>, p: seq<Byte>, max: nat, room: nat)
    requires Utf8Octets(b, max) && |b| + 4 <= room && forall n: nat :: !Utf8Prefix(p, n, max)
    ensures var r := Run(Utf8ToUcs4Turn(max), b + p, room);
      r.taken == |b| && r.status == if p == [] then Ok else if |p| < Utf8Length(p[0]) then Partial else Error
  {
    Utf8ToUcs4Tells(max);
    Ends(Utf8ToUcs4Turn(max), Utf8CharUpTo(max), IsUtf8Short(), 1, b, p, room);
  }

  /** The decoder accepts exactly what section 4 of RFC 3629 calls UTF8-octets, up to max. */
  lemma Utf8ToUcs4Accepts(b: seq<Byte>, max: nat, room: nat)
    requires |b| <= room
    ensures Run(Utf8ToUcs4Turn(max), b, room).status == Ok <==> Utf8Octets(b, max)
  {
    Utf8ToUcs4Tells(max);
    TellsReads(Utf8ToUcs4Turn(max), Utf8CharUpTo(max), IsUtf8Short(), 1);
    Accepts(Utf8ToUcs4Turn(max), Utf8CharUpTo(max), 1, b, room);
  }

  function FitsUcs4(max: nat): Unit32 -> bool {
    (u: Unit32) => Ucs4Accepted(u, max)
  }

  lemma Ucs4ToUtf8Tells(max: nat)
    ensures Tells(Ucs4ToUtf8Turn(max), OneUnit(FitsUcs4(max)), Never(), 4)
  {
    forall s: seq<Unit32> | s != []
      ensures TellsTurn(Ucs4ToUtf8Turn(max)(s), OneUnit(FitsUcs4(max)), Never(), 4, s)
    {
      Ucs4ToUtf8Meaning(s, max);
    }
  }

  /** What it accepts it accepts everywhere; with room it accepts the sequences of such units and nothing else. */
  lemma Ucs4ToUtf8Accepts(s: seq<Unit32>, max: nat, room: nat)
    ensures Run(Ucs4ToUtf8Turn(max), s, room).status == Ok ==> forall u | u in s :: Ucs4Accepted(u, max)
    ensures 4 * |s| <= room && (forall u | u in s :: Ucs4Accepted(u, max)) ==> Run(Ucs4ToUtf8Turn(max), s, room).status == Ok
    ensures max <= 0x10_FFFF ==> forall u | u in s :: Ucs4Accepted(u, max) <==> IsScalar(u) && u <= max
  {
    Ucs4ToUtf8Tells(max);
    EncoderAccepts(Ucs4ToUtf8Turn(max), FitsUcs4(max), 4, s, room);
  }

  /** The encoder takes what it accepts, and ends with an Error exactly if there is something else. */
  lemma Ucs4ToUtf8Ends(b: seq<Unit32>, p: seq<Unit32>, max: nat, room: nat)
    requires (forall u | u in b :: Ucs4Accepted(u, max)) && (p != [] ==> !Ucs4Accepted(p[0], max)) && 4 * |b| + 4 <= room
    ensures var r := Run(Ucs4ToUtf8Turn(max), b + p, room);
      r.taken == |b| && r.status == if p == [] then Ok else Error
  {
    Ucs4ToUtf8Tells(max);
    EncoderEnds(Ucs4ToUtf8Turn(max), FitsUcs4(max), 4, b, p, room);
  }

  // ----- UTF-16

  /** The decoder compares the lead byte itself with max, which matters only to these limits. */
  predicate LeadsFit(max: nat) {
    max < 0x80 || 0xC3 <= max
  }

  /** What the comparison asks of a UTF-16 unit that becomes two bytes. */
  predicate LeadFits(w: nat, max: nat) {
    0x80 <= w < 0x800 ==> 0xC0 + w / 0x40 <= max
  }

  lemma EncodedLead(s: seq<Unit16>, max: nat)
    requires s != [] && Utf16ToUtf8(s, max).Consume?
    ensures var r := Utf16ToUtf8(s, max);
      r.units != [] && (r.units[0] <= max <==> LeadFits(s[0], max)) && (r.taken == 2 ==> LeadFits(s[1], max))
  {
  }

  lemma DecodeToUtf16(s: seq<Unit16>, t: seq<Byte>, max: nat)
    requires s != [] && Utf16ToUtf8(s, max).Consume?
    ensures var r := Utf16ToUtf8(s, max);
      Utf8ToUtf16Turn(max)(r.units + t)
      == if LeadFits(s[0], max) then Consume(|r.units|, s[..r.taken]) else Malformed(1)
  {
    var r := Utf16ToUtf8(s, max);
    Utf16ToUtf8Meaning(s, max);
    EncodedLead(s, max);
    var b := r.units + t;
    assert b[0] == r.units[0];
    if b[0] <= max {
      assert b[..|r.units|] == r.units && Utf8Prefix(b, |r.units|, max);
      Utf8ToUcs4Complete(b, |r.units|, max);
      DecodersAgree(b, max);
      Utf8ToUtf16Meaning(b, max);
      Utf16Unique(Utf8ToUtf16(b, max).units, s[..r.taken]);
    }
  }

  /** Every unit fits but those the comparison is too strict for. */
  function Fits(max: nat): Unit16 -> bool {
    (w: Unit16) => LeadFits(w, max)
  }

  lemma Utf16Decodes(max: nat)
    ensures UndoesIf(Utf16ToUtf8Turn(max), Utf8ToUtf16Turn(max), Fits(max))
  {
    forall s: seq<Unit16> | s != [] && Utf16ToUtf8(s, max).Consume?
      ensures UndoesTurnIf(Utf16ToUtf8(s, max), Utf8ToUtf16Turn(max), Fits(max), s)
    {
      Utf16ToUtf8Meaning(s, max);
      EncodedLead(s, max);
      forall t { DecodeToUtf16(s, t, max); }
    }
  }

  lemma Utf16Encodes(max: nat)
    ensures Undoes(Utf8ToUtf16Turn(max), Utf16ToUtf8Turn(max))
  {
    forall s: seq<Byte> | s != [] && Utf8ToUtf16(s, max).Consume?
      ensures UndoesTurn(Utf8ToUtf16(s, max), Utf16ToUtf8Turn(max), s)
    {
      var r := Utf8ToUtf16(s, max);
      Utf8ToUtf16Meaning(s, max);
      forall t ensures Utf16ToUtf8Turn(max)(r.units + t) == Consume(|r.units|, s[..r.taken]) {
        var w := r.units + t;
        assert w[..|r.units|] == r.units && Utf16Prefix(w, |r.units|, max);
        Utf16ToUtf8Complete(w, |r.units|, max);
        Utf16ToUtf8Meaning(w, max);
        Utf8Unique(Utf16ToUtf8(w, max).units, s[..r.taken]);
      }
    }
  }

  /**
   * With the same header mode on both sides the round trips start and end with a whole call, on the texts that
   * return without headers.
   */
  lemma HeadersRoundTripUtf16(max: nat, header: bool, s: seq<Unit16>, room: nat, space: nat)
    requires |s| <= space && Encoded(Utf16ToUtf8Turn(max), MARK, header, s, room).status == Ok
    ensures var b := Encoded(Utf16ToUtf8Turn(max), MARK, header, s, room).units;
      var d := Decoded(Utf8ToUtf16Turn(max), MARK, header, b, space);
      if forall w | w in s :: LeadFits(w, max) then d == Outcome(Ok, |b|, s) else d.status == Error
  {
    Utf16Decodes(max);
    hide Utf16ToUtf8Turn, Utf8ToUtf16Turn;
    MatchingHeadersIf(Utf16ToUtf8Turn(max), Utf8ToUtf16Turn(max), Fits(max), MARK, header, s, room, space);
  }

  lemma HeadersRoundTripUcs4(max: nat, header: bool, s: seq<Unit32>, room: nat, space: nat)
    requires |s| <= space && Encoded(Ucs4ToUtf8Turn(max), MARK, header, s, room).status == Ok
    ensures var b := Encoded(Ucs4ToUtf8Turn(max), MARK, header, s, room).units;
      var d := Decoded(Utf8ToUcs4Turn(max), MARK, header, b, space);
      d == Outcome(Ok, |b|, s) <==> forall u | u in s :: u <= 0x10_FFFF
  {
    hide Ucs4ToUtf8Turn, Utf8ToUcs4Turn;
    if header {
      HeaderAround(Ucs4ToUtf8Turn(max), Utf8ToUcs4Turn(max), MARK, s, room, space);
      Ucs4RoundTrips(max, s, [], room - |MARK|, space);
    } else {
      Ucs4RoundTrips(max, s, [], room, space);
    }
  }

  /** When only the decoder is asked to skip a header, exactly the texts that begin with U+FEFF do not return. */
  lemma UnmatchedHeaderUcs4(max: nat, s: seq<Unit32>, room: nat, space: nat)
    requires |s| <= space && forall u | u in s :: u <= 0x10_FFFF
    requires Run(Ucs4ToUtf8Turn(max), s, room).status == Ok
    ensures var b := Run(Ucs4ToUtf8Turn(max), s, room).units;
      Decoded(Utf8ToUcs4Turn(max), MARK, true, b, space) == Outcome(Ok, |b|, s) <==> s == [] || s[0] != 0xFEFF
  {
    hide Ucs4ToUtf8Turn, Utf8ToUcs4Turn;
    var b := Run(Ucs4ToUtf8Turn(max), s, room).units;
    Ucs4RoundTrips(max, s, [], room, space);
    if s != [] {
      assert s[0] in s;
      MarkFromUcs4(max, s, room);
    }
    SkippedMark(Utf8ToUcs4Turn(max), b, s, 0xFEFF, space, MARK);
  }

  lemma UnmatchedHeaderUtf16(max: nat, s: seq<Unit16>, room: nat, space: nat)
    requires |s| <= space && forall w | w in s :: LeadFits(w, max)
    requires Run(Utf16ToUtf8Turn(max), s, room).status == Ok
    ensures var b := Run(Utf16ToUtf8Turn(max), s, room).units;
      Decoded(Utf8ToUtf16Turn(max), MARK, true, b, space) == Outcome(Ok, |b|, s) <==> s == [] || s[0] != 0xFEFF
  {
    hide Utf16ToUtf8Turn, Utf8ToUtf16Turn;
    var b := Run(Utf16ToUtf8Turn(max), s, room).units;
    Utf16RoundTrip(max, s, room, space);
    if s != [] { MarkFromUtf16(max, s, room); }
    SkippedMark(Utf8ToUtf16Turn(max), b, s, 0xFEFF, space, MARK);
  }

  /** The encoded text begins with the mark's bytes if and only if the text begins with U+FEFF. */
  lemma MarkFromUcs4(max: nat, t: seq<Unit32>, room: nat)
    requires t != [] && t[0] <= 0x10_FFFF && Run(Ucs4ToUtf8Turn(max), t, room).status == Ok
    ensures var b := Run(Ucs4ToUtf8Turn(max), t, room).units;
      if t[0] == 0xFEFF then MARK <= b && Utf8ToUcs4Turn(max)(MARK) == Consume(3, [0xFEFF]) else !(MARK <= b)
  {
    TakeTurn(Ucs4ToUtf8Turn(max), t, room);
    Ucs4ToUtf8Meaning(t, max);
    FirstChar(Ucs4ToUtf8(t, max).units, Run(Ucs4ToUtf8Turn(max), t, room).units, t[0]);
  }

  lemma MarkFromUtf16(max: nat, s: seq<Unit16>, room: nat)
    requires s != [] && Run(Utf16ToUtf8Turn(max), s, room).status == Ok
    ensures var b := Run(Utf16ToUtf8Turn(max), s, room).units;
      if s[0] == 0xFEFF then MARK <= b && Utf8ToUtf16Turn(max)(MARK) == Consume(3, [0xFEFF]) else !(MARK <= b)
  {
    TakeTurn(Utf16ToUtf8Turn(max), s, room);
    Utf16ToUtf8Meaning(s, max);
    var r := Utf16ToUtf8(s, max);
    FirstChar(r.units, Run(Utf16ToUtf8Turn(max), s, room).units, Utf16Value(s[..r.taken]));
  }

  /** A text that begins with a character begins with the mark only if that is the character. */
  lemma FirstChar(c: seq<Byte>, b: seq<Byte>, value: nat)
    requires Utf8Char(c) && c <= b && Utf8Value(c) == value
    ensures MARK <= b <==> value == 0xFEFF
  {
    assert Utf8Char(MARK) && Utf8Value(MARK) == 0xFEFF;
    if value == 0xFEFF { Utf8Unique(c, MARK); }
    if MARK <= b {
      assert c[0] == b[0] == MARK[0];
      assert c == b[..3] == MARK;
    }
  }

  /** UTF-8 to UTF-16 and back: nothing is lost, whatever max is. */
  lemma Utf8RoundTrip(max: nat, b: seq<Byte>, room: nat, space: nat)
    requires Run(Utf8ToUtf16Turn(max), b, room).status == Ok && |b| <= space
    ensures var w := Run(Utf8ToUtf16Turn(max), b, room).units;
      Run(Utf16ToUtf8Turn(max), w, space) == Outcome(Ok, |w|, b)
  {
    Utf16Encodes(max);
    RoundTrip(Utf8ToUtf16Turn(max), Utf16ToUtf8Turn(max), b, room, space);
  }

  /**
   * UTF-16 to UTF-8 and back: the text returns if and only if the lead bytes of
   * its two-byte characters are at most max. Otherwise the decoder rejects what
   * the encoder wrote for the same max.
   */
  lemma Utf16RoundTrip(max: nat, s: seq<Unit16>, room: nat, space: nat)
    requires Run(Utf16ToUtf8Turn(max), s, room).status == Ok && |s| <= space
    ensures var b := Run(Utf16ToUtf8Turn(max), s, room).units;
      var d := Run(Utf8ToUtf16Turn(max), b, space);
      if forall w | w in s :: LeadFits(w, max) then d == Outcome(Ok, |b|, s) else d.status == Error
  {
    Utf16Decodes(max);
    RoundTripIf(Utf16ToUtf8Turn(max), Utf8ToUtf16Turn(max), Fits(max), s, room, space);
  }

  /** A limit for which that happens: U+0080 encoded and decoded with the limit 0x80. */
  lemma LimitLosesText()
    ensures Utf16ToUtf8Turn(0x80)([0x80]) == Consume(1, [0xC2, 0x80])
    ensures Utf8ToUtf16Turn(0x80)([0xC2, 0x80]) == Malformed(1)
  {
  }

  /** A character up to max whose first byte is at most max as well. */
  predicate Utf8PrefixWithLead(b: seq<Byte>, n: nat, max: nat) {
    Utf8Prefix(b, n, max) && b[0] <= max
  }

  function Utf8CharWithLead(max: nat): (seq<Byte>, nat) -> bool {
    (b: seq<Byte>, n: nat) => Utf8PrefixWithLead(b, n, max)
  }

  /** The decoder accepts exactly the texts of such characters; for most limits these are the UTF8-octets up to max. */
  lemma Utf8ToUtf16Accepts(b: seq<Byte>, max: nat, room: nat)
    requires |b| <= room
    ensures Run(Utf8ToUtf16Turn(max), b, room).status == Ok <==> Text(Utf8CharWithLead(max), b)
    ensures LeadsFit(max) ==> (Text(Utf8CharWithLead(max), b) <==> Utf8Octets(b, max))
  {
    Utf8ToUtf16Tells(max);
    TellsReads(Utf8ToUtf16Turn(max), Utf8CharWithLead(max), IsShortWithLead(max), 1);
    Accepts(Utf8ToUtf16Turn(max), Utf8CharWithLead(max), 1, b, room);
    if LeadsFit(max) { LeadsMakeNoDifference(b, max); }
  }

  function IsShortWithLead(max: nat): seq<Byte> -> bool {
    (s: seq<Byte>) => Utf8Short(s) && s[0] <= max
  }

  lemma Utf8ToUtf16Tells(max: nat)
    ensures Tells(Utf8ToUtf16Turn(max), Utf8CharWithLead(max), IsShortWithLead(max), 1)
  {
    forall s: seq<Byte> | s != []
      ensures TellsTurn(Utf8ToUtf16Turn(max)(s), Utf8CharWithLead(max), IsShortWithLead(max), 1, s)
    {
      CutShortMeaning(s, [0], max);
      if Utf8ToUtf16(s, max).Consume? {
        Utf8ToUtf16Meaning(s, max);
        DecodersAgree(s, max);
      }
      forall n: nat | Utf8PrefixWithLead(s, n, max) ensures Utf8ToUtf16(s, max).Consume? && Utf8ToUtf16(s, max).taken == n {
        Utf8ToUcs4Complete(s, n, max);
        DecodersAgree(s, max);
      }
    }
  }

  /** After such a text: a part of a character as announced is Partial if its first byte is at most max, all else an Error. */
  lemma Utf8ToUtf16Ends(b: seq<Byte>, p: seq<Byte>, max: nat, room: nat)
    requires Text(Utf8CharWithLead(max), b) && |b| + 4 <= room && forall n: nat :: !Utf8PrefixWithLead(p, n, max)
    ensures var r := Run(Utf8ToUtf16Turn(max), b + p, room);
      && r.taken == |b|
      && r.status == if p == [] then Ok else if |p| < Utf8Length(p[0]) && p[0] <= max then Partial else Error
  {
    Utf8ToUtf16Tells(max);
    Ends(Utf8ToUtf16Turn(max), Utf8CharWithLead(max), IsShortWithLead(max), 1, b, p, room);
  }

  lemma {:induction false} LeadsMakeNoDifference(b: seq<Byte>, max: nat)
    requires LeadsFit(max)
    ensures Text(Utf8CharWithLead(max), b) <==> Utf8Octets(b, max)
    decreases |b|
  {
    if b != [] {
      forall n: nat | 0 < n <= |b| && Utf8Prefix(b, n, max)
        ensures b[0] <= max && (Text(Utf8CharWithLead(max), b[n..]) <==> Utf8Octets(b[n..], max))
      {
        LeadsMakeNoDifference(b[n..], max);
      }
    }
  }

  /** For every other limit there is a text up to it that the decoder rejects. */
  lemma LeadsMakeADifference(max: nat, room: nat) returns (b: seq<Byte>)
    requires !LeadsFit(max) && room >= 2
    ensures Utf8Octets(b, max) && Run(Utf8ToUtf16Turn(max), b, room).status == Error
  {
    b := if max == 0xC2 then [0xC3, 0x80] else [0xC2, 0x80];
    assert b[..2] == b && Utf8Prefix(b, 2, max) && b[2..] == [];
    assert Text(Utf8CharUpTo(max), b[2..]);
  }

  function IsUtf16Short(max: nat): seq<Unit16> -> bool {
    (w: seq<Unit16>) => Utf16Short(w) && w[0] <= max
  }

  lemma Utf16ToUtf8Tells(max: nat)
    ensures Tells(Utf16ToUtf8Turn(max), Utf16CharUpTo(max), IsUtf16Short(max), 3)
  {
    forall w: seq<Unit16> | w != []
      ensures TellsTurn(Utf16ToUtf8Turn(max)(w), Utf16CharUpTo(max), IsUtf16Short(max), 3, w)
    {
      CutShortMeaning([0], w, max);
      if Utf16ToUtf8(w, max).Consume? { Utf16ToUtf8Meaning(w, max); }
      forall n: nat | Utf16Prefix(w, n, max) { Utf16ToUtf8Complete(w, n, max); }
    }
  }

  /** The encoder accepts exactly the well-formed UTF-16 texts of RFC 2781, up to max. */
  lemma Utf16ToUtf8Accepts(s: seq<Unit16>, max: nat, room: nat)
    requires 3 * |s| <= room
    ensures Run(Utf16ToUtf8Turn(max), s, room).status == Ok <==> Utf16Text(s, max)
  {
    Utf16ToUtf8Tells(max);
    TellsReads(Utf16ToUtf8Turn(max), Utf16CharUpTo(max), IsUtf16Short(max), 3);
    Accepts(Utf16ToUtf8Turn(max), Utf16CharUpTo(max), 3, s, room);
  }

  /** After such a text: a high surrogate alone, up to max, is Partial, all else that begins with no character an Error. */
  lemma Utf16ToUtf8Ends(b: seq<Unit16>, p: seq<Unit16>, max: nat, room: nat)
    requires Utf16Text(b, max) && 3 * |b| + 4 <= room && forall n: nat :: !Utf16Prefix(p, n, max)
    ensures var r := Run(Utf16ToUtf8Turn(max), b + p, room);
      r.taken == |b| && r.status == if p == [] then Ok else if |p| == 1 && IsHigh(p[0]) && p[0] <= max then Partial else Error
  {
    Utf16ToUtf8Tells(max);
    Ends(Utf16ToUtf8Turn(max), Utf16CharUpTo(max), IsUtf16Short(max), 3, b, p, room);
  }
}
