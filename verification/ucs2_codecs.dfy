/** The converters for UCS-2: those for UCS-4 without the code points of more than 16 bits. */
module Ucs2Codecs {
  import opened UnicodeForms
  import opened Transcoding
  import opened Utf8Codecs
  import opened Utf16Codecs

  // ----- one turn of each loop

  function Ucs2ToUtf8(s: seq<Unit16>, max: nat): Step<Byte>
    requires s != []
  {
    var wc := s[0];
    if wc / 0x800 == 0x1B || wc > max then Malformed(0)
    else if wc < 0x80 then Consume(1, [wc])
    else if wc < 0x800 then Consume(1, Bytes2(wc))
    else Consume(1, Bytes3(wc))
  }

  function Utf8ToUcs2(s: seq<Byte>, max: nat): Step<Unit16>
    requires s != []
  {
    var c1 := s[0];
    if c1 < 0x80 then
      if c1 > max then Malformed(1) else Consume(1, [c1])
    else if c1 < 0xC2 then Malformed(1)
    else if c1 < 0xE0 then
      if |s| < 2 then CutShort
      else if s[1] / 0x40 != 2 then Malformed(1)
      else
        var t := Bits2(c1, s[1]);
        if t > max then Malformed(1) else Consume(2, [t])
    else if c1 < 0xF0 then
      if |s| < 3 then CutShort
      else if !GoodSecond3(c1, s[1]) || s[2] / 0x40 != 2 then Malformed(1)
      else
        var t := Bits3(c1, s[1], s[2]);
        if t > max then Malformed(1) else Consume(3, [t])
    else Malformed(1)
  }

  function Ucs2ToUtf16(s: seq<Unit16>, max: nat, order: Order): Step<Byte>
    requires s != []
  {
    if s[0] / 0x800 == 0x1B || s[0] > max then Malformed(0) else Consume(1, UnitBytes(s[0], order))
  }

  function Utf16ToUcs2(s: seq<Byte>, max: nat, order: Order): Step<Unit16>
    requires s != []
  {
    if |s| < 2 then CutShort
    else
      var c1 := Unit(s[0], s[1], order);
      if c1 / 0x800 == 0x1B || c1 > max then Malformed(1) else Consume(2, [c1])
  }

  function Ucs2ToUtf8Turn(max: nat): (turn: seq<Unit16> -> Step<Byte>)
    ensures Steady(turn)
  {
    var turn := (s: seq<Unit16>) => if s == [] then CutShort else Ucs2ToUtf8(s, max);
    assert Steady(turn) by {
      forall s: seq<Unit16> ensures SteadyAt(turn, s) {
        forall t: seq<Unit16> | s != [] ensures Ucs2ToUtf8(s + t, max) == Ucs2ToUtf8(s, max) { assert (s + t)[0] == s[0]; }
      }
    }
    turn
  }

  function Utf8ToUcs2Turn(max: nat): (turn: seq<Byte> -> Step<Unit16>)
    ensures Steady(turn)
  {
    var turn := (s: seq<Byte>) => if s == [] then CutShort else Utf8ToUcs2(s, max);
    assert Steady(turn) by {
      forall s: seq<Byte> ensures SteadyAt(turn, s) {
        forall t: seq<Byte> | s != [] && Utf8ToUcs2(s, max).Consume? { Utf8ToUcs2Prefix(s, t, max); }
      }
    }
    turn
  }

  lemma Utf8ToUcs2Prefix(s: seq<Byte>, t: seq<Byte>, max: nat)
    requires s != [] && Utf8ToUcs2(s, max).Consume?
    ensures Utf8ToUcs2(s + t, max) == Utf8ToUcs2(s, max)
  {
  }

  function Ucs2ToUtf16Turn(max: nat, order: Order): (turn: seq<Unit16> -> Step<Byte>)
    ensures Steady(turn)
  {
    var turn := (s: seq<Unit16>) => if s == [] then CutShort else Ucs2ToUtf16(s, max, order);
    assert Steady(turn) by {
      forall s: seq<Unit16> ensures SteadyAt(turn, s) {
        forall t: seq<Unit16> | s != [] ensures Ucs2ToUtf16(s + t, max, order) == Ucs2ToUtf16(s, max, order) {
          assert (s + t)[0] == s[0];
        }
      }
    }
    turn
  }

  function Utf16ToUcs2Turn(max: nat, order: Order): (turn: seq<Byte> -> Step<Unit16>)
    ensures Steady(turn)
  {
    var turn := (s: seq<Byte>) => if s == [] then CutShort else Utf16ToUcs2(s, max, order);
    assert Steady(turn) by {
      forall s: seq<Byte> ensures SteadyAt(turn, s) {
        forall t: seq<Byte> | |s| >= 2 ensures Utf16ToUcs2(s + t, max, order) == Utf16ToUcs2(s, max, order) {
          assert (s + t)[0] == s[0] && (s + t)[1] == s[1];
        }
      }
    }
    turn
  }

  // ----- what one turn means

  /** A character of the basic plane, up to max. */
  function Plane0(max: nat): nat {
    if max < 0xFFFF then max else 0xFFFF
  }

  /** The decoder takes exactly what that for UCS-4 takes with the smaller limit. */
  lemma Utf8ToUcs2Meaning(s: seq<Byte>, max: nat)
    requires s != []
    ensures var r, t := Utf8ToUcs2(s, max), Utf8ToUcs4(s, Plane0(max));
      && (r.Consume? <==> t.Consume?)
      && (r.Consume? ==> r.taken == t.taken && r.units == t.units)
  {
    if Utf8ToUcs4(s, Plane0(max)).Consume? {
      Utf8ToUcs4Meaning(s, Plane0(max));
      Utf8ValueRange(s[..Utf8ToUcs4(s, Plane0(max)).taken]);
    }
    if Utf8ToUcs2(s, max).Consume? { assert Utf8ToUcs2(s, max).units[0] <= 0xFFFF; }
  }

  lemma Ucs2ToUtf8Meaning(s: seq<Unit16>, max: nat)
    requires s != []
    ensures var r := Ucs2ToUtf8(s, max);
      if IsScalar(s[0]) && s[0] <= max then
        r.Consume? && r.taken == 1 && Utf8Char(r.units) && Utf8Value(r.units) == s[0]
      else r.Malformed?
  {
    var u: Unit32 := s[0];
    Ucs4ToUtf8Meaning([u], Plane0(max));
    assert Ucs2ToUtf8(s, max) == Ucs4ToUtf8([u], Plane0(max));
  }

  // ----- there and back

  lemma Utf8Decodes(max: nat)
    ensures Undoes(Ucs2ToUtf8Turn(max), Utf8ToUcs2Turn(max))
  {
    forall s: seq<Unit16> | s != [] && Ucs2ToUtf8(s, max).Consume?
      ensures UndoesTurn(Ucs2ToUtf8(s, max), Utf8ToUcs2Turn(max), s)
    {
      var r := Ucs2ToUtf8(s, max);
      Ucs2ToUtf8Meaning(s, max);
      forall t ensures Utf8ToUcs2Turn(max)(r.units + t) == Consume(|r.units|, s[..r.taken]) {
        var b := r.units + t;
        assert b[..|r.units|] == r.units && Utf8Prefix(b, |r.units|, Plane0(max));
        Utf8ToUcs4Complete(b, |r.units|, Plane0(max));
        Utf8ToUcs2Meaning(b, max);
      }
    }
  }

  lemma Utf8Encodes(max: nat)
    ensures Undoes(Utf8ToUcs2Turn(max), Ucs2ToUtf8Turn(max))
  {
    forall s: seq<Byte> | s != [] && Utf8ToUcs2(s, max).Consume?
      ensures UndoesTurn(Utf8ToUcs2(s, max), Ucs2ToUtf8Turn(max), s)
    {
      var r := Utf8ToUcs2(s, max);
      Utf8ToUcs2Meaning(s, max);
      Utf8ToUcs4Meaning(s, Plane0(max));
      Utf8ValueRange(s[..r.taken]);
      forall t ensures Ucs2ToUtf8Turn(max)(r.units + t) == Consume(|r.units|, s[..r.taken]) {
        Ucs2ToUtf8Meaning(r.units + t, max);
        Utf8Unique(Ucs2ToUtf8(r.units + t, max).units, s[..r.taken]);
      }
    }
  }

  lemma Utf16UndoneBothWays(max: nat, order: Order)
    ensures Undoes(Ucs2ToUtf16Turn(max, order), Utf16ToUcs2Turn(max, order))
    ensures Undoes(Utf16ToUcs2Turn(max, order), Ucs2ToUtf16Turn(max, order))
  {
    forall s: seq<Unit16> | s != [] && Ucs2ToUtf16(s, max, order).Consume?
      ensures UndoesTurn(Ucs2ToUtf16(s, max, order), Utf16ToUcs2Turn(max, order), s)
    {
      UnitRoundTrip(s[0], 0, 0, order);
      forall t ensures Utf16ToUcs2Turn(max, order)(UnitBytes(s[0], order) + t) == Consume(2, s[..1]) {
        var b := UnitBytes(s[0], order) + t;
        assert b[0] == UnitBytes(s[0], order)[0] && b[1] == UnitBytes(s[0], order)[1];
      }
    }
    forall s: seq<Byte> | s != [] && Utf16ToUcs2(s, max, order).Consume?
      ensures UndoesTurn(Utf16ToUcs2(s, max, order), Ucs2ToUtf16Turn(max, order), s)
    {
      var u := Unit(s[0], s[1], order);
      UnitRoundTrip(u, s[0], s[1], order);
      forall t ensures Ucs2ToUtf16Turn(max, order)([u] + t) == Consume(1, s[..2]) { assert ([u] + t)[0] == u; }
    }
  }

  /** UCS-2 to UTF-8 and back, and UTF-8 to UCS-2 and back: nothing is lost, whatever max is. */
  lemma Utf8RoundTrips(max: nat, s: seq<Unit16>, b: seq<Byte>, room: nat, space: nat)
    ensures var e := Run(Ucs2ToUtf8Turn(max), s, room);
      e.status == Ok && |s| <= space ==> Run(Utf8ToUcs2Turn(max), e.units, space) == Outcome(Ok, |e.units|, s)
    ensures var d := Run(Utf8ToUcs2Turn(max), b, room);
      d.status == Ok && |b| <= space ==> Run(Ucs2ToUtf8Turn(max), d.units, space) == Outcome(Ok, |d.units|, b)
  {
    Utf8Decodes(max);
    Utf8Encodes(max);
    if Run(Ucs2ToUtf8Turn(max), s, room).status == Ok && |s| <= space {
      RoundTrip(Ucs2ToUtf8Turn(max), Utf8ToUcs2Turn(max), s, room, space);
    }
    if Run(Utf8ToUcs2Turn(max), b, room).status == Ok && |b| <= space {
      RoundTrip(Utf8ToUcs2Turn(max), Ucs2ToUtf8Turn(max), b, room, space);
    }
  }

  lemma Utf16RoundTrips(max: nat, order: Order, s: seq<Unit16>, b: seq<Byte>, room: nat, space: nat)
    ensures var e := Run(Ucs2ToUtf16Turn(max, order), s, room);
      e.status == Ok && |s| <= space ==> Run(Utf16ToUcs2Turn(max, order), e.units, space) == Outcome(Ok, |e.units|, s)
    ensures var d := Run(Utf16ToUcs2Turn(max, order), b, room);
      d.status == Ok && |b| <= space ==> Run(Ucs2ToUtf16Turn(max, order), d.units, space) == Outcome(Ok, |d.units|, b)
  {
    Utf16UndoneBothWays(max, order);
    if Run(Ucs2ToUtf16Turn(max, order), s, room).status == Ok && |s| <= space {
      RoundTrip(Ucs2ToUtf16Turn(max, order), Utf16ToUcs2Turn(max, order), s, room, space);
    }
    if Run(Utf16ToUcs2Turn(max, order), b, room).status == Ok && |b| <= space {
      RoundTrip(Utf16ToUcs2Turn(max, order), Ucs2ToUtf16Turn(max, order), b, room, space);
    }
  }

  // ----- what is accepted

  /** Less bytes than the first one announces, which is no character of more than 16 bits. */
  function IsShortUcs2(): seq<Byte> -> bool {
    (s: seq<Byte>) => Utf8Short(s) && Utf8Length(s[0]) < 4
  }

  lemma Utf8ToUcs2Tells(max: nat)
    ensures Tells(Utf8ToUcs2Turn(max), Utf8CharUpTo(Plane0(max)), IsShortUcs2(), 1)
  {
    forall s: seq<Byte> | s != []
      ensures TellsTurn(Utf8ToUcs2Turn(max)(s), Utf8CharUpTo(Plane0(max)), IsShortUcs2(), 1, s)
    {
      Utf8ToUcs2Meaning(s, max);
      if Utf8ToUcs2(s, max).Consume? { Utf8ToUcs4Meaning(s, Plane0(max)); }
      forall n: nat | Utf8Prefix(s, n, Plane0(max)) { Utf8ToUcs4Complete(s, n, Plane0(max)); }
    }
  }

  /** The decoder accepts exactly the UTF8-octets of characters of the basic plane, up to max. */
  lemma Utf8ToUcs2Accepts(b: seq<Byte>, max: nat, room: nat)
    requires |b| <= room
    ensures Run(Utf8ToUcs2Turn(max), b, room).status == Ok <==> Utf8Octets(b, Plane0(max))
  {
    Utf8ToUcs2Tells(max);
    TellsReads(Utf8ToUcs2Turn(max), Utf8CharUpTo(Plane0(max)), IsShortUcs2(), 1);
    Accepts(Utf8ToUcs2Turn(max), Utf8CharUpTo(Plane0(max)), 1, b, room);
  }

  /** After such a text: a part of a character as announced, of at most three bytes, is Partial, all else an Error. */
  lemma Utf8ToUcs2Ends(b: seq<Byte>, p: seq<Byte>, max: nat, room: nat)
    requires Utf8Octets(b, Plane0(max)) && |b| + 4 <= room && forall n: nat :: !Utf8Prefix(p, n, Plane0(max))
    ensures var r := Run(Utf8ToUcs2Turn(max), b + p, room);
      r.taken == |b| && r.status == if p == [] then Ok else if |p| < Utf8Length(p[0]) < 4 then Partial else Error
  {
    Utf8ToUcs2Tells(max);
    Ends(Utf8ToUcs2Turn(max), Utf8CharUpTo(Plane0(max)), IsShortUcs2(), 1, b, p, room);
  }

  function UnitIn(max: nat, order: Order): (seq<Byte>, nat) -> bool {
    (b: seq<Byte>, n: nat) => IsUnit(b, n, max, order)
  }

  /** Two bytes that are a scalar value up to max. */
  predicate IsUnit(b: seq<Byte>, n: nat, max: nat, order: Order) {
    n == 2 <= |b| && IsScalar(Unit(b[0], b[1], order)) && Unit(b[0], b[1], order) <= max
  }

  function IsHalfUnit(): seq<Byte> -> bool {
    (s: seq<Byte>) => |s| < 2
  }

  lemma Utf16ToUcs2Tells(max: nat, order: Order)
    ensures Tells(Utf16ToUcs2Turn(max, order), UnitIn(max, order), IsHalfUnit(), 1)
  {
    forall s: seq<Byte> | s != []
      ensures TellsTurn(Utf16ToUcs2Turn(max, order)(s), UnitIn(max, order), IsHalfUnit(), 1, s)
    {
    }
  }

  lemma Utf16ToUcs2Accepts(b: seq<Byte>, max: nat, order: Order, room: nat)
    requires |b| <= room
    ensures Run(Utf16ToUcs2Turn(max, order), b, room).status == Ok <==> Text(UnitIn(max, order), b)
  {
    Utf16ToUcs2Tells(max, order);
    TellsReads(Utf16ToUcs2Turn(max, order), UnitIn(max, order), IsHalfUnit(), 1);
    Accepts(Utf16ToUcs2Turn(max, order), UnitIn(max, order), 1, b, room);
  }

  /** After such a text: half a unit is Partial, any other unit an Error. */
  lemma Utf16ToUcs2Ends(b: seq<Byte>, p: seq<Byte>, max: nat, order: Order, room: nat)
    requires Text(UnitIn(max, order), b) && |b| + 4 <= room && !IsUnit(p, 2, max, order)
    ensures var r := Run(Utf16ToUcs2Turn(max, order), b + p, room);
      r.taken == |b| && r.status == if p == [] then Ok else if |p| < 2 then Partial else Error
  {
    Utf16ToUcs2Tells(max, order);
    Ends(Utf16ToUcs2Turn(max, order), UnitIn(max, order), IsHalfUnit(), 1, b, p, room);
  }

  predicate Ucs2Accepted(u: Unit16, max: nat) {
    IsScalar(u) && u <= max
  }

  function FitsUcs2(max: nat): Unit16 -> bool {
    (u: Unit16) => Ucs2Accepted(u, max)
  }

  /** The encoders take scalar values up to max, and end with an Error exactly if there is something else. */
  lemma EncodersEnd(b: seq<Unit16>, p: seq<Unit16>, max: nat, order: Order, room: nat)
    requires (forall u | u in b :: Ucs2Accepted(u, max)) && (p != [] ==> !Ucs2Accepted(p[0], max)) && 3 * |b| + 4 <= room
    ensures var r := Run(Ucs2ToUtf8Turn(max), b + p, room);
      r.taken == |b| && r.status == if p == [] then Ok else Error
    ensures var r := Run(Ucs2ToUtf16Turn(max, order), b + p, room);
      r.taken == |b| && r.status == if p == [] then Ok else Error
  {
    var fits := FitsUcs2(max);
    forall s: seq<Unit16> | s != [] ensures TellsTurn(Ucs2ToUtf8Turn(max)(s), OneUnit(fits), Never(), 3, s) {
      Ucs2ToUtf8Meaning(s, max);
    }
    EncoderEnds(Ucs2ToUtf8Turn(max), fits, 3, b, p, room);
    forall s: seq<Unit16> | s != [] ensures TellsTurn(Ucs2ToUtf16Turn(max, order)(s), OneUnit(fits), Never(), 2, s) {}
    EncoderEnds(Ucs2ToUtf16Turn(max, order), fits, 2, b, p, room);
  }

  /** The decoders look at a character if there is room for one unit, the encoders in any case. */
  lemma SmallFormsNeed(s: seq<Byte>, u: seq<Unit16>, max: nat, order: Order)
    requires s != [] && u != []
    ensures Utf8ToUcs2(s, max).Malformed? ==> Utf8ToUcs2(s, max).need == 1
    ensures Utf16ToUcs2(s, max, order).Malformed? ==> Utf16ToUcs2(s, max, order).need == 1
    ensures Ucs2ToUtf8(u, max).Malformed? ==> Ucs2ToUtf8(u, max).need == 0
    ensures Ucs2ToUtf16(u, max, order).Malformed? ==> Ucs2ToUtf16(u, max, order).need == 0
  {
  }
}
