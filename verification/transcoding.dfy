/**
 * What the code converters have in common: each takes one character after the
 * other from its input until the input ends, is cut short or is malformed, or
 * the output is full.
 */
module Transcoding {
  import opened UnicodeForms

  /** codecvt_base::result. */
  datatype Status = Ok | Partial | Error

  /**
   * One turn of a converter's loop: it takes units and emits some, it finds its
   * input cut short, or it finds it malformed, which it notices only if there is
   * room for need units.
   */
  datatype Step<T> = Consume(taken: nat, units: seq<T>) | CutShort | Malformed(need: nat)

  /** How a call ends, how much input it took and what it wrote. */
  datatype Outcome<T> = Outcome(status: Status, taken: nat, units: seq<T>)

  /** A turn takes some of its input, and input beyond what it takes makes no difference to it. */
  ghost predicate Steady<I(!new), O(!new)>(step: seq<I> -> Step<O>) {
    forall s :: SteadyAt(step, s)
  }

  ghost predicate SteadyAt<I(!new), O(!new)>(step: seq<I> -> Step<O>, s: seq<I>) {
    step(s).Consume? ==> 0 < step(s).taken <= |s| && forall t :: step(s + t) == step(s)
  }

  /** Converts s into at most room units. */
  ghost function Run<I(!new), O(!new)>(step: seq<I> -> Step<O>, s: seq<I>, room: nat): (r: Outcome<O>)
    requires Steady(step)
    ensures r.taken <= |s| && |r.units| <= room
    ensures r.status == Ok ==> r.taken == |s|
  {
    assert SteadyAt(step, s);
    if s == [] then Outcome(Ok, 0, [])
    else match step(s)
      case CutShort => Outcome(Partial, 0, [])
      case Malformed(need) => Outcome(if room < need then Partial else Error, 0, [])
      case Consume(taken, units) =>
        if room < |units| then Outcome(Partial, 0, [])
        else Then(Outcome(Ok, taken, units), Run(step, s[taken..], room - |units|))
  }

  /** One call after the other. */
  function Then<T>(first: Outcome<T>, second: Outcome<T>): Outcome<T> {
    Outcome(second.status, first.taken + second.taken, first.units + second.units)
  }

  /** What remains to be done after one turn. */
  lemma TakeTurn<I(!new), O(!new)>(step: seq<I> -> Step<O>, s: seq<I>, room: nat)
    requires Steady(step) && s != [] && step(s).Consume? && |step(s).units| <= room
    ensures var Consume(n, u) := step(s);
      0 < n <= |s| && Run(step, s, room) == Then(Outcome(Ok, n, u), Run(step, s[n..], room - |u|))
  {
    assert SteadyAt(step, s);
  }

  lemma ThenAssociates<T>(a: Outcome<T>, b: Outcome<T>, c: Outcome<T>)
    ensures Then(Then(a, b), c) == Then(a, Then(b, c))
  {
    assert a.units + b.units + c.units == a.units + (b.units + c.units);
  }

  lemma ThenNothing<T>(status: Status, r: Outcome<T>)
    ensures Then(Outcome(status, 0, []), r) == r
  {
    assert [] + r.units == r.units;
  }

  lemma DropOfSum<T>(s: seq<T>, t: seq<T>, n: nat, k: nat)
    requires n <= |s| && k <= |s[n..]|
    ensures (s + t)[n..] == s[n..] + t
    ensures (s + t)[n + k..] == (s[n..] + t)[k..]
  {
  }

  /**
   * A conversion that is cut short, because its output is full or its input ends,
   * and is taken up again where it stopped, with more output or more input, does
   * what one conversion of everything does.
   */
  lemma {:induction false} Resume<I(!new), O(!new)>(step: seq<I> -> Step<O>, s: seq<I>, t: seq<I>, room: nat, more: nat)
    requires Steady(step)
    ensures Resumes(step, s, t, more, Run(step, s, room))
    decreases |s|
  {
    if s == [] || !step(s).Consume? || room < |step(s).units| {
      assert (s + t)[0..] == s + t;
      ThenNothing(Run(step, s, room).status, Run(step, s + t, more));
    } else {
      var Consume(n, u) := step(s);
      assert SteadyAt(step, s) && step(s + t) == step(s);
      TakeTurn(step, s, room);
      Resume(step, s[n..], t, room - |u|, more);
      ResumeTurn(step, s, t, more, Run(step, s[n..], room - |u|));
    }
  }

  /** After the call that ended with first, one that takes t in addition goes on as one call for everything would. */
  ghost predicate Resumes<I(!new), O(!new)>(step: seq<I> -> Step<O>, s: seq<I>, t: seq<I>, more: nat, first: Outcome<O>)
    requires Steady(step) && first.taken <= |s|
  {
    Run(step, s + t, |first.units| + more) == Then(first, Run(step, (s + t)[first.taken..], more))
  }

  lemma ResumeTurn<I(!new), O(!new)>(step: seq<I> -> Step<O>, s: seq<I>, t: seq<I>, more: nat, rest: Outcome<O>)
    requires Steady(step) && s + t != [] && step(s + t).Consume? && step(s + t).taken <= |s|
    requires var n := step(s + t).taken;
      rest.taken <= |s[n..]| && Resumes(step, s[n..], t, more, rest)
    ensures var Consume(n, u) := step(s + t);
      Resumes(step, s, t, more, Then(Outcome(Ok, n, u), rest))
  {
    var Consume(n, u) := step(s + t);
    DropOfSum(s, t, n, rest.taken);
    TakeTurn(step, s + t, |u| + (|rest.units| + more));
    ThenAssociates(Outcome(Ok, n, u), rest, Run(step, (s[n..] + t)[rest.taken..], more));
  }

  // ----- what is accepted

  /** A turn takes a good character if there is one, else nothing. */
  ghost predicate Reads<I(!new), O(!new)>(step: seq<I> -> Step<O>, good: (seq<I>, nat) -> bool, rate: nat) {
    forall s | s != [] :: ReadsTurn(step(s), good, rate, s)
  }

  ghost predicate ReadsTurn<I(!new), O>(turn: Step<O>, good: (seq<I>, nat) -> bool, rate: nat, s: seq<I>) {
    && (turn.Consume? ==> good(s, turn.taken) && |turn.units| <= rate * turn.taken)
    && forall n: nat | 0 < n <= |s| && good(s, n) :: turn.Consume? && turn.taken == n
  }

  /** With enough room, a converter succeeds exactly on the texts of good characters. */
  lemma {:induction false} Accepts<I(!new), O(!new)>(
      step: seq<I> -> Step<O>, good: (seq<I>, nat) -> bool, rate: nat, s: seq<I>, room: nat)
    requires Steady(step) && Reads(step, good, rate) && rate * |s| <= room
    ensures Run(step, s, room).status == Ok <==> Text(good, s)
    decreases |s|
  {
    if s != [] {
      assert ReadsTurn(step(s), good, rate, s);
      assert SteadyAt(step, s);
      if step(s).Consume? {
        var Consume(n, u) := step(s);
        assert rate * |s| == rate * n + rate * |s[n..]| && rate * |s[n..]| >= 0;
        TakeTurn(step, s, room);
        Accepts(step, good, rate, s[n..], room - |u|);
      }
    }
  }

  /** And it finds its input cut short exactly if short says so. */
  ghost predicate Tells<I(!new), O(!new)>(step: seq<I> -> Step<O>, good: (seq<I>, nat) -> bool, short: seq<I> -> bool, rate: nat) {
    forall s | s != [] :: TellsTurn(step(s), good, short, rate, s)
  }

  ghost predicate TellsTurn<I(!new), O>(turn: Step<O>, good: (seq<I>, nat) -> bool, short: seq<I> -> bool, rate: nat, s: seq<I>) {
    && ReadsTurn(turn, good, rate, s)
    && (turn.CutShort? <==> short(s))
    && (turn.Malformed? ==> turn.need <= 4)
  }

  lemma TellsReads<I(!new), O(!new)>(step: seq<I> -> Step<O>, good: (seq<I>, nat) -> bool, short: seq<I> -> bool, rate: nat)
    requires Tells(step, good, short, rate)
    ensures Reads(step, good, rate)
  {
    forall s | s != [] ensures ReadsTurn(step(s), good, rate, s) { assert TellsTurn(step(s), good, short, rate, s); }
  }

  /** How a conversion ends that comes to p, which begins with no good character. */
  predicate EndsAt<I, O(==)>(r: Outcome<O>, before: Outcome<O>, short: seq<I> -> bool, b: seq<I>, p: seq<I>) {
    r == Outcome(if p == [] then Ok else if short(p) then Partial else Error, |b|, before.units)
  }

  lemma EndsAtOnce<I(!new), O(!new)>(step: seq<I> -> Step<O>, good: (seq<I>, nat) -> bool, short: seq<I> -> bool,
      rate: nat, p: seq<I>, room: nat)
    requires Steady(step) && Tells(step, good, short, rate) && 4 <= room
    requires forall n: nat | 0 < n <= |p| :: !good(p, n)
    ensures EndsAt(Run(step, p, room), Run(step, [], room), short, [], p)
  {
    if p != [] {
      assert TellsTurn(step(p), good, short, rate, p);
      assert SteadyAt(step, p);
    }
  }

  lemma EndsAfterTurn<I(!new), O(!new)>(step: seq<I> -> Step<O>, short: seq<I> -> bool, b: seq<I>, p: seq<I>, room: nat)
    requires Steady(step) && b != [] && step(b).Consume? && |step(b).units| <= room
    requires var Consume(n, u) := step(b);
      n <= |b| && EndsAt(Run(step, b[n..] + p, room - |u|), Run(step, b[n..], room - |u|), short, b[n..], p)
    ensures EndsAt(Run(step, b + p, room), Run(step, b, room), short, b, p)
  {
    hide Run;
    assert SteadyAt(step, b) && step(b + p) == step(b);
    TakeTurn(step, b, room);
    TakeTurn(step, b + p, room);
    assert (b + p)[step(b).taken..] == b[step(b).taken..] + p;
  }

  lemma FirstTurn<I(!new), O(!new)>(step: seq<I> -> Step<O>, good: (seq<I>, nat) -> bool, short: seq<I> -> bool,
      rate: nat, b: seq<I>) returns (n: nat)
    requires Tells(step, good, short, rate) && Text(good, b) && b != []
    ensures 0 < n <= |b| && Text(good, b[n..])
    ensures step(b).Consume? && step(b).taken == n && |step(b).units| <= rate * n
  {
    n :| 0 < n <= |b| && good(b, n) && Text(good, b[n..]);
    assert TellsTurn(step(b), good, short, rate, b);
  }

  /** With enough room a converter takes the good characters, and what is left of its input decides how it ends. */
  lemma {:induction false} Ends<I(!new), O(!new)>(step: seq<I> -> Step<O>, good: (seq<I>, nat) -> bool, short: seq<I> -> bool,
      rate: nat, b: seq<I>, p: seq<I>, room: nat)
    requires Steady(step) && Tells(step, good, short, rate) && rate * |b| + 4 <= room
    requires Text(good, b) && forall n: nat | 0 < n <= |p| :: !good(p, n)
    ensures EndsAt(Run(step, b + p, room), Run(step, b, room), short, b, p)
    decreases |b|
  {
    hide Run, EndsAt, Text, Tells, Steady;
    if b == [] {
      assert b + p == p;
      EndsAtOnce(step, good, short, rate, p, room);
    } else {
      var n := FirstTurn(step, good, short, rate, b);
      assert rate * |b| == rate * n + rate * |b[n..]| && rate * |b[n..]| >= 0;
      Ends(step, good, short, rate, b[n..], p, room - |step(b).units|);
      EndsAfterTurn(step, short, b, p, room);
    }
  }

  /** The texts of single units that fit. */
  function OneUnit<I(!new)>(fits: I -> bool): (seq<I>, nat) -> bool {
    (s: seq<I>, n: nat) => n == 1 && s != [] && fits(s[0])
  }

  function Never<I(!new)>(): seq<I> -> bool {
    (s: seq<I>) => false
  }

  lemma {:induction false} OneUnitText<I(!new)>(fits: I -> bool, s: seq<I>)
    ensures Text(OneUnit(fits), s) <==> AllFit(s, fits)
  {
    if s != [] {
      OneUnitText(fits, s[1..]);
      assert forall i | 1 <= i < |s| :: s[i] == s[1..][i - 1];
      if AllFit(s, fits) { assert OneUnit(fits)(s, 1); }
    }
  }

  /** With enough room an encoder takes what fits, and ends with an error exactly if there is something else. */
  lemma EncoderEnds<I(!new), O(!new)>(step: seq<I> -> Step<O>, fits: I -> bool, rate: nat, b: seq<I>, p: seq<I>, room: nat)
    requires Steady(step) && Tells(step, OneUnit(fits), Never(), rate) && rate * |b| + 4 <= room
    requires AllFit(b, fits) && (p != [] ==> !fits(p[0]))
    ensures Run(step, b + p, room) == Outcome(if p == [] then Ok else Error, |b|, Run(step, b, room).units)
  {
    OneUnitText(fits, b);
    Ends(step, OneUnit(fits), Never(), rate, b, p, room);
  }

  lemma EncoderTurn<I(!new), O(!new)>(step: seq<I> -> Step<O>, fits: I -> bool, rate: nat, s: seq<I>)
    requires Tells(step, OneUnit(fits), Never(), rate) && s != []
    ensures if fits(s[0]) then step(s).Consume? && step(s).taken == 1 && |step(s).units| <= rate else step(s).Malformed?
  {
    assert TellsTurn(step(s), OneUnit(fits), Never(), rate, s);
    if fits(s[0]) { assert OneUnit(fits)(s, 1); }
  }

  /** What an encoder takes completely fits; and with enough room it takes what fits completely. */
  lemma {:induction false} EncoderAccepts<I(!new), O(!new)>(step: seq<I> -> Step<O>, fits: I -> bool, rate: nat, s: seq<I>,
      room: nat)
    requires Steady(step) && Tells(step, OneUnit(fits), Never(), rate)
    ensures Run(step, s, room).status == Ok ==> AllFit(s, fits)
    ensures rate * |s| <= room && AllFit(s, fits) ==> Run(step, s, room).status == Ok
    decreases |s|
  {
    hide Tells, Steady;
    if s != [] {
      EncoderTurn(step, fits, rate, s);
      assert rate * |s| == rate + rate * |s[1..]| && rate * |s[1..]| >= 0;
      assert AllFit(s, fits) <==> fits(s[0]) && AllFit(s[1..], fits) by {
        assert forall i | 1 <= i < |s| :: s[i] == s[1..][i - 1];
      }
      if step(s).Consume? && |step(s).units| <= room {
        TakeTurn(step, s, room);
        EncoderAccepts(step, fits, rate, s[1..], room - |step(s).units|);
      }
    }
  }

  /** Of two calls the one with less room does the same as far as that goes: it ends with Partial exactly if it is not enough. */
  lemma {:induction false} RoomDecides<I(!new), O(!new)>(step: seq<I> -> Step<O>, s: seq<I>, room: nat, enough: nat)
    requires Steady(step) && Run(step, s, enough).status == Ok
    ensures Run(step, s, room).status == if |Run(step, s, enough).units| <= room then Ok else Partial
    ensures Run(step, s, room).units <= Run(step, s, enough).units
    decreases |s|
  {
    if s != [] {
      var Consume(n, u) := step(s);
      TakeTurn(step, s, enough);
      if |u| <= room {
        TakeTurn(step, s, room);
        RoomDecides(step, s[n..], room - |u|, enough - |u|);
      }
    }
  }

  // ----- there and back

  /** decode takes what encode emits, whatever follows it, and emits what encode took. */
  ghost predicate Undoes<I(!new), O(!new)>(encode: seq<I> -> Step<O>, decode: seq<O> -> Step<I>) {
    forall s | s != [] && encode(s).Consume? :: UndoesTurn(encode(s), decode, s)
  }

  ghost predicate UndoesTurn<I(!new), O(!new)>(turn: Step<O>, decode: seq<O> -> Step<I>, s: seq<I>)
    requires turn.Consume?
  {
    turn.taken <= |s| && forall t :: decode(turn.units + t) == Consume(|turn.units|, s[..turn.taken])
  }

  /** Decoding what was encoded completely gives the input back. */
  lemma {:induction false} RoundTrip<I(!new), O(!new)>(
      encode: seq<I> -> Step<O>, decode: seq<O> -> Step<I>, s: seq<I>, room: nat, space: nat)
    requires Steady(encode) && Steady(decode) && Undoes(encode, decode)
    requires Run(encode, s, room).status == Ok && |s| <= space
    ensures var b := Run(encode, s, room).units;
      Run(decode, b, space) == Outcome(Ok, |b|, s)
    decreases |s|
  {
    if s != [] {
      var Consume(n, u) := encode(s);
      TakeTurn(encode, s, room);
      assert UndoesTurn(encode(s), decode, s);
      RoundTrip(encode, decode, s[n..], room - |u|, space - n);
      DecodeTurn(decode, u, Run(encode, s[n..], room - |u|).units, s, n, space);
    }
  }

  lemma DecodeTurn<I(!new), O(!new)>(decode: seq<O> -> Step<I>, u: seq<O>, b: seq<O>, s: seq<I>, n: nat, space: nat)
    requires Steady(decode) && 0 < n <= |s| <= space
    requires decode(u + b) == Consume(|u|, s[..n])
    ensures var rest := Run(decode, b, space - n);
      Run(decode, u + b, space) == Outcome(rest.status, |u| + rest.taken, s[..n] + rest.units)
    ensures Run(decode, b, space - n) == Outcome(Ok, |b|, s[n..])
      ==> Run(decode, u + b, space) == Outcome(Ok, |u + b|, s)
  {
    assert SteadyAt(decode, u + b);
    assert (u + b)[|u|..] == b && s[..n] + s[n..] == s;
    TakeTurn(decode, u + b, space);
  }

  /** The same when decode rejects what encode makes of some units: of the first one of a turn, never of a later one. */
  ghost predicate UndoesIf<I(!new), O(!new)>(encode: seq<I> -> Step<O>, decode: seq<O> -> Step<I>, fits: I -> bool) {
    forall s | s != [] && encode(s).Consume? :: UndoesTurnIf(encode(s), decode, fits, s)
  }

  ghost predicate UndoesTurnIf<I(!new), O(!new)>(turn: Step<O>, decode: seq<O> -> Step<I>, fits: I -> bool, s: seq<I>)
    requires turn.Consume? && s != []
  {
    && 0 < turn.taken <= |s| && turn.units != []
    && (forall i | 0 < i < turn.taken :: fits(s[i]))
    && forall t :: decode(turn.units + t) == if fits(s[0]) then Consume(|turn.units|, s[..turn.taken]) else Malformed(1)
  }

  predicate AllFit<I>(s: seq<I>, fits: I -> bool) {
    forall i | 0 <= i < |s| :: fits(s[i])
  }

  /** Decoding b gives s back, or fails because something in s does not fit. */
  ghost predicate GivesBack<I(!new), O(!new)>(decode: seq<O> -> Step<I>, fits: I -> bool, b: seq<O>, s: seq<I>, space: nat)
    requires Steady(decode)
  {
    var d := Run(decode, b, space);
    if AllFit(s, fits) then d == Outcome(Ok, |b|, s) else d.status == Error
  }

  lemma {:induction false} RoundTripIf<I(!new), O(!new)>(
      encode: seq<I> -> Step<O>, decode: seq<O> -> Step<I>, fits: I -> bool, s: seq<I>, room: nat, space: nat)
    requires Steady(encode) && Steady(decode) && UndoesIf(encode, decode, fits)
    requires Run(encode, s, room).status == Ok && |s| <= space
    ensures GivesBack(decode, fits, Run(encode, s, room).units, s, space)
    decreases |s|
  {
    if s != [] {
      var Consume(n, u) := encode(s);
      TakeTurn(encode, s, room);
      assert UndoesTurnIf(encode(s), decode, fits, s);
      RoundTripIf(encode, decode, fits, s[n..], room - |u|, space - n);
      GivesBackTurn(decode, fits, u, Run(encode, s[n..], room - |u|).units, s, n, space);
    }
  }

  lemma GivesBackTurn<I(!new), O(!new)>(
      decode: seq<O> -> Step<I>, fits: I -> bool, u: seq<O>, b: seq<O>, s: seq<I>, n: nat, space: nat)
    requires Steady(decode) && 0 < n <= |s| <= space && u != [] && forall i | 0 < i < n :: fits(s[i])
    requires decode(u + b) == if fits(s[0]) then Consume(|u|, s[..n]) else Malformed(1)
    requires GivesBack(decode, fits, b, s[n..], space - n)
    ensures GivesBack(decode, fits, u + b, s, space)
  {
    assert forall i | n <= i < |s| :: s[i] == s[n..][i - n];
    if fits(s[0]) {
      DecodeTurn(decode, u, b, s, n, space);
      assert AllFit(s, fits) == AllFit(s[n..], fits);
    } else {
      assert u + b != [];
    }
  }

  // ----- headers

  /** A whole call of an encoder: the byte order mark first, if it is asked for. */
  ghost function Encoded<I(!new), O(!new)>(
      step: seq<I> -> Step<O>, mark: seq<O>, generateHeader: bool, s: seq<I>, room: nat): Outcome<O>
    requires Steady(step)
  {
    if !generateHeader then Run(step, s, room)
    else if room < |mark| then Outcome(Partial, 0, [])
    else Then(Outcome(Ok, 0, mark), Run(step, s, room - |mark|))
  }

  /** A whole call of a decoder: it skips one byte order mark, if it is asked to. */
  ghost function Decoded<I(!new), O(!new)>(
      step: seq<I> -> Step<O>, mark: seq<I>, consumeHeader: bool, s: seq<I>, room: nat): Outcome<O>
    requires Steady(step)
  {
    if consumeHeader && mark <= s then Then(Outcome(Ok, |mark|, []), Run(step, s[|mark|..], room))
    else Run(step, s, room)
  }

  /** An encoder writes the mark before the text, or nothing if there is no room for the mark. */
  lemma MarkComesFirst<I(!new), O(!new)>(step: seq<I> -> Step<O>, mark: seq<O>, s: seq<I>, room: nat)
    requires Steady(step)
    ensures var e := Encoded(step, mark, true, s, room);
      if |mark| <= room then
        var r := Run(step, s, room - |mark|);
        mark <= e.units && e.units[|mark|..] == r.units && e.taken == r.taken && e.status == r.status
      else e.units == [] && e.taken == 0 && e.status == Partial
  {
  }

  /** A decoder that is asked to skips one mark before the text and no more, and nothing else. */
  lemma OneMarkIsSkipped<I(!new), O(!new)>(step: seq<I> -> Step<O>, mark: seq<I>, s: seq<I>, room: nat)
    requires Steady(step)
    ensures var d, r := Decoded(step, mark, true, mark + s, room), Run(step, s, room);
      d.units == r.units && d.taken == |mark| + r.taken && d.status == r.status
    ensures !(mark <= s) ==> Decoded(step, mark, true, s, room) == Run(step, s, room)
  {
    assert (mark + s)[|mark|..] == s;
  }

  /** With the header mode on both sides the text comes back just when it does without. */
  lemma HeaderAround<I(!new), O(!new)>(encode: seq<I> -> Step<O>, decode: seq<O> -> Step<I>, mark: seq<O>,
      s: seq<I>, room: nat, space: nat)
    requires Steady(encode) && Steady(decode) && Encoded(encode, mark, true, s, room).status == Ok
    ensures room >= |mark| && Run(encode, s, room - |mark|).status == Ok
    ensures var b, c := Encoded(encode, mark, true, s, room).units, Run(encode, s, room - |mark|).units;
      Decoded(decode, mark, true, b, space) == Outcome(Ok, |b|, s) <==> Run(decode, c, space) == Outcome(Ok, |c|, s)
  {
    var c := Run(encode, s, room - |mark|).units;
    assert (mark + c)[|mark|..] == c;
    assert [] + Run(decode, c, space).units == Run(decode, c, space).units;
  }

  /** The header mode is the same on both sides. */
  lemma MatchingHeaders<I(!new), O(!new)>(encode: seq<I> -> Step<O>, decode: seq<O> -> Step<I>, mark: seq<O>,
      header: bool, s: seq<I>, room: nat, space: nat)
    requires Steady(encode) && Steady(decode) && Undoes(encode, decode)
    requires Encoded(encode, mark, header, s, room).status == Ok && |s| <= space
    ensures var b := Encoded(encode, mark, header, s, room).units;
      Decoded(decode, mark, header, b, space) == Outcome(Ok, |b|, s)
  {
    if header {
      RoundTrip(encode, decode, s, room - |mark|, space);
      var b := Run(encode, s, room - |mark|).units;
      assert (mark + b)[|mark|..] == b;
      ThenNothing(Ok, Run(decode, b, space));
    } else {
      RoundTrip(encode, decode, s, room, space);
    }
  }

  /** The same when decode rejects what encode makes of some units. */
  lemma MatchingHeadersIf<I(!new), O(!new)>(encode: seq<I> -> Step<O>, decode: seq<O> -> Step<I>, fits: I -> bool,
      mark: seq<O>, header: bool, s: seq<I>, room: nat, space: nat)
    requires Steady(encode) && Steady(decode) && UndoesIf(encode, decode, fits)
    requires Encoded(encode, mark, header, s, room).status == Ok && |s| <= space
    ensures var b := Encoded(encode, mark, header, s, room).units;
      var d := Decoded(decode, mark, header, b, space);
      if AllFit(s, fits) then d == Outcome(Ok, |b|, s) else d.status == Error
  {
    if header {
      RoundTripIf(encode, decode, fits, s, room - |mark|, space);
      var b := Run(encode, s, room - |mark|).units;
      assert (mark + b)[|mark|..] == b;
      ThenNothing(Ok, Run(decode, b, space));
    } else {
      RoundTripIf(encode, decode, fits, s, room, space);
    }
  }

  /** Two turns that are the same on every rest of the input make the same conversion. */
  ghost predicate SameOnRests<I(!new), O(!new)>(a: seq<I> -> Step<O>, b: seq<I> -> Step<O>, s: seq<I>) {
    forall i | 0 <= i < |s| :: a(s[i..]) == b(s[i..])
  }

  lemma {:induction false} SameRun<I(!new), O(!new)>(a: seq<I> -> Step<O>, b: seq<I> -> Step<O>, s: seq<I>, room: nat)
    requires Steady(a) && Steady(b) && SameOnRests(a, b, s)
    ensures Run(a, s, room) == Run(b, s, room)
    decreases |s|
  {
    if s != [] {
      assert s[0..] == s;
      if a(s).Consume? && |a(s).units| <= room {
        var Consume(n, u) := a(s);
        TakeTurn(a, s, room);
        TakeTurn(b, s, room);
        forall i | 0 <= i < |s[n..]| ensures a(s[n..][i..]) == b(s[n..][i..]) {
          assert s[n..][i..] == s[n + i..];
        }
        SameRun(a, b, s[n..], room - |u|);
      }
    }
  }

  /** What a conversion writes is what its turns emit. */
  lemma {:induction false} EmitsOnly<I(!new), O(!new)>(step: seq<I> -> Step<O>, good: O -> bool, s: seq<I>, room: nat)
    requires Steady(step)
    requires forall r | r != [] && step(r).Consume? :: AllFit(step(r).units, good)
    ensures AllFit(Run(step, s, room).units, good)
    decreases |s|
  {
    if s != [] && step(s).Consume? && |step(s).units| <= room {
      TakeTurn(step, s, room);
      EmitsOnly(step, good, s[step(s).taken..], room - |step(s).units|);
    }
  }

  /** Text that is decoded returns without a header exactly if it does not begin with one. */
  lemma SkippedMark<I(!new), O(!new)>(decode: seq<O> -> Step<I>, b: seq<O>, s: seq<I>, first: I, space: nat, mark: seq<O>)
    requires Steady(decode) && mark != [] && |s| <= space
    requires Run(decode, b, space) == Outcome(Ok, |b|, s)
    requires s == [] ==> b == []
    requires s != [] ==> if s[0] == first then mark <= b && decode(mark) == Consume(|mark|, [first]) else !(mark <= b)
    ensures Decoded(decode, mark, true, b, space) == Outcome(Ok, |b|, s) <==> s == [] || s[0] != first
  {
    hide Run;
    if s != [] && s[0] == first {
      var rest := b[|mark|..];
      assert SteadyAt(decode, mark) && mark + rest == b && decode(b) == decode(mark);
      TakeTurn(decode, b, space);
      var last := Run(decode, rest, space - 1);
      assert [first] + last.units == s && |last.units| == |s| - 1;
      RoomDecides(decode, rest, space, space - 1);
    }
  }
}
