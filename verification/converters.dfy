/** The loops of the converters, over an output buffer of fixed size, and of the length functions. */
module Converters {
  import opened UnicodeForms
  import opened Transcoding
  import opened Utf8Codecs
  import opened Utf16Codecs
  import opened Ucs2Codecs

  /** Converts frm[start..] into to[at..]. */
  method Convert<I(!new), O(!new)>(step: seq<I> -> Step<O>, frm: seq<I>, start: nat, to: array<O>, at: nat)
    returns (status: Status, frmNxt: nat, toNxt: nat)
    requires Steady(step) && start <= |frm| && at <= to.Length
    modifies to
    ensures start <= frmNxt <= |frm| && at <= toNxt <= to.Length
    ensures var r := Run(step, frm[start..], to.Length - at);
      status == r.status && frmNxt == start + r.taken && to[at..toNxt] == r.units
    ensures to[..at] == old(to[..at]) && to[toNxt..] == old(to[toNxt..])
  {
    frmNxt, toNxt, status := start, at, Ok;
    ghost var whole := Run(step, frm[start..], to.Length - at);
    ghost var left, written: seq<O> := whole, [];
    while frmNxt < |frm|
      invariant start <= frmNxt <= |frm| && at <= toNxt <= to.Length && status == Ok
      invariant left == Run(step, frm[frmNxt..], to.Length - toNxt)
      invariant Splits(whole, frmNxt - start, written, left)
      invariant to[at..toNxt] == written
      invariant to[..at] == old(to[..at]) && to[toNxt..] == old(to[toNxt..])
    {
      var turn := step(frm[frmNxt..]);
      if !turn.Consume? || to.Length - toNxt < |turn.units| {
        status := if turn.Malformed? && turn.need <= to.Length - toNxt then Error else Partial;
        Stops(step, frm[frmNxt..], to.Length - toNxt);
        break;
      }
      Append(to, at, toNxt, turn.units);
      var frmNext, toNext := frmNxt + turn.taken, toNxt + |turn.units|;
      left := Continue(step, frm, start, frmNxt, frmNext, to.Length - toNxt, to.Length - toNext, written, whole, left);
      written := written + turn.units;
      frmNxt, toNxt := frmNext, toNext;
    }
    NothingMore(whole, frmNxt - start, written, left);
  }

  /** whole is what was done, and then what is left. */
  ghost predicate Splits<T>(whole: Outcome<T>, taken: int, written: seq<T>, left: Outcome<T>) {
    whole.status == left.status && whole.taken == taken + left.taken && whole.units == written + left.units
  }

  lemma Stops<I(!new), O(!new)>(step: seq<I> -> Step<O>, s: seq<I>, room: nat)
    requires Steady(step) && s != [] && (!step(s).Consume? || room < |step(s).units|)
    ensures var r, turn := Run(step, s, room), step(s);
      r.taken == 0 && r.units == [] && r.status == if turn.Malformed? && turn.need <= room then Error else Partial
  {
  }

  /** What is left after one more turn. */
  lemma Continue<I(!new), O(!new)>(step: seq<I> -> Step<O>, frm: seq<I>, start: nat, at: nat, next: nat,
      room: nat, lessRoom: nat, written: seq<O>, whole: Outcome<O>, left: Outcome<O>) returns (rest: Outcome<O>)
    requires Steady(step) && start <= at < |frm| && step(frm[at..]).Consume? && |step(frm[at..]).units| <= room
    requires next == at + step(frm[at..]).taken && lessRoom == room - |step(frm[at..]).units|
    requires left == Run(step, frm[at..], room) && Splits(whole, at - start, written, left)
    ensures at < next <= |frm| && rest == Run(step, frm[next..], lessRoom)
    ensures Splits(whole, next - start, written + step(frm[at..]).units, rest)
  {
    var Consume(n, u) := step(frm[at..]);
    TakeTurn(step, frm[at..], room);
    assert frm[at..][n..] == frm[next..];
    rest := Run(step, frm[next..], lessRoom);
    assert written + (u + rest.units) == written + u + rest.units;
  }

  /** Stores u at to[at]. */
  method Write<O>(to: array<O>, at: nat, u: seq<O>)
    requires at + |u| <= to.Length
    modifies to
    ensures to[..at] == old(to[..at]) && to[at..at + |u|] == u && to[at + |u|..] == old(to[at + |u|..])
  {
    for i := 0 to |u|
      invariant to[..at] == old(to[..at]) && to[at..at + i] == u[..i] && to[at + i..] == old(to[at + i..])
    {
      to[at + i] := u[i];
    }
  }

  /** Writes u at the end of what was written from at on. */
  method Append<O>(to: array<O>, at: nat, end: nat, u: seq<O>)
    requires at <= end && end + |u| <= to.Length
    modifies to
    ensures to[..at] == old(to[..at]) && to[at..end + |u|] == old(to[at..end]) + u
    ensures to[end + |u|..] == old(to[end + |u|..]) == old(to[end..])[|u|..]
  {
    Write(to, end, u);
    assert to[at..end] == to[..end][at..];
    assert to[..at] == to[..end][..at] == old(to[..end])[..at];
    assert to[at..end + |u|] == to[at..end] + to[end..end + |u|];
  }

  lemma NothingMore<T>(whole: Outcome<T>, taken: int, written: seq<T>, left: Outcome<T>)
    requires Splits(whole, taken, written, left) && left.taken == 0 && left.units == []
    ensures whole.status == left.status && whole.taken == taken && whole.units == written
  {
  }

  /** An encoder with its header mode. */
  method Encode<I(!new), O(!new)>(step: seq<I> -> Step<O>, mark: seq<O>, generateHeader: bool, frm: seq<I>, to: array<O>)
    returns (status: Status, frmNxt: nat, toNxt: nat)
    requires Steady(step)
    modifies to
    ensures toNxt <= to.Length
    ensures var r := Encoded(step, mark, generateHeader, frm, to.Length);
      status == r.status && frmNxt == r.taken && to[..toNxt] == r.units
    ensures to[toNxt..] == old(to[toNxt..])
  {
    assert frm[0..] == frm;
    toNxt := 0;
    if generateHeader {
      if to.Length < |mark| {
        return Partial, 0, 0;
      }
      Write(to, 0, mark);
      toNxt := |mark|;
    }
    status, frmNxt, toNxt := Convert(step, frm, 0, to, toNxt);
    if generateHeader {
      assert to[..toNxt] == mark + to[|mark|..toNxt];
    } else {
      assert to[..toNxt] == to[0..toNxt];
    }
  }

  /** A decoder with its header mode. */
  method Decode<I(!new, ==), O(!new)>(step: seq<I> -> Step<O>, mark: seq<I>, consumeHeader: bool, frm: seq<I>, to: array<O>)
    returns (status: Status, frmNxt: nat, toNxt: nat)
    requires Steady(step)
    modifies to
    ensures toNxt <= to.Length
    ensures var r := Decoded(step, mark, consumeHeader, frm, to.Length);
      status == r.status && frmNxt == r.taken && to[..toNxt] == r.units
    ensures to[toNxt..] == old(to[toNxt..])
  {
    assert frm[0..] == frm;
    frmNxt := if consumeHeader && mark <= frm then |mark| else 0;
    ghost var start := frmNxt;
    status, frmNxt, toNxt := Convert(step, frm, frmNxt, to, 0);
    assert to[..toNxt] == to[0..toNxt];
    ThenNothing(Ok, Run(step, frm[start..], to.Length));
  }

  // ----- the length functions

  /** One turn of a length function: how much it takes, and how many units that stands for. */
  datatype Stride = Stride(taken: nat, count: nat) | Halt

  function Utf8ToUtf16Stride(s: seq<Byte>, max: nat): Stride
    requires s != []
  {
    var c1 := s[0];
    if c1 > max then Halt
    else if c1 < 0x80 then Stride(1, 1)
    else if c1 < 0xC2 then Halt
    else if c1 < 0xE0 then
      if |s| < 2 || s[1] / 0x40 != 2 || Bits2(c1, s[1]) > max then Halt else Stride(2, 1)
    else if c1 < 0xF0 then
      if |s| < 3 || !GoodSecond3(c1, s[1]) || s[2] / 0x40 != 2 || Bits3(c1, s[1], s[2]) > max then Halt
      else Stride(3, 1)
    else if c1 < 0xF5 then
      if |s| < 4 || !GoodSecond4(c1, s[1]) || s[2] / 0x40 != 2 || s[3] / 0x40 != 2
        || Bits4(c1, s[1], s[2], s[3]) > max then Halt
      else Stride(4, 2)
    else Halt
  }

  function Utf8ToUcs4Stride(s: seq<Byte>, max: nat): Stride
    requires s != []
  {
    var c1 := s[0];
    if c1 < 0x80 then
      if c1 > max then Halt else Stride(1, 1)
    else if c1 < 0xC2 then Halt
    else if c1 < 0xE0 then
      if |s| < 2 || s[1] / 0x40 != 2 || Bits2(c1, s[1]) > max then Halt else Stride(2, 1)
    else if c1 < 0xF0 then
      if |s| < 3 || !GoodSecond3(c1, s[1]) || s[2] / 0x40 != 2 || Bits3(c1, s[1], s[2]) > max then Halt
      else Stride(3, 1)
    else if c1 < 0xF5 then
      if |s| < 4 || !GoodSecond4(c1, s[1]) || s[2] / 0x40 != 2 || s[3] / 0x40 != 2
        || Bits4(c1, s[1], s[2], s[3]) > max then Halt
      else Stride(4, 1)
    else Halt
  }

  function Utf16ToUcs4Stride(s: seq<Byte>, max: nat, order: Order): Stride
    requires s != []
  {
    if |s| < 2 then Halt
    else
      var c1 := Unit(s[0], s[1], order);
      if c1 / 0x400 == 0x37 then Halt
      else if c1 / 0x400 != 0x36 then
        if c1 > max then Halt else Stride(2, 1)
      else if |s| < 4 || Unit(s[2], s[3], order) / 0x400 != 0x37 || PairBits(c1, Unit(s[2], s[3], order)) > max then Halt
      else Stride(4, 1)
  }

  function Utf8ToUcs2Stride(s: seq<Byte>, max: nat): Stride
    requires s != []
  {
    var c1 := s[0];
    if c1 < 0x80 then
      if c1 > max then Halt else Stride(1, 1)
    else if c1 < 0xC2 then Halt
    else if c1 < 0xE0 then
      if |s| < 2 || s[1] / 0x40 != 2 || Bits2(c1, s[1]) > max then Halt else Stride(2, 1)
    else if c1 < 0xF0 then
      if |s| < 3 || !GoodSecond3(c1, s[1]) || s[2] / 0x40 != 2 || Bits3(c1, s[1], s[2]) > max then Halt
      else Stride(3, 1)
    else Halt
  }

  function Utf16ToUcs2Stride(s: seq<Byte>, max: nat, order: Order): Stride
    requires s != []
  {
    if |s| < 2 || Unit(s[0], s[1], order) / 0x800 == 0x1B || Unit(s[0], s[1], order) > max then Halt else Stride(2, 1)
  }

  /** A length function strides as its decoder steps. */
  ghost predicate Agrees<I(!new), O(!new)>(stride: seq<I> -> Stride, step: seq<I> -> Step<O>) {
    forall s | s != [] :: AgreesAt(stride(s), step(s))
  }

  predicate AgreesAt<O>(stride: Stride, turn: Step<O>) {
    if turn.Consume? then turn.units != [] && stride == Stride(turn.taken, |turn.units|) else stride == Halt
  }

  /** The loop of a length function: it counts the input its decoder takes for at most mx units. */
  method Measure<I(!new), O(!new)>(stride: seq<I> -> Stride, ghost step: seq<I> -> Step<O>, frm: seq<I>, start: nat, mx: nat)
    returns (frmNxt: nat)
    requires Steady(step) && Agrees(stride, step) && start <= |frm|
    ensures frmNxt == start + Run(step, frm[start..], mx).taken
  {
    frmNxt := start;
    var count := 0;
    ghost var whole := Run(step, frm[start..], mx).taken;
    ghost var left := whole;
    while frmNxt < |frm| && count < mx
      invariant start <= frmNxt <= |frm| && count <= mx
      invariant left == Run(step, frm[frmNxt..], mx - count).taken
      invariant whole == frmNxt - start + left
    {
      var turn := stride(frm[frmNxt..]);
      if turn.Halt? || mx - count < turn.count {
        Halts(stride, step, frm, frmNxt, mx - count);
        return;
      }
      var next, total := frmNxt + turn.taken, count + turn.count;
      left := Strides(stride, step, frm, frmNxt, next, mx - count, mx - total, left);
      frmNxt, count := next, total;
    }
    if frmNxt < |frm| { Halts(stride, step, frm, frmNxt, 0); }
  }

  lemma Halts<I(!new), O(!new)>(stride: seq<I> -> Stride, step: seq<I> -> Step<O>, frm: seq<I>, at: nat, room: nat)
    requires Steady(step) && Agrees(stride, step) && at < |frm|
    requires stride(frm[at..]).Halt? || room < stride(frm[at..]).count || room == 0
    ensures Run(step, frm[at..], room).taken == 0
  {
    assert AgreesAt(stride(frm[at..]), step(frm[at..]));
  }

  lemma Strides<I(!new), O(!new)>(stride: seq<I> -> Stride, step: seq<I> -> Step<O>, frm: seq<I>, at: nat, next: nat,
      room: nat, lessRoom: nat, left: nat) returns (rest: nat)
    requires Steady(step) && Agrees(stride, step) && at < |frm| && left == Run(step, frm[at..], room).taken
    requires var turn := stride(frm[at..]);
      turn.Stride? && turn.count <= room && next == at + turn.taken && lessRoom == room - turn.count
    ensures at < next <= |frm| && rest == Run(step, frm[next..], lessRoom).taken && left == next - at + rest
  {
    assert AgreesAt(stride(frm[at..]), step(frm[at..]));
    TakeTurn(step, frm[at..], room);
    assert frm[at..][next - at..] == frm[next..];
    rest := Run(step, frm[next..], lessRoom).taken;
  }

  /** How much of frm its decoder takes in one call, header mode included. */
  method Length<I(!new, ==), O(!new)>(
      stride: seq<I> -> Stride, ghost step: seq<I> -> Step<O>, mark: seq<I>, consumeHeader: bool, frm: seq<I>, mx: nat)
    returns (n: nat)
    requires Steady(step) && Agrees(stride, step)
    ensures n == Decoded(step, mark, consumeHeader, frm, mx).taken
  {
    assert frm[0..] == frm;
    n := Measure(stride, step, frm, if consumeHeader && mark <= frm then |mark| else 0, mx);
  }

  method Utf8ToUtf16Length(frm: seq<Byte>, mx: nat, max: nat, consumeHeader: bool) returns (n: nat)
    ensures n == Decoded(Utf8ToUtf16Turn(max), MARK, consumeHeader, frm, mx).taken
  {
    var stride := (s: seq<Byte>) => if s == [] then Halt else Utf8ToUtf16Stride(s, max);
    assert Agrees(stride, Utf8ToUtf16Turn(max)) by {
      forall s: seq<Byte> | s != [] ensures AgreesAt(stride(s), Utf8ToUtf16Turn(max)(s)) { }
    }
    n := Length(stride, Utf8ToUtf16Turn(max), MARK, consumeHeader, frm, mx);
  }

  method Utf8ToUcs4Length(frm: seq<Byte>, mx: nat, max: nat, consumeHeader: bool) returns (n: nat)
    ensures n == Decoded(Utf8ToUcs4Turn(max), MARK, consumeHeader, frm, mx).taken
  {
    var stride := (s: seq<Byte>) => if s == [] then Halt else Utf8ToUcs4Stride(s, max);
    assert Agrees(stride, Utf8ToUcs4Turn(max)) by {
      forall s: seq<Byte> | s != [] ensures AgreesAt(stride(s), Utf8ToUcs4Turn(max)(s)) { }
    }
    n := Length(stride, Utf8ToUcs4Turn(max), MARK, consumeHeader, frm, mx);
  }

  method Utf16ToUcs4Length(frm: seq<Byte>, mx: nat, max: nat, consumeHeader: bool, order: Order) returns (n: nat)
    ensures n == Decoded(Utf16ToUcs4Turn(max, order), Mark(order), consumeHeader, frm, mx).taken
  {
    var stride := (s: seq<Byte>) => if s == [] then Halt else Utf16ToUcs4Stride(s, max, order);
    assert Agrees(stride, Utf16ToUcs4Turn(max, order)) by {
      forall s: seq<Byte> | s != [] ensures AgreesAt(stride(s), Utf16ToUcs4Turn(max, order)(s)) { }
    }
    n := Length(stride, Utf16ToUcs4Turn(max, order), Mark(order), consumeHeader, frm, mx);
  }

  method Utf8ToUcs2Length(frm: seq<Byte>, mx: nat, max: nat, consumeHeader: bool) returns (n: nat)
    ensures n == Decoded(Utf8ToUcs2Turn(max), MARK, consumeHeader, frm, mx).taken
  {
    var stride := (s: seq<Byte>) => if s == [] then Halt else Utf8ToUcs2Stride(s, max);
    assert Agrees(stride, Utf8ToUcs2Turn(max)) by {
      forall s: seq<Byte> | s != [] ensures AgreesAt(stride(s), Utf8ToUcs2Turn(max)(s)) { }
    }
    n := Length(stride, Utf8ToUcs2Turn(max), MARK, consumeHeader, frm, mx);
  }

  method Utf16ToUcs2Length(frm: seq<Byte>, mx: nat, max: nat, consumeHeader: bool, order: Order) returns (n: nat)
    ensures n == Decoded(Utf16ToUcs2Turn(max, order), Mark(order), consumeHeader, frm, mx).taken
  {
    var stride := (s: seq<Byte>) => if s == [] then Halt else Utf16ToUcs2Stride(s, max, order);
    assert Agrees(stride, Utf16ToUcs2Turn(max, order)) by {
      forall s: seq<Byte> | s != [] ensures AgreesAt(stride(s), Utf16ToUcs2Turn(max, order)(s)) { }
    }
    n := Length(stride, Utf16ToUcs2Turn(max, order), Mark(order), consumeHeader, frm, mx);
  }
}
