/** The stack of caught exceptions of a thread, and the handlers and flights it stands for. */
module CaughtStack {

  const NULL: int := -1

  /** What a thread is in the middle of: a handler for an exception, or raising one. */
  datatype Frame = Handler(exception: int) | Flight(exception: int)

  /** The top of the stack, and the handlerCount and nextException of every header. */
  datatype Stack = Stack(caught: int, handlers: map<int, int>, next: map<int, int>)

  // ----- what the frames say, the innermost first

  /** The exceptions of the handlers. */
  function Handled(frames: seq<Frame>): seq<int> {
    if frames == [] then []
    else if frames[0].Handler? then [frames[0].exception] + Handled(frames[1..])
    else Handled(frames[1..])
  }

  /** One entry for the handlers of the same exception that lie next to each other. */
  function Squash(hs: seq<int>): (r: seq<int>)
    ensures |r| <= |hs| && (hs != [] ==> r != [] && r[0] == hs[0])
  {
    if |hs| <= 1 then hs
    else if hs[0] == hs[1] then Squash(hs[1..])
    else [hs[0]] + Squash(hs[1..])
  }

  function Count(hs: seq<int>, h: int): (n: nat)
    ensures n > 0 <==> h in hs
  {
    if hs == [] then 0 else Count(hs[1..], h) + if hs[0] == h then 1 else 0
  }

  /** All handlers of the same exception lie next to each other. */
  predicate Nested(hs: seq<int>) {
    hs == [] || (Nested(hs[1..]) && (hs[0] in hs[1..] ==> hs[1] == hs[0]))
  }

  /** An exception in flight is so once, and if it is handled as well then by the handler it was rethrown from. */
  predicate FlightsNested(frames: seq<Frame>) {
    frames == [] ||
      (FlightsNested(frames[1..]) && Flight(frames[0].exception) !in frames[1..]
       && (frames[0].Flight? && frames[0].exception in Handled(frames[1..]) ==> Handled(frames[1..])[0] == frames[0].exception))
  }

  // ----- what the stack says

  /** The chain of headers from caught on. */
  predicate IsChain(s: Stack, caught: int, chain: seq<int>)
    decreases |chain|
  {
    if chain == [] then caught == NULL
    else caught == chain[0] && caught != NULL && caught in s.next && IsChain(s, s.next[caught], chain[1..])
  }

  /** The handler count is the number of the exception's handlers, negative while it is in flight again. */
  predicate CountIs(s: Stack, frames: seq<Frame>, h: int)
    requires h in s.handlers
  {
    s.handlers[h] == if Flight(h) in frames then 0 - Count(Handled(frames), h) else Count(Handled(frames), h)
  }

  ghost predicate Inv(s: Stack, frames: seq<Frame>) {
    && s.handlers.Keys == s.next.Keys && NULL !in s.next
    && (forall f | f in frames :: f.exception in s.handlers)
    && Nested(Handled(frames)) && FlightsNested(frames)
    && IsChain(s, s.caught, Squash(Handled(frames)))
    && forall h {:trigger CountIs(s, frames, h)} | h in s.handlers :: CountIs(s, frames, h)
  }

  // ----- the operations

  /** A new header. */
  function Allocate(s: Stack, h: int): Stack {
    s.(handlers := s.handlers[h := 0], next := s.next[h := NULL])
  }

  function BeginCatch(s: Stack, h: int): Stack
    requires h in s.handlers
  {
    var n := if s.handlers[h] < 0 then -s.handlers[h] + 1 else s.handlers[h] + 1;
    var t := s.(handlers := s.handlers[h := n]);
    if h != s.caught then t.(next := s.next[h := s.caught], caught := h) else t
  }

  /** What becomes of the top, and whether it is to be released. */
  function EndCatch(s: Stack): (Stack, bool)
    requires s.caught in s.handlers && s.caught in s.next
  {
    var h := s.caught;
    if s.handlers[h] < 0 then
      var t := s.(handlers := s.handlers[h := s.handlers[h] + 1]);
      (if t.handlers[h] == 0 then t.(caught := s.next[h]) else t, false)
    else
      var t := s.(handlers := s.handlers[h := s.handlers[h] - 1]);
      if t.handlers[h] == 0 then (t.(caught := s.next[h]), true) else (t, false)
  }

  function Rethrow(s: Stack): Stack
    requires s.caught in s.handlers
  {
    s.(handlers := s.handlers[s.caught := -s.handlers[s.caught]])
  }

  function Free(s: Stack, h: int): Stack {
    s.(handlers := s.handlers - {h}, next := s.next - {h})
  }

  // ----- they keep it

  /** A chain depends only on the headers in it. */
  lemma {:induction false} SameChain(s: Stack, t: Stack, caught: int, chain: seq<int>)
    requires IsChain(s, caught, chain) && forall h | h in chain && h in s.next :: h in t.next && t.next[h] == s.next[h]
    ensures IsChain(t, caught, chain)
    decreases |chain|
  {
    if chain != [] { SameChain(s, t, s.next[caught], chain[1..]); }
  }

  lemma {:induction false} SquashElements(hs: seq<int>)
    ensures forall h :: h in Squash(hs) <==> h in hs
  {
    if |hs| > 1 { SquashElements(hs[1..]); }
  }

  lemma AllocateInv(s: Stack, frames: seq<Frame>, h: int)
    requires Inv(s, frames) && h !in s.handlers && h != NULL
    ensures Inv(Allocate(s, h), [Flight(h)] + frames)
  {
    var t, f := Allocate(s, h), [Flight(h)] + frames;
    assert f[1..] == frames;
    HandledInFrames(frames);
    SquashElements(Handled(frames));
    SameChain(s, t, s.caught, Squash(Handled(frames)));
    forall g | g in t.handlers ensures CountIs(t, f, g) { if g != h { assert CountIs(s, frames, g); } }
  }

  lemma {:induction false} HandledInFrames(frames: seq<Frame>)
    ensures forall h :: h in Handled(frames) <==> Handler(h) in frames
  {
    if frames != [] {
      HandledInFrames(frames[1..]);
      assert frames == [frames[0]] + frames[1..];
    }
  }

  lemma RethrowInv(s: Stack, frames: seq<Frame>)
    requires Inv(s, frames) && s.caught != NULL && s.caught in s.handlers && s.handlers[s.caught] > 0
    ensures Inv(Rethrow(s), [Flight(s.caught)] + frames)
  {
    var h, t, f := s.caught, Rethrow(s), [Flight(s.caught)] + frames;
    assert f[1..] == frames;
    SquashElements(Handled(frames));
    SameChain(s, t, s.caught, Squash(Handled(frames)));
    assert CountIs(s, frames, h);
    forall g | g in t.handlers ensures CountIs(t, f, g) { assert CountIs(s, frames, g); }
  }

  /** The frame on top is the flight of the exception that is caught. */
  lemma BeginCatchInv(s: Stack, frames: seq<Frame>, h: int)
    requires Inv(s, frames) && frames != [] && frames[0] == Flight(h)
    ensures Inv(BeginCatch(s, h), [Handler(h)] + frames[1..])
  {
    var rest := frames[1..];
    var t, f := BeginCatch(s, h), [Handler(h)] + rest;
    assert f[1..] == rest && frames == [Flight(h)] + rest;
    var hs := Handled(rest);
    assert Handled(frames) == hs && Handled(f) == [h] + hs && Handled(f)[1..] == hs;
    HandledInFrames(rest);
    SquashElements(hs);
    assert CountIs(s, frames, h);
    if hs != [] { assert s.caught == Squash(hs)[0] == hs[0]; }
    SameChain(s, t, s.caught, Squash(hs));
    forall g | g in t.handlers ensures CountIs(t, f, g) { assert CountIs(s, frames, g); }
  }

  lemma EndFrames(above: seq<Frame>, rest: seq<Frame>, h: int)
    requires |above| <= 1 && (above != [] ==> above[0].Flight?)
    requires var frames := above + [Handler(h)] + rest; FlightsNested(frames) && Nested(Handled(frames))
    ensures var frames, f := above + [Handler(h)] + rest, above + rest;
      && Handled(frames) == [h] + Handled(rest) && Handled(f) == Handled(rest)
      && FlightsNested(f) && Flight(h) !in rest && (Flight(h) in frames ==> above == [Flight(h)])
      && (above != [] && above[0].exception in Handled(frames) ==> above[0].exception == h)
  {
    var frames, f := above + [Handler(h)] + rest, above + rest;
    assert ([h] + Handled(rest))[1..] == Handled(rest);
    assert ([Handler(h)] + rest)[1..] == rest;
    if above == [] {
      assert frames == [Handler(h)] + rest && f == rest;
    } else {
      assert frames[1..] == [Handler(h)] + rest && f[1..] == rest;
      assert FlightsNested([Handler(h)] + rest);
    }
  }

  /** The innermost handler ends; above it is the flight that ends it, if it does not end normally. */
  lemma EndCatchInv(s: Stack, above: seq<Frame>, rest: seq<Frame>, h: int)
    requires Inv(s, above + [Handler(h)] + rest) && |above| <= 1 && (above != [] ==> above[0].Flight?)
    ensures s.caught == h && h in s.handlers && h in s.next && Inv(EndCatch(s).0, above + rest)
    ensures EndCatch(s).1 <==> h !in Handled(rest) && Flight(h) !in above
    ensures Flight(h) !in rest
  {
    var frames, f, hs := above + [Handler(h)] + rest, above + rest, Handled(rest);
    EndFrames(above, rest, h);
    assert ([h] + hs)[1..] == hs;
    SquashElements(hs);
    assert CountIs(s, frames, h);
    assert s.caught == h && h in s.next;
    EndCatchChain(s, EndCatch(s).0, h, hs);
    EndCatchCounts(s, frames, f, h);
  }

  lemma EndCatchCounts(s: Stack, frames: seq<Frame>, f: seq<Frame>, h: int)
    requires s.caught == h && h in s.next && h in s.handlers && Handled(frames) == [h] + Handled(f)
    requires forall g {:trigger CountIs(s, frames, g)} | g in s.handlers :: CountIs(s, frames, g)
    requires forall g :: Flight(g) in frames <==> Flight(g) in f
    ensures forall g {:trigger CountIs(EndCatch(s).0, f, g)} | g in s.handlers :: CountIs(EndCatch(s).0, f, g)
  {
    assert ([h] + Handled(f))[1..] == Handled(f);
    assert CountIs(s, frames, h);
    forall g | g in s.handlers ensures CountIs(EndCatch(s).0, f, g) { assert CountIs(s, frames, g); }
  }

  lemma EndCatchChain(s: Stack, t: Stack, h: int, hs: seq<int>)
    requires IsChain(s, s.caught, Squash([h] + hs)) && Nested([h] + hs) && t.next == s.next && h in s.next
    requires t.caught == if h in hs then s.caught else s.next[h]
    ensures IsChain(t, t.caught, Squash(hs))
  {
    assert ([h] + hs)[1..] == hs;
    if h in hs {
      assert Squash([h] + hs) == Squash(hs);
    } else {
      assert Squash([h] + hs) == [h] + Squash(hs) && ([h] + Squash(hs))[1..] == Squash(hs);
    }
    SameChain(s, t, t.caught, Squash(hs));
  }

  /** Headers of exceptions that are in no frame can go. */
  lemma FreeInv(s: Stack, frames: seq<Frame>, h: int)
    requires Inv(s, frames) && forall f | f in frames :: f.exception != h
    ensures Inv(Free(s, h), frames)
  {
    HandledInFrames(frames);
    SquashElements(Handled(frames));
    SameChain(s, Free(s, h), s.caught, Squash(Handled(frames)));
    forall g | g in Free(s, h).handlers ensures CountIs(Free(s, h), frames, g) { assert CountIs(s, frames, g); }
  }

  /** A flight of an exception that is not handled can end without a handler. */
  lemma FlightEndsInv(s: Stack, rest: seq<Frame>, h: int)
    requires Inv(s, [Flight(h)] + rest) && Handler(h) !in rest
    ensures Inv(s, rest)
  {
    var frames := [Flight(h)] + rest;
    assert frames[1..] == rest && Handled(frames) == Handled(rest);
    HandledInFrames(rest);
    forall g | g in s.handlers ensures CountIs(s, rest, g) { assert CountIs(s, frames, g); }
  }
}
