/** Who owns the exceptions of a thread: handlers, flights, dependent exceptions and captured pointers. */
module ExceptionOwnership {
  import opened CaughtStack

  /**
   * The caught stack and the count of uncaught exceptions; the primary exception
   * of every header (a primary's own is itself), and the reference counts of
   * primaries; and, beside what the runtime keeps, the frames, how many captured
   * pointers there are to each primary, which were destroyed, which headers there
   * ever were, and how many flights a foreign runtime ended.
   */
  datatype State = State(stack: Stack, uncaught: int, primary: map<int, int>, references: map<int, int>,
    frames: seq<Frame>, captured: map<int, int>, destroyed: seq<int>, ever: set<int>, lost: nat)

  // ----- the shares of a primary

  predicate InFrames(frames: seq<Frame>, h: int) {
    Handler(h) in frames || Flight(h) in frames
  }

  function DependentsOf(primary: map<int, int>, p: int): set<int> {
    set d | d in primary && d != p && primary[d] == p
  }

  /** Its own while it is in flight or caught, one for every dependent exception, and the captured pointers. */
  function Shares(s: State, p: int): int
    requires p in s.captured
  {
    (if InFrames(s.frames, p) then 1 else 0) + |DependentsOf(s.primary, p)| + s.captured[p]
  }

  /** The count is the number of shares; owed is a primary with one more, about to be given back, or NULL. */
  predicate SharesAre(s: State, owed: int, p: int)
    requires p in s.references && p in s.captured
  {
    s.references[p] == Shares(s, p) + if p == owed then 1 else 0
  }

  predicate OwnerOf(s: State, h: int)
    requires h in s.primary
  {
    s.primary[h] in s.references && (s.primary[h] != h ==> InFrames(s.frames, h))
  }

  function Flights(frames: seq<Frame>): nat {
    if frames == [] then 0 else Flights(frames[1..]) + if frames[0].Flight? then 1 else 0
  }

  ghost predicate SharesInv(s: State, owed: int) {
    && s.captured.Keys == s.references.Keys && NULL !in s.primary
    && (forall p :: p in s.references <==> p in s.primary && s.primary[p] == p)
    && (forall h {:trigger OwnerOf(s, h)} | h in s.primary :: OwnerOf(s, h))
    && (forall p {:trigger SharesAre(s, owed, p)} | p in s.references :: SharesAre(s, owed, p))
    && (forall p | p in s.references :: s.captured[p] >= 0 && s.references[p] >= 1)
    && (owed == NULL || owed in s.references)
  }

  /** Headers are never used again, and primaries destroyed once. */
  ghost predicate HistoryInv(s: State) {
    && (forall h | h in s.primary :: h in s.ever && h !in s.destroyed)
    && (forall h | h in s.destroyed :: h in s.ever)
    && forall i, j | 0 <= i < j < |s.destroyed| :: s.destroyed[i] != s.destroyed[j]
  }

  ghost predicate InvBut(s: State, owed: int) {
    && CaughtStack.Inv(s.stack, s.frames) && s.primary.Keys == s.stack.handlers.Keys
    && SharesInv(s, owed) && HistoryInv(s)
    && s.uncaught == Flights(s.frames) + s.lost
  }

  ghost predicate Inv(s: State) {
    InvBut(s, NULL)
  }

  // ----- the operations

  function Throw(s: State, h: int): State {
    s.(stack := Allocate(s.stack, h), uncaught := s.uncaught + 1, primary := s.primary[h := h],
      references := s.references[h := 1], captured := s.captured[h := 0], frames := [Flight(h)] + s.frames, ever := s.ever + {h})
  }

  /** The frame on top is a flight, which a handler ends. */
  function BeginCatch(s: State): State
    requires s.frames != [] && s.frames[0].exception in s.stack.handlers
  {
    var h := s.frames[0].exception;
    s.(stack := CaughtStack.BeginCatch(s.stack, h), uncaught := s.uncaught - 1, frames := [Handler(h)] + s.frames[1..])
  }

  function Rethrow(s: State): State
    requires s.stack.caught in s.stack.handlers
  {
    s.(stack := CaughtStack.Rethrow(s.stack), uncaught := s.uncaught + 1, frames := [Flight(s.stack.caught)] + s.frames)
  }

  /** __cxa_decrement_exception_refcount: the last reference takes the exception with it. */
  function Decrement(s: State, p: int): State
    requires p in s.references
  {
    if s.references[p] - 1 == 0 then
      s.(stack := Free(s.stack, p), primary := s.primary - {p}, references := s.references - {p},
        captured := s.captured - {p}, destroyed := s.destroyed + [p])
    else s.(references := s.references[p := s.references[p] - 1])
  }

  /** Header h is given up: if it is a dependent exception it is freed, and its primary is released. */
  function GiveUp(s: State, h: int): State
    requires h in s.primary && s.primary[h] in s.references
  {
    var p := s.primary[h];
    Decrement(if p == h then s else s.(stack := Free(s.stack, h), primary := s.primary - {h}), p)
  }

  /** The innermost handler, below at most one flight, ends. */
  function EndCatch(s: State, above: nat): State
    requires above < |s.frames| && s.stack.caught in s.stack.handlers && s.stack.caught in s.stack.next
    requires s.stack.caught in s.primary && s.primary[s.stack.caught] in s.references
  {
    var (stack, release) := CaughtStack.EndCatch(s.stack);
    var t := s.(stack := stack, frames := s.frames[..above] + s.frames[above + 1..]);
    if release then GiveUp(t, s.stack.caught) else t
  }

  /** __cxa_current_primary_exception. */
  function Capture(s: State): State
    requires s.stack.caught in s.primary
    requires s.primary[s.stack.caught] in s.references && s.primary[s.stack.caught] in s.captured
  {
    CopyPointer(s, s.primary[s.stack.caught])
  }

  function CopyPointer(s: State, p: int): State
    requires p in s.references && p in s.captured
  {
    s.(references := s.references[p := s.references[p] + 1], captured := s.captured[p := s.captured[p] + 1])
  }

  function DropPointer(s: State, p: int): State
    requires p in s.references && p in s.captured
  {
    Decrement(s.(captured := s.captured[p := s.captured[p] - 1]), p)
  }

  /** __cxa_rethrow_primary_exception: dependent exception d for primary p. */
  function RethrowPrimary(s: State, p: int, d: int): State
    requires p in s.references
  {
    s.(stack := Allocate(s.stack, d), uncaught := s.uncaught + 1, primary := s.primary[d := p],
      references := s.references[p := s.references[p] + 1], frames := [Flight(d)] + s.frames, ever := s.ever + {d})
  }

  /** A foreign runtime catches the exception in flight and deletes it; its flight stays counted. */
  function ForeignCatch(s: State): State
    requires s.frames != [] && s.frames[0].exception in s.primary && s.primary[s.frames[0].exception] in s.references
  {
    GiveUp(s.(frames := s.frames[1..], lost := s.lost + 1), s.frames[0].exception)
  }

  // ----- they keep it

  /** The exception on top of the caught stack is that of the innermost handler. */
  lemma TopIsInnermost(s: State, owed: int)
    requires InvBut(s, owed)
    ensures s.stack.caught == if Handled(s.frames) == [] then NULL else Handled(s.frames)[0]
    ensures s.stack.caught != NULL ==>
      s.stack.caught in s.stack.handlers && Handler(s.stack.caught) in s.frames && OwnerOf(s, s.stack.caught)
  {
    HandledInFrames(s.frames);
    SquashElements(Handled(s.frames));
    if s.stack.caught != NULL { assert OwnerOf(s, s.stack.caught); }
  }

  lemma ThrowInv(s: State, h: int)
    requires Inv(s) && h !in s.ever && h != NULL
    ensures Inv(Throw(s, h))
  {
    AllocateInv(s.stack, s.frames, h);
    ThrowShares(s, h);
    assert Throw(s, h).frames[1..] == s.frames;
  }

  lemma ThrowShares(s: State, h: int)
    requires SharesInv(s, NULL) && h !in s.primary && h != NULL && !InFrames(s.frames, h)
    ensures SharesInv(Throw(s, h), NULL)
  {
    var t := Throw(s, h);
    forall g | g in t.primary ensures OwnerOf(t, g) { if g != h { assert OwnerOf(s, g); } }
    forall p | p in t.references ensures SharesAre(t, NULL, p) {
      if p == h {
        forall d | d in s.primary ensures s.primary[d] != h { assert OwnerOf(s, d); }
        assert DependentsOf(t.primary, h) == {};
      } else {
        assert SharesAre(s, NULL, p) && DependentsOf(t.primary, p) == DependentsOf(s.primary, p);
      }
    }
  }

  lemma RethrowPrimaryInv(s: State, p: int, d: int)
    requires Inv(s) && p in s.references && d !in s.ever && d != NULL
    ensures Inv(RethrowPrimary(s, p, d))
  {
    AllocateInv(s.stack, s.frames, d);
    RethrowPrimaryShares(s, p, d);
    assert RethrowPrimary(s, p, d).frames[1..] == s.frames;
  }

  lemma RethrowPrimaryShares(s: State, p: int, d: int)
    requires SharesInv(s, NULL) && p in s.references && d !in s.primary && d != NULL && !InFrames(s.frames, d)
    ensures SharesInv(RethrowPrimary(s, p, d), NULL)
  {
    var t := RethrowPrimary(s, p, d);
    forall g | g in t.primary ensures OwnerOf(t, g) { if g != d { assert OwnerOf(s, g); } }
    forall q | q in t.references ensures SharesAre(t, NULL, q) {
      assert SharesAre(s, NULL, q);
      assert DependentsOf(t.primary, q) == DependentsOf(s.primary, q) + if q == p then {d} else {};
    }
  }

  /** The frames change, but not which exceptions are in them. */
  lemma FramesInv(s: State, t: State, owed: int)
    requires InvBut(s, owed)
    requires t == s.(stack := t.stack, frames := t.frames, uncaught := t.uncaught)
    requires CaughtStack.Inv(t.stack, t.frames) && t.stack.handlers.Keys == s.stack.handlers.Keys
    requires t.uncaught == Flights(t.frames) + t.lost
    requires forall h | h in s.primary :: InFrames(t.frames, h) == InFrames(s.frames, h)
    ensures InvBut(t, owed)
  {
    forall g | g in t.primary ensures OwnerOf(t, g) { assert OwnerOf(s, g); }
    forall p | p in t.references ensures SharesAre(t, owed, p) { assert SharesAre(s, owed, p); }
  }

  lemma BeginCatchInv(s: State)
    requires Inv(s) && s.frames != [] && s.frames[0].Flight?
    ensures s.frames[0].exception in s.stack.handlers && Inv(BeginCatch(s))
  {
    var h, rest := s.frames[0].exception, s.frames[1..];
    assert s.frames == [Flight(h)] + rest;
    CaughtStack.BeginCatchInv(s.stack, s.frames, h);
    assert BeginCatch(s).frames[1..] == rest;
    FramesInv(s, BeginCatch(s), NULL);
  }

  /** A rethrow keeps it exactly if the exception is not in flight already. */
  lemma RethrowInv(s: State)
    requires Inv(s) && s.stack.caught != NULL
    ensures s.stack.caught in s.stack.handlers && (Inv(Rethrow(s)) <==> Flight(s.stack.caught) !in s.frames)
  {
    TopIsInnermost(s, NULL);
    var t := Rethrow(s);
    assert t.frames[1..] == s.frames;
    if Flight(s.stack.caught) !in s.frames {
      assert CountIs(s.stack, s.frames, s.stack.caught);
      HandledInFrames(s.frames);
      CaughtStack.RethrowInv(s.stack, s.frames);
      FramesInv(s, t, NULL);
    }
  }

  lemma CopyPointerInv(s: State, p: int)
    requires Inv(s) && p in s.references
    ensures Inv(CopyPointer(s, p))
  {
    var t := CopyPointer(s, p);
    forall g | g in t.primary ensures OwnerOf(t, g) { assert OwnerOf(s, g); }
    forall q | q in t.references ensures SharesAre(t, NULL, q) { assert SharesAre(s, NULL, q); }
  }

  /** Giving the reference that is owed back settles the account. */
  lemma DecrementInv(s: State, p: int)
    requires InvBut(s, p) && p != NULL
    ensures Inv(Decrement(s, p))
  {
    DecrementShares(s, p);
    if s.references[p] == 1 {
      assert forall f | f in s.frames :: f == Handler(f.exception) || f == Flight(f.exception);
      FreeInv(s.stack, s.frames, p);
    }
  }

  lemma DecrementShares(s: State, p: int)
    requires SharesInv(s, p) && p != NULL
    ensures SharesInv(Decrement(s, p), NULL) && (s.references[p] == 1 ==> !InFrames(s.frames, p))
  {
    var t := Decrement(s, p);
    assert SharesAre(s, p, p);
    if s.references[p] == 1 { assert DependentsOf(s.primary, p) == {}; }
    forall g | g in t.primary ensures OwnerOf(t, g) {
      assert OwnerOf(s, g);
      assert s.references[p] == 1 ==> g !in DependentsOf(s.primary, p);
    }
    forall q | q in t.references ensures SharesAre(t, NULL, q) {
      assert SharesAre(s, p, q) && DependentsOf(t.primary, q) == DependentsOf(s.primary, q);
    }
  }

  lemma DropPointerInv(s: State, p: int)
    requires Inv(s) && p in s.references && s.captured[p] > 0
    ensures Inv(DropPointer(s, p))
  {
    var t := s.(captured := s.captured[p := s.captured[p] - 1]);
    forall g | g in t.primary ensures OwnerOf(t, g) { assert OwnerOf(s, g); }
    forall q | q in t.references ensures SharesAre(t, p, q) { assert SharesAre(s, NULL, q); }
    DecrementInv(t, p);
  }

  /** Header h has just left the frames: s before, t after. */
  lemma GiveUpInv(s: State, t: State, h: int)
    requires Inv(s) && h in s.primary && InFrames(s.frames, h) && !InFrames(t.frames, h)
    requires t == s.(stack := t.stack, frames := t.frames, uncaught := t.uncaught, lost := t.lost)
    requires CaughtStack.Inv(t.stack, t.frames) && t.stack.handlers.Keys == s.stack.handlers.Keys
    requires t.uncaught == Flights(t.frames) + t.lost
    requires forall g | g in s.primary && g != h :: InFrames(t.frames, g) == InFrames(s.frames, g)
    ensures s.primary[h] in s.references && Inv(GiveUp(t, h))
  {
    assert OwnerOf(s, h);
    var p := s.primary[h];
    if p == h {
      PrimaryLeaves(s, t, h);
      DecrementInv(t, p);
    } else {
      DependentLeaves(s, t, h);
      FreeInv(t.stack, t.frames, h);
      DecrementInv(t.(stack := Free(t.stack, h), primary := t.primary - {h}), p);
    }
  }

  lemma PrimaryLeaves(s: State, t: State, h: int)
    requires SharesInv(s, NULL) && h in s.primary && InFrames(s.frames, h) && !InFrames(t.frames, h) && s.primary[h] == h
    requires t.primary == s.primary && t.references == s.references && t.captured == s.captured
    requires forall g | g in s.primary && g != h :: InFrames(t.frames, g) == InFrames(s.frames, g)
    ensures SharesInv(t, h)
  {
    forall g | g in t.primary ensures OwnerOf(t, g) { assert OwnerOf(s, g); }
    forall q | q in t.references ensures SharesAre(t, h, q) { assert SharesAre(s, NULL, q); }
  }

  lemma DependentLeaves(s: State, t: State, h: int)
    requires SharesInv(s, NULL) && h in s.primary && InFrames(s.frames, h) && !InFrames(t.frames, h) && s.primary[h] != h
    requires t.primary == s.primary && t.references == s.references && t.captured == s.captured
    requires forall g | g in s.primary && g != h :: InFrames(t.frames, g) == InFrames(s.frames, g)
    ensures SharesInv(t.(stack := Free(t.stack, h), primary := t.primary - {h}), s.primary[h])
  {
    var p, u := s.primary[h], t.(stack := Free(t.stack, h), primary := t.primary - {h});
    assert OwnerOf(s, h) && OwnerOf(s, p);
    forall g | g in u.primary ensures OwnerOf(u, g) { assert OwnerOf(s, g); }
    forall q | q in u.references ensures SharesAre(u, p, q) {
      assert SharesAre(s, NULL, q);
      assert DependentsOf(s.primary, q) == DependentsOf(u.primary, q) + if q == p then {h} else {};
    }
  }

  /** A handler can end normally, or because of the exception in flight above it. */
  lemma EndCatchInv(s: State, above: nat)
    requires Inv(s) && above <= 1 && above < |s.frames| && s.frames[above].Handler? && (above == 1 ==> s.frames[0].Flight?)
    ensures s.stack.caught == s.frames[above].exception && OwnerOf(s, s.stack.caught) && s.stack.caught in s.stack.next
    ensures Inv(EndCatch(s, above))
  {
    var h, a, rest := s.frames[above].exception, s.frames[..above], s.frames[above + 1..];
    assert s.frames == a + [Handler(h)] + rest;
    CaughtStack.EndCatchInv(s.stack, a, rest, h);
    assert OwnerOf(s, h);
    var (stack, release) := CaughtStack.EndCatch(s.stack);
    var t := s.(stack := stack, frames := a + rest);
    FlightsWithout(a, h, rest);
    InFramesWithout(a, h, rest);
    if release {
      GiveUpInv(s, t, h);
    } else {
      FramesInv(s, t, NULL);
    }
  }

  lemma InFramesWithout(a: seq<Frame>, h: int, rest: seq<Frame>)
    requires Flight(h) !in rest && |a| <= 1 && (a != [] ==> a[0].Flight?)
    ensures var f := a + [Handler(h)] + rest;
      && InFrames(f, h) && (InFrames(a + rest, h) <==> h in Handled(rest) || Flight(h) in a)
      && forall g | g != h :: InFrames(f, g) == InFrames(a + rest, g)
  {
    HandledInFrames(rest);
  }

  lemma FlightsWithout(a: seq<Frame>, h: int, rest: seq<Frame>)
    requires |a| <= 1
    ensures Flights(a + [Handler(h)] + rest) == Flights(a + rest)
  {
    assert ([Handler(h)] + rest)[1..] == rest;
    if a == [] {
      assert a + [Handler(h)] + rest == [Handler(h)] + rest && a + rest == rest;
    } else {
      assert (a + [Handler(h)] + rest)[1..] == [Handler(h)] + rest && (a + rest)[1..] == rest;
    }
  }

  /** What a foreign runtime does keeps it exactly if the exception has no handler left. */
  lemma ForeignCatchInv(s: State)
    requires Inv(s) && s.frames != [] && s.frames[0].Flight?
    ensures s.frames[0].exception in s.primary && OwnerOf(s, s.frames[0].exception)
    ensures Inv(ForeignCatch(s)) <==> Handler(s.frames[0].exception) !in s.frames
  {
    var h, rest := s.frames[0].exception, s.frames[1..];
    assert s.frames == [Flight(h)] + rest;
    assert OwnerOf(s, h);
    if Handler(h) !in rest {
      FlightEndsInv(s.stack, rest, h);
      GiveUpInv(s, s.(frames := rest, lost := s.lost + 1), h);
    } else {
      HandledInFrames(rest);
      assert CountIs(s.stack, s.frames, h);
      var r := ForeignCatch(s);
      assert Inv(r) ==> h in r.stack.handlers && CountIs(r.stack, r.frames, h);
    }
  }

  /** Whatever is handled or in flight still has its header. */
  predicate HeadersAreThere(s: State) {
    forall f | f in s.frames :: f.exception in s.primary
  }

  /** Without handlers or with a further reference to the exception, the foreign runtime takes no header that is in use. */
  lemma ForeignCatchSpares(s: State)
    requires Inv(s) && s.frames != [] && s.frames[0].Flight?
    ensures s.frames[0].exception in s.primary && OwnerOf(s, s.frames[0].exception)
    ensures var h := s.frames[0].exception;
      HeadersAreThere(ForeignCatch(s)) <==>
        Handler(h) !in s.frames || (s.primary[h] == h && s.references[h] > 1)
  {
    var h := s.frames[0].exception;
    assert s.frames == [Flight(h)] + s.frames[1..];
    assert OwnerOf(s, h);
    ForeignCatchInv(s);
  }

  // ----- every run

  datatype Call =
    | DoThrow(h: int) | DoBeginCatch | DoEndCatch(above: nat) | DoRethrow | DoCapture | DoCopy(p: int) | DoDrop(p: int)
    | DoRethrowPrimary(p: int, d: int) | DoForeignCatch

  /**
   * What compiled code and the unwinder do: headers are new, handlers begin with
   * the flight on top and end normally or by the one flight above them, what is
   * rethrown is being handled, and whoever passes a pointer on has one.
   */
  predicate Possible(s: State, call: Call) {
    match call
    case DoThrow(h) => h !in s.ever && h != NULL
    case DoBeginCatch => s.frames != [] && s.frames[0].Flight?
    case DoEndCatch(above) =>
      above <= 1 && above < |s.frames| && s.frames[above].Handler? && (above == 1 ==> s.frames[0].Flight?)
    case DoRethrow => s.stack.caught != NULL
    case DoCapture => s.stack.caught != NULL
    case DoCopy(p) => p in s.references && p in s.captured && s.captured[p] > 0
    case DoDrop(p) => p in s.references && p in s.captured && s.captured[p] > 0
    case DoRethrowPrimary(p, d) => p in s.references && p in s.captured && s.captured[p] > 0 && d !in s.ever && d != NULL
    case DoForeignCatch => s.frames != [] && s.frames[0].Flight?
  }

  /**
   * Nothing is rethrown that is in flight already, as a destructor can do that a
   * rethrow has called, and a foreign runtime catches nothing that has a handler
   * left, as code can let it that the handler has called and that rethrows.
   */
  predicate InOrder(s: State, call: Call)
    requires Possible(s, call)
  {
    match call
    case DoRethrow => Flight(s.stack.caught) !in s.frames
    case DoForeignCatch => Handler(s.frames[0].exception) !in s.frames
    case _ => true
  }

  /** What the call makes of s. */
  predicate Does(s: State, call: Call, r: State) {
    Possible(s, call) &&
    match call
    case DoThrow(h) => r == Throw(s, h)
    case DoBeginCatch => s.frames[0].exception in s.stack.handlers && r == BeginCatch(s)
    case DoEndCatch(above) => CaughtIsKnown(s) && s.stack.caught in s.stack.next && r == EndCatch(s, above)
    case DoRethrow => s.stack.caught in s.stack.handlers && r == Rethrow(s)
    case DoCapture => CaughtIsKnown(s) && s.primary[s.stack.caught] in s.captured && r == Capture(s)
    case DoCopy(p) => r == CopyPointer(s, p)
    case DoDrop(p) => r == DropPointer(s, p)
    case DoRethrowPrimary(p, d) => r == RethrowPrimary(s, p, d)
    case DoForeignCatch =>
      s.frames[0].exception in s.primary && s.primary[s.frames[0].exception] in s.references && r == ForeignCatch(s)
  }

  predicate CaughtIsKnown(s: State) {
    s.stack.caught in s.stack.handlers && s.stack.caught in s.primary && s.primary[s.stack.caught] in s.references
  }

  /** Every possible call finds what it needs. */
  lemma CallSucceeds(s: State, call: Call) returns (r: State)
    requires Inv(s) && Possible(s, call)
    ensures Does(s, call, r)
  {
    match call
    case DoThrow(h) => r := Throw(s, h);
    case DoBeginCatch =>
      BeginCatchInv(s);
      r := BeginCatch(s);
    case DoEndCatch(above) =>
      EndCatchInv(s, above);
      r := EndCatch(s, above);
    case DoRethrow =>
      TopIsInnermost(s, NULL);
      r := Rethrow(s);
    case DoCapture =>
      TopIsInnermost(s, NULL);
      r := Capture(s);
    case DoCopy(p) => r := CopyPointer(s, p);
    case DoDrop(p) => r := DropPointer(s, p);
    case DoRethrowPrimary(p, d) => r := RethrowPrimary(s, p, d);
    case DoForeignCatch =>
      ForeignCatchInv(s);
      r := ForeignCatch(s);
  }

  /** A call keeps the invariant exactly if it is in order. */
  lemma CallInv(s: State, call: Call, r: State)
    requires Inv(s) && Does(s, call, r)
    ensures Inv(r) <==> InOrder(s, call)
  {
    match call
    case DoThrow(h) => ThrowInv(s, h);
    case DoBeginCatch => BeginCatchInv(s);
    case DoEndCatch(above) => EndCatchInv(s, above);
    case DoRethrow => RethrowInv(s);
    case DoCapture =>
      TopIsInnermost(s, NULL);
      CopyPointerInv(s, s.primary[s.stack.caught]);
    case DoCopy(p) => CopyPointerInv(s, p);
    case DoDrop(p) => DropPointerInv(s, p);
    case DoRethrowPrimary(p, d) => RethrowPrimaryInv(s, p, d);
    case DoForeignCatch => ForeignCatchInv(s);
  }

  const START: State := State(Stack(NULL, map[], map[]), 0, map[], map[], [], map[], [], {}, 0)

  ghost predicate Next(s: State, r: State) {
    exists call :: Does(s, call, r)
  }

  ghost predicate NextInOrder(s: State, r: State) {
    exists call :: Does(s, call, r) && InOrder(s, call)
  }

  /** The states that the calls lead to. */
  ghost predicate IsRun(run: seq<State>) {
    run != [] && run[0] == START && forall i | 0 < i < |run| :: Next(run[i - 1], run[i])
  }

  /** The states that calls in order lead to. */
  ghost predicate IsOrderlyRun(run: seq<State>) {
    run != [] && run[0] == START && forall i | 0 < i < |run| :: NextInOrder(run[i - 1], run[i])
  }

  lemma {:induction false} RunKeepsInv(run: seq<State>, k: nat)
    requires IsOrderlyRun(run) && k < |run|
    ensures Inv(run[k])
  {
    if k > 0 {
      RunKeepsInv(run, k - 1);
      assert NextInOrder(run[k - 1], run[k]);
      var call :| Does(run[k - 1], call, run[k]) && InOrder(run[k - 1], call);
      CallInv(run[k - 1], call, run[k]);
    }
  }

  /** The invariant holds all along a run exactly if all its calls are in order. */
  lemma OnlyOrderlyRuns(run: seq<State>)
    requires IsRun(run)
    ensures (forall k | 0 <= k < |run| :: Inv(run[k])) <==> IsOrderlyRun(run)
  {
    hide Inv, Possible, Does, InOrder;
    if IsOrderlyRun(run) {
      forall k | 0 <= k < |run| ensures Inv(run[k]) { RunKeepsInv(run, k); }
    } else if forall k | 0 <= k < |run| :: Inv(run[k]) {
      forall i | 0 < i < |run| ensures NextInOrder(run[i - 1], run[i]) {
        assert Next(run[i - 1], run[i]);
        var call :| Does(run[i - 1], call, run[i]);
        CallInv(run[i - 1], call, run[i]);
      }
    }
  }

  /** The reference count of a primary is its own share, one for each dependent exception, and the captured pointers. */
  lemma ReferencesAreShares(run: seq<State>, k: nat, p: int)
    requires IsOrderlyRun(run) && k < |run| && p in run[k].references
    ensures p in run[k].captured && run[k].references[p] ==
      (if InFrames(run[k].frames, p) then 1 else 0) + |DependentsOf(run[k].primary, p)| + run[k].captured[p]
  {
    RunKeepsInv(run, k);
    assert SharesAre(run[k], NULL, p);
  }

  /** The handler count, but for its sign, is the number of the exception's handlers; it is negative just while it is in flight again. */
  lemma HandlerCountCounts(run: seq<State>, k: nat, h: int)
    requires IsOrderlyRun(run) && k < |run| && h in run[k].stack.handlers
    ensures var n := Count(Handled(run[k].frames), h);
      run[k].stack.handlers[h] == if Flight(h) in run[k].frames then 0 - n else n
  {
    RunKeepsInv(run, k);
    assert CountIs(run[k].stack, run[k].frames, h);
  }

  /** uncaughtExceptions is the number of exceptions in flight, plus those that a foreign runtime has caught. */
  lemma UncaughtCounts(run: seq<State>, k: nat)
    requires IsOrderlyRun(run) && k < |run|
    ensures run[k].uncaught == Flights(run[k].frames) + run[k].lost
  {
    RunKeepsInv(run, k);
  }

  /** A foreign runtime catches what was thrown: nothing is in flight or left, and the count stays 1. */
  lemma ForeignCatchLeavesCount() returns (run: seq<State>)
    ensures IsOrderlyRun(run) && |run| == 3
    ensures run[2].uncaught == 1 && run[2].frames == [] && run[2].primary == map[] && run[2].destroyed == [1]
  {
    var thrown := Throw(START, 1);
    assert Does(START, DoThrow(1), thrown) && InOrder(START, DoThrow(1));
    var caught := ForeignCatch(thrown);
    assert Does(thrown, DoForeignCatch, caught) && InOrder(thrown, DoForeignCatch);
    run := [START, thrown, caught];
    assert NextInOrder(run[0], run[1]) && NextInOrder(run[1], run[2]);
  }

  lemma OneMore(run: seq<State>, call: Call, r: State) returns (longer: seq<State>)
    requires IsRun(run) && Does(run[|run| - 1], call, r)
    ensures longer == run + [r] && IsRun(longer)
  {
    longer := run + [r];
    assert Next(run[|run| - 1], r);
  }

  /** Exception 1 is thrown, caught, and rethrown by its handler. */
  lemma Rethrown() returns (run: seq<State>)
    ensures IsRun(run) && |run| == 4
    ensures run[3] == State(Stack(1, map[1 := -1], map[1 := NULL]), 1, map[1 := 1], map[1 := 1],
                            [Flight(1), Handler(1)], map[1 := 0], [], {1}, 0)
  {
    var s1 := Throw(START, 1);
    run := OneMore([START], DoThrow(1), s1);
    run := OneMore(run, DoBeginCatch, BeginCatch(s1));
    run := OneMore(run, DoRethrow, Rethrow(BeginCatch(s1)));
  }

  /** A handler calls code that rethrows, and a foreign runtime catches that: the exception goes, and the handler is left. */
  lemma DestroyedInHandler() returns (run: seq<State>)
    ensures IsRun(run) && |run| == 5
    ensures run[4].destroyed == [1] && run[4].frames == [Handler(1)] && run[4].stack.caught == 1
  {
    run := Rethrown();
    run := OneMore(run, DoForeignCatch, ForeignCatch(run[3]));
  }

  /**
   * A rethrow leaves its handler, a destructor that it calls rethrows as well, and catches that itself: the exception
   * goes when the first handler ends, and its flight is left.
   */
  lemma DestroyedInFlight() returns (run: seq<State>)
    ensures IsRun(run) && |run| == 8
    ensures run[7].destroyed == [1] && run[7].frames == [Flight(1)]
  {
    run := Rethrown();
    var again := Rethrow(run[3]);
    var caught := BeginCatch(again);
    var ended := EndCatch(caught, 0);
    var left := EndCatch(ended, 1);
    run := OneMore(run, DoRethrow, again);
    run := OneMore(run, DoBeginCatch, caught);
    run := OneMore(run, DoEndCatch(0), ended);
    run := OneMore(run, DoEndCatch(1), left);
  }

  /** An exception is destroyed at most once, and not while it is handled, in flight, referred to or captured. */
  lemma DestroyedOnce(run: seq<State>, k: nat, i: nat, j: nat)
    requires IsOrderlyRun(run) && k < |run| && i < |run[k].destroyed| && j < |run[k].destroyed|
    ensures i != j ==> run[k].destroyed[i] != run[k].destroyed[j]
    ensures var p := run[k].destroyed[i];
      !InFrames(run[k].frames, p) && p !in run[k].captured && forall d | d in run[k].primary :: run[k].primary[d] != p
  {
    RunKeepsInv(run, k);
    forall d | d in run[k].primary ensures run[k].primary[d] != run[k].destroyed[i] { assert OwnerOf(run[k], d); }
  }

  /** A capture adds one pointer and one reference to the primary of what is handled, a copy to its own, and a drop takes them. */
  lemma PointersCount(s: State, call: Call, r: State) returns (p: int)
    requires Inv(s) && Does(s, call, r) && (call.DoCapture? || call.DoCopy? || call.DoDrop?)
    ensures if call.DoCapture? then CaughtIsKnown(s) && p == s.primary[s.stack.caught] else p == call.p
    ensures
      && p in s.references && p in s.captured && r.frames == s.frames
      && (forall q | q in s.references && q != p :: q in r.references && r.references[q] == s.references[q]
                                                    && q in r.captured && r.captured[q] == s.captured[q])
      && (!call.DoDrop? ==> p in r.references && r.references[p] == s.references[p] + 1
                            && p in r.captured && r.captured[p] == s.captured[p] + 1)
      && (call.DoDrop? && s.references[p] > 1 ==> p in r.references && r.references[p] == s.references[p] - 1
                                                  && p in r.captured && r.captured[p] == s.captured[p] - 1)
      && (call.DoDrop? && s.references[p] == 1 ==> p !in r.references && r.destroyed == s.destroyed + [p])
  {
    if call.DoCapture? {
      TopIsInnermost(s, NULL);
      p := s.primary[s.stack.caught];
    } else {
      p := call.p;
    }
  }

  /** What a call destroys is what it lets go of: one primary at most, with its header. */
  lemma DestroyedIsLetGo(s: State, call: Call, r: State)
    requires Inv(s) && Does(s, call, r)
    ensures r.destroyed == s.destroyed || exists p :: p in s.references && p !in r.references && r.destroyed == s.destroyed + [p]
    ensures forall p | p in s.references && p !in r.references :: p in r.destroyed
  {
  }

  /** Nothing leaks: without frames and captured pointers there is no header left. */
  lemma NothingLeaks(run: seq<State>, k: nat)
    requires IsOrderlyRun(run) && k < |run| && run[k].frames == [] && forall p | p in run[k].captured :: run[k].captured[p] == 0
    ensures run[k].primary == map[] && run[k].stack.caught == NULL
  {
    RunKeepsInv(run, k);
    var s := run[k];
    forall d | d in s.primary ensures s.primary[d] == d { assert OwnerOf(s, d); }
    assert forall p :: DependentsOf(s.primary, p) == {};
    forall p | p in s.references ensures s.references[p] == Shares(s, p) { assert SharesAre(s, NULL, p); }
  }

  /** The caught stack holds no exception twice. */
  lemma CaughtOnce(run: seq<State>, k: nat, i: nat, j: nat)
    requires IsOrderlyRun(run) && k < |run|
    ensures var chain := Squash(Handled(run[k].frames));
      IsChain(run[k].stack, run[k].stack.caught, chain) && (i < j < |chain| ==> chain[i] != chain[j])
  {
    RunKeepsInv(run, k);
    if i < j < |Squash(Handled(run[k].frames))| { SquashDistinct(Handled(run[k].frames), i, j); }
  }

  lemma {:induction false} SquashDistinct(hs: seq<int>, i: nat, j: nat)
    requires Nested(hs) && i < j < |Squash(hs)|
    ensures Squash(hs)[i] != Squash(hs)[j]
  {
    SquashElements(hs[1..]);
    if hs[0] == hs[1] {
      SquashDistinct(hs[1..], i, j);
    } else if i > 0 {
      SquashDistinct(hs[1..], i - 1, j - 1);
    }
  }
}
