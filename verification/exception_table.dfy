/** The exception table of a frame and what a scan of it decides. */
module ExceptionTable {
  import opened UnicodeForms
  import opened Leb128
  import opened Wrappers

  // ----- the table

  /** landingPad 0: nothing to do there. action 0: a cleanup; otherwise 1 + the offset of the first action. */
  datatype CallSite = CallSite(start: nat, length: nat, landingPad: nat, action: nat) {
    predicate Contains(offset: nat) {
      start <= offset < start + length
    }
  }

  /** types[i - 1] is the i-th type, 0 standing for catch (...); specs holds the exception specifications. */
  datatype Table = Table(base: nat, callSites: seq<CallSite>, actions: seq<Byte>,
                         hasTypes: bool, types: seq<nat>, specs: seq<Byte>)

  /** catches[t] is the pointer that a handler of type t gets for the exception; no entry: it does not catch it. */
  datatype Thrown = Thrown(native: bool, pointer: nat, kind: nat, catches: map<nat, nat>)

  /** An entry of the action table. */
  datatype Action = Action(at: nat, ttypeIndex: int)

  /** From p on the table links exactly these actions. */
  predicate Chain(s: seq<Byte>, p: int, chain: seq<Action>)
    decreases |chain|
  {
    && chain != [] && Short(s, p)
    && chain[0] == Action(p, Wrapped(Signed(s, p)))
    && Short(s, End(s, p))
    && (var offset := Wrapped(Signed(s, End(s, p)));
        if offset == 0 then |chain| == 1 else Chain(s, End(s, p) + offset, chain[1..]))
  }

  predicate SpecReadable(s: seq<Byte>, p: int)
    decreases |s| - p
  {
    Short(s, p) && (Unsigned(s, p) % WORD == 0 || SpecReadable(s, End(s, p)))
  }

  /** The types that an exception specification lists. */
  function SpecTypes(s: seq<Byte>, p: int): seq<nat>
    requires SpecReadable(s, p)
    decreases |s| - p
  {
    var i := Unsigned(s, p) % WORD;
    if i == 0 then [] else [i] + SpecTypes(s, End(s, p))
  }

  predicate IsType(t: Table, i: int) {
    0 < i <= |t.types|
  }

  /** What an action refers to is there. */
  predicate ActionOk(t: Table, i: int) {
    && (i > 0 && t.hasTypes ==> IsType(t, i))
    && (i < 0 && t.hasTypes ==>
          && SpecReadable(t.specs, -i - 1)
          && forall j | j in SpecTypes(t.specs, -i - 1) :: IsType(t, j) && t.types[j - 1] != 0)
  }

  predicate ChainOk(t: Table, chain: seq<Action>) {
    forall k | 0 <= k < |chain| :: ActionOk(t, chain[k].ttypeIndex)
  }

  /** Call sites do not overlap and are in increasing order. */
  predicate Ordered(sites: seq<CallSite>) {
    && (forall i, j | 0 <= i < j < |sites| :: sites[i].start + sites[i].length <= sites[j].start)
    && (forall i | 0 <= i < |sites| :: sites[i].start + sites[i].length < WORD)
  }

  ghost predicate HasChain(t: Table, p: int) {
    exists chain :: Chain(t.actions, p, chain) && ChainOk(t, chain)
  }

  ghost function ChainAt(t: Table, p: int): (chain: seq<Action>)
    requires HasChain(t, p)
    ensures Chain(t.actions, p, chain) && ChainOk(t, chain)
  {
    var chain :| Chain(t.actions, p, chain) && ChainOk(t, chain);
    chain
  }

  /** The bytes at a position determine the actions. */
  lemma {:induction false} ChainIsUnique(s: seq<Byte>, p: int, a: seq<Action>, b: seq<Action>)
    requires Chain(s, p, a) && Chain(s, p, b)
    ensures a == b
    decreases |a|
  {
    var q := End(s, p);
    var offset := Wrapped(Signed(s, q));
    if offset != 0 { ChainIsUnique(s, q + offset, a[1..], b[1..]); }
    assert a == [a[0]] + a[1..] && b == [b[0]] + b[1..];
  }

  ghost predicate WellFormed(t: Table) {
    && Ordered(t.callSites)
    && forall i | 0 <= i < |t.callSites| && t.callSites[i].action > 0 :: HasChain(t, t.callSites[i].action - 1)
  }

  // ----- what an action means for an exception

  /** always: whatever the type of the exception is, foreign ones included. */
  datatype Meaning = Catches(adjustedPtr: nat, always: bool) | Cleanup | Passes | Corrupt

  predicate TypeCatches(t: Table, j: int, thrown: Thrown) {
    IsType(t, j) && t.types[j - 1] in thrown.catches
  }

  predicate SpecAllows(t: Table, i: int, thrown: Thrown)
    requires i < 0 && t.hasTypes && ActionOk(t, i)
  {
    exists j | j in SpecTypes(t.specs, -i - 1) :: TypeCatches(t, j, thrown)
  }

  function MeaningOf(t: Table, i: int, thrown: Thrown): Meaning
    requires ActionOk(t, i)
  {
    if i > 0 then
      if !t.hasTypes then Corrupt
      else if t.types[i - 1] == 0 then Catches(thrown.pointer, true)
      else if !thrown.native then Passes
      else if thrown.pointer == 0 || thrown.kind == 0 then Corrupt
      else if t.types[i - 1] in thrown.catches then Catches(thrown.catches[t.types[i - 1]], false)
      else Passes
    else if i < 0 then
      if !thrown.native then Catches(thrown.pointer, true)
      else if thrown.pointer == 0 || thrown.kind == 0 || !t.hasTypes then Corrupt
      else if SpecAllows(t, i, thrown) then Passes
      else Catches(thrown.pointer, false)
    else Cleanup
  }

  // ----- what a scan does about it

  datatype Actions = Actions(search: bool, cleanup: bool, handlerFrame: bool, forceUnwind: bool)

  const SEARCH := Actions(true, false, false, false)
  const HANDLER := Actions(false, true, true, false)
  const CLEANUP := Actions(false, true, false, false)
  const FORCED := Actions(false, true, false, true)

  datatype Code = HandlerFound | ContinueUnwind | FatalPhase1Error | FatalPhase2Error

  datatype Scan =
    | Scan(ttypeIndex: int, record: Option<nat>, landingPad: nat, adjustedPtr: nat, code: Code)
    | Terminated

  const NOTHING := Scan(0, None, 0, 0, ContinueUnwind)

  datatype Effect = Take | Die | Skip

  function EffectOf(a: Actions, m: Meaning): Effect {
    match m
    case Catches(_, always) =>
      if a.search || (always && a.handlerFrame) then Take else if a.forceUnwind then Skip else Die
    case Cleanup => if a.cleanup && !a.handlerFrame then Take else Skip
    case Passes => Skip
    case Corrupt => Die
  }

  function Taken(c: Action, m: Meaning, thrown: Thrown, pad: nat): Scan {
    Scan(c.ttypeIndex, Some(c.at), pad, if m.Catches? then m.adjustedPtr else thrown.pointer, HandlerFound)
  }

  function Follow(t: Table, chain: seq<Action>, thrown: Thrown, a: Actions, pad: nat): Scan
    requires ChainOk(t, chain)
  {
    if chain == [] then NOTHING
    else
      var m := MeaningOf(t, chain[0].ttypeIndex, thrown);
      match EffectOf(a, m)
      case Take => Taken(chain[0], m, thrown, pad)
      case Die => Terminated
      case Skip => Follow(t, chain[1..], thrown, a, pad)
  }

  ghost predicate Consistent(a: Actions) {
    if a.search then !a.cleanup && !a.handlerFrame && !a.forceUnwind
    else a.cleanup && !(a.handlerFrame && a.forceUnwind)
  }

  function Refused(a: Actions): Scan {
    NOTHING.(code := if a.search || !a.cleanup then FatalPhase1Error else FatalPhase2Error)
  }

  function LandingPad(t: Table, site: CallSite): nat {
    (t.base + site.landingPad) % WORD
  }

  /** The scan of one call site. */
  ghost function ScanSite(t: Table, site: CallSite, thrown: Thrown, a: Actions): Scan
    requires site.action > 0 ==> HasChain(t, site.action - 1)
  {
    if site.landingPad == 0 then NOTHING
    else if site.action == 0 then
      if a.cleanup && !a.handlerFrame then Scan(0, None, LandingPad(t, site), 0, HandlerFound) else NOTHING
    else Follow(t, ChainAt(t, site.action - 1), thrown, a, LandingPad(t, site))
  }

  ghost predicate IsSite(t: Table, offset: nat, i: int) {
    0 <= i < |t.callSites| && t.callSites[i].Contains(offset)
  }

  /** The result of a scan: that of the call site that holds the offset, if there is one. */
  ghost predicate IsScan(frame: Option<Table>, offset: nat, thrown: Thrown, a: Actions, r: Scan)
    requires frame.Some? ==> WellFormed(frame.value)
  {
    if !Consistent(a) then r == Refused(a)
    else if frame.None? then r == NOTHING
    else
      var t := frame.value;
      && (r == Terminated || exists i :: IsSite(t, offset, i))
      && forall i | IsSite(t, offset, i) :: r == ScanSite(t, t.callSites[i], thrown, a)
  }

  /** There is exactly one result. */
  lemma ScanIsUnique(frame: Option<Table>, offset: nat, thrown: Thrown, a: Actions, r: Scan, r': Scan)
    requires frame.Some? ==> WellFormed(frame.value)
    requires IsScan(frame, offset, thrown, a, r) && IsScan(frame, offset, thrown, a, r')
    ensures r == r'
  {
    if Consistent(a) && frame.Some? && exists i :: IsSite(frame.value, offset, i) {
      var i :| IsSite(frame.value, offset, i);
      assert r == ScanSite(frame.value, frame.value.callSites[i], thrown, a) == r';
    }
  }

  /** A scan with flags that do not belong together finds nothing and says which phase they are wrong for. */
  lemma ImproperFlags(frame: Option<Table>, offset: nat, thrown: Thrown, a: Actions, r: Scan)
    requires frame.Some? ==> WellFormed(frame.value)
    requires IsScan(frame, offset, thrown, a, r)
    ensures a.search && (a.cleanup || a.handlerFrame || a.forceUnwind) ==> r == Scan(0, None, 0, 0, FatalPhase1Error)
    ensures !a.search && !a.cleanup ==> r == Scan(0, None, 0, 0, FatalPhase1Error)
    ensures !a.search && a.cleanup && a.handlerFrame && a.forceUnwind ==> r == Scan(0, None, 0, 0, FatalPhase2Error)
    ensures r.Scan? && r.code in {FatalPhase1Error, FatalPhase2Error} ==> !Consistent(a)
  {
    if Consistent(a) && r.Scan? && frame.Some? {
      var t := frame.value;
      var i :| IsSite(t, offset, i);
      assert r == ScanSite(t, t.callSites[i], thrown, a);
      if t.callSites[i].action > 0 { FollowCode(t, ChainAt(t, t.callSites[i].action - 1), thrown, a, LandingPad(t, t.callSites[i])); }
    }
  }

  lemma {:induction false} FollowCode(t: Table, chain: seq<Action>, thrown: Thrown, a: Actions, pad: nat)
    requires ChainOk(t, chain)
    ensures var r := Follow(t, chain, thrown, a, pad);
      r.Terminated? || r == NOTHING || r.code == HandlerFound
  {
    if chain != [] { FollowCode(t, chain[1..], thrown, a, pad); }
  }

  // ----- the first action that a scan does not skip

  predicate Skips(t: Table, chain: seq<Action>, thrown: Thrown, a: Actions, k: nat)
    requires ChainOk(t, chain) && k <= |chain|
  {
    forall j | 0 <= j < k :: EffectOf(a, MeaningOf(t, chain[j].ttypeIndex, thrown)).Skip?
  }

  lemma {:induction false} FollowSkips(t: Table, chain: seq<Action>, thrown: Thrown, a: Actions, pad: nat, k: nat)
    requires ChainOk(t, chain) && k <= |chain| && Skips(t, chain, thrown, a, k)
    ensures Follow(t, chain, thrown, a, pad) == Follow(t, chain[k..], thrown, a, pad)
  {
    if k > 0 {
      assert forall j | 0 <= j < k - 1 :: chain[1..][j] == chain[j + 1];
      FollowSkips(t, chain[1..], thrown, a, pad, k - 1);
      assert chain[1..][k - 1..] == chain[k..];
    }
  }

  /** Either the whole chain is skipped or there is a first action that is not. */
  lemma {:induction false} FirstEffect(t: Table, chain: seq<Action>, thrown: Thrown, a: Actions) returns (k: nat)
    requires ChainOk(t, chain)
    ensures k <= |chain| && Skips(t, chain, thrown, a, k)
    ensures k < |chain| ==> !EffectOf(a, MeaningOf(t, chain[k].ttypeIndex, thrown)).Skip?
  {
    k := 0;
    while k < |chain| && EffectOf(a, MeaningOf(t, chain[k].ttypeIndex, thrown)).Skip?
      invariant k <= |chain| && Skips(t, chain, thrown, a, k)
    {
      k := k + 1;
    }
  }

  /** What a handler scan stops at. */
  predicate Halts(m: Meaning) {
    m.Catches? || m.Corrupt?
  }

  /** The search finds the first action that catches the exception, and nothing only if none does. */
  lemma SearchFindsFirst(t: Table, chain: seq<Action>, thrown: Thrown, pad: nat)
    requires ChainOk(t, chain)
    ensures var r := Follow(t, chain, thrown, SEARCH, pad);
      && (r == NOTHING <==> forall j | 0 <= j < |chain| :: !Halts(MeaningOf(t, chain[j].ttypeIndex, thrown)))
      && forall k | 0 <= k < |chain| ::
           (forall j | 0 <= j < k :: !Halts(MeaningOf(t, chain[j].ttypeIndex, thrown)))
           && Halts(MeaningOf(t, chain[k].ttypeIndex, thrown)) ==>
             var m := MeaningOf(t, chain[k].ttypeIndex, thrown);
             r == if m.Corrupt? then Terminated else Taken(chain[k], m, thrown, pad)
  {
    var k := FirstEffect(t, chain, thrown, SEARCH);
    FollowSkips(t, chain, thrown, SEARCH, pad, k);
    forall i | 0 <= i < |chain|
      ensures Halts(MeaningOf(t, chain[i].ttypeIndex, thrown))
          <==> !EffectOf(SEARCH, MeaningOf(t, chain[i].ttypeIndex, thrown)).Skip?
    {
    }
    if k < |chain| { assert chain[k..][0] == chain[k]; }
  }

  // ----- the same in terms of types

  /** It cannot be told whether the handler or the specification catches the exception. */
  predicate Undecidable(t: Table, i: int, thrown: Thrown)
    requires ActionOk(t, i)
  {
    var unknown := thrown.native && (thrown.pointer == 0 || thrown.kind == 0);
    if i > 0 then !t.hasTypes || (t.types[i - 1] != 0 && unknown)
    else i < 0 && (unknown || (thrown.native && !t.hasTypes))
  }

  /** The types that the specification lists. */
  function ListedTypes(t: Table, i: int): set<nat>
    requires i < 0 && t.hasTypes && ActionOk(t, i)
  {
    set j | j in SpecTypes(t.specs, -i - 1) && IsType(t, j) :: t.types[j - 1]
  }

  /** A handler for everything or for a type that catches the exception, or a specification that lists no such type. */
  predicate Fits(t: Table, i: int, thrown: Thrown)
    requires ActionOk(t, i) && !Undecidable(t, i, thrown)
  {
    if i > 0 then t.types[i - 1] == 0 || (thrown.native && t.types[i - 1] in thrown.catches)
    else i < 0 && (thrown.native ==> forall c | c in ListedTypes(t, i) :: c !in thrown.catches)
  }

  /** The pointer adjusted to the handler's type, if that is not a handler for everything. */
  function PointerFor(t: Table, i: int, thrown: Thrown): nat
    requires ActionOk(t, i) && !Undecidable(t, i, thrown) && Fits(t, i, thrown)
  {
    if i > 0 && t.types[i - 1] != 0 then thrown.catches[t.types[i - 1]] else thrown.pointer
  }

  predicate Stops(t: Table, i: int, thrown: Thrown)
    requires ActionOk(t, i)
  {
    Undecidable(t, i, thrown) || Fits(t, i, thrown)
  }

  predicate NoneStops(t: Table, chain: seq<Action>, thrown: Thrown, k: nat)
    requires ChainOk(t, chain) && k <= |chain|
  {
    forall j | 0 <= j < k :: !Stops(t, chain[j].ttypeIndex, thrown)
  }

  /** What an action means is what its type or its specification says. */
  lemma MeaningByTypes(t: Table, i: int, thrown: Thrown)
    requires ActionOk(t, i)
    ensures var m := MeaningOf(t, i, thrown);
      && (m.Corrupt? <==> Undecidable(t, i, thrown))
      && (m.Catches? <==> !Undecidable(t, i, thrown) && Fits(t, i, thrown))
      && (m.Catches? ==> m.adjustedPtr == PointerFor(t, i, thrown))
      && (m.Catches? ==> (m.always <==> !thrown.native || (i > 0 && t.types[i - 1] == 0)))
      && (m.Cleanup? <==> i == 0)
  {
    if i < 0 && t.hasTypes {
      assert SpecAllows(t, i, thrown) <==> exists c | c in ListedTypes(t, i) :: c in thrown.catches by {
        if c :| c in ListedTypes(t, i) && c in thrown.catches {
          var j :| j in SpecTypes(t.specs, -i - 1) && IsType(t, j) && t.types[j - 1] == c;
          assert TypeCatches(t, j, thrown);
        }
        if j :| j in SpecTypes(t.specs, -i - 1) && TypeCatches(t, j, thrown) {
          assert t.types[j - 1] in ListedTypes(t, i);
        }
      }
    }
  }

  /** The first handler or specification that stops the exception is found, with the pointer it gets; and nothing only if none does. */
  lemma SearchByTypes(t: Table, chain: seq<Action>, thrown: Thrown, pad: nat)
    requires ChainOk(t, chain)
    ensures var r := Follow(t, chain, thrown, SEARCH, pad);
      && (r == NOTHING <==> NoneStops(t, chain, thrown, |chain|))
      && forall k | 0 <= k < |chain| && NoneStops(t, chain, thrown, k) && Stops(t, chain[k].ttypeIndex, thrown) ::
           r == if Undecidable(t, chain[k].ttypeIndex, thrown) then Terminated
                else Scan(chain[k].ttypeIndex, Some(chain[k].at), pad, PointerFor(t, chain[k].ttypeIndex, thrown), HandlerFound)
  {
    hide SpecReadable, SpecTypes, Follow;
    SearchFindsFirst(t, chain, thrown, pad);
    forall k | 0 <= k < |chain| { MeaningByTypes(t, chain[k].ttypeIndex, thrown); }
  }

  /** What the search of a frame finds: the call site, its actions and the one that stops the exception. */
  lemma HandlerByTypes(frame: Option<Table>, offset: nat, thrown: Thrown, r: Scan)
    returns (i: int, chain: seq<Action>, k: nat)
    requires frame.Some? ==> WellFormed(frame.value)
    requires IsScan(frame, offset, thrown, SEARCH, r) && r.Scan? && r.code == HandlerFound
    ensures frame.Some? && IsSite(frame.value, offset, i)
    ensures var t, site := frame.value, frame.value.callSites[i];
      && site.landingPad != 0 && site.action > 0
      && Chain(t.actions, site.action - 1, chain) && ChainOk(t, chain) && k < |chain|
      && NoneStops(t, chain, thrown, k) && !Undecidable(t, chain[k].ttypeIndex, thrown)
      && Fits(t, chain[k].ttypeIndex, thrown)
      && r == Scan(chain[k].ttypeIndex, Some(chain[k].at), (t.base + site.landingPad) % WORD,
                   PointerFor(t, chain[k].ttypeIndex, thrown), HandlerFound)
  {
    hide Follow, Chain, ChainOk, Ordered, Undecidable, Fits, PointerFor, SpecReadable, SpecTypes;
    var t := frame.value;
    i :| IsSite(t, offset, i);
    var site := t.callSites[i];
    assert r == ScanSite(t, site, thrown, SEARCH);
    chain := ChainAt(t, site.action - 1);
    SearchByTypes(t, chain, thrown, LandingPad(t, site));
    k := FirstStop(t, chain, thrown);
  }

  lemma {:induction false} FirstStop(t: Table, chain: seq<Action>, thrown: Thrown) returns (k: nat)
    requires ChainOk(t, chain)
    ensures k <= |chain| && NoneStops(t, chain, thrown, k) && (k < |chain| ==> Stops(t, chain[k].ttypeIndex, thrown))
  {
    k := 0;
    while k < |chain| && !Stops(t, chain[k].ttypeIndex, thrown)
      invariant k <= |chain| && NoneStops(t, chain, thrown, k)
    {
      k := k + 1;
    }
  }

  /** A foreign exception: the handler frame's scan repeats the search. */
  lemma {:induction false} ForeignFollow(t: Table, chain: seq<Action>, thrown: Thrown, pad: nat)
    requires ChainOk(t, chain) && !thrown.native
    ensures Follow(t, chain, thrown, SEARCH, pad) == Follow(t, chain, thrown, HANDLER, pad)
  {
    if chain != [] { ForeignFollow(t, chain[1..], thrown, pad); }
  }

  lemma ForeignAgrees(frame: Option<Table>, offset: nat, thrown: Thrown, r: Scan, r': Scan)
    requires frame.Some? ==> WellFormed(frame.value)
    requires !thrown.native
    requires IsScan(frame, offset, thrown, SEARCH, r) && IsScan(frame, offset, thrown, HANDLER, r')
    ensures r == r'
  {
    if frame.Some? && exists i :: IsSite(frame.value, offset, i) {
      var t := frame.value;
      var i :| IsSite(t, offset, i);
      var site := t.callSites[i];
      assert r == ScanSite(t, site, thrown, SEARCH) && r' == ScanSite(t, site, thrown, HANDLER);
      if site.action > 0 { ForeignFollow(t, ChainAt(t, site.action - 1), thrown, LandingPad(t, site)); }
    }
  }

  // ----- the cleanup scan

  /** The first cleanup of a chain, the length of the chain if there is none. */
  function FirstCleanup(chain: seq<Action>): (k: nat)
    ensures k <= |chain| && (k < |chain| ==> chain[k].ttypeIndex == 0)
    ensures forall j | 0 <= j < k :: chain[j].ttypeIndex != 0
  {
    if chain == [] || chain[0].ttypeIndex == 0 then 0 else 1 + FirstCleanup(chain[1..])
  }

  function CleanupOf(chain: seq<Action>, thrown: Thrown, pad: nat): Scan {
    var k := FirstCleanup(chain);
    if k == |chain| then NOTHING else Scan(0, Some(chain[k].at), pad, thrown.pointer, HandlerFound)
  }

  predicate HaltsBefore(t: Table, chain: seq<Action>, thrown: Thrown, k: nat)
    requires ChainOk(t, chain) && k <= |chain|
  {
    exists j | 0 <= j < k :: Halts(MeaningOf(t, chain[j].ttypeIndex, thrown))
  }

  /** The cleanup scan runs the first cleanup, unless an action before it catches the exception. */
  lemma {:induction false} CleanupFollow(t: Table, chain: seq<Action>, thrown: Thrown, pad: nat)
    requires ChainOk(t, chain)
    ensures Follow(t, chain, thrown, CLEANUP, pad)
         == if HaltsBefore(t, chain, thrown, FirstCleanup(chain)) then Terminated else CleanupOf(chain, thrown, pad)
  {
    if chain != [] {
      var m := MeaningOf(t, chain[0].ttypeIndex, thrown);
      var rest := chain[1..];
      assert forall j | 0 <= j < |rest| :: rest[j] == chain[j + 1];
      CleanupFollow(t, rest, thrown, pad);
      if m.Passes? {
        assert HaltsBefore(t, chain, thrown, FirstCleanup(chain)) <==> HaltsBefore(t, rest, thrown, FirstCleanup(rest));
      }
    }
  }

  predicate CorruptBefore(t: Table, chain: seq<Action>, thrown: Thrown, k: nat)
    requires ChainOk(t, chain) && k <= |chain|
  {
    exists j | 0 <= j < k :: MeaningOf(t, chain[j].ttypeIndex, thrown).Corrupt?
  }

  /** Forced unwinding runs the first cleanup whatever is caught on the way; only a corrupt table stops it. */
  lemma {:induction false} ForcedFollow(t: Table, chain: seq<Action>, thrown: Thrown, pad: nat)
    requires ChainOk(t, chain)
    ensures Follow(t, chain, thrown, FORCED, pad)
         == if CorruptBefore(t, chain, thrown, FirstCleanup(chain)) then Terminated else CleanupOf(chain, thrown, pad)
  {
    if chain != [] {
      var rest := chain[1..];
      assert forall j | 0 <= j < |rest| :: rest[j] == chain[j + 1];
      ForcedFollow(t, rest, thrown, pad);
      if chain[0].ttypeIndex != 0 && !MeaningOf(t, chain[0].ttypeIndex, thrown).Corrupt? {
        assert CorruptBefore(t, chain, thrown, FirstCleanup(chain))
          <==> CorruptBefore(t, rest, thrown, FirstCleanup(rest));
      }
    }
  }

  /** The cleanup that a call site has, whatever is thrown. */
  ghost function SiteCleanup(t: Table, site: CallSite, thrown: Thrown): Scan
    requires site.action > 0 ==> HasChain(t, site.action - 1)
  {
    if site.landingPad == 0 then NOTHING
    else if site.action == 0 then Scan(0, None, LandingPad(t, site), 0, HandlerFound)
    else CleanupOf(ChainAt(t, site.action - 1), thrown, LandingPad(t, site))
  }

  /** A frame that the search passed by: the cleanup scan of it does not terminate and runs its cleanup. */
  lemma CleanupAfterSearch(frame: Option<Table>, offset: nat, thrown: Thrown, r: Scan, r': Scan)
    requires frame.Some? ==> WellFormed(frame.value)
    requires IsScan(frame, offset, thrown, SEARCH, r) && r == NOTHING
    requires IsScan(frame, offset, thrown, CLEANUP, r')
    ensures r' != Terminated
    ensures frame.None? ==> r' == NOTHING
    ensures frame.Some? ==> exists i :: IsSite(frame.value, offset, i)
    ensures frame.Some? ==> forall i | IsSite(frame.value, offset, i) ::
                              r' == SiteCleanup(frame.value, frame.value.callSites[i], thrown)
  {
    hide Follow, Chain, SpecReadable, SpecTypes, Ordered;
    if frame.Some? {
      var t := frame.value;
      forall i | IsSite(t, offset, i) ensures r' == SiteCleanup(t, t.callSites[i], thrown) != Terminated {
        var site := t.callSites[i];
        assert r == ScanSite(t, site, thrown, SEARCH) && r' == ScanSite(t, site, thrown, CLEANUP);
        if site.landingPad != 0 && site.action > 0 {
          var chain := ChainAt(t, site.action - 1);
          SearchFindsFirst(t, chain, thrown, LandingPad(t, site));
          CleanupFollow(t, chain, thrown, LandingPad(t, site));
        }
      }
    }
  }
}
