/** The scan of the exception table and the personality routine's two phases. */
module Personality {
  import opened UnicodeForms
  import opened Leb128
  import opened ExceptionTable
  import opened Wrappers

  /** Whether an exception specification stops the exception: no type it lists catches it. */
  method ExceptionSpecCanCatch(t: Table, specIndex: int, thrown: Thrown) returns (caught: bool)
    requires specIndex < 0 && t.hasTypes && ActionOk(t, specIndex)
    ensures caught == !SpecAllows(t, specIndex, thrown)
  {
    var p: nat := -specIndex - 1;
    while true
      invariant SpecReadable(t.specs, p)
      invariant SpecAllows(t, specIndex, thrown)
        <==> exists j | j in SpecTypes(t.specs, p) :: TypeCatches(t, j, thrown)
      invariant forall j | j in SpecTypes(t.specs, p) :: IsType(t, j) && t.types[j - 1] != 0
      decreases |t.specs| - p
    {
      var i, q := ReadULEB128(t.specs, p);
      if i == 0 { return true; }
      assert SpecTypes(t.specs, p) == [i] + SpecTypes(t.specs, q);
      assert i in SpecTypes(t.specs, p);
      if t.types[i - 1] in thrown.catches {
        assert TypeCatches(t, i, thrown);
        return false;
      }
      assert forall j | j in SpecTypes(t.specs, p) :: j == i || j in SpecTypes(t.specs, q);
      p := q;
    }
  }

  /** What an action means, found out as the scan does. */
  method Examine(t: Table, ttypeIndex: int, thrown: Thrown) returns (m: Meaning)
    requires ActionOk(t, ttypeIndex)
    ensures m == MeaningOf(t, ttypeIndex, thrown)
  {
    if ttypeIndex > 0 {
      if !t.hasTypes { return Corrupt; }
      var catchType := t.types[ttypeIndex - 1];
      if catchType == 0 { return Catches(thrown.pointer, true); }
      if thrown.native {
        if thrown.pointer == 0 || thrown.kind == 0 { return Corrupt; }
        if catchType in thrown.catches { return Catches(thrown.catches[catchType], false); }
      }
      return Passes;
    } else if ttypeIndex < 0 {
      if thrown.native {
        if thrown.pointer == 0 || thrown.kind == 0 || !t.hasTypes { return Corrupt; }
        var caught := ExceptionSpecCanCatch(t, ttypeIndex, thrown);
        return if caught then Catches(thrown.pointer, false) else Passes;
      }
      return Catches(thrown.pointer, true);
    } else {
      return Cleanup;
    }
  }

  /** The loop over the actions of a call site. */
  method ScanActions(t: Table, first: nat, thrown: Thrown, a: Actions, pad: nat, ghost chain: seq<Action>)
    returns (r: Scan)
    requires Chain(t.actions, first, chain) && ChainOk(t, chain)
    ensures r == Follow(t, chain, thrown, a, pad)
  {
    var action := first;
    ghost var rest := chain;
    while true
      invariant Chain(t.actions, action, rest) && ChainOk(t, rest)
      invariant Follow(t, rest, thrown, a, pad) == Follow(t, chain, thrown, a, pad)
      decreases |rest|
    {
      var ttypeIndex, q := ReadSLEB128(t.actions, action);
      assert rest[0] == ExceptionTable.Action(action, ttypeIndex);
      assert rest == [rest[0]] + rest[1..];
      var m := Examine(t, ttypeIndex, thrown);
      match m {
        case Catches(adjustedPtr, always) =>
          if a.search || (always && a.handlerFrame) {
            return Scan(ttypeIndex, Some(action), pad, adjustedPtr, HandlerFound);
          } else if !a.forceUnwind {
            return Terminated;
          }
        case Cleanup =>
          if a.cleanup && !a.handlerFrame {
            return Scan(ttypeIndex, Some(action), pad, thrown.pointer, HandlerFound);
          }
        case Passes =>
        case Corrupt => return Terminated;
      }
      var actionOffset, _ := ReadSLEB128(t.actions, q);
      if actionOffset == 0 { return NOTHING; }
      action, rest := q + actionOffset, rest[1..];
    }
  }

  method ScanEhTab(frame: Option<Table>, offset: nat, thrown: Thrown, a: Actions) returns (r: Scan)
    requires frame.Some? ==> WellFormed(frame.value)
    ensures IsScan(frame, offset, thrown, a, r)
  {
    if a.search {
      if a.cleanup || a.handlerFrame || a.forceUnwind { return NOTHING.(code := FatalPhase1Error); }
    } else if a.cleanup {
      if a.handlerFrame && a.forceUnwind { return NOTHING.(code := FatalPhase2Error); }
    } else {
      return NOTHING.(code := FatalPhase1Error);
    }
    if frame.None? { return NOTHING; }
    var t := frame.value;
    var k := 0;
    while k < |t.callSites|
      invariant k <= |t.callSites|
      invariant forall i | 0 <= i < k :: !t.callSites[i].Contains(offset)
    {
      var site := t.callSites[k];
      if site.start <= offset < site.start + site.length {
        assert IsSite(t, offset, k);
        assert forall i | IsSite(t, offset, i) :: i == k;
        if site.landingPad == 0 { return NOTHING; }
        var landingPad := LandingPad(t, site);
        if site.action == 0 {
          if a.cleanup && !a.handlerFrame { return Scan(0, None, landingPad, 0, HandlerFound); }
          return NOTHING;
        }
        ghost var chain := ChainAt(t, site.action - 1);
        r := ScanActions(t, site.action - 1, thrown, a, landingPad, chain);
        return;
      } else if offset < site.start {
        assert forall i | k <= i < |t.callSites| :: !t.callSites[i].Contains(offset);
        return Terminated;
      }
      k := k + 1;
    }
    return Terminated;
  }

  // ----- the personality routine

  /** What phase 1 leaves in the header of a native exception for phase 2. */
  datatype Cache = Cache(switchValue: int, record: Option<nat>, landingPad: nat, adjustedPtr: nat)

  datatype Reply = Reply(code: Code) | Install(switchValue: int, landingPad: nat) | Terminate

  /** The value of a C++ int that a wider number is stored in. */
  function ToInt32(n: int): int {
    (n + 0x8000_0000) % 0x1_0000_0000 - 0x8000_0000
  }

  /** The reply and the header's new contents, from what the scan of the frame says. */
  function Answer(thrown: Thrown, a: Actions, r: Scan, cache: Cache): (Reply, Cache) {
    if a.search then
      if r.Terminated? then (Terminate, cache)
      else if r.code == HandlerFound && thrown.native then
        (Reply(HandlerFound), Cache(ToInt32(r.ttypeIndex), r.record, r.landingPad, r.adjustedPtr))
      else (Reply(r.code), cache)
    else if !a.cleanup then (Reply(FatalPhase1Error), cache)
    else if a.handlerFrame && thrown.native then (Install(cache.switchValue, cache.landingPad), cache)
    else if r.Terminated? || (a.handlerFrame && r.code != HandlerFound) then (Terminate, cache)
    else if r.code == HandlerFound then (Install(r.ttypeIndex, r.landingPad), cache)
    else (Reply(r.code), cache)
  }

  class ExceptionHeader {
    var handlerSwitchValue: int
    var actionRecord: Option<nat>
    var catchTemp: nat
    var adjustedPtr: nat

    function Contents(): Cache
      reads this
    {
      Cache(handlerSwitchValue, actionRecord, catchTemp, adjustedPtr)
    }

    /** `present`: there are an exception and a context. */
    method GxxPersonality(version: int, present: bool, a: Actions, frame: Option<Table>, offset: nat, thrown: Thrown)
      returns (reply: Reply)
      requires frame.Some? ==> WellFormed(frame.value)
      modifies this
      ensures version != 1 || !present ==> reply == Reply(FatalPhase1Error) && Contents() == old(Contents())
      ensures version == 1 && present ==>
        exists r :: IsScan(frame, offset, thrown, a, r)
                 && (reply, Contents()) == Answer(thrown, a, r, old(Contents()))
    {
      if version != 1 || !present { return Reply(FatalPhase1Error); }
      ghost var r;
      if a.search {
        var results := ScanEhTab(frame, offset, thrown, a);
        r := results;
        if results.Terminated? {
          reply := Terminate;
        } else if results.code == HandlerFound {
          if thrown.native {
            handlerSwitchValue := ToInt32(results.ttypeIndex);
            actionRecord := results.record;
            catchTemp := results.landingPad;
            adjustedPtr := results.adjustedPtr;
          }
          reply := Reply(HandlerFound);
        } else {
          reply := Reply(results.code);
        }
      } else if a.cleanup {
        if a.handlerFrame && thrown.native {
          reply := Install(handlerSwitchValue, catchTemp);
          r := AnyScan(frame, offset, thrown, a);
        } else {
          var results := ScanEhTab(frame, offset, thrown, a);
          r := results;
          if results.Terminated? || (a.handlerFrame && results.code != HandlerFound) {
            reply := Terminate;
          } else if results.code == HandlerFound {
            reply := Install(results.ttypeIndex, results.landingPad);
          } else {
            reply := Reply(results.code);
          }
        }
      } else {
        reply := Reply(FatalPhase1Error);
        r := AnyScan(frame, offset, thrown, a);
      }
      assert IsScan(frame, offset, thrown, a, r);
    }
  }

  /** A scan has a result whether or not it is carried out. */
  lemma AnyScan(frame: Option<Table>, offset: nat, thrown: Thrown, a: Actions) returns (r: Scan)
    requires frame.Some? ==> WellFormed(frame.value)
    ensures IsScan(frame, offset, thrown, a, r)
  {
    if !Consistent(a) {
      r := Refused(a);
    } else if frame.None? {
      r := NOTHING;
    } else if i :| IsSite(frame.value, offset, i) {
      r := ScanSite(frame.value, frame.value.callSites[i], thrown, a);
    } else {
      r := Terminated;
    }
  }

  // ----- the two phases of a frame

  lemma Int32Keeps(n: int)
    ensures ToInt32(n) == n <==> -0x8000_0000 <= n < 0x8000_0000
  {
  }

  /**
   * Phase 1 found a handler: phase 2 transfers control to the landing pad that the search found, with the
   * search's adjusted pointer in the header of a native exception. The switch value is the search's exactly
   * if the exception is foreign or the value fits an int.
   */
  lemma TwoPhases(frame: Option<Table>, offset: nat, thrown: Thrown, cache: Cache, r: Scan, r': Scan)
    requires frame.Some? ==> WellFormed(frame.value)
    requires IsScan(frame, offset, thrown, SEARCH, r) && IsScan(frame, offset, thrown, HANDLER, r')
    ensures var (reply, cached) := Answer(thrown, SEARCH, r, cache);
            var (reply', _) := Answer(thrown, HANDLER, r', cached);
            reply == Reply(HandlerFound) ==>
              && reply'.Install? && reply'.landingPad == r.landingPad
              && (thrown.native ==> cached.adjustedPtr == r.adjustedPtr)
              && (reply'.switchValue == r.ttypeIndex
                  <==> !thrown.native || -0x8000_0000 <= r.ttypeIndex < 0x8000_0000)
  {
    if !r.Terminated? { Int32Keeps(r.ttypeIndex); }
    if !thrown.native { ForeignAgrees(frame, offset, thrown, r, r'); }
  }

  /** What the search finds for a native exception is an index into the types, or into the bytes of the specifications. */
  lemma {:induction false} FoundIsInTable(t: Table, chain: seq<Action>, thrown: Thrown, pad: nat)
    requires ChainOk(t, chain) && thrown.native
    ensures var r := Follow(t, chain, thrown, SEARCH, pad);
      r.Scan? ==> -|t.specs| <= r.ttypeIndex <= |t.types|
  {
    if chain != [] { FoundIsInTable(t, chain[1..], thrown, pad); }
  }

  /** So the switch value is kept in every frame whose table has less than 2^31 types and bytes of specifications. */
  lemma SwitchValueIsKept(frame: Option<Table>, offset: nat, thrown: Thrown, r: Scan)
    requires frame.Some? ==> WellFormed(frame.value)
    requires frame.Some? ==> |frame.value.types| < 0x8000_0000 && |frame.value.specs| <= 0x8000_0000
    requires IsScan(frame, offset, thrown, SEARCH, r) && r.Scan? && thrown.native
    ensures ToInt32(r.ttypeIndex) == r.ttypeIndex
  {
    if frame.Some? {
      var t := frame.value;
      var i :| IsSite(t, offset, i);
      var site := t.callSites[i];
      assert r == ScanSite(t, site, thrown, SEARCH);
      if site.landingPad != 0 && site.action > 0 {
        FoundIsInTable(t, ChainAt(t, site.action - 1), thrown, LandingPad(t, site));
      }
    }
    Int32Keeps(r.ttypeIndex);
  }

  /** A table with one type more, all of them catch (...), whose handler for the last type gets another switch value. */
  lemma HugeTableLosesSwitchValue(thrown: Thrown) returns (t: Table)
    requires thrown.native
    ensures |t.types| == 0x8000_0000 && WellFormed(t)
    ensures forall r | IsScan(Some(t), 0, thrown, SEARCH, r) ::
              r.Scan? && r.code == HandlerFound && r.ttypeIndex == 0x8000_0000 && ToInt32(r.ttypeIndex) == -0x8000_0000
  {
    var first, last := EncodeSigned(0x8000_0000), EncodeSigned(0);
    t := Table(1, [CallSite(0, 1, 1, 1)], first + last, true, seq(0x8000_0000, _ => 0), []);
    SignedRoundTrip([], 0x8000_0000, last);
    SignedRoundTrip(first, 0, []);
    assert [] + first + last == t.actions == first + last + [];
    var chain := [ExceptionTable.Action(0, 0x8000_0000)];
    assert Chain(t.actions, 0, chain) && ChainOk(t, chain);
    assert HasChain(t, 0);
    ChainIsUnique(t.actions, 0, chain, ChainAt(t, 0));
    assert t.types[0x7FFF_FFFF] == 0;
    assert MeaningOf(t, 0x8000_0000, thrown) == Catches(thrown.pointer, true);
    forall r | IsScan(Some(t), 0, thrown, SEARCH, r)
      ensures r == ScanSite(t, t.callSites[0], thrown, SEARCH)
    {
      assert IsSite(t, 0, 0);
    }
  }

  /** Phase 1 passed the frame by: phase 2 runs its cleanup, if there is one, and never terminates. */
  lemma PassedByThenCleanedUp(frame: Option<Table>, offset: nat, thrown: Thrown, cache: Cache, r: Scan, r': Scan)
    requires frame.Some? ==> WellFormed(frame.value)
    requires IsScan(frame, offset, thrown, SEARCH, r) && IsScan(frame, offset, thrown, CLEANUP, r')
    requires Answer(thrown, SEARCH, r, cache).0 == Reply(ContinueUnwind)
    ensures var (reply, _) := Answer(thrown, CLEANUP, r', cache);
            && (frame.None? ==> reply == Reply(ContinueUnwind))
            && (frame.Some? ==>
                  && (exists i :: IsSite(frame.value, offset, i))
                  && forall i | IsSite(frame.value, offset, i) ::
                       var c := SiteCleanup(frame.value, frame.value.callSites[i], thrown);
                       reply == if c == NOTHING then Reply(ContinueUnwind) else Install(0, c.landingPad))
  {
    ContinueIsNothing(frame, offset, thrown, SEARCH, r);
    CleanupAfterSearch(frame, offset, thrown, r, r');
  }

  /** Phase 1 leaves the header alone unless it finds a handler, and the program terminates if the scan finds the table corrupt. */
  lemma PhaseOneFails(frame: Option<Table>, offset: nat, thrown: Thrown, cache: Cache, r: Scan)
    requires frame.Some? ==> WellFormed(frame.value)
    requires IsScan(frame, offset, thrown, SEARCH, r)
    ensures var (reply, cached) := Answer(thrown, SEARCH, r, cache);
            && (reply == Terminate <==> r == Terminated)
            && (reply == Reply(ContinueUnwind) <==> r == NOTHING)
            && (reply == Reply(HandlerFound) || reply == Reply(ContinueUnwind) || reply == Terminate)
            && (reply != Reply(HandlerFound) || !thrown.native ==> cached == cache)
  {
    CodeOfScan(frame, offset, thrown, SEARCH, r);
  }

  /** Forced unwinding passes every handler by: a frame runs its cleanup, and only a corrupt table terminates. */
  lemma ForcedUnwinding(frame: Option<Table>, offset: nat, thrown: Thrown, cache: Cache, r: Scan)
    requires frame.Some? ==> WellFormed(frame.value)
    requires IsScan(frame, offset, thrown, FORCED, r)
    ensures var (reply, cached) := Answer(thrown, FORCED, r, cache);
            && cached == cache
            && (frame.None? ==> reply == Reply(ContinueUnwind))
            && (frame.Some? && !(exists i :: IsSite(frame.value, offset, i)) ==> reply == Terminate)
            && (frame.Some? ==> forall i | IsSite(frame.value, offset, i) ::
                  var t, site := frame.value, frame.value.callSites[i];
                  var c := SiteCleanup(t, site, thrown);
                  reply == if site.landingPad != 0 && site.action > 0 && CorruptBefore(t, ChainAt(t, site.action - 1), thrown,
                                FirstCleanup(ChainAt(t, site.action - 1))) then Terminate
                           else if c == NOTHING then Reply(ContinueUnwind)
                           else Install(0, (t.base + site.landingPad) % WORD))
  {
    hide Follow, CorruptBefore, FirstCleanup, Ordered;
    if frame.Some? {
      var t := frame.value;
      forall i | IsSite(t, offset, i) ensures r == ScanSite(t, t.callSites[i], thrown, FORCED) {}
      forall i | IsSite(t, offset, i) && t.callSites[i].action > 0 {
        ForcedFollow(t, ChainAt(t, t.callSites[i].action - 1), thrown, LandingPad(t, t.callSites[i]));
      }
    }
  }

  /**
   * The flags of no phase: a fatal error, which is always one of phase 1. Forced unwinding at a handler frame goes to the
   * cached landing pad of a native exception and terminates for a foreign one.
   */
  lemma ImproperCalls(frame: Option<Table>, offset: nat, thrown: Thrown, a: Actions, cache: Cache, r: Scan)
    requires frame.Some? ==> WellFormed(frame.value)
    requires IsScan(frame, offset, thrown, a, r)
    ensures Answer(thrown, a, r, cache).1 == cache || (a == SEARCH && r.Scan? && r.code == HandlerFound && thrown.native)
    ensures (a.search && a != SEARCH) || (!a.search && !a.cleanup) ==> Answer(thrown, a, r, cache).0 == Reply(FatalPhase1Error)
    ensures !a.search && a.cleanup && a.handlerFrame && a.forceUnwind ==>
      Answer(thrown, a, r, cache).0 == if thrown.native then Install(cache.switchValue, cache.landingPad) else Terminate
  {
    ImproperFlags(frame, offset, thrown, a, r);
  }

  /** A scan with consistent flags has only these results. */
  lemma CodeOfScan(frame: Option<Table>, offset: nat, thrown: Thrown, a: Actions, r: Scan)
    requires frame.Some? ==> WellFormed(frame.value)
    requires IsScan(frame, offset, thrown, a, r) && Consistent(a)
    ensures r == Terminated || r == NOTHING || r.code == HandlerFound
  {
    if frame.Some? && r != Terminated {
      var t := frame.value;
      var i :| IsSite(t, offset, i);
      var site := t.callSites[i];
      assert r == ScanSite(t, site, thrown, a);
      if site.action > 0 { FollowCode(t, ChainAt(t, site.action - 1), thrown, a, LandingPad(t, site)); }
    }
  }

  lemma ContinueIsNothing(frame: Option<Table>, offset: nat, thrown: Thrown, a: Actions, r: Scan)
    requires frame.Some? ==> WellFormed(frame.value)
    requires IsScan(frame, offset, thrown, a, r) && r.Scan? && r.code == ContinueUnwind
    ensures r == NOTHING
  {
    if Consistent(a) { CodeOfScan(frame, offset, thrown, a, r); }
  }
}
