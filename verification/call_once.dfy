/**
 * std::call_once: any number of calls on any number of flags, which share one
 * mutex and one condition variable, in every interleaving of their steps.
 */
module CallOnce {

  // ----- the state

  const UNSET := 0
  const RUNNING := 1
  const DONE := 0xFFFF_FFFF_FFFF_FFFF

  /** Where a call is: before the named step. Fails tells whether the function threw. */
  datatype Pc =
    | Lock | Test | Asleep | StoreRunning | UnlockToRun | Running | UnlockDone
    | LockAgain(fails: bool) | StoreResult(fails: bool) | UnlockResult(fails: bool) | Broadcast(fails: bool)
    | Returned | Thrown

  /** A call on a flag. Calls that a thread nests are calls that overlap, like those of different threads. */
  datatype Call = Call(flag: nat, pc: Pc)

  /** A flag's value, and how often its function has completed normally. */
  datatype Flag = Flag(value: int, completed: nat)

  /** Call number owner holds the mutex, or none does if that is negative. */
  datatype State = State(flags: seq<Flag>, owner: int, calls: seq<Call>)

  // ----- the steps

  /** What a step of call i does to its flag, to the owner of the mutex and to itself. */
  function Effect(f: Flag, owner: int, i: nat, call: Call, throws: bool): (Flag, int, Call) {
    match call.pc
    case Lock => if owner < 0 then (f, i, call.(pc := Test)) else (f, owner, call)
    case Test =>
      if f.value == RUNNING then (f, -1, call.(pc := Asleep))
      else (f, owner, call.(pc := if f.value == UNSET then StoreRunning else UnlockDone))
    case Asleep => (f, owner, call.(pc := Lock))
    case StoreRunning => (f.(value := RUNNING), owner, call.(pc := UnlockToRun))
    case UnlockToRun => (f, -1, call.(pc := Running))
    case Running =>
      (if throws then f else f.(completed := f.completed + 1), owner, call.(pc := LockAgain(throws)))
    case LockAgain(fails) => if owner < 0 then (f, i, call.(pc := StoreResult(fails))) else (f, owner, call)
    case StoreResult(fails) => (f.(value := if fails then UNSET else DONE), owner, call.(pc := UnlockResult(fails)))
    case UnlockResult(fails) => (f, -1, call.(pc := Broadcast(fails)))
    case Broadcast(fails) => (f, owner, call.(pc := if fails then Thrown else Returned))
    case UnlockDone => (f, -1, call.(pc := Returned))
    case Returned => (f, owner, call)
    case Thrown => (f, owner, call)
  }

  function Woken(call: Call): Call {
    if call.pc == Asleep then call.(pc := Lock) else call
  }

  /** The condition variable is shared: a broadcast wakes the sleepers of every flag. */
  function WakeAll(calls: seq<Call>): seq<Call> {
    seq(|calls|, i requires 0 <= i < |calls| => Woken(calls[i]))
  }

  predicate WellFormed(s: State) {
    forall i | 0 <= i < |s.calls| :: s.calls[i].flag < |s.flags|
  }

  function Turn(s: State, i: nat, throws: bool): State
    requires WellFormed(s) && i < |s.calls|
  {
    var call := s.calls[i];
    var (f, owner, next) := Effect(s.flags[call.flag], s.owner, i, call, throws);
    State(s.flags[call.flag := f], owner, (if call.pc.Broadcast? then WakeAll(s.calls) else s.calls)[i := next])
  }

  predicate Initial(s: State) {
    && WellFormed(s) && s.owner == -1
    && (forall f | 0 <= f < |s.flags| :: s.flags[f] == Flag(UNSET, 0))
    && forall i | 0 <= i < |s.calls| :: s.calls[i].pc == Lock
  }

  ghost predicate Next(s: State, r: State) {
    WellFormed(s) && exists i: nat, throws :: i < |s.calls| && r == Turn(s, i, throws)
  }

  ghost predicate IsRun(run: seq<State>) {
    run != [] && Initial(run[0]) && forall i | 0 < i < |run| :: Next(run[i - 1], run[i])
  }

  // ----- the invariant

  /** The steps between claiming the flag and storing the result. */
  predicate IsActive(pc: Pc) {
    pc == UnlockToRun || pc == Running || pc.LockAgain? || pc.StoreResult?
  }

  predicate HoldsMutex(pc: Pc) {
    pc in {Test, StoreRunning, UnlockToRun, UnlockDone} || pc.StoreResult? || pc.UnlockResult?
  }

  /** The call has stored its result and not woken the sleepers yet. */
  predicate OwesBroadcast(pc: Pc) {
    pc.UnlockResult? || pc.Broadcast?
  }

  predicate FlagInv(f: Flag) {
    && f.value in {UNSET, RUNNING, DONE}
    && (f.value == UNSET ==> f.completed == 0)
    && (f.value == DONE ==> f.completed == 1)
  }

  predicate CallInv(f: Flag, owner: int, i: nat, pc: Pc) {
    && (HoldsMutex(pc) <==> owner == i)
    && (IsActive(pc) ==> f.value == RUNNING && f.completed == if NormalResult(pc) then 1 else 0)
    && (pc == StoreRunning ==> f.value == UNSET)
    && (pc in {UnlockDone, Returned, UnlockResult(false), Broadcast(false)} ==> f.value == DONE)
  }

  predicate NormalResult(pc: Pc) {
    pc == LockAgain(false) || pc == StoreResult(false)
  }

  predicate EachInv(s: State)
    requires WellFormed(s)
  {
    && -1 <= s.owner < |s.calls|
    && (forall f | 0 <= f < |s.flags| :: FlagInv(s.flags[f]))
    && forall i | 0 <= i < |s.calls| :: CallInv(s.flags[s.calls[i].flag], s.owner, i, s.calls[i].pc)
  }

  predicate ActiveOn(s: State, i: nat, f: nat)
    requires i < |s.calls|
  {
    s.calls[i].flag == f && IsActive(s.calls[i].pc)
  }

  predicate AtMostOneActive(s: State) {
    forall i: nat, j: nat | i < j < |s.calls| && ActiveOn(s, i, s.calls[i].flag) :: !ActiveOn(s, j, s.calls[i].flag)
  }

  predicate SomeActive(s: State, f: nat) {
    exists i: nat :: i < |s.calls| && ActiveOn(s, i, f)
  }

  predicate SomeAsleep(s: State, f: nat) {
    exists i: nat :: i < |s.calls| && s.calls[i] == Call(f, Asleep)
  }

  predicate BroadcastOwed(s: State, f: nat) {
    exists i: nat :: i < |s.calls| && s.calls[i].flag == f && OwesBroadcast(s.calls[i].pc)
  }

  predicate NoLostWakeUp(s: State, f: nat)
    requires f < |s.flags|
  {
    SomeAsleep(s, f) ==> s.flags[f].value == RUNNING || BroadcastOwed(s, f)
  }

  predicate Inv(s: State) {
    && WellFormed(s) && EachInv(s) && AtMostOneActive(s)
    && forall f: nat | f < |s.flags| :: (s.flags[f].value == RUNNING <==> SomeActive(s, f)) && NoLostWakeUp(s, f)
  }

  // ----- every step keeps it

  lemma StepKeepsInv(f: Flag, owner: int, i: nat, call: Call, throws: bool)
    requires FlagInv(f) && CallInv(f, owner, i, call.pc)
    ensures var (g, o, next) := Effect(f, owner, i, call, throws);
      && next.flag == call.flag && FlagInv(g) && CallInv(g, o, i, next.pc) && (o == owner || o == i || (o == -1 && owner == i))
      && (if IsActive(call.pc) || IsActive(next.pc) then g.value == RUNNING <==> IsActive(next.pc) else g == f)
      && (next.pc == Asleep ==> g.value == RUNNING)
      && (f.value == RUNNING && g.value != RUNNING ==> OwesBroadcast(next.pc))
      && (OwesBroadcast(call.pc) && !OwesBroadcast(next.pc) ==> call.pc.Broadcast?)
  {
  }

  /** Another call on the same flag; the mutex keeps it from being in the middle of something. */
  lemma OtherKeepsInv(f: Flag, owner: int, i: nat, call: Call, throws: bool, j: nat, other: Pc)
    requires FlagInv(f) && CallInv(f, owner, i, call.pc) && i != j
    requires CallInv(f, owner, j, other) && !(IsActive(call.pc) && IsActive(other))
    ensures var (h, o, next) := Effect(f, owner, i, call, throws);
      CallInv(h, o, j, other) && !(IsActive(next.pc) && IsActive(other))
  {
  }

  lemma StrangerKeepsInv(f: Flag, owner: int, i: nat, call: Call, throws: bool, j: nat, other: Pc, g: Flag)
    requires FlagInv(f) && CallInv(f, owner, i, call.pc) && i != j && CallInv(g, owner, j, other)
    ensures CallInv(g, Effect(f, owner, i, call, throws).1, j, other)
  {
  }

  lemma WokenKeepsInv(f: Flag, owner: int, i: nat, call: Call)
    requires CallInv(f, owner, i, call.pc)
    ensures CallInv(f, owner, i, Woken(call).pc) && IsActive(Woken(call).pc) == IsActive(call.pc)
    ensures Woken(call).flag == call.flag && OwesBroadcast(Woken(call).pc) == OwesBroadcast(call.pc)
  {
  }

  lemma EachKeepsInv(s: State, i: nat, throws: bool)
    requires Inv(s) && i < |s.calls|
    ensures WellFormed(Turn(s, i, throws)) && EachInv(Turn(s, i, throws)) && AtMostOneActive(Turn(s, i, throws))
  {
    var call, r := s.calls[i], Turn(s, i, throws);
    var f := s.flags[call.flag];
    StepKeepsInv(f, s.owner, i, call, throws);
    forall j: nat | j < |s.calls| && j != i
      ensures r.calls[j].flag == s.calls[j].flag && CallInv(r.flags[r.calls[j].flag], r.owner, j, r.calls[j].pc)
      ensures IsActive(r.calls[j].pc) == IsActive(s.calls[j].pc)
      ensures r.calls[j].flag == call.flag ==> !(IsActive(r.calls[i].pc) && IsActive(r.calls[j].pc))
    {
      var other := s.calls[j];
      if other.flag == call.flag {
        assert !(ActiveOn(s, i, call.flag) && ActiveOn(s, j, call.flag));
        OtherKeepsInv(f, s.owner, i, call, throws, j, other.pc);
      } else {
        StrangerKeepsInv(f, s.owner, i, call, throws, j, other.pc, s.flags[other.flag]);
      }
      WokenKeepsInv(r.flags[other.flag], r.owner, j, other);
    }
    forall a: nat, b: nat | a < b < |s.calls| && ActiveOn(r, a, r.calls[a].flag) ensures !ActiveOn(r, b, r.calls[a].flag) {
      if a != i && b != i { assert ActiveOn(s, a, s.calls[a].flag) && !ActiveOn(s, b, s.calls[a].flag); }
    }
  }

  /** What the other calls are about does not change; a broadcast leaves none of them asleep. */
  lemma OthersStay(s: State, i: nat, throws: bool, j: nat)
    requires Inv(s) && i < |s.calls| && j < |s.calls| && i != j
    ensures var r := Turn(s, i, throws);
      && |r.calls| == |s.calls| && r.calls[j].flag == s.calls[j].flag
      && IsActive(r.calls[j].pc) == IsActive(s.calls[j].pc) && OwesBroadcast(r.calls[j].pc) == OwesBroadcast(s.calls[j].pc)
      && (r.calls[j].pc == Asleep ==> s.calls[j].pc == Asleep && !s.calls[i].pc.Broadcast?)
  {
  }

  lemma ActiveKeepsInv(s: State, i: nat, throws: bool, f: nat)
    requires Inv(s) && i < |s.calls| && f < |s.flags|
    ensures var r := Turn(s, i, throws); r.flags[f].value == RUNNING <==> SomeActive(r, f)
  {
    var call, r := s.calls[i], Turn(s, i, throws);
    StepKeepsInv(s.flags[call.flag], s.owner, i, call, throws);
    forall j: nat | j < |s.calls| && j != i { OthersStay(s, i, throws, j); }
    forall j: nat | j < |s.calls| && j != i ensures ActiveOn(r, j, f) == ActiveOn(s, j, f) { }
    if ActiveOn(r, i, f) {
    } else if ActiveOn(s, i, f) {
      assert forall j: nat | j < |s.calls| && j != i :: !ActiveOn(r, j, f);
    } else if SomeActive(s, f) {
      var j: nat :| j < |s.calls| && ActiveOn(s, j, f);
      assert ActiveOn(r, j, f);
    } else {
      assert !ActiveOn(s, i, f);
      assert forall j: nat | j < |s.calls| :: !ActiveOn(r, j, f);
    }
  }

  lemma WakeUpKeepsInv(s: State, i: nat, throws: bool, f: nat)
    requires Inv(s) && i < |s.calls| && f < |s.flags|
    ensures NoLostWakeUp(Turn(s, i, throws), f)
  {
    var call, r := s.calls[i], Turn(s, i, throws);
    StepKeepsInv(s.flags[call.flag], s.owner, i, call, throws);
    if SomeAsleep(r, f) && r.flags[f].value != RUNNING && !(call.flag == f && OwesBroadcast(r.calls[i].pc)) {
      var j: nat :| j < |r.calls| && r.calls[j] == Call(f, Asleep);
      assert j != i;
      OthersStay(s, i, throws, j);
      assert s.calls[j] == Call(f, Asleep) && NoLostWakeUp(s, f);
      var w: nat :| w < |s.calls| && s.calls[w].flag == f && OwesBroadcast(s.calls[w].pc);
      if w != i { OthersStay(s, i, throws, w); }
      assert r.calls[w].flag == f && OwesBroadcast(r.calls[w].pc);
    }
  }

  lemma TurnKeepsInv(s: State, i: nat, throws: bool)
    requires Inv(s) && i < |s.calls|
    ensures Inv(Turn(s, i, throws))
  {
    EachKeepsInv(s, i, throws);
    forall f: nat | f < |s.flags|
      ensures var r := Turn(s, i, throws); (r.flags[f].value == RUNNING <==> SomeActive(r, f)) && NoLostWakeUp(r, f)
    {
      ActiveKeepsInv(s, i, throws, f);
      WakeUpKeepsInv(s, i, throws, f);
    }
  }

  lemma {:induction false} RunKeepsInv(run: seq<State>, k: nat)
    requires IsRun(run) && k < |run|
    ensures Inv(run[k]) && |run[k].flags| == |run[0].flags| && |run[k].calls| == |run[0].calls|
  {
    if k > 0 {
      RunKeepsInv(run, k - 1);
      assert Next(run[k - 1], run[k]);
      var i: nat, throws :| i < |run[k - 1].calls| && run[k] == Turn(run[k - 1], i, throws);
      TurnKeepsInv(run[k - 1], i, throws);
    }
  }

  // ----- what holds in every run

  /** A flag's function is run by at most one call at a time. */
  lemma RunsInOne(run: seq<State>, k: nat, i: nat, j: nat)
    requires IsRun(run) && k < |run| && i < j < |run[k].calls|
    ensures !(run[k].calls[i].pc == Running && run[k].calls[j] == run[k].calls[i])
  {
    RunKeepsInv(run, k);
    assert ActiveOn(run[k], i, run[k].calls[i].flag) ==> !ActiveOn(run[k], j, run[k].calls[i].flag);
  }

  /** It completes normally at most once, and not at all before the flag says so. */
  lemma RunsOnce(run: seq<State>, k: nat, f: nat)
    requires IsRun(run) && k < |run| && f < |run[k].flags|
    ensures run[k].flags[f].completed <= 1
    ensures run[k].flags[f].value == UNSET ==> run[k].flags[f].completed == 0
  {
    RunKeepsInv(run, k);
    assert FlagInv(run[k].flags[f]);
    if run[k].flags[f].value == RUNNING {
      var a: nat :| a < |run[k].calls| && ActiveOn(run[k], a, f);
    }
  }

  /** A call that returns normally finds the function completed, once, and the flag saying so. */
  lemma ReturnMeansDone(run: seq<State>, k: nat, i: nat)
    requires IsRun(run) && k < |run| && i < |run[k].calls| && run[k].calls[i].pc == Returned
    ensures WellFormed(run[k]) && run[k].flags[run[k].calls[i].flag] == Flag(DONE, 1)
  {
    RunKeepsInv(run, k);
  }

  /** A result, once there, stays. */
  lemma {:induction false} DoneIsAbsorbing(run: seq<State>, j: nat, k: nat, f: nat)
    requires IsRun(run) && j <= k < |run| && f < |run[j].flags| && run[j].flags[f] == Flag(DONE, 1)
    ensures f < |run[k].flags| && run[k].flags[f] == Flag(DONE, 1)
    decreases k
  {
    RunKeepsInv(run, j);
    RunKeepsInv(run, k);
    if j < k {
      DoneIsAbsorbing(run, j, k - 1, f);
      RunKeepsInv(run, k - 1);
      assert Next(run[k - 1], run[k]);
      var i: nat, throws :| i < |run[k - 1].calls| && run[k] == Turn(run[k - 1], i, throws);
      assert CallInv(run[k - 1].flags[run[k - 1].calls[i].flag], run[k - 1].owner, i, run[k - 1].calls[i].pc);
    }
  }

  /** A call whose function throws makes the flag as it was at first: the next call to look at it runs the function. */
  lemma ThrowMeansRetry(run: seq<State>, k: nat, i: nat, j: nat, throws: bool)
    requires IsRun(run) && k < |run| && i < |run[k].calls| && j < |run[k].calls|
    requires run[k].calls[i].pc == StoreResult(true)
    ensures WellFormed(run[k])
    ensures var r := Turn(run[k], i, throws);
      var f := run[k].calls[i].flag;
      r.flags[f] == Flag(UNSET, 0) && !SomeActive(r, f) && WellFormed(r)
      && (r.calls[j] == Call(f, Test) ==> Turn(r, j, throws).calls[j].pc == StoreRunning)
  {
    RunKeepsInv(run, k);
    TurnKeepsInv(run[k], i, throws);
    assert CallInv(run[k].flags[run[k].calls[i].flag], run[k].owner, i, run[k].calls[i].pc);
  }

  /** While a call sleeps on a flag, another call is running that flag's function or owes a broadcast; and broadcasts wake all. */
  lemma SleepersAreWoken(run: seq<State>, k: nat, f: nat)
    requires IsRun(run) && k < |run| && f < |run[k].flags| && SomeAsleep(run[k], f)
    ensures (run[k].flags[f].value == RUNNING && SomeActive(run[k], f)) || BroadcastOwed(run[k], f)
    ensures forall i: nat, throws | i < |run[k].calls| && run[k].calls[i].pc.Broadcast? ::
      WellFormed(run[k]) && !SomeAsleep(Turn(run[k], i, throws), f)
  {
    RunKeepsInv(run, k);
    assert NoLostWakeUp(run[k], f);
  }

  // ----- what each call achieves

  /** How many of its own steps a call is away from its end, unless it has to sleep. */
  function Rank(pc: Pc): nat {
    match pc
    case Asleep => 10
    case Lock => 9
    case Test => 8
    case StoreRunning => 7
    case UnlockToRun => 6
    case Running => 5
    case LockAgain(_) => 4
    case StoreResult(_) => 3
    case UnlockResult(_) => 2
    case Broadcast(_) | UnlockDone => 1
    case Returned | Thrown => 0
  }

  lemma StepEnds(f: Flag, owner: int, i: nat, call: Call, throws: bool)
    requires call.pc !in {Returned, Thrown}
    ensures var next := Effect(f, owner, i, call, throws).2.pc;
      if owner >= 0 && (call.pc == Lock || call.pc.LockAgain?) then next == call.pc
      else if call.pc == Test && f.value == RUNNING then next == Asleep
      else Rank(next) < Rank(call.pc)
  {
  }

  /** Every step brings a call nearer to its end, but for sleeping while the function runs and for waiting for the mutex. */
  lemma CallsEnd(run: seq<State>, k: nat, i: nat, throws: bool)
    requires IsRun(run) && k < |run| && i < |run[k].calls| && run[k].calls[i].pc !in {Returned, Thrown}
    ensures WellFormed(run[k])
    ensures var s, call, next := run[k], run[k].calls[i], Turn(run[k], i, throws).calls[i].pc;
      if s.owner >= 0 && (call.pc == Lock || call.pc.LockAgain?) then next == call.pc
      else if call.pc == Test && s.flags[call.flag].value == RUNNING then next == Asleep
      else Rank(next) < Rank(call.pc)
  {
    hide Effect, Rank;
    RunKeepsInv(run, k);
    StepEnds(run[k].flags[run[k].calls[i].flag], run[k].owner, i, run[k].calls[i], throws);
  }

  /** Who looks at a flag that is done returns without running the function; who looks at one that is unset runs it. */
  lemma LookDecides(run: seq<State>, k: nat, i: nat, throws: bool)
    requires IsRun(run) && k < |run| && i < |run[k].calls|
    ensures WellFormed(run[k])
    ensures var call, next := run[k].calls[i], Turn(run[k], i, throws).calls[i].pc;
      var value := run[k].flags[call.flag].value;
      && (call.pc == Test && value == DONE ==> next == UnlockDone) && (call.pc == UnlockDone ==> next == Returned)
      && (call.pc == Test && value == UNSET ==> next == StoreRunning)
      && (call.pc == StoreRunning ==> next == UnlockToRun) && (call.pc == UnlockToRun ==> next == Running)
  {
    RunKeepsInv(run, k);
  }

  /** The call's function has thrown. */
  predicate Failed(pc: Pc) {
    pc in {LockAgain(true), StoreResult(true), UnlockResult(true), Broadcast(true), Thrown}
  }

  /** A call ends with an exception exactly if its own run of the function did. */
  lemma ThrowsPassOn(run: seq<State>, k: nat, i: nat, throws: bool)
    requires IsRun(run) && k < |run| && i < |run[k].calls|
    ensures WellFormed(run[k])
    ensures var pc, next := run[k].calls[i].pc, Turn(run[k], i, throws).calls[i].pc;
      Failed(next) <==> if pc == Running then throws else Failed(pc)
  {
    RunKeepsInv(run, k);
  }

  /** Who holds the mutex gives it back with its next three steps. */
  lemma MutexIsGivenBack(run: seq<State>, k: nat, i: nat, throws: bool)
    requires IsRun(run) && k < |run| && i < |run[k].calls| && run[k].owner == i
    ensures WellFormed(run[k])
    ensures var r := Turn(run[k], i, throws);
      r.owner == -1 || (r.owner == i && Rank(r.calls[i].pc) < Rank(run[k].calls[i].pc) && run[k].calls[i].pc !in {UnlockDone, UnlockToRun})
  {
    RunKeepsInv(run, k);
  }

  /** A step of one call is no step of another, but that a broadcast wakes who sleeps. */
  lemma OnlyBroadcastsWake(s: State, i: nat, throws: bool, j: nat)
    requires WellFormed(s) && i < |s.calls| && j < |s.calls| && i != j
    ensures var r := Turn(s, i, throws);
      r.calls[j] == if s.calls[i].pc.Broadcast? && s.calls[j].pc == Asleep then s.calls[j].(pc := Lock) else s.calls[j]
    ensures forall f: nat | f < |s.flags| && f != s.calls[i].flag :: Turn(s, i, throws).flags[f] == s.flags[f]
  {
  }
}
