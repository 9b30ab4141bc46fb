/**
 * The guard of a function-local static variable, over a futex: every
 * interleaving of the atomic steps of acquire, release and abort.
 */
module FutexGuard {
  import opened GuardBytes

  // ----- the state

  /** Where a thread is: before the named step of acquire, release or abort. */
  datatype Pc =
    | Outside
    | LoadGuard | CompareExchange | StoreId | CheckId(last: int) | SetWaiting(last: int) | Wait | Asleep
    | ReturnDone | Terminated
    | StoreGuard | ExchangeComplete
    | ClearId | ExchangeUnset
    | Wake

  /** A thread, and whether it was told INIT_IS_PENDING and has not given that up. */
  datatype Thread = Thread(initializing: bool, pc: Pc)

  /** The guard object: whether it has room for a thread id, the guard byte, the init byte and the id. */
  datatype Object = Object(support: bool, guard: int, init: int, id: int)

  /** Thread t has the id t + 1. */
  datatype State = State(object_: Object, threads: seq<Thread>)

  /** What a thread outside the functions does next. */
  datatype Choice = Acquire | Release | Abort

  // ----- the steps

  /** One atomic step of thread t: what becomes of the object and of the thread. */
  function Effect(g: Object, th: Thread, t: nat, c: Choice): (Object, Thread) {
    match th.pc
    case Outside =>
      if c == Acquire then (g, th.(pc := LoadGuard))
      else if !th.initializing then (g, th)
      else if c == Release then (g, th.(pc := StoreGuard))
      else (g, th.(pc := if g.support then ClearId else ExchangeUnset))
    case LoadGuard => (g, th.(pc := if g.guard != UNSET then ReturnDone else CompareExchange))
    case CompareExchange =>
      if g.init == UNSET then (g.(init := PENDING), Thread(true, if g.support then StoreId else Outside))
      else if g.init == COMPLETE then (g, th.(pc := ReturnDone))
      else if !HasPending(g.init) then (g, th)
      else (g, th.(pc := if g.support then CheckId(g.init) else AfterCheck(g.init)))
    case StoreId => (g.(id := t + 1), th.(pc := Outside))
    case CheckId(last) => (g, th.(pc := if g.id == t + 1 then Terminated else AfterCheck(last)))
    case SetWaiting(last) =>
      if g.init == last then (g.(init := PENDING_WAITING), th.(pc := Wait))
      else if g.init == COMPLETE then (g, th.(pc := ReturnDone))
      else if g.init == UNSET then (g, th.(pc := CompareExchange))
      else (g, th.(pc := Wait))
    case Wait => (g, th.(pc := if g.guard == UNSET && g.init == PENDING_WAITING then Asleep else CompareExchange))
    case Asleep => (g, th.(pc := CompareExchange))
    case ReturnDone => (g, th.(pc := Outside))
    case Terminated => (g, th)
    case StoreGuard => (g.(guard := COMPLETE), th.(pc := ExchangeComplete))
    case ExchangeComplete => (g.(init := COMPLETE), Thread(false, if HasWaiting(g.init) then Wake else Outside))
    case ClearId => (g.(id := 0), th.(pc := ExchangeUnset))
    case ExchangeUnset => (g.(init := UNSET), Thread(false, if HasWaiting(g.init) then Wake else Outside))
    case Wake => (g, th.(pc := Outside))
  }

  function AfterCheck(last: int): Pc {
    if !HasWaiting(last) then SetWaiting(last) else Wait
  }

  function Woken(th: Thread): Thread {
    if th.pc == Asleep then th.(pc := CompareExchange) else th
  }

  function WakeAll(threads: seq<Thread>): seq<Thread> {
    seq(|threads|, i requires 0 <= i < |threads| => Woken(threads[i]))
  }

  function Turn(s: State, t: nat, c: Choice): State
    requires t < |s.threads|
  {
    var (g, th) := Effect(s.object_, s.threads[t], t, c);
    State(g, (if s.threads[t].pc == Wake then WakeAll(s.threads) else s.threads)[t := th])
  }

  predicate Initial(s: State) {
    && s.object_.guard == UNSET && s.object_.init == UNSET && s.object_.id == 0
    && forall i | 0 <= i < |s.threads| :: s.threads[i] == Thread(false, Outside)
  }

  ghost predicate Next(s: State, r: State) {
    exists t: nat, c :: t < |s.threads| && r == Turn(s, t, c)
  }

  ghost predicate IsRun(run: seq<State>) {
    run != [] && Initial(run[0]) && forall i | 0 < i < |run| :: Next(run[i - 1], run[i])
  }

  // ----- the invariant

  predicate ObjectInv(g: Object) {
    && g.guard in {UNSET, COMPLETE} && g.init in {UNSET, COMPLETE, PENDING, PENDING_WAITING}
    && (g.init == COMPLETE ==> g.guard == COMPLETE)
    && (g.init == UNSET ==> g.guard == UNSET)
    && (g.id != 0 ==> g.support)
  }

  predicate ThreadInv(g: Object, i: int, th: Thread) {
    && (th.initializing ==> HasPending(g.init))
    && (th.initializing && g.guard == COMPLETE ==> th.pc == ExchangeComplete)
    && (th.pc in {ExchangeComplete, ReturnDone} ==> g.guard == COMPLETE)
    && PcInv(g.support, th)
    && IdInv(g, i, th)
  }

  /** Which steps only an initializing thread takes, and which it never takes. */
  predicate PcInv(support: bool, th: Thread) {
    && (th.pc in {StoreId, StoreGuard, ExchangeComplete, ClearId, ExchangeUnset, Terminated} ==> th.initializing)
    && (th.pc in {StoreId, ClearId, Terminated} || th.pc.CheckId? ==> support)
    && (th.pc.CheckId? ==> th.pc.last in {PENDING, PENDING_WAITING})
    && (th.pc.SetWaiting? ==> th.pc.last == PENDING)
    && (th.pc == Wake ==> !th.initializing)
    && (support && th.initializing ==> th.pc !in {Wait, Asleep} && !th.pc.SetWaiting?)
  }

  /** The id is that of the initializing thread, or none while it is not stored yet or already cleared. */
  predicate IdInv(g: Object, i: int, th: Thread) {
    && (g.support && th.initializing && th.pc != StoreId && th.pc != ExchangeUnset ==> g.id == i + 1)
    && (th.pc == ExchangeUnset ==> g.id == 0)
    && (g.id == i + 1 && (g.init != COMPLETE || th.pc.CheckId?) ==> th.initializing)
  }

  predicate AllThreadsInv(s: State) {
    forall i | 0 <= i < |s.threads| :: ThreadInv(s.object_, i, s.threads[i])
  }

  predicate AtMostOneInitializing(s: State) {
    forall i, j | 0 <= i < j < |s.threads| :: !(s.threads[i].initializing && s.threads[j].initializing)
  }

  predicate SomeInitializing(s: State) {
    exists i :: 0 <= i < |s.threads| && s.threads[i].initializing
  }

  predicate SomeAt(s: State, pc: Pc) {
    exists i :: 0 <= i < |s.threads| && s.threads[i].pc == pc
  }

  /** No wake-up is lost: while a thread sleeps, the init byte says so or a wake-up is still owed. */
  predicate NoLostWakeUp(s: State) {
    SomeAt(s, Asleep) ==> s.object_.init == PENDING_WAITING || SomeAt(s, Wake)
  }

  predicate Inv(s: State) {
    && ObjectInv(s.object_) && AllThreadsInv(s) && AtMostOneInitializing(s)
    && (HasPending(s.object_.init) <==> SomeInitializing(s))
    && NoLostWakeUp(s)
  }

  // ----- every step keeps it

  /** What a thread's step does to the object and to itself. */
  lemma StepKeepsInv(g: Object, th: Thread, t: nat, c: Choice)
    requires ObjectInv(g) && ThreadInv(g, t, th)
    ensures var (h, r) := Effect(g, th, t, c);
      ObjectInv(h) && ThreadInv(h, t, r)
      && (HasPending(h.init) <==> if th.initializing || r.initializing then r.initializing else HasPending(g.init))
  {
  }

  /** Of two threads that are not both initializing, neither's step disturbs the other. */
  lemma OtherKeepsInv(g: Object, th: Thread, t: nat, c: Choice, i: nat, other: Thread)
    requires ObjectInv(g) && ThreadInv(g, t, th) && ThreadInv(g, i, other) && i != t
    requires !(th.initializing && other.initializing)
    ensures var (h, r) := Effect(g, th, t, c);
      ThreadInv(h, i, other) && ThreadInv(h, i, Woken(other)) && !(r.initializing && other.initializing)
  {
  }

  /** How a step may change the init byte while a thread sleeps and no wake-up is owed. */
  lemma StepKeepsWakeUp(g: Object, th: Thread, t: nat, c: Choice)
    requires ObjectInv(g) && ThreadInv(g, t, th)
    ensures var (h, r) := Effect(g, th, t, c);
      && (r.pc == Asleep ==> h.init == PENDING_WAITING)
      && (g.init == PENDING_WAITING && h.init != PENDING_WAITING ==> r.pc == Wake)
  {
  }

  lemma ThreadsKeepInv(s: State, t: nat, c: Choice)
    requires Inv(s) && t < |s.threads|
    ensures var r := Turn(s, t, c);
      ObjectInv(r.object_) && AllThreadsInv(r) && AtMostOneInitializing(r)
  {
    StepKeepsInv(s.object_, s.threads[t], t, c);
    forall i: nat | i < |s.threads| && i != t
      ensures ThreadInv(Turn(s, t, c).object_, i, Turn(s, t, c).threads[i])
      ensures !(Turn(s, t, c).threads[t].initializing && Turn(s, t, c).threads[i].initializing)
    {
      OtherKeepsInv(s.object_, s.threads[t], t, c, i, s.threads[i]);
    }
  }

  lemma PendingKeepsInv(s: State, t: nat, c: Choice)
    requires Inv(s) && t < |s.threads|
    ensures HasPending(Turn(s, t, c).object_.init) <==> SomeInitializing(Turn(s, t, c))
  {
    StepKeepsInv(s.object_, s.threads[t], t, c);
    var r := Turn(s, t, c);
    if r.threads[t].initializing {
    } else if s.threads[t].initializing {
      assert forall i | 0 <= i < |s.threads| && i != t :: !r.threads[i].initializing;
    } else if i :| 0 <= i < |s.threads| && s.threads[i].initializing {
      assert r.threads[i].initializing;
    } else {
      assert forall i | 0 <= i < |s.threads| :: !r.threads[i].initializing;
    }
  }

  lemma WakeUpKeepsInv(s: State, t: nat, c: Choice)
    requires Inv(s) && t < |s.threads|
    ensures NoLostWakeUp(Turn(s, t, c))
  {
    StepKeepsWakeUp(s.object_, s.threads[t], t, c);
    var r := Turn(s, t, c);
    if r.object_.init != PENDING_WAITING && r.threads[t].pc != Wake {
      if i :| 0 <= i < |r.threads| && r.threads[i].pc == Asleep {
        assert i != t && s.threads[i].pc == Asleep && s.threads[t].pc != Wake;
        var w :| 0 <= w < |s.threads| && s.threads[w].pc == Wake;
        assert r.threads[w].pc == Wake;
      }
    }
  }

  lemma TurnKeepsInv(s: State, t: nat, c: Choice)
    requires Inv(s) && t < |s.threads|
    ensures Inv(Turn(s, t, c))
  {
    ThreadsKeepInv(s, t, c);
    PendingKeepsInv(s, t, c);
    WakeUpKeepsInv(s, t, c);
  }

  lemma {:induction false} RunKeepsInv(run: seq<State>, k: nat)
    requires IsRun(run) && k < |run|
    ensures Inv(run[k])
  {
    if k > 0 {
      RunKeepsInv(run, k - 1);
      assert Next(run[k - 1], run[k]);
      var t: nat, c :| t < |run[k - 1].threads| && run[k] == Turn(run[k - 1], t, c);
      TurnKeepsInv(run[k - 1], t, c);
    }
  }

  // ----- what holds in every run

  /**
   * At most one thread is between INIT_IS_PENDING and its release or abort;
   * INIT_IS_DONE is returned only once the guard byte is set; and only the
   * initializing thread itself is terminated for recursive initialization.
   */
  lemma Safety(run: seq<State>, k: nat)
    requires IsRun(run) && k < |run|
    ensures AtMostOneInitializing(run[k])
    ensures SomeAt(run[k], ReturnDone) ==> run[k].object_.guard == COMPLETE
    ensures forall i | 0 <= i < |run[k].threads| && run[k].threads[i].pc == Terminated :: run[k].threads[i].initializing
  {
    RunKeepsInv(run, k);
  }

  /** Whoever sleeps will be woken: a thread is initializing, and by its release or abort will have to wake, or one owes the wake-up. */
  lemma SleepersAreWoken(run: seq<State>, k: nat)
    requires IsRun(run) && k < |run| && SomeAt(run[k], Asleep)
    ensures (run[k].object_.init == PENDING_WAITING && SomeInitializing(run[k])) || SomeAt(run[k], Wake)
    ensures run[k].object_.support ==> exists i :: 0 <= i < |run[k].threads| && run[k].threads[i].pc != Asleep
  {
    RunKeepsInv(run, k);
  }

  /** A release or an abort of the initializing thread wakes all who sleep, as soon as the wake-up it owes is made. */
  lemma WakeUpWakes(run: seq<State>, k: nat, t: nat, c: Choice)
    requires IsRun(run) && k < |run| && t < |run[k].threads| && SomeAt(run[k], Asleep)
    ensures run[k].threads[t].pc in {ExchangeComplete, ExchangeUnset} && !SomeAt(run[k], Wake)
      ==> Turn(run[k], t, c).threads[t].pc == Wake
    ensures run[k].threads[t].pc == Wake ==> !SomeAt(Turn(run[k], t, c), Asleep)
  {
    RunKeepsInv(run, k);
    assert ThreadInv(run[k].object_, t, run[k].threads[t]);
  }

  /** Completion is for good. */
  lemma {:induction false} CompleteIsAbsorbing(run: seq<State>, j: nat, k: nat)
    requires IsRun(run) && j <= k < |run|
    ensures run[j].object_.guard == COMPLETE ==> run[k].object_.guard == COMPLETE
    ensures run[j].object_.init == COMPLETE ==> run[k].object_.init == COMPLETE && !SomeInitializing(run[k])
    decreases k
  {
    RunKeepsInv(run, k);
    if j < k {
      CompleteIsAbsorbing(run, j, k - 1);
      RunKeepsInv(run, k - 1);
      assert Next(run[k - 1], run[k]);
      var t: nat, c :| t < |run[k - 1].threads| && run[k] == Turn(run[k - 1], t, c);
      assert ThreadInv(run[k - 1].object_, t, run[k - 1].threads[t]);
    }
  }

  /** The guard byte is set by a release of the initializing thread and by nothing else. */
  lemma {:induction false} ReleaseComesFirst(run: seq<State>, k: nat)
    requires IsRun(run) && k < |run| && run[k].object_.guard == COMPLETE
    ensures exists j, t :: 0 <= j < k && 0 <= t < |run[j].threads| && run[j].threads[t] == Thread(true, StoreGuard)
  {
    if k > 0 {
      if run[k - 1].object_.guard == COMPLETE {
        ReleaseComesFirst(run, k - 1);
      } else {
        RunKeepsInv(run, k - 1);
        assert Next(run[k - 1], run[k]);
        var t: nat, c :| t < |run[k - 1].threads| && run[k] == Turn(run[k - 1], t, c);
        assert ThreadInv(run[k - 1].object_, t, run[k - 1].threads[t]);
        assert run[k - 1].threads[t] == Thread(true, StoreGuard);
      }
    }
  }

  /** After an abort the object is as it was before, and whoever comes first is the next to initialize. */
  lemma AbortReopens(run: seq<State>, k: nat, t: nat, u: nat, c: Choice)
    requires IsRun(run) && k < |run| && t < |run[k].threads| && u < |run[k].threads|
    requires run[k].threads[t].pc == ExchangeUnset
    ensures var r := Turn(run[k], t, c);
      r.object_ == run[k].object_.(guard := UNSET, init := UNSET, id := 0) && !SomeInitializing(r)
      && (r.threads[u].pc == CompareExchange ==> Turn(r, u, c).threads[u].initializing)
  {
    RunKeepsInv(run, k);
    TurnKeepsInv(run[k], t, c);
    assert ThreadInv(run[k].object_, t, run[k].threads[t]);
  }

  /**
   * With thread ids, a thread that acquires again while it is initializing can
   * only go on to be terminated, whatever the others do meanwhile.
   */
  lemma RecursionTerminates(run: seq<State>, k: nat, t: nat, c: Choice)
    requires IsRun(run) && k < |run| && t < |run[k].threads|
    requires run[k].object_.support && run[k].threads[t].initializing
    ensures match run[k].threads[t].pc
      case LoadGuard => Turn(run[k], t, c).threads[t] == Thread(true, CompareExchange)
      case CompareExchange => Turn(run[k], t, c).threads[t].initializing && Turn(run[k], t, c).threads[t].pc.CheckId?
      case CheckId(_) => Turn(run[k], t, c).threads[t] == Thread(true, Terminated)
      case pc => pc in {Outside, StoreId, Terminated, StoreGuard, ExchangeComplete, ClearId, ExchangeUnset}
  {
    RunKeepsInv(run, k);
    assert ThreadInv(run[k].object_, t, run[k].threads[t]);
  }

  // ----- what each call achieves

  /** How many of its own steps a call is away from its end when the initialization is done, or its own to end. */
  function Rank(pc: Pc): nat {
    match pc
    case CheckId(_) => 5
    case StoreGuard | ClearId => 4
    case LoadGuard | SetWaiting(_) | Wait | Asleep | ExchangeComplete | ExchangeUnset => 3
    case CompareExchange => 2
    case StoreId | ReturnDone | Wake => 1
    case Outside | Terminated => 0
  }

  /** Calls begin; release and abort are for the initializing thread. */
  lemma CallsBegin(s: State, t: nat, c: Choice)
    requires t < |s.threads| && s.threads[t].pc == Outside && (c == Acquire || s.threads[t].initializing)
    ensures Rank(Turn(s, t, c).threads[t].pc) >= 3
    ensures var pc := Turn(s, t, c).threads[t].pc;
      match c
      case Acquire => pc == LoadGuard
      case Release => pc == StoreGuard
      case Abort => pc in {ClearId, ExchangeUnset}
  {
  }

  /** Once the initialization is complete every step brings an acquire nearer to its end, at which it has not claimed anything. */
  lemma DoneReturns(run: seq<State>, k: nat, t: nat, c: Choice)
    requires IsRun(run) && k < |run| && t < |run[k].threads| && run[k].object_.init == COMPLETE
    requires run[k].threads[t].pc != Outside
    ensures var th := Turn(run[k], t, c).threads[t];
      Rank(th.pc) < Rank(run[k].threads[t].pc) && !th.initializing && th.pc != Terminated
    ensures run[k].threads[t].pc in {LoadGuard, CompareExchange} || run[k].threads[t].pc.SetWaiting? ==>
      Turn(run[k], t, c).threads[t].pc == ReturnDone
  {
    RunKeepsInv(run, k);
    assert ThreadInv(run[k].object_, t, run[k].threads[t]);
  }

  /** Who comes to an object that is open initializes it. */
  lemma OpenIsClaimed(run: seq<State>, k: nat, t: nat, c: Choice)
    requires IsRun(run) && k < |run| && t < |run[k].threads|
    requires run[k].threads[t].pc == CompareExchange && run[k].object_.init == UNSET
    ensures var r := Turn(run[k], t, c);
      && r.threads[t].initializing && Rank(r.threads[t].pc) <= 1 && r.object_.init == PENDING
      && (r.threads[t].pc == StoreId ==> Turn(r, t, c).threads[t] == Thread(true, Outside))
  {
    RunKeepsInv(run, k);
  }

  /** Each step of a release or abort brings it nearer to its end, at which the initialization is complete, or open again. */
  lemma EndingsEnd(run: seq<State>, k: nat, t: nat, c: Choice)
    requires IsRun(run) && k < |run| && t < |run[k].threads|
    requires run[k].threads[t].pc in {StoreGuard, ExchangeComplete, ClearId, ExchangeUnset, Wake}
    ensures var pc, r := run[k].threads[t].pc, Turn(run[k], t, c);
      && Rank(r.threads[t].pc) < Rank(pc) && (pc != Wake ==> run[k].threads[t].initializing)
      && (pc == StoreGuard ==> r.object_.guard == COMPLETE && r.threads[t].pc == ExchangeComplete)
      && (pc == ExchangeComplete ==> r.object_.init == COMPLETE && !r.threads[t].initializing)
      && (pc == ClearId ==> r.threads[t].pc == ExchangeUnset)
      && (pc == ExchangeUnset ==> r.object_.init == UNSET && !r.threads[t].initializing)
      && (pc in {ExchangeComplete, ExchangeUnset} ==> (r.threads[t].pc == Wake <==> run[k].object_.init == PENDING_WAITING))
  {
    RunKeepsInv(run, k);
    assert ThreadInv(run[k].object_, t, run[k].threads[t]);
  }

  /** Who comes to an object that another thread is initializing announces that it waits, and sleeps once that is known. */
  lemma PendingSleeps(run: seq<State>, k: nat, t: nat, c: Choice)
    requires IsRun(run) && k < |run| && t < |run[k].threads| && !run[k].threads[t].initializing
    requires run[k].object_.init in {PENDING, PENDING_WAITING}
    ensures var pc, g, r := run[k].threads[t].pc, run[k].object_, Turn(run[k], t, c);
      && (pc == CompareExchange ==>
            r.threads[t].pc == if g.support then CheckId(g.init) else if g.init == PENDING then SetWaiting(PENDING) else Wait)
      && (pc == CheckId(PENDING) ==> r.threads[t].pc == SetWaiting(PENDING))
      && (pc == CheckId(PENDING_WAITING) ==> r.threads[t].pc == Wait)
      && (pc.SetWaiting? ==> r.threads[t].pc == Wait && r.object_.init == PENDING_WAITING)
      && (pc == Wait && g.init == PENDING_WAITING && g.guard == UNSET ==> r.threads[t].pc == Asleep)
      && (pc == Wait && (g.init == PENDING || g.guard == COMPLETE) ==> r.threads[t].pc == CompareExchange)
  {
    RunKeepsInv(run, k);
    assert ThreadInv(run[k].object_, t, run[k].threads[t]);
  }

  /** Who wanted to announce that it waits and finds the object open comes to it again. */
  lemma OpenIsComeToAgain(s: State, t: nat, c: Choice)
    requires t < |s.threads| && s.object_.init == UNSET && s.threads[t].pc == SetWaiting(PENDING)
    ensures Turn(s, t, c) == s.(threads := s.threads[t := s.threads[t].(pc := CompareExchange)])
  {
  }

  /** A step of one thread is no step of another, but that a wake-up wakes who sleeps. */
  lemma OthersStay(s: State, t: nat, c: Choice, i: nat)
    requires t < |s.threads| && i < |s.threads| && i != t
    ensures Turn(s, t, c).threads[i] == if s.threads[t].pc == Wake && s.threads[i].pc == Asleep
                                        then s.threads[i].(pc := CompareExchange) else s.threads[i]
  {
  }
}
