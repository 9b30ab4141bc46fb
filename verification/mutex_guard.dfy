/**
 * The guards of function-local static variables, over one mutex and one
 * condition variable that all of them share: every interleaving of the steps
 * of acquire, release and abort.
 */
module MutexGuard {
  import opened GuardBytes

  // ----- the state

  /** Where a thread is: before the named step. Lock and Relock wait for the mutex, Asleep for a broadcast. */
  datatype Pc =
    | Outside
    | LoadGuard | Lock | CheckId | Test | Asleep | Relock | Claim | UnlockPending | UnlockDone | ReturnDone | Terminated
    | StoreGuard | LockRelease | StoreComplete
    | LockAbort | StoreUnset
    | Unlock(waiting: bool) | Broadcast

  /** A thread: the guards whose variables it is initializing, and the guard that its call is about. */
  datatype Thread = Thread(initializing: set<nat>, on: nat, pc: Pc)

  /** A guard object: the guard byte, the init byte and the id of the initializing thread. */
  datatype Object = Object(guard: int, init: int, id: int)

  /** Thread t has the id t + 1; thread number owner holds the mutex, or none does if that is negative. */
  datatype State = State(support: bool, objects: seq<Object>, owner: int, threads: seq<Thread>)

  /** What a thread outside the functions does next, and to which guard. */
  datatype Choice = Acquire(on: nat) | Release(on: nat) | Abort(on: nat)

  // ----- the steps

  function Begin(th: Thread, c: Choice): Thread {
    match c
    case Acquire(k) => th.(on := k, pc := LoadGuard)
    case Release(k) => if k in th.initializing then th.(on := k, pc := StoreGuard) else th
    case Abort(k) => if k in th.initializing then th.(on := k, pc := LockAbort) else th
  }

  /** One step of thread i on the guard its call is about: what becomes of the guard, the mutex and the thread. */
  function Effect(support: bool, g: Object, owner: int, i: nat, th: Thread): (Object, int, Thread) {
    match th.pc
    case Outside => (g, owner, th)
    case LoadGuard => (g, owner, th.(pc := if g.guard != UNSET then ReturnDone else Lock))
    case Lock => if owner < 0 then (g, i, th.(pc := CheckId)) else (g, owner, th)
    case CheckId =>
      (g, owner, th.(pc := if support && HasPending(g.init) && g.id == i + 1 then Terminated else Test))
    case Test =>
      if HasPending(g.init) then (g.(init := PENDING_WAITING), -1, th.(pc := Asleep))
      else (g, owner, th.(pc := if g.init == COMPLETE then UnlockDone else Claim))
    case Asleep => (g, owner, th.(pc := Relock))
    case Relock => if owner < 0 then (g, i, th.(pc := Test)) else (g, owner, th)
    case Claim =>
      (g.(id := if support then i + 1 else g.id, init := PENDING), owner,
       th.(initializing := th.initializing + {th.on}, pc := UnlockPending))
    case UnlockPending => (g, -1, th.(pc := Outside))
    case UnlockDone => (g, -1, th.(pc := ReturnDone))
    case ReturnDone => (g, owner, th.(pc := Outside))
    case Terminated => (g, owner, th)
    case StoreGuard => (g.(guard := COMPLETE), owner, th.(pc := LockRelease))
    case LockRelease => if owner < 0 then (g, i, th.(pc := StoreComplete)) else (g, owner, th)
    case StoreComplete =>
      (g.(init := COMPLETE), owner, th.(initializing := th.initializing - {th.on}, pc := Unlock(HasWaiting(g.init))))
    case LockAbort => if owner < 0 then (g, i, th.(pc := StoreUnset)) else (g, owner, th)
    case StoreUnset =>
      (g.(id := if support then 0 else g.id, init := UNSET), owner,
       th.(initializing := th.initializing - {th.on}, pc := Unlock(HasWaiting(g.init))))
    case Unlock(waiting) => (g, -1, th.(pc := if waiting then Broadcast else Outside))
    case Broadcast => (g, owner, th.(pc := Outside))
  }

  function Woken(th: Thread): Thread {
    if th.pc == Asleep then th.(pc := Relock) else th
  }

  /** A broadcast wakes the sleepers of all guards. */
  function WakeAll(threads: seq<Thread>): seq<Thread> {
    seq(|threads|, i requires 0 <= i < |threads| => Woken(threads[i]))
  }

  predicate WellFormed(s: State) {
    forall i | 0 <= i < |s.threads| :: s.threads[i].on < |s.objects|
  }

  predicate Possible(s: State, i: nat, c: Choice) {
    i < |s.threads| && s.threads[i].on < |s.objects| && c.on < |s.objects|
  }

  function Turn(s: State, i: nat, c: Choice): State
    requires Possible(s, i, c)
  {
    var th := s.threads[i];
    if th.pc == Outside then s.(threads := s.threads[i := Begin(th, c)])
    else
      var (g, owner, next) := Effect(s.support, s.objects[th.on], s.owner, i, th);
      State(s.support, s.objects[th.on := g], owner, (if th.pc == Broadcast then WakeAll(s.threads) else s.threads)[i := next])
  }

  predicate Initial(s: State) {
    && WellFormed(s) && s.owner == -1 && (forall k | 0 <= k < |s.objects| :: s.objects[k] == Object(UNSET, UNSET, 0))
    && forall i | 0 <= i < |s.threads| :: s.threads[i].pc == Outside && s.threads[i].initializing == {}
  }

  ghost predicate Next(s: State, r: State) {
    exists i: nat, c :: Possible(s, i, c) && r == Turn(s, i, c)
  }

  ghost predicate IsRun(run: seq<State>) {
    run != [] && Initial(run[0]) && forall i | 0 < i < |run| :: Next(run[i - 1], run[i])
  }

  // ----- the invariant

  predicate HoldsMutex(pc: Pc) {
    pc in {CheckId, Test, Claim, UnlockPending, UnlockDone, Terminated, StoreComplete, StoreUnset} || pc.Unlock?
  }

  /** The thread has changed the init byte for waiting threads and not woken them yet. */
  predicate OwesBroadcast(pc: Pc) {
    pc == Unlock(true) || pc == Broadcast
  }

  predicate ObjectInv(g: Object) {
    && g.guard in {UNSET, COMPLETE} && g.init in {UNSET, COMPLETE, PENDING, PENDING_WAITING}
    && (g.init == COMPLETE ==> g.guard == COMPLETE)
    && (g.init == UNSET ==> g.guard == UNSET)
  }

  /** What holds between thread i and guard k. */
  predicate BetweenInv(support: bool, k: nat, g: Object, i: int, th: Thread) {
    && (k in th.initializing ==> HasPending(g.init) && (support ==> g.id == i + 1))
    && (k in th.initializing && g.guard == COMPLETE ==> th.on == k && th.pc in {LockRelease, StoreComplete})
    && (support && g.id == i + 1 && HasPending(g.init) ==> k in th.initializing)
    && (th.on == k ==> OnInv(support, k, g, th))
  }

  predicate OnInv(support: bool, k: nat, g: Object, th: Thread) {
    && (th.pc in {UnlockPending, StoreGuard, LockRelease, StoreComplete, LockAbort, StoreUnset, Terminated} ==> k in th.initializing)
    && (th.pc in {LockRelease, StoreComplete, UnlockDone, ReturnDone} ==> g.guard == COMPLETE)
    && (th.pc == Claim ==> g.init == UNSET)
    && (th.pc == Terminated ==> support)
    && (support && k in th.initializing ==> th.pc !in {Test, Asleep, Relock, Claim})
    && (th.pc.Unlock? || th.pc == Broadcast ==> k !in th.initializing)
  }

  lemma StepKeepsInv(support: bool, k: nat, g: Object, owner: int, i: nat, th: Thread)
    requires ObjectInv(g) && BetweenInv(support, k, g, i, th) && th.on == k && (HoldsMutex(th.pc) <==> owner == i)
    ensures var (h, o, next) := Effect(support, g, owner, i, th);
      && next.on == k && ObjectInv(h) && BetweenInv(support, k, h, i, next) && (HoldsMutex(next.pc) <==> o == i)
      && (o == owner || o == i || (o == -1 && owner == i)) && (o == i && owner != i ==> owner < 0)
      && (if k in th.initializing || k in next.initializing then HasPending(h.init) <==> k in next.initializing
          else HasPending(h.init) == HasPending(g.init))
      && (k in next.initializing && k !in th.initializing ==> !HasPending(g.init))
      && next.initializing - {k} == th.initializing - {k}
  {
  }

  /** Another thread and the same guard. */
  lemma OtherKeepsInv(support: bool, k: nat, g: Object, owner: int, i: nat, th: Thread, j: nat, other: Thread)
    requires ObjectInv(g) && BetweenInv(support, k, g, i, th) && th.on == k && (HoldsMutex(th.pc) <==> owner == i)
    requires BetweenInv(support, k, g, j, other) && (HoldsMutex(other.pc) <==> owner == j) && i != j
    requires !(k in th.initializing && k in other.initializing)
    ensures var (h, o, next) := Effect(support, g, owner, i, th);
      BetweenInv(support, k, h, j, other) && BetweenInv(support, k, h, j, Woken(other))
      && !(k in next.initializing && k in other.initializing)
  {
  }

  /** The same thread and another guard. */
  lemma ElsewhereKeepsInv(support: bool, k: nat, g: Object, owner: int, i: nat, th: Thread, l: nat, m: Object)
    requires BetweenInv(support, l, m, i, th) && th.on == k && k != l
    ensures BetweenInv(support, l, m, i, Effect(support, g, owner, i, th).2)
  {
  }

  lemma BeginKeepsInv(support: bool, k: nat, g: Object, i: nat, th: Thread, c: Choice)
    requires ObjectInv(g) && BetweenInv(support, k, g, i, th) && th.pc == Outside
    ensures BetweenInv(support, k, g, i, Begin(th, c)) && Begin(th, c).initializing == th.initializing
    ensures !HoldsMutex(Begin(th, c).pc) && Begin(th, c).pc != Asleep && !OwesBroadcast(Begin(th, c).pc)
  {
  }

  lemma WokenKeepsInv(support: bool, k: nat, g: Object, i: int, th: Thread)
    requires BetweenInv(support, k, g, i, th)
    ensures BetweenInv(support, k, g, i, Woken(th)) && HoldsMutex(Woken(th).pc) == HoldsMutex(th.pc)
    ensures Woken(th).initializing == th.initializing && Woken(th).on == th.on && OwesBroadcast(Woken(th).pc) == OwesBroadcast(th.pc)
  {
  }

  predicate EachInv(s: State) {
    && -1 <= s.owner < |s.threads|
    && (forall k | 0 <= k < |s.objects| :: ObjectInv(s.objects[k]))
    && (forall i | 0 <= i < |s.threads| :: HoldsMutex(s.threads[i].pc) <==> s.owner == i)
    && forall i: nat, k: nat | i < |s.threads| && k < |s.objects| :: BetweenInv(s.support, k, s.objects[k], i, s.threads[i])
  }

  predicate Initializes(s: State, i: nat, k: nat)
    requires i < |s.threads|
  {
    k in s.threads[i].initializing
  }

  predicate AtMostOneInitializing(s: State) {
    forall i: nat, j: nat, k: nat | i < j < |s.threads| && k < |s.objects| && Initializes(s, i, k) :: !Initializes(s, j, k)
  }

  predicate SomeInitializing(s: State, k: nat) {
    exists i: nat :: i < |s.threads| && Initializes(s, i, k)
  }

  predicate SomeAsleep(s: State, k: nat) {
    exists i: nat :: i < |s.threads| && s.threads[i].on == k && s.threads[i].pc == Asleep
  }

  predicate BroadcastOwed(s: State, k: nat) {
    exists i: nat :: i < |s.threads| && s.threads[i].on == k && OwesBroadcast(s.threads[i].pc)
  }

  predicate NoLostWakeUp(s: State, k: nat)
    requires k < |s.objects|
  {
    SomeAsleep(s, k) ==> s.objects[k].init == PENDING_WAITING || BroadcastOwed(s, k)
  }

  predicate Inv(s: State) {
    && WellFormed(s) && EachInv(s) && AtMostOneInitializing(s)
    && forall k: nat | k < |s.objects| :: (HasPending(s.objects[k].init) <==> SomeInitializing(s, k)) && NoLostWakeUp(s, k)
  }

  // ----- every step keeps it

  /** What a step of thread i leaves of another. */
  lemma OthersStay(s: State, i: nat, c: Choice, j: nat)
    requires Inv(s) && Possible(s, i, c) && j < |s.threads| && i != j
    ensures var r := Turn(s, i, c);
      && |r.threads| == |s.threads| && |r.objects| == |s.objects| && r.support == s.support
      && r.threads[j] == if s.threads[i].pc == Broadcast then Woken(s.threads[j]) else s.threads[j]
  {
  }

  lemma ThreadKeepsInv(s: State, i: nat, c: Choice, j: nat, k: nat)
    requires Inv(s) && Possible(s, i, c) && j < |s.threads| && k < |s.objects|
    ensures var r := Turn(s, i, c);
      && BetweenInv(r.support, k, r.objects[k], j, r.threads[j]) && (HoldsMutex(r.threads[j].pc) <==> r.owner == j)
      && (j != i ==> r.threads[j].initializing == s.threads[j].initializing)
      && (j != i ==> !(k in r.threads[i].initializing && k in r.threads[j].initializing))
  {
    var th, r := s.threads[i], Turn(s, i, c);
    assert BetweenInv(s.support, k, s.objects[k], i, th) && BetweenInv(s.support, k, s.objects[k], j, s.threads[j]);
    if j != i {
      OthersStay(s, i, c, j);
      assert k in th.initializing && k in s.threads[j].initializing ==> Initializes(s, i, k) && Initializes(s, j, k);
    }
    if th.pc == Outside {
      BeginKeepsInv(s.support, k, s.objects[k], i, th, c);
    } else {
      assert BetweenInv(s.support, th.on, s.objects[th.on], i, th);
      StepKeepsInv(s.support, th.on, s.objects[th.on], s.owner, i, th);
      if j == i {
        if k != th.on { ElsewhereKeepsInv(s.support, th.on, s.objects[th.on], s.owner, i, th, k, s.objects[k]); }
      } else if k == th.on {
        OtherKeepsInv(s.support, k, s.objects[k], s.owner, i, th, j, s.threads[j]);
      }
      WokenKeepsInv(s.support, k, s.objects[k], j, s.threads[j]);
    }
  }

  lemma EachKeepsInv(s: State, i: nat, c: Choice)
    requires Inv(s) && Possible(s, i, c)
    ensures WellFormed(Turn(s, i, c)) && EachInv(Turn(s, i, c))
  {
    var r := Turn(s, i, c);
    ObjectsKeepInv(s, i, c);
    forall j: nat, k: nat | j < |r.threads| && k < |r.objects|
      ensures BetweenInv(r.support, k, r.objects[k], j, r.threads[j]) && (HoldsMutex(r.threads[j].pc) <==> r.owner == j)
    {
      ThreadKeepsInv(s, i, c, j, k);
    }
    assert |r.objects| > 0;
  }

  lemma ObjectsKeepInv(s: State, i: nat, c: Choice)
    requires Inv(s) && Possible(s, i, c)
    ensures var r := Turn(s, i, c);
      && |r.threads| == |s.threads| && |r.objects| == |s.objects| && WellFormed(r) && -1 <= r.owner < |r.threads|
      && forall k | 0 <= k < |r.objects| :: ObjectInv(r.objects[k])
  {
    var th := s.threads[i];
    if th.pc != Outside {
      assert BetweenInv(s.support, th.on, s.objects[th.on], i, th);
      StepKeepsInv(s.support, th.on, s.objects[th.on], s.owner, i, th);
    }
    forall j: nat | j < |s.threads| && j != i { OthersStay(s, i, c, j); }
  }

  lemma OneKeepsInv(s: State, i: nat, c: Choice)
    requires Inv(s) && Possible(s, i, c)
    ensures AtMostOneInitializing(Turn(s, i, c))
  {
    var r := Turn(s, i, c);
    forall a: nat, b: nat, k: nat | a < b < |r.threads| && k < |r.objects| && Initializes(r, a, k) ensures !Initializes(r, b, k) {
      ThreadKeepsInv(s, i, c, a, k);
      ThreadKeepsInv(s, i, c, b, k);
      assert !(Initializes(s, a, k) && Initializes(s, b, k));
    }
  }

  lemma PendingKeepsInv(s: State, i: nat, c: Choice, k: nat)
    requires Inv(s) && Possible(s, i, c) && k < |s.objects|
    ensures HasPending(Turn(s, i, c).objects[k].init) <==> SomeInitializing(Turn(s, i, c), k)
  {
    var th, r := s.threads[i], Turn(s, i, c);
    assert BetweenInv(s.support, th.on, s.objects[th.on], i, th);
    if th.pc != Outside { StepKeepsInv(s.support, th.on, s.objects[th.on], s.owner, i, th); }
    forall j: nat | j < |s.threads| && j != i ensures Initializes(r, j, k) == Initializes(s, j, k) {
      ThreadKeepsInv(s, i, c, j, k);
    }
    if Initializes(r, i, k) {
      ThreadKeepsInv(s, i, c, i, k);
    } else if Initializes(s, i, k) {
      assert forall j: nat | j < |s.threads| && j != i :: !Initializes(r, j, k);
      assert k == th.on;
    } else if SomeInitializing(s, k) {
      var j: nat :| j < |s.threads| && Initializes(s, j, k);
      assert Initializes(r, j, k);
    } else {
      assert !Initializes(s, i, k);
      assert forall j: nat | j < |s.threads| :: !Initializes(r, j, k);
    }
  }

  lemma WakeUpStep(support: bool, g: Object, owner: int, i: nat, th: Thread)
    requires ObjectInv(g) && (th.pc == Claim ==> g.init == UNSET)
    ensures var (h, o, next) := Effect(support, g, owner, i, th);
      && next.on == th.on && (next.pc == Asleep ==> h.init == PENDING_WAITING)
      && (g.init == PENDING_WAITING && h.init != PENDING_WAITING ==> OwesBroadcast(next.pc))
      && (OwesBroadcast(th.pc) && !OwesBroadcast(next.pc) ==> th.pc == Broadcast)
  {
  }

  lemma WakeUpKeepsInv(s: State, i: nat, c: Choice, k: nat)
    requires Inv(s) && Possible(s, i, c) && k < |s.objects|
    ensures NoLostWakeUp(Turn(s, i, c), k)
  {
    hide Effect;
    var th, r := s.threads[i], Turn(s, i, c);
    assert BetweenInv(s.support, th.on, s.objects[th.on], i, th);
    WakeUpStep(s.support, s.objects[th.on], s.owner, i, th);
    if SomeAsleep(r, k) && r.objects[k].init != PENDING_WAITING && !(r.threads[i].on == k && OwesBroadcast(r.threads[i].pc)) {
      var j: nat :| j < |r.threads| && r.threads[j].on == k && r.threads[j].pc == Asleep;
      assert j != i;
      OthersStay(s, i, c, j);
      assert s.threads[j].pc == Asleep && th.pc != Broadcast;
      assert NoLostWakeUp(s, k);
      var w: nat :| w < |s.threads| && s.threads[w].on == k && OwesBroadcast(s.threads[w].pc);
      if w != i { OthersStay(s, i, c, w); }
      assert r.threads[w].on == k && OwesBroadcast(r.threads[w].pc);
    }
  }

  lemma TurnKeepsInv(s: State, i: nat, c: Choice)
    requires Inv(s) && Possible(s, i, c)
    ensures Inv(Turn(s, i, c))
  {
    EachKeepsInv(s, i, c);
    OneKeepsInv(s, i, c);
    var r := Turn(s, i, c);
    forall k: nat | k < |s.objects| ensures (HasPending(r.objects[k].init) <==> SomeInitializing(r, k)) && NoLostWakeUp(r, k) {
      PendingKeepsInv(s, i, c, k);
      WakeUpKeepsInv(s, i, c, k);
    }
  }

  lemma {:induction false} RunKeepsInv(run: seq<State>, n: nat)
    requires IsRun(run) && n < |run|
    ensures Inv(run[n])
  {
    if n > 0 {
      RunKeepsInv(run, n - 1);
      assert Next(run[n - 1], run[n]);
      var i: nat, c :| Possible(run[n - 1], i, c) && run[n] == Turn(run[n - 1], i, c);
      TurnKeepsInv(run[n - 1], i, c);
    }
  }

  // ----- what holds in every run

  /** No two threads initialize the variable of one guard. */
  lemma OneInitializer(run: seq<State>, n: nat, i: nat, j: nat, k: nat)
    requires IsRun(run) && n < |run| && i < j < |run[n].threads| && k < |run[n].objects|
    ensures !(Initializes(run[n], i, k) && Initializes(run[n], j, k))
  {
    RunKeepsInv(run, n);
  }

  /**
   * INIT_IS_DONE is returned only once the guard byte is set; and only a thread that is initializing the variable
   * is terminated for recursive initialization.
   */
  lemma Safety(run: seq<State>, n: nat, i: nat)
    requires IsRun(run) && n < |run| && i < |run[n].threads|
    ensures var th := run[n].threads[i];
      && th.on < |run[n].objects|
      && (th.pc == ReturnDone ==> run[n].objects[th.on].guard == COMPLETE)
      && (th.pc == Terminated ==> Initializes(run[n], i, th.on))
  {
    RunKeepsInv(run, n);
    var k := run[n].threads[i].on;
    assert BetweenInv(run[n].support, k, run[n].objects[k], i, run[n].threads[i]);
  }

  /** The thread is about to set the guard byte of guard k, whose variable it is initializing. */
  predicate Releases(s: State, i: nat, k: nat) {
    i < |s.threads| && s.threads[i].pc == StoreGuard && s.threads[i].on == k && Initializes(s, i, k)
  }

  /** A guard byte is set by a release of the initializing thread and by nothing else. */
  lemma {:induction false} ReleaseComesFirst(run: seq<State>, n: nat, k: nat)
    requires IsRun(run) && n < |run| && k < |run[n].objects| && run[n].objects[k].guard == COMPLETE
    ensures exists m, i: nat :: 0 <= m < n && Releases(run[m], i, k)
    decreases n
  {
    if n > 0 {
      RunKeepsInv(run, n - 1);
      assert Next(run[n - 1], run[n]);
      var i: nat, c :| Possible(run[n - 1], i, c) && run[n] == Turn(run[n - 1], i, c);
      assert BetweenInv(run[n - 1].support, k, run[n - 1].objects[k], i, run[n - 1].threads[i]);
      if run[n - 1].objects[k].guard == COMPLETE {
        ReleaseComesFirst(run, n - 1, k);
      } else {
        assert Releases(run[n - 1], i, k);
      }
    }
  }

  /** An abort leaves the object as it was before, and nobody initializing. */
  lemma AbortReopens(run: seq<State>, n: nat, i: nat, c: Choice)
    requires IsRun(run) && n < |run| && Possible(run[n], i, c) && run[n].threads[i].pc == StoreUnset
    ensures var k, r := run[n].threads[i].on, Turn(run[n], i, c);
      && r.objects[k] == Object(UNSET, UNSET, if r.support then 0 else run[n].objects[k].id)
      && !SomeInitializing(r, k)
  {
    RunKeepsInv(run, n);
    var k := run[n].threads[i].on;
    assert BetweenInv(run[n].support, k, run[n].objects[k], i, run[n].threads[i]);
    TurnKeepsInv(run[n], i, c);
  }

  /** Whoever looks at a guard that is open goes on to initialize its variable. */
  lemma OpenIsClaimed(run: seq<State>, n: nat, i: nat, c: Choice)
    requires IsRun(run) && n < |run| && Possible(run[n], i, c)
    ensures var k, r := run[n].threads[i].on, Turn(run[n], i, c);
      && (run[n].threads[i].pc == Test && run[n].objects[k].init == UNSET ==>
            r.threads[i].pc == Claim && r.owner == i && r.objects[k].init == UNSET)
      && (run[n].threads[i].pc == Claim ==> Initializes(r, i, k) && r.objects[k].init == PENDING)
  {
    RunKeepsInv(run, n);
    var k := run[n].threads[i].on;
    assert BetweenInv(run[n].support, k, run[n].objects[k], i, run[n].threads[i]);
  }

  /**
   * With thread ids, a thread that acquires again a guard whose variable it is initializing can only go on to be
   * terminated, as soon as it gets the mutex.
   */
  lemma RecursionTerminates(run: seq<State>, n: nat, i: nat, c: Choice)
    requires IsRun(run) && n < |run| && Possible(run[n], i, c)
    requires run[n].support && Initializes(run[n], i, run[n].threads[i].on)
    ensures var next := Turn(run[n], i, c).threads[i];
      match run[n].threads[i].pc
      case LoadGuard => next == run[n].threads[i].(pc := Lock)
      case Lock => next == run[n].threads[i].(pc := if run[n].owner < 0 then CheckId else Lock)
      case CheckId => next == run[n].threads[i].(pc := Terminated)
      case pc => pc in {Outside, UnlockPending, Terminated, StoreGuard, LockRelease, StoreComplete, LockAbort, StoreUnset}
  {
    RunKeepsInv(run, n);
    var k := run[n].threads[i].on;
    assert BetweenInv(run[n].support, k, run[n].objects[k], i, run[n].threads[i]);
  }

  /** While a thread sleeps for a guard, a thread is initializing its variable, or one owes the broadcast; and a broadcast wakes all. */
  lemma SleepersAreWoken(run: seq<State>, n: nat, k: nat)
    requires IsRun(run) && n < |run| && k < |run[n].objects| && SomeAsleep(run[n], k)
    ensures (run[n].objects[k].init == PENDING_WAITING && SomeInitializing(run[n], k)) || BroadcastOwed(run[n], k)
    ensures forall i: nat, c | Possible(run[n], i, c) && run[n].threads[i].pc == Broadcast :: !SomeAsleep(Turn(run[n], i, c), k)
  {
    RunKeepsInv(run, n);
    assert NoLostWakeUp(run[n], k);
  }

  /** Whoever ends an initialization that threads sleep for goes on to owe the broadcast. */
  lemma EndOwesBroadcast(run: seq<State>, n: nat, i: nat, c: Choice)
    requires IsRun(run) && n < |run| && Possible(run[n], i, c) && run[n].threads[i].pc in {StoreComplete, StoreUnset}
    requires SomeAsleep(run[n], run[n].threads[i].on) && !BroadcastOwed(run[n], run[n].threads[i].on)
    ensures Turn(run[n], i, c).threads[i].pc == Unlock(true)
  {
    RunKeepsInv(run, n);
    assert NoLostWakeUp(run[n], run[n].threads[i].on);
  }

  /** Completion is for good. */
  lemma {:induction false} CompleteIsAbsorbing(run: seq<State>, m: nat, n: nat, k: nat)
    requires IsRun(run) && m <= n < |run| && k < |run[m].objects| && run[m].objects[k].init == COMPLETE
    ensures k < |run[n].objects| && run[n].objects[k].init == COMPLETE && run[n].objects[k].guard == COMPLETE
    decreases n
  {
    RunKeepsInv(run, n);
    if m < n {
      CompleteIsAbsorbing(run, m, n - 1, k);
      RunKeepsInv(run, n - 1);
      assert Next(run[n - 1], run[n]);
      var i: nat, c :| Possible(run[n - 1], i, c) && run[n] == Turn(run[n - 1], i, c);
      assert BetweenInv(run[n - 1].support, k, run[n - 1].objects[k], i, run[n - 1].threads[i]);
    }
  }

  // ----- what each call achieves

  /** How many of its own steps a call is away from its end, unless it has to sleep. */
  function Rank(pc: Pc): nat {
    match pc
    case LoadGuard => 6
    case Lock | Asleep | StoreGuard => 5
    case CheckId | Relock | LockRelease | LockAbort => 4
    case Test | StoreComplete | StoreUnset => 3
    case Claim | UnlockDone | Unlock(_) => 2
    case UnlockPending | ReturnDone | Broadcast => 1
    case Outside | Terminated => 0
  }

  predicate WaitsForMutex(pc: Pc) {
    pc in {Lock, Relock, LockRelease, LockAbort}
  }

  /** Calls begin; release and abort are for a guard whose variable the thread is initializing. */
  lemma CallsBegin(s: State, i: nat, c: Choice)
    requires Possible(s, i, c) && s.threads[i].pc == Outside && (c.Acquire? || c.on in s.threads[i].initializing)
    ensures var th := Turn(s, i, c).threads[i];
      th.on == c.on && th.pc == match c { case Acquire(_) => LoadGuard case Release(_) => StoreGuard case Abort(_) => LockAbort }
  {
  }

  /** Every step brings a call nearer to its end, but for sleeping on a guard that is pending and for waiting for the mutex. */
  lemma CallsEnd(run: seq<State>, n: nat, i: nat, c: Choice)
    requires IsRun(run) && n < |run| && Possible(run[n], i, c) && run[n].threads[i].pc !in {Outside, Terminated}
    ensures var s, pc, next := run[n], run[n].threads[i].pc, Turn(run[n], i, c).threads[i].pc;
      if s.owner >= 0 && WaitsForMutex(pc) then next == pc
      else if pc == Test && HasPending(s.objects[s.threads[i].on].init) then next == Asleep
      else Rank(next) < Rank(pc) && (pc.Unlock? ==> next == if pc.waiting then Broadcast else Outside)
  {
    RunKeepsInv(run, n);
  }

  /** Who looks at a guard that is complete goes on to return. */
  lemma DoneReturns(run: seq<State>, n: nat, i: nat, c: Choice)
    requires IsRun(run) && n < |run| && Possible(run[n], i, c)
    ensures var g, pc, next := run[n].objects[run[n].threads[i].on], run[n].threads[i].pc, Turn(run[n], i, c).threads[i].pc;
      && (pc == LoadGuard && g.guard == COMPLETE ==> next == ReturnDone)
      && (pc == Test && g.init == COMPLETE ==> next == UnlockDone)
      && (pc == UnlockDone ==> next == ReturnDone) && (pc == ReturnDone ==> next == Outside)
  {
  }

  /** Who holds the mutex gives it back with its next three steps, unless it is terminated. */
  lemma MutexIsGivenBack(run: seq<State>, n: nat, i: nat, c: Choice)
    requires IsRun(run) && n < |run| && Possible(run[n], i, c) && run[n].owner == i && run[n].threads[i].pc != Terminated
    ensures var r := Turn(run[n], i, c);
      (r.owner == -1 || (r.owner == i && Rank(r.threads[i].pc) < Rank(run[n].threads[i].pc)))
      && 1 <= Rank(run[n].threads[i].pc) <= 4
  {
    RunKeepsInv(run, n);
  }

  /** Where there are no thread ids none is stored. */
  lemma {:induction false} NoIdWithoutSupport(run: seq<State>, n: nat, k: nat)
    requires IsRun(run) && n < |run| && !run[n].support && k < |run[n].objects|
    ensures run[n].objects[k].id == 0
  {
    if n > 0 {
      assert Next(run[n - 1], run[n]);
      NoIdWithoutSupport(run, n - 1, k);
    }
  }
}
