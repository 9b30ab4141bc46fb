/**
 * The reader/writer lock. All it does happens under its mutex, so that a step
 * is what a thread does from taking the mutex to giving it up again, be it by
 * returning or by waiting at one of the two gates.
 */
module SharedMutex {

  // ----- the state

  /** The bit that says a writer has entered; the others count the readers. */
  const WRITE_ENTERED: nat := 0x8000_0000
  const N_READERS: nat := 0x7FFF_FFFF

  predicate Entered(word: nat) { word >= WRITE_ENTERED }

  function Readers(word: nat): nat { if Entered(word) then word - WRITE_ENTERED else word }

  /** Where a thread is; Writer1, Writer2 and Reader1 wait at the gate of that number until they are woken. */
  datatype Pc = Outside | Writer1 | Writer1Woken | Writer2 | Writer2Woken | Writing | Reader1 | Reader1Woken | Reading

  datatype State = State(word: nat, threads: seq<Pc>)

  /** What a thread outside the lock does next. */
  datatype Choice = Lock | TryLock | LockShared | TryLockShared

  /** Whom a step wakes. */
  datatype Signal = Nobody | AllAtGate1 | OneAtGate1 | OneAtGate2

  // ----- the steps

  function Effect(word: nat, pc: Pc, c: Choice): (nat, Pc, Signal) {
    match pc
    case Outside =>
      (match c
       case Lock => EnterAsWriter(word)
       case TryLock => if word == 0 then (WRITE_ENTERED, Writing, Nobody) else (word, Outside, Nobody)
       case LockShared => EnterAsReader(word, Reader1)
       case TryLockShared => EnterAsReader(word, Outside))
    case Writer1Woken => EnterAsWriter(word)
    case Writer2Woken => PassGate2(word)
    case Reader1Woken => EnterAsReader(word, Reader1)
    case Writing => (0, Outside, AllAtGate1)
    case Reading => LeaveAsReader(word)
    // a thread may be woken for no reason
    case Writer1 => (word, Writer1Woken, Nobody)
    case Writer2 => (word, Writer2Woken, Nobody)
    case Reader1 => (word, Reader1Woken, Nobody)
  }

  function EnterAsWriter(word: nat): (nat, Pc, Signal) {
    if Entered(word) then (word, Writer1, Nobody) else PassGate2(WRITE_ENTERED + word)
  }

  function PassGate2(word: nat): (nat, Pc, Signal) {
    (word, if Readers(word) != 0 then Writer2 else Writing, Nobody)
  }

  function EnterAsReader(word: nat, refused: Pc): (nat, Pc, Signal) {
    if Entered(word) || Readers(word) == N_READERS then (word, refused, Nobody)
    else (Count(word, Readers(word) + 1), Reading, Nobody)
  }

  function LeaveAsReader(word: nat): (nat, Pc, Signal) {
    // unsigned arithmetic
    var n := (Readers(word) - 1) % 0x1_0000_0000;
    (Count(word, n), Outside,
     if Entered(word) then (if n == 0 then OneAtGate2 else Nobody)
     else if n == N_READERS - 1 then OneAtGate1 else Nobody)
  }

  /** The word with another number of readers. */
  function Count(word: nat, n: nat): nat {
    if Entered(word) && n < WRITE_ENTERED then WRITE_ENTERED + n else n
  }

  predicate AtGate1(pc: Pc) { pc == Writer1 || pc == Reader1 }

  function Woken(pc: Pc): Pc {
    match pc
    case Writer1 => Writer1Woken
    case Reader1 => Reader1Woken
    case Writer2 => Writer2Woken
    case _ => pc
  }

  /** What a signal does to thread i, if thread chosen is the one that a signal for one thread goes to. */
  function Signalled(signal: Signal, pc: Pc, i: nat, chosen: nat): Pc {
    match signal
    case Nobody => pc
    case AllAtGate1 => if AtGate1(pc) then Woken(pc) else pc
    case OneAtGate1 => if AtGate1(pc) && i == chosen then Woken(pc) else pc
    case OneAtGate2 => if pc == Writer2 && i == chosen then Woken(pc) else pc
  }

  /** A signal for one thread at a gate reaches one if there is one. */
  predicate Reaches(signal: Signal, threads: seq<Pc>, chosen: nat) {
    match signal
    case OneAtGate1 => (exists i :: 0 <= i < |threads| && AtGate1(threads[i])) ==> chosen < |threads| && AtGate1(threads[chosen])
    case OneAtGate2 => Writer2 in threads ==> chosen < |threads| && threads[chosen] == Writer2
    case _ => true
  }

  function Turn(s: State, t: nat, c: Choice, chosen: nat): State
    requires t < |s.threads|
  {
    var (word, pc, signal) := Effect(s.word, s.threads[t], c);
    State(word, seq(|s.threads|, i requires 0 <= i < |s.threads| =>
      if i == t then pc else Signalled(signal, s.threads[i], i, chosen)))
  }

  ghost predicate Next(s: State, r: State) {
    exists t: nat, c, chosen: nat ::
      t < |s.threads| && Reaches(Effect(s.word, s.threads[t], c).2, s.threads, chosen) && r == Turn(s, t, c, chosen)
  }

  ghost predicate IsRun(run: seq<State>) {
    && run != [] && run[0].word == 0 && (forall i | 0 <= i < |run[0].threads| :: run[0].threads[i] == Outside)
    && forall i | 0 < i < |run| :: Next(run[i - 1], run[i])
  }

  // ----- the invariant

  /** The writer that has entered. */
  predicate HasEntered(pc: Pc) {
    pc == Writer2 || pc == Writer2Woken || pc == Writing
  }

  function ReadersAmong(threads: seq<Pc>): (n: nat)
    ensures n <= |threads|
  {
    if threads == [] then 0 else ReadersAmong(threads[1..]) + One(threads[0])
  }

  function One(pc: Pc): nat { if pc == Reading then 1 else 0 }

  predicate ThreadInv(word: nat, pc: Pc) {
    && (HasEntered(pc) ==> Entered(word))
    && (pc == Writing ==> Readers(word) == 0)
    && (pc == Writer2 ==> Readers(word) > 0)
    && (pc == Writer1 ==> Entered(word))
    && (pc == Reading ==> Readers(word) > 0)
  }

  predicate AtMostOneEntered(threads: seq<Pc>) {
    forall i, j | 0 <= i < j < |threads| :: !(HasEntered(threads[i]) && HasEntered(threads[j]))
  }

  predicate SomeEntered(threads: seq<Pc>) {
    exists i :: 0 <= i < |threads| && HasEntered(threads[i])
  }

  predicate Inv(s: State) {
    && s.word < 2 * WRITE_ENTERED
    && Readers(s.word) == ReadersAmong(s.threads)
    && (forall i | 0 <= i < |s.threads| :: ThreadInv(s.word, s.threads[i]))
    && AtMostOneEntered(s.threads)
    && (Entered(s.word) <==> SomeEntered(s.threads))
  }

  // ----- every step keeps it

  lemma StepKeepsInv(word: nat, pc: Pc, c: Choice)
    requires word < 2 * WRITE_ENTERED && ThreadInv(word, pc)
    ensures var (w, p, signal) := Effect(word, pc, c);
      && w < 2 * WRITE_ENTERED && ThreadInv(w, p)
      && Readers(w) + One(pc) == Readers(word) + One(p)
      && (Entered(w) <==> if HasEntered(pc) || HasEntered(p) then HasEntered(p) else Entered(word))
      && (HasEntered(p) && !HasEntered(pc) ==> !Entered(word))
  {
  }

  /** Another thread, signalled or not. Only the writer that has entered can be at gate 2. */
  lemma OtherKeepsInv(word: nat, pc: Pc, c: Choice, other: Pc, i: nat, chosen: nat)
    requires word < 2 * WRITE_ENTERED && ThreadInv(word, pc) && ThreadInv(word, other)
    requires !(HasEntered(pc) && HasEntered(other)) && (One(pc) + One(other) <= Readers(word))
    requires Effect(word, pc, c).2 == OneAtGate2 && other == Writer2 ==> i == chosen
    ensures var (w, p, signal) := Effect(word, pc, c);
      var o := Signalled(signal, other, i, chosen);
      ThreadInv(w, o) && HasEntered(o) == HasEntered(other) && One(o) == One(other) && !(HasEntered(p) && HasEntered(o))
  {
  }

  lemma {:induction false} SameReaders(a: seq<Pc>, b: seq<Pc>)
    requires |a| == |b| && forall i | 0 <= i < |a| :: One(a[i]) == One(b[i])
    ensures ReadersAmong(a) == ReadersAmong(b)
  {
    if a != [] { SameReaders(a[1..], b[1..]); }
  }

  lemma {:induction false} OneMoves(a: seq<Pc>, b: seq<Pc>, t: nat)
    requires |a| == |b| && t < |a| && forall i | 0 <= i < |a| && i != t :: One(a[i]) == One(b[i])
    ensures ReadersAmong(b) + One(a[t]) == ReadersAmong(a) + One(b[t])
  {
    if t == 0 { SameReaders(a[1..], b[1..]); } else { OneMoves(a[1..], b[1..], t - 1); }
  }

  lemma {:induction false} TwoReaders(a: seq<Pc>, t: nat, i: nat)
    requires t < |a| && i < |a| && i != t
    ensures One(a[t]) + One(a[i]) <= ReadersAmong(a)
  {
    OneMoves(a, a[t := Outside], t);
    OneMoves(a[t := Outside], a[t := Outside][i := Outside], i);
  }

  lemma TurnOfOther(s: State, t: nat, c: Choice, chosen: nat, i: nat)
    requires Inv(s) && t < |s.threads| && i < |s.threads| && i != t
    requires Reaches(Effect(s.word, s.threads[t], c).2, s.threads, chosen)
    ensures var r := Turn(s, t, c, chosen);
      && ThreadInv(r.word, r.threads[i]) && HasEntered(r.threads[i]) == HasEntered(s.threads[i])
      && One(r.threads[i]) == One(s.threads[i]) && !(HasEntered(r.threads[t]) && HasEntered(r.threads[i]))
  {
    TwoReaders(s.threads, t, i);
    OtherKeepsInv(s.word, s.threads[t], c, s.threads[i], i, chosen);
  }

  lemma TurnKeepsInv(s: State, t: nat, c: Choice, chosen: nat)
    requires Inv(s) && t < |s.threads| && Reaches(Effect(s.word, s.threads[t], c).2, s.threads, chosen)
    ensures Inv(Turn(s, t, c, chosen))
  {
    var r := Turn(s, t, c, chosen);
    StepKeepsInv(s.word, s.threads[t], c);
    forall i: nat | i < |s.threads| && i != t
      ensures ThreadInv(r.word, r.threads[i]) && HasEntered(r.threads[i]) == HasEntered(s.threads[i])
      ensures One(r.threads[i]) == One(s.threads[i]) && !(HasEntered(r.threads[t]) && HasEntered(r.threads[i]))
    {
      TurnOfOther(s, t, c, chosen, i);
    }
    OneMoves(s.threads, r.threads, t);
    if HasEntered(r.threads[t]) {
    } else if HasEntered(s.threads[t]) {
      assert forall i | 0 <= i < |s.threads| :: !HasEntered(r.threads[i]);
    } else if i :| 0 <= i < |s.threads| && HasEntered(s.threads[i]) {
      assert HasEntered(r.threads[i]);
    }
  }

  lemma {:induction false} RunKeepsInv(run: seq<State>, k: nat)
    requires IsRun(run) && k < |run|
    ensures Inv(run[k])
  {
    if k == 0 {
      NoReaders(run[0].threads);
    } else {
      RunKeepsInv(run, k - 1);
      assert Next(run[k - 1], run[k]);
      var s := run[k - 1];
      var t: nat, c, chosen: nat :|
        t < |s.threads| && Reaches(Effect(s.word, s.threads[t], c).2, s.threads, chosen) && run[k] == Turn(s, t, c, chosen);
      TurnKeepsInv(s, t, c, chosen);
    }
  }

  lemma {:induction false} NoReaders(a: seq<Pc>)
    requires forall i | 0 <= i < |a| :: a[i] == Outside
    ensures ReadersAmong(a) == 0
  {
    if a != [] { NoReaders(a[1..]); }
  }

  // ----- what holds in every run

  /** The word says whether a writer has entered, and how many threads hold the lock shared. */
  lemma WordIsTruth(run: seq<State>, k: nat)
    requires IsRun(run) && k < |run|
    ensures var s := run[k];
      s.word == ReadersAmong(s.threads) + if SomeEntered(s.threads) then WRITE_ENTERED else 0
  {
    RunKeepsInv(run, k);
  }

  /** A thread that holds the lock exclusively is alone: no other does, none has passed gate 1, and none holds it shared. */
  lemma WriterIsAlone(run: seq<State>, k: nat, t: nat, i: nat)
    requires IsRun(run) && k < |run| && t < |run[k].threads| && i < |run[k].threads| && i != t
    requires run[k].threads[t] == Writing
    ensures !HasEntered(run[k].threads[i]) && run[k].threads[i] != Reading && run[k].word == WRITE_ENTERED
  {
    RunKeepsInv(run, k);
    assert ThreadInv(run[k].word, run[k].threads[t]) && ThreadInv(run[k].word, run[k].threads[i]);
  }

  /**
   * Whoever waits at gate 2 waits for a reader that is still there and will wake
   * it as the last to leave; whoever waits at gate 1 to write waits for a writer
   * that has entered and will wake all when it leaves.
   */
  lemma WaitersHaveReason(run: seq<State>, k: nat, t: nat)
    requires IsRun(run) && k < |run| && t < |run[k].threads|
    ensures run[k].threads[t] == Writer2 ==> Reading in run[k].threads
    ensures run[k].threads[t] == Writer1 ==> exists i :: 0 <= i < |run[k].threads| && i != t && HasEntered(run[k].threads[i])
  {
    RunKeepsInv(run, k);
    assert ThreadInv(run[k].word, run[k].threads[t]);
    if ReadersAmong(run[k].threads) > 0 { ReaderAmong(run[k].threads); }
  }

  lemma {:induction false} ReaderAmong(a: seq<Pc>)
    requires ReadersAmong(a) > 0
    ensures Reading in a
  {
    if a[0] != Reading { ReaderAmong(a[1..]); }
  }

  /**
   * The last reader to leave wakes the writer that waits for it; a writer that leaves wakes everybody at gate 1, and a
   * reader that leaves when there can be no more readers wakes one there.
   */
  lemma LeavingWakes(run: seq<State>, k: nat, t: nat, c: Choice, chosen: nat, i: nat)
    requires IsRun(run) && k < |run| && t < |run[k].threads| && i < |run[k].threads| && i != t
    requires Reaches(Effect(run[k].word, run[k].threads[t], c).2, run[k].threads, chosen)
    ensures var r := Turn(run[k], t, c, chosen);
      && (run[k].threads[t] == Reading && Readers(run[k].word) == 1 && run[k].threads[i] == Writer2
          ==> r.threads[i] == Writer2Woken)
      && (run[k].threads[t] == Writing ==> !AtGate1(r.threads[i]) && r.word == 0)
      && (run[k].threads[t] == Reading && run[k].word == N_READERS && i == chosen ==> !AtGate1(r.threads[i]))
  {
    RunKeepsInv(run, k);
    assert ThreadInv(run[k].word, run[k].threads[t]) && ThreadInv(run[k].word, run[k].threads[i]);
  }

  // ----- who gets in

  lemma {:induction false} ReadersAre(a: seq<Pc>)
    ensures ReadersAmong(a) > 0 <==> Reading in a
  {
    if a != [] { ReadersAre(a[1..]); }
  }

  /** A thread tries to lock shared, or is woken and tries again. */
  predicate TriesShared(pc: Pc, c: Choice) {
    pc == Reader1Woken || (pc == Outside && (c == LockShared || c == TryLockShared))
  }

  /**
   * It holds the lock after that exactly if no writer has entered and there are less than N_READERS readers. If not, a
   * trial has failed and the others wait at gate 1.
   */
  lemma ReaderGetsIn(run: seq<State>, k: nat, t: nat, c: Choice, chosen: nat)
    requires IsRun(run) && k < |run| && t < |run[k].threads| && TriesShared(run[k].threads[t], c)
    ensures var s, r := run[k], Turn(run[k], t, c, chosen);
      r.threads[t] == if !SomeEntered(s.threads) && ReadersAmong(s.threads) < N_READERS then Reading
                      else if s.threads[t] == Outside && c == TryLockShared then Outside else Reader1
  {
    RunKeepsInv(run, k);
  }

  /** try_lock succeeds exactly if no thread holds the lock, be it shared, and none has entered. */
  lemma TryLockGetsIn(run: seq<State>, k: nat, t: nat, chosen: nat)
    requires IsRun(run) && k < |run| && t < |run[k].threads| && run[k].threads[t] == Outside
    ensures var s, r := run[k], Turn(run[k], t, TryLock, chosen);
      r.threads[t] == if SomeEntered(s.threads) || Reading in s.threads then Outside else Writing
  {
    RunKeepsInv(run, k);
    ReadersAre(run[k].threads);
  }

  /**
   * lock passes gate 1 exactly if no writer has entered, and then gate 2 exactly if there are no readers; a thread that
   * is woken at a gate tries that gate again.
   */
  lemma WriterGetsIn(run: seq<State>, k: nat, t: nat, c: Choice, chosen: nat)
    requires IsRun(run) && k < |run| && t < |run[k].threads|
    ensures var s, r, pc := run[k], Turn(run[k], t, c, chosen), run[k].threads[t];
      && ((pc == Outside && c == Lock) || pc == Writer1Woken ==>
            r.threads[t] == if SomeEntered(s.threads) then Writer1 else if Reading in s.threads then Writer2 else Writing)
      && (pc == Writer2Woken ==> r.threads[t] == if Reading in s.threads then Writer2 else Writing)
  {
    RunKeepsInv(run, k);
    ReadersAre(run[k].threads);
  }

  /** Who holds the lock and unlocks it is outside. */
  lemma HolderGetsOut(s: State, t: nat, c: Choice, chosen: nat)
    requires t < |s.threads| && (s.threads[t] == Reading || s.threads[t] == Writing)
    ensures Turn(s, t, c, chosen).threads[t] == Outside
  {
  }

  /** Two threads hold the lock shared. */
  lemma TwoReadAtOnce() returns (run: seq<State>)
    ensures IsRun(run) && |run| == 3 && run[2].threads == [Reading, Reading]
  {
    var s := State(0, [Outside, Outside]);
    run := [s, State(1, [Reading, Outside]), State(2, [Reading, Reading])];
    assert run[1] == Turn(run[0], 0, LockShared, 0) && Reaches(Effect(0, Outside, LockShared).2, run[0].threads, 0);
    assert run[2] == Turn(run[1], 1, TryLockShared, 0) && Reaches(Effect(1, Outside, TryLockShared).2, run[1].threads, 0);
    assert Next(run[0], run[1]) && Next(run[1], run[2]);
  }

  /** A reader at gate 1 stays there only as long as the writer. */
  lemma ReaderStep(word: nat, pc: Pc, c: Choice, other: Pc, i: nat, chosen: nat)
    requires word < 2 * WRITE_ENTERED && ThreadInv(word, pc) && Readers(word) < N_READERS
    requires other == Reader1 ==> Entered(word)
    ensures var (w, p, signal) := Effect(word, pc, c);
      && (p == Reader1 ==> Entered(w))
      && (Signalled(signal, other, i, chosen) == Reader1 ==> Entered(w))
  {
  }

  lemma {:induction false} ReadersWaitForWriter(run: seq<State>, k: nat)
    requires IsRun(run) && k < |run| && |run[0].threads| < N_READERS
    ensures |run[k].threads| == |run[0].threads|
    ensures Reader1 in run[k].threads ==> Entered(run[k].word)
  {
    if k > 0 {
      ReadersWaitForWriter(run, k - 1);
      RunKeepsInv(run, k - 1);
      var s := run[k - 1];
      assert Next(s, run[k]);
      var m: nat, c, chosen: nat :|
        m < |s.threads| && Reaches(Effect(s.word, s.threads[m], c).2, s.threads, chosen) && run[k] == Turn(s, m, c, chosen);
      assert ThreadInv(s.word, s.threads[m]);
      hide Effect, Signalled, Reaches;
      forall t: nat | t < |s.threads| && run[k].threads[t] == Reader1 ensures Entered(run[k].word) {
        ReaderStep(s.word, s.threads[m], c, s.threads[t], t, chosen);
      }
    }
  }

  /** With less threads than the lock can count, a reader at gate 1 waits for a writer that has entered and will wake all. */
  lemma ReaderWaitsForWriter(run: seq<State>, k: nat, t: nat)
    requires IsRun(run) && k < |run| && t < |run[k].threads| && |run[0].threads| < N_READERS
    ensures run[k].threads[t] == Reader1 ==> exists i :: 0 <= i < |run[k].threads| && i != t && HasEntered(run[k].threads[i])
  {
    ReadersWaitForWriter(run, k);
    RunKeepsInv(run, k);
  }

  /** Nobody is woken but by a thread that leaves, at gate 2 by the last reader only and at gate 1 by a writer or at the maximal count. */
  lemma OnlyLeavingWakes(run: seq<State>, k: nat, t: nat, c: Choice, chosen: nat, i: nat)
    requires IsRun(run) && k < |run| && t < |run[k].threads| && i < |run[k].threads| && i != t
    requires Turn(run[k], t, c, chosen).threads[i] != run[k].threads[i]
    ensures var s := run[k];
      && Turn(s, t, c, chosen).threads[i] == Woken(s.threads[i])
      && (if s.threads[i] == Writer2 then s.threads[t] == Reading && ReadersAmong(s.threads) == 1 && i == chosen
          else AtGate1(s.threads[i])
               && (s.threads[t] == Writing || (s.threads[t] == Reading && s.word == N_READERS && i == chosen)))
  {
    RunKeepsInv(run, k);
    assert ThreadInv(run[k].word, run[k].threads[t]);
  }
}
