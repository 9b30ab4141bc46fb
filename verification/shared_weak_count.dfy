/**
 * The strong and weak reference counts of a control block, in every
 * interleaving of the atomic steps of those who hold a handle.
 */
module SharedWeakCount {

  // ----- the state

  /**
   * A place for a handle: what it holds, or how far the operation on what it
   * held has come. Destroying tells whether the last weak count was given back
   * or, on the fast path, only seen.
   */
  datatype Slot =
    | Empty | Strong | Weak | Locking(seen: int)
    | OnZeroShared | ReleaseWeak | DecrementWeak | Destroying(decremented: bool)

  /** The two counters, and how often the object and the block have been destroyed. */
  datatype Block = Block(shared: int, weak: int, objectGone: nat, blockGone: nat)

  datatype State = State(block: Block, slots: seq<Slot>)

  datatype Action = CopyShared | CopyWeak | Release | StartLock

  // ----- the steps

  /** One atomic step on a slot: what becomes of the block, of the slot, and what is put into an empty slot. */
  function Effect(b: Block, slot: Slot, a: Action): (Block, Slot, Slot) {
    match slot
    case Empty => (b, Empty, Empty)
    case Strong =>
      (match a
       case CopyShared => (b.(shared := b.shared + 1), Strong, Strong)
       case CopyWeak => (b.(weak := b.weak + 1), Strong, Weak)
       case Release => (b.(shared := b.shared - 1), if b.shared - 1 == -1 then OnZeroShared else Empty, Empty)
       case StartLock => (b, Strong, Empty))
    case Weak =>
      (match a
       case CopyShared => (b, Weak, Empty)
       case CopyWeak => (b.(weak := b.weak + 1), Weak, Weak)
       case Release => (b, ReleaseWeak, Empty)
       case StartLock => (b, Locking(b.shared), Empty))
    case Locking(seen) =>
      if seen == -1 then (b, Weak, Empty)
      else if b.shared == seen then (b.(shared := seen + 1), Weak, Strong)
      else (b, Locking(b.shared), Empty)
    case OnZeroShared => (b.(objectGone := b.objectGone + 1), ReleaseWeak, Empty)
    case ReleaseWeak => (b, if b.weak == 0 then Destroying(false) else DecrementWeak, Empty)
    case DecrementWeak => (b.(weak := b.weak - 1), if b.weak - 1 == -1 then Destroying(true) else Empty, Empty)
    case Destroying(_) => (b.(blockGone := b.blockGone + 1), Empty, Empty)
  }

  /** A step of slot i that may fill the empty slot j. */
  predicate Possible(s: State, i: nat, j: nat) {
    i < |s.slots| && j < |s.slots| && i != j && s.slots[j] == Empty
  }

  function Turn(s: State, i: nat, j: nat, a: Action): State
    requires Possible(s, i, j)
  {
    var (b, slot, copy) := Effect(s.block, s.slots[i], a);
    State(b, s.slots[i := slot][j := copy])
  }

  /** One strong handle at first. */
  predicate Initial(s: State) {
    s.block == Block(0, 0, 0, 0) && s.slots != [] && s.slots[0] == Strong && forall i | 0 < i < |s.slots| :: s.slots[i] == Empty
  }

  ghost predicate Next(s: State, r: State) {
    exists i: nat, j: nat, a :: Possible(s, i, j) && r == Turn(s, i, j, a)
  }

  ghost predicate IsRun(run: seq<State>) {
    run != [] && Initial(run[0]) && forall i | 0 < i < |run| :: Next(run[i - 1], run[i])
  }

  // ----- how many of each kind

  /** Strong handles, weak shares, the two ways of destroying the block, and objects being destroyed. */
  datatype Tally = Tally(strong: nat, weak: nat, seen: nat, decremented: nat, onZero: nat)

  function Plus(a: Tally, b: Tally): Tally {
    Tally(a.strong + b.strong, a.weak + b.weak, a.seen + b.seen, a.decremented + b.decremented, a.onZero + b.onZero)
  }

  function Of(slot: Slot): Tally {
    match slot
    case Empty => Tally(0, 0, 0, 0, 0)
    case Strong => Tally(1, 0, 0, 0, 0)
    case Weak => Tally(0, 1, 0, 0, 0)
    case Locking(_) => Tally(0, 1, 0, 0, 0)
    case OnZeroShared => Tally(0, 1, 0, 0, 1)
    case ReleaseWeak => Tally(0, 1, 0, 0, 0)
    case DecrementWeak => Tally(0, 1, 0, 0, 0)
    case Destroying(d) => if d then Tally(0, 0, 0, 1, 0) else Tally(0, 0, 1, 0, 0)
  }

  function Total(slots: seq<Slot>): Tally {
    if slots == [] then Of(Empty) else Plus(Of(slots[0]), Total(slots[1..]))
  }

  lemma {:induction false} TotalUpdate(slots: seq<Slot>, i: nat, slot: Slot)
    requires i < |slots|
    ensures Plus(Total(slots[i := slot]), Of(slots[i])) == Plus(Total(slots), Of(slot))
  {
    if i > 0 {
      TotalUpdate(slots[1..], i - 1, slot);
      assert slots[i := slot][1..] == slots[1..][i - 1 := slot];
    } else {
      assert slots[i := slot][1..] == slots[1..];
    }
  }

  // ----- the invariant

  /** The counters are one less than the shares; the strong handles together have one weak share. */
  predicate Inv(b: Block, n: Tally) {
    && b.shared + 1 == n.strong
    && b.objectGone + n.onZero == (if n.strong == 0 then 1 else 0)
    && b.blockGone + n.seen + n.decremented == (if n.strong == 0 && n.weak == 0 then 1 else 0)
    && (b.blockGone == 0 ==> b.weak + 1 == n.weak + n.seen + if n.strong > 0 then 1 else 0)
  }

  predicate SeenInv(slots: seq<Slot>) {
    forall i | 0 <= i < |slots| && slots[i].Locking? :: slots[i].seen >= -1
  }

  predicate StateInv(s: State) {
    Inv(s.block, Total(s.slots)) && SeenInv(s.slots)
  }

  /** others is what the other slots hold. */
  lemma StepKeepsInv(b: Block, others: Tally, slot: Slot, a: Action)
    requires Inv(b, Plus(others, Of(slot))) && (slot.Locking? ==> slot.seen >= -1)
    ensures var (c, next, copy) := Effect(b, slot, a);
      Inv(c, Plus(Plus(others, Of(next)), Of(copy)))
      && (next.Locking? ==> next.seen >= -1) && !copy.Locking?
  {
  }

  /** What the other slots hold. */
  function Others(slots: seq<Slot>, i: nat): Tally
    requires i < |slots|
  {
    Total(slots[i := Empty])
  }

  lemma TurnKeepsInv(s: State, i: nat, j: nat, a: Action)
    requires StateInv(s) && Possible(s, i, j)
    ensures StateInv(Turn(s, i, j, a))
  {
    var (b, next, copy) := Effect(s.block, s.slots[i], a);
    TotalUpdate(s.slots, i, Empty);
    assert Total(s.slots) == Plus(Others(s.slots, i), Of(s.slots[i]));
    StepKeepsInv(s.block, Others(s.slots, i), s.slots[i], a);
    TotalUpdate(s.slots, i, next);
    TotalUpdate(s.slots[i := next], j, copy);
  }

  /** The step that led to state k. */
  lemma StepBefore(run: seq<State>, k: nat) returns (i: nat, j: nat, a: Action)
    requires IsRun(run) && 0 < k < |run|
    ensures Possible(run[k - 1], i, j) && run[k] == Turn(run[k - 1], i, j, a)
  {
    hide Effect;
    assert Next(run[k - 1], run[k]);
    i, j, a :| Possible(run[k - 1], i, j) && run[k] == Turn(run[k - 1], i, j, a);
  }

  lemma OnlyFirst(slots: seq<Slot>)
    requires slots != [] && forall i | 0 < i < |slots| :: slots[i] == Empty
    ensures Total(slots) == Of(slots[0])
  {
    NothingElse(slots[1..]);
  }

  lemma InitialInv(s: State)
    requires Initial(s)
    ensures StateInv(s)
  {
    hide Total;
    OnlyFirst(s.slots);
  }

  lemma {:induction false} RunKeepsInv(run: seq<State>, k: nat)
    requires IsRun(run) && k < |run|
    ensures StateInv(run[k])
  {
    hide StateInv, Turn;
    if k == 0 {
      InitialInv(run[0]);
    } else {
      RunKeepsInv(run, k - 1);
      var i, j, a := StepBefore(run, k);
      TurnKeepsInv(run[k - 1], i, j, a);
    }
  }

  lemma {:induction false} NothingElse(slots: seq<Slot>)
    requires forall i | 0 <= i < |slots| :: slots[i] == Empty
    ensures Total(slots) == Of(Empty)
  {
    if slots != [] { NothingElse(slots[1..]); }
  }

  // ----- what holds in every run

  lemma {:induction false} SlotInTotal(slots: seq<Slot>, i: nat)
    requires i < |slots|
    ensures var n, m := Total(slots), Of(slots[i]);
      m.strong <= n.strong && m.weak <= n.weak && m.seen <= n.seen && m.decremented <= n.decremented && m.onZero <= n.onZero
  {
    TotalUpdate(slots, i, Empty);
  }

  /** The counters are what they are documented to be: one less than the number of owners. */
  lemma CountersCount(run: seq<State>, k: nat)
    requires IsRun(run) && k < |run|
    ensures var b, n := run[k].block, Total(run[k].slots);
      && b.shared + 1 == n.strong
      && (n.strong + n.weak > 0 ==> b.weak + 1 == n.weak + if n.strong > 0 then 1 else 0)
  {
    RunKeepsInv(run, k);
  }

  /** The object is destroyed at most once, and lives while there is a strong handle; the same for the block and any handle. */
  lemma DestroyedOnce(run: seq<State>, k: nat, i: nat)
    requires IsRun(run) && k < |run| && i < |run[k].slots|
    ensures run[k].block.blockGone <= run[k].block.objectGone <= 1
    ensures run[k].slots[i] == Strong ==> run[k].block.objectGone == 0
    ensures run[k].slots[i] != Empty ==> run[k].block.blockGone == 0
    ensures run[k].slots[i].Destroying? ==> run[k].block.objectGone == 1
  {
    RunKeepsInv(run, k);
    SlotInTotal(run[k].slots, i);
    OnZeroIsWeak(run[k].slots);
  }

  /** Whoever is destroying the object still has a weak share. */
  lemma {:induction false} OnZeroIsWeak(slots: seq<Slot>)
    ensures Total(slots).onZero <= Total(slots).weak
  {
    if slots != [] { OnZeroIsWeak(slots[1..]); }
  }

  /** Nothing leaks: when the last handle is gone, so are the object and the block. */
  lemma NothingLeaks(run: seq<State>, k: nat)
    requires IsRun(run) && k < |run| && forall i | 0 <= i < |run[k].slots| :: run[k].slots[i] == Empty
    ensures run[k].block.objectGone == 1 && run[k].block.blockGone == 1
  {
    RunKeepsInv(run, k);
    NothingElse(run[k].slots);
  }

  /** Whoever sees that the weak count is 0 while releasing a weak share is the only one left. */
  lemma FastPathIsSafe(run: seq<State>, k: nat, i: nat, j: nat)
    requires IsRun(run) && k < |run| && i < |run[k].slots| && j < |run[k].slots| && i != j
    requires run[k].slots[i] == ReleaseWeak && run[k].block.weak == 0
    ensures run[k].slots[j] == Empty
  {
    RunKeepsInv(run, k);
    var slots := run[k].slots;
    TotalUpdate(slots, i, Empty);
    SlotInTotal(slots[i := Empty], j);
  }

  /** Once there is no owner, lock never makes one. */
  lemma {:induction false} NeverRevived(run: seq<State>, j: nat, k: nat)
    requires IsRun(run) && j <= k < |run| && run[j].block.shared == -1
    ensures run[k].block.shared == -1 && forall i | 0 <= i < |run[k].slots| :: run[k].slots[i] != Strong
    decreases k
  {
    RunKeepsInv(run, k);
    forall i: nat | i < |run[k].slots| { SlotInTotal(run[k].slots, i); }
    if j < k {
      NeverRevived(run, j, k - 1);
      var i, e, a := StepBefore(run, k);
      assert run[k - 1].slots[i] != Strong;
    }
  }

  // ----- what each operation achieves

  lemma {:induction false} StrongAre(slots: seq<Slot>)
    ensures Total(slots).strong > 0 <==> Strong in slots
  {
    if slots != [] { StrongAre(slots[1..]); }
  }

  /** A copy of a strong handle is a strong one, a weak copy of any handle a weak one, and the object's owners are one more. */
  lemma CopiesAreHandles(s: State, i: nat, j: nat, a: Action)
    requires Possible(s, i, j)
    ensures var r := Turn(s, i, j, a);
      && (s.slots[i] == Strong && a == CopyShared ==>
            r.slots == s.slots[j := Strong] && r.block == s.block.(shared := s.block.shared + 1))
      && ((s.slots[i] == Strong || s.slots[i] == Weak) && a == CopyWeak ==>
            r.slots == s.slots[j := Weak] && r.block == s.block.(weak := s.block.weak + 1))
  {
  }

  /** A step after which slot k has read -1. */
  lemma ReadsNoOwner(s: State, i: nat, j: nat, a: Action, k: nat)
    requires Possible(s, i, j) && k < |s.slots| && Turn(s, i, j, a).slots[k] == Locking(-1)
    ensures s.slots[k] == Locking(-1) || (s.block.shared == -1 && Turn(s, i, j, a).block == s.block)
  {
  }

  lemma {:induction false} NoOwnerIsRead(run: seq<State>, k: nat, i: nat)
    requires IsRun(run) && k < |run| && i < |run[k].slots| && run[k].slots[i] == Locking(-1)
    ensures run[k].block.shared == -1
  {
    if k > 0 {
      hide Effect, IsRun;
      var m, e, a := StepBefore(run, k);
      ReadsNoOwner(run[k - 1], m, e, a, i);
      if run[k - 1].slots[i] == Locking(-1) {
        NoOwnerIsRead(run, k - 1, i);
        NeverRevived(run, k - 1, k);
      }
    }
  }

  /** Whoever has read that there is no owner gives up rightly: there is none, so that there will be none again. */
  lemma GivesUpRightly(run: seq<State>, k: nat, i: nat)
    requires IsRun(run) && k < |run| && i < |run[k].slots| && run[k].slots[i] == Locking(-1)
    ensures Strong !in run[k].slots && run[k].block.shared == -1
  {
    hide IsRun, Total;
    NoOwnerIsRead(run, k, i);
    RunKeepsInv(run, k);
    StrongAre(run[k].slots);
  }

  /**
   * lock reads how many owners there are. While there is none it gives up; if there are still as many as it has read it
   * makes one more, in the empty slot; and only if they have changed it reads them again.
   */
  lemma LockSucceeds(run: seq<State>, k: nat, i: nat, j: nat, a: Action)
    requires IsRun(run) && k < |run| && Possible(run[k], i, j)
    ensures var s, r, n := run[k], Turn(run[k], i, j, a), Total(run[k].slots).strong;
      && (s.slots[i] == Weak && a == StartLock ==> r == s.(slots := s.slots[i := Locking(n - 1)]))
      && (s.slots[i].Locking? ==>
            if s.slots[i].seen == n - 1 then
              r.slots == (if Strong in s.slots then s.slots[i := Weak][j := Strong] else s.slots[i := Weak])
            else r == s.(slots := s.slots[i := Locking(n - 1)]))
  {
    RunKeepsInv(run, k);
    StrongAre(run[k].slots);
    var s := run[k];
    if s.slots[i].Locking? && s.slots[i].seen == -1 { GivesUpRightly(run, k, i); }
  }

  /** How far a handle that is given up has to go. */
  function Rank(slot: Slot): nat {
    match slot
    case OnZeroShared => 4
    case ReleaseWeak => 3
    case DecrementWeak => 2
    case Destroying(_) => 1
    case Empty => 0
    case _ => 5
  }

  /** With each of its steps a handle that is given up comes nearer to being gone, on the way through the two destructions. */
  lemma ReleasesEnd(s: State, i: nat, j: nat, a: Action)
    requires Possible(s, i, j) && s.slots[i] != Empty && (s.slots[i] == Strong || s.slots[i] == Weak ==> a == Release)
    requires !s.slots[i].Locking?
    ensures var r := Turn(s, i, j, a);
      && Rank(r.slots[i]) < Rank(s.slots[i]) && r.slots == s.slots[i := r.slots[i]]
      && r.block.objectGone == s.block.objectGone + (if s.slots[i] == OnZeroShared then 1 else 0)
      && r.block.blockGone == s.block.blockGone + (if s.slots[i].Destroying? then 1 else 0)
      && (s.slots[i] == Weak || s.slots[i] == OnZeroShared ==> r.slots[i] == ReleaseWeak)
  {
  }

  lemma OnlyOne(slots: seq<Slot>, i: nat)
    requires i < |slots| && forall m | 0 <= m < |slots| && m != i :: slots[m] == Empty
    ensures Total(slots) == Of(slots[i])
  {
    hide Total;
    TotalUpdate(slots, i, Empty);
    NothingElse(slots[i := Empty]);
  }

  lemma LastShare(b: Block)
    requires Inv(b, Of(ReleaseWeak))
    ensures b.weak == 0
  {
  }

  /** The last share of the block is given back without an atomic decrement. */
  lemma FastPathIsTaken(run: seq<State>, k: nat, i: nat, j: nat, a: Action)
    requires IsRun(run) && k < |run| && Possible(run[k], i, j) && run[k].slots[i] == ReleaseWeak
    requires forall m | 0 <= m < |run[k].slots| && m != i :: run[k].slots[m] == Empty
    ensures Turn(run[k], i, j, a).block == run[k].block && Turn(run[k], i, j, a).slots[i] == Destroying(false)
  {
    hide IsRun, Total, Inv, Of, SeenInv;
    RunKeepsInv(run, k);
    OnlyOne(run[k].slots, i);
    LastShare(run[k].block);
  }
}
