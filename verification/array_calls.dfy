/** The calls that creating and destroying an array makes, and what they leave alive. */
module ArrayCalls {
  import opened Wrappers

  const WORD: int := 0x1_0000_0000_0000_0000

  /** A call that the runtime has made; the Threw forms did not return. */
  datatype Call =
    | Constructed(at: int, source: Option<int>)
    | ConstructorThrew(at: int, source: Option<int>)
    | Destroyed(at: int)
    | DestructorThrew(at: int)
    | Allocated(at: int, size: nat)
    | Freed(at: int)
    | FreedSized(at: int, size: nat)

  /** throwing[k]: the call that is logged at position k throws. */
  predicate Throws(throwing: seq<bool>, k: nat) {
    k < |throwing| && throwing[k]
  }

  datatype Outcome = Returned | Threw | Terminated

  /** The offset of element i from the first one. */
  function Offset(size: nat, i: nat): nat {
    if i == 0 then 0 else Offset(size, i - 1) + size
  }

  lemma {:induction false} OffsetIsProduct(size: nat, i: nat)
    ensures Offset(size, i) == i * size
  {
    if i > 0 { OffsetIsProduct(size, i - 1); }
  }

  function ElementAt(base: int, size: nat, i: nat): int {
    base + Offset(size, i)
  }

  // ----- destruction, from the last element to the first

  function DestructorCall(at: int, throws: bool): Call {
    if throws then DestructorThrew(at) else Destroyed(at)
  }

  /** The first m calls of the destruction of n elements; the log has length start before them. */
  function Destruction(throwing: seq<bool>, start: nat, base: int, size: nat, n: nat, m: nat): (s: seq<Call>)
    requires m <= n
    ensures |s| == m
  {
    if m == 0 then []
    else Destruction(throwing, start, base, size, n, m - 1)
         + [DestructorCall(ElementAt(base, size, n - m), Throws(throwing, start + m - 1))]
  }

  /** How many of the n calls from start on throw. */
  function ThrowCount(throwing: seq<bool>, start: nat, n: nat): (c: nat)
    ensures c <= n
  {
    if n == 0 then 0
    else ThrowCount(throwing, start, n - 1) + if Throws(throwing, start + n - 1) then 1 else 0
  }

  /**
   * n elements are to be destroyed and `allowed` exceptions are survived. Either every element's destructor is
   * called once, or the calls stop with the exception that is one too many.
   */
  predicate IsDestruction(throwing: seq<bool>, before: seq<Call>, after: seq<Call>,
                          base: int, size: nat, n: nat, allowed: nat, outcome: Outcome) {
    if ThrowCount(throwing, |before|, n) <= allowed then
      && after == before + Destruction(throwing, |before|, base, size, n, n)
      && outcome == (if ThrowCount(throwing, |before|, n) == 0 then Returned else Threw)
    else
      && outcome == Terminated && |before| < |after| <= |before| + n
      && var m := |after| - |before|;
      && after == before + Destruction(throwing, |before|, base, size, n, m)
      && ThrowCount(throwing, |before|, m) == allowed + 1
      && Throws(throwing, |before| + m - 1)
  }

  lemma {:induction false} ThrowCountGrows(throwing: seq<bool>, start: nat, m: nat, n: nat)
    requires m <= n
    ensures ThrowCount(throwing, start, m) <= ThrowCount(throwing, start, n)
  {
    if m < n { ThrowCountGrows(throwing, start, m, n - 1); }
  }

  /** The count is 0 exactly if none of the calls throws. */
  lemma {:induction false} NoThrow(throwing: seq<bool>, start: nat, n: nat)
    ensures ThrowCount(throwing, start, n) == 0 <==> forall p | start <= p < start + n :: !Throws(throwing, p)
  {
    if n > 0 { NoThrow(throwing, start, n - 1); }
  }

  /** The k-th call is for the k-th element from the end. */
  lemma {:induction false} DestructionAt(throwing: seq<bool>, start: nat, base: int, size: nat, n: nat, m: nat, k: nat)
    requires k < m <= n
    ensures Destruction(throwing, start, base, size, n, m)[k]
         == if Throws(throwing, start + k) then DestructorThrew(base + (n - 1 - k) * size)
            else Destroyed(base + (n - 1 - k) * size)
  {
    if k < m - 1 { DestructionAt(throwing, start, base, size, n, m - 1, k); } else { OffsetIsProduct(size, n - 1 - k); }
  }

  /**
   * A destruction returns exactly if no destructor throws, and terminates exactly if one exception too many is thrown:
   * then the call that throws it is the last one.
   */
  lemma DestructionEnds(throwing: seq<bool>, before: seq<Call>, after: seq<Call>,
                        base: int, size: nat, n: nat, allowed: nat, outcome: Outcome)
    requires IsDestruction(throwing, before, after, base, size, n, allowed, outcome)
    ensures outcome == Returned <==> forall p | |before| <= p < |before| + n :: !Throws(throwing, p)
    ensures outcome == Terminated <==> ThrowCount(throwing, |before|, n) > allowed
    ensures outcome != Terminated ==> |after| == |before| + n
    ensures outcome == Terminated ==>
      && |before| < |after| <= |before| + n && Throws(throwing, |after| - 1)
      && ThrowCount(throwing, |before|, |after| - |before| - 1) == allowed
    ensures before <= after && forall k | |before| <= k < |after| ::
              after[k] == if Throws(throwing, k) then DestructorThrew(base + (n - 1 - (k - |before|)) * size)
                          else Destroyed(base + (n - 1 - (k - |before|)) * size)
  {
    NoThrow(throwing, |before|, n);
    var m := |after| - |before|;
    forall k | |before| <= k < |after|
      ensures after[k] == if Throws(throwing, k) then DestructorThrew(base + (n - 1 - (k - |before|)) * size)
                          else Destroyed(base + (n - 1 - (k - |before|)) * size)
    {
      DestructionAt(throwing, |before|, base, size, n, m, k - |before|);
    }
  }

  // ----- construction, from the first element to the last

  function SourceOf(source: Option<int>, offset: int): Option<int> {
    match source case None => None case Some(s) => Some(s + offset)
  }

  function Construction(base: int, source: Option<int>, size: nat, n: nat): (s: seq<Call>)
    ensures |s| == n
  {
    if n == 0 then []
    else Construction(base, source, size, n - 1)
         + [Constructed(ElementAt(base, size, n - 1), SourceOf(source, Offset(size, n - 1)))]
  }

  /** The k-th call is for the k-th element, with the k-th of the source. */
  lemma {:induction false} ConstructionAt(base: int, source: Option<int>, size: nat, n: nat, k: nat)
    requires k < n
    ensures Construction(base, source, size, n)[k]
         == Constructed(base + k * size, if source.Some? then Some(source.value + k * size) else None)
  {
    if k < n - 1 { ConstructionAt(base, source, size, n - 1, k); } else { OffsetIsProduct(size, k); }
  }

  /** The first k calls return and the next one throws. */
  predicate FirstThrow(throwing: seq<bool>, start: nat, k: nat) {
    ThrowCount(throwing, start, k) == 0 && Throws(throwing, start + k)
  }

  /**
   * n elements are to be constructed. Without an exception all are. When the constructor of element k throws,
   * elements k-1 down to 0 are destroyed if there is a destructor.
   */
  ghost predicate IsConstruction(throwing: seq<bool>, before: seq<Call>, after: seq<Call>, base: int,
                                 source: Option<int>, size: nat, n: nat, destructor: bool, outcome: Outcome) {
    if ThrowCount(throwing, |before|, n) == 0 then
      after == before + Construction(base, source, size, n) && outcome == Returned
    else
      exists k | 0 <= k < n :: FirstThrow(throwing, |before|, k) && IsUndone(throwing, before, after, base, source, size, k, destructor, outcome)
  }

  predicate IsUndone(throwing: seq<bool>, before: seq<Call>, after: seq<Call>, base: int,
                     source: Option<int>, size: nat, k: nat, destructor: bool, outcome: Outcome) {
    var failed := before + (Construction(base, source, size, k)
                            + [ConstructorThrew(ElementAt(base, size, k), SourceOf(source, Offset(size, k)))]);
    if destructor then
      exists o :: IsDestruction(throwing, failed, after, base, size, k, 0, o)
                  && outcome == (if o == Returned then Threw else o)
    else after == failed && outcome == Threw
  }

  // ----- what is alive

  function LiveWith(live: multiset<int>, c: Call): multiset<int> {
    match c
    case Constructed(a, _) => live + multiset{a}
    case Destroyed(a) => live - multiset{a}
    case DestructorThrew(a) => live - multiset{a}
    case _ => live
  }

  function Live(log: seq<Call>): multiset<int> {
    if log == [] then multiset{} else LiveWith(Live(log[..|log| - 1]), log[|log| - 1])
  }

  function Elements(base: int, size: nat, n: nat): multiset<int> {
    if n == 0 then multiset{} else Elements(base, size, n - 1) + multiset{ElementAt(base, size, n - 1)}
  }

  lemma LiveAfterOne(log: seq<Call>, c: Call)
    ensures Live(log + [c]) == LiveWith(Live(log), c)
  {
    assert (log + [c])[..|log|] == log;
  }

  lemma LiveAfter(log: seq<Call>, s: seq<Call>, c: Call, s': seq<Call>)
    requires s' == s + [c]
    ensures Live(log + s') == LiveWith(Live(log + s), c)
  {
    hide Live, LiveWith;
    LiveAfterOne(log + s, c);
    assert log + s' == log + s + [c];
  }

  lemma {:induction false} LiveAfterConstruction(log: seq<Call>, base: int, source: Option<int>, size: nat, n: nat)
    ensures Live(log + Construction(base, source, size, n)) == Live(log) + Elements(base, size, n)
  {
    if n == 0 {
      assert log + Construction(base, source, size, n) == log;
    } else {
      LiveAfterConstruction(log, base, source, size, n - 1);
      LiveAfter(log, Construction(base, source, size, n - 1),
                Constructed(ElementAt(base, size, n - 1), SourceOf(source, Offset(size, n - 1))),
                Construction(base, source, size, n));
    }
  }

  /** After the calls s, `left` elements and the rest are alive. */
  predicate Leaves(log: seq<Call>, s: seq<Call>, rest: multiset<int>, base: int, size: nat, left: nat) {
    Live(log + s) == rest + Elements(base, size, left)
  }

  lemma LeavesOneLess(log: seq<Call>, s: seq<Call>, s': seq<Call>, rest: multiset<int>, throws: bool,
                      base: int, size: nat, left: nat)
    requires s' == s + [DestructorCall(ElementAt(base, size, left), throws)]
    requires Leaves(log, s, rest, base, size, left + 1)
    ensures Leaves(log, s', rest, base, size, left)
  {
    LiveAfter(log, s, DestructorCall(ElementAt(base, size, left), throws), s');
  }

  lemma LeavesAll(log: seq<Call>, rest: multiset<int>, base: int, size: nat, n: nat)
    requires Live(log) == rest + Elements(base, size, n)
    ensures Leaves(log, [], rest, base, size, n)
  {
    assert log + [] == log;
  }

  lemma NextDestruction(throwing: seq<bool>, start: nat, log: seq<Call>, rest: multiset<int>,
                        base: int, size: nat, n: nat, m: nat)
    requires m < n
    requires Leaves(log, Destruction(throwing, start, base, size, n, m), rest, base, size, n - m)
    ensures Leaves(log, Destruction(throwing, start, base, size, n, m + 1), rest, base, size, n - m - 1)
  {
    LeavesOneLess(log, Destruction(throwing, start, base, size, n, m), Destruction(throwing, start, base, size, n, m + 1),
                  rest, Throws(throwing, start + m), base, size, n - m - 1);
  }

  /** Destroying from the last element on leaves the elements that were not reached. */
  lemma {:induction false} DestructionLeaves(throwing: seq<bool>, start: nat, log: seq<Call>, rest: multiset<int>,
                                             base: int, size: nat, n: nat, m: nat)
    requires m <= n && Leaves(log, [], rest, base, size, n)
    ensures Leaves(log, Destruction(throwing, start, base, size, n, m), rest, base, size, n - m)
    decreases m
  {
    hide Live, Elements, Leaves;
    if m > 0 {
      DestructionLeaves(throwing, start, log, rest, base, size, n, m - 1);
      NextDestruction(throwing, start, log, rest, base, size, n, m - 1);
    }
  }

  lemma LiveAfterDestruction(throwing: seq<bool>, start: nat, log: seq<Call>, rest: multiset<int>,
                             base: int, size: nat, n: nat)
    requires Live(log) == rest + Elements(base, size, n)
    ensures Live(log + Destruction(throwing, start, base, size, n, n)) == rest
  {
    LeavesAll(log, rest, base, size, n);
    DestructionLeaves(throwing, start, log, rest, base, size, n, n);
  }

  /** All elements are constructed exactly if no constructor throws, and else none is left when there is a destructor. */
  lemma FailedConstructionLeavesNothing(throwing: seq<bool>, before: seq<Call>, after: seq<Call>, base: int,
                                        source: Option<int>, size: nat, n: nat, outcome: Outcome)
    requires IsConstruction(throwing, before, after, base, source, size, n, true, outcome)
    ensures outcome == Returned <==> forall p | |before| <= p < |before| + n :: !Throws(throwing, p)
    ensures outcome == Returned ==> Live(after) == Live(before) + Elements(base, size, n)
    ensures outcome == Threw ==> Live(after) == Live(before)
  {
    NoThrow(throwing, |before|, n);
    if ThrowCount(throwing, |before|, n) == 0 {
      LiveAfterConstruction(before, base, source, size, n);
    } else {
      var k :| 0 <= k < n && FirstThrow(throwing, |before|, k)
               && IsUndone(throwing, before, after, base, source, size, k, true, outcome);
      var built := Construction(base, source, size, k);
      var failed := built + [ConstructorThrew(ElementAt(base, size, k), SourceOf(source, Offset(size, k)))];
      LiveAfterConstruction(before, base, source, size, k);
      LiveAfter(before, built, failed[k], failed);
      if outcome == Threw {
        LiveAfterDestruction(throwing, |before + failed|, before + failed, Live(before), base, size, k);
      }
    }
  }

  /** Without a destructor the elements before the one whose constructor throws stay, and nothing terminates. */
  lemma FailedConstructionLeavesSome(throwing: seq<bool>, before: seq<Call>, after: seq<Call>, base: int,
                                     source: Option<int>, size: nat, n: nat, outcome: Outcome) returns (k: nat)
    requires IsConstruction(throwing, before, after, base, source, size, n, false, outcome)
    ensures outcome == (if forall p | |before| <= p < |before| + n :: !Throws(throwing, p) then Returned else Threw)
    ensures k <= n && (forall p | |before| <= p < |before| + k :: !Throws(throwing, p))
    ensures if outcome == Returned then k == n else k < n && Throws(throwing, |before| + k)
    ensures Live(after) == Live(before) + Elements(base, size, k)
  {
    hide Live, LiveWith, Elements, ThrowCount, Construction;
    NoThrow(throwing, |before|, n);
    if ThrowCount(throwing, |before|, n) == 0 {
      k := n;
      LiveAfterConstruction(before, base, source, size, n);
    } else {
      k :| 0 <= k < n && FirstThrow(throwing, |before|, k)
           && IsUndone(throwing, before, after, base, source, size, k, false, outcome);
      NoThrow(throwing, |before|, k);
      var built := Construction(base, source, size, k);
      var failed := built + [ConstructorThrew(ElementAt(base, size, k), SourceOf(source, Offset(size, k)))];
      LiveAfterConstruction(before, base, source, size, k);
      LiveWithFailed(before + built, ElementAt(base, size, k), SourceOf(source, Offset(size, k)));
      assert before + built + [failed[k]] == before + failed;
    }
  }

  lemma LiveWithFailed(log: seq<Call>, at: int, source: Option<int>)
    ensures Live(log + [ConstructorThrew(at, source)]) == Live(log)
  {
    LiveAfterOne(log, ConstructorThrew(at, source));
  }

  /** A destruction that does not terminate the program leaves none of the elements. */
  lemma DestructionLeavesNothing(throwing: seq<bool>, before: seq<Call>, after: seq<Call>, rest: multiset<int>,
                                 base: int, size: nat, n: nat, allowed: nat, outcome: Outcome)
    requires IsDestruction(throwing, before, after, base, size, n, allowed, outcome)
    requires Live(before) == rest + Elements(base, size, n)
    ensures outcome != Terminated ==> Live(after) == rest
  {
    if outcome != Terminated { LiveAfterDestruction(throwing, |before|, before, rest, base, size, n); }
  }

  // ----- the storage

  predicate IsElementCall(c: Call) {
    !c.Allocated? && !c.Freed? && !c.FreedSized?
  }

  function BlocksWith(blocks: map<int, nat>, c: Call): map<int, nat> {
    match c
    case Allocated(a, size) => blocks[a := size]
    case Freed(a) => blocks - {a}
    case FreedSized(a, _) => blocks - {a}
    case _ => blocks
  }

  /** The blocks that are not freed yet and their sizes. */
  function Blocks(log: seq<Call>): map<int, nat> {
    if log == [] then map[] else BlocksWith(Blocks(log[..|log| - 1]), log[|log| - 1])
  }

  lemma BlocksAfter(log: seq<Call>, c: Call)
    ensures Blocks(log + [c]) == BlocksWith(Blocks(log), c)
  {
    assert (log + [c])[..|log|] == log;
  }

  lemma {:induction false} ElementCallsKeepBlocks(log: seq<Call>, s: seq<Call>)
    requires forall c | c in s :: IsElementCall(c)
    ensures Blocks(log + s) == Blocks(log)
  {
    hide Blocks;
    if s == [] {
      assert log + s == log;
    } else {
      var n := |s| - 1;
      ElementCallsKeepBlocks(log, s[..n]);
      BlocksAfter(log + s[..n], s[n]);
      assert s[n] in s;
      assert log + s == log + s[..n] + [s[n]];
    }
  }

  lemma {:induction false} ConstructionIsOfElements(base: int, source: Option<int>, size: nat, n: nat)
    ensures forall c | c in Construction(base, source, size, n) :: IsElementCall(c)
  {
    if n > 0 { ConstructionIsOfElements(base, source, size, n - 1); }
  }

  lemma {:induction false} DestructionIsOfElements(throwing: seq<bool>, start: nat, base: int, size: nat, n: nat, m: nat)
    requires m <= n
    ensures forall c | c in Destruction(throwing, start, base, size, n, m) :: IsElementCall(c)
  {
    if m > 0 { DestructionIsOfElements(throwing, start, base, size, n, m - 1); }
  }

  lemma DestructionKeepsBlocks(throwing: seq<bool>, before: seq<Call>, after: seq<Call>,
                               base: int, size: nat, n: nat, allowed: nat, outcome: Outcome)
    requires IsDestruction(throwing, before, after, base, size, n, allowed, outcome)
    ensures Blocks(after) == Blocks(before)
  {
    var m := if outcome == Terminated then |after| - |before| else n;
    DestructionIsOfElements(throwing, |before|, base, size, n, m);
    ElementCallsKeepBlocks(before, Destruction(throwing, |before|, base, size, n, m));
  }

  lemma ConstructionKeepsBlocks(throwing: seq<bool>, before: seq<Call>, after: seq<Call>, base: int,
                                source: Option<int>, size: nat, n: nat, destructor: bool, outcome: Outcome)
    requires IsConstruction(throwing, before, after, base, source, size, n, destructor, outcome)
    ensures Blocks(after) == Blocks(before)
  {
    if ThrowCount(throwing, |before|, n) == 0 {
      ConstructionIsOfElements(base, source, size, n);
      ElementCallsKeepBlocks(before, Construction(base, source, size, n));
    } else {
      var k :| 0 <= k < n && FirstThrow(throwing, |before|, k)
               && IsUndone(throwing, before, after, base, source, size, k, destructor, outcome);
      ConstructionIsOfElements(base, source, size, k);
      var failed := Construction(base, source, size, k)
                    + [ConstructorThrew(ElementAt(base, size, k), SourceOf(source, Offset(size, k)))];
      ElementCallsKeepBlocks(before, failed);
      if destructor {
        var o :| IsDestruction(throwing, before + failed, after, base, size, k, 0, o)
                 && outcome == (if o == Returned then Threw else o);
        DestructionKeepsBlocks(throwing, before + failed, after, base, size, k, 0, o);
      }
    }
  }
}
