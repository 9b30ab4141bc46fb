/** Array construction and destruction: section 3.3.3 of the Itanium C++ ABI. */
module ArrayLifecycle {
  import opened ArrayCalls
  import opened Primes
  import opened Remainders
  import opened Wrappers

  // ----- the size of the allocation

  lemma CancelLess(x: nat, q: int, y: int)
    requires x * q < x * y
    ensures q < y
  {
    if y <= q { MulGrows(y, q, x); }
  }

  lemma QuotientLess(r: nat, x: nat, y: nat)
    requires 0 < x && r < x * y
    ensures r / x < y
  {
    assert r == x * (r / x) + r % x;
    CancelLess(x, r / x, y);
  }

  /** A product that wraps is too small: dividing it does not give the factor back. */
  lemma OverflowTest(x: nat, y: nat, res: nat)
    requires res == x * y % WORD
    ensures (x != 0 && res / x != y) <==> x * y >= WORD
    ensures x * y < WORD ==> res == x * y
  {
    if x * y >= WORD {
      assert x != 0;
      QuotientLess(res, x, y);
    } else {
      SameRemainder(WORD, 0, x * y);
      if x != 0 { ModOfMultiple(x, y, 0); }
    }
  }

  /** The product as a machine word, and whether it is not the product. */
  method MulOverflow(x: nat, y: nat) returns (over: bool, res: nat)
    requires x < WORD && y < WORD
    ensures over <==> x * y >= WORD
    ensures res == x * y % WORD && (!over ==> res == x * y)
  {
    res := x * y % WORD;
    over := x != 0 && res / x != y;
    OverflowTest(x, y, res);
  }

  method AddOverflow(x: nat, y: nat) returns (over: bool, res: nat)
    requires x < WORD && y < WORD
    ensures over <==> x + y >= WORD
    ensures res == (x + y) % WORD && (!over ==> res == x + y)
  {
    res := (x + y) % WORD;
    over := res < y;
  }

  /** None stands for std::bad_array_new_length: the size is exact or there is none. */
  method CalculateAllocationSize(count: nat, size: nat, padding: nat) returns (r: Option<nat>)
    requires count < WORD && size < WORD && padding < WORD
    ensures r == if count * size + padding < WORD then Some(count * size + padding) else None
  {
    var over, elements := MulOverflow(count, size);
    if over { return None; }
    var over', total := AddOverflow(elements, padding);
    if over' { return None; }
    return Some(total);
  }

  // ----- the functions, as calls on a runtime that logs them

  /** What the allocation function does. */
  datatype Allocation = AllocThrows | AllocNull | AllocBlock(at: int)

  datatype Creation = Created(at: int) | BadLength | Failed(outcome: Outcome)

  function FreeCall(sized: bool, at: int, size: nat): Call {
    if sized then FreedSized(at, size) else Freed(at)
  }

  /** What follows the construction: when it threw, the block is freed. */
  predicate IsFinished(built: seq<Call>, o: Outcome, after: seq<Call>, base: int, freed: Call, r: Creation) {
    match o
    case Returned => r == Created(base) && after == built
    case Threw => r == Failed(Threw) && after == built + [freed]
    case Terminated => r == Failed(Terminated) && after == built
  }

  ghost predicate IsBuilt(throwing: seq<bool>, start: seq<Call>, after: seq<Call>, base: int, count: nat, size: nat,
                          destructor: bool, freed: Call, r: Creation) {
    exists built, o :: IsConstruction(throwing, start, built, base, None, size, count, destructor, o)
                       && IsFinished(built, o, after, base, freed, r)
  }

  /** The calls that creating an array makes; `sized`: the deallocation function takes the size. */
  ghost predicate IsCreation(throwing: seq<bool>, before: seq<Call>, after: seq<Call>, count: nat, size: nat,
                             padding: nat, construct: bool, destructor: bool, alloc: Allocation, sized: bool,
                             r: Creation) {
    var heapSize := count * size + padding;
    if heapSize >= WORD then r == BadLength && after == before
    else
      match alloc
      case AllocThrows => r == Failed(Threw) && after == before
      case AllocNull => r == Created(0) && after == before
      case AllocBlock(b) =>
        var start := before + [Allocated(b, heapSize)];
        if !construct then r == Created(b + padding) && after == start
        else IsBuilt(throwing, start, after, b + padding, count, size, destructor, FreeCall(sized, b, heapSize), r)
  }

  ghost predicate IsDestroyedAndFreed(throwing: seq<bool>, before: seq<Call>, after: seq<Call>, at: int, n: nat,
                                      size: nat, allowed: nat, freed: Call, outcome: Outcome) {
    exists middle :: IsDestruction(throwing, before, middle, at, size, n, allowed, outcome)
                     && after == if outcome == Terminated then middle else middle + [freed]
  }

  /** The calls that deleting an array of n elements makes. */
  ghost predicate IsDeletion(throwing: seq<bool>, before: seq<Call>, after: seq<Call>, at: int, n: nat, size: nat,
                             padding: nat, destructor: bool, inFlight: bool, sized: bool, outcome: Outcome) {
    var freed := FreeCall(sized, at - padding, (size * n + padding) % WORD);
    if at == 0 then outcome == Returned && after == before
    else if padding != 0 && destructor then
      IsDestroyedAndFreed(throwing, before, after, at, n, size, if inFlight then 0 else 1, freed, outcome)
    else outcome == Returned && after == before + [freed]
  }

  class Runtime {
    const throwing: seq<bool>
    var log: seq<Call>
    /** The number of elements that is stored in front of an array. */
    var cookies: map<int, nat>
    /** What __cxa_uncaught_exception returns when a function of this class is called. */
    var inFlight: bool

    constructor (throwing: seq<bool>)
      ensures this.throwing == throwing && log == [] && cookies == map[] && !inFlight
    {
      this.throwing, log, cookies, inFlight := throwing, [], map[], false;
    }

    method CallDestructor(at: int) returns (throws: bool)
      modifies this`log
      ensures throws == Throws(throwing, |old(log)|)
      ensures log == old(log) + [DestructorCall(at, throws)]
    {
      throws := Throws(throwing, |log|);
      log := log + [DestructorCall(at, throws)];
    }

    method CallConstructor(at: int, source: Option<int>) returns (throws: bool)
      modifies this`log
      ensures throws == Throws(throwing, |old(log)|)
      ensures log == old(log) + [if throws then ConstructorThrew(at, source) else Constructed(at, source)]
    {
      throws := Throws(throwing, |log|);
      log := log + [if throws then ConstructorThrew(at, source) else Constructed(at, source)];
    }

    /** Destroys from the last element on; an exception terminates. */
    method VecCleanup(base: int, count: nat, size: nat, destructor: bool) returns (outcome: Outcome)
      modifies this`log
      ensures !destructor ==> outcome == Returned && log == old(log)
      ensures destructor ==> IsDestruction(throwing, old(log), log, base, size, count, 0, outcome)
    {
      if !destructor { return Returned; }
      var ptr := base + count * size;
      OffsetIsProduct(size, count);
      var idx: nat := count;
      while idx > 0
        invariant idx <= count && ptr == ElementAt(base, size, idx)
        invariant log == old(log) + Destruction(throwing, |old(log)|, base, size, count, count - idx)
        invariant ThrowCount(throwing, |old(log)|, count - idx) == 0
      {
        idx := idx - 1;
        ptr := ptr - size;
        var throws := CallDestructor(ptr);
        if throws {
          ThrowCountGrows(throwing, |old(log)|, count - idx, count);
          return Terminated;
        }
      }
      return Returned;
    }

    /**
     * An exception of a destructor ends the loop. If another one is in flight that terminates; otherwise the
     * elements that are left are cleaned up while it propagates.
     */
    method VecDtor(base: int, count: nat, size: nat, destructor: bool) returns (outcome: Outcome)
      modifies this`log
      ensures !destructor ==> outcome == Returned && log == old(log)
      ensures destructor ==>
        IsDestruction(throwing, old(log), log, base, size, count, if inFlight then 0 else 1, outcome)
    {
      if !destructor { return Returned; }
      var ptr := base + count * size;
      OffsetIsProduct(size, count);
      var idx: nat := count;
      while idx > 0
        invariant idx <= count && ptr == ElementAt(base, size, idx)
        invariant log == old(log) + Destruction(throwing, |old(log)|, base, size, count, count - idx)
        invariant ThrowCount(throwing, |old(log)|, count - idx) == 0
      {
        idx := idx - 1;
        ptr := ptr - size;
        var throws := CallDestructor(ptr);
        if throws {
          ThrowCountGrows(throwing, |old(log)|, count - idx, count);
          if inFlight { return Terminated; }
          ghost var middle := log;
          var inner := VecCleanup(base, idx, size, destructor);
          TwoDestructions(throwing, old(log), middle, log, base, size, count, idx, inner);
          return if inner == Returned then Threw else inner;
        }
      }
      return Returned;
    }

    /** The loops of the two constructors differ in whether there is a source array. */
    method Construct(base: int, source: Option<int>, count: nat, size: nat, destructor: bool) returns (outcome: Outcome)
      modifies this`log
      ensures IsConstruction(throwing, old(log), log, base, source, size, count, destructor, outcome)
    {
      var idx, ptr, src := 0, base, source;
      while idx < count
        invariant idx <= count && ptr == ElementAt(base, size, idx) && src == SourceOf(source, Offset(size, idx))
        invariant log == old(log) + Construction(base, source, size, idx)
        invariant ThrowCount(throwing, |old(log)|, idx) == 0
      {
        var throws := CallConstructor(ptr, src);
        if throws {
          ThrowCountGrows(throwing, |old(log)|, idx + 1, count);
          assert FirstThrow(throwing, |old(log)|, idx);
          ghost var failed := old(log) + (Construction(base, source, size, idx)
            + [ConstructorThrew(ElementAt(base, size, idx), SourceOf(source, Offset(size, idx)))]);
          assert log == failed;
          var inner := VecCleanup(base, idx, size, destructor);
          outcome := if inner == Returned then Threw else inner;
          assert IsUndone(throwing, old(log), log, base, source, size, idx, destructor, outcome);
          return;
        }
        idx, ptr, src := idx + 1, ptr + size, SourceOf(src, size);
      }
      return Returned;
    }

    /** Without a constructor nothing is done. */
    method VecCtor(base: int, count: nat, size: nat, construct: bool, destructor: bool) returns (outcome: Outcome)
      modifies this`log
      ensures !construct ==> outcome == Returned && log == old(log)
      ensures construct ==> IsConstruction(throwing, old(log), log, base, None, size, count, destructor, outcome)
    {
      if !construct { return Returned; }
      outcome := Construct(base, None, count, size, destructor);
    }

    method VecCctor(dest: int, src: int, count: nat, size: nat, construct: bool, destructor: bool)
      returns (outcome: Outcome)
      modifies this`log
      ensures !construct ==> outcome == Returned && log == old(log)
      ensures construct ==> IsConstruction(throwing, old(log), log, dest, Some(src), size, count, destructor, outcome)
    {
      if !construct { return Returned; }
      outcome := Construct(dest, Some(src), count, size, destructor);
    }

    method VecNew(count: nat, size: nat, padding: nat, construct: bool, destructor: bool,
                  alloc: Allocation, sized: bool)
      returns (r: Creation)
      requires count < WORD && size < WORD && padding < WORD
      modifies this`log, this`cookies
      ensures IsCreation(throwing, old(log), log, count, size, padding, construct, destructor, alloc, sized, r)
      ensures cookies == if count * size + padding < WORD && alloc.AllocBlock? && padding != 0
                         then old(cookies)[alloc.at + padding := count] else old(cookies)
    {
      var heapSize := CalculateAllocationSize(count, size, padding);
      match heapSize
      case None => return BadLength;
      case Some(bytes) =>
        match alloc
        case AllocThrows => return Failed(Threw);
        case AllocNull => return Created(0);
        case AllocBlock(block) =>
          log := log + [Allocated(block, bytes)];
          var base := block;
          if padding != 0 {
            base := base + padding;
            cookies := cookies[base := count];
          }
          var outcome := VecCtor(base, count, size, construct, destructor);
          ghost var built := log;
          r := if outcome == Returned then Created(base) else Failed(outcome);
          ghost var freed := FreeCall(sized, block, bytes);
          if outcome == Threw { log := log + [FreeCall(sized, block, bytes)]; }
          if construct {
            assert IsFinished(built, outcome, log, base, freed, r);
            assert IsBuilt(throwing, old(log) + [Allocated(block, bytes)], log, base, count, size, destructor, freed, r);
          }
    }

    method VecDelete(at: int, size: nat, padding: nat, destructor: bool, sized: bool) returns (outcome: Outcome)
      requires at != 0 && padding != 0 ==> at in cookies
      modifies this`log
      ensures IsDeletion(throwing, old(log), log, at, if at != 0 && padding != 0 then cookies[at] else 0,
                         size, padding, destructor, inFlight, sized, outcome)
    {
      if at == 0 { return Returned; }
      var block := at - padding;
      var count := if padding != 0 then cookies[at] else 0;
      var bytes := (size * count + padding) % WORD;
      outcome := Returned;
      if padding != 0 && destructor { outcome := VecDtor(at, count, size, destructor); }
      ghost var middle := log;
      if outcome != Terminated { log := log + [FreeCall(sized, block, bytes)]; }
      if padding != 0 && destructor {
        assert IsDestroyedAndFreed(throwing, old(log), log, at, count, size, if inFlight then 0 else 1,
                                   FreeCall(sized, block, bytes), outcome);
      }
    }
  }

  /** A destructor threw with idx elements left, and they are cleaned up: one destruction of all. */
  lemma TwoDestructions(throwing: seq<bool>, before: seq<Call>, middle: seq<Call>, after: seq<Call>,
                        base: int, size: nat, count: nat, idx: nat, inner: Outcome)
    requires idx < count && middle == before + Destruction(throwing, |before|, base, size, count, count - idx)
    requires ThrowCount(throwing, |before|, count - idx) == 1
    requires IsDestruction(throwing, middle, after, base, size, idx, 0, inner)
    ensures IsDestruction(throwing, before, after, base, size, count, 1, if inner == Returned then Threw else inner)
  {
    hide Destruction, ThrowCount;
    var m := |after| - |middle|;
    var d := count - idx;
    DestructionsJoin(throwing, |before|, base, size, count, d, m);
    ThrowCountsAdd(throwing, |before|, d, m);
    ThrowCountsAdd(throwing, |before|, d, idx);
  }

  lemma {:induction false} ThrowCountsAdd(throwing: seq<bool>, start: nat, d: nat, m: nat)
    ensures ThrowCount(throwing, start, d + m) == ThrowCount(throwing, start, d) + ThrowCount(throwing, start + d, m)
  {
    if m > 0 { ThrowCountsAdd(throwing, start, d, m - 1); }
  }

  lemma {:induction false} DestructionsJoin(throwing: seq<bool>, start: nat, base: int, size: nat, n: nat, d: nat, m: nat)
    requires d + m <= n
    ensures Destruction(throwing, start, base, size, n, d + m)
         == Destruction(throwing, start, base, size, n, d) + Destruction(throwing, start + d, base, size, n - d, m)
  {
    if m > 0 { DestructionsJoin(throwing, start, base, size, n, d, m - 1); }
  }

  // ----- what creating and deleting leave behind

  predicate EndsWith(log: seq<Call>, c: Call) {
    log != [] && log[|log| - 1] == c
  }

  lemma BuiltIsAllOrNothing(throwing: seq<bool>, before: seq<Call>, start: seq<Call>, after: seq<Call>, b: int,
                            bytes: nat, base: int, count: nat, size: nat, freed: Call, r: Creation)
    requires start == before + [Allocated(b, bytes)] && b !in Blocks(before)
    requires freed == Freed(b) || freed == FreedSized(b, bytes)
    requires IsBuilt(throwing, start, after, base, count, size, true, freed, r)
    ensures r.Created? ==> && r.at == base && Live(after) == Live(before) + Elements(base, size, count)
                           && Blocks(after) == Blocks(before)[b := bytes]
    ensures r == Failed(Threw) ==> && Live(after) == Live(before) && Blocks(after) == Blocks(before)
                                   && EndsWith(after, freed)
    ensures !r.BadLength?
    ensures r.Created? <==> forall p | |start| <= p < |start| + count :: !Throws(throwing, p)
  {
    hide Live, Blocks, Elements, IsConstruction;
    var built, o :| IsConstruction(throwing, start, built, base, None, size, count, true, o)
                    && IsFinished(built, o, after, base, freed, r);
    BlocksAfter(before, Allocated(b, bytes));
    LiveAfterOne(before, Allocated(b, bytes));
    FailedConstructionLeavesNothing(throwing, start, built, base, None, size, count, o);
    ConstructionKeepsBlocks(throwing, start, built, base, None, size, count, true, o);
    if o == Threw {
      BlocksAfter(built, freed);
      LiveAfterOne(built, freed);
      assert Blocks(before)[b := bytes] - {b} == Blocks(before);
    }
  }

  /** Creating an array: all of it and its block, or, when an exception gets out, nothing. */
  lemma CreationIsAllOrNothing(throwing: seq<bool>, before: seq<Call>, after: seq<Call>, count: nat, size: nat,
                               padding: nat, bytes: nat, b: int, sized: bool, r: Creation)
    requires IsCreation(throwing, before, after, count, size, padding, true, true, AllocBlock(b), sized, r)
    requires b !in Blocks(before) && bytes == count * size + padding
    ensures r.BadLength? <==> bytes >= WORD
    ensures r.Created? <==> bytes < WORD && forall p | |before| < p <= |before| + count :: !Throws(throwing, p)
    ensures r.Created? ==> && r.at == b + padding
                           && Live(after) == Live(before) + Elements(r.at, size, count)
                           && Blocks(after) == Blocks(before)[b := bytes]
    ensures r.BadLength? || r == Failed(Threw) ==> Live(after) == Live(before) && Blocks(after) == Blocks(before)
    ensures r == Failed(Threw) ==> EndsWith(after, if sized then FreedSized(b, bytes) else Freed(b))
  {
    hide Live, Blocks, Elements, IsBuilt;
    if bytes < WORD {
      BuiltIsAllOrNothing(throwing, before, before + [Allocated(b, bytes)], after, b, bytes, b + padding,
                          count, size, FreeCall(sized, b, bytes), r);
    }
  }

  /** Without a block nothing is called: an exception of the allocation gets out, and NULL is what is returned for NULL. */
  lemma CreationWithoutBlock(throwing: seq<bool>, before: seq<Call>, after: seq<Call>, count: nat, size: nat, padding: nat,
                             construct: bool, destructor: bool, alloc: Allocation, sized: bool, r: Creation)
    requires IsCreation(throwing, before, after, count, size, padding, construct, destructor, alloc, sized, r)
    requires !alloc.AllocBlock? && count * size + padding < WORD
    ensures after == before && r == if alloc == AllocThrows then Failed(Threw) else Created(0)
  {
  }

  /** Creating an array that has no destructor: when a constructor throws, its block is freed all the same. */
  lemma CreationWithoutDestructor(throwing: seq<bool>, before: seq<Call>, after: seq<Call>, count: nat, size: nat,
                                  padding: nat, bytes: nat, b: int, sized: bool, r: Creation)
    requires IsCreation(throwing, before, after, count, size, padding, true, false, AllocBlock(b), sized, r)
    requires b !in Blocks(before) && bytes == count * size + padding < WORD
    ensures var throws := exists p :: |before| < p <= |before| + count && Throws(throwing, p);
      && r == (if throws then Failed(Threw) else Created(b + padding))
      && Blocks(after) == (if throws then Blocks(before) else Blocks(before)[b := bytes])
      && (throws ==> EndsWith(after, if sized then FreedSized(b, bytes) else Freed(b)))
  {
    hide Live, Blocks, Elements, IsConstruction;
    var start, freed := before + [Allocated(b, bytes)], FreeCall(sized, b, bytes);
    var built, o :| IsConstruction(throwing, start, built, b + padding, None, size, count, false, o)
                    && IsFinished(built, o, after, b + padding, freed, r);
    BlocksAfter(before, Allocated(b, bytes));
    var k := FailedConstructionLeavesSome(throwing, start, built, b + padding, None, size, count, o);
    ConstructionKeepsBlocks(throwing, start, built, b + padding, None, size, count, false, o);
    if o == Threw {
      BlocksAfter(built, freed);
      assert Throws(throwing, |start| + k);
      assert Blocks(before)[b := bytes] - {b} == Blocks(before);
    }
  }

  lemma DestroyedAndFreed(throwing: seq<bool>, before: seq<Call>, after: seq<Call>, rest: multiset<int>,
                          at: int, n: nat, size: nat, allowed: nat, block: int, freed: Call, outcome: Outcome)
    requires freed == Freed(block) || (freed.FreedSized? && freed.at == block)
    requires IsDestroyedAndFreed(throwing, before, after, at, n, size, allowed, freed, outcome)
    requires Live(before) == rest + Elements(at, size, n)
    ensures outcome == Terminated <==> ThrowCount(throwing, |before|, n) > allowed
    ensures outcome != Terminated ==> Live(after) == rest && Blocks(after) == Blocks(before) - {block}
  {
    hide Live, Blocks, Elements;
    var middle :| IsDestruction(throwing, before, middle, at, size, n, allowed, outcome)
                  && after == if outcome == Terminated then middle else middle + [freed];
    DestructionLeavesNothing(throwing, before, middle, rest, at, size, n, allowed, outcome);
    DestructionKeepsBlocks(throwing, before, middle, at, size, n, allowed, outcome);
    BlocksAfter(middle, freed);
    LiveAfterOne(middle, freed);
  }

  /** Deleting an array: its elements and its block are gone, whether or not one destructor throws. */
  lemma DeletionLeavesNothing(throwing: seq<bool>, before: seq<Call>, after: seq<Call>, rest: multiset<int>,
                              at: int, n: nat, size: nat, padding: nat, inFlight: bool, sized: bool, outcome: Outcome)
    requires at != 0 && padding != 0
    requires IsDeletion(throwing, before, after, at, n, size, padding, true, inFlight, sized, outcome)
    requires Live(before) == rest + Elements(at, size, n)
    ensures outcome == Terminated <==> ThrowCount(throwing, |before|, n) > (if inFlight then 0 else 1)
    ensures outcome != Terminated ==> Live(after) == rest && Blocks(after) == Blocks(before) - {at - padding}
  {
    hide Live, Blocks, Elements, IsDestroyedAndFreed;
    DestroyedAndFreed(throwing, before, after, rest, at, n, size, if inFlight then 0 else 1, at - padding,
                      FreeCall(sized, at - padding, (size * n + padding) % WORD), outcome);
  }

  /** Deleting NULL is no call at all. */
  lemma DeletionOfNull(throwing: seq<bool>, before: seq<Call>, after: seq<Call>, n: nat, size: nat, padding: nat,
                       destructor: bool, inFlight: bool, sized: bool, outcome: Outcome)
    requires IsDeletion(throwing, before, after, 0, n, size, padding, destructor, inFlight, sized, outcome)
    ensures outcome == Returned && after == before
  {
  }

  /** Deleting an array without a destructor or without padding: no call but the one that frees the block. */
  lemma DeletionWithoutDestructor(throwing: seq<bool>, before: seq<Call>, after: seq<Call>, at: int, n: nat, size: nat,
                                  padding: nat, destructor: bool, inFlight: bool, sized: bool, outcome: Outcome)
    requires at != 0 && (padding == 0 || !destructor)
    requires IsDeletion(throwing, before, after, at, n, size, padding, destructor, inFlight, sized, outcome)
    ensures outcome == Returned && Live(after) == Live(before) && Blocks(after) == Blocks(before) - {at - padding}
  {
    hide Live, Blocks;
    var freed := FreeCall(sized, at - padding, (size * n + padding) % WORD);
    BlocksAfter(before, freed);
    LiveAfterOne(before, freed);
  }

  /** An array is created and, with the count that was stored for it, deleted: nothing of it is left. */
  lemma DeletionUndoesCreation(throwing: seq<bool>, before: seq<Call>, created: seq<Call>, after: seq<Call>,
                               count: nat, size: nat, padding: nat, b: int, at: int, sized: bool, inFlight: bool,
                               outcome: Outcome)
    requires b !in Blocks(before) && at != 0 && padding != 0
    requires IsCreation(throwing, before, created, count, size, padding, true, true, AllocBlock(b), sized, Created(at))
    requires IsDeletion(throwing, created, after, at, count, size, padding, true, inFlight, sized, outcome)
    ensures outcome != Terminated ==> Live(after) == Live(before) && Blocks(after) == Blocks(before)
  {
    hide Live, Blocks, Elements, IsCreation, IsDeletion;
    CreationIsAllOrNothing(throwing, before, created, count, size, padding, count * size + padding, b, sized, Created(at));
    DeletionLeavesNothing(throwing, created, after, Live(before), at, count, size, padding, inFlight, sized, outcome);
    assert Blocks(before)[b := count * size + padding] - {b} == Blocks(before);
  }

  lemma LastFreed(throwing: seq<bool>, before: seq<Call>, after: seq<Call>, at: int, n: nat, size: nat, padding: nat,
                  destructor: bool, inFlight: bool, sized: bool, outcome: Outcome)
    requires at != 0 && outcome != Terminated
    requires IsDeletion(throwing, before, after, at, n, size, padding, destructor, inFlight, sized, outcome)
    ensures EndsWith(after, FreeCall(sized, at - padding, (size * n + padding) % WORD))
  {
  }

  /**
   * An array is created and, some time later, deleted with the count that was stored for it, or none without padding.
   * The size that the sized deletion passes for the block is the one that was allocated if and only if there is
   * padding to store the count in, or the elements take no room.
   */
  lemma DeletedSizeIsAllocatedSize(throwing: seq<bool>, before: seq<Call>, created: seq<Call>, later: seq<Call>,
                                   after: seq<Call>, count: nat, size: nat, padding: nat, construct: bool,
                                   destructor: bool, b: int, at: int, inFlight: bool, outcome: Outcome)
    requires at != 0 && outcome != Terminated
    requires IsCreation(throwing, before, created, count, size, padding, construct, destructor, AllocBlock(b), true,
                        Created(at))
    requires IsDeletion(throwing, later, after, at, if padding != 0 then count else 0, size, padding, destructor,
                        inFlight, true, outcome)
    ensures EndsWith(after, FreedSized(b, count * size + padding)) <==> padding != 0 || count * size == 0
  {
    var n, bytes := if padding != 0 then count else 0, count * size + padding;
    LastFreed(throwing, later, after, at, n, size, padding, destructor, inFlight, true, outcome);
    CreatedAt(throwing, before, created, count, size, padding, construct, destructor, b, at);
    StoredSize(count, size, padding);
  }

  lemma CreatedAt(throwing: seq<bool>, before: seq<Call>, created: seq<Call>, count: nat, size: nat, padding: nat,
                  construct: bool, destructor: bool, b: int, at: int)
    requires IsCreation(throwing, before, created, count, size, padding, construct, destructor, AllocBlock(b), true,
                        Created(at))
    ensures at == b + padding && count * size + padding < WORD
  {
  }

  lemma StoredSize(count: nat, size: nat, padding: nat)
    requires count * size + padding < WORD
    ensures (size * (if padding != 0 then count else 0) + padding) % WORD == count * size + padding
        <==> padding != 0 || count * size == 0
  {
    SameRemainder(WORD, 0, count * size + padding);
    SameRemainder(WORD, 0, padding);
    assert size * count == count * size;
  }

  /** Without padding the size that is passed is 0, whatever was allocated. */
  lemma UnpaddedSizeIsLost(throwing: seq<bool>, before: seq<Call>, b: int)
    requires b != 0
    ensures var created := before + [Allocated(b, 12)];
      && IsCreation(throwing, before, created, 3, 4, 0, false, false, AllocBlock(b), true, Created(b))
      && IsDeletion(throwing, created, created + [FreedSized(b, 0)], b, 0, 4, 0, false, false, true, Returned)
  {
  }
}
