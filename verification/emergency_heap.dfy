/** The emergency heap as the runtime keeps it: an array of chunk headers and the head of the free list. */
module EmergencyHeap {
  import opened HeapLayout
  import opened HeapOperations

  class FallbackHeap {
    const next: array<int>
    const len: array<int>
    var freelist: int
    ghost var free: seq<int>
    ghost var used: set<int>

    constructor ()
      ensures Valid() && used == {} && freelist == NULL
      ensures fresh(next) && fresh(len)
    {
      next, len := new int[UNITS](_ => 0), new int[UNITS](_ => 0);
      freelist, free, used := NULL, [], {};
    }

    ghost predicate HasArrays()
      reads this
    {
      next != len && next.Length == UNITS && len.Length == UNITS
    }

    ghost function Value(): (h: Heap)
      reads this, next, len
      requires HasArrays()
      ensures h.HasSize()
    {
      Heap(freelist, next[..], len[..])
    }

    ghost predicate Valid()
      reads this, next, len
    {
      HasArrays() && if freelist == NULL then free == [] && used == {} else Inv(Value(), free, used)
    }

    /** The heap as an operation finds it: made one free chunk the first time. */
    ghost function Found(): (r: (Heap, seq<int>))
      reads this, next, len
      requires Valid()
      ensures Inv(r.0, r.1, used)
    {
      InitialInv(Value());
      if freelist == NULL then (InitialHeap(Value()), [0]) else (Value(), free)
    }

    /** The heap is in order, and all of it is one free chunk. */
    method InitHeap()
      requires HasArrays() && freelist == NULL && used == {}
      modifies this, next, len
      ensures Valid() && freelist != NULL && free == [0] && used == {} && Value().After(0) == UNITS
      ensures Value() == InitialHeap(old(Value()))
    {
      InitialInv(Value());
      freelist := 0;
      next[0] := UNITS;
      len[0] := UNITS;
      free := [0];
    }

    /** Chunk p keeps all but its last n units. */
    method TakeTail(p: int, n: int) returns (ptr: int)
      requires Valid() && freelist != NULL && p in free && 0 <= p < UNITS && 0 < n < len[p]
      modifies this, next, len
      ensures Valid() && freelist != NULL && 0 <= old(Value().After(p)) - n < UNITS
      ensures Value() == Shortened(old(Value()), p, n) && ptr == old(Value().After(p)) - n + 1
      ensures used == old(used) + {ptr - 1}
    {
      ShortenedInv(Value(), free, used, p, n);
      len[p] := len[p] - n;
      var q := p + len[p];
      next[q] := 0;
      len[q] := n;
      used := used + {q};
      return q + 1;
    }

    /** Entry k of the free list, with prev before it, is taken as it is. */
    method TakeWhole(p: int, prev: int, ghost k: nat) returns (ptr: int)
      requires Valid() && freelist != NULL && k < |free| && p == free[k] && prev == if k == 0 then NULL else free[k - 1]
      modifies this, next
      ensures Valid() && freelist != NULL && ptr == p + 1 && used == old(used) + {p}
      ensures Value() == old(Unlinked(Value(), free, k))
    {
      UnlinkedInv(Value(), free, used, k);
      assert LinkedAt(Value(), free, k);
      if prev == NULL {
        freelist := next[p];
      } else {
        next[prev] := next[p];
      }
      next[p] := 0;
      free, used := Without(free, k), used + {p};
      return p + 1;
    }

    /** Returns the offset of the payload, or NULL. */
    method Malloc(bytes: nat) returns (ptr: int)
      requires Valid()
      modifies this, next, len
      ensures Valid() && freelist != NULL
      ensures var (h, f) := old(Found());
        (Value(), ptr) == Allocated(h, f, old(used), AllocSize(bytes), 0)
      ensures used == if ptr == NULL then old(used) else old(used) + {ptr - 1}
    {
      var n := AllocSize(bytes);
      ghost var (h, f) := Found();
      if freelist == NULL {
        InitHeap();
      }
      var p, prev := freelist, NULL;
      ghost var k := 0;
      while p != UNITS
        invariant k <= |f| && p == At(f, k) && prev == if k == 0 then NULL else f[k - 1]
        invariant HasArrays() && Value() == h && free == f && used == old(used) && Inv(h, f, used) && freelist != NULL
        invariant Allocated(h, f, used, n, 0) == Allocated(h, f, used, n, k)
        decreases |f| - k
      {
        assert LinkedAt(h, f, k);
        ChunkInHeap(h, f, used, p);
        if len[p] > n {
          ptr := TakeTail(p, n);
          return;
        }
        if len[p] == n {
          ptr := TakeWhole(p, prev, k);
          return;
        }
        prev, p := p, next[p];
        k := k + 1;
      }
      return NULL;
    }

    /** Chunk cp takes in entry k of the free list, with prev before it. */
    method JoinRight(p: int, prev: int, cp: int, ghost k: nat)
      requires HasArrays() && Linked(Value(), free) && k < |free| && p == free[k] && 0 <= cp < UNITS
      requires prev == if k == 0 then NULL else free[k - 1]
      modifies this, next, len
      ensures HasArrays() && used == old(used) && free == old(free[k := cp]) && freelist != NULL
      ensures Value() == old(JoinedRight(Value(), free, k, cp))
    {
      len[cp] := len[cp] + len[p];
      if prev == NULL {
        freelist := cp;
        next[cp] := next[p];
      } else {
        next[prev] := cp;
      }
      free := free[k := cp];
    }

    method Free(ptr: int)
      requires Valid() && ptr - 1 in used
      modifies this, next, len
      ensures HasArrays() && used == old(used) - {ptr - 1} && freelist != NULL
      ensures Value() == Freed(old(Value()), old(free), ptr - 1)
      ensures Valid() <==> !LosesChunks(old(Value()), old(free), ptr - 1)
    {
      var cp := ptr - 1;
      ghost var h, f := Value(), free;
      FreeKeepsOrder(h, f, used, cp);
      ChunkInHeap(h, f, used, cp);
      used := used - {cp};
      var p, prev := freelist, NULL;
      ghost var k := 0;
      while p != UNITS
        invariant k <= |f| && p == At(f, k) && prev == if k == 0 then NULL else f[k - 1]
        invariant HasArrays() && Value() == h && free == f
        invariant Neighbour(h, f, cp, 0) == Neighbour(h, f, cp, k)
        decreases |f| - k
      {
        assert LinkedAt(h, f, k);
        if p + len[p] == cp {
          len[p] := len[p] + len[cp];
          JoinedLeftInv(h, f, old(used), p, cp);
          return;
        } else if cp + len[cp] == p {
          JoinRight(p, prev, cp, k);
          if k == 0 || At(f, k + 1) == 0 { JoinedRightInv(h, f, old(used), k, cp); }
          return;
        }
        prev, p := p, next[p];
        k := k + 1;
      }
      next[cp] := freelist;
      freelist := cp;
      free := [cp] + f;
      PushedInv(h, f, old(used), cp);
    }
  }

  /** Four allocations fill the heap, from its end to its start. */
  method FillWithFour() returns (heap: FallbackHeap, a: int, b: int, c: int, d: int)
    ensures fresh(heap) && fresh(heap.next) && fresh(heap.len)
    ensures a == 105 && b == 81 && c == 41 && d == 1
    ensures heap.Valid() && heap.freelist == UNITS && heap.used == {104, 80, 40, 0}
    ensures heap.len[0] == heap.len[40] == 40 && heap.len[80] == heap.len[104] == 24
  {
    heap := new FallbackHeap();
    a := heap.Malloc(92);
    ShortLists(heap.Value(), heap.free);
    b := heap.Malloc(92);
    ShortLists(heap.Value(), heap.free);
    c := heap.Malloc(156);
    ShortLists(heap.Value(), heap.free);
    d := heap.Malloc(156);
  }

  /** Four allocations and three releases after which the free list runs in a circle, although every call was right. */
  method FreeListBecomesCyclic() returns (heap: FallbackHeap)
    ensures heap.HasArrays() && heap.freelist == 0 && heap.next[0] == 80 && heap.next[80] == 0
  {
    var a, b, c, d;
    heap, a, b, c, d := FillWithFour();
    ShortLists(heap.Value(), heap.free);
    heap.Free(a);
    ShortLists(heap.Value(), heap.free);
    heap.Free(d);
    assert heap.freelist == 0 && heap.next[0] == 104 && heap.next[104] == UNITS;
    ghost var h := heap.Value();
    ShortLists(h, heap.free);
    assert Neighbour(h, [0, 104], 80, 0) == Neighbour(h, [0, 104], 80, 1) == 1;
    heap.Free(b);
    assert heap.Value() == JoinedRight(h, [0, 104], 1, 80);
  }
}
