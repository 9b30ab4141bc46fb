/** Allocating from and freeing to the emergency heap. */
module HeapOperations {
  import opened HeapLayout

  // ----- what the operations do to the heap

  /** The whole heap as one free chunk. */
  function InitialHeap(h: Heap): Heap
    requires h.HasSize()
  {
    Heap(0, h.next[0 := UNITS], h.len[0 := UNITS])
  }

  /** The chunk at p gives its last n units away. */
  function Shortened(h: Heap, p: int, n: int): Heap
    requires h.HasSize() && 0 <= p < UNITS && 0 <= h.After(p) - n < UNITS
  {
    var q := h.After(p) - n;
    Heap(h.freelist, h.next[q := 0], h.len[p := h.len[p] - n][q := n])
  }

  /** Entry k leaves the free list. */
  function Unlinked(h: Heap, free: seq<int>, k: nat): Heap
    requires h.HasSize() && Linked(h, free) && k < |free|
  {
    var p := free[k];
    if k == 0 then Heap(h.next[p], h.next[p := 0], h.len)
    else Heap(h.freelist, h.next[free[k - 1] := h.next[p]][p := 0], h.len)
  }

  /** The allocation of n units by the first chunk that is big enough, from entry k of the free list on. */
  ghost function Allocated(h: Heap, free: seq<int>, used: set<int>, n: int, k: nat): (Heap, int)
    requires Inv(h, free, used) && k <= |free| && n > 0
    decreases |free| - k
  {
    if k == |free| then (h, NULL)
    else
      ChunkInHeap(h, free, used, free[k]);
      var p := free[k];
      if h.len[p] > n then (Shortened(h, p, n), h.After(p) - n + 1)
      else if h.len[p] == n then (Unlinked(h, free, k), p + 1)
      else Allocated(h, free, used, n, k + 1)
  }

  /** Free chunk p, before cp, takes cp in. */
  function JoinedLeft(h: Heap, p: int, cp: int): Heap
    requires h.HasSize() && 0 <= p < UNITS && 0 <= cp < UNITS
  {
    h.(len := h.len[p := h.len[p] + h.len[cp]])
  }

  /** Chunk cp takes in entry k of the free list, after it, and its place in the list. */
  function JoinedRight(h: Heap, free: seq<int>, k: nat, cp: int): Heap
    requires h.HasSize() && Linked(h, free) && k < |free| && 0 <= cp < UNITS
  {
    var p := free[k];
    var len := h.len[cp := h.len[cp] + h.len[p]];
    if k == 0 then Heap(cp, h.next[cp := h.next[p]], len)
    else Heap(h.freelist, h.next[free[k - 1] := cp], len)
  }

  function Pushed(h: Heap, cp: int): Heap
    requires h.HasSize() && 0 <= cp < UNITS
  {
    Heap(cp, h.next[cp := h.freelist], h.len)
  }

  /** The first chunk of the free list, from entry k on, that lies next to cp. */
  function Neighbour(h: Heap, free: seq<int>, cp: int, k: nat): (r: nat)
    requires h.HasSize() && Linked(h, free) && 0 <= cp < UNITS && k <= |free|
    ensures k <= r <= |free|
    decreases |free| - k
  {
    if k == |free| || h.After(free[k]) == cp || h.After(cp) == free[k] then k else Neighbour(h, free, cp, k + 1)
  }

  function Freed(h: Heap, free: seq<int>, cp: int): Heap
    requires h.HasSize() && Linked(h, free) && 0 <= cp < UNITS
  {
    var k := Neighbour(h, free, cp, 0);
    if k == |free| then Pushed(h, cp)
    else if h.After(free[k]) == cp then JoinedLeft(h, free[k], cp)
    else JoinedRight(h, free, k, cp)
  }

  // ----- what they keep

  lemma ChunkInHeap(h: Heap, free: seq<int>, used: set<int>, c: int)
    requires Inv(h, free, used) && (c in free || c in used)
    ensures 0 <= c < UNITS && 1 <= h.len[c] && h.After(c) <= UNITS
    ensures h.After(c) == UNITS || h.After(c) in free || h.After(c) in used
    ensures forall d | d in free || d in used :: !(c < d < h.After(c))
  {
    assert c in Elements(free) + used;
    assert TiledAt(h.len, Elements(free) + used, c);
    assert forall d | d in free || d in used :: d in Elements(free) + used;
  }

  lemma InitialInv(h: Heap)
    requires h.HasSize()
    ensures Inv(InitialHeap(h), [0], {})
  {
    assert TiledAt(InitialHeap(h).len, {0}, 0);
    assert Elements([0]) + {} == {0};
  }

  lemma ShortenedInv(h: Heap, free: seq<int>, used: set<int>, p: int, n: int)
    requires Inv(h, free, used) && p in free && 0 <= p < UNITS && 0 < n < h.len[p]
    ensures var q := h.After(p) - n;
      0 <= q < UNITS && q !in Elements(free) + used && Inv(Shortened(h, p, n), free, used + {q})
  {
    var chunks := Elements(free) + used;
    assert p in Elements(free);
    SplitTiled(h.len, chunks, p, n);
    var q := h.After(p) - n;
    assert forall c | c in free :: c in chunks;
    assert Elements(free) + (used + {q}) == chunks + {q};
    forall k: nat | k < |free| ensures LinkedAt(Shortened(h, p, n), free, k) { assert LinkedAt(h, free, k); }
  }

  function Without(free: seq<int>, k: nat): seq<int>
    requires k < |free|
  {
    free[..k] + free[k + 1..]
  }

  lemma UnlinkedLinked(h: Heap, free: seq<int>, k: nat)
    requires h.HasSize() && Linked(h, free) && k < |free|
    ensures Linked(Unlinked(h, free, k), Without(free, k))
  {
    var f, r := Without(free, k), Unlinked(h, free, k);
    assert forall i | 0 <= i < |f| :: f[i] == if i < k then free[i] else free[i + 1];
    assert LinkedAt(h, free, k);
    forall i: nat | i < |f| ensures LinkedAt(r, f, i) {
      if i < k { assert LinkedAt(h, free, i); } else { assert LinkedAt(h, free, i + 1); }
    }
  }

  lemma UnlinkedInv(h: Heap, free: seq<int>, used: set<int>, k: nat)
    requires Inv(h, free, used) && k < |free|
    ensures Inv(Unlinked(h, free, k), Without(free, k), used + {free[k]})
  {
    UnlinkedLinked(h, free, k);
    ElementsWithout(free, k);
    assert Elements(Without(free, k)) + (used + {free[k]}) == Elements(free) + used;
  }

  lemma ElementsWithout(free: seq<int>, k: nat)
    requires k < |free| && forall i, j | 0 <= i < j < |free| :: free[i] != free[j]
    ensures Elements(Without(free, k)) == Elements(free) - {free[k]}
  {
    var f := Without(free, k);
    assert forall i | 0 <= i < |f| :: f[i] == if i < k then free[i] else free[i + 1];
    forall c | c in free && c != free[k] ensures c in f {
      var i :| 0 <= i < |free| && free[i] == c;
      assert f[if i < k then i else i - 1] == c;
    }
  }

  lemma JoinedLeftInv(h: Heap, free: seq<int>, used: set<int>, p: int, cp: int)
    requires Inv(h, free, used) && p in free && cp in used && 0 <= p < UNITS && h.After(p) == cp
    ensures Inv(JoinedLeft(h, p, cp), free, used - {cp})
  {
    var chunks := Elements(free) + used;
    JoinTiled(h.len, chunks, p, cp);
    assert cp !in Elements(free);
    assert Elements(free) + (used - {cp}) == chunks - {cp};
    forall k: nat | k < |free| ensures LinkedAt(JoinedLeft(h, p, cp), free, k) { assert LinkedAt(h, free, k); }
  }

  lemma PushedInv(h: Heap, free: seq<int>, used: set<int>, cp: int)
    requires Inv(h, free, used) && cp in used
    ensures Inv(Pushed(h, cp), [cp] + free, used - {cp})
  {
    assert cp !in Elements(free);
    var f := [cp] + free;
    forall i: nat | i < |f| ensures LinkedAt(Pushed(h, cp), f, i) {
      if i > 0 { assert LinkedAt(h, free, i - 1) && f[i] == free[i - 1]; }
    }
    assert Elements(f) + (used - {cp}) == Elements(free) + used;
  }

  /** Taking in a chunk on the right keeps the heap in order if cp leads on to where that chunk did. */
  lemma JoinedRightInv(h: Heap, free: seq<int>, used: set<int>, k: nat, cp: int)
    requires Inv(h, free, used) && k < |free| && cp in used && h.After(cp) == free[k]
    requires k == 0 || At(free, k + 1) == 0
    ensures Inv(JoinedRight(h, free, k, cp), free[k := cp], used - {cp})
  {
    var p, f, chunks := free[k], free[k := cp], Elements(free) + used;
    assert p in Elements(free);
    JoinTiled(h.len, chunks, cp, p);
    assert forall i | 0 <= i < |f| :: f[i] == if i == k then cp else free[i];
    assert cp !in Elements(free);
    forall i: nat | i < |f| ensures LinkedAt(JoinedRight(h, free, k, cp), f, i) {
      assert LinkedAt(h, free, i) && LinkedAt(h, free, k);
    }
    assert Elements(f) == Elements(free) - {p} + {cp};
    assert Elements(f) + (used - {cp}) == chunks - {p};
  }

  // ----- what an allocation gives

  const SIZE_MODULUS: int := 0x1_0000_0000_0000_0000

  /** The units for a payload of len bytes and its header of four bytes. */
  function AllocSize(len: nat): (n: nat)
    ensures n > 0
  {
    (len + 3) % SIZE_MODULUS / 4 + 1
  }

  /** The payload is large enough unless the addition wraps around. */
  lemma PayloadFits(len: nat)
    requires len < SIZE_MODULUS
    ensures 4 * (AllocSize(len) - 1) >= len <==> len + 3 < SIZE_MODULUS
  {
    if len + 3 >= SIZE_MODULUS { assert (len + 3) % SIZE_MODULUS == len + 3 - SIZE_MODULUS; }
  }

  /** A request for which the addition wraps around: the chunk has a header only. */
  lemma WrappedSizeIsTooSmall()
    ensures AllocSize(SIZE_MODULUS - 1) == 1
  {
    assert (SIZE_MODULUS + 2) % SIZE_MODULUS == 2;
  }

  predicate NoneFits(h: Heap, free: seq<int>, n: int)
    requires h.HasSize()
  {
    forall c | c in free :: 0 <= c < UNITS && h.len[c] < n
  }

  /** A chunk of n units, the last ones of the first free chunk that is big enough; it was not outstanding and now is. */
  ghost predicate IsNewChunk(h: Heap, free: seq<int>, used: set<int>, n: int, g: Heap, q: int)
    requires h.HasSize()
  {
    && 0 <= q < UNITS && q !in used && InOrder(g, used + {q}) && g.len[q] == n
    && exists m: nat :: m < |free| && NoneFits(h, free[..m], n) && IsTail(h, free[m], n, q)
  }

  predicate IsTail(h: Heap, c: int, n: int, q: int)
    requires h.HasSize()
  {
    0 <= c <= q && c < UNITS && q + n == h.After(c)
  }

  /**
   * Nothing is returned if and only if no free chunk is big enough. Otherwise the
   * heap stays in order with one more outstanding chunk, of the right size and
   * made of the last units of the first free chunk that is big enough.
   */
  lemma {:induction false} AllocationMeaning(h: Heap, free: seq<int>, used: set<int>, n: int, k: nat)
    requires Inv(h, free, used) && n > 0 && k <= |free| && NoneFits(h, free[..k], n)
    ensures var (g, ptr) := Allocated(h, free, used, n, k);
      if NoneFits(h, free, n) then ptr == NULL && g == h else IsNewChunk(h, free, used, n, g, ptr - 1)
    decreases |free| - k
  {
    if k < |free| {
      var p := free[k];
      ChunkInHeap(h, free, used, p);
      if h.len[p] > n {
        ShortenedInv(h, free, used, p, n);
        assert h.After(p) - n !in used;
        assert IsTail(h, free[k], n, h.After(p) - n);
      } else if h.len[p] == n {
        UnlinkedInv(h, free, used, k);
        assert p in Elements(free) && IsTail(h, free[k], n, p);
      } else {
        assert free[..k + 1] == free[..k] + [p];
        AllocationMeaning(h, free, used, n, k + 1);
      }
    } else {
      assert free[..k] == free;
    }
  }

  // ----- when freeing loses chunks

  /**
   * Chunk cp is merged with a free chunk after it that is not the first of the
   * list: the list then goes on from cp with the offset 0 that cp's header
   * holds, and not with what followed the merged chunk.
   */
  predicate LosesChunks(h: Heap, free: seq<int>, cp: int)
    requires h.HasSize() && Linked(h, free) && 0 <= cp < UNITS
  {
    var k := Neighbour(h, free, cp, 0);
    0 < k < |free| && h.After(free[k]) != cp && At(free, k + 1) != 0
  }

  lemma {:induction false} SamePrefix(h: Heap, free: seq<int>, used: set<int>, k: nat, cp: int, f: seq<int>, i: nat)
    requires Inv(h, free, used) && 0 < k < |free| && cp in used && i <= k
    requires Linked(JoinedRight(h, free, k, cp), f)
    ensures i < |f| && f[i] == if i < k then free[i] else cp
    decreases i
  {
    if i > 0 {
      SamePrefix(h, free, used, k, cp, f, i - 1);
      assert LinkedAt(JoinedRight(h, free, k, cp), f, i - 1) && LinkedAt(h, free, i - 1);
    }
  }

  /** From a common entry on, behind the place of the merge, the old list and a new one are the same. */
  lemma {:induction false} SameSuffix(h: Heap, free: seq<int>, used: set<int>, k: nat, cp: int, f: seq<int>, i: nat, m: nat)
    requires Inv(h, free, used) && 0 < k < |free| && cp in used && k < m < |free|
    requires Linked(JoinedRight(h, free, k, cp), f) && i < |f| && f[i] == free[m]
    ensures f[i..] == free[m..]
    decreases |free| - m
  {
    assert LinkedAt(JoinedRight(h, free, k, cp), f, i) && LinkedAt(h, free, m);
    assert cp !in Elements(free);
    assert f[i..] == [f[i]] + f[i + 1..] && free[m..] == [free[m]] + free[m + 1..];
    if m + 1 < |free| { SameSuffix(h, free, used, k, cp, f, i + 1, m + 1); }
  }

  /** Where the old list went on is not in any new one. */
  lemma SkippedChunk(h: Heap, free: seq<int>, used: set<int>, k: nat, cp: int, f: seq<int>)
    requires Inv(h, free, used) && 0 < k < |free| && cp in used && h.After(cp) == free[k] && At(free, k + 1) != 0
    requires Inv(JoinedRight(h, free, k, cp), f, used - {cp})
    ensures k + 1 < |free| && free[k + 1] !in f && forall c | c in f :: c in free || c == cp
  {
    var r := JoinedRight(h, free, k, cp);
    forall i: nat | i <= k { SamePrefix(h, free, used, k, cp, f, i); }
    assert LinkedAt(r, f, k) && h.next[cp] == 0;
    assert f[k + 1] == 0;
    assert cp !in Elements(free);
    assert 0 in Elements(free) + used;
    assert 0 in Elements(f) && 0 !in used - {cp};
    ChunkInHeap(h, free, used, cp);
    var m: nat :| m < |free| && free[m] == 0;
    assert forall j | 0 <= j < k :: free[j] == f[j] != f[k + 1];
    assert m > k + 1;
    SameSuffix(h, free, used, k, cp, f, k + 1, m);
    forall c | c in f ensures (c in free || c == cp) && c != free[k + 1] {
      var i: nat :| i < |f| && f[i] == c;
      if i > k { assert f[i] == f[k + 1..][i - (k + 1)] == free[m..][i - (k + 1)] == free[m + i - (k + 1)]; }
    }
  }

  lemma JoinedRightBreaks(h: Heap, free: seq<int>, used: set<int>, k: nat, cp: int, f: seq<int>)
    requires Inv(h, free, used) && 0 < k < |free| && cp in used && h.After(cp) == free[k] && At(free, k + 1) != 0
    ensures !Inv(JoinedRight(h, free, k, cp), f, used - {cp})
  {
    var r := JoinedRight(h, free, k, cp);
    if Inv(r, f, used - {cp}) {
      SkippedChunk(h, free, used, k, cp, f);
      var y := free[k + 1];
      EveryUnitInOneChunk(r.len, Elements(f) + (used - {cp}), y);
      var d :| d in Elements(f) + (used - {cp}) && Covers(r.len, d, y);
      assert d in free || d in used;
      assert y in Elements(free) && d != y;
      ChunkInHeap(h, free, used, d);
      ChunkInHeap(h, free, used, free[k]);
      assert false;
    }
  }

  /** Freeing keeps the heap in order if and only if it is not such a merge. */
  lemma FreeKeepsOrder(h: Heap, free: seq<int>, used: set<int>, cp: int)
    requires Inv(h, free, used) && cp in used
    ensures InOrder(Freed(h, free, cp), used - {cp}) <==> !LosesChunks(h, free, cp)
  {
    var k := Neighbour(h, free, cp, 0);
    if k == |free| {
      PushedInv(h, free, used, cp);
    } else if h.After(free[k]) == cp {
      JoinedLeftInv(h, free, used, free[k], cp);
    } else if LosesChunks(h, free, cp) {
      NeighbourIsNext(h, free, cp, 0);
      forall f { JoinedRightBreaks(h, free, used, k, cp, f); }
    } else {
      NeighbourIsNext(h, free, cp, 0);
      JoinedRightInv(h, free, used, k, cp);
    }
  }

  lemma {:induction false} NeighbourIsNext(h: Heap, free: seq<int>, cp: int, k: nat)
    requires h.HasSize() && Linked(h, free) && 0 <= cp < UNITS && k <= |free|
    ensures var r := Neighbour(h, free, cp, k);
      r < |free| ==> h.After(free[r]) == cp || h.After(cp) == free[r]
    decreases |free| - k
  {
    if k < |free| && h.After(free[k]) != cp && h.After(cp) != free[k] { NeighbourIsNext(h, free, cp, k + 1); }
  }

  /** Free chunk p lies next to cp. */
  predicate IsNeighbour(h: Heap, p: int, cp: int)
    requires h.HasSize()
  {
    0 <= p < UNITS && 0 <= cp < UNITS && (h.After(p) == cp || h.After(cp) == p)
  }

  /** Entry k of the free list is the first one that lies next to cp. */
  predicate IsFirstNeighbour(h: Heap, free: seq<int>, cp: int, k: nat)
    requires h.HasSize() && k <= |free|
  {
    (forall j | 0 <= j < k :: !IsNeighbour(h, free[j], cp)) && (k < |free| ==> IsNeighbour(h, free[k], cp))
  }

  lemma {:induction false} FirstNeighbour(h: Heap, free: seq<int>, cp: int, k: nat)
    requires h.HasSize() && Linked(h, free) && 0 <= cp < UNITS && k <= |free|
    requires forall j | 0 <= j < k :: !IsNeighbour(h, free[j], cp)
    ensures IsFirstNeighbour(h, free, cp, Neighbour(h, free, cp, k))
    decreases |free| - k
  {
    if k < |free| && h.After(free[k]) != cp && h.After(cp) != free[k] { FirstNeighbour(h, free, cp, k + 1); }
  }

  /**
   * What is freed becomes one free chunk with the first free chunk in the list that lies next to it, before or after
   * it, and in that one's place; without such a chunk it is a free chunk of its own, the first in the list.
   */
  lemma FreeMerges(h: Heap, free: seq<int>, used: set<int>, cp: int, k: nat)
    requires Inv(h, free, used) && cp in used && 0 <= cp < UNITS && k <= |free| && IsFirstNeighbour(h, free, cp, k)
    ensures var g := Freed(h, free, cp);
      g.HasSize() &&
      if k == |free| then Inv(g, [cp] + free, used - {cp}) && g.len == h.len
      else
        var c := if h.After(free[k]) == cp then free[k] else cp;
        && g.len[c] == h.len[free[k]] + h.len[cp] && (forall d | 0 <= d < UNITS && d != c :: g.len[d] == h.len[d])
        && (!LosesChunks(h, free, cp) ==> Inv(g, free[k := c], used - {cp}))
  {
    FirstNeighbour(h, free, cp, 0);
    var n := Neighbour(h, free, cp, 0);
    assert n == k;
    if k == |free| {
      PushedInv(h, free, used, cp);
    } else if h.After(free[k]) == cp {
      JoinedLeftInv(h, free, used, free[k], cp);
      assert free[k := free[k]] == free;
    } else if !LosesChunks(h, free, cp) {
      JoinedRightInv(h, free, used, k, cp);
    }
  }

  // ----- freeing as it is meant

  /** The right merge with cp leading on to where the merged chunk did, whatever its place in the list. */
  function JoinedRightAsMeant(h: Heap, free: seq<int>, k: nat, cp: int): Heap
    requires h.HasSize() && Linked(h, free) && k < |free| && 0 <= cp < UNITS
  {
    var g := JoinedRight(h, free, k, cp);
    g.(next := g.next[cp := h.next[free[k]]])
  }

  function FreedAsMeant(h: Heap, free: seq<int>, cp: int): Heap
    requires h.HasSize() && Linked(h, free) && 0 <= cp < UNITS
  {
    var k := Neighbour(h, free, cp, 0);
    if k < |free| && h.After(free[k]) != cp then JoinedRightAsMeant(h, free, k, cp) else Freed(h, free, cp)
  }

  lemma JoinedRightAsMeantInv(h: Heap, free: seq<int>, used: set<int>, k: nat, cp: int)
    requires Inv(h, free, used) && k < |free| && cp in used && h.After(cp) == free[k]
    ensures Inv(JoinedRightAsMeant(h, free, k, cp), free[k := cp], used - {cp})
  {
    var p, f, chunks := free[k], free[k := cp], Elements(free) + used;
    assert p in Elements(free);
    JoinTiled(h.len, chunks, cp, p);
    assert forall i | 0 <= i < |f| :: f[i] == if i == k then cp else free[i];
    assert cp !in Elements(free);
    forall i: nat | i < |f| ensures LinkedAt(JoinedRightAsMeant(h, free, k, cp), f, i) {
      assert LinkedAt(h, free, i) && LinkedAt(h, free, k);
    }
    assert Elements(f) == Elements(free) - {p} + {cp};
    assert Elements(f) + (used - {cp}) == chunks - {p};
  }

  lemma FreeAsMeantKeepsOrder(h: Heap, free: seq<int>, used: set<int>, cp: int)
    requires Inv(h, free, used) && cp in used
    ensures InOrder(FreedAsMeant(h, free, cp), used - {cp})
  {
    var k := Neighbour(h, free, cp, 0);
    NeighbourIsNext(h, free, cp, 0);
    if k < |free| && h.After(free[k]) != cp {
      JoinedRightAsMeantInv(h, free, used, k, cp);
    } else {
      FreeKeepsOrder(h, free, used, cp);
    }
  }

  datatype HeapState = HeapState(h: Heap, used: set<int>)

  /** One call: an allocation of n units, or the release of chunk cp as it is meant. */
  ghost predicate IsCall(s: HeapState, t: HeapState, free: seq<int>, n: int, cp: int)
    requires Inv(s.h, free, s.used)
  {
    || (n > 0 && var (g, ptr) := Allocated(s.h, free, s.used, n, 0);
          t == HeapState(g, if ptr == NULL then s.used else s.used + {ptr - 1}))
    || (cp in s.used && t == HeapState(FreedAsMeant(s.h, free, cp), s.used - {cp}))
  }

  ghost predicate IsRunAsMeant(run: seq<HeapState>) {
    && run != [] && run[0].h.HasSize() && run[0] == HeapState(InitialHeap(run[0].h), {})
    && forall i | 0 < i < |run| :: NextAsMeant(run[i - 1], run[i])
  }

  ghost predicate NextAsMeant(s: HeapState, t: HeapState) {
    exists free, n, cp :: Inv(s.h, free, s.used) && IsCall(s, t, free, n, cp)
  }

  /** With that merge every run of allocations and releases keeps the heap in order. */
  lemma {:induction false} RunAsMeantKeepsOrder(run: seq<HeapState>, i: nat)
    requires IsRunAsMeant(run) && i < |run|
    ensures InOrder(run[i].h, run[i].used)
  {
    if i == 0 {
      InitialInv(run[0].h);
    } else {
      RunAsMeantKeepsOrder(run, i - 1);
      var s, t := run[i - 1], run[i];
      assert NextAsMeant(s, t);
      var free, n, cp :| Inv(s.h, free, s.used) && IsCall(s, t, free, n, cp);
      if cp in s.used { FreeAsMeantKeepsOrder(s.h, free, s.used, cp); }
      if n > 0 { AllocationMeaning(s.h, free, s.used, n, 0); }
    }
  }

  // ----- a heap that loses chunks

  /** Lists of no, one and two entries, read off the headers. */
  lemma ShortLists(h: Heap, free: seq<int>)
    requires h.HasSize() && Linked(h, free)
    ensures h.freelist == UNITS ==> free == []
    ensures 0 <= h.freelist < UNITS && h.next[h.freelist] == UNITS ==> free == [h.freelist]
    ensures 0 <= h.freelist < UNITS && 0 <= h.next[h.freelist] < UNITS && h.next[h.next[h.freelist]] == UNITS
      ==> free == [h.freelist, h.next[h.freelist]]
  {
    if |free| > 0 { assert LinkedAt(h, free, 0); }
    if |free| > 1 { assert LinkedAt(h, free, 1); }
  }

  /**
   * The heap after four allocations, of units 104 to 127, 80 to 103, 40 to 79
   * and 0 to 39, and the release of the first and the last of them. Freeing the
   * second makes the free list run from 0 to 80 and back for ever.
   */
  const DIVIDED: Heap := Heap(0,
    seq(UNITS, i => if i == 0 then 104 else if i == 104 then UNITS else 0),
    seq(UNITS, i => if i == 80 || i == 104 then 24 else if i == 0 || i == 40 then 40 else 0))

  lemma FreeListBecomesCyclic()
    ensures Inv(DIVIDED, [0, 104], {40, 80}) && LosesChunks(DIVIDED, [0, 104], 80)
    ensures var h := Freed(DIVIDED, [0, 104], 80);
      h.freelist == 0 && h.next[0] == 80 && h.next[80] == 0
  {
    var h, free := DIVIDED, [0, 104];
    var chunks := {0, 40, 80, 104};
    assert TiledAt(h.len, chunks, 0) && TiledAt(h.len, chunks, 40) && TiledAt(h.len, chunks, 80) && TiledAt(h.len, chunks, 104);
    assert LinkedAt(h, free, 0) && LinkedAt(h, free, 1);
    assert Elements(free) == {0, 104};
    assert Elements(free) + {40, 80} == chunks;
    assert Neighbour(h, free, 80, 0) == Neighbour(h, free, 80, 1) == 1;
  }
}
