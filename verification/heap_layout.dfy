/** The emergency heap of the exception runtime: its layout, and what keeps it in order. */
module HeapLayout {

  /** The heap in units of a chunk header: HEAP_SIZE / sizeof(heap_node). */
  const UNITS: int := 128
  const NULL: int := -1

  /** The head of the free list, and next_node and len of the header at every offset. */
  datatype Heap = Heap(freelist: int, next: seq<int>, len: seq<int>) {
    predicate HasSize() { |next| == UNITS && |len| == UNITS }

    /** The start of the next block. */
    function After(c: int): int
      requires HasSize() && 0 <= c < UNITS
    {
      c + len[c]
    }
  }

  /** Entry k of a list that ends with the offset one past the heap. */
  function At(list: seq<int>, k: nat): int {
    if k < |list| then list[k] else UNITS
  }

  /** The free list leads through these chunks, through none twice, to its end. */
  predicate Linked(h: Heap, free: seq<int>)
    requires h.HasSize()
  {
    && h.freelist == At(free, 0)
    && (forall k: nat {:trigger LinkedAt(h, free, k)} | k < |free| :: LinkedAt(h, free, k))
    && (forall k | 0 <= k < |free| :: 0 <= free[k] < UNITS)
    && forall i, j | 0 <= i < j < |free| :: free[i] != free[j]
  }

  predicate LinkedAt(h: Heap, free: seq<int>, k: nat)
    requires h.HasSize() && k < |free|
  {
    0 <= free[k] < UNITS && h.next[free[k]] == At(free, k + 1)
  }

  /** The chunks lie one after the other from the start of the heap to its end. */
  predicate Tiled(len: seq<int>, chunks: set<int>)
    requires |len| == UNITS
  {
    && 0 in chunks && (forall c | c in chunks :: 0 <= c < UNITS)
    && forall c {:trigger TiledAt(len, chunks, c)} | c in chunks :: TiledAt(len, chunks, c)
  }

  predicate TiledAt(len: seq<int>, chunks: set<int>, c: int)
    requires |len| == UNITS && 0 <= c < UNITS
  {
    && 1 <= len[c] && c + len[c] <= UNITS
    && (c + len[c] == UNITS || c + len[c] in chunks)
    && forall d | d in chunks :: !(c < d < c + len[c])
  }

  function Elements(list: seq<int>): set<int> {
    set c | c in list
  }

  /** The heap is in order: free and outstanding chunks tile it, and the free list holds exactly the free ones. */
  predicate Inv(h: Heap, free: seq<int>, used: set<int>) {
    && h.HasSize() && Linked(h, free) && Elements(free) !! used && Tiled(h.len, Elements(free) + used)
    && forall c | c in used :: 0 <= c < UNITS && h.next[c] == 0
  }

  ghost predicate InOrder(h: Heap, used: set<int>) {
    exists free :: Inv(h, free, used)
  }

  // ----- what it means to tile

  predicate Covers(len: seq<int>, c: int, unit: int)
    requires |len| == UNITS
  {
    0 <= c < UNITS && c <= unit < c + len[c]
  }

  /** Every unit of the heap belongs to exactly one chunk. */
  lemma {:induction false} EveryUnitInOneChunk(len: seq<int>, chunks: set<int>, unit: int)
    requires |len| == UNITS && Tiled(len, chunks) && 0 <= unit < UNITS
    ensures exists c :: c in chunks && Covers(len, c, unit) && forall d | d in chunks && Covers(len, d, unit) :: d == c
  {
    var c := ChunkOf(len, chunks, unit, 0);
    forall d | d in chunks && Covers(len, d, unit) ensures d == c {
      assert TiledAt(len, chunks, c) && TiledAt(len, chunks, d);
    }
  }

  lemma {:induction false} ChunkOf(len: seq<int>, chunks: set<int>, unit: int, from: int) returns (c: int)
    requires |len| == UNITS && Tiled(len, chunks) && from <= unit < UNITS && from in chunks
    ensures c in chunks && Covers(len, c, unit)
    decreases UNITS - from
  {
    assert TiledAt(len, chunks, from);
    if unit < from + len[from] { c := from; } else { c := ChunkOf(len, chunks, unit, from + len[from]); }
  }

  // ----- splitting and joining chunks

  lemma SplitTiled(len: seq<int>, chunks: set<int>, p: int, n: int)
    requires |len| == UNITS && Tiled(len, chunks) && p in chunks && 0 <= p < UNITS && 0 < n < len[p]
    ensures var q := p + len[p] - n;
      0 <= q < UNITS && q !in chunks && Tiled(len[p := len[p] - n][q := n], chunks + {q})
  {
    assert TiledAt(len, chunks, p);
    var q := p + len[p] - n;
    assert q !in chunks;
    forall c | c in chunks + {q} { SplitTiledAt(len, chunks, p, n, c); }
  }

  lemma SplitTiledAt(len: seq<int>, chunks: set<int>, p: int, n: int, c: int)
    requires |len| == UNITS && Tiled(len, chunks) && p in chunks && 0 <= p < UNITS && 0 < n < len[p]
    requires p + len[p] <= UNITS && c in chunks + {p + len[p] - n}
    ensures var q := p + len[p] - n;
      0 <= c < UNITS && TiledAt(len[p := len[p] - n][q := n], chunks + {q}, c)
  {
    var q := p + len[p] - n;
    var l := len[p := len[p] - n][q := n];
    assert TiledAt(len, chunks, p);
    if c == q {
      assert l[c] == n;
    } else if c == p {
      assert l[c] == len[p] - n;
    } else {
      assert TiledAt(len, chunks, c);
      assert l[c] == len[c] && !(c < p < c + len[c]) && !(p < c < p + len[p]);
    }
  }

  lemma JoinTiled(len: seq<int>, chunks: set<int>, a: int, b: int)
    requires |len| == UNITS && Tiled(len, chunks) && a in chunks && b in chunks
    requires 0 <= a < UNITS && 0 <= b < UNITS && a + len[a] == b
    ensures Tiled(len[a := len[a] + len[b]], chunks - {b})
  {
    assert TiledAt(len, chunks, a) && TiledAt(len, chunks, b);
    var l := len[a := len[a] + len[b]];
    forall c | c in chunks - {b} ensures TiledAt(l, chunks - {b}, c) {
      assert TiledAt(len, chunks, c);
      if c != a && c + len[c] == b { assert false; }
    }
  }
}
