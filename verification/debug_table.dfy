/** The operations on a hash table of the debug database, and its growth. */
module DebugTable {
  import opened ChainTable
  import opened NextPrimeSearch
  import opened Primes
  import MersennePrime

  /** More buckets than the address space has room for. */
  const MAX_BUCKETS: nat := 0x2000_0000_0000_0000

  /** A table in order, with as many buckets as nodes at least. */
  ghost predicate Tidy(hash: Hash, t: Table, chains: seq<seq<int>>) {
    InTable(hash, t, chains) && |t.key| <= |t.heads| < MAX_BUCKETS
  }

  /** A table in order together with its chains. */
  datatype Snapshot = Snapshot(hash: Hash, table: Table, chains: seq<seq<int>>)

  type TidySnapshot = s: Snapshot | Tidy(s.hash, s.table, s.chains)
    ghost witness Snapshot(imap[], Table([], map[], map[]), [])

  /** The node with the key, or NULL. */
  method Find(hash: Hash, t: Table, ghost chains: seq<seq<int>>, k: int) returns (n: int)
    requires Tidy(hash, t, chains)
    ensures n in t.key ==> t.key[n] == k
    ensures n !in t.key ==> n == NULL && !Has(t.key, k)
  {
    if |t.heads| == 0 {
      return NULL;
    }
    var b := Bucket(hash, k, |t.heads|);
    n := t.heads[b];
    ghost var j := 0;
    while n != NULL
      invariant j <= |chains[b]| && n == At(chains[b], j) && forall i | 0 <= i < j :: t.key[chains[b][i]] != k
      decreases |chains[b]| - j
    {
      assert LinkedAt(t.next, chains[b], j);
      if t.key[n] == k {
        return;
      }
      n := t.next[n];
      j := j + 1;
    }
    NotFound(hash, t, chains, k, j);
  }

  /** There is a bucket left for one more node, or memory for a larger table that fits the address space. */
  predicate TakesOneMore(t: Table, memory: bool) {
    |t.key| < |t.heads| || (memory && 2 * |t.heads| < MAX_BUCKETS)
  }

  /** The number of buckets once there is room for one more node. */
  predicate GrowsTo(t: Table, memory: bool, n: nat) {
    if |t.key| < |t.heads| || !TakesOneMore(t, memory) then n == |t.heads| else IsNextPrime(2 * |t.heads| + 1, n)
  }

  /** Makes room for one more node: in a table of at least twice the size, if the buckets are used up. */
  method Grow(hash: Hash, t0: Table, ghost chains0: seq<seq<int>>, memory: bool)
    returns (ok: bool, t: Table, ghost chains: seq<seq<int>>)
    requires Tidy(hash, t0, chains0)
    ensures Tidy(hash, t, chains) && t.key == t0.key
    ensures ok <==> TakesOneMore(t0, memory)
    ensures if ok then |t.key| < |t.heads| else t == t0
    ensures GrowsTo(t0, memory, |t.heads|) && (|t0.key| < |t0.heads| ==> t == t0)
  {
    ok, t, chains := true, t0, chains0;
    if |t.key| + 1 > |t.heads| {
      MersennePrime.MIsPrime();
      var prime := NextPrime(2 * |t.heads| + 1, Bits64);
      if !memory || prime.prime >= MAX_BUCKETS {
        ok := false;
        return;
      }
      t, chains := Rehash(hash, t, chains, prime.prime);
    }
  }

  /** Moves every node to the front of the bucket that its key selects among n new ones. */
  method Rehash(hash: Hash, t0: Table, ghost chains: seq<seq<int>>, n: nat)
    returns (t: Table, ghost moved: seq<seq<int>>)
    requires Tidy(hash, t0, chains) && |t0.heads| < n < MAX_BUCKETS
    ensures Tidy(hash, t, moved) && t.key == t0.key && |t.heads| == n
  {
    var buckets, next := seq(n, _ => NULL), t0.next;
    moved := seq(n, _ => []);
    MoveFirstBucket(hash, t0, chains, buckets, moved);
    for b := 0 to |t0.heads|
      invariant |buckets| == n && MovedBefore(hash, t0, chains, b, next, buckets, moved)
    {
      var q := t0.heads[b];
      ghost var rest := chains[b];
      while q != NULL
        invariant |buckets| == n && Moving(hash, t0, chains, b, q, rest, next, buckets, moved)
        decreases |rest|
      {
        MoveOne(hash, t0, chains, b, q, rest, next, buckets, moved);
        var h := Bucket(hash, t0.key[q], n);
        var r := next[q];
        next := next[q := buckets[h]];
        buckets := buckets[h := q];
        moved := moved[h := [q] + moved[h]];
        rest := rest[1..];
        q := r;
      }
      MoveNextBucket(hash, t0, chains, b, next, buckets, moved);
    }
    t := Table(buckets, next, t0.key);
  }

  /** A new node for the key at the front of its bucket. */
  method Push(hash: Hash, t0: Table, ghost chains0: seq<seq<int>>, k: int, node: int)
    returns (t: Table, ghost chains: seq<seq<int>>)
    requires Tidy(hash, t0, chains0) && |t0.key| < |t0.heads| && node != NULL && node !in t0.key && !Has(t0.key, k)
    ensures Tidy(hash, t, chains) && t.key == t0.key[node := k] && |t.heads| == |t0.heads|
  {
    PushInTable(hash, t0, chains0, node, k);
    var b := Bucket(hash, k, |t0.heads|);
    chains := chains0[b := [node] + chains0[b]];
    t := Table(t0.heads[b := node], t0.next[node := t0.heads[b]], t0.key[node := k]);
  }

  /**
   * The insertion of an iterator when there is no memory for its node: the
   * bucket's head is overwritten with the null pointer before the exception is
   * thrown. The table stays in order just when the bucket was empty.
   */
  method PushFails(hash: Hash, t0: Table, ghost chains: seq<seq<int>>, k: int) returns (t: Table)
    requires Tidy(hash, t0, chains) && |t0.key| < |t0.heads|
    ensures t.key == t0.key && t.next == t0.next && |t.heads| == |t0.heads|
    ensures var b := Bucket(hash, k, |t0.heads|);
      && t.heads[b] == NULL && (t0.heads[b] == NULL ==> t == t0)
      && (t0.heads[b] != NULL ==> t0.heads[b] in t0.key && Bucket(hash, t0.key[t0.heads[b]], |t0.heads|) == b)
    ensures (exists c :: InTable(hash, t, c)) <==> t0.heads[Bucket(hash, k, |t0.heads|)] == NULL
    ensures t0.heads[Bucket(hash, k, |t0.heads|)] != NULL ==> forall c :: !Tidy(hash, t, c)
  {
    var b := Bucket(hash, k, |t0.heads|);
    t := t0.(heads := t0.heads[b := NULL]);
    if t0.heads[b] == NULL {
      assert InTable(hash, t, chains);
    } else {
      var n := t0.heads[b];
      assert Linked(t0.next, t0.heads[b], chains[b]) && n in chains[b];
      forall c ensures !InTable(hash, t, c) {
        assert InTable(hash, t, c) ==> InChain(hash, t.key, c, n);
      }
    }
  }

  /** A bucket has a first node exactly if some node's key selects it. */
  lemma FirstOfBucket(hash: Hash, t: Table, chains: seq<seq<int>>, b: nat)
    requires Tidy(hash, t, chains) && b < |t.heads|
    ensures t.heads[b] != NULL <==> exists n | n in t.key :: Bucket(hash, t.key[n], |t.heads|) == b
  {
    assert Linked(t.next, t.heads[b], chains[b]);
    if t.heads[b] != NULL { assert t.heads[b] in chains[b] && Bucket(hash, t.key[t.heads[b]], |t.heads|) == b; }
    forall n | n in t.key && Bucket(hash, t.key[n], |t.heads|) == b ensures t.heads[b] != NULL {
      assert InChain(hash, t.key, chains, n);
    }
  }

  /** A table of two buckets in order: with node 7 for pointer 40 in the second, whose bucket pointer 42 selects as well. */
  lemma BucketInUse()
    ensures var hash, t: Table := imap[40 := 5, 42 := 7], Table([NULL, 7], map[7 := NULL], map[7 := 40]);
      Tidy(hash, t, [[], [7]]) && |t.key| < |t.heads| && !Has(t.key, 42) && t.heads[Bucket(hash, 42, 2)] == 7
  {
    assert LinkedAt(map[7 := NULL], [7], 0);
  }

  /** Takes the node with the key out of the table; NULL if there is none. */
  method Remove(hash: Hash, t0: Table, ghost chains0: seq<seq<int>>, k: int)
    returns (n: int, t: Table, ghost chains: seq<seq<int>>)
    requires Tidy(hash, t0, chains0)
    ensures Tidy(hash, t, chains)
    ensures if n == NULL then !Has(t0.key, k) && t == t0 else n in t0.key && t0.key[n] == k && t.key == t0.key - {n}
  {
    t, chains := t0, chains0;
    if |t.heads| == 0 {
      n := NULL;
      return;
    }
    var b := Bucket(hash, k, |t.heads|);
    n := t.heads[b];
    var q := NULL;
    ghost var j := 0;
    while n != NULL && t.key[n] != k
      invariant j <= |chains[b]| && n == At(chains[b], j) && q == (if j == 0 then NULL else chains[b][j - 1])
      invariant n != NULL ==> n in t.key
      invariant forall i | 0 <= i < j :: t.key[chains[b][i]] != k
      decreases |chains[b]| - j
    {
      assert LinkedAt(t.next, chains[b], j);
      q := n;
      n := t.next[n];
      j := j + 1;
    }
    if n == NULL {
      NotFound(hash, t, chains, k, j);
      return;
    }
    t, chains := TakeOut(hash, t, chains, b, j, n, q);
  }

  /** Takes node n, entry j of chain b, out of the table; q is the one before it, or NULL. */
  method TakeOut(hash: Hash, t0: Table, ghost chains0: seq<seq<int>>, b: nat, ghost j: nat, n: int, q: int)
    returns (t: Table, ghost chains: seq<seq<int>>)
    requires Tidy(hash, t0, chains0) && b < |chains0| == |t0.heads| && j < |chains0[b]|
    requires n == chains0[b][j] && q == if j == 0 then NULL else chains0[b][j - 1]
    ensures Tidy(hash, t, chains) && n in t0.key && t.key == t0.key - {n}
  {
    var next := NextOf(hash, t0, chains0, b, j, n, q);
    hide InTable, Linked;
    RemovedInTable(hash, t0, chains0, b, j);
    chains := chains0[b := Without(chains0[b], j)];
    t := if q == NULL then Table(t0.heads[b := next], t0.next - {n}, t0.key - {n})
         else Table(t0.heads, t0.next[q := next] - {n}, t0.key - {n});
  }

  method NextOf(hash: Hash, t: Table, ghost chains: seq<seq<int>>, ghost b: nat, ghost j: nat, n: int, ghost q: int)
    returns (next: int)
    requires Tidy(hash, t, chains) && b < |chains| == |t.heads| && j < |chains[b]|
    requires n == chains[b][j] && q == if j == 0 then NULL else chains[b][j - 1]
    ensures n in t.next && n in t.key && next == t.next[n] && (q == NULL <==> j == 0)
  {
    assert LinkedAt(t.next, chains[b], j);
    next := t.next[n];
  }
}
