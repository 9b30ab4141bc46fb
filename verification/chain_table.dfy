/** The hash tables of the debug database: buckets of singly linked nodes. */
module ChainTable {
  import opened NextPrimeSearch

  const NULL: int := -1

  // ----- chains

  /** Entry k of a chain that ends with a null pointer. */
  function At(chain: seq<int>, k: nat): int {
    if k < |chain| then chain[k] else NULL
  }

  /** The nodes from head on, as their next pointers lead through them. */
  predicate Linked(next: map<int, int>, head: int, chain: seq<int>) {
    && head == At(chain, 0)
    && (forall k: nat {:trigger LinkedAt(next, chain, k)} | k < |chain| :: LinkedAt(next, chain, k))
    && (forall k | 0 <= k < |chain| :: chain[k] != NULL)
    && forall i, j | 0 <= i < j < |chain| :: chain[i] != chain[j]
  }

  predicate LinkedAt(next: map<int, int>, chain: seq<int>, k: nat)
    requires k < |chain|
  {
    chain[k] in next && next[chain[k]] == At(chain, k + 1)
  }

  lemma LinkedElsewhere(next: map<int, int>, head: int, chain: seq<int>, n: int, m: int)
    requires Linked(next, head, chain) && n !in chain
    ensures Linked(next[n := m], head, chain)
  {
    var changed := next[n := m];
    forall k: nat | k < |chain| ensures LinkedAt(changed, chain, k) { assert LinkedAt(next, chain, k); }
  }

  lemma LinkedRest(next: map<int, int>, head: int, chain: seq<int>)
    requires Linked(next, head, chain) && chain != []
    ensures head == chain[0] && head in next && head !in chain[1..] && Linked(next, next[head], chain[1..])
  {
    assert LinkedAt(next, chain, 0);
    var rest := chain[1..];
    forall k: nat | k < |rest| ensures LinkedAt(next, rest, k) { assert LinkedAt(next, chain, k + 1); }
  }

  lemma LinkedPush(next: map<int, int>, head: int, chain: seq<int>, n: int)
    requires Linked(next, head, chain) && n !in chain && n != NULL
    ensures Linked(next[n := head], n, [n] + chain)
  {
    var changed, longer := next[n := head], [n] + chain;
    forall k: nat | k < |longer| ensures LinkedAt(changed, longer, k) {
      if k > 0 { assert LinkedAt(next, chain, k - 1); }
    }
  }

  /** Entry k leaves the chain: its predecessor, if it has one, now leads to its successor. */
  lemma LinkedRemove(next: map<int, int>, head: int, chain: seq<int>, k: nat)
    requires Linked(next, head, chain) && k < |chain|
    ensures chain[k] in next && (k > 0 ==> chain[k - 1] in next)
    ensures var n := chain[k];
      Linked((if k == 0 then next else next[chain[k - 1] := next[n]]) - {n}, if k == 0 then next[n] else head, Without(chain, k))
  {
    assert LinkedAt(next, chain, k);
    if k > 0 { assert LinkedAt(next, chain, k - 1); }
    var n, shorter := chain[k], Without(chain, k);
    var changed := (if k == 0 then next else next[chain[k - 1] := next[n]]) - {n};
    assert forall i | 0 <= i < |shorter| :: shorter[i] == if i < k then chain[i] else chain[i + 1];
    forall i: nat | i < |shorter| ensures LinkedAt(changed, shorter, i) {
      assert LinkedAt(next, chain, if i < k then i else i + 1);
    }
  }

  function Without(chain: seq<int>, k: nat): seq<int>
    requires k < |chain|
  {
    chain[..k] + chain[k + 1..]
  }

  // ----- tables

  /** The memory of a table: bucket heads, and the next pointer and key of every node. */
  datatype Table = Table(heads: seq<int>, next: map<int, int>, key: map<int, int>)

  /** The hash of a pointer, which can be any. */
  type Hash = imap<int, nat>

  function Bucket(hash: Hash, key: int, n: nat): nat
    requires n > 0
  {
    (if key in hash then hash[key] else 0) % n
  }

  /** Every node is in the chain of the bucket that its key selects, and nothing else is; no two have the same key. */
  ghost predicate InTable(hash: Hash, t: Table, chains: seq<seq<int>>) {
    && |chains| == |t.heads| && t.next.Keys == t.key.Keys && NULL !in t.key
    && (forall b | 0 <= b < |chains| :: Linked(t.next, t.heads[b], chains[b]))
    && (forall b, n | 0 <= b < |chains| && n in chains[b] :: n in t.key && Bucket(hash, t.key[n], |chains|) == b)
    && (forall n {:trigger InChain(hash, t.key, chains, n)} | n in t.key :: InChain(hash, t.key, chains, n))
    && Injective(t.key)
  }

  predicate InChain(hash: Hash, key: map<int, int>, chains: seq<seq<int>>, n: int)
    requires n in key
  {
    |chains| > 0 && n in chains[Bucket(hash, key[n], |chains|)]
  }

  ghost predicate Injective(key: map<int, int>) {
    forall n, m {:trigger SameKey(key, n, m)} | n in key && m in key && SameKey(key, n, m) :: n == m
  }

  predicate SameKey(key: map<int, int>, n: int, m: int)
    requires n in key && m in key
  {
    key[n] == key[m]
  }

  lemma OtherKeys(key: map<int, int>, n: int)
    requires Injective(key) && n in key
    ensures forall m | m in key && m != n :: key[m] != key[n]
  {
    forall m | m in key && m != n ensures key[m] != key[n] { assert !SameKey(key, m, n); }
  }

  /** Some node has the key. */
  ghost predicate Has(key: map<int, int>, k: int) {
    exists n :: n in key && key[n] == k
  }

  /** A search that comes to the end of the key's chain has missed nothing. */
  lemma NotFound(hash: Hash, t: Table, chains: seq<seq<int>>, k: int, j: nat)
    requires InTable(hash, t, chains) && |chains| > 0
    requires var chain := chains[Bucket(hash, k, |chains|)];
      j <= |chain| && At(chain, j) == NULL && forall i | 0 <= i < j :: t.key[chain[i]] != k
    ensures !Has(t.key, k)
  {
    var b := Bucket(hash, k, |chains|);
    assert Linked(t.next, t.heads[b], chains[b]);
    forall n | n in t.key ensures t.key[n] != k {
      assert InChain(hash, t.key, chains, n);
    }
  }

  lemma PushInTable(hash: Hash, t: Table, chains: seq<seq<int>>, n: int, k: int)
    requires InTable(hash, t, chains) && |chains| > 0 && n !in t.key && n != NULL && !Has(t.key, k)
    ensures var b := Bucket(hash, k, |chains|);
      InTable(hash, Table(t.heads[b := n], t.next[n := t.heads[b]], t.key[n := k]), chains[b := [n] + chains[b]])
  {
    var b := Bucket(hash, k, |chains|);
    assert forall x | 0 <= x < |chains| :: n !in chains[x];
    forall x | 0 <= x < |chains| && x != b { LinkedElsewhere(t.next, t.heads[x], chains[x], n, t.heads[b]); }
    LinkedPush(t.next, t.heads[b], chains[b], n);
    var key, longer := t.key[n := k], chains[b := [n] + chains[b]];
    forall m | m in key ensures InChain(hash, key, longer, m) {
      if m != n { assert InChain(hash, t.key, chains, m); }
    }
    forall m, l | m in key && l in key && SameKey(key, m, l) ensures m == l {
      if m != n && l != n { assert SameKey(t.key, m, l); }
    }
  }

  /** The table without entry j of chain b. */
  function Removed(t: Table, chains: seq<seq<int>>, b: nat, j: nat): Table
    requires b < |chains| == |t.heads| && j < |chains[b]| && chains[b][j] in t.next && Linked(t.next, t.heads[b], chains[b])
  {
    var n := chains[b][j];
    if j == 0 then Table(t.heads[b := t.next[n]], t.next - {n}, t.key - {n})
    else Table(t.heads, t.next[chains[b][j - 1] := t.next[n]] - {n}, t.key - {n})
  }

  lemma RemovedInTable(hash: Hash, t: Table, chains: seq<seq<int>>, b: nat, j: nat)
    requires InTable(hash, t, chains) && b < |chains| && j < |chains[b]|
    ensures chains[b][j] in t.next
    ensures InTable(hash, Removed(t, chains, b, j), chains[b := Without(chains[b], j)])
  {
    LinkedRemove(t.next, t.heads[b], chains[b], j);
    var n, r := chains[b][j], Removed(t, chains, b, j);
    forall x | 0 <= x < |chains| && x != b ensures Linked(r.next, t.heads[x], chains[x]) {
      RemovedElsewhere(t.next, r.next, t.heads[x], chains[x]);
    }
    WithoutElements(chains[b], j);
    var shorter := chains[b := Without(chains[b], j)];
    forall m | m in r.key ensures InChain(hash, r.key, shorter, m) { assert InChain(hash, t.key, chains, m); }
    forall m, l | m in r.key && l in r.key && SameKey(r.key, m, l) ensures m == l { assert SameKey(t.key, m, l); }
  }

  lemma RemovedElsewhere(next: map<int, int>, changed: map<int, int>, head: int, chain: seq<int>)
    requires Linked(next, head, chain) && forall n | n in chain :: n in next && n in changed && changed[n] == next[n]
    ensures Linked(changed, head, chain)
  {
    forall k: nat | k < |chain| ensures LinkedAt(changed, chain, k) { assert LinkedAt(next, chain, k); }
  }

  lemma WithoutElements(chain: seq<int>, k: nat)
    requires k < |chain| && forall i, j | 0 <= i < j < |chain| :: chain[i] != chain[j]
    ensures forall n :: n in Without(chain, k) <==> n in chain && n != chain[k]
  {
    var shorter := Without(chain, k);
    assert forall i | 0 <= i < |shorter| :: shorter[i] == if i < k then chain[i] else chain[i + 1];
    forall n | n in chain && n != chain[k] ensures n in shorter {
      var i :| 0 <= i < |chain| && chain[i] == n;
      assert shorter[if i < k then i else i - 1] == n;
    }
  }

  // ----- moving every node to a larger table

  /** Buckets before b, and the nodes of bucket b that are not in rest, have been moved to the new chains. */
  ghost predicate Moved(hash: Hash, t: Table, b: nat, rest: seq<int>, n: int)
    requires n in t.key && |t.heads| > 0
  {
    var x := Bucket(hash, t.key[n], |t.heads|);
    x < b || (x == b && n !in rest)
  }

  ghost predicate Moving(hash: Hash, t: Table, chains: seq<seq<int>>, b: nat, q: int, rest: seq<int>,
      next: map<int, int>, heads: seq<int>, moved: seq<seq<int>>) {
    && InTable(hash, t, chains) && next.Keys == t.key.Keys && |moved| == |heads| > 0 && |chains| > 0
    && Linked(next, q, rest) && (forall n | n in rest :: n in t.key && Bucket(hash, t.key[n], |chains|) == b)
    && (forall x | b < x < |chains| :: Linked(next, t.heads[x], chains[x]))
    && (forall x | 0 <= x < |moved| :: Linked(next, heads[x], moved[x]))
    && (forall x, n | 0 <= x < |moved| && n in moved[x] ::
      n in t.key && Moved(hash, t, b, rest, n) && Bucket(hash, t.key[n], |moved|) == x)
    && forall n | n in t.key && Moved(hash, t, b, rest, n) :: n in moved[Bucket(hash, t.key[n], |moved|)]
  }

  /** The node at q goes to the front of its new chain. */
  lemma MoveOne(hash: Hash, t: Table, chains: seq<seq<int>>, b: nat, q: int, rest: seq<int>,
      next: map<int, int>, heads: seq<int>, moved: seq<seq<int>>)
    requires Moving(hash, t, chains, b, q, rest, next, heads, moved) && q != NULL
    ensures rest != [] && q in next && q in t.key
    ensures var h := Bucket(hash, t.key[q], |heads|);
      Moving(hash, t, chains, b, next[q], rest[1..], next[q := heads[h]], heads[h := q], moved[h := [q] + moved[h]])
  {
    var h := Bucket(hash, t.key[q], |heads|);
    LinkedRest(next, q, rest);
    assert q in rest && forall n :: n in rest <==> n == q || n in rest[1..];
    assert forall x | 0 <= x < |moved| :: q !in moved[x];
    forall x | 0 <= x < |moved| && x != h { LinkedElsewhere(next, heads[x], moved[x], q, heads[h]); }
    LinkedPush(next, heads[h], moved[h], q);
    LinkedElsewhere(next, next[q], rest[1..], q, heads[h]);
    forall x | b < x < |chains| ensures Linked(next[q := heads[h]], t.heads[x], chains[x]) {
      assert q !in chains[x];
      LinkedElsewhere(next, t.heads[x], chains[x], q, heads[h]);
    }
  }

  /** All before bucket b has been moved. */
  ghost predicate MovedBefore(hash: Hash, t: Table, chains: seq<seq<int>>, b: nat,
      next: map<int, int>, heads: seq<int>, moved: seq<seq<int>>) {
    if b < |chains| == |t.heads| then Moving(hash, t, chains, b, t.heads[b], chains[b], next, heads, moved)
    else InTable(hash, Table(heads, next, t.key), moved)
  }

  lemma MoveFirstBucket(hash: Hash, t: Table, chains: seq<seq<int>>, heads: seq<int>, moved: seq<seq<int>>)
    requires InTable(hash, t, chains) && |heads| == |moved| > 0
    requires forall x | 0 <= x < |heads| :: heads[x] == NULL && moved[x] == []
    ensures MovedBefore(hash, t, chains, 0, t.next, heads, moved)
  {
    forall n | n in t.key ensures InChain(hash, t.key, chains, n) { }
  }

  lemma MoveNextBucket(hash: Hash, t: Table, chains: seq<seq<int>>, b: nat,
      next: map<int, int>, heads: seq<int>, moved: seq<seq<int>>)
    requires Moving(hash, t, chains, b, NULL, [], next, heads, moved) && b < |chains|
    ensures MovedBefore(hash, t, chains, b + 1, next, heads, moved)
  {
    if b + 1 < |chains| {
      forall n | n in t.key ensures Moved(hash, t, b, [], n) == Moved(hash, t, b + 1, chains[b + 1], n) {
        assert InChain(hash, t.key, chains, n);
      }
    } else {
      forall n | n in t.key ensures Moved(hash, t, b, [], n) && InChain(hash, t.key, moved, n) { }
    }
  }
}
