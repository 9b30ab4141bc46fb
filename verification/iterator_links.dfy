/** How the debug database links the nodes of iterators with those of containers. */
module IteratorLinks {
  import opened ChainTable
  import opened Wrappers

  /**
   * The keys of all nodes; the container node each iterator node points to, or
   * NULL; the iterator nodes each container node lists; and what that stands
   * for: the container of every registered iterator, and the registered containers.
   */
  datatype Links = Links(iterators: map<int, int>, containers: map<int, int>, owner: map<int, int>, list: map<int, seq<int>>,
    owners: map<int, Option<int>>, registered: set<int>)

  /** An iterator's node points to a container's if and only if that lists it, which it does at most once. */
  ghost predicate Good(l: Links) {
    && l.owner.Keys == l.iterators.Keys && l.list.Keys == l.containers.Keys && NULL !in l.iterators && NULL !in l.containers
    && Injective(l.iterators) && Injective(l.containers)
    && (forall n {:trigger Belongs(l, n)} | n in l.iterators :: Belongs(l, n))
    && (forall c {:trigger Distinct(l.list[c])} | c in l.list :: Distinct(l.list[c]))
    && (forall c, n {:trigger Lists(l, c, n)} | c in l.list :: Lists(l, c, n))
    && (forall i {:trigger Has(l.iterators, i)} :: i in l.owners <==> Has(l.iterators, i))
    && (forall c {:trigger Has(l.containers, c)} :: c in l.registered <==> Has(l.containers, c))
  }

  const EMPTY: Links := Links(map[], map[], map[], map[], map[], {})

  type GoodLinks = l: Links | Good(l) ghost witness EMPTY

  ghost predicate Distinct(s: seq<int>) {
    forall i, j | 0 <= i < j < |s| :: s[i] != s[j]
  }

  predicate Lists(l: Links, c: int, n: int)
    requires c in l.list
  {
    n in l.list[c] <==> n in l.owner && l.owner[n] == c
  }

  predicate Belongs(l: Links, n: int)
    requires n in l.iterators
  {
    && n in l.owner && (l.owner[n] == NULL || l.owner[n] in l.containers) && l.iterators[n] in l.owners
    && l.owners[l.iterators[n]] == if l.owner[n] == NULL then None else Some(l.containers[l.owner[n]])
  }

  /** Nothing that is in order has an iterator node that points to a container node and is not in its list. */
  lemma AstrayIsNotGood(l: Links, n: int)
    requires n in l.owner && l.owner[n] in l.list && n !in l.list[l.owner[n]]
    ensures !Good(l)
  {
    assert !Lists(l, l.owner[n], n);
  }

  // ----- keys

  lemma HasOneMore(key: map<int, int>, n: int, k: int)
    requires n !in key
    ensures forall v :: Has(key[n := k], v) <==> v == k || Has(key, v)
  {
    var more := key[n := k];
    assert more[n] == k;
    forall v | Has(key, v) ensures Has(more, v) {
      var m :| m in key && key[m] == v;
      assert m in more && more[m] == v;
    }
  }

  lemma HasOneLess(key: map<int, int>, n: int)
    requires Injective(key) && n in key
    ensures forall v :: Has(key - {n}, v) <==> v != key[n] && Has(key, v)
  {
    OtherKeys(key, n);
    var less := key - {n};
    forall v | v != key[n] && Has(key, v) ensures Has(less, v) {
      var m :| m in key && key[m] == v;
      assert m in less && less[m] == v;
    }
    forall v | Has(less, v) ensures v != key[n] && Has(key, v) {
      var m :| m in less && less[m] == v;
      assert m in key && key[m] == v;
    }
  }

  lemma InjectiveMore(key: map<int, int>, n: int, k: int)
    requires Injective(key) && n !in key && !Has(key, k)
    ensures Injective(key[n := k])
  {
    var more := key[n := k];
    forall a, b | a in more && b in more && SameKey(more, a, b) ensures a == b {
      if a != n && b != n { assert SameKey(key, a, b); }
    }
  }

  lemma InjectiveLess(key: map<int, int>, n: int)
    requires Injective(key)
    ensures Injective(key - {n})
  {
    var less := key - {n};
    forall a, b | a in less && b in less && SameKey(less, a, b) ensures a == b { assert SameKey(key, a, b); }
  }

  lemma DistinctWithout(s: seq<int>, k: nat)
    requires Distinct(s) && k < |s|
    ensures Distinct(Without(s, k)) && forall n :: n in Without(s, k) <==> n in s && n != s[k]
  {
    WithoutElements(s, k);
    var r := Without(s, k);
    assert forall i | 0 <= i < |r| :: r[i] == if i < k then s[i] else s[i + 1];
  }

  // ----- the changes

  /** Iterator node n joins container node c. */
  function Joined(l: Links, c: int, n: int): Links
    requires c in l.list && c in l.containers && n in l.iterators
  {
    l.(owner := l.owner[n := c], list := l.list[c := l.list[c] + [n]], owners := l.owners[l.iterators[n] := Some(l.containers[c])])
  }

  lemma JoinedGood(l: Links, c: int, n: int)
    requires Good(l) && c in l.list && n in l.owner && l.owner[n] == NULL
    ensures Good(Joined(l, c, n))
  {
    OtherKeys(l.iterators, n);
    var r := Joined(l, c, n);
    forall m | m in r.iterators ensures Belongs(r, m) { assert Belongs(l, m); }
    forall d | d in r.list ensures Distinct(r.list[d]) { assert Distinct(l.list[d]) && Lists(l, d, n); }
    forall d, m | d in r.list ensures Lists(r, d, m) { assert Lists(l, d, m); }
    assert Has(l.iterators, l.iterators[n]);
    assert forall i :: i in r.owners <==> i in l.owners;
  }

  /** Iterator node n, entry k of the list of container node c, leaves it. */
  function Left(l: Links, c: int, k: nat): Links
    requires c in l.list && k < |l.list[c]| && l.list[c][k] in l.iterators
  {
    var n := l.list[c][k];
    l.(owner := l.owner[n := NULL], list := l.list[c := Without(l.list[c], k)], owners := l.owners[l.iterators[n] := None])
  }

  lemma LeftGood(l: Links, c: int, k: nat)
    requires Good(l) && c in l.list && k < |l.list[c]|
    ensures var n := l.list[c][k];
      n in l.owner && n in l.iterators && l.owner[n] == c && l.iterators[n] in l.owners
      && l.owners[l.iterators[n]] == Some(l.containers[c]) && Good(Left(l, c, k))
  {
    var n := l.list[c][k];
    assert Lists(l, c, n) && Distinct(l.list[c]) && Belongs(l, n);
    DistinctWithout(l.list[c], k);
    OtherKeys(l.iterators, n);
    var r := Left(l, c, k);
    forall m | m in r.iterators ensures Belongs(r, m) { assert Belongs(l, m); }
    forall d | d in r.list ensures Distinct(r.list[d]) { assert Distinct(l.list[d]); }
    forall d, m | d in r.list ensures Lists(r, d, m) { assert Lists(l, d, m); }
    assert Has(l.iterators, l.iterators[n]);
    assert forall i :: i in r.owners <==> i in l.owners;
  }

  /** A new iterator node, with no container. */
  function WithIterator(l: Links, n: int, i: int): Links {
    l.(iterators := l.iterators[n := i], owner := l.owner[n := NULL], owners := l.owners[i := None])
  }

  lemma WithIteratorGood(l: Links, n: int, i: int)
    requires Good(l) && n !in l.iterators && n != NULL && i !in l.owners
    ensures !Has(l.iterators, i) && Good(WithIterator(l, n, i))
    ensures var r := WithIterator(l, n, i);
      r.iterators == l.iterators[n := i] && r.owner == l.owner[n := NULL] && r.containers == l.containers && r.list == l.list
  {
    InjectiveMore(l.iterators, n, i);
    HasOneMore(l.iterators, n, i);
    var r := WithIterator(l, n, i);
    forall v ensures v in r.owners <==> Has(r.iterators, v) { assert v in l.owners <==> Has(l.iterators, v); }
    forall m | m in r.iterators ensures Belongs(r, m) {
      if m != n { assert Belongs(l, m) && r.iterators[m] == l.iterators[m] && Has(l.iterators, l.iterators[m]); }
    }
    forall c | c in r.list ensures Distinct(r.list[c]) { assert Distinct(l.list[c]); }
    forall c, m | c in r.list ensures Lists(r, c, m) { assert Lists(l, c, m); }
  }

  /** A new container node, with no iterators. */
  function WithContainer(l: Links, n: int, c: int): Links {
    l.(containers := l.containers[n := c], list := l.list[n := []], registered := l.registered + {c})
  }

  lemma WithContainerGood(l: Links, n: int, c: int)
    requires Good(l) && n !in l.containers && n != NULL && c !in l.registered
    ensures !Has(l.containers, c) && Good(WithContainer(l, n, c))
    ensures var r := WithContainer(l, n, c);
      && r.iterators == l.iterators && r.owner == l.owner && r.containers == l.containers[n := c] && r.list == l.list[n := []]
      && r.owners == l.owners && r.registered == l.registered + {c}
  {
    InjectiveMore(l.containers, n, c);
    HasOneMore(l.containers, n, c);
    var r := WithContainer(l, n, c);
    forall v ensures v in r.registered <==> Has(r.containers, v) { assert v in l.registered <==> Has(l.containers, v); }
    forall m | m in r.iterators ensures Belongs(r, m) { assert Belongs(l, m); }
    forall d | d in r.list ensures Distinct(r.list[d]) { if d != n { assert Distinct(l.list[d]); } }
    forall d, m | d in r.list ensures Lists(r, d, m) {
      if d != n { assert Lists(l, d, m); } else if m in l.owner { assert Belongs(l, m); }
    }
  }

  /** Iterator node n, which belongs to no container, goes. */
  function WithoutIterator(l: Links, n: int): Links
    requires n in l.iterators
  {
    l.(iterators := l.iterators - {n}, owner := l.owner - {n}, owners := l.owners - {l.iterators[n]})
  }

  lemma WithoutIteratorGood(l: Links, n: int)
    requires Good(l) && n in l.owner && l.owner[n] == NULL
    ensures Good(WithoutIterator(l, n))
    ensures var r := WithoutIterator(l, n);
      && r.iterators == l.iterators - {n} && r.owner == l.owner - {n}
      && r.containers == l.containers && r.list == l.list
  {
    InjectiveLess(l.iterators, n);
    HasOneLess(l.iterators, n);
    OtherKeys(l.iterators, n);
    var r := WithoutIterator(l, n);
    forall m | m in r.iterators ensures Belongs(r, m) { assert Belongs(l, m); }
    forall c | c in r.list ensures Distinct(r.list[c]) { assert Distinct(l.list[c]); }
    forall c, m | c in r.list ensures Lists(r, c, m) { assert Lists(l, c, m); }
  }

  /** Container node n, which lists no iterators, goes. */
  function WithoutContainer(l: Links, n: int): Links
    requires n in l.containers
  {
    l.(containers := l.containers - {n}, list := l.list - {n}, registered := l.registered - {l.containers[n]})
  }

  lemma WithoutContainerGood(l: Links, n: int)
    requires Good(l) && n in l.list && l.list[n] == []
    ensures Good(WithoutContainer(l, n))
    ensures var r := WithoutContainer(l, n);
      && r.iterators == l.iterators && r.owner == l.owner
      && r.containers == l.containers - {n} && r.list == l.list - {n}
  {
    InjectiveLess(l.containers, n);
    HasOneLess(l.containers, n);
    var r := WithoutContainer(l, n);
    forall m | m in r.iterators ensures Belongs(r, m) { assert Belongs(l, m) && Lists(l, n, m); }
    forall c | c in r.list ensures Distinct(r.list[c]) { assert Distinct(l.list[c]); }
    forall c, m | c in r.list ensures Lists(r, c, m) { assert Lists(l, c, m); }
  }

  /** owners when the iterators of container c no longer belong to any. */
  function Disowned(owners: map<int, Option<int>>, c: int): map<int, Option<int>> {
    map i | i in owners :: if owners[i] == Some(c) then None else owners[i]
  }

  lemma UpdatedTwice(owners: map<int, Option<int>>, i: int, first: Option<int>, second: Option<int>)
    ensures owners[i := first][i := second] == owners[i := second]
  {
  }

  lemma DisownedOne(owners: map<int, Option<int>>, c: int, i: int)
    requires i in owners && owners[i] == Some(c)
    ensures Disowned(owners[i := None], c) == Disowned(owners, c)
  {
  }

  lemma NobodyLeft(l: Links, n: int)
    requires Good(l) && n in l.list && l.list[n] == []
    ensures Disowned(l.owners, l.containers[n]) == l.owners
  {
    OtherKeys(l.containers, n);
    forall i | i in l.owners ensures l.owners[i] != Some(l.containers[n]) {
      assert Has(l.iterators, i);
      var m :| m in l.iterators && l.iterators[m] == i;
      assert Belongs(l, m) && Lists(l, n, m);
    }
  }

  lemma StrangersOwnNothing(l: Links, c: int)
    requires Good(l) && !Has(l.containers, c)
    ensures Disowned(l.owners, c) == l.owners
  {
    forall i | i in l.owners ensures l.owners[i] != Some(c) {
      assert Has(l.iterators, i);
      var m :| m in l.iterators && l.iterators[m] == i;
      assert Belongs(l, m);
      assert l.owner[m] != NULL ==> Has(l.containers, l.containers[l.owner[m]]);
    }
  }

  /** owners when the iterators of a and those of b change places. */
  function Exchanged(owners: map<int, Option<int>>, a: int, b: int): map<int, Option<int>> {
    map i | i in owners :: if owners[i] == Some(a) then Some(b) else if owners[i] == Some(b) then Some(a) else owners[i]
  }

  /** The nodes all get owner c. */
  function Assigned(owner: map<int, int>, nodes: seq<int>, c: int): map<int, int> {
    map n | n in owner :: if n in nodes then c else owner[n]
  }

  function Swapped(l: Links, p: int, q: int): Links
    requires p in l.list && q in l.list && p in l.containers && q in l.containers
  {
    l.(owner := Assigned(Assigned(l.owner, l.list[q], p), l.list[p], q), list := l.list[p := l.list[q]][q := l.list[p]],
      owners := Exchanged(l.owners, l.containers[p], l.containers[q]))
  }

  lemma SwappedGood(l: Links, p: int, q: int)
    requires Good(l) && p in l.containers && q in l.containers
    ensures Good(Swapped(l, p, q))
  {
    OtherKeys(l.containers, p);
    OtherKeys(l.containers, q);
    var r := Swapped(l, p, q);
    forall m | m in r.iterators ensures Belongs(r, m) { assert Belongs(l, m) && Lists(l, p, m) && Lists(l, q, m); }
    forall c | c in r.list ensures Distinct(r.list[c]) { assert Distinct(l.list[c]) && Distinct(l.list[p]) && Distinct(l.list[q]); }
    forall c, m | c in r.list ensures Lists(r, c, m) { assert Lists(l, c, m) && Lists(l, p, m) && Lists(l, q, m); }
  }
}
