/** The debug database: which iterators are registered, and which container each belongs to. */
module DebugDatabase {
  import opened ChainTable
  import opened DebugTable
  import opened IteratorLinks
  import opened Wrappers

  class Database {
    const hash: Hash
    /** The tables of iterator nodes and of container nodes, with the chains of their buckets. */
    var iterators: Table
    var containers: Table
    ghost var iteratorTable: TidySnapshot
    ghost var containerTable: TidySnapshot
    /** The container node of every iterator node, and the iterator nodes of every container node. */
    var owner: map<int, int>
    var list: map<int, seq<int>>
    /** How many iterator nodes the array of every container node has room for. */
    var room: map<int, nat>
    /** The same with all that it stands for. */
    ghost var links: GoodLinks

    constructor (hash: Hash)
      ensures Valid() && links.owners == map[] && links.registered == {}
    {
      this.hash := hash;
      iterators, containers := Table([], map[], map[]), Table([], map[], map[]);
      iteratorTable, containerTable := Snapshot(hash, Table([], map[], map[]), []), Snapshot(hash, Table([], map[], map[]), []);
      owner, list, room, links := map[], map[], map[], EMPTY;
    }

    /** Container 10, whose array is full with iterator 2, and iterator 1, which belongs to none. */
    constructor FullContainer()
      ensures Valid() && links.registered == {10} && links.owners == map[1 := None, 2 := Some(10)] && Full(10)
      ensures iterators.key == map[1 := 1, 2 := 2]
    {
      hide Tidy, Good, HasRoom;
      hash := imap[];
      var t := Table([1, NULL], map[1 := 2, 2 := NULL], map[1 := 1, 2 := 2]);
      var u := Table([3], map[3 := NULL], map[3 := 10]);
      var o, l, r := map[1 := NULL, 2 := 3], map[3 := [2]], map[3 := 1];
      FullTables();
      FullLinks();
      iterators, containers, owner, list, room := t, u, o, l, r;
      iteratorTable, containerTable := Snapshot(imap[], t, [[1, 2], []]), Snapshot(imap[], u, [[3]]);
      links := Links(t.key, u.key, o, l, map[1 := None, 2 := Some(10)], {10});
      new;
      assert IsFull(3, 10);
    }

    ghost predicate Valid()
      reads this
    {
      && iteratorTable.hash == hash && iteratorTable.table == iterators
      && containerTable.hash == hash && containerTable.table == containers
      && links.iterators == iterators.key && links.containers == containers.key && links.owner == owner && links.list == list
      && HasRoom(list, room)
    }

    // ----- the links

    /** Iterator node n is written behind the others of container node c; more: malloc has a larger array if it is needed. */
    method Append(c: int, n: int, more: bool) returns (ok: bool)
      requires c in list && HasRoom(list, room)
      modifies `list, `room
      ensures ok <==> more || |old(list)[c]| < old(room)[c]
      ensures list == if ok then old(list)[c := old(list)[c] + [n]] else old(list)
      ensures var full := |old(list)[c]| == old(room)[c];
        room == if !ok || !full then old(room) else old(room)[c := if old(room)[c] == 0 then 1 else 2 * old(room)[c]]
      ensures HasRoom(list, room)
    {
      if |list[c]| == room[c] {
        if !more {
          return false;
        }
        room := room[c := if room[c] == 0 then 1 else 2 * room[c]];
      }
      list := list[c := list[c] + [n]];
      return true;
    }

    /** The container's array has no room for one more iterator. */
    ghost predicate Full(c: int)
      reads this
    {
      exists p :: IsFull(p, c)
    }

    ghost predicate IsFull(p: int, c: int)
      reads this
    {
      p in containers.key && containers.key[p] == c && p in list && p in room && |list[p]| == room[p]
    }

    /** The node of iterator i points to a container node that does not list it. */
    ghost predicate IsAstray(n: int, i: int)
      reads this
    {
      n in iterators.key && iterators.key[n] == i && n in owner && owner[n] in list && n !in list[owner[n]]
    }

    /** The iterator node n leaves container node c. */
    method Detach(c: int, n: int) returns (ghost k: nat)
      requires Valid() && c in list && n in list[c]
      modifies `owner, `list, `links
      ensures c in old(links).list && k < |old(links).list[c]| && old(links).list[c][k] == n && n in old(links).iterators
      ensures Valid() && links == Left(old(links), c, k)
    {
      hide HasRoom;
      var at := Position(list[c], n);
      LeftGood(links, c, at);
      RoomStays(list, room, c, c, list[c][..at] + list[c][at + 1..]);
      links, k := Left(links, c, at), at;
      list, owner := list[c := list[c][..at] + list[c][at + 1..]], owner[n := NULL];
    }

    /**
     * Iterator node n goes over to container node c, or to none if that is NULL. It points to c before it is listed
     * there: if that takes a larger array and there is no memory, pointer and list disagree.
     */
    method Reassign(n: int, c: int, more: bool) returns (ok: bool)
      requires Valid() && n in owner && (c == NULL || c in list)
      modifies `owner, `list, `room, `links
      ensures n in iterators.key && links.registered == old(links.registered)
      ensures ok <==> c == NULL || old(owner)[n] == c || more || |old(list)[c]| < old(room)[c]
      ensures Valid() <==> ok
      ensures ok ==> n in owner && owner[n] == c
      ensures ok ==>
        links.owners == old(links.owners)[iterators.key[n] := if c == NULL then None else Some(containers.key[c])]
      ensures !ok ==> IsAstray(n, iterators.key[n])
    {
      hide Tidy, HasRoom, Good;
      PlaceOf(n);
      var before := owner[n];
      if before == c {
        return true;
      }
      if before != NULL {
        ghost var k := Detach(before, n);
      }
      ok := c == NULL;
      if !ok {
        ok := GoOver(n, c, more);
      }
    }

    /** An iterator's node points to the node of its container, which lists it. */
    lemma PlaceOf(n: int)
      requires Valid() && n in owner
      ensures n in iterators.key && iterators.key[n] in links.owners
      ensures owner[n] != NULL ==> owner[n] in containers.key && owner[n] in list && n in list[owner[n]]
      ensures links.owners[iterators.key[n]] == if owner[n] == NULL then None else Some(containers.key[owner[n]])
    {
      assert Belongs(links, n);
      if owner[n] != NULL { assert Lists(links, owner[n], n); }
    }

    /** The node of an iterator, or NULL. */
    method FindIterator(i: int) returns (n: int)
      requires Valid()
      ensures n == NULL <==> i !in links.owners
      ensures n != NULL ==>
        && n in iterators.key && iterators.key[n] == i && n in owner
        && (owner[n] != NULL ==> owner[n] in containers.key && owner[n] in list)
        && links.owners[i] == if owner[n] == NULL then None else Some(containers.key[owner[n]])
    {
      hide Tidy, HasRoom;
      n := Find(hash, iterators, iteratorTable.chains, i);
      assert n == NULL <==> !Has(iterators.key, i);
      if n != NULL {
        assert Belongs(links, n);
        PlaceOf(n);
      }
    }

    /** Iterator node n, of no container, goes over to container node c. */
    method GoOver(n: int, c: int, more: bool) returns (ok: bool)
      requires Valid() && n in owner && owner[n] == NULL && c in list
      modifies `owner, `list, `room, `links
      ensures n in iterators.key && c in containers.key && links.registered == old(links.registered)
      ensures ok <==> more || |old(list)[c]| < old(room)[c]
      ensures Valid() <==> ok
      ensures ok ==>
        && n in owner && owner[n] == c
        && links.owners == old(links.owners)[iterators.key[n] := Some(containers.key[c])]
      ensures !ok ==> IsAstray(n, iterators.key[n])
    {
      hide Tidy, HasRoom;
      assert Belongs(links, n);
      assert Lists(links, c, n);
      owner := owner[n := c];
      ok := Append(c, n, more);
      if ok {
        JoinedGood(links, c, n);
        links := Joined(links, c, n);
      }
    }

    // ----- the operations

    /**
     * Registers an iterator with no container. Node is what malloc returns for it. If that is NULL the exception comes
     * too late: unless the bucket was empty, its first node, head, and all behind it are lost from the table.
     */
    method InsertI(i: int, memory: bool, node: int) returns (ok: bool, ghost head: int)
      requires Valid() && i !in links.owners && node !in iterators.key
      modifies `iterators, `iteratorTable, `owner, `links
      ensures node != NULL ==>
        && Valid() && (ok <==> TakesOneMore(old(iterators), memory))
        && links == if ok then WithIterator(old(links), node, i) else old(links)
      ensures node == NULL ==> !ok && links == old(links) && (Valid() <==> head == NULL) && Lost(i, old(iterators.key), head)
      ensures node == NULL ==> (Valid() <==> !TakesOneMore(old(iterators), memory) || !SharesBucket(i))
      ensures GrowsTo(old(iterators), memory, |iterators.heads|)
    {
      hide Tidy, InTable, HasRoom, GrowsTo, TakesOneMore, WithIterator;
      ghost var l, chains := links, iteratorTable.chains;
      var t;
      ok, t, chains := Grow(hash, iterators, chains, memory);
      head := NULL;
      if ok && node != NULL {
        WithIteratorGood(l, node, i);
        l := WithIterator(l, node, i);
        t, chains := Push(hash, t, chains, i, node);
        owner := owner[node := NULL];
      } else if ok {
        FirstOfBucket(hash, t, chains, Bucket(hash, i, |t.heads|));
        head := t.heads[Bucket(hash, i, |t.heads|)];
        SharedByNode(t.key, |t.heads|, i);
        t := PushFails(hash, t, chains, i);
        ok := false;
      }
      iterators := t;
      if head == NULL { iteratorTable, links := Snapshot(hash, t, chains), l; }
    }

    /** If head is a node it was registered, in the bucket that i selects, and that bucket is empty now. */
    ghost predicate Lost(i: int, key: map<int, int>, head: int)
      reads this
    {
      head != NULL ==>
        && head in key && |iterators.heads| > 0
        && Bucket(hash, key[head], |iterators.heads|) == Bucket(hash, i, |iterators.heads|)
        && iterators.heads[Bucket(hash, i, |iterators.heads|)] == NULL
    }

    /** Another iterator that is registered selects the bucket that i selects. */
    ghost predicate SharesBucket(i: int)
      reads this
    {
      Selected(links.owners.Keys, |iterators.heads|, i)
    }

    ghost predicate Selected(keys: set<int>, n: nat, i: int)
      reads this
    {
      n > 0 && exists j | j in keys :: Bucket(hash, j, n) == Bucket(hash, i, n)
    }

    lemma SharedByNode(key: map<int, int>, n: nat, i: int)
      requires Good(links) && links.iterators == key && n > 0
      ensures Selected(links.owners.Keys, n, i) <==> exists m | m in key :: Bucket(hash, key[m], n) == Bucket(hash, i, n)
    {
      if m :| m in key && Bucket(hash, key[m], n) == Bucket(hash, i, n) { assert Belongs(links, m); }
      if j :| j in links.owners && Bucket(hash, j, n) == Bucket(hash, i, n) { assert Has(key, j); }
    }

    /** Container node c lists iterator node n, which then points to it. */
    method Enlist(c: int, n: int, more: bool) returns (ok: bool)
      requires Valid() && c in list && n in owner && owner[n] == NULL
      modifies `owner, `list, `room, `links
      ensures Valid() && (ok <==> more || |old(list)[c]| < old(room)[c])
      ensures links == if ok then Joined(old(links), c, n) else old(links)
    {
      hide Good, HasRoom;
      JoinedGood(links, c, n);
      ok := Append(c, n, more);
      if ok {
        owner, links := owner[n := c], Joined(links, c, n);
      }
    }

    /**
     * Registers an iterator of a container, unless that is not registered. If there is a node for it but no memory for
     * a larger array of the container, it stays registered with no container.
     */
    method InsertIC(i: int, c: int, memory: bool, node: int, more: bool)
      returns (ok: bool, entered: bool, ghost head: int)
      requires Valid() && i !in links.owners && node !in iterators.key
      modifies `iterators, `iteratorTable, `owner, `list, `room, `links
      ensures links.registered == old(links.registered)
      ensures c !in links.registered ==> ok && !entered && Valid() && links.owners == old(links.owners)
      ensures c in links.registered && node != NULL ==>
        && Valid() && (entered <==> TakesOneMore(old(iterators), memory)) && (ok <==> entered && (more || !old(Full(c))))
        && links.owners == if !entered then old(links.owners) else old(links.owners)[i := if ok then Some(c) else None]
      ensures c in links.registered && node == NULL ==>
        && !ok && links == old(links) && (Valid() <==> head == NULL) && Lost(i, old(iterators.key), head)
        && (Valid() <==> !TakesOneMore(old(iterators), memory) || !SharesBucket(i))
    {
      hide Tidy, IsFull;
      var p := Find(hash, containers, containerTable.chains, c);
      assert p == NULL <==> !Has(containers.key, c);
      ok, entered, head := true, false, NULL;
      if p != NULL {
        OnlyOneFull(c, p);
        ok, head := InsertI(i, memory, node);
        entered := ok;
        if ok {
          ok := Enlist(p, node, more);
          UpdatedTwice(old(links.owners), i, None, Some(c));
        }
      }
    }

    /** No other node has the container's array. */
    lemma OnlyOneFull(c: int, p: int)
      requires Valid() && p in containers.key && containers.key[p] == c
      ensures p in list && p in room && (Full(c) <==> |list[p]| >= room[p])
    {
      OtherKeys(containers.key, p);
      assert |list[p]| == room[p] ==> IsFull(p, c);
    }

    method InsertC(c: int, memory: bool, node: int) returns (ok: bool)
      requires Valid() && c !in links.registered && node !in containers.key
      modifies `containers, `containerTable, `list, `room, `links
      ensures Valid() && links.owners == old(links.owners)
      ensures ok <==> node != NULL && TakesOneMore(old(containers), memory)
      ensures links.registered == if ok then old(links.registered) + {c} else old(links.registered)
    {
      hide Tidy, HasRoom, Good, Has, WithContainer;
      ghost var l, chains := links, containerTable.chains;
      var t, s, r := containers, list, room;
      if node != NULL { WithContainerGood(l, node, c); }
      ok, t, chains := Enter(hash, t, chains, c, memory, node);
      if ok {
        RoomStays(s, r, node, node, []);
        l := WithContainer(l, node, c);
        s, r := s[node := []], r[node := 0];
      }
      assert l.containers == t.key && l.list == s && l.iterators == links.iterators && l.owner == links.owner && HasRoom(s, r);
      containers, containerTable, links := t, Snapshot(hash, t, chains), l;
      list, room := s, r;
    }

    /** The source unlinks the iterator's node before it takes it from its container; under the lock that is the same. */
    method EraseI(i: int)
      requires Valid()
      modifies `iterators, `iteratorTable, `owner, `list, `room, `links
      ensures Valid() && links.registered == old(links.registered) && links.owners == old(links.owners) - {i}
    {
      hide Tidy;
      var n := FindIterator(i);
      if n != NULL {
        var ok := Reassign(n, NULL, false);
        DropIterator(i, n);
      }
    }

    /** Node n of iterator i, which belongs to no container, goes. */
    method DropIterator(i: int, n: int)
      requires Valid() && n in owner && owner[n] == NULL && n in iterators.key && iterators.key[n] == i
      modifies `iterators, `iteratorTable, `owner, `links
      ensures Valid() && links == WithoutIterator(old(links), n)
    {
      hide Good, Tidy, HasRoom, Has, WithoutIterator;
      WithoutIteratorGood(links, n);
      ghost var l, chains := WithoutIterator(links, n), iteratorTable.chains;
      var t, o := iterators, owner - {n};
      t, chains := Forget(hash, t, chains, i, n);
      assert l.iterators == t.key && l.owner == o && l.containers == links.containers && l.list == links.list;
      assert HasRoom(l.list, room);
      iterators, iteratorTable, owner, links := t, Snapshot(hash, t, chains), o, l;
    }

    /** Takes every iterator from container node p, the last one first. */
    method Clear(p: int)
      requires Valid() && p in containers.key
      modifies `owner, `list, `links
      ensures Valid() && p in list && list[p] == [] && links.registered == old(links.registered)
      ensures links.owners == Disowned(old(links.owners), containers.key[p])
    {
      hide Tidy, HasRoom;
      ghost var c := containers.key[p];
      while |list[p]| > 0
        invariant Valid() && p in list && links.registered == old(links.registered)
        invariant Disowned(links.owners, c) == Disowned(old(links.owners), c)
        decreases |list[p]|
      {
        var last := |list[p]| - 1;
        var n := list[p][last];
        LeftGood(links, p, last);
        RoomStays(list, room, p, p, list[p][..last]);
        assert Without(list[p], last) == list[p][..last];
        DisownedOne(links.owners, c, iterators.key[n]);
        links := Left(links, p, last);
        list, owner := list[p := list[p][..last]], owner[n := NULL];
      }
      NobodyLeft(links, p);
    }

    method InvalidateAll(c: int)
      requires Valid()
      modifies `owner, `list, `links
      ensures Valid() && links.registered == old(links.registered) && links.owners == Disowned(old(links.owners), c)
    {
      var p := Find(hash, containers, containerTable.chains, c);
      if p != NULL {
        Clear(p);
      } else {
        StrangersOwnNothing(links, c);
      }
    }

    /** The source unlinks the container's node before it clears its list; under the lock that is the same. */
    method EraseC(c: int)
      requires Valid()
      modifies `containers, `containerTable, `owner, `list, `room, `links
      ensures Valid() && links.registered == old(links.registered) - {c} && links.owners == Disowned(old(links.owners), c)
    {
      var p := Find(hash, containers, containerTable.chains, c);
      if p == NULL {
        StrangersOwnNothing(links, c);
        assert !Has(containers.key, c);
        return;
      }
      Clear(p);
      DropContainer(c, p);
    }

    /** Node p of container c, which lists no iterators, goes. */
    method DropContainer(c: int, p: int)
      requires Valid() && p in list && list[p] == [] && p in containers.key && containers.key[p] == c
      modifies `containers, `containerTable, `list, `room, `links
      ensures Valid() && links == WithoutContainer(old(links), p)
    {
      hide Good, Tidy, HasRoom, Has, WithoutContainer;
      RoomStays(list, room, p, p, []);
      WithoutContainerGood(links, p);
      ghost var l, chains := WithoutContainer(links, p), containerTable.chains;
      var t, s, r := containers, list - {p}, room - {p};
      t, chains := Forget(hash, t, chains, c, p);
      assert l.containers == t.key && l.list == s && l.iterators == links.iterators && l.owner == links.owner && HasRoom(s, r);
      containers, containerTable, links := t, Snapshot(hash, t, chains), l;
      list, room := s, r;
    }

    /** Iterator i has to be listed by a container that it does not belong to, and that has no room for it. */
    ghost predicate NeedsGrowth(i: int, i0: int)
      reads this
    {
      var owners := links.owners;
      i0 in owners && owners[i0].Some? && (i in owners ==> owners[i] != owners[i0]) && Full(owners[i0].value)
    }

    /**
     * Iterator i becomes a copy of i0: it belongs to what i0 belongs to. A new node is needed if only i0 is registered,
     * a larger array if the container is full. Without memory for that the node is left pointing to a container that
     * does not list it.
     */
    method IteratorCopy(i: int, i0: int, memory: bool, node: int, more: bool)
      returns (ok: bool, entered: bool, ghost head: int)
      requires Valid() && node !in iterators.key
      modifies `iterators, `iteratorTable, `owner, `list, `room, `links
      ensures links.registered == old(links.registered)
      ensures node != NULL || i in old(links.owners) || i0 !in old(links.owners) ==>
        (entered <==> i in old(links.owners) || i0 !in old(links.owners) || TakesOneMore(old(iterators), memory))
      ensures var before := old(links.owners);
        if node == NULL && i !in before && i0 in before then
          && !ok && links == old(links) && (Valid() <==> head == NULL) && Lost(i, old(iterators.key), head)
          && (Valid() <==> !TakesOneMore(old(iterators), memory) || !SharesBucket(i))
        else if !entered then
          !ok && Valid() && links == old(links)
        else
          && (Valid() <==> ok) && (ok <==> more || !old(NeedsGrowth(i, i0)))
          && (ok ==>
                links.owners == if i0 in before then before[i := before[i0]] else if i in before then before[i := None] else before)
          && (!ok ==> exists n :: IsAstray(n, i))
    {
      hide Tidy, HasRoom, Good;
      ok, entered, head := true, true, NULL;
      var n := FindIterator(i);
      var n0 := FindIterator(i0);
      var c0 := if n0 != NULL then owner[n0] else NULL;
      if c0 != NULL {
        OnlyOneFull(containers.key[c0], c0);
        SameContainer(n, c0);
      }
      if n == NULL && n0 != NULL {
        ok, head := InsertI(i, memory, node);
        entered := ok;
        if !ok {
          return;
        }
        n := node;
        UpdatedTwice(old(links.owners), i, None, old(links.owners)[i0]);
      }
      if n != NULL {
        ok := Reassign(n, c0, more);
      }
    }

    /** A node that is astray is in no database in order. */
    lemma AstrayIsInvalid(n: int, i: int)
      requires IsAstray(n, i)
      ensures !Valid() && forall l: Links | l.owner == owner && l.list == list :: !Good(l)
    {
      forall l: Links | l.owner == owner && l.list == list ensures !Good(l) { AstrayIsNotGood(l, n); }
    }

    /** An iterator belongs to the container of a node exactly if its node points to that. */
    lemma SameContainer(n: int, c: int)
      requires Valid() && c in containers.key && (n == NULL || n in iterators.key)
      ensures n != NULL ==> n in owner && iterators.key[n] in links.owners
                            && (owner[n] == c <==> links.owners[iterators.key[n]] == Some(containers.key[c]))
    {
      OtherKeys(containers.key, c);
      if n != NULL { assert Belongs(links, n); }
    }

    /** The containers exchange their iterators. */
    method Swap(c1: int, c2: int)
      requires Valid() && c1 in links.registered && c2 in links.registered
      modifies `owner, `list, `room, `links
      ensures Valid() && links.registered == old(links.registered) && links.owners == Exchanged(old(links.owners), c1, c2)
    {
      hide Tidy, HasRoom;
      var p := Find(hash, containers, containerTable.chains, c1);
      var q := Find(hash, containers, containerTable.chains, c2);
      assert Has(containers.key, c1) && Has(containers.key, c2);
      SwappedGood(links, p, q);
      RoomStays(list, room, p, q, []);
      var swapped := list[p := list[q]][q := list[p]];
      var after := Assign(owner, swapped[p], p);
      after := Assign(after, swapped[q], q);
      room := room[p := room[q]][q := room[p]];
      list, owner, links := swapped, after, Swapped(links, p, q);
    }

    /** The container of an iterator, or NULL. */
    method FindCFromI(i: int) returns (c: int)
      requires Valid() && i in links.owners
      ensures match links.owners[i] case None => c == NULL case Some(d) => c == d
    {
      var n := FindIterator(i);
      c := if owner[n] != NULL then containers.key[owner[n]] else NULL;
    }

    /** Two iterators can be compared if and only if both belong to the same container. */
    method LessThanComparable(i: int, j: int) returns (yes: bool)
      requires Valid()
      ensures yes <==> i in links.owners && j in links.owners && links.owners[i].Some? && links.owners[i] == links.owners[j]
    {
      var n := FindIterator(i);
      var m := FindIterator(j);
      var c := if n != NULL then owner[n] else NULL;
      var d := if m != NULL then owner[m] else NULL;
      if c != NULL { OtherKeys(containers.key, c); }
      return c != NULL && c == d;
    }
  }

  /** A copy for which there is no memory: iterator 1 points to container 10, which does not list it. */
  method CopyGoesAstray() returns (db: Database)
    ensures exists n :: db.IsAstray(n, 1)
  {
    db := new Database.FullContainer();
    var ok, entered;
    ghost var head;
    ok, entered, head := db.IteratorCopy(1, 2, true, 3, false);
  }

  lemma FullTables()
    ensures Tidy(imap[], Table([1, NULL], map[1 := 2, 2 := NULL], map[1 := 1, 2 := 2]), [[1, 2], []])
    ensures Tidy(imap[], Table([3], map[3 := NULL], map[3 := 10]), [[3]])
  {
    var next := map[1 := 2, 2 := NULL];
    assert LinkedAt(next, [1, 2], 0) && LinkedAt(next, [1, 2], 1);
    assert LinkedAt(map[3 := NULL], [3], 0);
  }

  lemma FullLinks()
    ensures Good(Links(map[1 := 1, 2 := 2], map[3 := 10], map[1 := NULL, 2 := 3], map[3 := [2]],
                       map[1 := None, 2 := Some(10)], {10}))
    ensures HasRoom(map[3 := [2]], map[3 := 1])
  {
    var l := Links(map[1 := 1, 2 := 2], map[3 := 10], map[1 := NULL, 2 := 3], map[3 := [2]],
                   map[1 := None, 2 := Some(10)], {10});
    assert l.iterators[1] == 1 && l.iterators[2] == 2 && l.containers[3] == 10;
    assert Belongs(l, 1) && Belongs(l, 2);
  }

  /** Every container node has an array with room for what it lists. */
  predicate HasRoom(list: map<int, seq<int>>, room: map<int, nat>) {
    room.Keys == list.Keys && forall c | c in list :: |list[c]| <= room[c]
  }

  lemma RoomStays(list: map<int, seq<int>>, room: map<int, nat>, p: int, q: int, s: seq<int>)
    requires HasRoom(list, room)
    ensures HasRoom(list[p := []], room[p := 0]) && HasRoom(list - {p}, room - {p})
    ensures p in list && |s| <= |list[p]| ==> HasRoom(list[p := s], room)
    ensures p in list && q in list ==> p in room && q in room
                                       && HasRoom(list[p := list[q]][q := list[p]], room[p := room[q]][q := room[p]])
  {
  }

  /** A node for key k comes into the table, if there is memory for it. */
  method Enter(hash: Hash, t0: Table, ghost chains0: seq<seq<int>>, k: int, memory: bool, node: int)
    returns (ok: bool, t: Table, ghost chains: seq<seq<int>>)
    requires Tidy(hash, t0, chains0) && node !in t0.key && (node != NULL ==> !Has(t0.key, k))
    ensures Tidy(hash, t, chains) && t.key == if ok then t0.key[node := k] else t0.key
    ensures ok <==> node != NULL && TakesOneMore(t0, memory)
  {
    ok, t, chains := Grow(hash, t0, chains0, memory);
    if ok && node != NULL {
      t, chains := Push(hash, t, chains, k, node);
    } else {
      ok := false;
    }
  }

  /** Takes node n with key k out of the table. */
  method Forget(hash: Hash, t0: Table, ghost chains0: seq<seq<int>>, k: int, ghost n: int)
    returns (t: Table, ghost chains: seq<seq<int>>)
    requires Tidy(hash, t0, chains0) && n in t0.key && t0.key[n] == k
    ensures Tidy(hash, t, chains) && t.key == t0.key - {n}
  {
    assert Has(t0.key, k);
    OtherKeys(t0.key, n);
    var removed;
    removed, t, chains := Remove(hash, t0, chains0, k);
  }

  method Assign(owner: map<int, int>, nodes: seq<int>, c: int) returns (after: map<int, int>)
    ensures after == Assigned(owner, nodes, c)
  {
    after := owner;
    for k := 0 to |nodes|
      invariant after == Assigned(owner, nodes[..k], c)
    {
      assert nodes[..k + 1] == nodes[..k] + [nodes[k]];
      if nodes[k] in after {
        after := after[nodes[k] := c];
      }
    }
    assert nodes[..|nodes|] == nodes;
  }

  method Position(s: seq<int>, n: int) returns (k: nat)
    requires n in s
    ensures k < |s| && s[k] == n
  {
    k := 0;
    while s[k] != n
      invariant k < |s| && n !in s[..k]
      decreases |s| - k
    {
      assert s[..k + 1] == s[..k] + [s[k]];
      k := k + 1;
    }
  }
}
