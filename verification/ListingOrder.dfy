/** The slots of the tables, read in order, list the store: every lock once. */
module ListingOrder {
  import opened Listing
  import opened LockStore
  import opened ProbeTable
  import opened ShardLocks
  import opened Sharding

  function AsLock(e: Entry): (l: Lock) {
    Lock(e.key, e.lockee, e.since)
  }

  function AsLocks(es: seq<Entry>): (r: seq<Lock>)
    ensures |r| == |es| && forall i :: 0 <= i < |es| ==> r[i] == AsLock(es[i])
  {
    seq(|es|, i requires 0 <= i < |es| => AsLock(es[i]))
  }

  lemma AsLocksAppend(es: seq<Entry>, more: seq<Entry>)
    ensures AsLocks(es + more) == AsLocks(es) + AsLocks(more)
  {
  }

  lemma ListsSnoc(r: seq<Lock>, s: Store, l: Lock)
    requires Lists(r, s) && Keyed(s) && l.key !in s
    ensures Lists(r + [l], s[l.key := l])
  {
    ListsUnion(r, s, [l], map[l.key := l]);
    assert s + map[l.key := l] == s[l.key := l];
  }

  /** The first `n` slots list the bindings they hold. */
  lemma {:induction false} OccupiedLists(es: seq<Entry>, n: nat)
    requires Unique(es) && n <= |es|
    ensures Lists(AsLocks(Occupied(es, n)), AsStore(AbsUpTo(es, n)))
  {
    if n == 0 {
      assert AsStore(AbsUpTo(es, 0)) == map[];
    } else if es[n - 1].occupied {
      OccupiedLists(es, n - 1);
      OccupiedListsStep(es, n - 1);
      ListsSnoc(AsLocks(Occupied(es, n - 1)), AsStore(AbsUpTo(es, n - 1)), AsLock(es[n - 1]));
    } else {
      OccupiedLists(es, n - 1);
      assert Occupied(es, n) == Occupied(es, n - 1) && AbsUpTo(es, n) == AbsUpTo(es, n - 1);
    }
  }

  lemma OccupiedListsStep(es: seq<Entry>, n: nat)
    requires Unique(es) && n < |es| && es[n].occupied
    ensures AsLock(es[n]).key !in AsStore(AbsUpTo(es, n))
    ensures AsLocks(Occupied(es, n + 1)) == AsLocks(Occupied(es, n)) + [AsLock(es[n])]
    ensures AsStore(AbsUpTo(es, n + 1)) == AsStore(AbsUpTo(es, n))[es[n].key := AsLock(es[n])]
  {
    AbsUpToFresh(es, n);
    AsLocksAppend(Occupied(es, n), [es[n]]);
    assert AsLocks([es[n]]) == [AsLock(es[n])];
    AsStoreUpdate(AbsUpTo(es, n), es[n].key, Holder(es[n].lockee, es[n].since));
  }

  /** Tables that split a store over shards list it when read one after the other. */
  lemma {:induction false} TablesList(tables: seq<seq<Entry>>, s: Store, hashOf: string -> nat, n: nat)
    requires n <= |tables| && 0 < |tables| && Keyed(s)
    requires forall i :: 0 <= i < |tables| ==> Unique(tables[i])
    requires forall i :: 0 <= i < |tables| ==> AsStore(Abs(tables[i])) == Part(s, hashOf, |tables|, i)
    ensures Lists(AsLocks(AllOccupied(tables, n)), Below(s, hashOf, |tables|, n))
  {
    if n > 0 {
      TablesList(tables, s, hashOf, n - 1);
      var es := tables[n - 1];
      OccupiedLists(es, |es|);
      ListsNextPart(AsLocks(AllOccupied(tables, n - 1)), AsLocks(Occupied(es, |es|)), s, hashOf, |tables|, n - 1);
      AsLocksAppend(AllOccupied(tables, n - 1), Occupied(es, |es|));
    }
  }
}
