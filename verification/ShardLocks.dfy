/** The critical sections of the C handlers, on the hash table of one shard. */
module ShardLocks {
  import opened HashTable
  import opened LockStore
  import opened ProbeTable

  /** A table's contents as a lock store. */
  ghost function AsStore(m: map<string, Holder>): (s: Store)
    ensures s.Keys == m.Keys && Keyed(s)
  {
    map k | k in m :: Lock(k, m[k].lockee, m[k].since)
  }

  /** A table in good order that stands for `s`. */
  ghost predicate Holds(t: Table, s: Store)
    reads t, t.entries
  {
    t.Valid() && AsStore(t.Contents()) == s
  }

  lemma AsStoreUpdate(m: map<string, Holder>, k: string, h: Holder)
    ensures AsStore(m[k := h]) == AsStore(m)[k := Lock(k, h.lockee, h.since)]
    ensures AsStore(m - {k}) == AsStore(m) - {k}
  {
  }

  /** The locked part of `handle_post_lock`. */
  method AcquireIn(ghost s: Store, t: Table, key: string, lockee: string, force: bool, h: nat, now: nat)
    returns (granted: bool, holder: string)
    requires Holds(t, s) && h == t.hashOf(key)
    modifies t, t.entries
    ensures t.entries == old(t.entries) || fresh(t.entries)
    ensures var r := Step(s, Acquire(key, lockee, force, now));
      && Holds(t, r.0)
      && (granted <==> r.1.Granted?) && (r.1.Conflict? ==> holder == r.1.lock.lockee)
  {
    ghost var m := t.Contents();
    AsStoreUpdate(m, key, Holder(lockee, now));
    holder := "";
    var slot := t.Find(key, h);
    if slot.Some? {
      var existing := t.entries[slot.value];
      if existing.lockee == lockee {
        granted := true;
      } else if !force {
        granted, holder := false, existing.lockee;
      } else {
        t.SetHolder(slot.value, lockee, now);
        granted := true;
      }
    } else {
      t.Insert(key, lockee, h, now);
      granted := true;
    }
  }

  /** The locked part of `handle_delete_lock`. */
  method ReleaseIn(ghost s: Store, t: Table, key: string, lockee: string, h: nat) returns (status: ReleaseStatus)
    requires Holds(t, s) && h == t.hashOf(key)
    modifies t, t.entries
    ensures t.entries == old(t.entries)
    ensures var r := Step(s, Release(key, lockee));
      Holds(t, r.0) && r.1 == Unlocked(status)
  {
    AsStoreUpdate(t.Contents(), key, Holder(lockee, 0));
    var slot := t.Find(key, h);
    if slot.None? {
      status := NotFound;
    } else if t.entries[slot.value].lockee != lockee {
      status := Forbidden;
    } else {
      t.Remove(key, h);
      status := Released;
    }
  }
}
