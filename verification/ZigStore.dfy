/**
 One shard of the Zig store, with its allocator. Keys and lockees are heap blocks the shard
 owns; every allocation may fail.
 */
module ZigStore {
  import opened LockStore
  import opened Wrappers

  type Block = nat

  /** Live blocks and their contents. */
  type Heap = map<Block, string>

  /** Where an allocator places the next block: anywhere that is not live, freed addresses included. */
  type Placement = Heap -> Block

  ghost predicate Places(place: Placement) {
    forall h: Heap :: place(h) !in h
  }

  datatype Entry = Entry(key: Block, lockee: Block, since: nat)

  datatype AcquireResult = Acquired | Contended(holder: string) | OutOfMemory

  /** Which allocations of one call fail. */
  datatype Faults = Faults(arena: bool, key: bool, lockee: bool, put: bool)

  /** What a block is for: the key string or the lockee string of an entry. */
  datatype Role = KeyOf(key: string) | LockeeOf(key: string)

  /** Every role names an entry that refers to its block. */
  ghost predicate RolesFit(entries: map<string, Entry>, roles: map<Block, Role>) {
    && (forall b :: b in roles ==> roles[b].key in entries)
    && (forall b :: b in roles ==> b == if roles[b].KeyOf? then entries[roles[b].key].key else entries[roles[b].key].lockee)
  }

  /** Every entry's two blocks have their roles, and its key is spelled in its key block. */
  ghost predicate EntriesFit(entries: map<string, Entry>, live: Heap, roles: map<Block, Role>) {
    && (forall k :: k in entries ==> entries[k].key in roles && roles[entries[k].key] == KeyOf(k))
    && (forall k :: k in entries ==> entries[k].lockee in roles && roles[entries[k].lockee] == LockeeOf(k))
    && (forall k :: k in entries ==> entries[k].key in live && live[entries[k].key] == k)
  }

  /** Live blocks are exactly the key and lockee strings of the entries, each block in one role. */
  ghost predicate Owned(entries: map<string, Entry>, live: Heap, roles: map<Block, Role>) {
    live.Keys == roles.Keys && RolesFit(entries, roles) && EntriesFit(entries, live, roles)
  }

  /** The locks the entries describe, their holders read from the heap. */
  ghost function View(entries: map<string, Entry>, live: Heap): (s: Store)
    ensures Keyed(s)
  {
    map k | k in entries && entries[k].lockee in live :: Lock(k, live[entries[k].lockee], entries[k].since)
  }

  /** The blocks the entries refer to. */
  ghost function Blocks(entries: map<string, Entry>): (r: set<Block>) {
    (set k | k in entries :: entries[k].key) + (set k | k in entries :: entries[k].lockee)
  }

  /** Ownership says that nothing leaks, nothing dangles and nothing is shared. */
  lemma OwnedMeans(entries: map<string, Entry>, live: Heap, roles: map<Block, Role>)
    requires Owned(entries, live, roles)
    ensures live.Keys == Blocks(entries)
    ensures forall k, k' :: k in entries && k' in entries ==> entries[k].key != entries[k'].lockee
    ensures forall k, k' :: k in entries && k' in entries && k != k' ==>
      entries[k].key != entries[k'].key && entries[k].lockee != entries[k'].lockee
  {
    forall b ensures b in live <==> b in Blocks(entries) {
      if b in live {
        var k := roles[b].key;
        assert k in entries && (b == entries[k].key || b == entries[k].lockee);
      }
    }
  }

  /** Dropping an entry and freeing its two blocks. */
  lemma DropKeeps(entries: map<string, Entry>, live: Heap, roles: map<Block, Role>, key: string)
    requires Owned(entries, live, roles) && key in entries
    ensures var e := entries[key]; var gone := {e.key} + {e.lockee};
      && e.key in live && e.lockee in live && e.key != e.lockee
      && Owned(entries - {key}, live - gone, roles - gone)
      && View(entries - {key}, live - gone) == View(entries, live) - {key}
  {
  }

  function NewHeap(live: Heap, e: Entry, key: string, lockee: string): (h: Heap) {
    live[e.key := key][e.lockee := lockee]
  }

  ghost function NewRoles(roles: map<Block, Role>, e: Entry, key: string): (r: map<Block, Role>) {
    roles[e.key := KeyOf(key)][e.lockee := LockeeOf(key)]
  }

  lemma AddKeepsRoles(entries: map<string, Entry>, roles: map<Block, Role>, key: string, e: Entry)
    requires RolesFit(entries, roles) && key !in entries && e.key !in roles && e.lockee !in roles && e.key != e.lockee
    ensures RolesFit(entries[key := e], NewRoles(roles, e, key))
  {
    var roles', entries' := NewRoles(roles, e, key), entries[key := e];
    forall b | b in roles'
      ensures roles'[b].key in entries'
      ensures b == if roles'[b].KeyOf? then entries'[roles'[b].key].key else entries'[roles'[b].key].lockee
    {
      if b in roles {
        assert roles'[b] == roles[b] && roles[b].key != key;
      }
    }
  }

  lemma AddKeepsEntries(entries: map<string, Entry>, live: Heap, roles: map<Block, Role>, key: string, lockee: string, e: Entry)
    requires EntriesFit(entries, live, roles) && live.Keys == roles.Keys
    requires e.key !in live && e.lockee !in live && e.key != e.lockee
    ensures EntriesFit(entries[key := e], NewHeap(live, e, key, lockee), NewRoles(roles, e, key))
  {
    forall k | k in entries && k != key ensures entries[k].key in live && entries[k].lockee in live {
      assert entries[k].key in roles.Keys && entries[k].lockee in roles.Keys;
    }
  }

  /** Adding an entry for a new key with two newly allocated blocks. */
  lemma AddKeeps(entries: map<string, Entry>, live: Heap, roles: map<Block, Role>, key: string, lockee: string, e: Entry)
    requires Owned(entries, live, roles) && key !in entries
    requires e.key !in live && e.lockee !in live && e.key != e.lockee
    ensures Owned(entries[key := e], NewHeap(live, e, key, lockee), NewRoles(roles, e, key))
  {
    assert e.key !in roles.Keys && e.lockee !in roles.Keys;
    assert NewHeap(live, e, key, lockee).Keys == live.Keys + {e.key, e.lockee};
    assert NewRoles(roles, e, key).Keys == roles.Keys + {e.key, e.lockee};
    AddKeepsRoles(entries, roles, key, e);
    AddKeepsEntries(entries, live, roles, key, lockee, e);
  }

  lemma AddView(entries: map<string, Entry>, live: Heap, key: string, lockee: string, e: Entry)
    requires key !in entries && forall k :: k in entries ==> entries[k].lockee in live
    requires e.key !in live && e.lockee !in live && e.key != e.lockee
    ensures View(entries[key := e], NewHeap(live, e, key, lockee)) == View(entries, live)[key := Lock(key, lockee, e.since)]
  {
  }

  lemma TakeoverView(s: Store, key: string, l: Lock)
    ensures (s - {key})[key := l] == s[key := l]
  {
  }

  /** What an acquire may lead to, depending on which allocations fail. */
  ghost predicate Outcome(s: Store, op: Op, faults: Faults, r: AcquireResult, s': Store)
    requires op.Acquire?
  {
    var step := Step(s, op);
    && (match r
        case Acquired => s' == step.0 && step.1.Granted?
        case Contended(holder) => s' == s && step.1.Conflict? && holder == step.1.lock.lockee
        case OutOfMemory => s' == if op.key in s && op.force then s - {op.key} else s)
    && (r.OutOfMemory? <==>
        !HeldBy(s, op.key, op.lockee)
        && (if op.key in s && !op.force then faults.arena else faults.key || faults.lockee || faults.put))
  }

  lemma UndoAllocation(h: Heap, b: Block, s: string)
    requires b !in h
    ensures h[b := s] - {b} == h
  {
  }

  class Shard {
    var entries: map<string, Entry>
    var live: Heap
    ghost var roles: map<Block, Role>

    ghost predicate Valid()
      reads this
    {
      Owned(entries, live, roles)
    }

    /** The lock store this shard stands for. */
    ghost function Locks(): (s: Store)
      requires Valid()
      reads this
    {
      View(entries, live)
    }

    constructor ()
      ensures Valid() && Locks() == map[]
    {
      entries, live, roles := map[], map[], map[];
    }

    /** `a.dupe`: a new block holding a copy, or failure. */
    method Dupe(s: string, fails: bool, place: Placement) returns (b: Option<Block>)
      requires Places(place)
      modifies this`live
      ensures fails ==> b.None? && live == old(live)
      ensures !fails ==> b.Some? && b.value !in old(live) && live == old(live)[b.value := s]
    {
      if fails {
        return None;
      }
      b := Some(place(live));
      live := live[b.value := s];
    }

    /** `a.free`: only a live block may be freed, so a double free would not verify. */
    method Free(b: Block)
      requires b in live
      modifies this`live
      ensures live == old(live) - {b}
    {
      live := live - {b};
    }

    /** The two string copies of a new entry, undone when a later allocation fails. */
    method CopyStrings(key: string, lockee: string, now: nat, faults: Faults, place: Placement) returns (e: Option<Entry>)
      requires Places(place)
      modifies this`live
      ensures e.None? <==> faults.key || faults.lockee || faults.put
      ensures e.None? ==> live == old(live)
      ensures e.Some? ==> e.value.since == now && live == NewHeap(old(live), e.value, key, lockee)
      ensures e.Some? ==> e.value.key !in old(live) && e.value.lockee !in old(live) && e.value.key != e.value.lockee
    {
      var keyCopy := Dupe(key, faults.key, place);
      if keyCopy.None? {
        return None;
      }
      UndoAllocation(live - {keyCopy.value}, keyCopy.value, key);
      var lockeeCopy := Dupe(lockee, faults.lockee, place);
      if lockeeCopy.None? {
        Free(keyCopy.value);
        assert live == old(live);
        return None;
      }
      if faults.put {
        Free(lockeeCopy.value);
        Free(keyCopy.value);
        assert live == old(live);
        return None;
      }
      e := Some(Entry(keyCopy.value, lockeeCopy.value, now));
    }

    /** Stores a new key, or fails with everything as it was. */
    method Add(key: string, lockee: string, now: nat, faults: Faults, place: Placement) returns (ok: bool)
      requires Valid() && key !in entries && Places(place)
      modifies this
      ensures Valid() && ok == !(faults.key || faults.lockee || faults.put)
      ensures Locks() == if ok then old(Locks())[key := Lock(key, lockee, now)] else old(Locks())
    {
      var e := CopyStrings(key, lockee, now, faults, place);
      if e.Some? {
        AddKeeps(entries, old(live), roles, key, lockee, e.value);
        AddView(entries, old(live), key, lockee, e.value);
        entries, roles := entries[key := e.value], NewRoles(roles, e.value, key);
      }
      ok := e.Some?;
    }

    /** Removes an entry and frees its strings. */
    method Drop(key: string)
      requires Valid() && key in entries
      modifies this
      ensures Valid() && entries == old(entries) - {key}
      ensures Locks() == old(Locks()) - {key}
    {
      DropKeeps(entries, live, roles, key);
      var existing := entries[key];
      entries := entries - {key};
      Free(existing.key);
      Free(existing.lockee);
      roles := roles - ({existing.key} + {existing.lockee});
      assert live == old(live) - ({existing.key} + {existing.lockee});
    }

    /**
     `acquire` under any combination of failing allocations: ownership is kept; a call that
     succeeds acts as the single-map acquire; one that fails changes nothing, except that a
     failed forced takeover has already dropped the old entry.
     */
    method Acquire(key: string, lockee: string, force: bool, now: nat, faults: Faults, place: Placement)
      returns (r: AcquireResult)
      requires Valid() && Places(place)
      modifies this
      ensures Valid() && Outcome(old(Locks()), Op.Acquire(key, lockee, force, now), faults, r, Locks())
    {
      ghost var s := Locks();
      assert key in entries <==> key in s;
      if key in entries {
        var holder := live[entries[key].lockee];
        assert s[key].lockee == holder;
        if holder == lockee {
          return Acquired;
        }
        if !force {
          return if faults.arena then OutOfMemory else Contended(holder);
        }
        Drop(key);
        TakeoverView(s, key, Lock(key, lockee, now));
      }
      var ok := Add(key, lockee, now, faults, place);
      r := if ok then Acquired else OutOfMemory;
    }

    method Release(key: string, lockee: string) returns (status: ReleaseStatus)
      requires Valid()
      modifies this
      ensures Valid()
      ensures (Locks(), Unlocked(status)) == Step(old(Locks()), Op.Release(key, lockee))
    {
      if key !in entries {
        return NotFound;
      }
      if live[entries[key].lockee] != lockee {
        return Forbidden;
      }
      Drop(key);
      status := Released;
    }
  }
}
