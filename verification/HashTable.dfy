/**
 The C server's per-shard hash table: linear probing, growth at 75% load and
 backward-shift deletion, updating one slot array in place.
 */
module HashTable {
  import opened MapFacts
  import opened ProbeTable
  import opened Wrappers

  const INITIAL_CAP: nat := 32

  /** Capacities reachable from the initial one by doubling. */
  ghost predicate IsCapacity(cap: nat) {
    cap == INITIAL_CAP || (cap > INITIAL_CAP && cap % 2 == 0 && IsCapacity(cap / 2))
  }

  class Table {
    /** The hash the callers pair with each key; an arbitrary function. */
    const hashOf: string -> nat
    var entries: array<Entry>
    var cap: nat
    var count: nat

    ghost predicate Valid()
      reads this, entries
    {
      && cap == entries.Length && IsCapacity(cap) && INITIAL_CAP <= cap
      && 4 * count <= 3 * cap
      && WellFormed(entries[..], hashOf)
      && count == |Abs(entries[..])|
    }

    /** The finite map this table stands for. */
    ghost function Contents(): (m: map<string, Holder>)
      requires Valid()
      reads this, entries
    {
      Abs(entries[..])
    }

    constructor (hashOf: string -> nat)
      ensures Valid() && fresh(entries)
      ensures this.hashOf == hashOf && Contents() == map[]
    {
      this.hashOf := hashOf;
      cap := INITIAL_CAP;
      count := 0;
      entries := new Entry[INITIAL_CAP](_ => BLANK);
      new;
      AbsEmpty(entries[..], cap);
    }

    /** The probe loop shared by lookup and deletion: the key's slot, or the first empty one. */
    method Probe(key: string, h: nat) returns (idx: nat)
      requires Valid() && h == hashOf(key)
      ensures idx < cap
      ensures entries[idx].occupied ==> entries[idx].key == key
      ensures entries[idx].occupied <==> key in Contents()
      ensures !entries[idx].occupied ==> Probed(entries[..], key, Home(h, cap), idx)
    {
      idx := Home(h, cap);
      ghost var es := entries[..];
      ghost var e := EmptySlot(es);
      while entries[idx].occupied && !(entries[idx].hash == h && entries[idx].key == key)
        invariant idx < cap
        invariant Ahead(Home(h, cap), idx, e, cap)
        invariant Probed(es, key, Home(h, cap), idx)
        decreases Dist(idx, e, cap)
      {
        ProbeStep(es, key, Home(h, cap), idx, e);
        idx := Next(idx, cap);
      }
      assert es[idx] == entries[idx];
      if entries[idx].occupied {
        InAbs(es, idx);
      } else {
        ProbeMisses(es, hashOf, key, idx);
      }
    }

    /** `ht_find`: the slot holding the key, if any. */
    method Find(key: string, h: nat) returns (slot: Option<nat>)
      requires Valid() && h == hashOf(key)
      ensures slot.None? <==> key !in Contents()
      ensures slot.Some? ==>
        && slot.value < cap && entries[slot.value].occupied && entries[slot.value].key == key
        && Contents()[key] == Holder(entries[slot.value].lockee, entries[slot.value].since)
    {
      var idx := Probe(key, h);
      if !entries[idx].occupied {
        return None;
      }
      InAbs(entries[..], idx);
      return Some(idx);
    }

    /** `ht_insert_entry`: put an entry whose key is absent into the first empty slot of its probe sequence. */
    static method Place(slots: array<Entry>, hashOf: string -> nat, src: Entry)
      requires WellFormed(slots[..], hashOf) && |Abs(slots[..])| < slots.Length
      requires src.occupied && src.hash == hashOf(src.key) && src.key !in Abs(slots[..])
      modifies slots
      ensures WellFormed(slots[..], hashOf)
      ensures Abs(slots[..]) == old(Abs(slots[..]))[src.key := Holder(src.lockee, src.since)]
    {
      ghost var es := slots[..];
      ghost var e := EmptySlot(es);
      var cap := slots.Length;
      var home := Home(src.hash, cap);
      var idx: nat := home;
      while slots[idx].occupied
        invariant idx < cap && slots[..] == es
        invariant Ahead(home, idx, e, cap)
        invariant Probed(es, src.key, home, idx)
        decreases Dist(idx, e, cap)
      {
        InAbs(es, idx);
        ProbeStep(es, src.key, home, idx, e);
        idx := Next(idx, cap);
      }
      FillKeeps(es, hashOf, src, idx);
      slots[idx] := src;
      assert slots[..] == es[idx := src];
    }

    /** `calloc` of a slot array. */
    static method NewSlots(n: nat, hashOf: string -> nat) returns (slots: array<Entry>)
      ensures fresh(slots) && slots.Length == n && WellFormed(slots[..], hashOf) && Abs(slots[..]) == map[]
    {
      slots := new Entry[n](_ => BLANK);
      AbsEmpty(slots[..], n);
    }

    /** The loop of `ht_grow`: place every occupied entry of the old array in the new one. */
    static method CopySlots(before: seq<Entry>, slots: array<Entry>, hashOf: string -> nat) returns (moved: nat)
      requires WellFormed(before, hashOf) && |before| <= slots.Length
      requires WellFormed(slots[..], hashOf) && Abs(slots[..]) == map[]
      modifies slots
      ensures Copied(slots[..], hashOf, before, |before|, moved)
    {
      moved := 0;
      for i := 0 to |before|
        invariant Copied(slots[..], hashOf, before, i, moved)
      {
        moved := CopySlot(before[i], slots, hashOf, moved, before, i);
      }
    }

    /** An array twice as long with the same entries. */
    static method Rehash(before: seq<Entry>, hashOf: string -> nat) returns (slots: array<Entry>, moved: nat)
      requires WellFormed(before, hashOf)
      ensures fresh(slots) && slots.Length == 2 * |before|
      ensures WellFormed(slots[..], hashOf)
      ensures Abs(slots[..]) == Abs(before) && moved == |Abs(before)|
    {
      slots := NewSlots(2 * |before|, hashOf);
      moved := CopySlots(before, slots, hashOf);
    }

    /** The first `i` old slots have been copied, `moved` entries in all. */
    static ghost predicate Copied(slots: seq<Entry>, hashOf: string -> nat, before: seq<Entry>, i: nat, moved: nat) {
      i <= |before| && WellFormed(slots, hashOf) && Abs(slots) == AbsUpTo(before, i) && moved == |AbsUpTo(before, i)| <= i
    }

    /** One round of the loop: slot `i` of the old array is placed if it is occupied. */
    static method CopySlot(e: Entry, slots: array<Entry>, hashOf: string -> nat, moved: nat,
                           ghost es: seq<Entry>, ghost i: nat) returns (moved': nat)
      requires WellFormed(es, hashOf) && i < |es| && e == es[i] && i < slots.Length
      requires Copied(slots[..], hashOf, es, i, moved)
      modifies slots
      ensures Copied(slots[..], hashOf, es, i + 1, moved')
    {
      moved' := moved;
      if e.occupied {
        AbsUpToFresh(es, i);
        Place(slots, hashOf, e);
        moved' := moved + 1;
      }
    }

    /** `ht_grow`: double the capacity, keeping every entry. */
    method Grow()
      requires Valid()
      modifies this
      ensures Valid() && fresh(entries)
      ensures cap == 2 * old(cap) && count == old(count)
      ensures Contents() == old(Contents())
    {
      var slots, moved := Rehash(entries[..], hashOf);
      entries, cap, count := slots, 2 * cap, moved;
    }

    /** `ht_insert`: store a key the caller has found absent, growing first at 75% load. */
    method Insert(key: string, lockee: string, h: nat, since: nat)
      requires Valid() && h == hashOf(key)
      requires key !in Contents()
      modifies this, entries
      ensures Valid() && (entries == old(entries) || fresh(entries))
      ensures cap == if 4 * old(count) >= 3 * old(cap) then 2 * old(cap) else old(cap)
      ensures Contents() == old(Contents())[key := Holder(lockee, since)]
    {
      if 4 * count >= 3 * cap {
        Grow();
      }
      InsertBelowLoad(Entry(key, lockee, h, since, true));
    }

    /** The insertion itself, once the load is below 75%. */
    method InsertBelowLoad(e: Entry)
      requires Valid() && 4 * count < 3 * cap
      requires e.occupied && e.hash == hashOf(e.key) && e.key !in Contents()
      modifies this`count, entries
      ensures Valid() && Contents() == old(Contents())[e.key := Holder(e.lockee, e.since)]
    {
      CapacityIsMultipleOf32(cap);
      ghost var before := Contents();
      Place(entries, hashOf, e);
      assert |before[e.key := Holder(e.lockee, e.since)]| == |before| + 1;
      count := count + 1;
    }

    /** Backward-shift deletion's inner loop, closing the hole left in slot `gap`. */
    static method CloseGap(slots: array<Entry>, ghost hashOf: string -> nat, gap: nat, ghost e: nat)
      requires 1 < slots.Length && gap < slots.Length && e < slots.Length
      requires Closing(slots[..], hashOf, Abs(slots[..]), gap, Next(gap, slots.Length), e)
      modifies slots
      ensures WellFormed(slots[..], hashOf)
      ensures Abs(slots[..]) == old(Abs(slots[..]))
    {
      var cap := slots.Length;
      var idx: nat, j: nat := gap, Next(gap, cap);
      while slots[j].occupied
        invariant idx < cap && j < cap
        invariant Closing(slots[..], hashOf, old(Abs(slots[..])), idx, j, e)
        decreases Dist(j, e, cap)
      {
        ghost var es := slots[..];
        if Displaced(Home(slots[j].hash, cap), idx, j) {
          ClosingMove(es, hashOf, Abs(es), idx, j, e);
          slots[idx] := slots[j];
          slots[j] := slots[j].(occupied := false);
          assert slots[..] == Moved(es, idx, j);
          idx := j;
        } else {
          ClosingSkip(es, hashOf, Abs(es), idx, j, e);
        }
        j := Next(j, cap);
      }
      ShiftDone(slots[..], idx, j);
    }

    /** `ht_remove`: delete the key if present and repair the probe sequences. */
    method Remove(key: string, h: nat)
      requires Valid() && h == hashOf(key)
      modifies this`count, entries
      ensures Valid()
      ensures Contents() == old(Contents()) - {key}
    {
      var idx := Probe(key, h);
      ghost var es := entries[..];
      if !entries[idx].occupied {
        assert Abs(es) - {key} == Abs(es);
        return;
      }
      InAbs(es, idx);
      RemoveSize(Abs(es), key);
      ghost var e := EmptySlot(es);
      ClosingStart(es, hashOf, idx, e);
      entries[idx] := entries[idx].(occupied := false);
      assert entries[..] == es[idx := es[idx].(occupied := false)];
      CloseGap(entries, hashOf, idx, e);
      count := count - 1;
    }

    /** A forced takeover rewrites the holder of an entry in place. */
    method SetHolder(idx: nat, lockee: string, since: nat)
      requires Valid() && idx < cap && entries[idx].occupied
      modifies entries
      ensures Valid()
      ensures Contents() == old(Contents())[old(entries[idx].key) := Holder(lockee, since)]
    {
      ghost var es := entries[..];
      AbsUpdate(es, idx, lockee, since);
      InAbs(es, idx);
      UpdateKeeps(es, hashOf, idx, lockee, since);
      entries[idx] := entries[idx].(lockee := lockee, since := since);
      assert entries[..] == es[idx := es[idx].(lockee := lockee, since := since)];
    }
  }

  lemma {:induction false} CapacityIsMultipleOf32(cap: nat)
    requires IsCapacity(cap)
    ensures cap % 32 == 0 && cap >= 32
  {
    if cap != INITIAL_CAP {
      CapacityIsMultipleOf32(cap / 2);
    }
  }
}
