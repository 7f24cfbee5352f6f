/**
 Where the entries of a shard sit. Shard index and home slot are both low bits of the same
 hash, so while a table has at most 256 slots all its entries start probing at one slot.
 */
module Clusters {
  import opened HashTable
  import opened LockServer
  import opened LockStore
  import opened ProbeTable
  import opened ShardLocks

  ghost function OccupiedSlots(es: seq<Entry>, n: nat): (r: set<int>)
    requires n <= |es|
  {
    set i | 0 <= i < n && es[i].occupied
  }

  /** With unique keys, bindings and occupied slots are equally many. */
  lemma {:induction false} CountIsOccupied(es: seq<Entry>, n: nat)
    requires Unique(es) && n <= |es|
    ensures |AbsUpTo(es, n)| == |OccupiedSlots(es, n)|
  {
    if n > 0 {
      CountIsOccupied(es, n - 1);
      if es[n - 1].occupied {
        AbsUpToFresh(es, n - 1);
        assert OccupiedSlots(es, n) == OccupiedSlots(es, n - 1) + {n - 1};
      } else {
        assert OccupiedSlots(es, n) == OccupiedSlots(es, n - 1);
      }
    }
  }

  /** The slots reached from `home` in fewer than `n` steps. */
  ghost function Run(home: nat, n: nat, cap: nat): (r: set<int>)
    requires home < cap
  {
    set p | 0 <= p < cap && Dist(home, p, cap) < n
  }

  lemma {:induction false} RunSize(home: nat, n: nat, cap: nat)
    requires home < cap && n <= cap
    ensures |Run(home, n, cap)| == n
  {
    if n == 0 {
      assert Run(home, 0, cap) == {};
    } else {
      RunSize(home, n - 1, cap);
      var last := if home + n - 1 < cap then home + n - 1 else home + n - 1 - cap;
      assert Run(home, n, cap) == Run(home, n - 1, cap) + {last};
    }
  }

  /** If all entries share one home, the occupied slots are the run of that length from it. */
  lemma OneHomeOneRun(es: seq<Entry>, home: nat, e: nat)
    requires home < |es| && Unique(es) && NoGaps(es)
    requires forall i :: 0 <= i < |es| && es[i].occupied ==> Home(es[i].hash, |es|) == home
    requires e < |es| && !es[e].occupied
    ensures OccupiedSlots(es, |es|) == Run(home, |Abs(es)|, |es|)
  {
    var n := FirstGap(es, home, e);
    assert OccupiedSlots(es, |es|) == Run(home, n, |es|) by {
      var gap := if home + n < |es| then home + n else home + n - |es|;
      forall p | 0 <= p < |es| && es[p].occupied ensures Dist(home, p, |es|) < n {
        if Dist(home, p, |es|) > n {
          assert OnPath(es, gap, p);
        }
      }
    }
    RunSize(home, n, |es|);
    CountIsOccupied(es, |es|);
  }

  /** The distance from `home` to the nearest empty slot. */
  lemma FirstGap(es: seq<Entry>, home: nat, e: nat) returns (n: nat)
    requires home < |es| && e < |es| && !es[e].occupied
    ensures n < |es| && !es[if home + n < |es| then home + n else home + n - |es|].occupied
    ensures forall p :: 0 <= p < |es| && Dist(home, p, |es|) < n ==> es[p].occupied
  {
    n := 0;
    var at := home;
    while es[at].occupied
      invariant at == (if home + n < |es| then home + n else home + n - |es|) < |es|
      invariant n <= Dist(home, e, |es|)
      invariant forall p :: 0 <= p < |es| && Dist(home, p, |es|) < n ==> es[p].occupied
      decreases |es| - n
    {
      n, at := n + 1, Next(at, |es|);
    }
  }

  lemma SmallCapacities(cap: nat)
    requires IsCapacity(cap) && cap <= 256
    ensures cap == 32 || cap == 64 || cap == 128 || cap == 256
  {
    if cap != 32 && cap / 2 != 32 && cap / 2 / 2 != 32 {
      assert IsCapacity(cap / 2 / 2 / 2);
    }
  }

  lemma LowBits(h: nat, cap: nat)
    requires cap == 32 || cap == 64 || cap == 128 || cap == 256
    ensures h % cap == h % 256 % cap
  {
    var q, r := h / 256, h % 256;
    if cap == 32 {
      assert h / 32 == 8 * q + r / 32;
    } else if cap == 64 {
      assert h / 64 == 4 * q + r / 64;
    } else if cap == 128 {
      assert h / 128 == 2 * q + r / 128;
    } else {
      assert r / 256 == 0;
    }
  }

  /** In shard `i`, up to 256 slots, the occupied slots are a cyclic run of length `count` from `i mod cap`. */
  lemma ShardIsOneRun(server: Server, s: Store, i: nat)
    requires server.Represents(s) && i < NUM_SHARDS && server.shards[i].cap <= 256
    ensures var t := server.shards[i];
      && t.cap > 0 && t.entries.Length == t.cap
      && (forall j :: 0 <= j < t.cap && t.entries[j].occupied ==> Home(t.entries[j].hash, t.cap) == i % t.cap)
      && OccupiedSlots(t.entries[..], t.cap) == Run(i % t.cap, t.count, t.cap)
  {
    var t := server.shards[i];
    assert Holds(t, server.Mine(s, i));
    var es := t.entries[..];
    SmallCapacities(t.cap);
    forall j | 0 <= j < |es| && es[j].occupied ensures Home(es[j].hash, |es|) == i % t.cap {
      InAbs(es, j);
      assert es[j].key in server.Mine(s, i);
      LowBits(es[j].hash, t.cap);
    }
    var e := EmptySlot(es);
    OneHomeOneRun(es, i % t.cap, e);
  }
}
