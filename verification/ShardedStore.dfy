/** The Go sharded store: 64 maps, each behind its own lock. */
module ShardedStore {
  import opened LockRuns
  import opened LockStore
  import opened Sharding

  const SHARD_COUNT: nat := 64

  /** `shards` hold exactly the parts of `s`: disjoint, each key only in its own shard. */
  ghost predicate Splits(shards: seq<Store>, hashOf: string -> nat, s: Store) {
    |shards| == SHARD_COUNT && Keyed(s) && forall i :: 0 <= i < SHARD_COUNT ==> shards[i] == Part(s, hashOf, SHARD_COUNT, i)
  }

  /** Used one request at a time, the sharded store answers as the single map would. */
  lemma SplitStep(shards: seq<Store>, hashOf: string -> nat, s: Store, op: Op)
    requires Splits(shards, hashOf, s)
    ensures var i := ShardIndex(hashOf, SHARD_COUNT, op.key); var r := Step(shards[i], op);
      Splits(shards[i := r.0], hashOf, Step(s, op).0) && r.1 == Step(s, op).1
  {
    forall j | 0 <= j < SHARD_COUNT {
      StepIsLocal(s, hashOf, SHARD_COUNT, op, j);
    }
  }

  /** The shards after the first `n` requests, each applied to its key's shard alone. */
  function ShardsAt(shards: seq<Store>, hashOf: string -> nat, ops: seq<Op>, n: nat): (r: seq<Store>)
    requires |shards| == SHARD_COUNT && n <= |ops|
    ensures |r| == SHARD_COUNT
  {
    if n == 0 then shards
    else
      var before := ShardsAt(shards, hashOf, ops, n - 1);
      var i := ShardIndex(hashOf, SHARD_COUNT, ops[n - 1].key);
      before[i := Step(before[i], ops[n - 1]).0]
  }

  /** The reply of the shard that request `n` goes to. */
  function ShardReply(shards: seq<Store>, hashOf: string -> nat, ops: seq<Op>, n: nat): (r: Reply)
    requires |shards| == SHARD_COUNT && n < |ops|
  {
    Step(ShardsAt(shards, hashOf, ops, n)[ShardIndex(hashOf, SHARD_COUNT, ops[n].key)], ops[n]).1
  }

  lemma {:induction false} SplitRun(shards: seq<Store>, hashOf: string -> nat, s: Store, ops: seq<Op>, n: nat)
    requires Splits(shards, hashOf, s) && n <= |ops|
    ensures Splits(ShardsAt(shards, hashOf, ops, n), hashOf, StateAt(s, ops, n))
  {
    if n > 0 {
      SplitRun(shards, hashOf, s, ops, n - 1);
      SplitStep(ShardsAt(shards, hashOf, ops, n - 1), hashOf, StateAt(s, ops, n - 1), ops[n - 1]);
    }
  }

  /**
   Sequential refinement: for any hash function and any run with the same clock readings, the
   sharded store gives the single map's replies and ends as a split of the single map's state.
   */
  lemma ShardedRunRefines(shards: seq<Store>, hashOf: string -> nat, s: Store, ops: seq<Op>)
    requires Splits(shards, hashOf, s)
    ensures seq(|ops|, n requires 0 <= n < |ops| => ShardReply(shards, hashOf, ops, n)) == Replies(s, ops)
    ensures Splits(ShardsAt(shards, hashOf, ops, |ops|), hashOf, StateAt(s, ops, |ops|))
  {
    SplitRun(shards, hashOf, s, ops, |ops|);
    forall n | 0 <= n < |ops| ensures ShardReply(shards, hashOf, ops, n) == Replies(s, ops)[n] {
      SplitRun(shards, hashOf, s, ops, n);
      SplitStep(ShardsAt(shards, hashOf, ops, n), hashOf, StateAt(s, ops, n), ops[n]);
    }
  }

  class GoShardedStore {
    const hashOf: string -> nat
    var shards: seq<Store>

    ghost predicate Represents(s: Store)
      reads this
    {
      Splits(shards, hashOf, s)
    }

    constructor (hashOf: string -> nat)
      ensures this.hashOf == hashOf && Represents(map[])
    {
      this.hashOf := hashOf;
      shards := seq(SHARD_COUNT, _ => map[]);
    }

    method Acquire(ghost s: Store, key: string, lockee: string, force: bool, now: nat) returns (l: Lock, acquired: bool)
      requires Represents(s)
      modifies this`shards
      ensures var r := Step(s, Op.Acquire(key, lockee, force, now));
        Represents(r.0) && r.1 == if acquired then Granted(l) else Conflict(l)
    {
      SplitStep(shards, hashOf, s, Op.Acquire(key, lockee, force, now));
      var i := ShardIndex(hashOf, SHARD_COUNT, key);
      var locks := shards[i];
      if key in locks {
        var existing := locks[key];
        if existing.lockee == lockee {
          assert shards[i := locks] == shards;
          return existing, true;
        }
        if !force {
          assert shards[i := locks] == shards;
          return existing, false;
        }
      }
      l := Lock(key, lockee, now);
      shards := shards[i := locks[key := l]];
      return l, true;
    }

    method Release(ghost s: Store, key: string, lockee: string) returns (status: ReleaseStatus)
      requires Represents(s)
      modifies this`shards
      ensures var r := Step(s, Op.Release(key, lockee));
        Represents(r.0) && r.1 == Unlocked(status)
    {
      SplitStep(shards, hashOf, s, Op.Release(key, lockee));
      var i := ShardIndex(hashOf, SHARD_COUNT, key);
      var locks := shards[i];
      if key !in locks {
        assert shards[i := locks] == shards;
        return NotFound;
      }
      if locks[key].lockee != lockee {
        assert shards[i := locks] == shards;
        return Forbidden;
      }
      shards := shards[i := locks - {key}];
      return Released;
    }

    /** With nobody else running, the shard-by-shard listing is a listing of the single map. */
    method List(ghost s: Store) returns (r: seq<Lock>)
      requires Represents(s)
      ensures Lists(r, s)
    {
      r := [];
      assert Below(s, hashOf, SHARD_COUNT, 0) == map[];
      for i := 0 to SHARD_COUNT
        invariant Lists(r, Below(s, hashOf, SHARD_COUNT, i))
      {
        var part := ListMap(shards[i]);
        ListsNextPart(r, part, s, hashOf, SHARD_COUNT, i);
        r := r + part;
      }
      assert Below(s, hashOf, SHARD_COUNT, SHARD_COUNT) == s;
    }
  }
}
