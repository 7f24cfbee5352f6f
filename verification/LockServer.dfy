/** The C server: 256 hash tables, the request handlers and the response buffer. */
module LockServer {
  import opened CInts
  import opened HashTable
  import opened LockRuns
  import opened LockStore
  import opened ShardLocks
  import opened Sharding

  const NUM_SHARDS: nat := 256
  const MAX_KEY_LEN: nat := 128
  const MAX_LOCKEE_LEN: nat := 64

  /** Over-long names are cut, not refused. */
  function Cut(s: string, limit: nat): (r: string)
    requires limit > 0
    ensures |r| < limit && r <= s
    ensures |s| < limit ==> r == s
  {
    if |s| >= limit then s[..limit - 1] else s
  }

  /** Two names become one exactly if they agree on everything that is kept and neither is shorter. */
  lemma CutCollides(a: string, b: string, limit: nat)
    requires limit > 0
    ensures Cut(a, limit) == Cut(b, limit) <==>
      a == b || (|a| >= limit - 1 && |b| >= limit - 1 && a[..limit - 1] == b[..limit - 1])
  {
    assert |a| == limit - 1 ==> a[..limit - 1] == a;
    assert |b| == limit - 1 ==> b[..limit - 1] == b;
  }

  /** The sizes the fixed buffers rely on. */
  ghost predicate Sized(s: Store) {
    forall k :: k in s ==> |k| < MAX_KEY_LEN && |s[k].lockee| < MAX_LOCKEE_LEN && s[k].since < INT64_LIMIT
  }

  /** `shards_init`. */
  method NewShards(hashOf: string -> nat) returns (ts: seq<Table>, ghost repr: set<object>)
    ensures |ts| == NUM_SHARDS && fresh(repr)
    ensures forall j :: 0 <= j < |ts| ==> ts[j] in repr && ts[j].entries in repr && ts[j].hashOf == hashOf
    ensures forall j :: 0 <= j < |ts| ==> Holds(ts[j], map[])
    ensures forall j, k :: 0 <= j < k < |ts| ==> ts[j] != ts[k] && ts[j].entries != ts[k].entries
  {
    ts, repr := [], {};
    for i := 0 to NUM_SHARDS
      invariant |ts| == i && fresh(repr)
      invariant forall j :: 0 <= j < i ==> ts[j] in repr && ts[j].entries in repr && ts[j].hashOf == hashOf
      invariant forall j :: 0 <= j < i ==> Holds(ts[j], map[])
      invariant forall j, k :: 0 <= j < k < i ==> ts[j] != ts[k] && ts[j].entries != ts[k].entries
    {
      var t := new Table(hashOf);
      ts, repr := ts + [t], repr + {t, t.entries};
    }
  }

  /** What the handlers pass on: names already cut, and a 64-bit clock reading. */
  predicate Admissible(op: Op) {
    |op.key| < MAX_KEY_LEN && |op.lockee| < MAX_LOCKEE_LEN && (op.Acquire? ==> op.now < INT64_LIMIT)
  }

  lemma SizedStep(s: Store, op: Op)
    requires Sized(s) && Admissible(op)
    ensures Sized(Step(s, op).0)
  {
  }

  /** What the server learns from one request: enough for its answer. */
  datatype ServerReply = Locked | HeldElsewhere(holder: string) | Unlocking(status: ReleaseStatus)

  /** The single-map store's reply, as far as the server reports it. */
  predicate Matches(r: ServerReply, reply: Reply) {
    match reply
    case Granted(_) => r == Locked
    case Conflict(lock) => r == HeldElsewhere(lock.lockee)
    case Unlocked(status) => r == Unlocking(status)
  }

  /** The replies report those of the single-map store to the first requests of a run. */
  predicate Reports(replies: seq<ServerReply>, s: Store, ops: seq<Op>) {
    |replies| <= |ops|
    && (replies == []
        || (var n := |replies| - 1;
            Reports(replies[..n], s, ops) && Matches(replies[n], Step(StateAt(s, ops, n), ops[n]).1)))
  }

  lemma ReportsSnoc(replies: seq<ServerReply>, r: ServerReply, s: Store, ops: seq<Op>)
    requires Reports(replies, s, ops) && |replies| < |ops|
    requires Matches(r, Step(StateAt(s, ops, |replies|), ops[|replies|]).1)
    ensures Reports(replies + [r], s, ops)
  {
    assert (replies + [r])[..|replies|] == replies;
  }

  /** Reply by reply: what the server reports is what the single-map store replies. */
  lemma {:induction false} ReportsAt(replies: seq<ServerReply>, s: Store, ops: seq<Op>, i: nat)
    requires Reports(replies, s, ops) && i < |replies|
    ensures Matches(replies[i], Replies(s, ops)[i])
  {
    if i < |replies| - 1 {
      ReportsAt(replies[..|replies| - 1], s, ops, i);
    }
  }

  class Server {
    const hashOf: string -> nat
    const shards: seq<Table>

    /** The objects this server is made of. */
    ghost var Repr: set<object>

    ghost predicate Separate()
      reads this, Repr
    {
      && this in Repr && |shards| == NUM_SHARDS
      && (forall i :: 0 <= i < |shards| ==> shards[i] in Repr)
      && (forall i :: 0 <= i < |shards| ==> shards[i].entries in Repr && shards[i].hashOf == hashOf)
      && (forall i, j :: 0 <= i < j < |shards| ==> shards[i] != shards[j] && shards[i].entries != shards[j].entries)
    }

    function ShardOf(key: string): (i: nat)
      ensures i < NUM_SHARDS
    {
      ShardIndex(hashOf, NUM_SHARDS, key)
    }

    /** The bindings of shard `i`. */
    ghost function Mine(s: Store, i: nat): (r: Store) {
      Part(s, hashOf, NUM_SHARDS, i)
    }

    /** The server is in good order and stands for the single-map store `s`. */
    ghost predicate Represents(s: Store)
      reads this, Repr
    {
      && Separate() && Keyed(s) && Sized(s)
      && (forall i :: 0 <= i < |shards| ==> Holds(shards[i], Mine(s, i)))
    }

    constructor (hashOf: string -> nat)
      ensures Represents(map[]) && fresh(Repr) && this.hashOf == hashOf
    {
      this.hashOf := hashOf;
      ghost var repr;
      var ts;
      ts, repr := NewShards(hashOf);
      shards, Repr := ts, repr + {this};
    }

    /** The tables determine the store. */
    lemma StoreIsDetermined(s: Store, s': Store)
      requires Represents(s) && Represents(s')
      ensures s == s'
    {
      forall i | 0 <= i < NUM_SHARDS ensures Part(s, hashOf, NUM_SHARDS, i) == Part(s', hashOf, NUM_SHARDS, i) {
        assert Holds(shards[i], Mine(s, i)) && Holds(shards[i], Mine(s', i));
      }
      PartsDetermine(s, s', hashOf, NUM_SHARDS);
    }

    /** A critical section on shard `i` has turned its part into `after` and left the others alone. */
    ghost predicate Pending(before: Store, i: nat, after: Store)
      reads this, Repr
    {
      && Separate() && i < NUM_SHARDS
      && Holds(shards[i], after)
      && (forall j :: 0 <= j < |shards| && j != i ==> Holds(shards[j], Mine(before, j)))
    }

    /** A critical section on one shard leaves the whole server in order. */
    lemma Restored(s: Store, op: Op, i: nat)
      requires i == ShardOf(op.key) && Keyed(s)
      requires Pending(s, i, Step(Mine(s, i), op).0)
      requires Sized(Step(s, op).0)
      ensures Represents(Step(s, op).0) && Step(s, op).1 == Step(Mine(s, i), op).1
    {
      StepIsLocal(s, hashOf, NUM_SHARDS, op, i);
      forall j | 0 <= j < |shards|
        ensures Holds(shards[j], Mine(Step(s, op).0, j))
      {
        StepIsLocal(s, hashOf, NUM_SHARDS, op, j);
      }
    }

    method LockedAcquire(ghost s: Store, i: nat, key: string, lockee: string, force: bool, now: nat)
      returns (granted: bool, holder: string)
      requires Represents(s) && i == ShardOf(key)
      modifies this`Repr, shards[i], shards[i].entries
      ensures fresh(Repr - old(Repr))
      ensures var r := Step(Mine(s, i), Op.Acquire(key, lockee, force, now));
        && Pending(s, i, r.0)
        && (granted <==> r.1.Granted?) && (r.1.Conflict? ==> holder == r.1.lock.lockee)
    {
      ghost var before := Repr;
      granted, holder := AcquireAt(s, i, key, lockee, force, now);
      assert shards[i].entries in before || fresh(shards[i].entries);
      Repr := Repr + {shards[i].entries};
    }

    method AcquireAt(ghost s: Store, i: nat, key: string, lockee: string, force: bool, now: nat)
      returns (granted: bool, holder: string)
      requires Represents(s) && i == ShardOf(key)
      modifies shards[i], shards[i].entries
      ensures shards[i].entries == old(shards[i].entries) || fresh(shards[i].entries)
      ensures forall j :: 0 <= j < |shards| && j != i ==>
        shards[j].entries == old(shards[j].entries) && Holds(shards[j], Mine(s, j))
      ensures var r := Step(Mine(s, i), Op.Acquire(key, lockee, force, now));
        Holds(shards[i], r.0) && (granted <==> r.1.Granted?) && (r.1.Conflict? ==> holder == r.1.lock.lockee)
    {
      granted, holder := AcquireIn(Mine(s, i), shards[i], key, lockee, force, hashOf(key), now);
    }

    method LockedRelease(ghost s: Store, i: nat, key: string, lockee: string) returns (status: ReleaseStatus)
      requires Represents(s) && i == ShardOf(key)
      modifies this`Repr, shards[i], shards[i].entries
      ensures fresh(Repr - old(Repr))
      ensures var r := Step(Mine(s, i), Op.Release(key, lockee));
        Pending(s, i, r.0) && r.1 == Unlocked(status)
    {
      var t := shards[i];
      status := ReleaseIn(Mine(s, i), t, key, lockee, hashOf(key));
    }

    /** The state change of `handle_post_lock` on names of legal length. */
    method Acquire(ghost s: Store, key: string, lockee: string, force: bool, now: nat)
      returns (granted: bool, holder: string)
      requires Represents(s) && |key| < MAX_KEY_LEN && |lockee| < MAX_LOCKEE_LEN && now < INT64_LIMIT
      modifies Repr
      ensures fresh(Repr - old(Repr))
      ensures var r := Step(s, Op.Acquire(key, lockee, force, now));
        Represents(r.0) && (granted <==> r.1.Granted?) && (r.1.Conflict? ==> holder == r.1.lock.lockee)
    {
      var i := ShardOf(key);
      granted, holder := LockedAcquire(s, i, key, lockee, force, now);
      SizedStep(s, Op.Acquire(key, lockee, force, now));
      Restored(s, Op.Acquire(key, lockee, force, now), i);
    }

    /** The state change of `handle_delete_lock`. */
    method Release(ghost s: Store, key: string, lockee: string) returns (status: ReleaseStatus)
      requires Represents(s)
      modifies Repr
      ensures fresh(Repr - old(Repr))
      ensures var r := Step(s, Op.Release(key, lockee));
        Represents(r.0) && r.1 == Unlocked(status)
    {
      var i := ShardOf(key);
      status := LockedRelease(s, i, key, lockee);
      Restored(s, Op.Release(key, lockee), i);
    }

    /** One request, whichever it is. */
    method Apply(ghost s: Store, op: Op) returns (reply: ServerReply)
      requires Represents(s) && Admissible(op)
      modifies Repr
      ensures fresh(Repr - old(Repr)) && Represents(Step(s, op).0) && Matches(reply, Step(s, op).1)
    {
      match op {
        case Acquire(key, lockee, force, now) =>
          var granted, holder := Acquire(s, key, lockee, force, now);
          reply := if granted then Locked else HeldElsewhere(holder);
        case Release(key, lockee) =>
          var status := Release(s, key, lockee);
          reply := Unlocking(status);
      }
    }

    /** Whole runs: every reply and the final state are those of the single-map store. */
    method Run(ghost s: Store, ops: seq<Op>) returns (replies: seq<ServerReply>)
      requires Represents(s) && forall i :: 0 <= i < |ops| ==> Admissible(ops[i])
      modifies Repr
      ensures fresh(Repr - old(Repr)) && Represents(StateAt(s, ops, |ops|))
      ensures |replies| == |ops| && Reports(replies, s, ops)
    {
      replies := [];
      for i := 0 to |ops|
        invariant fresh(Repr - old(Repr)) && Represents(StateAt(s, ops, i))
        invariant |replies| == i && Reports(replies, s, ops)
      {
        var reply := Apply(StateAt(s, ops, i), ops[i]);
        ReportsSnoc(replies, reply, s, ops);
        replies := replies + [reply];
      }
    }
  }
}
