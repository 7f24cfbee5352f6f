/**
 `GET /locks` on a sharded store while other requests run, for any number of shards and any hash;
 the Go store has 64 (`GoLayout`), the C server 256. Each shard is read under its own lock, so the
 listing is a snapshot only while at most one shard changes; this is what it guarantees beyond
 that.
 */
module ShardedListing {
  import opened LockStore
  import opened ShardedStore
  import opened Sharding

  /** How many shards there are, and the hash that assigns keys to them. */
  datatype Shards = Shards(hashOf: string -> nat, n: nat)

  type Layout = h: Shards | h.n > 0 witness Shards(_ => 0, 1)

  function Index(h: Layout, key: string): (i: nat)
    ensures i < h.n
  {
    ShardIndex(h.hashOf, h.n, key)
  }

  /** The layout of the Go store. */
  function GoLayout(hashOf: string -> nat): (h: Layout) {
    Shards(hashOf, SHARD_COUNT)
  }

  /** The shards, and one listing in progress: shards before `next` have been read into `acc`. */
  datatype State = State(shards: seq<Store>, next: nat, acc: seq<Lock>)

  /** A whole request of another client under its shard's lock, or the listing's next shard. */
  datatype Event = Request(op: Op) | Visit(order: seq<Lock>)

  /** Shard `i` holds keys of its own only, filed under themselves. */
  ghost predicate Placed(part: Store, h: Layout, i: nat) {
    forall k :: k in part ==> part[k].key == k && Index(h, k) == i
  }

  ghost predicate WellPlaced(shards: seq<Store>, h: Layout) {
    |shards| == h.n && forall i :: 0 <= i < h.n ==> Placed(shards[i], h, i)
  }

  /** `l` is in the store at this instant. */
  ghost predicate Held(h: Layout, shards: seq<Store>, l: Lock) {
    && |shards| == h.n
    && var i := Index(h, l.key);
       l.key in shards[i] && shards[i][l.key] == l
  }

  ghost predicate Next(h: Layout, s: State, e: Event, s': State) {
    && |s.shards| == h.n
    && match e
       case Request(op) =>
         var i := Index(h, op.key);
         s' == s.(shards := s.shards[i := Step(s.shards[i], op).0])
       case Visit(order) =>
         s.next < h.n && Lists(order, s.shards[s.next])
         && s' == State(s.shards, s.next + 1, s.acc + order)
  }

  /** A run from the start of a listing: any interleaving of requests and visits. */
  ghost predicate Behavior(h: Layout, states: seq<State>, events: seq<Event>) {
    && |states| == |events| + 1
    && states[0].next == 0 && states[0].acc == [] && WellPlaced(states[0].shards, h)
    && (forall t :: 0 <= t < |events| ==> Next(h, states[t], events[t], states[t + 1]))
  }

  /** Requests keep every key in its own shard. */
  lemma {:induction false} PlacementKept(h: Layout, states: seq<State>, events: seq<Event>, t: nat)
    requires Behavior(h, states, events) && t < |states|
    ensures WellPlaced(states[t].shards, h)
  {
    if t > 0 {
      PlacementKept(h, states, events, t - 1);
      assert Next(h, states[t - 1], events[t - 1], states[t]);
    }
  }

  /** What holds after `t` steps of a run. */
  ghost predicate Invariant(h: Layout, states: seq<State>, t: nat)
    requires t < |states|
  {
    var s := states[t];
    && s.next <= h.n
    && (forall i :: 0 <= i < |s.acc| ==> Index(h, s.acc[i].key) < s.next)
    && (forall i, j :: 0 <= i < j < |s.acc| ==> s.acc[i].key != s.acc[j].key)
    && (forall i :: 0 <= i < |s.acc| ==> exists u :: 0 <= u <= t && Held(h, states[u].shards, s.acc[i]))
    && (forall l: Lock ::
          Index(h, l.key) < s.next && (forall u :: 0 <= u <= t ==> Held(h, states[u].shards, l))
          ==> l in s.acc)
  }

  lemma VisitKeeps(h: Layout, states: seq<State>, events: seq<Event>, t: nat)
    requires Behavior(h, states, events) && t < |events| && events[t].Visit?
    requires Invariant(h, states, t)
    ensures Invariant(h, states, t + 1)
  {
    var s, s' := states[t], states[t + 1];
    assert Next(h, s, events[t], s');
    PlacementKept(h, states, events, t);
    var order := events[t].order;
    forall i | 0 <= i < |s'.acc|
      ensures Index(h, s'.acc[i].key) < s'.next
      ensures exists u :: 0 <= u <= t + 1 && Held(h, states[u].shards, s'.acc[i])
    {
      if i < |s.acc| {
        assert s'.acc[i] == s.acc[i];
      } else {
        assert s'.acc[i] == order[i - |s.acc|];
        assert Held(h, states[t].shards, s'.acc[i]);
      }
    }
    forall l: Lock | Index(h, l.key) < s'.next
      && (forall u :: 0 <= u <= t + 1 ==> Held(h, states[u].shards, l))
      ensures l in s'.acc
    {
      assert Held(h, states[t].shards, l);
    }
  }

  lemma {:induction false} InvariantHolds(h: Layout, states: seq<State>, events: seq<Event>, t: nat)
    requires Behavior(h, states, events) && t < |states|
    ensures Invariant(h, states, t)
  {
    if t > 0 {
      InvariantHolds(h, states, events, t - 1);
      StepKeeps(h, states, events, t - 1);
    }
  }

  lemma StepKeeps(h: Layout, states: seq<State>, events: seq<Event>, t: nat)
    requires Behavior(h, states, events) && t < |events| && Invariant(h, states, t)
    ensures Invariant(h, states, t + 1)
  {
    if events[t].Visit? {
      VisitKeeps(h, states, events, t);
    } else {
      RequestKeeps(h, states, events, t);
    }
  }

  lemma RequestKeeps(h: Layout, states: seq<State>, events: seq<Event>, t: nat)
    requires Behavior(h, states, events) && t < |events| && events[t].Request?
    requires Invariant(h, states, t)
    ensures Invariant(h, states, t + 1)
  {
    assert Next(h, states[t], events[t], states[t + 1]);
    assert states[t + 1].acc == states[t].acc && states[t + 1].next == states[t].next;
  }

  /**
   A finished listing, under any interleaving: no key appears twice, every entry was held at some
   instant of the call, and every tenure that spans the call is reported.
   */
  lemma ListingGuarantee(h: Layout, states: seq<State>, events: seq<Event>)
    requires Behavior(h, states, events) && states[|events|].next == h.n
    ensures var r := states[|events|].acc;
      && (forall i, j :: 0 <= i < j < |r| ==> r[i].key != r[j].key)
      && (forall l :: l in r ==> exists u :: 0 <= u < |states| && Held(h, states[u].shards, l))
      && (forall l: Lock :: (forall u :: 0 <= u < |states| ==> Held(h, states[u].shards, l)) ==> l in r)
  {
    InvariantHolds(h, states, events, |events|);
    var r := states[|events|].acc;
    forall l: Lock | forall u :: 0 <= u < |states| ==> Held(h, states[u].shards, l) ensures l in r {
      assert Index(h, l.key) < h.n;
    }
  }

  /** A finished run in which requests fall only in the shards `touched`. */
  ghost predicate FinishedWithin(h: Layout, states: seq<State>, events: seq<Event>, touched: set<nat>) {
    && Behavior(h, states, events) && states[|events|].next == h.n
    && forall t :: 0 <= t < |events| && events[t].Request? ==> Index(h, events[t].op.key) in touched
  }

  /** `acc` shows, of the shards before `next`, exactly what `shards` hold. */
  ghost predicate Shows(h: Layout, acc: seq<Lock>, next: nat, shards: seq<Store>) {
    forall l: Lock :: l in acc <==> Index(h, l.key) < next && Held(h, shards, l)
  }

  /** The finished listing is the whole store at some instant of the call. */
  ghost predicate IsSnapshot(h: Layout, states: seq<State>, acc: seq<Lock>) {
    exists u :: 0 <= u < |states| && Shows(h, acc, h.n, states[u].shards)
  }

  /** A shard that no request touches stays as it was. */
  lemma {:induction false} UntouchedShard(h: Layout, states: seq<State>, events: seq<Event>, t: nat, i: nat)
    requires Behavior(h, states, events) && t < |states| && i < h.n
    requires forall u :: 0 <= u < |events| && events[u].Request? ==> Index(h, events[u].op.key) != i
    ensures |states[t].shards| == h.n && states[t].shards[i] == states[0].shards[i]
  {
    if t > 0 {
      UntouchedShard(h, states, events, t - 1, i);
      assert Next(h, states[t - 1], events[t - 1], states[t]);
    }
  }

  /** A visit adds exactly the contents of the visited shard. */
  lemma VisitShows(h: Layout, s: State, e: Event, s': State, shards: seq<Store>)
    requires Next(h, s, e, s') && e.Visit? && WellPlaced(s.shards, h)
    requires Shows(h, s.acc, s.next, shards) && |shards| == h.n && shards[s.next] == s.shards[s.next]
    ensures Shows(h, s'.acc, s'.next, shards)
  {
    var part := s.shards[s.next];
    forall l: Lock
      ensures l in s'.acc <==> Index(h, l.key) < s'.next && Held(h, shards, l)
    {
      assert l in s'.acc <==> l in s.acc || l in e.order;
      assert l in e.order <==> l.key in part && part[l.key] == l;
    }
  }

  /** Requests fall in shard `z` only. */
  ghost predicate OnlyIn(h: Layout, events: seq<Event>, z: nat) {
    forall t :: 0 <= t < |events| && events[t].Request? ==> Index(h, events[t].op.key) == z
  }

  /** If only shard `z` changes, what has been read is the store as it was when `z` was read, or at first. */
  lemma {:induction false} OneShardShown(h: Layout, states: seq<State>, events: seq<Event>, z: nat, t: nat)
    returns (u: nat)
    requires Behavior(h, states, events) && t < |states| && OnlyIn(h, events, z)
    ensures u <= t && Shows(h, states[t].acc, states[t].next, states[u].shards)
  {
    if t == 0 {
      u := 0;
    } else {
      u := OneShardShown(h, states, events, z, t - 1);
      assert Next(h, states[t - 1], events[t - 1], states[t]);
      if events[t - 1].Visit? {
        u := OneShardVisit(h, states, events, z, t - 1, u);
      }
    }
  }

  lemma OneShardVisit(h: Layout, states: seq<State>, events: seq<Event>, z: nat, t: nat, u: nat)
    returns (u': nat)
    requires Behavior(h, states, events) && u <= t < |events| && OnlyIn(h, events, z) && events[t].Visit?
    requires Shows(h, states[t].acc, states[t].next, states[u].shards)
    ensures u' <= t && Shows(h, states[t + 1].acc, states[t + 1].next, states[u'].shards)
  {
    PlacementKept(h, states, events, t);
    OthersConstant(h, states, events, z, u, t);
    assert Next(h, states[t], events[t], states[t + 1]);
    u' := u;
    if states[t].next == z {
      ShowsElsewhere(h, states[t].acc, z, states[u].shards, states[t].shards);
      u' := t;
    }
    VisitShows(h, states[t], events[t], states[t + 1], states[u'].shards);
  }

  lemma OthersConstant(h: Layout, states: seq<State>, events: seq<Event>, z: nat, u: nat, t: nat)
    requires Behavior(h, states, events) && u <= t < |states| && OnlyIn(h, events, z)
    ensures |states[u].shards| == h.n == |states[t].shards|
    ensures forall i :: 0 <= i < h.n && i != z ==> states[u].shards[i] == states[t].shards[i]
  {
    PlacementKept(h, states, events, u);
    PlacementKept(h, states, events, t);
    forall i | 0 <= i < h.n && i != z ensures states[u].shards[i] == states[t].shards[i] {
      UntouchedShard(h, states, events, u, i);
      UntouchedShard(h, states, events, t, i);
    }
  }

  /** Before shard `z` is read, its contents do not matter. */
  lemma ShowsElsewhere(h: Layout, acc: seq<Lock>, z: nat, shards: seq<Store>, shards': seq<Store>)
    requires Shows(h, acc, z, shards) && |shards| == h.n == |shards'|
    requires forall i :: 0 <= i < h.n && i != z ==> shards[i] == shards'[i]
    ensures Shows(h, acc, z, shards')
  {
  }

  /** While only one shard is written to, every listing is a snapshot. */
  lemma OneShardIsSnapshot(h: Layout, states: seq<State>, events: seq<Event>, touched: set<nat>, z: nat)
    requires FinishedWithin(h, states, events, touched)
    requires forall k :: Index(h, k) in touched ==> Index(h, k) == z
    ensures IsSnapshot(h, states, states[|events|].acc)
  {
    var u := OneShardShown(h, states, events, z, |events|);
  }

  /**
   A run for two keys of different shards, `a` in the lower one: `b` is held first; behind the
   visit of its shard `a` is acquired, and `b` is released ahead of the visit of its own.
   */
  ghost function MissState(h: Layout, a: string, b: string, t: nat): (s: State) {
    var i, j := Index(h, a), Index(h, b);
    State(seq(h.n, n =>
            if n == i && t >= i + 2 then map[a := Lock(a, "x", 1)]
            else if n == j && t <= i + 2 then map[b := Lock(b, "y", 0)] else map[]),
          if t <= i + 1 then t else if t <= i + 3 then i + 1 else t - 2, [])
  }

  ghost function MissEvent(h: Layout, a: string, b: string, t: nat): (e: Event) {
    var i := Index(h, a);
    if t == i + 1 then Request(Acquire(a, "x", false, 1))
    else if t == i + 2 then Request(Release(b, "y"))
    else Visit([])
  }

  lemma MissStep(h: Layout, a: string, b: string, t: nat)
    requires Index(h, a) < Index(h, b) && t < h.n + 2
    ensures Next(h, MissState(h, a, b, t), MissEvent(h, a, b, t), MissState(h, a, b, t + 1))
  {
    var i, j := Index(h, a), Index(h, b);
    var s, s' := MissState(h, a, b, t), MissState(h, a, b, t + 1);
    if t == i + 1 {
      assert s'.shards == s.shards[i := map[a := Lock(a, "x", 1)]];
    } else if t == i + 2 {
      assert map[b := Lock(b, "y", 0)] - {b} == map[];
      assert s'.shards == s.shards[j := map[]];
    } else {
      assert s'.shards == s.shards;
      assert s.acc + [] == s'.acc;
    }
  }

  ghost predicate SomeHeld(h: Layout, shards: seq<Store>) {
    exists l :: Held(h, shards, l)
  }

  lemma MissRun(h: Layout, a: string, b: string) returns (states: seq<State>, events: seq<Event>)
    requires Index(h, a) < Index(h, b)
    ensures |events| == h.n + 2 && |states| == h.n + 3
    ensures FinishedWithin(h, states, events, {Index(h, a), Index(h, b)})
    ensures forall t :: 0 <= t < |states| ==> states[t] == MissState(h, a, b, t)
  {
    var n := h.n + 2;
    states := seq(n + 1, t requires 0 <= t < n + 1 => MissState(h, a, b, t));
    events := seq(n, t requires 0 <= t < n => MissEvent(h, a, b, t));
    forall t | 0 <= t < n ensures Next(h, states[t], events[t], states[t + 1]) {
      MissStep(h, a, b, t);
    }
    assert WellPlaced(states[0].shards, h);
  }

  lemma MissHolds(h: Layout, a: string, b: string, t: nat)
    requires Index(h, a) < Index(h, b)
    ensures var shards := MissState(h, a, b, t).shards; SomeHeld(h, shards) && !Shows(h, [], h.n, shards)
  {
    var l := if t <= Index(h, a) + 2 then Lock(b, "y", 0) else Lock(a, "x", 1);
    assert Held(h, MissState(h, a, b, t).shards, l) && l !in [];
  }

  /**
   Two touched shards are enough to break it: for any hash and any two keys in different shards
   there is a run that touches only these shards and lists nothing, although at every instant of
   the call some lock is held.
   */
  lemma ListingIsNoSnapshot(h: Layout, a: string, b: string) returns (states: seq<State>, events: seq<Event>)
    requires Index(h, a) < Index(h, b)
    ensures FinishedWithin(h, states, events, {Index(h, a), Index(h, b)})
    ensures states[|events|].acc == [] && forall t :: 0 <= t < |states| ==> SomeHeld(h, states[t].shards)
    ensures !IsSnapshot(h, states, states[|events|].acc)
  {
    states, events := MissRun(h, a, b);
    forall t | 0 <= t < |states| ensures SomeHeld(h, states[t].shards) && !Shows(h, [], h.n, states[t].shards) {
      MissHolds(h, a, b, t);
    }
  }

  /** Whatever the interleaving, a listing is a snapshot as long as requests touch only `touched`. */
  ghost predicate AlwaysSnapshot(h: Layout, touched: set<nat>) {
    forall states: seq<State>, events: seq<Event> ::
      FinishedWithin(h, states, events, touched) ==> IsSnapshot(h, states, states[|events|].acc)
  }

  /** A request on `key` falls in one of the shards `touched`. */
  ghost predicate Touches(h: Layout, touched: set<nat>, key: string) {
    Index(h, key) in touched
  }

  /** When a listing can be relied on as a snapshot: exactly if at most one shard can be touched meanwhile. */
  lemma SnapshotIff(h: Layout, touched: set<nat>)
    ensures AlwaysSnapshot(h, touched) <==>
      forall a, b :: Touches(h, touched, a) && Touches(h, touched, b)
        ==> Index(h, a) == Index(h, b)
  {
    if a, b :|
      (&& Touches(h, touched, a) && Touches(h, touched, b)
       && Index(h, a) < Index(h, b))
    {
      var states, events := ListingIsNoSnapshot(h, a, b);
      assert FinishedWithin(h, states, events, touched);
    } else {
      var k :| Touches(h, touched, k) || forall a :: !Touches(h, touched, a);
      forall states: seq<State>, events: seq<Event> | FinishedWithin(h, states, events, touched)
        ensures IsSnapshot(h, states, states[|events|].acc)
      {
        assert forall a :: Index(h, a) in touched ==> Touches(h, touched, a);
        OneShardIsSnapshot(h, states, events, touched, Index(h, k));
      }
    }
  }
}
