/**
 `GET /locks` of the C server while other requests run: shard by shard, each under its own lock,
 over tables that grow and shift between the visits, and cut off near the end of the buffer.
 */
module ConcurrentListing {
  import opened Handlers
  import opened HashTable
  import opened Listing
  import opened ListingOrder
  import opened LockServer
  import opened LockStore
  import opened ProbeTable
  import opened ShardLocks
  import opened ShardedListing

  /** The layout of the C server. */
  function ServerLayout(hashOf: string -> nat): (h: Layout) {
    Shards(hashOf, NUM_SHARDS)
  }

  /** What a visit reads: the occupied slots of the shard's table, whatever its capacity has become. */
  lemma TableVisit(t: Table, part: Store)
    requires Holds(t, part)
    ensures Lists(AsLocks(Occupied(t.entries[..], t.entries.Length)), part)
  {
    OccupiedLists(t.entries[..], t.entries.Length);
  }

  function AsEntry(l: Lock): (e: Entry) {
    Entry(l.key, l.lockee, 0, l.since, true)
  }

  function AsEntries(r: seq<Lock>): (es: seq<Entry>)
    ensures |es| == |r| && forall i :: 0 <= i < |r| ==> es[i] == AsEntry(r[i])
  {
    seq(|r|, i requires 0 <= i < |r| => AsEntry(r[i]))
  }

  /** The texts of what has been read. */
  function Texts(stamp: nat -> string, r: seq<Lock>): (items: seq<string>)
    ensures |items| == |r|
  {
    Items(stamp, AsEntries(r))
  }

  /** They are the texts of the slots themselves. */
  lemma TextsOfSlots(stamp: nat -> string, es: seq<Entry>)
    ensures Texts(stamp, AsLocks(es)) == Items(stamp, es)
  {
    var rs := AsEntries(AsLocks(es));
    forall i | 0 <= i < |es| ensures Items(stamp, rs)[i] == Items(stamp, es)[i] {
      PrintAllAt(Item(stamp), rs, i);
      PrintAllAt(Item(stamp), es, i);
      assert EntryText(rs[i], stamp(es[i].since)) == EntryText(es[i], stamp(es[i].since));
    }
  }

  lemma TextsAppend(stamp: nat -> string, r: seq<Lock>, more: seq<Lock>)
    ensures Texts(stamp, r + more) == Texts(stamp, r) + Texts(stamp, more)
  {
    PrintAllAppend(Item(stamp), AsEntries(r), AsEntries(more));
    assert AsEntries(r + more) == AsEntries(r) + AsEntries(more);
  }

  /** What has been read so far stays within the limit, so the loop goes on to the next shard. */
  ghost predicate GoesOn(stamp: nat -> string, s: State) {
    |Written(Texts(stamp, s.acc), |s.acc|)| <= LIMIT
  }

  /** Any interleaving of requests with a listing that visits a shard only while there is room. */
  ghost predicate Run(stamp: nat -> string, h: Layout, states: seq<State>, events: seq<Event>) {
    Behavior(h, states, events) && forall t :: 0 <= t < |events| && events[t].Visit? ==> GoesOn(stamp, states[t])
  }

  /** The shards whose locks have all been printed when the first `k` of those read are. */
  function FullyShown(s: State, k: nat): (n: nat) {
    if k == |s.acc| || s.next == 0 then s.next else s.next - 1
  }

  /** The text of a shorter part of what has been read is shorter. */
  lemma RoomSoFar(stamp: nat -> string, r: seq<Lock>, more: seq<Lock>, k: nat)
    requires |Written(Texts(stamp, r), |r|)| <= LIMIT
    requires StopsAt(Texts(stamp, r + more), k) && k < |r + more|
    ensures |r| < k
  {
    TextsAppend(stamp, r, more);
    var items := Texts(stamp, r + more);
    WrittenFrame(Texts(stamp, r), Texts(stamp, more), |r|);
    if k <= |r| {
      WrittenGrows(items, k, |r|);
    }
  }

  /** The lock is held at every instant up to `t`. */
  ghost predicate Spans(h: Layout, states: seq<State>, t: nat, l: Lock)
    requires t < |states|
  {
    forall u :: 0 <= u <= t ==> Held(h, states[u].shards, l)
  }

  lemma SpanningRead(h: Layout, states: seq<State>, events: seq<Event>, t: nat, l: Lock)
    requires Behavior(h, states, events) && t < |states| && Spans(h, states, t, l) && Index(h, l.key) < states[t].next
    ensures l in states[t].acc
  {
    InvariantHolds(h, states, events, t);
  }

  /** After a visit: what was read before it is shown, even if the visited shard is cut off. */
  lemma SpanningVisit(stamp: nat -> string, h: Layout, states: seq<State>, events: seq<Event>, t: nat, k: nat, l: Lock)
    requires Run(stamp, h, states, events) && t < |events| && events[t].Visit?
    requires StopsAt(Texts(stamp, states[t + 1].acc), k) && k < |states[t + 1].acc|
    requires Index(h, l.key) < states[t + 1].next - 1 && Spans(h, states, t, l)
    ensures l in states[t + 1].acc[..k]
  {
    assert ShardedListing.Next(h, states[t], events[t], states[t + 1]);
    SpanningRead(h, states, events, t, l);
    RoomSoFar(stamp, states[t].acc, events[t].order, k);
    assert states[t].acc <= states[t + 1].acc[..k];
  }

  /** What is fully shown at instant `t` includes every tenure that spans the call so far. */
  lemma {:induction false} SpanningShown(stamp: nat -> string, h: Layout, states: seq<State>, events: seq<Event>, t: nat, k: nat, l: Lock)
    requires Run(stamp, h, states, events) && t < |states| && StopsAt(Texts(stamp, states[t].acc), k)
    requires Index(h, l.key) < FullyShown(states[t], k) && Spans(h, states, t, l)
    ensures l in states[t].acc[..k]
  {
    if k == |states[t].acc| {
      SpanningRead(h, states, events, t, l);
      assert states[t].acc[..k] == states[t].acc;
    } else if t > 0 {
      if events[t - 1].Request? {
        assert ShardedListing.Next(h, states[t - 1], events[t - 1], states[t]);
        SpanningShown(stamp, h, states, events, t - 1, k, l);
      } else {
        SpanningVisit(stamp, h, states, events, t - 1, k, l);
      }
    }
  }

  lemma ReadLocks(h: Layout, states: seq<State>, events: seq<Event>, t: nat)
    requires Behavior(h, states, events) && t < |states|
    ensures forall i, j :: 0 <= i < j < |states[t].acc| ==> states[t].acc[i].key != states[t].acc[j].key
    ensures forall i :: 0 <= i < |states[t].acc| ==> HeldSometime(h, states, states[t].acc[i])
  {
    InvariantHolds(h, states, events, t);
  }

  ghost predicate HeldSometime(h: Layout, states: seq<State>, l: Lock) {
    exists u :: 0 <= u < |states| && Held(h, states[u].shards, l)
  }

  /**
   What a concurrent listing of the C server shows when it has ended, early or not: no key twice,
   only locks held at some instant of the call, and every tenure that spans the call whose shard
   was read to its end; if nothing was cut off these are all the tenures that span the call.
   */
  lemma ShownGuarantee(stamp: nat -> string, h: Layout, states: seq<State>, events: seq<Event>, k: nat)
    requires Run(stamp, h, states, events) && StopsAt(Texts(stamp, states[|events|].acc), k)
    ensures var s := states[|events|]; var shown := s.acc[..k];
      && (forall i, j :: 0 <= i < j < k ==> shown[i].key != shown[j].key)
      && (forall i :: 0 <= i < k ==> HeldSometime(h, states, shown[i]))
      && (forall l: Lock :: Index(h, l.key) < FullyShown(s, k) && Spans(h, states, |events|, l) ==> l in shown)
      && (s.next == h.n && k == |s.acc| ==> FullyShown(s, k) == h.n)
  {
    ReadLocks(h, states, events, |events|);
    forall l: Lock | Index(h, l.key) < FullyShown(states[|events|], k) && Spans(h, states, |events|, l)
      ensures l in states[|events|].acc[..k]
    {
      SpanningShown(stamp, h, states, events, |events|, k, l);
    }
  }

  /** All names are of the lengths the server keeps. */
  ghost predicate ShardsSized(shards: seq<Store>) {
    forall i :: 0 <= i < |shards| ==> Sized(shards[i])
  }

  /** The other requests are such as the handlers pass on. */
  ghost predicate AllAdmissible(events: seq<Event>) {
    forall t :: 0 <= t < |events| && events[t].Request? ==> Admissible(events[t].op)
  }

  lemma {:induction false} StaySized(h: Layout, states: seq<State>, events: seq<Event>, t: nat)
    requires Behavior(h, states, events) && t < |states| && ShardsSized(states[0].shards) && AllAdmissible(events)
    ensures ShardsSized(states[t].shards)
  {
    if t > 0 {
      StaySized(h, states, events, t - 1);
      assert ShardedListing.Next(h, states[t - 1], events[t - 1], states[t]);
      if events[t - 1].Request? {
        var op := events[t - 1].op;
        SizedStep(states[t - 1].shards[Index(h, op.key)], op);
      }
    }
  }

  lemma ReadAreSmall(h: Layout, states: seq<State>, events: seq<Event>, t: nat, es: seq<Entry>)
    requires Behavior(h, states, events) && t < |states| && AsLocks(es) == states[t].acc
    requires ShardsSized(states[0].shards) && AllAdmissible(events)
    ensures forall e :: e in es ==> Small(e)
  {
    ReadLocks(h, states, events, t);
    forall e | e in es ensures Small(e) {
      var i :| 0 <= i < |es| && es[i] == e;
      var l := states[t].acc[i];
      assert l == AsLock(e) && HeldSometime(h, states, l);
      var u :| 0 <= u < |states| && Held(h, states[u].shards, l);
      StaySized(h, states, events, u);
      assert Sized(states[u].shards[Index(h, l.key)]);
    }
  }

  /**
   The listing of the C server itself, over its 256 tables, among any other requests: `es` are the
   slots it has read and `k` how many of them it has written when it ends. The body fits its buffer;
   cut short it shows at least 32 locks; and what it shows has the guarantees above.
   */
  lemma ServerListing(hashOf: string -> nat, states: seq<State>, events: seq<Event>, es: seq<Entry>, k: nat, body: string)
    requires Run(Stamp, ServerLayout(hashOf), states, events)
    requires ShardsSized(states[0].shards) && AllAdmissible(events)
    requires AsLocks(es) == states[|events|].acc && StopsAt(Items(Stamp, es), k)
    requires body == Written(Items(Stamp, es), k) + CLOSING
    ensures |body| <= BODY_SIZE && (k < |es| ==> k >= 32)
    ensures var h := ServerLayout(hashOf); var s := states[|events|]; var shown := AsLocks(es)[..k];
      && (forall i, j :: 0 <= i < j < k ==> shown[i].key != shown[j].key)
      && (forall i :: 0 <= i < k ==> HeldSometime(h, states, shown[i]))
      && (forall l: Lock :: Index(h, l.key) < FullyShown(s, k) && Spans(h, states, |events|, l) ==> l in shown)
      && (s.next == 256 && k == |es| ==> FullyShown(s, k) == 256)
  {
    TextsOfSlots(Stamp, es);
    ShownGuarantee(Stamp, ServerLayout(hashOf), states, events, k);
    ReadAreSmall(ServerLayout(hashOf), states, events, |events|, es);
    StampIsStamp();
    ItemsSmall(Stamp, es);
    ListingBounds(Items(Stamp, es), k);
  }
}
