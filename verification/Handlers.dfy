/** The C server's request handlers, from request body to response bytes. */
module Handlers {
  import opened CInts
  import opened JsonRequest
  import opened Listing
  import opened ListingOrder
  import opened LockServer
  import opened LockStore
  import opened ProbeTable
  import opened Responses
  import opened ShardLocks
  import opened Sharding
  import opened Wrappers

  const BAD_REQUEST: string := "{\"error\":\"bad request\"}"

  /** The acquire a `/lock` body asks for, its names cut to what an entry can store. */
  function PostOp(body: string, now: nat): (r: Option<Op>)
    ensures r.Some? ==> r.value.Acquire? && r.value.now == now
                        && |r.value.key| < MAX_KEY_LEN && |r.value.lockee| < MAX_LOCKEE_LEN
  {
    var f := JsonRequest.ParseBody(body);
    if f.None? || f.value.lockee.None? then None
    else Some(Acquire(Cut(f.value.key.value, MAX_KEY_LEN), Cut(f.value.lockee.value, MAX_LOCKEE_LEN), f.value.force, now))
  }

  /** The release an `/unlock` body asks for. */
  function UnlockOp(body: string): (r: Option<Op>)
    ensures r.Some? ==> r.value.Release?
                        && |r.value.key| < MAX_KEY_LEN && |r.value.lockee| < MAX_LOCKEE_LEN
  {
    var f := JsonRequest.ParseBody(body);
    if f.None? || f.value.lockee.None? then None
    else Some(Release(Cut(f.value.key.value, MAX_KEY_LEN), Cut(f.value.lockee.value, MAX_LOCKEE_LEN)))
  }

  const LOCKED_KEY: string := "{\"locked\":true,\"key\":\""
  const REFUSED_KEY: string := "{\"locked\":false,\"key\":\""
  const HOLDER_IS: string := "\",\"currentLockee\":\""

  /** The JSON answer to `/lock`: `open` names the key and `middle` the lockee. */
  function LockText(open: string, key: string, middle: string, lockee: string): (s: string) {
    open + key + middle + lockee + END_ENTRY
  }

  /** A built response, the body-less 200 of a release, or the constant health response. */
  datatype Answer = WithBody(status: string, body: string) | NoBody(status: string) | Healthy

  function AnswerText(a: Answer): (s: string) {
    match a
    case WithBody(status, body) => Response(status, body)
    case NoBody(status) => EmptyResponse(status)
    case Healthy => RESP_HEALTHZ
  }

  /** Answers that the buffers can hold. */
  predicate FitsBuffers(a: Answer) {
    match a
    case WithBody(status, body) => IsStatusLine(status) && |body| <= BODY_SIZE
    case NoBody(status) => IsStatusLine(status)
    case Healthy => true
  }

  function LockAnswer(op: Op, reply: Reply): (a: Answer)
    requires op.Acquire? && !reply.Unlocked?
    ensures a.WithBody?
  {
    if reply.Granted? then WithBody(HTTP_200, LockText(LOCKED_KEY, op.key, LOCKEE_IS, op.lockee))
    else WithBody(HTTP_409, LockText(REFUSED_KEY, op.key, HOLDER_IS, reply.lock.lockee))
  }

  function UnlockAnswer(status: ReleaseStatus): (a: Answer) {
    match status
    case Released => NoBody(HTTP_200)
    case NotFound => WithBody(HTTP_404, "not found")
    case Forbidden => WithBody(HTTP_403, "lockee mismatch")
  }

  /** The names of a lock answer keep it within the 384-byte buffer it is put together in. */
  lemma LockTextFits(op: Op, reply: Reply)
    requires op.Acquire? && !reply.Unlocked? && |op.key| < MAX_KEY_LEN && |op.lockee| < MAX_LOCKEE_LEN
    requires reply.Conflict? ==> |reply.lock.lockee| < MAX_LOCKEE_LEN
    ensures |LockAnswer(op, reply).body| <= 384 && FitsBuffers(LockAnswer(op, reply))
  {
    StatusLines();
  }

  lemma UnlockTextFits(status: ReleaseStatus)
    ensures FitsBuffers(UnlockAnswer(status)) && FitsBuffers(WithBody(HTTP_400, BAD_REQUEST))
  {
    StatusLines();
  }

  method DecodePost(body: string, now: nat) returns (op: Option<Op>)
    ensures op == PostOp(body, now)
  {
    var f := ParseJsonBody(body);
    if f.None? || f.value.lockee.None? {
      return None;
    }
    var key, lockee := Cut(f.value.key.value, MAX_KEY_LEN), Cut(f.value.lockee.value, MAX_LOCKEE_LEN);
    op := Some(Acquire(key, lockee, f.value.force, now));
  }

  method DecodeUnlock(body: string) returns (op: Option<Op>)
    ensures op == UnlockOp(body)
  {
    var f := ParseJsonBody(body);
    if f.None? || f.value.lockee.None? {
      return None;
    }
    var key, lockee := Cut(f.value.key.value, MAX_KEY_LEN), Cut(f.value.lockee.value, MAX_LOCKEE_LEN);
    op := Some(Release(key, lockee));
  }

  /** `handle_post_lock`: the single-map acquire on the cut names, answered with 200 or 409. */
  method HandlePostLock(server: Server, ghost s: Store, body: string, now: nat) returns (a: Answer)
    requires server.Represents(s) && now < INT64_LIMIT
    modifies server.Repr
    ensures fresh(server.Repr - old(server.Repr))
    ensures match PostOp(body, now)
            case None => server.Represents(s) && a == WithBody(HTTP_400, BAD_REQUEST)
            case Some(op) => server.Represents(Step(s, op).0) && a == LockAnswer(op, Step(s, op).1)
  {
    var op := DecodePost(body, now);
    if op.None? {
      return WithBody(HTTP_400, BAD_REQUEST);
    }
    var granted, holder := server.Acquire(s, op.value.key, op.value.lockee, op.value.force, now);
    if granted {
      a := WithBody(HTTP_200, LockText(LOCKED_KEY, op.value.key, LOCKEE_IS, op.value.lockee));
    } else {
      a := WithBody(HTTP_409, LockText(REFUSED_KEY, op.value.key, HOLDER_IS, holder));
    }
  }

  /** `handle_delete_lock`: the single-map release on the cut names, answered with 200, 404 or 403. */
  method HandleUnlock(server: Server, ghost s: Store, body: string) returns (a: Answer)
    requires server.Represents(s)
    modifies server.Repr
    ensures fresh(server.Repr - old(server.Repr))
    ensures match UnlockOp(body)
            case None => server.Represents(s) && a == WithBody(HTTP_400, BAD_REQUEST)
            case Some(op) => server.Represents(Step(s, op).0) && a == UnlockAnswer(Step(s, op).1.status)
  {
    var op := DecodeUnlock(body);
    if op.None? {
      return WithBody(HTTP_400, BAD_REQUEST);
    }
    var status := server.Release(s, op.value.key, op.value.lockee);
    a := UnlockAnswer(status);
  }

  /** Every stored entry is small enough for the listing's buffer arithmetic. */
  lemma SmallEntries(server: Server, s: Store, i: nat)
    requires server.Represents(s) && i < |server.shards|
    ensures Unique(server.shards[i].entries[..])
    ensures AsStore(Abs(server.shards[i].entries[..])) == server.Mine(s, i)
    ensures var slots := server.shards[i].entries;
      forall j :: 0 <= j < slots.Length && slots[j].occupied ==> Small(slots[j])
  {
    var t := server.shards[i];
    assert Holds(t, server.Mine(s, i));
    var es := t.entries[..];
    forall j | 0 <= j < t.entries.Length && t.entries[j].occupied ensures Small(t.entries[j]) {
      InAbs(es, j);
      assert AsStore(Abs(es))[es[j].key] == s[es[j].key];
    }
  }

  /** The contents of all tables, as the listing reads them. */
  ghost function Slots(server: Server): (r: seq<seq<Entry>>)
    requires server.Separate()
    reads server, server.Repr
    ensures |r| == |server.shards|
    ensures forall i :: 0 <= i < |r| ==> r[i] == server.shards[i].entries[..]
  {
    seq(|server.shards|, i requires 0 <= i < |server.shards| && server.Separate() reads server, server.Repr =>
      server.shards[i].entries[..])
  }

  /** The entries of all tables, shard by shard and slot by slot. */
  ghost function InSlotOrder(server: Server): (r: seq<Entry>)
    requires server.Separate()
    reads server, server.Repr
  {
    AllOccupied(Slots(server), NUM_SHARDS)
  }

  /** Reading all slots in order lists the store. */
  lemma SlotsListStore(server: Server, s: Store)
    requires server.Represents(s)
    ensures Lists(AsLocks(InSlotOrder(server)), s)
  {
    var tables := Slots(server);
    forall i | 0 <= i < |tables|
      ensures Unique(tables[i]) && AsStore(Abs(tables[i])) == Part(s, server.hashOf, NUM_SHARDS, i)
    {
      SmallEntries(server, s, i);
    }
    TablesList(tables, s, server.hashOf, NUM_SHARDS);
    assert Below(s, server.hashOf, NUM_SHARDS, NUM_SHARDS) == s;
  }

  /** `body` prints the first `k` of the locks `es`, which list the store, stopping at the size limit. */
  ghost predicate IsListing(body: string, s: Store, es: seq<Entry>, k: nat) {
    && Lists(AsLocks(es), s)
    && StopsAt(Items(Stamp, es), k)
    && body == Written(Items(Stamp, es), k) + CLOSING
  }

  lemma StampIsStamp()
    ensures Stamps(Stamp)
  {
    assert forall n :: StampsAt(Stamp, n);
  }

  /** The slot arrays of all shards. */
  method SlotArrays(server: Server) returns (arrays: seq<array<Entry>>)
    ensures |arrays| == |server.shards|
    ensures forall i :: 0 <= i < |arrays| ==> arrays[i] == server.shards[i].entries
  {
    arrays := [];
    for i := 0 to |server.shards|
      invariant |arrays| == i && forall j :: 0 <= j < i ==> arrays[j] == server.shards[j].entries
    {
      arrays := arrays + [server.shards[i].entries];
    }
  }

  /** `handle_get_locks`: the locks in slot order, as far as they fit. */
  method HandleGetLocks(server: Server, ghost s: Store) returns (a: Answer, ghost es: seq<Entry>, ghost k: nat)
    requires server.Represents(s)
    ensures a.WithBody? && a.status == HTTP_200 && IsListing(a.body, s, es, k) && es == InSlotOrder(server)
    ensures |a.body| <= BODY_SIZE && (k < |es| ==> k >= 32)
  {
    ghost var tables := Slots(server);
    SlotsListStore(server, s);
    StampIsStamp();
    assert AllSmall(tables) by {
      forall i | 0 <= i < |tables| ensures SmallTable(tables[i]) {
        SmallEntries(server, s, i);
      }
    }
    es := AllOccupied(tables, NUM_SHARDS);
    var arrays := SlotArrays(server);
    var text;
    text, k := ListingText(arrays, tables, Stamp);
    a := WithBody(HTTP_200, text);
  }
}
