/** When the listing of a store is complete, and a reachable store whose listing is not. */
module ListingLimits {
  import opened Handlers
  import opened Listing
  import opened ListingOrder
  import opened LockRuns
  import opened LockServer
  import opened LockStore
  import opened MapFacts
  import opened ProbeTable
  import opened RequestMeaning
  import opened Wrappers

  /** The bytes of a lock's names, the part of its text that varies. */
  function NameLength(l: Lock): (n: nat) {
    |l.key| + |l.lockee|
  }

  function NameSum(r: seq<Lock>): (n: nat) {
    if r == [] then 0 else NameSum(r[..|r| - 1]) + NameLength(r[|r| - 1])
  }

  /** The name bytes of a whole store. */
  ghost function NameTotal(s: Store): (n: nat)
    decreases |s|
  {
    if s == map[] then 0
    else
      var k :| k in s;
      RemoveSize(s, k);
      NameLength(s[k]) + NameTotal(s - {k})
  }

  /** It does not matter which lock is counted first. */
  lemma {:induction false} NameTotalRemove(s: Store, k: string)
    requires k in s
    ensures NameTotal(s) == NameLength(s[k]) + NameTotal(s - {k})
    decreases |s|
  {
    var j :| j in s && NameTotal(s) == NameLength(s[j]) + NameTotal(s - {j});
    if j != k {
      RemoveSize(s, j);
      RemoveSize(s, k);
      NameTotalRemove(s - {j}, k);
      NameTotalRemove(s - {k}, j);
      assert s - {j} - {k} == s - {k} - {j};
    }
  }

  /** However a store is listed, its name bytes are the same. */
  lemma {:induction false} NameTotalListed(r: seq<Lock>, s: Store)
    requires Lists(r, s) && Keyed(s)
    ensures NameSum(r) == NameTotal(s)
    decreases |r|
  {
    if r == [] {
      assert s == map[];
    } else {
      ListsInit(r, s);
      NameTotalListed(r[..|r| - 1], s - {r[|r| - 1].key});
      NameTotalRemove(s, r[|r| - 1].key);
    }
  }

  lemma ItemSize(stamp: nat -> string, es: seq<Entry>, i: nat)
    requires Stamps(stamp) && i < |es|
    ensures |Items(stamp, es)[i]| == 53 + NameLength(AsLock(es[i]))
  {
    PrintAllAt(Item(stamp), es, i);
    assert StampsAt(stamp, es[i].since);
  }

  /** The size of what is written after `k` entries. */
  lemma {:induction false} WrittenSize(stamp: nat -> string, es: seq<Entry>, k: nat)
    requires Stamps(stamp) && k <= |es|
    ensures |Written(Items(stamp, es), k)|
         == |OPENING| + 54 * k + NameSum(AsLocks(es)[..k]) - (if k == 0 then 0 else 1)
  {
    var r := AsLocks(es);
    if k > 0 {
      WrittenSize(stamp, es, k - 1);
      ItemSize(stamp, es, k - 1);
      assert r[..k][..k - 1] == r[..k - 1];
    }
  }

  /** The bytes in front of the last of several locks: all the names but its own, and 54 bytes for each. */
  ghost function SizeBefore(s: Store, last: Lock): (n: int) {
    9 + 54 * (|s| - 1) + NameTotal(s) - NameLength(last)
  }

  /** The size of a listing without its last lock. */
  lemma ListedSize(stamp: nat -> string, s: Store, es: seq<Entry>)
    requires Stamps(stamp) && Keyed(s) && Lists(AsLocks(es), s)
    ensures |es| == |s|
    ensures |s| > 1 ==> |Written(Items(stamp, es), |s| - 1)| == SizeBefore(s, AsLock(es[|s| - 1]))
  {
    var r := AsLocks(es);
    ListsSize(r, s);
    if |s| > 1 {
      NameTotalListed(r, s);
      WrittenSize(stamp, es, |s| - 1);
    }
  }

  lemma CompleteBySize(items: seq<string>, k: nat, size: int)
    requires StopsAt(items, k) && (|items| > 1 ==> |Written(items, |items| - 1)| == size)
    ensures k == |items| <==> |items| <= 1 || size <= LIMIT
  {
    ListingCompleteIff(items, k);
  }

  /**
   Which stores are listed completely: exactly those whose names, without those of the lock in the
   last occupied slot, leave room for the 54 further bytes of every lock but that one.
   */
  lemma StoreListedCompletelyIff(stamp: nat -> string, s: Store, es: seq<Entry>, k: nat)
    requires Stamps(stamp) && Keyed(s) && Lists(AsLocks(es), s) && StopsAt(Items(stamp, es), k)
    ensures |es| == |s|
    ensures k == |s| <==> |s| <= 1 || SizeBefore(s, AsLock(es[|s| - 1])) <= 7680
  {
    ListedSize(stamp, s, es);
    CompleteBySize(Items(stamp, es), k, if |s| > 1 then SizeBefore(s, AsLock(es[|s| - 1])) else 0);
  }

  /** Every name is as long as the server keeps them. */
  ghost predicate FullNames(s: Store) {
    forall k :: k in s ==> |k| == MAX_KEY_LEN - 1 && |s[k].lockee| == MAX_LOCKEE_LEN - 1
  }

  /** Of locks with names of full length, exactly 32 are shown, however many there are beyond that. */
  lemma CrowdedListing(stamp: nat -> string, s: Store, es: seq<Entry>, k: nat)
    requires Stamps(stamp) && Keyed(s) && FullNames(s) && |s| >= 32
    requires Lists(AsLocks(es), s) && StopsAt(Items(stamp, es), k)
    ensures k == 32
  {
    var items := Items(stamp, es);
    ListsSize(AsLocks(es), s);
    forall i | 0 <= i < |items| ensures |items[i]| == 243 {
      ItemSize(stamp, es, i);
      assert AsLocks(es)[i].key in s;
    }
    UniformLength(items, k);
    UniformLength(items, 32);
  }

  /** Requests for locks on different keys, with names of full length. */
  ghost predicate FullAcquires(ops: seq<Op>) {
    && (forall i :: 0 <= i < |ops| ==>
          ops[i].Acquire? && Admissible(ops[i]) && |ops[i].key| == MAX_KEY_LEN - 1 && |ops[i].lockee| == MAX_LOCKEE_LEN - 1)
    && (forall i, j :: 0 <= i < j < |ops| ==> ops[i].key != ops[j].key)
  }

  lemma FullAcquireHeld(s: Store, op: Op)
    requires FullNames(s) && Keyed(s) && op.Acquire? && op.key !in s
    requires |op.key| == MAX_KEY_LEN - 1 && |op.lockee| == MAX_LOCKEE_LEN - 1
    ensures var s' := Step(s, op).0; FullNames(s') && |s'| == |s| + 1 && forall k :: k in s' ==> k in s || k == op.key
  {
  }

  /** They are all granted, and all held afterwards. */
  lemma {:induction false} FullAcquiresHeld(ops: seq<Op>, n: nat)
    requires FullAcquires(ops) && n <= |ops|
    ensures var s := StateAt(map[], ops, n);
      |s| == n && FullNames(s) && Keyed(s) && forall k :: k in s ==> Asked(ops, n, k)
  {
    if n > 0 {
      FullAcquiresHeld(ops, n - 1);
      var s := StateAt(map[], ops, n - 1);
      assert ops[n - 1].key !in s by {
        assert !Asked(ops, n - 1, ops[n - 1].key);
      }
      FullAcquireHeld(s, ops[n - 1]);
      forall k | k in StateAt(map[], ops, n) ensures Asked(ops, n, k) {
        assert Asked(ops, n - 1, k) || ops[n - 1].key == k;
      }
    }
  }

  ghost predicate Asked(ops: seq<Op>, n: nat, k: string) {
    exists i :: 0 <= i < n <= |ops| && ops[i].key == k
  }

  /** A key of full length that begins with a letter of its own. */
  function LongKey(i: nat): (key: string)
    requires i < 40
    ensures |key| == 127 && key[0] == (65 + i) as char && '"' !in key
  {
    [(65 + i) as char] + seq(126, _ => 'k')
  }

  function LongLockee(): (lockee: string)
    ensures |lockee| == 63 && '"' !in lockee
  {
    seq(63, _ => 'l')
  }

  /** The body of request `i`, as a client prints it. */
  function CrowdBody(i: nat): (s: string)
    requires i < 40
  {
    PlainBody(LongKey(i), LongLockee())
  }

  /** The operations of the forty requests. */
  function CrowdOps(): (ops: seq<Op>)
    ensures |ops| == 40 && forall i :: 0 <= i < 40 ==> ops[i] == Acquire(LongKey(i), LongLockee(), false, 0)
  {
    seq(40, i requires 0 <= i < 40 => Acquire(LongKey(i), LongLockee(), false, 0))
  }

  lemma CrowdIsFull()
    ensures FullAcquires(CrowdOps())
  {
    forall i, j | 0 <= i < j < 40 ensures CrowdOps()[i].key != CrowdOps()[j].key {
      assert LongKey(i)[0] != LongKey(j)[0];
    }
  }

  lemma CrowdBodyDecoded(i: nat)
    requires i < 40
    ensures PostOp(CrowdBody(i), 0) == Some(CrowdOps()[i])
  {
    PlainDecoded(LongKey(i), LongLockee(), 0);
  }

  /** Forty printed requests, answered one after the other. */
  method Crowd(server: Server)
    requires server.Represents(map[])
    modifies server.Repr
    ensures fresh(server.Repr - old(server.Repr)) && server.Represents(StateAt(map[], CrowdOps(), 40))
  {
    for i := 0 to 40
      invariant fresh(server.Repr - old(server.Repr)) && server.Represents(StateAt(map[], CrowdOps(), i))
    {
      CrowdBodyDecoded(i);
      var a := HandlePostLock(server, StateAt(map[], CrowdOps(), i), CrowdBody(i), 0);
    }
  }

  /** A server that holds forty locks after forty printed requests and lists 32, whatever the hash function. */
  method ListingCanBeCut(hashOf: string -> nat) returns (a: Answer, ghost s: Store, ghost es: seq<Entry>, ghost k: nat)
    ensures s == StateAt(map[], CrowdOps(), 40) && |s| == 40
    ensures a.WithBody? && IsListing(a.body, s, es, k) && |es| == 40 && k == 32
  {
    var server := new Server(hashOf);
    Crowd(server);
    s := StateAt(map[], CrowdOps(), 40);
    CrowdIsFull();
    FullAcquiresHeld(CrowdOps(), 40);
    a, es, k := HandleGetLocks(server, s);
    StampIsStamp();
    CrowdedListing(Stamp, s, es, k);
    ListsSize(AsLocks(es), s);
  }
}
