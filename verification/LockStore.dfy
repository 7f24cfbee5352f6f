/**
 The single-map lock store of the Go in-memory server: the reference state machine
 that every other implementation is compared with.
 */
module LockStore {
  import opened MapFacts

  datatype Lock = Lock(key: string, lockee: string, since: nat)

  type Store = map<string, Lock>

  /** The HTTP status a release answers with. */
  datatype ReleaseStatus = Released | NotFound | Forbidden

  datatype Op =
    | Acquire(key: string, lockee: string, force: bool, now: nat)
    | Release(key: string, lockee: string)

  datatype Reply =
    | Granted(lock: Lock)
    | Conflict(lock: Lock)
    | Unlocked(status: ReleaseStatus)

  /** Every entry is filed under its own key. */
  ghost predicate Keyed(s: Store) {
    forall k :: k in s ==> s[k].key == k
  }

  ghost predicate HeldBy(s: Store, key: string, lockee: string) {
    key in s && s[key].lockee == lockee
  }

  /** One request applied under the mutex; `now` is the clock reading an acquire would use. */
  function Step(s: Store, op: Op): (r: (Store, Reply))
    ensures Keyed(s) ==> Keyed(r.0)
  {
    match op
    case Acquire(key, lockee, force, now) =>
      if key in s && s[key].lockee == lockee then
        (s, Granted(s[key]))
      else if key in s && !force then
        (s, Conflict(s[key]))
      else
        var l := Lock(key, lockee, now);
        (s[key := l], Granted(l))
    case Release(key, lockee) =>
      if key !in s then
        (s, Unlocked(NotFound))
      else if s[key].lockee != lockee then
        (s, Unlocked(Forbidden))
      else
        (s - {key}, Unlocked(Released))
  }

  /** A listing holds every entry of the store exactly once, in any order. */
  ghost predicate Lists(r: seq<Lock>, s: Store) {
    && (forall i :: 0 <= i < |r| ==> r[i].key in s && s[r[i].key] == r[i])
    && (forall i, j :: 0 <= i < j < |r| ==> r[i].key != r[j].key)
    && (forall k :: k in s ==> s[k] in r)
  }

  /** The store object: a map field updated by whole requests. */
  class GoStore {
    var locks: Store

    constructor ()
      ensures locks == map[] && Keyed(locks)
    {
      locks := map[];
    }

    method Acquire(key: string, lockee: string, force: bool, now: nat) returns (l: Lock, acquired: bool)
      requires Keyed(locks)
      modifies this
      ensures Keyed(locks)
      ensures (locks, if acquired then Granted(l) else Conflict(l)) == Step(old(locks), Op.Acquire(key, lockee, force, now))
    {
      if key in locks {
        var existing := locks[key];
        if existing.lockee == lockee {
          return existing, true;
        }
        if !force {
          return existing, false;
        }
      }
      l := Lock(key, lockee, now);
      locks := locks[key := l];
      return l, true;
    }

    method Release(key: string, lockee: string) returns (status: ReleaseStatus)
      requires Keyed(locks)
      modifies this
      ensures Keyed(locks)
      ensures (locks, Unlocked(status)) == Step(old(locks), Op.Release(key, lockee))
    {
      if key !in locks {
        return NotFound;
      }
      if locks[key].lockee != lockee {
        return Forbidden;
      }
      locks := locks - {key};
      return Released;
    }

    /** Iterates the map in an arbitrary order. */
    method List() returns (r: seq<Lock>)
      requires Keyed(locks)
      ensures Lists(r, locks)
    {
      r := ListMap(locks);
    }
  }

  /** The listing loop over a map whose iteration order is unspecified. */
  method ListMap(s: Store) returns (r: seq<Lock>)
    requires Keyed(s)
    ensures Lists(r, s)
  {
    r := [];
    var todo := s;
    while todo != map[]
      invariant Keyed(todo)
      invariant forall k :: k in todo ==> k in s && todo[k] == s[k]
      invariant forall i :: 0 <= i < |r| ==> r[i].key in s && s[r[i].key] == r[i] && r[i].key !in todo
      invariant forall i, j :: 0 <= i < j < |r| ==> r[i].key != r[j].key
      invariant forall k :: k in s && k !in todo ==> s[k] in r
      decreases |todo|
    {
      var k :| k in todo;
      r := r + [todo[k]];
      RemoveSize(todo, k);
      todo := todo - {k};
    }
  }

  /** Without its last item, a listing lists the rest of the store. */
  lemma ListsInit(r: seq<Lock>, s: Store)
    requires r != [] && Keyed(s) && Lists(r, s)
    ensures var n := |r| - 1; Lists(r[..n], s - {r[n].key})
  {
    var n := |r| - 1;
    forall k | k in s && k != r[n].key ensures s[k] in r[..n] {
      var i :| 0 <= i < |r| && r[i] == s[k];
      assert r[..n][i] == s[k];
    }
  }

  /** A listing is as long as the store is large. */
  lemma {:induction false} ListsSize(r: seq<Lock>, s: Store)
    requires Keyed(s) && Lists(r, s)
    ensures |r| == |s|
    decreases |r|
  {
    if r == [] {
      assert s == map[];
    } else {
      var l := r[|r| - 1];
      ListsInit(r, s);
      ListsSize(r[..|r| - 1], s - {l.key});
      RemoveSize(s, l.key);
    }
  }
}
