/** Splitting one store over shards by a hash of the key. */
module Sharding {
  import opened LockStore

  /** The shard a key belongs to, among `n`. */
  function ShardIndex(hashOf: string -> nat, n: nat, key: string): (i: nat)
    requires n > 0
    ensures i < n
  {
    hashOf(key) % n
  }

  /** The bindings whose key belongs to shard `i`. */
  ghost function Part(s: Store, hashOf: string -> nat, n: nat, i: nat): (r: Store)
    requires n > 0
  {
    map k | k in s && ShardIndex(hashOf, n, k) == i :: s[k]
  }

  /** An operation on one key changes only that key's shard, and acts there as on the whole. */
  lemma StepIsLocal(s: Store, hashOf: string -> nat, n: nat, op: Op, i: nat)
    requires n > 0
    ensures ShardIndex(hashOf, n, op.key) != i ==> Part(Step(s, op).0, hashOf, n, i) == Part(s, hashOf, n, i)
    ensures ShardIndex(hashOf, n, op.key) == i ==>
      (Part(Step(s, op).0, hashOf, n, i), Step(s, op).1) == Step(Part(s, hashOf, n, i), op)
  {
    if ShardIndex(hashOf, n, op.key) == i {
      assert Part(s - {op.key}, hashOf, n, i) == Part(s, hashOf, n, i) - {op.key};
      if op.Acquire? {
        var l := Lock(op.key, op.lockee, op.now);
        assert Part(s[op.key := l], hashOf, n, i) == Part(s, hashOf, n, i)[op.key := l];
      }
    }
  }

  /** The parts determine the whole. */
  lemma PartsDetermine(s: Store, s': Store, hashOf: string -> nat, n: nat)
    requires n > 0 && forall i :: 0 <= i < n ==> Part(s, hashOf, n, i) == Part(s', hashOf, n, i)
    ensures s == s'
  {
    forall k ensures k in s <==> k in s' {
      var i := ShardIndex(hashOf, n, k);
      assert k in Part(s, hashOf, n, i) <==> k in Part(s', hashOf, n, i);
    }
    forall k | k in s ensures s[k] == s'[k] {
      var i := ShardIndex(hashOf, n, k);
      assert Part(s, hashOf, n, i)[k] == Part(s', hashOf, n, i)[k];
    }
  }

  /** The bindings of the shards before `i`. */
  ghost function Below(s: Store, hashOf: string -> nat, n: nat, i: nat): (r: Store)
    requires n > 0
  {
    map k | k in s && ShardIndex(hashOf, n, k) < i :: s[k]
  }

  lemma ListsUnion(r: seq<Lock>, s: Store, r': seq<Lock>, s': Store)
    requires Lists(r, s) && Lists(r', s') && s.Keys !! s'.Keys && Keyed(s) && Keyed(s')
    ensures Lists(r + r', s + s')
  {
    forall k | k in s + s' ensures (s + s')[k] in r + r' {
      assert if k in s' then s'[k] in r' else s[k] in r;
    }
  }

  /** Appending a listing of shard `i` to a listing of the shards before it. */
  lemma ListsNextPart(r: seq<Lock>, r': seq<Lock>, s: Store, hashOf: string -> nat, n: nat, i: nat)
    requires n > 0 && Keyed(s)
    requires Lists(r, Below(s, hashOf, n, i)) && Lists(r', Part(s, hashOf, n, i))
    ensures Lists(r + r', Below(s, hashOf, n, i + 1))
  {
    ListsUnion(r, Below(s, hashOf, n, i), r', Part(s, hashOf, n, i));
    assert Below(s, hashOf, n, i) + Part(s, hashOf, n, i) == Below(s, hashOf, n, i + 1);
  }

  /** Any two listings of a store are permutations of each other. */
  lemma ListingsPermute(r: seq<Lock>, r': seq<Lock>, s: Store)
    requires Lists(r, s) && Lists(r', s)
    ensures multiset(r) == multiset(r')
  {
    forall l ensures multiset(r)[l] == multiset(r')[l] {
      ListedOnce(r, s, l);
      ListedOnce(r', s, l);
    }
  }

  lemma ListedOnce(r: seq<Lock>, s: Store, l: Lock)
    requires Lists(r, s)
    ensures multiset(r)[l] == if l.key in s && s[l.key] == l then 1 else 0
  {
    if l in r {
      var i :| 0 <= i < |r| && r[i] == l;
      CountOnce(r, l, i);
    }
  }

  lemma {:induction false} CountOnce(r: seq<Lock>, l: Lock, i: nat)
    requires i < |r| && r[i] == l && forall j :: 0 <= j < |r| && j != i ==> r[j] != l
    ensures multiset(r)[l] == 1
  {
    var n := |r| - 1;
    assert r == r[..n] + [r[n]];
    if i < n {
      CountOnce(r[..n], l, i);
    } else {
      assert l !in r[..n];
    }
  }
}
