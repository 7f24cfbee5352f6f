/**
 The slot array of the C server's open-addressing hash table, as a value.

 A table is a sequence of entries, each carrying the `occupied` flag of the source's
 struct. Slot indices move cyclically, and every fact about cycles is stated with `Dist`,
 the number of steps from one slot forward to another.
 */
module ProbeTable {
  import opened MapFacts

  datatype Entry = Entry(key: string, lockee: string, hash: nat, since: nat, occupied: bool)

  /** What a table stores for a key. */
  datatype Holder = Holder(lockee: string, since: nat)

  const BLANK: Entry := Entry("", "", 0, 0, false)

  /** `(idx + 1) & mask` for a capacity that is a power of two. */
  function Next(i: nat, cap: nat): (r: nat)
    requires i < cap
    ensures r < cap
    ensures r == if i + 1 == cap then 0 else i + 1
  {
    (i + 1) % cap
  }

  /** `hash & mask` for a capacity that is a power of two. */
  function Home(hash: nat, cap: nat): (r: nat)
    requires 0 < cap
    ensures r < cap
  {
    hash % cap
  }

  /** Steps needed to walk forward from slot `a` to slot `b`. */
  function Dist(a: nat, b: nat, cap: nat): (d: nat)
    requires a < cap && b < cap
  {
    if a <= b then b - a else b + cap - a
  }

  /** Walking forward from `a`, slot `b` comes no later than slot `c`. */
  predicate Ahead(a: nat, b: nat, c: nat, cap: nat)
    requires a < cap && b < cap && c < cap
  {
    Dist(a, b, cap) + Dist(b, c, cap) == Dist(a, c, cap)
  }

  ghost predicate Unique(es: seq<Entry>) {
    forall i, j :: 0 <= i < j < |es| && es[i].occupied && es[j].occupied ==> es[i].key != es[j].key
  }

  ghost predicate Hashed(es: seq<Entry>, hashOf: string -> nat) {
    forall i :: 0 <= i < |es| && es[i].occupied ==> es[i].hash == hashOf(es[i].key)
  }

  /** Walking from entry `i`'s home to slot `i` passes through slot `p` before reaching `i`. */
  predicate OnPath(es: seq<Entry>, p: nat, i: nat)
    requires p < |es| && i < |es|
  {
    var home := Home(es[i].hash, |es|);
    Dist(home, p, |es|) < Dist(home, i, |es|)
  }

  /** The linear-probing invariant, with at most one tolerated hole (`hole == |es|` for none). */
  ghost predicate NoGapsBut(es: seq<Entry>, hole: nat) {
    forall i, p :: 0 <= i < |es| && 0 <= p < |es| && es[i].occupied && OnPath(es, p, i)
      ==> es[p].occupied || p == hole
  }

  ghost predicate NoGaps(es: seq<Entry>) {
    NoGapsBut(es, |es|)
  }

  /** The bindings of the first `n` slots. */
  ghost function AbsUpTo(es: seq<Entry>, n: nat): (m: map<string, Holder>)
    requires n <= |es|
  {
    if n == 0 then map[]
    else
      var m := AbsUpTo(es, n - 1);
      if es[n - 1].occupied then m[es[n - 1].key := Holder(es[n - 1].lockee, es[n - 1].since)] else m
  }

  /** The finite map a slot array stands for. */
  ghost function Abs(es: seq<Entry>): (m: map<string, Holder>) {
    AbsUpTo(es, |es|)
  }

  ghost predicate WellFormed(es: seq<Entry>, hashOf: string -> nat) {
    Unique(es) && Hashed(es, hashOf) && NoGaps(es)
  }

  lemma {:induction false} InAbsUpTo(es: seq<Entry>, n: nat, i: nat)
    requires Unique(es) && i < n <= |es| && es[i].occupied
    ensures es[i].key in AbsUpTo(es, n)
    ensures AbsUpTo(es, n)[es[i].key] == Holder(es[i].lockee, es[i].since)
  {
    if i < n - 1 {
      InAbsUpTo(es, n - 1, i);
    }
  }

  lemma InAbs(es: seq<Entry>, i: nat)
    requires Unique(es) && i < |es| && es[i].occupied
    ensures es[i].key in Abs(es)
    ensures Abs(es)[es[i].key] == Holder(es[i].lockee, es[i].since)
  {
    InAbsUpTo(es, |es|, i);
  }

  /** Every binding comes from an occupied slot. */
  lemma {:induction false} AbsIsOccupied(es: seq<Entry>, n: nat, k: string) returns (i: nat)
    requires n <= |es| && k in AbsUpTo(es, n)
    ensures i < n && es[i].occupied && es[i].key == k
  {
    if es[n - 1].occupied && es[n - 1].key == k {
      i := n - 1;
    } else {
      i := AbsIsOccupied(es, n - 1, k);
    }
  }

  lemma {:induction false} AbsEmpty(es: seq<Entry>, n: nat)
    requires n <= |es| && forall i :: 0 <= i < n ==> !es[i].occupied
    ensures AbsUpTo(es, n) == map[]
  {
    if n > 0 {
      AbsEmpty(es, n - 1);
    }
  }

  /** Slots at or after `n` do not matter to the first `n`. */
  lemma {:induction false} AbsUpToFrame(es: seq<Entry>, n: nat, i: nat, e: Entry)
    requires n <= i < |es|
    ensures AbsUpTo(es[i := e], n) == AbsUpTo(es, n)
  {
    if n > 0 {
      AbsUpToFrame(es, n - 1, i, e);
    }
  }

  lemma {:induction false} AbsUpToFill(es: seq<Entry>, n: nat, i: nat, e: Entry)
    requires i < n <= |es| && !es[i].occupied && e.occupied
    requires forall j :: 0 <= j < |es| && es[j].occupied ==> es[j].key != e.key
    ensures AbsUpTo(es[i := e], n) == AbsUpTo(es, n)[e.key := Holder(e.lockee, e.since)]
  {
    if i == n - 1 {
      AbsUpToFrame(es, n - 1, i, e);
    } else {
      AbsUpToFill(es, n - 1, i, e);
    }
  }

  /** Filling an empty slot with a fresh key adds exactly that binding. */
  lemma AbsFill(es: seq<Entry>, i: nat, e: Entry)
    requires Unique(es)
    requires i < |es| && !es[i].occupied
    requires e.occupied && e.key !in Abs(es)
    ensures Unique(es[i := e])
    ensures Abs(es[i := e]) == Abs(es)[e.key := Holder(e.lockee, e.since)]
  {
    forall j | 0 <= j < |es| && es[j].occupied ensures es[j].key != e.key {
      InAbs(es, j);
    }
    AbsUpToFill(es, |es|, i, e);
  }

  /** A key on no occupied slot is not bound. */
  lemma AbsentKey(es: seq<Entry>, k: string)
    requires forall j :: 0 <= j < |es| && es[j].occupied ==> es[j].key != k
    ensures k !in Abs(es)
  {
    if k in Abs(es) {
      var j := AbsIsOccupied(es, |es|, k);
    }
  }

  /** Emptying an occupied slot removes exactly its key. */
  lemma AbsClear(es: seq<Entry>, i: nat)
    requires Unique(es)
    requires i < |es| && es[i].occupied
    ensures Unique(es[i := es[i].(occupied := false)])
    ensures Abs(es[i := es[i].(occupied := false)]) == Abs(es) - {es[i].key}
  {
    var cleared := es[i := es[i].(occupied := false)];
    AbsentKey(cleared, es[i].key);
    AbsFill(cleared, i, es[i]);
    assert cleared[i := es[i]] == es;
  }

  /** The array after the deletion loop moves the entry of slot `j` into the hole. */
  ghost function Moved(es: seq<Entry>, hole: nat, j: nat): seq<Entry>
    requires hole < |es| && j < |es|
  {
    es[hole := es[j]][j := es[j].(occupied := false)]
  }

  lemma AbsMove(es: seq<Entry>, hole: nat, j: nat)
    requires Unique(es)
    requires hole < |es| && j < |es| && !es[hole].occupied && es[j].occupied
    ensures Unique(Moved(es, hole, j))
    ensures Abs(Moved(es, hole, j)) == Abs(es)
  {
    var cleared := es[j := es[j].(occupied := false)];
    AbsClear(es, j);
    assert es[j].key !in Abs(cleared);
    AbsFill(cleared, hole, es[j]);
    assert cleared[hole := es[j]] == Moved(es, hole, j);
    InAbs(es, j);
  }

  /** Changing only the holder of an occupied slot. */
  lemma AbsUpdate(es: seq<Entry>, i: nat, lockee: string, since: nat)
    requires Unique(es)
    requires i < |es| && es[i].occupied
    ensures Unique(es[i := es[i].(lockee := lockee, since := since)])
    ensures Abs(es[i := es[i].(lockee := lockee, since := since)]) == Abs(es)[es[i].key := Holder(lockee, since)]
  {
    var cleared := es[i := es[i].(occupied := false)];
    var e := es[i].(lockee := lockee, since := since);
    AbsClear(es, i);
    AbsFill(cleared, i, e);
    assert cleared[i := e] == es[i := e];
    assert (Abs(es) - {e.key})[e.key := Holder(lockee, since)] == Abs(es)[e.key := Holder(lockee, since)];
  }

  /** An array occupied in exactly its first `n` slots stands for a map of size `n`. */
  lemma {:induction false} AbsSize(es: seq<Entry>, n: nat)
    requires Unique(es) && n <= |es|
    requires forall i :: 0 <= i < |es| ==> (es[i].occupied <==> i < n)
    ensures |Abs(es)| == n
    decreases n
  {
    if n == 0 {
      AbsEmpty(es, |es|);
    } else {
      var cleared := es[n - 1 := es[n - 1].(occupied := false)];
      InAbs(es, n - 1);
      AbsClear(es, n - 1);
      AbsSize(cleared, n - 1);
      RemoveSize(Abs(es), es[n - 1].key);
    }
  }

  /** A table whose map is smaller than its capacity has an empty slot. */
  lemma EmptySlot(es: seq<Entry>) returns (e: nat)
    requires Unique(es)
    requires |Abs(es)| < |es|
    ensures e < |es| && !es[e].occupied
  {
    if forall i :: 0 <= i < |es| ==> es[i].occupied {
      AbsSize(es, |es|);
    }
    e :| e < |es| && !es[e].occupied;
  }

  /** Every slot from `home` up to, not including, `idx` is occupied by another key. */
  ghost predicate Probed(es: seq<Entry>, key: string, home: nat, idx: nat)
    requires home < |es| && idx < |es|
  {
    forall p :: 0 <= p < |es| && Dist(home, p, |es|) < Dist(home, idx, |es|)
      ==> es[p].occupied && es[p].key != key
  }

  /** One step of a probe loop, which an empty slot `e` ahead keeps from going round. */
  lemma ProbeStep(es: seq<Entry>, key: string, home: nat, idx: nat, e: nat)
    requires home < |es| && idx < |es| && e < |es|
    requires Probed(es, key, home, idx) && es[idx].occupied && es[idx].key != key && !es[e].occupied
    requires Ahead(home, idx, e, |es|)
    ensures Probed(es, key, home, Next(idx, |es|))
    ensures Ahead(home, Next(idx, |es|), e, |es|)
    ensures Dist(Next(idx, |es|), e, |es|) < Dist(idx, e, |es|)
  {
  }

  /** A probe that reaches an empty slot proves the key absent. */
  lemma ProbeMisses(es: seq<Entry>, hashOf: string -> nat, key: string, idx: nat)
    requires 0 < |es| && WellFormed(es, hashOf)
    requires idx < |es| && !es[idx].occupied
    requires Probed(es, key, Home(hashOf(key), |es|), idx)
    ensures key !in Abs(es)
  {
    if key in Abs(es) {
      var i := AbsIsOccupied(es, |es|, key);
    }
  }

  /** Storing a fresh entry in the first empty slot of its probe sequence. */
  lemma FillKeeps(es: seq<Entry>, hashOf: string -> nat, e: Entry, idx: nat)
    requires 0 < |es| && WellFormed(es, hashOf)
    requires e.occupied && e.hash == hashOf(e.key) && e.key !in Abs(es)
    requires idx < |es| && !es[idx].occupied
    requires Probed(es, e.key, Home(e.hash, |es|), idx)
    ensures WellFormed(es[idx := e], hashOf)
    ensures Abs(es[idx := e]) == Abs(es)[e.key := Holder(e.lockee, e.since)]
  {
    AbsFill(es, idx, e);
    var es' := es[idx := e];
    forall i, p | 0 <= i < |es'| && 0 <= p < |es'| && es'[i].occupied && OnPath(es', p, i)
      ensures es'[p].occupied
    {
      if i != idx {
        assert OnPath(es, p, i);
      }
    }
  }

  /**
   The backward-shift loop's invariant: `hole` is the only slot missing from any path,
   and no entry stored strictly between the hole and `j` has the hole on its path.
   */
  ghost predicate Shifting(es: seq<Entry>, hole: nat, j: nat)
    requires hole < |es| && j < |es|
  {
    && !es[hole].occupied
    && NoGapsBut(es, hole)
    && (forall i ::
          0 <= i < |es| && 0 < Dist(hole, i, |es|) < Dist(hole, j, |es|)
          ==> es[i].occupied && !OnPath(es, hole, i))
  }

  /** The displacement test of the source, with its two wrap-around cases. */
  predicate Displaced(natural: nat, hole: nat, j: nat) {
    if j >= hole then natural <= hole || natural > j else natural <= hole && natural > j
  }

  /** The test holds exactly when the hole lies on the path to slot `j`. */
  lemma DisplacedIffOnPath(es: seq<Entry>, hole: nat, j: nat)
    requires hole < |es| && j < |es| && hole != j
    ensures Displaced(Home(es[j].hash, |es|), hole, j) <==> OnPath(es, hole, j)
  {
  }

  lemma ShiftStart(es: seq<Entry>, i: nat)
    requires 1 < |es| && NoGaps(es) && i < |es|
    ensures Shifting(es[i := es[i].(occupied := false)], i, Next(i, |es|))
  {
    var es' := es[i := es[i].(occupied := false)];
    forall q, p | 0 <= q < |es'| && 0 <= p < |es'| && es'[q].occupied && OnPath(es', p, q)
      ensures es'[p].occupied || p == i
    {
      assert OnPath(es, p, q);
    }
  }

  lemma ShiftMove(es: seq<Entry>, hole: nat, j: nat, e: nat)
    requires hole < |es| && j < |es| && hole != j && Shifting(es, hole, j)
    requires es[j].occupied && OnPath(es, hole, j)
    requires e < |es| && e != hole && !es[e].occupied && Ahead(hole, j, e, |es|)
    ensures Shifting(Moved(es, hole, j), j, Next(j, |es|))
    ensures Next(j, |es|) != j && e != j && !Moved(es, hole, j)[e].occupied
    ensures Ahead(j, Next(j, |es|), e, |es|) && Dist(Next(j, |es|), e, |es|) < Dist(j, e, |es|)
  {
    var es' := Moved(es, hole, j);
    forall i, p | 0 <= i < |es'| && 0 <= p < |es'| && es'[i].occupied && OnPath(es', p, i)
      ensures es'[p].occupied || p == j
    {
      if i == hole {
        assert OnPath(es, p, j);
      } else {
        assert OnPath(es, p, i);
      }
    }
  }

  lemma ShiftSkip(es: seq<Entry>, hole: nat, j: nat, e: nat)
    requires hole < |es| && j < |es| && hole != j && Shifting(es, hole, j)
    requires es[j].occupied && !OnPath(es, hole, j)
    requires e < |es| && e != hole && !es[e].occupied && Ahead(hole, j, e, |es|)
    ensures Shifting(es, hole, Next(j, |es|)) && Next(j, |es|) != hole
    ensures Ahead(hole, Next(j, |es|), e, |es|) && Dist(Next(j, |es|), e, |es|) < Dist(j, e, |es|)
  {
  }

  /** Once the scan meets an empty slot the hole is on nobody's path. */
  lemma ShiftDone(es: seq<Entry>, hole: nat, j: nat)
    requires hole < |es| && j < |es| && hole != j && Shifting(es, hole, j)
    requires !es[j].occupied
    ensures NoGaps(es)
  {
    forall i, p | 0 <= i < |es| && 0 <= p < |es| && es[i].occupied && OnPath(es, p, i)
      ensures es[p].occupied
    {
      if p == hole && !(0 < Dist(hole, i, |es|) < Dist(hole, j, |es|)) {
        assert OnPath(es, j, i);
      }
    }
  }

  lemma UpdateKeeps(es: seq<Entry>, hashOf: string -> nat, i: nat, lockee: string, since: nat)
    requires WellFormed(es, hashOf) && i < |es| && es[i].occupied
    ensures WellFormed(es[i := es[i].(lockee := lockee, since := since)], hashOf)
  {
    var es' := es[i := es[i].(lockee := lockee, since := since)];
    forall q, p | 0 <= q < |es'| && 0 <= p < |es'| && es'[q].occupied && OnPath(es', p, q)
      ensures es'[p].occupied
    {
      assert OnPath(es, p, q);
    }
  }

  /** Growth meets each key once. */
  lemma AbsUpToFresh(es: seq<Entry>, n: nat)
    requires Unique(es) && n < |es| && es[n].occupied
    ensures es[n].key !in AbsUpTo(es, n)
  {
    if es[n].key in AbsUpTo(es, n) {
      var j := AbsIsOccupied(es, n, es[n].key);
    }
  }

  /** Everything the deletion loop keeps; `e` is an empty slot that stops the scan. */
  ghost predicate Closing(es: seq<Entry>, hashOf: string -> nat, m: map<string, Holder>,
                          hole: nat, j: nat, e: nat)
    requires hole < |es| && j < |es| && e < |es|
  {
    && Unique(es) && Hashed(es, hashOf) && Abs(es) == m
    && hole != j && Shifting(es, hole, j)
    && e != hole && !es[e].occupied && Ahead(hole, j, e, |es|)
  }

  lemma ClosingMove(es: seq<Entry>, hashOf: string -> nat, m: map<string, Holder>, hole: nat, j: nat, e: nat)
    requires hole < |es| && j < |es| && e < |es|
    requires Closing(es, hashOf, m, hole, j, e) && es[j].occupied
    requires Displaced(Home(es[j].hash, |es|), hole, j)
    ensures Closing(Moved(es, hole, j), hashOf, m, j, Next(j, |es|), e)
    ensures Dist(Next(j, |es|), e, |es|) < Dist(j, e, |es|)
  {
    DisplacedIffOnPath(es, hole, j);
    AbsMove(es, hole, j);
    ShiftMove(es, hole, j, e);
  }

  lemma ClosingSkip(es: seq<Entry>, hashOf: string -> nat, m: map<string, Holder>, hole: nat, j: nat, e: nat)
    requires hole < |es| && j < |es| && e < |es|
    requires Closing(es, hashOf, m, hole, j, e) && es[j].occupied
    requires !Displaced(Home(es[j].hash, |es|), hole, j)
    ensures Closing(es, hashOf, m, hole, Next(j, |es|), e)
    ensures Dist(Next(j, |es|), e, |es|) < Dist(j, e, |es|)
  {
    DisplacedIffOnPath(es, hole, j);
    ShiftSkip(es, hole, j, e);
  }

  /** Deleting slot `i` starts the loop in a state it keeps. */
  lemma ClosingStart(es: seq<Entry>, hashOf: string -> nat, i: nat, e: nat)
    requires 1 < |es| && WellFormed(es, hashOf)
    requires i < |es| && es[i].occupied && e < |es| && !es[e].occupied
    ensures Closing(es[i := es[i].(occupied := false)], hashOf, Abs(es) - {es[i].key}, i, Next(i, |es|), e)
  {
    AbsClear(es, i);
    ShiftStart(es, i);
  }
}
