/** What the single-map store guarantees over whole runs. */
module LockRuns {
  import opened LockStore

  /** The store after the first `n` requests. */
  function StateAt(s: Store, ops: seq<Op>, n: nat): (r: Store)
    requires n <= |ops|
    ensures Keyed(s) ==> Keyed(r)
  {
    if n == 0 then s else Step(StateAt(s, ops, n - 1), ops[n - 1]).0
  }

  /** The replies of a whole run. */
  function Replies(s: Store, ops: seq<Op>): (r: seq<Reply>)
    ensures |r| == |ops|
  {
    seq(|ops|, i requires 0 <= i < |ops| => Step(StateAt(s, ops, i), ops[i]).1)
  }

  /**
   The published contract of one request: a lock is granted exactly if the key is free, already
   held by the caller, or taken by force; a refusal names the holder; a release succeeds exactly
   for the holder; and no other key is touched.
   */
  lemma StepMeetsContract(s: Store, op: Op)
    requires Keyed(s)
    ensures var r := Step(s, op);
      && (forall k :: k != op.key ==> (k in r.0 <==> k in s) && (k in s ==> r.0[k] == s[k]))
      && (op.Acquire? ==>
            && (r.1.Granted? <==> op.key !in s || HeldBy(s, op.key, op.lockee) || op.force)
            && (r.1.Granted? ==> HeldBy(r.0, op.key, op.lockee) && r.0[op.key] == r.1.lock
                                 && r.1.lock.since == if HeldBy(s, op.key, op.lockee) then s[op.key].since else op.now)
            && (!r.1.Granted? ==> r.0 == s && r.1 == Conflict(s[op.key])))
      && (op.Release? ==>
            && (op.key in r.0 <==> op.key in s && !HeldBy(s, op.key, op.lockee))
            && r.1 == Unlocked(if op.key !in s then NotFound
                               else if HeldBy(s, op.key, op.lockee) then Released else Forbidden))
  {
  }

  /** The only two requests that can end a tenure of `lockee` on `key`. */
  predicate EndsTenure(op: Op, key: string, lockee: string) {
    op == Release(key, lockee) || (op.Acquire? && op.key == key && op.force && op.lockee != lockee)
  }

  /** One step: a holder loses the key exactly by its own release or another's forced acquire. */
  lemma StepEndsTenure(s: Store, op: Op, key: string, lockee: string)
    requires HeldBy(s, key, lockee)
    ensures !HeldBy(Step(s, op).0, key, lockee) <==> EndsTenure(op, key, lockee)
    ensures HeldBy(Step(s, op).0, key, lockee) ==> Step(s, op).0[key] == s[key]
  {
  }

  /**
   Mutual exclusion over runs: if `lockee` holds `key` at step `i` and no longer at step `j`,
   some step in between found it still holding and was its own release or a forced acquire.
   */
  lemma {:induction false} TenureEndsOnlyBy(s: Store, ops: seq<Op>, key: string, lockee: string, i: nat, j: nat) returns (k: nat)
    requires i <= j <= |ops|
    requires HeldBy(StateAt(s, ops, i), key, lockee)
    requires !HeldBy(StateAt(s, ops, j), key, lockee)
    ensures i <= k < j && HeldBy(StateAt(s, ops, k), key, lockee) && EndsTenure(ops[k], key, lockee)
    decreases j - i
  {
    if EndsTenure(ops[i], key, lockee) {
      k := i;
    } else {
      StepEndsTenure(StateAt(s, ops, i), ops[i], key, lockee);
      k := TenureEndsOnlyBy(s, ops, key, lockee, i + 1, j);
    }
  }

  /**
   While nothing ends the tenure, the entry does not change at all: re-acquires, conflicting
   acquires and releases by displaced lockees leave holder and `since` as they were.
   */
  lemma {:induction false} TenureIsConstant(s: Store, ops: seq<Op>, key: string, lockee: string, i: nat, j: nat)
    requires i <= j <= |ops|
    requires HeldBy(StateAt(s, ops, i), key, lockee)
    requires forall k :: i <= k < j ==> !EndsTenure(ops[k], key, lockee)
    ensures key in StateAt(s, ops, j) && StateAt(s, ops, j)[key] == StateAt(s, ops, i)[key]
    decreases j - i
  {
    if i < j {
      TenureIsConstant(s, ops, key, lockee, i, j - 1);
      StepEndsTenure(StateAt(s, ops, j - 1), ops[j - 1], key, lockee);
    }
  }

  /** However often a holder re-acquires, and whatever others do meanwhile, one release frees the key. */
  lemma OneReleaseEndsAll(s: Store, ops: seq<Op>, key: string, lockee: string, i: nat, j: nat)
    requires i <= j < |ops|
    requires HeldBy(StateAt(s, ops, i), key, lockee)
    requires forall k :: i <= k < j ==> !EndsTenure(ops[k], key, lockee)
    requires ops[j] == Release(key, lockee)
    ensures key !in StateAt(s, ops, j + 1)
    ensures Replies(s, ops)[j] == Unlocked(Released)
  {
    TenureIsConstant(s, ops, key, lockee, i, j);
  }

  /** The clock readings of the run never go back. */
  ghost predicate ClockMonotone(ops: seq<Op>) {
    forall i, j :: 0 <= i < j < |ops| && ops[i].Acquire? && ops[j].Acquire? ==> ops[i].now <= ops[j].now
  }

  /** Nothing in the initial store is newer than any later clock reading. */
  ghost predicate NotFromFuture(s: Store, ops: seq<Op>) {
    forall k, i :: k in s && 0 <= i < |ops| && ops[i].Acquire? ==> s[k].since <= ops[i].now
  }

  lemma {:induction false} SinceBoundedByClock(s: Store, ops: seq<Op>, n: nat, key: string)
    requires ClockMonotone(ops) && NotFromFuture(s, ops)
    requires n <= |ops| && key in StateAt(s, ops, n)
    ensures forall i :: n <= i < |ops| && ops[i].Acquire? ==> StateAt(s, ops, n)[key].since <= ops[i].now
  {
    if n > 0 && key in StateAt(s, ops, n - 1) {
      SinceBoundedByClock(s, ops, n - 1, key);
    }
  }

  /** Per key, `since` never decreases, across any number of tenures and free periods. */
  lemma {:induction false} SinceMonotone(s: Store, ops: seq<Op>, key: string, i: nat, j: nat)
    requires ClockMonotone(ops) && NotFromFuture(s, ops)
    requires i <= j <= |ops| && key in StateAt(s, ops, i) && key in StateAt(s, ops, j)
    ensures StateAt(s, ops, i)[key].since <= StateAt(s, ops, j)[key].since
    decreases j - i
  {
    if i < j {
      SinceBoundedByClock(s, ops, i, key);
      if key in StateAt(s, ops, j - 1) {
        SinceMonotone(s, ops, key, i, j - 1);
      }
    }
  }
}
