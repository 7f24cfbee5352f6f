/** When a phase of the benchmark is sure to gain at most one held key per worker. */
module PhaseGains {
  import opened LockStore
  import opened Workers

  /** `t` is an instant in the first phase of a run that began with the requests `late` under way. */
  ghost predicate InFirstPhase(c: Config, late: seq<Op>, states: seq<State>, events: seq<Event>, t: nat)
    requires c.workers > 0
  {
    Behavior(c, states, events) && states[0].late == late && t < |states| && states[t].phase == 1
  }

  /** Whatever happens in the phase, at most one key per worker is held more than at its start. */
  ghost predicate GainsAtMostOneEach(c: Config, late: seq<Op>)
    requires c.workers > 0
  {
    forall states: seq<State>, events: seq<Event>, t: nat ::
      InFirstPhase(c, late, states, events, t) ==> |states[t].store| <= |states[0].store| + c.workers
  }

  lemma {:induction false} NoLateAcquires(late: seq<Op>)
    requires forall j :: 0 <= j < |late| ==> !late[j].Acquire?
    ensures LateAcquires(late) == []
  {
    if late != [] {
      NoLateAcquires(late[..|late| - 1]);
    }
  }

  /** The first keys of the first `n` workers. */
  ghost function FirstKeys(c: Config, n: nat): (r: set<string>)
    requires c.workers > 0
    ensures |r| <= n && forall w :: 0 <= w < n ==> KeyAt(c, w, 0) in r
  {
    if n == 0 then {} else FirstKeys(c, n - 1) + {KeyAt(c, n - 1, 0)}
  }

  /** Nothing but keys of the workers is ever added. */
  lemma {:induction false} GainedAreOwn(c: Config, states: seq<State>, events: seq<Event>, t: nat)
    requires c.workers > 0 && Behavior(c, states, events) && t < |states|
    ensures forall k :: k in states[t].store ==> k in states[0].store || SomeWorkers(c, k)
  {
    if t > 0 {
      GainedAreOwn(c, states, events, t - 1);
      InvariantHolds(c, states, events, t - 1);
      StepGains(c, Base(states[0]), states[t - 1], events[t - 1], states[t]);
    }
  }

  ghost predicate SomeWorkers(c: Config, k: string)
    requires c.workers > 0
  {
    exists w :: 0 <= w < c.workers && k in KeysOf(w, c.pool, c.workers)
  }

  lemma StepGains(c: Config, base: set<string>, s: State, e: Event, s': State)
    requires c.workers > 0 && Invariant(c, base, s) && Next(c, s, e, s')
    ensures forall k :: k in s'.store ==> k in s.store || SomeWorkers(c, k)
  {
    if e.Late? {
      assert LateKnown(c, base, s.workers, s.late[e.j]);
      var w: nat :| OwnLate(c, base, s.workers, w, s.late[e.j]);
      assert SomeWorkers(c, s.late[e.j].key);
    } else if e.Serve? {
      assert SomeWorkers(c, KeyAt(c, e.w, s.workers[e.w].i));
    }
  }

  lemma OnlyKey(c: Config, w: nat, k: string)
    requires c.workers > 0 && PerWorker(c.pool, c.workers) == 1 && k in KeysOf(w, c.pool, c.workers)
    ensures k == KeyAt(c, w, 0)
  {
  }

  lemma OneKeyEach(c: Config, states: seq<State>, events: seq<Event>, t: nat)
    requires c.workers > 0 && Behavior(c, states, events) && t < |states| && PerWorker(c.pool, c.workers) == 1
    ensures |states[t].store| <= |states[0].store| + c.workers
  {
    GainedAreOwn(c, states, events, t);
    var bound := states[0].store.Keys + FirstKeys(c, c.workers);
    forall k | k in states[t].store.Keys ensures k in bound {
      if k !in states[0].store {
        assert SomeWorkers(c, k);
        var w :| 0 <= w < c.workers && k in KeysOf(w, c.pool, c.workers);
        OnlyKey(c, w, k);
      }
    }
    SubsetSize(states[t].store.Keys, bound);
  }

  ghost predicate Reaches(c: Config, s: State, s': State)
    requires c.workers > 0
  {
    exists states: seq<State>, events: seq<Event> :: Connects(c, states, events, s, s')
  }

  ghost predicate Connects(c: Config, states: seq<State>, events: seq<Event>, s: State, s': State)
    requires c.workers > 0
  {
    Run(c, states, events) && states[0] == s && states[|events|] == s'
  }

  lemma ReachesItself(c: Config, s: State)
    requires c.workers > 0
    ensures Reaches(c, s, s)
  {
    assert Connects(c, [s], [], s, s);
  }

  lemma ReachesNext(c: Config, s: State, s': State, e: Event, s'': State)
    requires c.workers > 0 && Reaches(c, s, s') && Next(c, s', e, s'')
    ensures Reaches(c, s, s'')
  {
    var states: seq<State>, events: seq<Event> :| Connects(c, states, events, s, s');
    var more, steps := states + [s''], events + [e];
    forall t | 0 <= t < |steps| ensures Next(c, more[t], steps[t], more[t + 1]) {
      if t < |events| {
        assert Next(c, states[t], events[t], states[t + 1]);
      }
    }
    assert Connects(c, more, steps, s, s'');
  }

  /** Worker `w` takes the key of its round: the request is sent, carried out and answered. */
  lemma TakesKey(c: Config, s: State, t: State, w: nat, i: nat)
    requires c.workers > 0 && Reaches(c, s, t) && !t.cancelled && w < |t.workers| && t.workers[w] == Worker(Top, i, {})
    requires KeyAt(c, w, i) !in t.store
    ensures Reaches(c, s, Holding(c, t, w, i))
  {
    var op := AcquireOp(c, w, i, 0);
    var t1 := t.(workers := t.workers[w := Worker(AcquireSent, i, {})]);
    var t2 := t.(store := Step(t.store, op).0, workers := t.workers[w := Worker(AcquireServed(true), i, {})]);
    assert Next(c, t, Check(w), t1);
    ReachesNext(c, s, t, Check(w), t1);
    assert Next(c, t1, Serve(w, 0), t2);
    ReachesNext(c, s, t1, Serve(w, 0), t2);
    assert Next(c, t2, Reply(w), Holding(c, t, w, i));
    ReachesNext(c, s, t2, Reply(w), Holding(c, t, w, i));
  }

  /** `t` with the key of round `i` in worker `w`'s hands. */
  function Holding(c: Config, t: State, w: nat, i: nat): (r: State)
    requires c.workers > 0 && w < |t.workers|
  {
    t.(store := t.store[KeyAt(c, w, i) := Lock(KeyAt(c, w, i), LockeeName(w), 0)],
       workers := t.workers[w := Worker(ReleaseSent, i, {})])
  }

  /** A whole round leaves the store as it was. */
  lemma CompletesRound(c: Config, s: State, t: State, w: nat)
    requires c.workers > 0 && Reaches(c, s, t) && !t.cancelled && w < |t.workers| && t.workers[w] == Worker(Top, 0, {})
    requires KeyAt(c, w, 0) !in t.store
    ensures Reaches(c, s, t.(workers := t.workers[w := Worker(Top, 1, {})]))
  {
    var h := Holding(c, t, w, 0);
    TakesKey(c, s, t, w, 0);
    var t1 := t.(workers := t.workers[w := Worker(ReleaseServed, 0, {})]);
    assert h.store - {KeyAt(c, w, 0)} == t.store;
    assert Next(c, h, Serve(w, 0), t1);
    ReachesNext(c, s, h, Serve(w, 0), t1);
    var t2 := t.(workers := t.workers[w := Worker(Top, 1, {})]);
    assert Next(c, t1, Reply(w), t2);
    ReachesNext(c, s, t1, Reply(w), t2);
  }

  /** The round in which worker `w` shall stop: the first whose key is not `avoid`. */
  function StopRound(c: Config, w: nat, avoid: string): (i: nat)
    requires c.workers > 0
    ensures i <= 1
  {
    if KeyAt(c, w, 0) == avoid then 1 else 0
  }

  lemma KeyAtIs(c: Config, w: nat, i: nat)
    requires c.workers > 0 && i < PerWorker(c.pool, c.workers)
    ensures KeyAt(c, w, i) == KeyName(w * PerWorker(c.pool, c.workers) + i)
  {
    assert i % PerWorker(c.pool, c.workers) == i;
  }

  lemma StopKeyDiffers(c: Config, w: nat, avoid: string)
    requires c.workers > 0 && PerWorker(c.pool, c.workers) > 1
    ensures KeyAt(c, w, StopRound(c, w, avoid)) != avoid
  {
    var first := w * PerWorker(c.pool, c.workers);
    KeyAtIs(c, w, 0);
    KeyAtIs(c, w, 1);
    NamesAreInjective(first, first + 1);
  }

  /** The lock worker `w` takes. */
  function TakenLock(c: Config, w: nat, avoid: string): (l: Lock)
    requires c.workers > 0
    ensures l.key == KeyAt(c, w, StopRound(c, w, avoid))
  {
    Lock(KeyAt(c, w, StopRound(c, w, avoid)), LockeeName(w), 0)
  }

  function HeldStore(take: nat -> Lock, n: nat): (store: Store) {
    if n == 0 then map[] else HeldStore(take, n - 1)[take(n - 1).key := take(n - 1)]
  }

  function Takes(c: Config, avoid: string): (take: nat -> Lock)
    requires c.workers > 0
    ensures forall w :: take(w) == TakenLock(c, w, avoid)
  {
    (w: nat) => TakenLock(c, w, avoid)
  }

  /** The workers once the first `n` of them have taken their keys. */
  function HoldingWorkers(c: Config, ws: seq<Worker>, n: nat, avoid: string): (r: seq<Worker>)
    requires c.workers > 0
    ensures |r| == |ws|
    ensures forall w :: 0 <= w < |ws| ==> r[w] == if w < n then Worker(ReleaseSent, StopRound(c, w, avoid), {}) else ws[w]
  {
    seq(|ws|, w requires 0 <= w < |ws| => if w < n then Worker(ReleaseSent, StopRound(c, w, avoid), {}) else ws[w])
  }

  /** The first `n` workers hold a key each, none of them `avoid`. */
  function AllHolding(c: Config, start: State, n: nat, avoid: string): (t: State)
    requires c.workers > 0
  {
    start.(store := HeldStore(Takes(c, avoid), n), workers := HoldingWorkers(c, start.workers, n, avoid))
  }

  lemma HoldingNext(c: Config, start: State, w: nat, avoid: string)
    requires c.workers > 0 && w < |start.workers|
    ensures AllHolding(c, start, w + 1, avoid) == Holding(c, AllHolding(c, start, w, avoid), w, StopRound(c, w, avoid))
  {
    var ws, ws' := HoldingWorkers(c, start.workers, w, avoid), HoldingWorkers(c, start.workers, w + 1, avoid);
    assert ws' == ws[w := Worker(ReleaseSent, StopRound(c, w, avoid), {})];
    assert Takes(c, avoid)(w) == TakenLock(c, w, avoid);
  }

  ghost predicate KeyBelow(c: Config, n: nat, k: string)
    requires c.workers > 0
  {
    exists w :: 0 <= w < n && k in KeysOf(w, c.pool, c.workers)
  }

  /** One key of each of the first `n` workers, none of them `avoid`. */
  ghost predicate OneHeldEach(c: Config, store: Store, n: nat, avoid: string)
    requires c.workers > 0
  {
    |store| == n && avoid !in store && forall k :: k in store ==> KeyBelow(c, n, k)
  }

  lemma OneMoreHeld(c: Config, store: Store, w: nat, l: Lock, store': Store, avoid: string)
    requires c.workers > 0 && OneHeldEach(c, store, w, avoid) && store' == store[l.key := l]
    requires l.key in KeysOf(w, c.pool, c.workers) && l.key != avoid
    ensures OneHeldEach(c, store', w + 1, avoid)
  {
    NewKey(c, w, l.key);
    forall k | k in store' ensures KeyBelow(c, w + 1, k) {
      assert k == l.key || KeyBelow(c, w, k);
    }
  }

  /** Each worker takes a key of its own that is not `avoid`. */
  ghost predicate TakesOwn(c: Config, take: nat -> Lock, avoid: string)
    requires c.workers > 0
  {
    forall w :: TakesAt(c, take, avoid, w)
  }

  ghost predicate TakesAt(c: Config, take: nat -> Lock, avoid: string, w: nat)
    requires c.workers > 0
  {
    take(w).key in KeysOf(w, c.pool, c.workers) && take(w).key != avoid
  }

  lemma {:induction false} OneEach(c: Config, take: nat -> Lock, n: nat, avoid: string)
    requires c.workers > 0 && TakesOwn(c, take, avoid)
    ensures OneHeldEach(c, HeldStore(take, n), n, avoid)
  {
    if n > 0 {
      OneEach(c, take, n - 1, avoid);
      assert TakesAt(c, take, avoid, n - 1);
      OneMoreHeld(c, HeldStore(take, n - 1), n - 1, take(n - 1), HeldStore(take, n), avoid);
    }
  }

  lemma HeldSoFar(c: Config, start: State, n: nat, avoid: string)
    requires c.workers > 0 && PerWorker(c.pool, c.workers) > 1
    ensures OneHeldEach(c, AllHolding(c, start, n, avoid).store, n, avoid)
  {
    forall w ensures TakesAt(c, Takes(c, avoid), avoid, w) {
      StopKeyDiffers(c, w, avoid);
      assert Takes(c, avoid)(w) == TakenLock(c, w, avoid);
    }
    OneEach(c, Takes(c, avoid), n, avoid);
  }

  /** A worker's key belongs to no earlier worker. */
  lemma NewKey(c: Config, w: nat, k: string)
    requires c.workers > 0 && k in KeysOf(w, c.pool, c.workers)
    ensures !KeyBelow(c, w, k)
  {
    if v :| 0 <= v < w && k in KeysOf(v, c.pool, c.workers) {
      KeysAreDisjoint(v, w, c.pool, c.workers, k);
    }
  }

  lemma {:induction false} AllHoldingReached(c: Config, start: State, n: nat, avoid: string)
    requires c.workers > 0 && PerWorker(c.pool, c.workers) > 1 && Starts(c, start) && start.store == map[]
    requires n <= |start.workers|
    ensures Reaches(c, start, AllHolding(c, start, n, avoid))
  {
    if n == 0 {
      assert HoldingWorkers(c, start.workers, 0, avoid) == start.workers;
      ReachesItself(c, start);
    } else {
      var t, w := AllHolding(c, start, n - 1, avoid), n - 1;
      AllHoldingReached(c, start, n - 1, avoid);
      HeldSoFar(c, start, n - 1, avoid);
      NewKey(c, w, KeyAt(c, w, 0));
      NewKey(c, w, KeyAt(c, w, 1));
      TakesOtherKey(c, start, t, w, avoid);
      HoldingNext(c, start, w, avoid);
    }
  }

  lemma TakesOtherKey(c: Config, s: State, t: State, w: nat, avoid: string)
    requires c.workers > 0 && Reaches(c, s, t) && !t.cancelled && w < |t.workers| && t.workers[w] == Worker(Top, 0, {})
    requires KeyAt(c, w, 0) !in t.store && KeyAt(c, w, 1) !in t.store
    ensures Reaches(c, s, Holding(c, t, w, StopRound(c, w, avoid)))
  {
    if StopRound(c, w, avoid) == 1 {
      CompletesRound(c, s, t, w);
      var t' := t.(workers := t.workers[w := Worker(Top, 1, {})]);
      TakesKey(c, s, t', w, 1);
      assert Holding(c, t', w, 1) == Holding(c, t, w, 1);
    } else {
      TakesKey(c, s, t, w, 0);
    }
  }

  function FreshStart(c: Config, late: seq<Op>): (s: State) {
    State(map[], seq(c.workers, _ => Worker(Top, 0, {})), late, 1, false, 0)
  }

  lemma FreshStarts(c: Config, late: seq<Op>)
    requires c.workers > 0 && forall i :: 0 <= i < |late| ==> IsOwn(c, late[i])
    ensures Starts(c, FreshStart(c, late)) && |FreshStart(c, late).workers| == c.workers
  {
  }

  /** A late acquire of a free key is carried out. */
  lemma LateLands(c: Config, s: State, t: State, j: nat) returns (t': State)
    requires c.workers > 0 && Reaches(c, s, t) && j < |t.late| && t.late[j].Acquire? && t.late[j].key !in t.store
    ensures Reaches(c, s, t') && |t'.store| == |t.store| + 1 && t'.phase == t.phase
  {
    t' := t.(store := Step(t.store, CarriedOut(t.late[j], 0)).0, late := t.late[..j] + t.late[j + 1..]);
    assert Next(c, t, Late(j, 0), t');
    ReachesNext(c, s, t, Late(j, 0), t');
  }

  /** The first `n` workers have seen the cancellation. */
  function StoppedWorkers(ws: seq<Worker>, n: nat): (r: seq<Worker>)
    ensures |r| == |ws| && forall w :: 0 <= w < |ws| ==> r[w] == if w < n then ws[w].(place := Stopped) else ws[w]
  {
    seq(|ws|, w requires 0 <= w < |ws| => if w < n then ws[w].(place := Stopped) else ws[w])
  }

  lemma {:induction false} AllStop(c: Config, s: State, t: State, n: nat)
    requires c.workers > 0 && Reaches(c, s, t) && t.cancelled && n <= |t.workers|
    requires forall w :: 0 <= w < |t.workers| ==> t.workers[w].place == Top
    ensures Reaches(c, s, t.(workers := StoppedWorkers(t.workers, n)))
  {
    if n == 0 {
      assert StoppedWorkers(t.workers, 0) == t.workers;
    } else {
      var w := n - 1;
      AllStop(c, s, t, w);
      var before, after := t.(workers := StoppedWorkers(t.workers, w)), t.(workers := StoppedWorkers(t.workers, n));
      assert after.workers == before.workers[w := before.workers[w].(place := Stopped)];
      assert Next(c, before, Check(w), after);
      ReachesNext(c, s, before, Check(w), after);
    }
  }

  /** From an idle server, one cancelled acquire of worker `w` and the end of the phase. */
  lemma CancelledAcquire(c: Config, w: nat) returns (t: State)
    requires c.workers > 0 && w < c.workers
    ensures Reaches(c, FreshStart(c, []), t) && t.cancelled && |t.workers| == c.workers
    ensures t.store == map[] && t.late == [AcquireOp(c, w, 0, 0)] && t.conflicts == 0
    ensures forall v :: 0 <= v < |t.workers| ==> t.workers[v].place == Top
  {
    var s := FreshStart(c, []);
    ReachesItself(c, s);
    var t1 := s.(workers := s.workers[w := Worker(AcquireSent, 0, {})]);
    assert Next(c, s, Check(w), t1);
    ReachesNext(c, s, s, Check(w), t1);
    var t2 := t1.(cancelled := true);
    ReachesNext(c, s, t1, Cancel, t2);
    t := t2.(workers := t2.workers[w := Worker(Top, 1, {KeyAt(c, w, 0)})], late := [AcquireOp(c, w, 0, 0)]);
    assert {} + {KeyAt(c, w, 0)} == {KeyAt(c, w, 0)};
    assert Next(c, t2, Fail(w), t);
    ReachesNext(c, s, t2, Fail(w), t);
  }

  /** A phase start with a late acquire is itself reached, from an idle server with nothing under way. */
  lemma LateAcquireArises(c: Config, w: nat) returns (t: State)
    requires c.workers > 0 && w < c.workers
    ensures Reaches(c, FreshStart(c, []), t) && Forget(t) == FreshStart(c, [AcquireOp(c, w, 0, 0)])
  {
    var s := FreshStart(c, []);
    var t1 := CancelledAcquire(c, w);
    AllStop(c, s, t1, c.workers);
    var t2 := t1.(workers := StoppedWorkers(t1.workers, c.workers));
    t := t2.(workers := Restarted(t2.workers), phase := t2.phase + 1, cancelled := false);
    assert Next(c, t2, NewPhase, t);
    ReachesNext(c, s, t2, NewPhase, t);
    assert Forget(t).workers == FreshStart(c, [AcquireOp(c, w, 0, 0)]).workers;
  }

  /** One late acquire is enough: every worker takes a key, and then it is carried out. */
  lemma LateAcquireGains(c: Config, late: seq<Op>, j: nat)
    requires c.workers > 0 && PerWorker(c.pool, c.workers) > 1 && (forall i :: 0 <= i < |late| ==> IsOwn(c, late[i]))
    requires j < |late| && late[j].Acquire?
    ensures !GainsAtMostOneEach(c, late)
  {
    var s, avoid := FreshStart(c, late), late[j].key;
    FreshStarts(c, late);
    AllHoldingReached(c, s, c.workers, avoid);
    HeldSoFar(c, s, c.workers, avoid);
    var t := LateLands(c, s, AllHolding(c, s, c.workers, avoid), j);
    TooManyHeld(c, late, s, t);
  }

  lemma TooManyHeld(c: Config, late: seq<Op>, s: State, t: State)
    requires c.workers > 0 && Starts(c, s) && s.late == late && Reaches(c, s, t) && t.phase == 1
    requires |t.store| > |s.store| + c.workers
    ensures !GainsAtMostOneEach(c, late)
  {
    var states: seq<State>, events: seq<Event> :| Connects(c, states, events, s, t);
    assert InFirstPhase(c, late, states, events, |events|);
  }

  /**
   When a phase is sure to gain at most one key per worker, with `late` still under way from earlier
   phases: exactly if no late request is an acquire, or every worker has only one key anyway.
   */
  lemma GainsAtMostOneEachIff(c: Config, late: seq<Op>)
    requires c.workers > 0 && forall j :: 0 <= j < |late| ==> IsOwn(c, late[j])
    ensures GainsAtMostOneEach(c, late) <==>
      PerWorker(c.pool, c.workers) == 1 || forall j :: 0 <= j < |late| ==> !late[j].Acquire?
  {
    if PerWorker(c.pool, c.workers) > 1 {
      if j :| 0 <= j < |late| && late[j].Acquire? {
        LateAcquireGains(c, late, j);
        return;
      }
      NoLateAcquires(late);
    }
    forall states: seq<State>, events: seq<Event>, t: nat | InFirstPhase(c, late, states, events, t)
      ensures |states[t].store| <= |states[0].store| + c.workers
    {
      if PerWorker(c.pool, c.workers) == 1 {
        OneKeyEach(c, states, events, t);
      } else {
        LeaksAtMostOneEachPhase(c, states, events, t);
      }
    }
  }
}
