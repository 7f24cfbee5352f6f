/**
 The benchmark's workers with partitioned keys, running against the lock store. Phases end by
 cancellation, which may strike while a request is under way.
 */
module Workers {
  import opened Decimal
  import opened LockStore

  function KeyName(n: nat): (s: string) {
    "key-" + Dec(n)
  }

  function LockeeName(id: nat): (s: string) {
    "worker-" + Dec(id)
  }

  lemma NamesAreInjective(m: nat, n: nat)
    ensures KeyName(m) == KeyName(n) <==> m == n
    ensures LockeeName(m) == LockeeName(n) <==> m == n
  {
    assert KeyName(m)[4..] == Dec(m) && KeyName(n)[4..] == Dec(n);
    assert LockeeName(m)[7..] == Dec(m) && LockeeName(n)[7..] == Dec(n);
    DecRoundTrip(m);
    DecRoundTrip(n);
  }

  /** Keys per worker: the pool divided evenly, but at least one. */
  function PerWorker(pool: nat, workers: nat): (n: nat)
    requires workers > 0
    ensures n >= 1
  {
    if pool / workers < 1 then 1 else pool / workers
  }

  function KeysOf(id: nat, pool: nat, workers: nat): (keys: seq<string>)
    requires workers > 0
    ensures |keys| == PerWorker(pool, workers)
  {
    Slice(id * PerWorker(pool, workers), PerWorker(pool, workers), KeyName)
  }

  /** `per` consecutive names from `offset` on. */
  function Slice(offset: nat, per: nat, name: nat -> string): (keys: seq<string>)
    ensures |keys| == per && forall j :: 0 <= j < per ==> keys[j] == name(offset + j)
  {
    seq(per, j requires 0 <= j < per => name(offset + j))
  }

  /**
   The slices are as large as they can be: with at least a key for each worker they stay within the
   pool, and none could be larger; with fewer keys than workers each has one.
   */
  lemma SlicesFillPool(pool: nat, workers: nat, id: nat, j: nat)
    requires workers > 0 && id < workers && j < PerWorker(pool, workers)
    ensures var per := PerWorker(pool, workers);
      && KeysOf(id, pool, workers)[j] == KeyName(id * per + j)
      && (pool < workers ==> per == 1 && id * per + j == id)
      && (workers <= pool ==> id * per + j < per * workers <= pool < (per + 1) * workers)
  {
    var per := PerWorker(pool, workers);
    Share(pool, workers);
    Within(id, workers, per, j);
  }

  lemma Share(pool: nat, workers: nat)
    requires workers > 0
    ensures pool < workers ==> PerWorker(pool, workers) == 1
    ensures workers <= pool ==> PerWorker(pool, workers) * workers <= pool < (PerWorker(pool, workers) + 1) * workers
  {
    var n := pool / workers;
    assert pool == n * workers + pool % workers;
    if n == 0 {
      assert pool < workers;
    } else {
      assert n * workers >= workers;
      assert (n + 1) * workers == n * workers + workers;
    }
  }

  lemma Within(id: nat, workers: nat, per: nat, j: nat)
    requires id < workers && j < per
    ensures id * per + j < per * workers
  {
    assert (id + 1) * per <= workers * per;
  }

  /** The loop that fills a slice by index. */
  method FillSlice(offset: nat, per: nat, name: nat -> string) returns (keys: seq<string>)
    ensures keys == Slice(offset, per, name)
  {
    keys := [];
    for j := 0 to per
      invariant |keys| == j && forall i :: 0 <= i < j ==> keys[i] == name(offset + i)
    {
      keys := keys + [name(offset + j)];
    }
  }

  /** `makeKeys`: the worker's slice of the key space. */
  method MakeKeys(id: nat, pool: nat, workers: nat) returns (keys: seq<string>)
    requires workers > 0
    ensures keys == KeysOf(id, pool, workers)
  {
    var per := pool / workers;
    if per < 1 {
      per := 1;
    }
    keys := FillSlice(id * per, per, KeyName);
  }

  lemma SlicesAreApart(a: nat, b: nat, per: nat, i: nat, j: nat)
    requires i < per && j < per && a != b
    ensures a * per + i != b * per + j
  {
    if a < b {
      assert (a + 1) * per <= b * per;
    } else {
      assert (b + 1) * per <= a * per;
    }
  }

  /** Different workers never share a key, whatever the pool size and worker count. */
  lemma KeysAreDisjoint(a: nat, b: nat, pool: nat, workers: nat, key: string)
    requires workers > 0 && a != b
    ensures !(key in KeysOf(a, pool, workers) && key in KeysOf(b, pool, workers))
  {
    var per := PerWorker(pool, workers);
    if key in KeysOf(a, pool, workers) && key in KeysOf(b, pool, workers) {
      var i :| 0 <= i < per && KeysOf(a, pool, workers)[i] == key;
      var j :| 0 <= j < per && KeysOf(b, pool, workers)[j] == key;
      NamesAreInjective(a * per + i, b * per + j);
      SlicesAreApart(a, b, per, i, j);
    }
  }

  /**
   Where a worker stands in its loop: at the top, with a request sent, with a request that the
   server has carried out but not yet answered, or finished.
   */
  datatype Place = Top | AcquireSent | AcquireServed(granted: bool) | ReleaseSent | ReleaseServed | Stopped

  /** `extra` records the keys that failed requests of this worker, in this phase or before, may leave held. */
  datatype Worker = Worker(place: Place, i: nat, extra: set<string>)

  /** `late` are requests given up by their workers that the server may still carry out. */
  datatype State = State(store: Store, workers: seq<Worker>, late: seq<Op>, phase: nat, cancelled: bool, conflicts: nat)

  /** Only cancellation makes a request fail; the server may carry it out before or after that, or never. */
  datatype Event =
    | Cancel
    | NewPhase
    | Late(j: nat, now: nat)
    | Check(w: nat)
    | Serve(w: nat, now: nat)
    | Reply(w: nat)
    | Fail(w: nat)

  datatype Config = Config(pool: nat, workers: nat)

  /** The key a worker uses in round `i`. */
  function KeyAt(c: Config, w: nat, i: nat): (key: string)
    requires c.workers > 0
    ensures key in KeysOf(w, c.pool, c.workers)
  {
    var keys := KeysOf(w, c.pool, c.workers);
    keys[i % |keys|]
  }

  /** A worker goes through its slice of the keys in turn. */
  lemma KeysInTurn(c: Config, w: nat, i: nat)
    requires c.workers > 0
    ensures var per := PerWorker(c.pool, c.workers); KeyAt(c, w, i) == KeyName(w * per + i % per)
  {
  }

  function AcquireOp(c: Config, w: nat, i: nat, now: nat): (op: Op)
    requires c.workers > 0
    ensures op.key in KeysOf(w, c.pool, c.workers)
  {
    Op.Acquire(KeyAt(c, w, i), LockeeName(w), false, now)
  }

  function ReleaseOp(c: Config, w: nat, i: nat): (op: Op)
    requires c.workers > 0
    ensures op.key in KeysOf(w, c.pool, c.workers)
  {
    Op.Release(KeyAt(c, w, i), LockeeName(w))
  }

  /** A late acquire reads the clock when it is carried out. */
  function CarriedOut(op: Op, now: nat): (r: Op)
    ensures r.key == op.key && r.lockee == op.lockee && (r.Acquire? <==> op.Acquire?)
  {
    if op.Acquire? then op.(now := now) else op
  }

  /** A new phase has new workers at the top of their loops. */
  function Restarted(ws: seq<Worker>): (r: seq<Worker>)
    ensures |r| == |ws| && forall w :: 0 <= w < |ws| ==> r[w] == Worker(Top, 0, ws[w].extra)
  {
    seq(|ws|, w requires 0 <= w < |ws| => Worker(Top, 0, ws[w].extra))
  }

  /** The server carries out the request under way. */
  ghost predicate Served(c: Config, s: State, w: nat, now: nat, s': State)
    requires c.workers > 0 && w < |s.workers|
  {
    var me := s.workers[w];
    if me.place == AcquireSent then
      var r := Step(s.store, AcquireOp(c, w, me.i, now));
      s' == s.(store := r.0, workers := s.workers[w := me.(place := AcquireServed(r.1.Granted?))])
    else
      && me.place == ReleaseSent
      && s' == s.(store := Step(s.store, ReleaseOp(c, w, me.i)).0, workers := s.workers[w := me.(place := ReleaseServed)])
  }

  /** The worker gets its answer: a granted key is released next, anything else ends the round. */
  ghost predicate Replied(c: Config, s: State, w: nat, s': State)
    requires c.workers > 0 && w < |s.workers|
  {
    var me := s.workers[w];
    if me.place == AcquireServed(true) then
      s' == s.(workers := s.workers[w := me.(place := ReleaseSent)])
    else
      && (me.place.AcquireServed? || me.place == ReleaseServed)
      && s' == s.(workers := s.workers[w := Worker(Top, me.i + 1, me.extra)],
                  conflicts := if me.place.AcquireServed? then s.conflicts + 1 else s.conflicts)
  }

  /** The request under way is cancelled: the server has carried it out, or may do so later. */
  ghost predicate Failed(c: Config, s: State, w: nat, s': State)
    requires c.workers > 0 && w < |s.workers|
  {
    var me := s.workers[w];
    && s.cancelled && me.place != Top && me.place != Stopped
    && s' == s.(workers := s.workers[w := Worker(Top, me.i + 1, me.extra + {KeyAt(c, w, me.i)})],
                late := s.late + (if me.place == AcquireSent then [AcquireOp(c, w, me.i, 0)]
                                  else if me.place == ReleaseSent then [ReleaseOp(c, w, me.i)] else []))
  }

  ghost predicate Next(c: Config, s: State, e: Event, s': State)
    requires c.workers > 0
  {
    match e
    case Cancel => s' == s.(cancelled := true)
    case NewPhase =>
      (forall w :: 0 <= w < |s.workers| ==> s.workers[w].place == Stopped)
      && s' == s.(workers := Restarted(s.workers), phase := s.phase + 1, cancelled := false)
    case Late(j, now) =>
      j < |s.late|
      && s' == s.(store := Step(s.store, CarriedOut(s.late[j], now)).0, late := s.late[..j] + s.late[j + 1..])
    case Check(w) =>
      w < |s.workers| && s.workers[w].place == Top
      && s' == s.(workers := s.workers[w := s.workers[w].(place := if s.cancelled then Stopped else AcquireSent)])
    case Serve(w, now) => w < |s.workers| && Served(c, s, w, now, s')
    case Reply(w) => w < |s.workers| && Replied(c, s, w, s')
    case Fail(w) => w < |s.workers| && Failed(c, s, w, s')
  }

  /** No worker's key is held by anybody else. */
  ghost predicate OwnKeys(c: Config, store: Store)
    requires c.workers > 0
  {
    forall w, k :: 0 <= w < c.workers && k in KeysOf(w, c.pool, c.workers) && k in store ==>
      store[k].lockee == LockeeName(w)
  }

  /** The keys a worker may leave held, counting the one it holds in this round. */
  ghost function Due(c: Config, w: nat, me: Worker): (r: set<string>)
    requires c.workers > 0
  {
    if me.place.AcquireServed? || me.place == ReleaseSent then me.extra + {KeyAt(c, w, me.i)} else me.extra
  }

  /** How many those can be at this point of its loop: one for every phase so far. */
  ghost predicate Accounted(phase: nat, cancelled: bool, me: Worker) {
    && |me.extra| <= phase
    && (me.place != Stopped && (me.place != Top || !cancelled) ==> |me.extra| < phase)
    && (me.place.AcquireServed? ==> me.place.granted)
  }

  /** A request of worker `w`; an acquire must be for a key that counts as possibly left held. */
  ghost predicate OwnLate(c: Config, base: set<string>, ws: seq<Worker>, w: nat, op: Op)
    requires c.workers > 0
  {
    && w < |ws| && op.key in KeysOf(w, c.pool, c.workers) && op.lockee == LockeeName(w)
    && (op.Acquire? ==> op.key in base || op.key in ws[w].extra)
  }

  ghost predicate LateKnown(c: Config, base: set<string>, ws: seq<Worker>, op: Op)
    requires c.workers > 0
  {
    exists w: nat :: OwnLate(c, base, ws, w, op)
  }

  ghost predicate Left(c: Config, ws: seq<Worker>, k: string)
    requires c.workers > 0
  {
    exists w :: 0 <= w < |ws| && k in Due(c, w, ws[w])
  }

  /** `base` are the keys that were held, or waiting to be locked late, at the start. */
  ghost predicate Invariant(c: Config, base: set<string>, s: State)
    requires c.workers > 0
  {
    && |s.workers| == c.workers && OwnKeys(c, s.store) && s.conflicts == 0
    && (forall w :: 0 <= w < |s.workers| ==> Accounted(s.phase, s.cancelled, s.workers[w]))
    && (forall j :: 0 <= j < |s.late| ==> LateKnown(c, base, s.workers, s.late[j]))
    && (forall k :: k in s.store ==> k in base || Left(c, s.workers, k))
  }

  /** A request of worker `w` concerns a key of its own and nobody else's. */
  lemma OwnStep(c: Config, store: Store, w: nat, op: Op)
    requires c.workers > 0 && OwnKeys(c, store) && w < c.workers
    requires op.key in KeysOf(w, c.pool, c.workers) && op.lockee == LockeeName(w)
    ensures OwnKeys(c, Step(store, op).0)
    ensures op.Acquire? ==> Step(store, op).1.Granted?
    ensures op.Release? ==> op.key !in Step(store, op).0
    ensures forall k :: k in Step(store, op).0 ==> k in store || (k == op.key && op.Acquire?)
  {
    forall v, k | 0 <= v < c.workers && k in KeysOf(v, c.pool, c.workers) && k in Step(store, op).0
      ensures Step(store, op).0[k].lockee == LockeeName(v)
    {
      if v != w {
        KeysAreDisjoint(v, w, c.pool, c.workers, op.key);
      }
    }
  }

  /** Changing one worker's record, and its key in the store, keeps the account of what may be left held. */
  lemma AccountKept(c: Config, base: set<string>, s: State, w: nat, me: Worker, store: Store)
    requires c.workers > 0 && Invariant(c, base, s) && w < |s.workers|
    requires OwnKeys(c, store) && Accounted(s.phase, s.cancelled, me) && s.workers[w].extra <= me.extra
    requires forall k :: k in store ==> k in s.store || k in Due(c, w, me)
    requires forall k :: k in Due(c, w, s.workers[w]) && k in store ==> k in Due(c, w, me)
    ensures Invariant(c, base, s.(store := store, workers := s.workers[w := me]))
  {
    var ws := s.workers[w := me];
    forall k | k in store ensures k in base || Left(c, ws, k) {
      if k in Due(c, w, me) {
        assert k in Due(c, w, ws[w]);
      } else if k !in base {
        var v :| 0 <= v < |s.workers| && k in Due(c, v, s.workers[v]);
        assert k in Due(c, v, ws[v]);
      }
    }
    forall j | 0 <= j < |s.late| ensures LateKnown(c, base, ws, s.late[j]) {
      LateStays(c, base, s.workers, ws, s.late[j]);
    }
  }

  lemma LateStays(c: Config, base: set<string>, ws: seq<Worker>, ws': seq<Worker>, op: Op)
    requires c.workers > 0 && LateKnown(c, base, ws, op)
    requires |ws'| == |ws| && forall v :: 0 <= v < |ws| ==> ws[v].extra <= ws'[v].extra
    ensures LateKnown(c, base, ws', op)
  {
    var v: nat :| OwnLate(c, base, ws, v, op);
    assert OwnLate(c, base, ws', v, op);
  }

  /** Giving up a request adds its key to the account, and the request to the late ones if it is still to come. */
  lemma FailKeeps(c: Config, base: set<string>, s: State, e: Event, s': State)
    requires c.workers > 0 && Invariant(c, base, s) && e.Fail? && Next(c, s, e, s')
    ensures Invariant(c, base, s')
  {
    var w, me := e.w, s'.workers[e.w];
    assert Accounted(s.phase, s.cancelled, s.workers[w]);
    AccountKept(c, base, s, w, me, s.store);
    if |s'.late| > |s.late| {
      assert OwnLate(c, base, s.workers[w := me], w, s'.late[|s.late|]);
    }
  }

  lemma LateKeeps(c: Config, base: set<string>, s: State, e: Event, s': State)
    requires c.workers > 0 && Invariant(c, base, s) && e.Late? && Next(c, s, e, s')
    ensures Invariant(c, base, s')
  {
    var op := s.late[e.j];
    var v: nat :| OwnLate(c, base, s.workers, v, op);
    OwnStep(c, s.store, v, CarriedOut(op, e.now));
    if op.key in s.workers[v].extra {
      assert op.key in Due(c, v, s.workers[v]);
    }
  }

  lemma NewPhaseKeeps(c: Config, base: set<string>, s: State, e: Event, s': State)
    requires c.workers > 0 && Invariant(c, base, s) && e.NewPhase? && Next(c, s, e, s')
    ensures Invariant(c, base, s')
  {
    forall k | k in s.store ensures k in base || Left(c, s'.workers, k) {
      if k !in base {
        var v :| 0 <= v < |s.workers| && k in Due(c, v, s.workers[v]);
        assert k in Due(c, v, s'.workers[v]);
      }
    }
    forall j | 0 <= j < |s.late| ensures LateKnown(c, base, s'.workers, s.late[j]) {
      LateStays(c, base, s.workers, s'.workers, s.late[j]);
    }
  }

  /** Checking for cancellation and getting an answer change nothing at the server. */
  lemma LocalKeeps(c: Config, base: set<string>, s: State, e: Event, s': State)
    requires c.workers > 0 && Invariant(c, base, s) && (e.Check? || e.Reply?) && Next(c, s, e, s')
    ensures Invariant(c, base, s')
  {
    assert Accounted(s.phase, s.cancelled, s.workers[e.w]);
    AccountKept(c, base, s, e.w, s'.workers[e.w], s.store);
  }

  lemma ServeKeeps(c: Config, base: set<string>, s: State, e: Event, s': State)
    requires c.workers > 0 && Invariant(c, base, s) && e.Serve? && Next(c, s, e, s')
    ensures Invariant(c, base, s')
  {
    var me := s.workers[e.w];
    assert Accounted(s.phase, s.cancelled, me);
    OwnStep(c, s.store, e.w, if me.place == AcquireSent then AcquireOp(c, e.w, me.i, e.now) else ReleaseOp(c, e.w, me.i));
    AccountKept(c, base, s, e.w, s'.workers[e.w], s'.store);
  }

  /** Every step of the workers, the server and the phases keeps the account. */
  lemma StepKeeps(c: Config, base: set<string>, s: State, e: Event, s': State)
    requires c.workers > 0 && Invariant(c, base, s) && Next(c, s, e, s')
    ensures Invariant(c, base, s')
  {
    match e {
      case Cancel => assert forall w :: 0 <= w < |s.workers| ==> Accounted(s.phase, s.cancelled, s.workers[w]);
      case NewPhase => NewPhaseKeeps(c, base, s, e, s');
      case Late(_, _) => LateKeeps(c, base, s, e, s');
      case Serve(_, _) => ServeKeeps(c, base, s, e, s');
      case Fail(_) => FailKeeps(c, base, s, e, s');
      case _ => LocalKeeps(c, base, s, e, s');
    }
  }

  /** The first of the phases considered, possibly with requests of earlier ones still under way. */
  ghost predicate Starts(c: Config, s: State)
    requires c.workers > 0
  {
    && |s.workers| == c.workers && OwnKeys(c, s.store) && !s.cancelled && s.conflicts == 0 && s.phase == 1
    && (forall w :: 0 <= w < |s.workers| ==> s.workers[w] == Worker(Top, 0, {}))
    && (forall j :: 0 <= j < |s.late| ==> IsOwn(c, s.late[j]))
  }

  /** The request comes from the worker whose key it names. */
  ghost predicate IsOwn(c: Config, op: Op)
    requires c.workers > 0
  {
    exists w: nat :: OwnedBy(c, op, w)
  }

  ghost predicate OwnedBy(c: Config, op: Op, w: nat)
    requires c.workers > 0
  {
    w < c.workers && op.key in KeysOf(w, c.pool, c.workers) && op.lockee == LockeeName(w)
  }

  ghost predicate Run(c: Config, states: seq<State>, events: seq<Event>)
    requires c.workers > 0
  {
    |states| == |events| + 1 && forall t :: 0 <= t < |events| ==> Next(c, states[t], events[t], states[t + 1])
  }

  ghost predicate Behavior(c: Config, states: seq<State>, events: seq<Event>)
    requires c.workers > 0
  {
    Run(c, states, events) && Starts(c, states[0])
  }

  /** The acquires among the late requests. */
  function LateAcquires(late: seq<Op>): (r: seq<Op>) {
    if late == [] then []
    else LateAcquires(late[..|late| - 1]) + (if late[|late| - 1].Acquire? then [late[|late| - 1]] else [])
  }

  ghost function LateKeys(late: seq<Op>): (r: set<string>)
    ensures |r| <= |LateAcquires(late)|
    ensures forall j :: 0 <= j < |late| && late[j].Acquire? ==> late[j].key in r
  {
    if late == [] then {}
    else
      var n := |late| - 1;
      assert forall j :: 0 <= j < n ==> late[j] == late[..n][j];
      LateKeys(late[..n]) + (if late[n].Acquire? then {late[n].key} else {})
  }

  ghost function Base(s: State): (r: set<string>) {
    s.store.Keys + LateKeys(s.late)
  }

  lemma StartHolds(c: Config, s: State)
    requires c.workers > 0 && Starts(c, s)
    ensures Invariant(c, Base(s), s)
  {
    forall j | 0 <= j < |s.late| ensures LateKnown(c, Base(s), s.workers, s.late[j]) {
      assert IsOwn(c, s.late[j]);
      var w: nat :| OwnedBy(c, s.late[j], w);
      assert OwnLate(c, Base(s), s.workers, w, s.late[j]);
    }
  }

  lemma {:induction false} InvariantHolds(c: Config, states: seq<State>, events: seq<Event>, t: nat)
    requires c.workers > 0 && Behavior(c, states, events) && t < |states|
    ensures Invariant(c, Base(states[0]), states[t])
  {
    if t == 0 {
      StartHolds(c, states[0]);
    } else {
      InvariantHolds(c, states, events, t - 1);
      StepKeeps(c, Base(states[0]), states[t - 1], events[t - 1], states[t]);
    }
  }

  /** The keys that the first `n` workers may have left held. */
  ghost function LeftBy(c: Config, ws: seq<Worker>, n: nat): (r: set<string>)
    requires c.workers > 0 && n <= |ws|
  {
    if n == 0 then {} else LeftBy(c, ws, n - 1) + Due(c, n - 1, ws[n - 1])
  }

  lemma {:induction false} LeftByBound(c: Config, ws: seq<Worker>, phase: nat, n: nat)
    requires c.workers > 0 && n <= |ws| && forall w :: 0 <= w < |ws| ==> |Due(c, w, ws[w])| <= phase
    ensures |LeftBy(c, ws, n)| <= n * phase
    ensures forall w, k :: 0 <= w < n && k in Due(c, w, ws[w]) ==> k in LeftBy(c, ws, n)
  {
    if n > 0 {
      LeftByBound(c, ws, phase, n - 1);
      assert n * phase == (n - 1) * phase + phase;
    }
  }

  /**
   Over any number of phases begun with no worker key in other hands there is no conflict at all,
   and at any instant the keys held beyond those held at the start are at most one per worker and
   phase, plus one for every acquire of earlier phases that was still under way; requests may be
   carried out long after their workers have given them up.
   */
  lemma LeaksAtMostOneEachPhase(c: Config, states: seq<State>, events: seq<Event>, t: nat)
    requires c.workers > 0 && Behavior(c, states, events) && t < |states|
    ensures states[t].conflicts == 0 && OwnKeys(c, states[t].store)
    ensures |states[t].store| <= |states[0].store| + |LateAcquires(states[0].late)| + c.workers * states[t].phase
  {
    InvariantHolds(c, states, events, t);
    var s, base := states[t], Base(states[0]);
    forall w | 0 <= w < |s.workers| ensures |Due(c, w, s.workers[w])| <= s.phase {
      assert Accounted(s.phase, s.cancelled, s.workers[w]);
    }
    LeftByBound(c, s.workers, s.phase, c.workers);
    var bound := base + LeftBy(c, s.workers, c.workers);
    forall k | k in s.store.Keys ensures k in bound {
      assert k in base || Left(c, s.workers, k);
    }
    SubsetSize(s.store.Keys, bound);
  }

  /** The state a phase begins in, seen as a first one. */
  function Forget(s: State): (r: State) {
    s.(workers := seq(|s.workers|, _ => Worker(Top, 0, {})), phase := 1)
  }

  /** A phase begins as a first one does. */
  lemma EveryPhaseStarts(c: Config, states: seq<State>, events: seq<Event>, t: nat)
    requires c.workers > 0 && Behavior(c, states, events) && t < |events| && events[t] == NewPhase
    ensures Starts(c, Forget(states[t + 1]))
  {
    InvariantHolds(c, states, events, t + 1);
    var s := states[t + 1];
    assert Next(c, states[t], events[t], s);
    forall j | 0 <= j < |s.late| ensures IsOwn(c, s.late[j]) {
      assert LateKnown(c, Base(states[0]), s.workers, s.late[j]);
      var w: nat :| OwnLate(c, Base(states[0]), s.workers, w, s.late[j]);
      assert OwnedBy(c, s.late[j], w);
    }
  }

  /** `s` with other accounts of what may be left held, and phases counted from another one on. */
  function Recount(s: State, extras: seq<set<string>>, phase: nat): (r: State)
    requires |extras| == |s.workers|
  {
    s.(workers := seq(|s.workers|, w requires 0 <= w < |s.workers| => s.workers[w].(extra := extras[w])), phase := phase)
  }

  /** The accounts after a step. */
  function NextExtras(c: Config, s: State, e: Event, extras: seq<set<string>>): (r: seq<set<string>>)
    requires c.workers > 0 && |extras| == |s.workers|
    ensures |r| == |extras|
  {
    if e.Fail? && e.w < |s.workers| then extras[e.w := extras[e.w] + {KeyAt(c, e.w, s.workers[e.w].i)}] else extras
  }

  function NextPhaseOf(e: Event, phase: nat): (r: nat) {
    if e.NewPhase? then phase + 1 else phase
  }

  lemma RecountServer(c: Config, s: State, e: Event, s': State, extras: seq<set<string>>, phase: nat)
    requires c.workers > 0 && Next(c, s, e, s') && |extras| == |s.workers| && (e.Cancel? || e.NewPhase? || e.Late?)
    ensures |s'.workers| == |s.workers|
    ensures Next(c, Recount(s, extras, phase), e, Recount(s', extras, NextPhaseOf(e, phase)))
  {
    var r, r' := Recount(s, extras, phase), Recount(s', extras, NextPhaseOf(e, phase));
    assert r'.workers == if e.NewPhase? then Restarted(r.workers) else r.workers;
  }

  /** Only the record of worker `w` changes, whatever the accounts. */
  lemma RecountOne(s: State, s': State, w: nat, extras: seq<set<string>>, extras': seq<set<string>>, phase: nat)
    requires w < |s.workers| == |s'.workers| == |extras| == |extras'| && s'.workers == s.workers[w := s'.workers[w]]
    requires extras' == extras[w := extras'[w]]
    ensures var r, r' := Recount(s, extras, phase), Recount(s', extras', phase);
      && r'.workers == r.workers[w := r'.workers[w]]
      && r.workers[w] == s.workers[w].(extra := extras[w]) && r'.workers[w] == s'.workers[w].(extra := extras'[w])
  {
  }

  lemma RecountLocal(c: Config, s: State, e: Event, s': State, extras: seq<set<string>>, phase: nat)
    requires c.workers > 0 && Next(c, s, e, s') && |extras| == |s.workers| && (e.Check? || e.Reply?)
    ensures |s'.workers| == |s.workers|
    ensures Next(c, Recount(s, extras, phase), e, Recount(s', extras, phase))
  {
    RecountOne(s, s', e.w, extras, extras, phase);
  }

  lemma RecountServe(c: Config, s: State, e: Event, s': State, extras: seq<set<string>>, phase: nat)
    requires c.workers > 0 && Next(c, s, e, s') && |extras| == |s.workers| && e.Serve?
    ensures |s'.workers| == |s.workers|
    ensures Next(c, Recount(s, extras, phase), e, Recount(s', extras, phase))
  {
    RecountOne(s, s', e.w, extras, extras, phase);
  }

  lemma RecountFail(c: Config, s: State, e: Event, s': State, extras: seq<set<string>>, phase: nat)
    requires c.workers > 0 && Next(c, s, e, s') && |extras| == |s.workers| && e.Fail?
    ensures |s'.workers| == |s.workers|
    ensures Next(c, Recount(s, extras, phase), e, Recount(s', NextExtras(c, s, e, extras), phase))
  {
    RecountOne(s, s', e.w, extras, NextExtras(c, s, e, extras), phase);
  }

  /** Steps do not depend on the accounts or on the number of the phase. */
  lemma RecountStep(c: Config, s: State, e: Event, s': State, extras: seq<set<string>>, phase: nat)
    requires c.workers > 0 && Next(c, s, e, s') && |extras| == |s.workers|
    ensures |s'.workers| == |s.workers|
    ensures Next(c, Recount(s, extras, phase), e, Recount(s', NextExtras(c, s, e, extras), NextPhaseOf(e, phase)))
  {
    match e {
      case Fail(_) => RecountFail(c, s, e, s', extras, phase);
      case Serve(_, _) => RecountServe(c, s, e, s', extras, phase);
      case Check(_) => RecountLocal(c, s, e, s', extras, phase);
      case Reply(_) => RecountLocal(c, s, e, s', extras, phase);
      case _ => RecountServer(c, s, e, s', extras, phase);
    }
  }

  lemma RunSnoc(c: Config, run: seq<State>, events: seq<Event>, e: Event, s: State)
    requires c.workers > 0 && Run(c, run, events) && Next(c, run[|run| - 1], e, s)
    ensures Run(c, run + [s], events + [e])
  {
  }

  /** The rest of a run, counted anew from instant `t` on. */
  lemma {:induction false} RecountRun(c: Config, states: seq<State>, events: seq<Event>, t: nat, u: nat)
    returns (run: seq<State>, extras: seq<set<string>>)
    requires c.workers > 0 && Run(c, states, events) && t <= u < |states| && states[t].phase > 0
    ensures |run| == u - t + 1 && Run(c, run, events[t..u])
    ensures run[0] == Recount(states[t], seq(|states[t].workers|, _ => {}), 1)
    ensures |extras| == |states[u].workers| && states[u].phase >= states[t].phase
    ensures run[u - t] == Recount(states[u], extras, states[u].phase - states[t].phase + 1)
    decreases u - t
  {
    if t == u {
      extras := seq(|states[t].workers|, _ => {});
      run := [Recount(states[t], extras, 1)];
    } else {
      var before;
      before, extras := RecountRun(c, states, events, t, u - 1);
      var s, e, s' := states[u - 1], events[u - 1], states[u];
      var phase := s.phase - states[t].phase + 1;
      RecountStep(c, s, e, s', extras, phase);
      assert events[t..u] == events[t..u - 1] + [e];
      extras := NextExtras(c, s, e, extras);
      var next := Recount(s', extras, NextPhaseOf(e, phase));
      RunSnoc(c, before, events[t..u - 1], e, next);
      run := before + [next];
    }
  }

  /**
   The bound for every phase of a run, counted from its own beginning: at most one key per worker
   and phase since then, plus one for every acquire that was under way at that time.
   */
  lemma EveryPhaseGains(c: Config, states: seq<State>, events: seq<Event>, t: nat, u: nat)
    requires c.workers > 0 && Behavior(c, states, events) && t < u < |states| && events[t] == NewPhase
    ensures states[u].phase >= states[t + 1].phase
    ensures var s, s' := states[t + 1], states[u];
      |s'.store| <= |s.store| + |LateAcquires(s.late)| + c.workers * (s'.phase - s.phase + 1)
  {
    PhaseBegins(c, states, events, t);
    var run, extras := RecountRun(c, states, events, t + 1, u);
    LeaksAtMostOneEachPhase(c, run, events[t + 1..u], u - t - 1);
  }

  lemma PhaseBegins(c: Config, states: seq<State>, events: seq<Event>, t: nat)
    requires c.workers > 0 && Behavior(c, states, events) && t < |events| && events[t] == NewPhase
    ensures var s := states[t + 1]; s.phase > 0 && Starts(c, Recount(s, seq(|s.workers|, _ => {}), 1))
  {
    EveryPhaseStarts(c, states, events, t);
    var s := states[t + 1];
    assert Next(c, states[t], events[t], s);
    assert Recount(s, seq(|s.workers|, _ => {}), 1).workers == Forget(s).workers;
  }

  lemma {:induction false} SubsetSize<T>(a: set<T>, b: set<T>)
    requires a <= b
    ensures |a| <= |b|
  {
    assert b == a + (b - a);
  }
}
