/**
 The .NET event-loop store: callers write messages to a channel of capacity 100 and wait on a
 completion source; one loop drains the channel and owns the dictionary.
 */
module EventLoop {
  import opened LockRuns
  import opened LockStore

  const CAPACITY: nat := 100

  type Id = nat

  datatype Message =
    | LockMessage(key: string, lockee: string, force: bool)
    | UnlockMessage(key: string, lockee: string)
    | GetLocksMessage

  datatype Response =
    | LockResponse(locked: bool, key: string, lockee: string)
    | UnlockResult(status: ReleaseStatus)
    | AllLocks(locks: seq<Lock>)

  /** What handling a message does: the single map's step and its reply, or a listing that changes nothing. */
  ghost predicate Handles(s: Store, m: Message, now: nat, r: Response, s': Store) {
    match m
    case LockMessage(key, lockee, force) =>
      var t := Step(s, Acquire(key, lockee, force, now));
      s' == t.0 && r == LockResponse(t.1.Granted?, key, t.1.lock.lockee)
    case UnlockMessage(key, lockee) =>
      var t := Step(s, Release(key, lockee));
      s' == t.0 && r == UnlockResult(t.1.status)
    case GetLocksMessage =>
      s' == s && r.AllLocks? && Lists(r.locks, s)
  }

  /** The dictionary and the body of the message loop. */
  class LockService {
    var locks: Store

    constructor ()
      ensures locks == map[]
    {
      locks := map[];
    }

    method Handle(m: Message, now: nat) returns (r: Response)
      requires Keyed(locks)
      modifies this
      ensures Keyed(locks) && Handles(old(locks), m, now, r, locks)
    {
      match m {
        case LockMessage(key, lockee, force) =>
          if key !in locks {
            locks := locks[key := Lock(key, lockee, now)];
            return LockResponse(true, key, lockee);
          }
          var entry := locks[key];
          if entry.lockee == lockee {
            return LockResponse(true, key, lockee);
          }
          if force {
            locks := locks[key := Lock(key, lockee, now)];
            return LockResponse(true, key, lockee);
          }
          r := LockResponse(false, entry.key, entry.lockee);
        case UnlockMessage(key, lockee) =>
          if key !in locks {
            return UnlockResult(NotFound);
          }
          if locks[key].lockee == lockee {
            locks := locks - {key};
            return UnlockResult(Released);
          }
          r := UnlockResult(Forbidden);
        case GetLocksMessage =>
          var all := ListMap(locks);
          r := AllLocks(all);
      }
    }
  }

  /** One handled message: who sent it, what it was, the clock reading and the result set. */
  datatype Entry = Entry(id: Id, m: Message, now: nat, r: Response)

  /**
   Callers waiting to write, the channel, the dictionary, the results set so far, the calls that
   have come back, and the messages handled in order.
   */
  datatype State = State(
    writing: map<Id, Message>,
    queue: seq<(Id, Message)>,
    locks: Store,
    results: map<Id, Response>,
    returned: set<Id>,
    handled: seq<Entry>)

  const START: State := State(map[], [], map[], map[], {}, [])

  datatype Event =
    | Call(id: Id, m: Message)
    | Write(id: Id)
    | Handle(now: nat, r: Response)
    | Return(id: Id)

  predicate Queued(queue: seq<(Id, Message)>, id: Id) {
    exists i :: 0 <= i < |queue| && queue[i].0 == id
  }

  predicate Handled(handled: seq<Entry>, id: Id) {
    exists i :: 0 <= i < |handled| && handled[i].id == id
  }

  /** The call has been made before, whatever has become of it. */
  predicate Known(s: State, id: Id) {
    id in s.writing || Queued(s.queue, id) || Handled(s.handled, id)
  }

  ghost predicate Next(s: State, e: Event, s': State) {
    match e
    case Call(id, m) =>
      !Known(s, id) && s' == s.(writing := s.writing[id := m])
    case Write(id) =>
      id in s.writing && |s.queue| < CAPACITY
      && s' == s.(writing := s.writing - {id}, queue := s.queue + [(id, s.writing[id])])
    case Handle(now, r) =>
      s.queue != []
      && (var (id, m) := s.queue[0];
          Handles(s.locks, m, now, r, s'.locks)
          && s' == s.(queue := s.queue[1..], locks := s'.locks, results := s.results[id := r],
                      handled := s.handled + [Entry(id, m, now, r)]))
    case Return(id) =>
      id in s.results && id !in s.returned && s' == s.(returned := s.returned + {id})
  }

  ghost predicate Behavior(states: seq<State>, events: seq<Event>) {
    && |states| == |events| + 1 && states[0] == START
    && forall t :: 0 <= t < |events| ==> Next(states[t], events[t], states[t + 1])
  }

  /** The single map's operation behind a handled message; a listing has none. */
  function OpsOf(e: Entry): (ops: seq<Op>) {
    match e.m
    case LockMessage(key, lockee, force) => [Acquire(key, lockee, force, e.now)]
    case UnlockMessage(key, lockee) => [Release(key, lockee)]
    case GetLocksMessage => []
  }

  /** The operations behind the handled messages, in order. */
  function Ops(handled: seq<Entry>): (ops: seq<Op>) {
    if handled == [] then []
    else Ops(handled[..|handled| - 1]) + OpsOf(handled[|handled| - 1])
  }

  /** The single map after all of `ops`. */
  function Final(ops: seq<Op>): (s: Store) {
    StateAt(map[], ops, |ops|)
  }

  /**
   `e`, handled after the messages whose operations are `ops`, was answered as the single map answers
   its operation in the run of them all: a lock is reported as granted or refused, with the holder,
   a release with its status, and a listing lists the map as it is then.
   */
  ghost predicate Answered(ops: seq<Op>, e: Entry) {
    var n := |ops|;
    match e.m
    case LockMessage(key, lockee, force) =>
      var reply := Replies(map[], ops + [Acquire(key, lockee, force, e.now)])[n];
      !reply.Unlocked? && e.r == LockResponse(reply.Granted?, key, reply.lock.lockee)
    case UnlockMessage(key, lockee) =>
      e.r.UnlockResult? && Replies(map[], ops + [Release(key, lockee)])[n] == Unlocked(e.r.status)
    case GetLocksMessage =>
      e.r.AllLocks? && Lists(e.r.locks, Final(ops))
  }

  /** A call is in one place only: writing, queued once, or handled once. */
  ghost predicate Distinct(s: State) {
    && (forall i, j :: 0 <= i < j < |s.queue| ==> s.queue[i].0 != s.queue[j].0)
    && (forall i, j :: 0 <= i < j < |s.handled| ==> s.handled[i].id != s.handled[j].id)
    && (forall i, j :: 0 <= i < |s.queue| && 0 <= j < |s.handled| ==> s.queue[i].0 != s.handled[j].id)
    && (forall i :: 0 <= i < |s.queue| ==> s.queue[i].0 !in s.writing)
    && (forall i :: 0 <= i < |s.handled| ==> s.handled[i].id !in s.writing)
  }

  /** Results are exactly those of the handled messages. */
  ghost predicate ResultsMatch(s: State) {
    && (forall i :: 0 <= i < |s.handled| ==> s.handled[i].id in s.results && s.results[s.handled[i].id] == s.handled[i].r)
    && (forall id :: id in s.results ==> Handled(s.handled, id))
    && (forall id :: id in s.returned ==> id in s.results)
  }

  /** The dictionary and every response are the single map's, in channel order. */
  ghost predicate Linear(s: State) {
    && s.locks == Final(Ops(s.handled))
    && forall i :: 0 <= i < |s.handled| ==> Answered(Ops(s.handled[..i]), s.handled[i])
  }

  ghost predicate Invariant(s: State) {
    |s.queue| <= CAPACITY && Distinct(s) && ResultsMatch(s) && Linear(s)
  }

  /** The first operations of a run lead to the same states, whatever follows. */
  lemma {:induction false} StateFrame(ops: seq<Op>, more: seq<Op>, n: nat)
    requires n <= |ops|
    ensures StateAt(map[], ops + more, n) == StateAt(map[], ops, n)
  {
    if n > 0 {
      StateFrame(ops, more, n - 1);
    }
  }

  /** One more operation. */
  lemma OneMore(ops: seq<Op>, op: Op)
    ensures Final(ops + [op]) == Step(Final(ops), op).0
    ensures Replies(map[], ops + [op])[|ops|] == Step(Final(ops), op).1
  {
    StateFrame(ops, [op], |ops|);
  }

  /** Handling a message is the next step of the single map's run. */
  lemma HandledNext(ops: seq<Op>, e: Entry, s': Store)
    requires Handles(Final(ops), e.m, e.now, e.r, s')
    ensures Answered(ops, e) && s' == Final(ops + OpsOf(e))
  {
    if OpsOf(e) == [] {
      assert ops + OpsOf(e) == ops;
    } else {
      OneMore(ops, OpsOf(e)[0]);
    }
  }

  lemma HandleKeepsLinear(s: State, e: Event, s': State)
    requires Linear(s) && e.Handle? && Next(s, e, s')
    ensures Linear(s')
  {
    var n := |s.handled|;
    assert s'.handled[..n] == s.handled;
    HandledNext(Ops(s.handled), s'.handled[n], s'.locks);
    forall i | 0 <= i < n + 1 ensures Answered(Ops(s'.handled[..i]), s'.handled[i]) {
      if i < n {
        assert s'.handled[..i] == s.handled[..i];
      }
    }
  }

  lemma HandleKeepsDistinct(s: State, e: Event, s': State)
    requires Distinct(s) && e.Handle? && Next(s, e, s')
    ensures Distinct(s') && s.queue[0].0 == s'.handled[|s.handled|].id && !Handled(s.handled, s.queue[0].0)
  {
  }

  lemma CallKeepsDistinct(s: State, e: Event, s': State)
    requires Distinct(s) && e.Call? && Next(s, e, s')
    ensures Distinct(s')
  {
    assert !Queued(s.queue, e.id) && !Handled(s.handled, e.id);
  }

  lemma WriteKeepsDistinct(s: State, e: Event, s': State)
    requires Distinct(s) && e.Write? && Next(s, e, s')
    ensures Distinct(s')
  {
    var n := |s.queue|;
    assert s'.queue[n].0 == e.id && forall i :: 0 <= i < n ==> s'.queue[i] == s.queue[i];
  }

  /** Callers' steps leave the history alone. */
  lemma CallerKeeps(s: State, e: Event, s': State)
    requires Invariant(s) && Next(s, e, s') && !e.Handle?
    ensures Invariant(s')
  {
    HistoryKept(s, s');
    if e.Call? {
      CallKeepsDistinct(s, e, s');
    } else if e.Write? {
      WriteKeepsDistinct(s, e, s');
    }
  }

  lemma LoopKeeps(s: State, e: Event, s': State)
    requires Invariant(s) && Next(s, e, s') && e.Handle?
    ensures Invariant(s') && s.queue[0].0 !in s.results
  {
    HandleKeepsLinear(s, e, s');
    HandleKeepsDistinct(s, e, s');
    HandleKeepsResults(s, e, s');
  }

  /** Each step keeps the invariant; in particular no completion source is set twice. */
  lemma StepKeeps(s: State, e: Event, s': State)
    requires Invariant(s) && Next(s, e, s')
    ensures Invariant(s')
    ensures e.Handle? ==> s.queue[0].0 !in s.results
  {
    if e.Handle? {
      LoopKeeps(s, e, s');
    } else {
      CallerKeeps(s, e, s');
    }
  }

  lemma HistoryKept(s: State, s': State)
    requires ResultsMatch(s) && Linear(s)
    requires s'.handled == s.handled && s'.results == s.results && s'.locks == s.locks
    requires forall id :: id in s'.returned ==> id in s.results
    ensures ResultsMatch(s') && Linear(s')
  {
  }

  lemma HandleKeepsResults(s: State, e: Event, s': State)
    requires Distinct(s) && ResultsMatch(s) && e.Handle? && Next(s, e, s')
    ensures ResultsMatch(s')
  {
    forall id | id in s'.results ensures Handled(s'.handled, id) {
      if id == s.queue[0].0 {
        assert s'.handled[|s.handled|].id == id;
      } else {
        var i :| 0 <= i < |s.handled| && s.handled[i].id == id;
        assert s'.handled[i].id == id;
      }
    }
  }

  lemma {:induction false} InvariantHolds(states: seq<State>, events: seq<Event>, t: nat)
    requires Behavior(states, events) && t < |states|
    ensures Invariant(states[t])
  {
    if t > 0 {
      InvariantHolds(states, events, t - 1);
      StepKeeps(states[t - 1], events[t - 1], states[t]);
    }
  }

  lemma {:induction false} HandledGrows(states: seq<State>, events: seq<Event>, t: nat, u: nat)
    requires Behavior(states, events) && t <= u < |states|
    ensures states[t].handled <= states[u].handled
    decreases u - t
  {
    if t < u {
      HandledGrows(states, events, t, u - 1);
      assert Next(states[u - 1], events[u - 1], states[u]);
    }
  }

  /** One of the first `t` events is call `id`, submitting `m`. */
  ghost predicate Called(events: seq<Event>, t: nat, id: Id, m: Message) {
    exists u :: 0 <= u < t <= |events| && events[u] == Call(id, m)
  }

  /** Messages are carried unchanged: wherever one is, it is the one its caller submitted. */
  ghost predicate Carried(events: seq<Event>, t: nat, s: State) {
    && (forall id :: id in s.writing ==> Called(events, t, id, s.writing[id]))
    && (forall i :: 0 <= i < |s.queue| ==> Called(events, t, s.queue[i].0, s.queue[i].1))
    && (forall i :: 0 <= i < |s.handled| ==> Called(events, t, s.handled[i].id, s.handled[i].m))
  }

  /** What was called before step `t` was called before step `t + 1`. */
  lemma CalledPersists(events: seq<Event>, t: nat)
    requires t < |events|
    ensures forall id, m :: Called(events, t, id, m) ==> Called(events, t + 1, id, m)
    ensures events[t].Call? ==> Called(events, t + 1, events[t].id, events[t].m)
  {
    forall id, m | Called(events, t, id, m) ensures Called(events, t + 1, id, m) {
      var u :| 0 <= u < t && events[u] == Call(id, m);
    }
  }

  lemma {:induction false} MessagesCarried(states: seq<State>, events: seq<Event>, t: nat)
    requires Behavior(states, events) && t < |states|
    ensures Carried(events, t, states[t])
  {
    if t > 0 {
      MessagesCarried(states, events, t - 1);
      CalledPersists(events, t - 1);
      assert Next(states[t - 1], events[t - 1], states[t]);
    }
  }

  /** A call made before step `t` is known at step `t`, so no call is made twice. */
  lemma {:induction false} CallIsKnown(states: seq<State>, events: seq<Event>, u: nat, t: nat)
    requires Behavior(states, events) && u < t < |states| && events[u].Call?
    ensures Known(states[t], events[u].id)
    decreases t
  {
    var s, e, s' := states[t - 1], events[t - 1], states[t];
    assert Next(s, e, s');
    if u < t - 1 {
      CallIsKnown(states, events, u, t - 1);
      KnownStays(s, e, s', events[u].id);
    }
  }

  lemma KnownStays(s: State, e: Event, s': State, id: Id)
    requires Next(s, e, s') && Known(s, id)
    ensures Known(s', id)
  {
    if id in s.writing {
      assert e.Write? && e.id == id ==> s'.queue[|s.queue|].0 == id;
    } else if Queued(s.queue, id) {
      var i :| 0 <= i < |s.queue| && s.queue[i].0 == id;
      if e.Handle? {
        assert if i == 0 then s'.handled[|s.handled|].id == id else s'.queue[i - 1].0 == id;
      } else {
        assert s'.queue[i].0 == id;
      }
    } else {
      var i :| 0 <= i < |s.handled| && s.handled[i].id == id;
      assert s'.handled[i].id == id;
    }
  }

  /** Every call has its own completion source. */
  lemma CalledOnce(states: seq<State>, events: seq<Event>, t: nat, u: nat)
    requires Behavior(states, events) && t < u < |events| && events[t].Call? && events[u].Call?
    ensures events[t].id != events[u].id
  {
    CallIsKnown(states, events, t, u);
    assert Next(states[u], events[u], states[u + 1]);
  }

  /** The calls of the first `t` events' writes, in the order of writing. */
  function WriteOrder(events: seq<Event>, t: nat): (r: seq<Id>)
    requires t <= |events|
  {
    if t == 0 then [] else WriteOrder(events, t - 1) + (if events[t - 1].Write? then [events[t - 1].id] else [])
  }

  /** The calls that have been written: those handled, then those still in the channel. */
  function ChannelOrder(s: State): (r: seq<Id>) {
    seq(|s.handled|, i requires 0 <= i < |s.handled| => s.handled[i].id)
    + seq(|s.queue|, i requires 0 <= i < |s.queue| => s.queue[i].0)
  }

  /** Only a write adds to the channel, at its end; handling moves its first message on. */
  lemma ChannelStep(s: State, e: Event, s': State)
    requires Next(s, e, s')
    ensures ChannelOrder(s') == ChannelOrder(s) + (if e.Write? then [e.id] else [])
  {
    if e.Handle? {
      var a, b := ChannelOrder(s), ChannelOrder(s');
      assert |a| == |b| && forall i :: 0 <= i < |a| ==> a[i] == b[i];
    }
  }

  /** First in, first out: messages are handled in the order in which they were written. */
  lemma {:induction false} HandledInWriteOrder(states: seq<State>, events: seq<Event>, t: nat)
    requires Behavior(states, events) && t < |states|
    ensures ChannelOrder(states[t]) == WriteOrder(events, t)
  {
    if t > 0 {
      HandledInWriteOrder(states, events, t - 1);
      ChannelStep(states[t - 1], events[t - 1], states[t]);
    }
  }

  /** Operation `n` of the run `ops` is the one behind `m`, and `r` reports the single map's reply to it there. */
  ghost predicate Reports(ops: seq<Op>, n: nat, m: Message, now: nat, r: Response) {
    match m
    case LockMessage(key, lockee, force) =>
      n < |ops| && ops[n] == Acquire(key, lockee, force, now)
      && var reply := Replies(map[], ops)[n];
         !reply.Unlocked? && r == LockResponse(reply.Granted?, key, reply.lock.lockee)
    case UnlockMessage(key, lockee) =>
      n < |ops| && ops[n] == Release(key, lockee)
      && r.UnlockResult? && Replies(map[], ops)[n] == Unlocked(r.status)
    case GetLocksMessage =>
      n <= |ops| && r.AllLocks? && Lists(r.locks, StateAt(map[], ops, n))
  }

  lemma {:induction false} OpsGrow(handled: seq<Entry>, i: nat)
    requires i <= |handled|
    ensures Ops(handled[..i]) <= Ops(handled)
    ensures i < |handled| ==> Ops(handled[..i]) + OpsOf(handled[i]) <= Ops(handled)
    decreases |handled|
  {
    if i == |handled| {
      assert handled[..i] == handled;
    } else {
      var n := |handled| - 1;
      OpsGrow(handled[..n], i);
      assert handled[..n][..i] == handled[..i];
    }
  }

  /** What was answered after some messages is a report in the run of all of them. */
  lemma AnsweredInRun(handled: seq<Entry>, i: nat)
    requires i < |handled| && Answered(Ops(handled[..i]), handled[i])
    ensures Reports(Ops(handled), |Ops(handled[..i])|, handled[i].m, handled[i].now, handled[i].r)
  {
    var all, ops, e := Ops(handled), Ops(handled[..i]), handled[i];
    OpsGrow(handled, i);
    var more := all[|ops|..];
    assert all == ops + more;
    StateFrame(ops, more, |ops|);
    if !e.m.GetLocksMessage? {
      OneMore(ops, OpsOf(e)[0]);
      assert all[|ops|] == (ops + OpsOf(e))[|ops|];
    }
  }

  /**
   Message `i` of the handled ones is the one call `id` submitted, and `r` is the single map's answer
   to it at its place in the run of the operations of all handled messages.
   */
  ghost predicate Explains(events: seq<Event>, t: nat, handled: seq<Entry>, i: nat, id: Id, r: Response) {
    && i < |handled| && handled[i].id == id && Called(events, t, id, handled[i].m)
    && Reports(Ops(handled), |Ops(handled[..i])|, handled[i].m, handled[i].now, r)
  }

  /**
   Linearizability: in every run the channel never holds more than 100 messages; messages are
   handled in the order of writing, each as its caller submitted it; the dictionary is the single
   map after their operations; every result is the single map's reply to its operation in that run,
   or lists the map at its place; and each result is set once.
   */
  lemma Linearizable(states: seq<State>, events: seq<Event>, t: nat)
    requires Behavior(states, events) && t < |states|
    ensures |states[t].queue| <= 100
    ensures ChannelOrder(states[t]) == WriteOrder(events, t) && Carried(events, t, states[t])
    ensures var ops := Ops(states[t].handled); states[t].locks == StateAt(map[], ops, |ops|)
    ensures forall id :: id in states[t].results ==>
      exists i :: Explains(events, t, states[t].handled, i, id, states[t].results[id])
    ensures t < |events| && events[t].Handle? ==> states[t].queue != [] && states[t].queue[0].0 !in states[t].results
  {
    InvariantHolds(states, events, t);
    MessagesCarried(states, events, t);
    HandledInWriteOrder(states, events, t);
    var s := states[t];
    forall id | id in s.results ensures exists i :: Explains(events, t, s.handled, i, id, s.results[id]) {
      var i :| 0 <= i < |s.handled| && s.handled[i].id == id;
      AnsweredInRun(s.handled, i);
      assert Explains(events, t, s.handled, i, id, s.results[id]);
    }
    if t < |events| {
      StepKeeps(s, events[t], states[t + 1]);
    }
  }

  /** A call that came back before another was made is handled before it. */
  lemma RealTimeOrder(states: seq<State>, events: seq<Event>, t: nat, u: nat, n: nat, i: nat, j: nat)
    requires Behavior(states, events) && t < u < n < |states|
    requires events[t].Return? && events[u].Call?
    requires i < |states[n].handled| && states[n].handled[i].id == events[t].id
    requires j < |states[n].handled| && states[n].handled[j].id == events[u].id
    ensures i < j
  {
    var k := ReturnedIsHandled(states, events, t);
    HandledGrows(states, events, t, u);
    HandledGrows(states, events, u, n);
    InvariantHolds(states, events, n);
    assert states[n].handled[k] == states[t].handled[k];
    CalledIsNew(states, events, u);
    assert forall x :: 0 <= x < |states[u].handled| ==> states[n].handled[x] == states[u].handled[x];
  }

  lemma ReturnedIsHandled(states: seq<State>, events: seq<Event>, t: nat) returns (k: nat)
    requires Behavior(states, events) && t < |events| && events[t].Return?
    ensures k < |states[t].handled| && states[t].handled[k].id == events[t].id
  {
    InvariantHolds(states, events, t);
    assert Next(states[t], events[t], states[t + 1]);
    k :| 0 <= k < |states[t].handled| && states[t].handled[k].id == events[t].id;
  }

  lemma CalledIsNew(states: seq<State>, events: seq<Event>, u: nat)
    requires Behavior(states, events) && u < |events| && events[u].Call?
    ensures forall x :: 0 <= x < |states[u].handled| ==> states[u].handled[x].id != events[u].id
  {
    assert Next(states[u], events[u], states[u + 1]);
    assert !Handled(states[u].handled, events[u].id);
  }
}
