/** The event-loop store never gets stuck: every call that has been made comes back. */
module EventLoopProgress {
  import opened EventLoop
  import opened LockStore
  import opened MapFacts

  /** A caller that waits to write gets its turn exactly when the channel holds fewer than 100 messages. */
  lemma WritesIff(s: State, id: Id)
    ensures (exists s' :: Next(s, Event.Write(id), s')) <==> id in s.writing && |s.queue| < 100
  {
    if id in s.writing && |s.queue| < 100 {
      var s' := s.(writing := s.writing - {id}, queue := s.queue + [(id, s.writing[id])]);
      assert Next(s, Event.Write(id), s');
    }
  }

  /** Every map can be listed. */
  lemma {:induction false} ListingExists(s: Store) returns (r: seq<Lock>)
    requires Keyed(s)
    ensures Lists(r, s)
    decreases |s|
  {
    if s == map[] {
      r := [];
    } else {
      var k :| k in s;
      RemoveSize(s, k);
      var rest := ListingExists(s - {k});
      r := rest + [s[k]];
      forall x | x in s ensures s[x] in r {
        assert x != k ==> x in s - {k};
      }
    }
  }

  lemma HandlesSome(s: Store, m: Message, now: nat) returns (r: Response, s': Store)
    requires Keyed(s)
    ensures Handles(s, m, now, r, s')
  {
    match m {
      case LockMessage(key, lockee, force) =>
        var t := Step(s, Acquire(key, lockee, force, now));
        r, s' := LockResponse(t.1.Granted?, key, t.1.lock.lockee), t.0;
      case UnlockMessage(key, lockee) =>
        var t := Step(s, Release(key, lockee));
        r, s' := UnlockResult(t.1.status), t.0;
      case GetLocksMessage =>
        var all := ListingExists(s);
        r, s' := AllLocks(all), s;
    }
  }

  /** The loop can handle the first message of the channel, at any time. */
  lemma LoopIsReady(s: State, now: nat) returns (r: Response, s': State)
    requires Invariant(s) && s.queue != []
    ensures Next(s, Event.Handle(now, r), s')
  {
    var (id, m) := s.queue[0];
    var locks;
    r, locks := HandlesSome(s.locks, m, now);
    s' := s.(queue := s.queue[1..], locks := locks, results := s.results[id := r], handled := s.handled + [Entry(id, m, now, r)]);
  }

  /** Steps that the calls made so far still need: to be written, to be handled and to come back. */
  ghost function Work(s: State): (n: nat) {
    3 * |s.writing| + 2 * |s.queue| + |s.results.Keys - s.returned|
  }

  lemma WriteWorks(s: State, id: Id, s': State)
    requires Next(s, Event.Write(id), s')
    ensures Work(s') == Work(s) - 1
  {
    RemoveSize(s.writing, id);
  }

  lemma FirstIsNew(s: State)
    requires Invariant(s) && s.queue != []
    ensures s.queue[0].0 !in s.results && s.queue[0].0 !in s.returned
  {
    var id := s.queue[0].0;
    assert !Handled(s.handled, id);
  }

  lemma ResultWaits(results: map<Id, Response>, returned: set<Id>, id: Id, r: Response)
    requires id !in results && id !in returned
    ensures |results[id := r].Keys - returned| == |results.Keys - returned| + 1
  {
    assert results[id := r].Keys - returned == (results.Keys - returned) + {id};
  }

  lemma HandleWorks(s: State, now: nat, r: Response, s': State)
    requires Invariant(s) && Next(s, Event.Handle(now, r), s')
    ensures Work(s') == Work(s) - 1
  {
    var id := s.queue[0].0;
    FirstIsNew(s);
    ResultWaits(s.results, s.returned, id, r);
    assert |s'.queue| == |s.queue| - 1 && s'.results == s.results[id := r];
  }

  lemma ReturnWorks(s: State, id: Id, s': State)
    requires Next(s, Event.Return(id), s')
    ensures Work(s') == Work(s) - 1
  {
    assert s'.results.Keys - s'.returned == (s.results.Keys - s.returned) - {id};
  }

  lemma CallAddsWork(s: State, id: Id, m: Message, s': State)
    requires Next(s, Event.Call(id, m), s')
    ensures Work(s') == Work(s) + 3
  {
    assert s'.writing.Keys == s.writing.Keys + {id};
  }

  /** What a step does to the work: a new call adds three steps, every other step takes one away. */
  function Cost(e: Event): (n: int) {
    if e.Call? then 3 else -1
  }

  lemma StepWorks(s: State, e: Event, s': State)
    requires Invariant(s) && Next(s, e, s')
    ensures Work(s') == Work(s) + Cost(e)
  {
    match e {
      case Call(id, m) => CallAddsWork(s, id, m, s');
      case Write(id) => WriteWorks(s, id, s');
      case Handle(now, r) => HandleWorks(s, now, r, s');
      case Return(id) => ReturnWorks(s, id, s');
    }
  }

  lemma NoWorkAllBack(s: State)
    requires Invariant(s)
    ensures Work(s) == 0 <==> forall id :: Known(s, id) ==> id in s.returned
  {
    if forall id :: Known(s, id) ==> id in s.returned {
      assert s.queue == [] by {
        if s.queue != [] {
          QueuedNotBack(s);
        }
      }
      assert s.writing == map[] by {
        if s.writing != map[] {
          var id :| id in s.writing;
          assert Known(s, id);
        }
      }
      assert s.results.Keys - s.returned == {};
    } else {
      var id :| Known(s, id) && id !in s.returned;
      if id in s.writing {
        RemoveSize(s.writing, id);
      } else if Handled(s.handled, id) {
        assert id in s.results.Keys - s.returned;
      }
    }
  }

  lemma QueuedNotBack(s: State)
    requires Invariant(s) && s.queue != []
    ensures Known(s, s.queue[0].0) && s.queue[0].0 !in s.returned
  {
    assert Queued(s.queue, s.queue[0].0);
  }

  /** As long as some call has not come back, a step other than a new call is possible. */
  lemma NeverStuck(states: seq<State>, events: seq<Event>, t: nat, id: Id, now: nat) returns (e: Event, s': State)
    requires Behavior(states, events) && t < |states| && Known(states[t], id) && id !in states[t].returned
    ensures Next(states[t], e, s') && !e.Call?
  {
    var s := states[t];
    InvariantHolds(states, events, t);
    if s.queue != [] {
      var r;
      r, s' := LoopIsReady(s, now);
      e := Event.Handle(now, r);
    } else if id in s.writing {
      e, s' := Event.Write(id), s.(writing := s.writing - {id}, queue := s.queue + [(id, s.writing[id])]);
    } else {
      e, s' := Event.Return(id), s.(returned := s.returned + {id});
    }
  }

  function Costs(events: seq<Event>): (n: int) {
    if events == [] then 0 else Costs(events[..|events| - 1]) + Cost(events[|events| - 1])
  }

  /** The work that is left is accounted for by the steps of the run. */
  lemma {:induction false} WorkInRun(states: seq<State>, events: seq<Event>, t: nat)
    requires Behavior(states, events) && t < |states|
    ensures Work(states[t]) == Costs(events[..t])
    decreases t
  {
    if t > 0 {
      var n := t - 1;
      WorkInRun(states, events, n);
      InvariantHolds(states, events, n);
      StepWorks(states[n], events[n], states[t]);
      assert events[..t][..n] == events[..n];
    }
  }

  /**
   Every call comes back: in every run, at every instant, all calls made so far have come back exactly
   if three other steps have been made for each of them. Until then one is possible (`NeverStuck`).
   */
  lemma AllBackIff(states: seq<State>, events: seq<Event>, t: nat)
    requires Behavior(states, events) && t < |states|
    ensures Costs(events[..t]) >= 0
    ensures (forall id :: Known(states[t], id) ==> id in states[t].returned) <==> Costs(events[..t]) == 0
  {
    WorkInRun(states, events, t);
    InvariantHolds(states, events, t);
    NoWorkAllBack(states[t]);
  }
}
