/** What clients read from a session with the server, alone or among others. */
module ClientView {
  import opened CInts
  import opened ConnectionModel
  import opened Connections
  import opened Handlers
  import opened HttpParse
  import opened LockRuns
  import opened LockServer
  import opened LockStore
  import opened ManyConnections
  import opened RequestLoop
  import opened ResponseStream
  import opened Schedules

  lemma AnswersKeepSized(s: Store, req: Request, now: nat, s': Store, a: Answer)
    requires Sized(s) && now < INT64_LIMIT && Answers(s, req, now, s', a)
    ensures Sized(s')
  {
    if req.verb == Post && req.path == LockPath && PostOp(req.body, now).Some? {
      SizedStep(s, PostOp(req.body, now).value);
    } else if req.verb == Post && req.path == UnlockPath && UnlockOp(req.body).Some? {
      SizedStep(s, UnlockOp(req.body).value);
    }
  }

  /** An exchange whose reply is the text of an answer that fits the buffers. */
  predicate Sound(x: Exchange) {
    FitsBuffers(x.answer) && x.reply == AnswerText(x.answer)
  }

  /** Whatever is asked in a session, the names stay bounded and every answer fits. */
  lemma {:induction false} SessionIsSound(rule: Rule, tr: seq<Exchange>, clock: nat -> nat, s: Store, s': Store)
    requires IsRule(rule) && Session(rule, tr, clock, s, s') && Sized(s) && forall n :: clock(n) < INT64_LIMIT
    ensures Sized(s') && forall x :: x in tr ==> Sound(x)
  {
    if tr != [] {
      var n := |tr| - 1;
      SessionIsSound(rule, tr[..n], clock, s, tr[n].before);
      assert RulesAt(rule, tr[n]);
      AnswersKeepSized(tr[n].before, tr[n].req, tr[n].now, tr[n].after, tr[n].answer);
      AnswersFit(tr[n].before, tr[n].req, tr[n].now, tr[n].after, tr[n].answer);
    }
  }

  function AnswersOf(tr: seq<Exchange>): (r: seq<Answer>)
    ensures |r| == |tr| && forall i :: 0 <= i < |tr| ==> r[i] == tr[i].answer
  {
    seq(|tr|, i requires 0 <= i < |tr| => tr[i].answer)
  }

  lemma {:induction false} ReplyAt(tr: seq<Exchange>, i: nat)
    requires i < |tr|
    ensures ReplyBytes(tr)[i] == tr[i].reply
  {
    if i < |tr| - 1 {
      ReplyAt(tr[..|tr| - 1], i);
    }
  }

  lemma RepliesAreTexts(tr: seq<Exchange>)
    requires forall x :: x in tr ==> Sound(x)
    ensures ReplyBytes(tr) == AnswerTexts(AnswersOf(tr))
  {
    forall i | 0 <= i < |tr| ensures ReplyBytes(tr)[i] == AnswerTexts(AnswersOf(tr))[i] {
      ReplyAt(tr, i);
      assert Sound(tr[i]);
    }
  }

  /** The bytes of sound exchanges split into one message for each. */
  lemma SoundIsRead(tr: seq<Exchange>)
    requires forall x :: x in tr ==> Sound(x)
    ensures forall a :: a in AnswersOf(tr) ==> FitsBuffers(a)
    ensures ReadAll(Flat(ReplyBytes(tr))) == (MessagesOf(AnswersOf(tr)), "")
  {
    forall a | a in AnswersOf(tr) ensures FitsBuffers(a) {
      var i :| 0 <= i < |tr| && AnswersOf(tr)[i] == a;
      assert Sound(tr[i]);
    }
    RepliesAreTexts(tr);
    AnswersAreRead(AnswersOf(tr));
  }

  lemma {:induction false} OwnAreExchanges(tr: seq<Tagged>, i: nat)
    ensures forall x :: x in Own(tr, i) ==> x in Exchanges(tr)
  {
    if tr != [] {
      OwnAreExchanges(tr[..|tr| - 1], i);
      assert Exchanges(tr) == Exchanges(tr[..|tr| - 1]) + [tr[|tr| - 1].x];
    }
  }

  /**
   Among any number of connections each client reads its own answers: the bytes sent to it are
   exactly one message for each of its own exchanges of the common session, in order.
   */
  lemma EachClientReadsItsOwn(rule: Rule, parse: Parser, streams: seq<string>, turns: seq<Turn>, log: Log,
                              sent: seq<seq<string>>, clock: nat -> nat, s: Store, i: nat)
    requires IsRule(rule) && Session(rule, Exchanges(log.tr), clock, s, log.store)
    requires Stable(parse) && Recorded(parse, streams, turns, log, sent)
    requires Sized(s) && (forall n :: clock(n) < INT64_LIMIT) && i < |sent|
    ensures var own := Own(log.tr, i);
      && (forall x :: x in own ==> Sound(x)) && (forall a :: a in AnswersOf(own) ==> FitsBuffers(a))
      && ReadAll(Flat(sent[i])) == (MessagesOf(AnswersOf(own)), "")
  {
    assert RecordedFor(parse, streams[i], turns, log.tr, log.views[i], sent[i], i);
    SessionIsSound(rule, Exchanges(log.tr), clock, s, log.store);
    OwnAreExchanges(log.tr, i);
    SoundIsRead(Own(log.tr, i));
  }

  /**
   Mutual exclusion across connections: whoever is served in between, a holder loses its key only
   by its own unlock request or another's forced lock request, on some connection.
   */
  lemma TenureAcrossConnections(log: Log, clock: nat -> nat, s: Store, key: string, lockee: string) returns (k: nat)
    requires Session(Faithful, Exchanges(log.tr), clock, s, log.store)
    requires HeldBy(s, key, lockee) && !HeldBy(log.store, key, lockee)
    ensures k < |log.tr| && HeldBy(log.tr[k].x.before, key, lockee)
    ensures var op := RequestOp(log.tr[k].x.req, log.tr[k].x.now); op.Some? && EndsTenure(op.value, key, lockee)
  {
    k := SessionTenure(Exchanges(log.tr), clock, s, log.store, key, lockee);
  }

  /**
   What every client gets, whatever the schedule and the other clients: its own pipelined requests
   are answered in order, one message each. Given enough rounds of its own, all of them are answered
   exactly if each fits the read buffer.
   */
  lemma EveryClientIsServed(rule: Rule, parse: Parser, streams: seq<string>, turns: seq<Turn>, log: Log,
                            sent: seq<seq<string>>, clock: nat -> nat, s: Store, i: nat, fs: seq<Frame>)
    requires IsRule(rule) && Session(rule, Exchanges(log.tr), clock, s, log.store)
    requires Stable(parse) && !parse("").Complete? && Recorded(parse, streams, turns, log, sent)
    requires Sized(s) && (forall n :: clock(n) < INT64_LIMIT) && i < |sent|
    requires streams[i] == Texts(fs) && forall f :: f in fs ==> Frames(parse, f)
    ensures var own := Own(log.tr, i);
      && Requests(own) <= Reqs(fs) && (forall a :: a in AnswersOf(own) ==> FitsBuffers(a))
      && ReadAll(Flat(sent[i])) == (MessagesOf(AnswersOf(own)), "")
      && (Rounds(Mine(turns, i)) >= |Texts(fs)| + |fs| ==> (Requests(own) == Reqs(fs) <==> AllFit(fs)))
  {
    EachClientReadsItsOwn(rule, parse, streams, turns, log, sent, clock, s, i);
    assert RecordedFor(parse, streams[i], turns, log.tr, log.views[i], sent[i], i);
    Schedules.AnsweredInOrder(parse, fs, Mine(turns, i));
    if Rounds(Mine(turns, i)) >= |Texts(fs)| + |fs| {
      AnsweredIffEachFits(parse, fs, Mine(turns, i));
    }
  }
}
