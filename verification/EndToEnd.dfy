/**
 From the client's calls to the store and back to the client: printed requests, split by `recv` in
 any way, act on the single-map store one by one, and the client reads the store's replies.
 */
module EndToEnd {
  import opened AnswerReading
  import opened CInts
  import opened ClientView
  import opened ConnectionModel
  import opened Connections
  import opened Decimal
  import opened Handlers
  import opened HttpParse
  import opened HttpRoundTrip
  import opened JsonRoundTrip
  import opened ListingReadback
  import opened LockRuns
  import opened LockServer
  import opened LockStore
  import opened ManyConnections
  import opened RequestMeaning
  import opened ResponseStream
  import opened Schedules
  import opened Wrappers

  /** A lock or unlock call as a client prints it: header lines, a body, and the names in the body. */
  datatype Call = Call(unlock: bool, before: seq<string>, lower: bool, after: seq<string>,
                       lead: string, ps: seq<Piece>, trail: string, key: string, lockee: string)

  function CallBody(c: Call): (s: string) {
    Object(c.lead, c.ps, c.trail)
  }

  function CallWire(c: Call): (w: Wire) {
    PostWire(if c.unlock then "/unlock" else "/lock", c.before, c.lower, c.after, CallBody(c))
  }

  /** The call is valid HTTP and JSON, names a key, and fits the read buffer. */
  ghost predicate GoodCall(c: Call) {
    && IsBody(c.lead, c.ps, c.trail) && c.key != "" && Sees(c.ps, KeyMember(c.key)) && Sees(c.ps, LockeeMember(c.lockee))
    && WellFormed(CallWire(c)) && |WireText(CallWire(c))| <= READ_BUF_SIZE
  }

  /** The plainest way to print a call. */
  function PlainCall(unlock: bool, key: string, lockee: string): (c: Call) {
    Call(unlock, [], false, [], "", [Bare(KeyMember(key)), Bare(LockeeMember(lockee))], "", key, lockee)
  }

  lemma PlainBodySize(key: string, lockee: string)
    ensures |CallBody(PlainCall(false, key, lockee))| == 22 + |key| + |lockee|
  {
    var p, q := Bare(KeyMember(key)), Bare(LockeeMember(lockee));
    assert [p, q][1..] == [q];
    assert |PieceText(p)| == 8 + |key| && |PieceText(q)| == 11 + |lockee|;
    assert |Members(PieceText, [p, q])| == |PieceText(p)| + 1 + |PieceText(q)|;
  }

  lemma PlainHeadSize(w: Wire)
    requires w.PostWire? && w.before == [] && !w.lower && w.after == [] && |w.body| < 10_000
    ensures |Head(WireLines(w))| <= 38 + |w.target|
  {
    assert WireLines(w) == [RequestLine(w), LengthLine(|w.body|)];
    HeadTwo(RequestLine(w), LengthLine(|w.body|));
    assert Pow10(2) == 100 && Pow10(4) == 10_000;
    DecLength(|w.body|, 4);
  }

  lemma PlainNames(key: string, lockee: string)
    requires '"' !in key && '"' !in lockee
    ensures var ps := PlainCall(false, key, lockee).ps;
      IsBody("", ps, "") && Sees(ps, KeyMember(key)) && Sees(ps, LockeeMember(lockee))
  {
    var ps := PlainCall(false, key, lockee).ps;
    BareSeen(key, lockee, []);
    assert ps + [] == ps;
  }

  /** Ordinary calls are good calls: any names without quotes, up to a thousand bytes each. */
  lemma PlainCallIsGood(unlock: bool, key: string, lockee: string)
    requires 0 < |key| <= 1000 && |lockee| <= 1000 && '"' !in key && '"' !in lockee
    ensures GoodCall(PlainCall(unlock, key, lockee))
  {
    var c := PlainCall(unlock, key, lockee);
    PlainNames(key, lockee);
    PlainBodySize(key, lockee);
    PlainHeadSize(CallWire(c));
  }

  /** The operation it stands for. */
  function CallOp(c: Call, now: nat): (op: Op) {
    if c.unlock then Release(CutKey(c.key), CutLockee(c.lockee))
    else Acquire(CutKey(c.key), CutLockee(c.lockee), SeesForce(c.ps), now)
  }

  function Wires(calls: seq<Call>): (ws: seq<Wire>)
    ensures |ws| == |calls| && forall i :: 0 <= i < |calls| ==> ws[i] == CallWire(calls[i])
  {
    seq(|calls|, i requires 0 <= i < |calls| => CallWire(calls[i]))
  }

  function CallOps(calls: seq<Call>, clock: nat -> nat): (ops: seq<Op>)
    ensures |ops| == |calls| && forall i :: 0 <= i < |calls| ==> ops[i] == CallOp(calls[i], clock(i))
  {
    seq(|calls|, i requires 0 <= i < |calls| => CallOp(calls[i], clock(i)))
  }

  /** The answer that reports a reply of the store. */
  function AnswerTo(op: Op, reply: Reply): (a: Answer)
    requires op.Acquire? <==> !reply.Unlocked?
  {
    if op.Acquire? then LockAnswer(op, reply) else UnlockAnswer(reply.status)
  }

  lemma OpOfCall(x: Exchange, c: Call)
    requires GoodCall(c) && x.req == Meaning(CallWire(c))
    ensures RequestOp(x.req, x.now) == Some(CallOp(c, x.now))
  {
    PathIff(CallWire(c).target);
    BodyDecoded(c.lead, c.ps, c.trail, c.key, c.lockee, x.now);
  }

  /** An exchange on a call's request is the store's step on the call's operation, and the client is told what happened. */
  lemma ExchangeOfCall(x: Exchange, c: Call)
    requires Faithful(x) && GoodCall(c) && x.req == Meaning(CallWire(c))
    ensures var op := CallOp(c, x.now);
      x.after == Step(x.before, op).0 && x.answer == AnswerTo(op, Step(x.before, op).1) && x.reply == AnswerText(x.answer)
    ensures StoreUnquoted(x.before) && Keyed(x.before) && Sized(x.before) ==>
      var r := ReadResponse(x.reply); r.Some? && Tells(x.before, CallOp(c, x.now), x.after, r.value.0)
  {
    OpOfCall(x, c);
    if StoreUnquoted(x.before) && Keyed(x.before) && Sized(x.before) {
      ExchangeTold(x);
    }
  }

  /** The answers of a run of operations. */
  function RunAnswers(s: Store, ops: seq<Op>, n: nat): (r: seq<Answer>)
    requires n <= |ops|
    ensures |r| == n
  {
    if n == 0 then [] else RunAnswers(s, ops, n - 1) + [AnswerTo(ops[n - 1], Step(StateAt(s, ops, n - 1), ops[n - 1]).1)]
  }

  lemma TextsSnoc(answers: seq<Answer>, a: Answer)
    ensures AnswerTexts(answers + [a]) == AnswerTexts(answers) + [AnswerText(a)]
  {
  }

  /** A session on the calls' requests is the run of the calls' operations. */
  lemma {:induction false} SessionOfCalls(rule: Rule, tr: seq<Exchange>, clock: nat -> nat, s: Store, s': Store,
                                          calls: seq<Call>, ops: seq<Op>)
    requires IsRule(rule) && Session(rule, tr, clock, s, s') && |tr| <= |calls| && ops == CallOps(calls, clock)
    requires forall i :: 0 <= i < |tr| ==> tr[i].req == Meaning(CallWire(calls[i]))
    requires forall c :: c in calls ==> GoodCall(c)
    ensures s' == StateAt(s, ops, |tr|) && ReplyBytes(tr) == AnswerTexts(RunAnswers(s, ops, |tr|))
  {
    if tr != [] {
      var n := |tr| - 1;
      SessionOfCalls(rule, tr[..n], clock, s, tr[n].before, calls, ops);
      assert RulesAt(rule, tr[n]);
      ExchangeOfCall(tr[n], calls[n]);
      TextsSnoc(RunAnswers(s, ops, n), tr[n].answer);
    }
  }

  lemma {:induction false} RequestsAt(tr: seq<Exchange>, i: nat)
    requires i < |tr|
    ensures |Requests(tr)| == |tr| && Requests(tr)[i] == tr[i].req
  {
    if i < |tr| - 1 {
      RequestsAt(tr[..|tr| - 1], i);
    } else if |tr| > 1 {
      RequestsAt(tr[..|tr| - 1], 0);
    }
  }

  lemma {:induction false} ReqsAt(fs: seq<Frame>, i: nat)
    requires i < |fs|
    ensures |Reqs(fs)| == |fs| && Reqs(fs)[i] == fs[i].req
  {
    if i > 0 {
      ReqsAt(fs[1..], i - 1);
    } else if |fs| > 1 {
      ReqsAt(fs[1..], 0);
    }
  }

  lemma {:induction false} SizedRun(s: Store, ops: seq<Op>, n: nat)
    requires Sized(s) && n <= |ops| && forall i :: 0 <= i < |ops| ==> Admissible(ops[i])
    ensures Sized(StateAt(s, ops, n))
  {
    if n > 0 {
      SizedRun(s, ops, n - 1);
      SizedStep(StateAt(s, ops, n - 1), ops[n - 1]);
    }
  }

  lemma AnswerFits(s: Store, op: Op)
    requires Sized(s) && Admissible(op)
    ensures FitsBuffers(AnswerTo(op, Step(s, op).1))
  {
    if op.Acquire? {
      LockTextFits(op, Step(s, op).1);
    } else {
      UnlockTextFits(Step(s, op).1.status);
    }
  }

  lemma {:induction false} RunAnswersFit(s: Store, ops: seq<Op>, n: nat)
    requires Sized(s) && n <= |ops| && forall i :: 0 <= i < |ops| ==> Admissible(ops[i])
    ensures forall a :: a in RunAnswers(s, ops, n) ==> FitsBuffers(a)
  {
    if n > 0 {
      RunAnswersFit(s, ops, n - 1);
      SizedRun(s, ops, n - 1);
      AnswerFits(StateAt(s, ops, n - 1), ops[n - 1]);
    }
  }

  predicate OpUnquoted(op: Op) {
    Unquoted(op.key) && Unquoted(op.lockee)
  }

  lemma {:induction false} UnquotedRun(s: Store, ops: seq<Op>, n: nat)
    requires StoreUnquoted(s) && n <= |ops| && forall i :: 0 <= i < |ops| ==> OpUnquoted(ops[i])
    ensures StoreUnquoted(StateAt(s, ops, n))
  {
    if n > 0 {
      UnquotedRun(s, ops, n - 1);
    }
  }

  lemma {:induction false} RunAnswersAt(s: Store, ops: seq<Op>, n: nat, i: nat)
    requires i < n <= |ops|
    ensures RunAnswers(s, ops, n)[i] == AnswerTo(ops[i], Step(StateAt(s, ops, i), ops[i]).1)
  {
    if i < n - 1 {
      RunAnswersAt(s, ops, n - 1, i);
    }
  }

  lemma {:induction false} MessagesAt(answers: seq<Answer>, i: nat)
    requires i < |answers| && forall a :: a in answers ==> FitsBuffers(a)
    ensures |MessagesOf(answers)| == |answers| && MessagesOf(answers)[i] == MessageOf(answers[i])
    decreases |answers|
  {
    if i > 0 {
      MessagesAt(answers[1..], i - 1);
    } else if |answers| > 1 {
      MessagesAt(answers[1..], 0);
    }
  }

  lemma AnswerTold(s: Store, op: Op)
    requires Keyed(s) && StoreUnquoted(s) && OpUnquoted(op) && FitsBuffers(AnswerTo(op, Step(s, op).1))
    ensures Tells(s, op, Step(s, op).0, MessageOf(AnswerTo(op, Step(s, op).1)))
  {
    if op.Acquire? {
      LockTold(s, op);
    } else {
      UnlockTold(s, op);
    }
  }

  /** One message for each operation, and it tells the client what the operation did to the store. */
  ghost predicate AllTold(s: Store, ops: seq<Op>, ms: seq<Message>) {
    |ms| == |ops| && forall i :: 0 <= i < |ops| ==> Tells(StateAt(s, ops, i), ops[i], StateAt(s, ops, i + 1), ms[i])
  }

  lemma RunTold(s: Store, ops: seq<Op>, answers: seq<Answer>)
    requires Keyed(s) && StoreUnquoted(s) && answers == RunAnswers(s, ops, |ops|)
    requires (forall i :: 0 <= i < |ops| ==> OpUnquoted(ops[i])) && forall a :: a in answers ==> FitsBuffers(a)
    ensures AllTold(s, ops, MessagesOf(answers))
  {
    var ms := MessagesOf(answers);
    if ops != [] {
      MessagesAt(answers, 0);
    }
    forall i | 0 <= i < |ops| ensures Tells(StateAt(s, ops, i), ops[i], StateAt(s, ops, i + 1), ms[i]) {
      RunAnswersAt(s, ops, |ops|, i);
      MessagesAt(answers, i);
      UnquotedRun(s, ops, i);
      assert answers[i] in answers;
      AnswerTold(StateAt(s, ops, i), ops[i]);
    }
  }

  /**
   The bytes sent split into exactly the messages that report the store's replies to `ops`, and each
   tells the client what happened to the store.
   */
  ghost predicate Reported(s: Store, ops: seq<Op>, replies: seq<string>) {
    var answers := RunAnswers(s, ops, |ops|);
    && (forall a :: a in answers ==> FitsBuffers(a)) && ReadAll(Flat(replies)) == (MessagesOf(answers), "")
    && (StoreUnquoted(s) ==> AllTold(s, ops, ReadAll(Flat(replies)).0))
  }

  lemma ClientReads(s: Store, ops: seq<Op>)
    requires Sized(s) && Keyed(s) && forall i :: 0 <= i < |ops| ==> Admissible(ops[i]) && OpUnquoted(ops[i])
    ensures Reported(s, ops, AnswerTexts(RunAnswers(s, ops, |ops|)))
  {
    var answers := RunAnswers(s, ops, |ops|);
    RunAnswersFit(s, ops, |ops|);
    AnswersAreRead(answers);
    if StoreUnquoted(s) {
      RunTold(s, ops, answers);
    }
  }

  lemma CallIsUnquoted(c: Call, now: nat)
    requires GoodCall(c)
    ensures OpUnquoted(CallOp(c, now))
  {
    var i :| 0 <= i < |c.ps| && c.ps[i].m == KeyMember(c.key) && SeenAt(c.ps, i);
    var j :| 0 <= j < |c.ps| && c.ps[j].m == LockeeMember(c.lockee) && SeenAt(c.ps, j);
    assert Printable(c.ps[i]) && Printable(c.ps[j]);
  }

  lemma CallsAreUnquoted(calls: seq<Call>, clock: nat -> nat)
    requires forall c :: c in calls ==> GoodCall(c)
    ensures forall i :: 0 <= i < |calls| ==> OpUnquoted(CallOps(calls, clock)[i])
  {
    forall i | 0 <= i < |calls| ensures OpUnquoted(CallOps(calls, clock)[i]) {
      CallIsUnquoted(calls[i], clock(i));
    }
  }

  lemma CallsAreAdmissible(calls: seq<Call>, clock: nat -> nat)
    requires forall n :: clock(n) < INT64_LIMIT
    ensures forall i :: 0 <= i < |calls| ==> Admissible(CallOps(calls, clock)[i])
  {
  }

  /** The requests a connection has handled are the calls'. */
  lemma {:induction false} HandledCalls(tr: seq<Exchange>, calls: seq<Call>)
    requires Requests(tr) == Reqs(FramesOf(Wires(calls)))
    ensures |tr| == |calls| && forall i :: 0 <= i < |tr| ==> tr[i].req == Meaning(CallWire(calls[i]))
  {
    var fs := FramesOf(Wires(calls));
    if tr != [] {
      RequestsAt(tr, 0);
    }
    if fs != [] {
      ReqsAt(fs, 0);
    }
    forall i | 0 <= i < |tr| ensures tr[i].req == Meaning(CallWire(calls[i])) {
      RequestsAt(tr, i);
      ReqsAt(fs, i);
    }
  }

  lemma CallsAreDelivered(calls: seq<Call>, chunks: seq<string>)
    requires forall c :: c in calls ==> GoodCall(c)
    ensures Stable(Parse)
    ensures Delivers(Parse, Conn([], "", true), Texts(FramesOf(Wires(calls))), chunks) ==>
      Run(Parse, Conn([], "", true), chunks) == Conn(Reqs(FramesOf(Wires(calls))), "", true)
  {
    forall w | w in Wires(calls) ensures WellFormed(w) && |WireText(w)| <= READ_BUF_SIZE {
      var i :| 0 <= i < |calls| && w == CallWire(calls[i]);
      assert GoodCall(calls[i]);
    }
    PipelineRecovered(Wires(calls), chunks);
  }

  /** What a session on the calls amounts to, for the store and for the client. */
  lemma SessionMeans(rule: Rule, tr: seq<Exchange>, clock: nat -> nat, s: Store, s': Store, calls: seq<Call>)
    requires IsRule(rule) && Session(rule, tr, clock, s, s') && Sized(s) && Keyed(s) && forall n :: clock(n) < INT64_LIMIT
    requires Requests(tr) == Reqs(FramesOf(Wires(calls))) && forall c :: c in calls ==> GoodCall(c)
    ensures s' == StateAt(s, CallOps(calls, clock), |calls|)
    ensures Reported(s, CallOps(calls, clock), ReplyBytes(tr))
  {
    HandledCalls(tr, calls);
    SessionOfCalls(rule, tr, clock, s, s', calls, CallOps(calls, clock));
    CallsAreAdmissible(calls, clock);
    CallsAreUnquoted(calls, clock);
    ClientReads(s, CallOps(calls, clock));
  }

  /**
   A whole conversation: calls sent back to back on a new connection, in whatever chunks they
   arrive, act on the single-map store in order with their names cut, and the client reads exactly
   the messages that report the store's replies. Each tells it what happened.
   */
  method Converse(server: Server, ghost s: Store, ghost calls: seq<Call>, chunks: seq<string>, clock: nat -> nat)
    returns (replies: seq<string>, closed: bool)
    requires server.Represents(s) && forall n :: clock(n) < INT64_LIMIT
    requires forall c :: c in calls ==> GoodCall(c)
    requires Stable(Parse) && Delivers(Parse, Conn([], "", true), Texts(FramesOf(Wires(calls))), chunks)
    modifies server.Repr
    ensures fresh(server.Repr - old(server.Repr)) && !closed
    ensures server.Represents(StateAt(s, CallOps(calls, clock), |calls|))
    ensures Reported(s, CallOps(calls, clock), replies)
  {
    ParseIsParse();
    FaithfulIsRule();
    ghost var tr, s';
    replies, closed, tr, s' := ServeNew(server, s, chunks, clock, Parse, Faithful);
    CallsAreDelivered(calls, chunks);
    SessionMeans(Faithful, tr, clock, s, s', calls);
  }

  lemma SessionTells(rule: Rule, tr: seq<Exchange>, clock: nat -> nat, s: Store, s': Store)
    requires IsRule(rule) && Session(rule, tr, clock, s, s') && (forall n :: clock(n) < INT64_LIMIT) && Keyed(s) && Sized(s)
    ensures StoreUnquoted(s) ==> forall x :: x in tr ==> BytesTell(x)
  {
    if StoreUnquoted(s) {
      SessionTold(rule, tr, clock, s, s');
    }
  }

  /** A new connection, served from its first byte on. */
  method ServeNew(server: Server, ghost s: Store, chunks: seq<string>, clock: nat -> nat, ghost parse: Parser, ghost rule: Rule)
    returns (replies: seq<string>, closed: bool, ghost tr: seq<Exchange>, ghost s': Store)
    requires server.Represents(s) && IsParse(parse) && IsRule(rule) && forall n :: clock(n) < INT64_LIMIT
    requires Fits(parse, Conn([], "", true), chunks)
    modifies server.Repr
    ensures fresh(server.Repr - old(server.Repr)) && server.Represents(s')
    ensures var c := Run(parse, Conn([], "", true), chunks); c.handled == Requests(tr) && c.open == !closed
    ensures Session(rule, tr, clock, s, s') && replies == ReplyBytes(tr)
  {
    var conn := new Connection();
    assert conn.Unread() == "";
    replies, closed, tr, s' := conn.Serve(server, s, chunks, clock, parse, rule);
  }

  /**
   A whole conversation about anything: locks, unlocks, listings, health checks, refused bodies and
   unknown paths, sent back to back in any chunks. Every request is answered as `Faithful` says, in
   order, from one session with the single-map store, and the client reads one message for each.
   */
  method ConverseFreely(server: Server, ghost s: Store, ghost ws: seq<Wire>, chunks: seq<string>, clock: nat -> nat)
    returns (replies: seq<string>, closed: bool, ghost tr: seq<Exchange>, ghost s': Store)
    requires server.Represents(s) && forall n :: clock(n) < INT64_LIMIT
    requires forall w :: w in ws ==> WellFormed(w) && |WireText(w)| <= READ_BUF_SIZE
    requires Stable(Parse) && Delivers(Parse, Conn([], "", true), Texts(FramesOf(ws)), chunks)
    modifies server.Repr
    ensures fresh(server.Repr - old(server.Repr)) && !closed && server.Represents(s')
    ensures Session(Faithful, tr, clock, s, s') && Requests(tr) == Reqs(FramesOf(ws))
    ensures (forall x :: x in tr ==> Sound(x)) && (forall a :: a in AnswersOf(tr) ==> FitsBuffers(a))
    ensures ReadAll(Flat(replies)) == (MessagesOf(AnswersOf(tr)), "")
    ensures StoreUnquoted(s) ==> forall x :: x in tr ==> BytesTell(x)
  {
    ParseIsParse();
    FaithfulIsRule();
    replies, closed, tr, s' := ServeNew(server, s, chunks, clock, Parse, Faithful);
    PipelineRecovered(ws, chunks);
    SessionIsSound(Faithful, tr, clock, s, s');
    SoundIsRead(tr);
    SessionTells(Faithful, tr, clock, s, s');
  }

  /**
   What client `i` gets for its requests `ws`: the first of them are answered, in order, and it reads
   one message for each; given enough rounds, all are answered exactly if each fits the read buffer.
   */
  ghost predicate ClientServed(log: Log, sent: seq<string>, turns: seq<Turn>, i: nat, ws: seq<Wire>) {
    var own, fs := Own(log.tr, i), FramesOf(ws);
    && Requests(own) <= Reqs(fs)
    && (forall a :: a in AnswersOf(own) ==> FitsBuffers(a)) && ReadAll(Flat(sent)) == (MessagesOf(AnswersOf(own)), "")
    && (Rounds(Mine(turns, i)) >= |Texts(fs)| + |fs| ==>
          (Requests(own) == Reqs(fs) <==> forall w :: w in ws ==> |WireText(w)| <= 4096))
  }

  lemma ClientIsServed(streams: seq<string>, turns: seq<Turn>, log: Log, sent: seq<seq<string>>, clock: nat -> nat, s: Store,
                       i: nat, ws: seq<Wire>)
    requires Session(Faithful, Exchanges(log.tr), clock, s, log.store) && Sized(s) && forall n :: clock(n) < INT64_LIMIT
    requires Stable(Parse) && Recorded(Parse, streams, turns, log, sent) && i < |sent|
    requires streams[i] == Texts(FramesOf(ws)) && forall w :: w in ws ==> WellFormed(w)
    ensures ClientServed(log, sent[i], turns, i, ws)
  {
    FaithfulIsRule();
    WiresAreFrames(ws);
    FitAlike(ws);
    EveryClientIsServed(Faithful, Parse, streams, turns, log, sent, clock, s, i, FramesOf(ws));
  }

  /**
   Many clients at once: each sends its own requests on its own connection, and the turns of the
   connections are scheduled in any order. All exchanges are one session with the single-map store,
   and every client is served.
   */
  method ServeClients(server: Server, conns: seq<Connection>, streams: seq<string>, turns: seq<Turn>, clock: nat -> nat,
                      ghost s: Store, ghost clients: seq<seq<Wire>>)
    returns (sent: seq<seq<string>>, ghost log: Log)
    requires server.Represents(s) && forall n :: clock(n) < INT64_LIMIT
    requires Distinct(conns) && |streams| == |conns| == |clients| && forall i :: 0 <= i < |conns| ==> conns[i].Stands(server, "")
    requires forall t :: 0 <= t < |turns| ==> turns[t].conn < |conns|
    requires forall i :: 0 <= i < |clients| ==> streams[i] == Texts(FramesOf(clients[i]))
    requires forall i, w :: 0 <= i < |clients| && w in clients[i] ==> WellFormed(w)
    modifies server.Repr, conns, ReadBufs(conns), WriteBufs(conns)
    ensures fresh(server.Repr - old(server.Repr)) && server.Represents(log.store)
    ensures Session(Faithful, Exchanges(log.tr), clock, s, log.store)
    ensures |sent| == |clients| && forall i :: 0 <= i < |clients| ==> ClientServed(log, sent[i], turns, i, clients[i])
    ensures StoreUnquoted(s) ==> forall x :: x in Exchanges(log.tr) ==> BytesTell(x)
  {
    ParseIsParse();
    FaithfulIsRule();
    sent, log := ServeAll(server, conns, streams, turns, clock, s, Parse, Faithful);
    forall i | 0 <= i < |clients| ensures ClientServed(log, sent[i], turns, i, clients[i]) {
      ClientIsServed(streams, turns, log, sent, clock, s, i, clients[i]);
    }
    SessionTells(Faithful, Exchanges(log.tr), clock, s, log.store);
  }
}
