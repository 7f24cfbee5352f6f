/** Dispatch of parsed requests, and the loop that drains a connection's buffer through it. */
module RequestLoop {
  import opened Buffers
  import opened CInts
  import opened Handlers
  import opened HttpParse
  import opened Listing
  import opened ListingOrder
  import opened LockServer
  import opened LockStore
  import opened ProbeTable
  import opened Responses

  /** The store and the answer a request must produce; `Dispatch` adds the order of a listing. */
  ghost predicate Answers(s: Store, req: Request, now: nat, s': Store, a: Answer) {
    match (req.verb, req.path)
    case (Post, LockPath) =>
      (match PostOp(req.body, now)
       case None => s' == s && a == WithBody(HTTP_400, BAD_REQUEST)
       case Some(op) => s' == Step(s, op).0 && a == LockAnswer(op, Step(s, op).1))
    case (Post, UnlockPath) =>
      (match UnlockOp(req.body)
       case None => s' == s && a == WithBody(HTTP_400, BAD_REQUEST)
       case Some(op) => s' == Step(s, op).0 && a == UnlockAnswer(Step(s, op).1.status))
    case (Get, LocksPath) =>
      s' == s && a.WithBody? && a.status == HTTP_200 && exists es, k :: IsListing(a.body, s, es, k)
    case (Get, HealthzPath) =>
      s' == s && a == Healthy
    case (_, _) =>
      s' == s && a == WithBody(HTTP_404, "not found")
  }

  /** `process_request`: the handler's answer and the new state. */
  method Dispatch(server: Server, ghost s: Store, req: Request, now: nat) returns (a: Answer, ghost s': Store)
    requires server.Represents(s) && now < INT64_LIMIT
    modifies server.Repr
    ensures fresh(server.Repr - old(server.Repr))
    ensures server.Represents(s') && Answers(s, req, now, s', a)
    ensures req.verb == Get && req.path == LocksPath ==> a.WithBody? && exists k :: IsListing(a.body, s, InSlotOrder(server), k)
  {
    match (req.verb, req.path) {
      case (Post, LockPath) =>
        a := HandlePostLock(server, s, req.body, now);
        s' := match PostOp(req.body, now) case None => s case Some(op) => Step(s, op).0;
      case (Post, UnlockPath) =>
        a := HandleUnlock(server, s, req.body);
        s' := match UnlockOp(req.body) case None => s case Some(op) => Step(s, op).0;
      case (Get, LocksPath) =>
        ghost var es, k;
        a, es, k := HandleGetLocks(server, s);
        s' := s;
      case (Get, HealthzPath) =>
        a, s' := Healthy, s;
      case (_, _) =>
        a, s' := WithBody(HTTP_404, "not found"), s;
    }
  }

  lemma ListedAreSmall(s: Store, es: seq<Entry>)
    requires Sized(s) && Lists(AsLocks(es), s)
    ensures forall e :: e in es ==> Small(e)
  {
    forall e | e in es ensures Small(e) {
      var i :| 0 <= i < |es| && es[i] == e;
      assert AsLocks(es)[i] == AsLock(e);
    }
  }

  /** In every state the names are bounded, so every answer fits the buffers it is built in. */
  lemma AnswersFit(s: Store, req: Request, now: nat, s': Store, a: Answer)
    requires Sized(s) && Answers(s, req, now, s', a)
    ensures FitsBuffers(a)
  {
    StatusLines();
    match (req.verb, req.path) {
      case (Post, LockPath) =>
        if PostOp(req.body, now).Some? {
          LockTextFits(PostOp(req.body, now).value, Step(s, PostOp(req.body, now).value).1);
        }
      case (Post, UnlockPath) =>
        if UnlockOp(req.body).Some? {
          UnlockTextFits(Step(s, UnlockOp(req.body).value).1.status);
        }
      case (Get, LocksPath) =>
        var es, k :| IsListing(a.body, s, es, k);
        ListedAreSmall(s, es);
        StampIsStamp();
        ItemsSmall(Stamp, es);
        ListingBounds(Items(Stamp, es), k);
      case (_, _) =>
    }
  }

  /** Writes an answer into the 8192-byte response buffer. */
  method Reply(a: Answer, buf: array<char>) returns (n: nat)
    requires FitsBuffers(a) && buf.Length == WRITE_BUF_SIZE
    modifies buf
    ensures n <= buf.Length && buf[..n] == AnswerText(a)
  {
    match a {
      case WithBody(status, body) => n := BuildResponse(buf, status, body);
      case NoBody(status) => n := BuildEmptyResponse(buf, status);
      case Healthy => n := Put(buf, 0, RESP_HEALTHZ);
    }
  }

  /** Answers one request through the response buffer. */
  method Process(server: Server, ghost s: Store, req: Request, now: nat, buf: array<char>)
    returns (reply: string, ghost s': Store, ghost a: Answer)
    requires server.Represents(s) && now < INT64_LIMIT
    requires buf.Length == WRITE_BUF_SIZE && buf !in server.Repr
    modifies buf, server.Repr
    ensures fresh(server.Repr - old(server.Repr))
    ensures server.Represents(s') && Answers(s, req, now, s', a) && reply == AnswerText(a)
  {
    var answer;
    answer, s' := Dispatch(server, s, req, now);
    a := answer;
    AnswersFit(s, req, now, s', a);
    var n := Reply(answer, buf);
    reply := buf[..n];
  }
}
