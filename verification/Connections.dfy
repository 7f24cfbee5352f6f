/**
 The C server's connection: a fixed read buffer drained in place, request by request,
 with the handlers working on the shared tables.
 */
module Connections {
  import opened Buffers
  import opened CInts
  import opened ConnectionModel
  import opened Handlers
  import opened HttpParse
  import opened LockRuns
  import opened LockServer
  import opened LockStore
  import opened RequestLoop
  import opened Responses
  import opened Wrappers

  /** `memmove(buf, buf + from, n)`. */
  method MoveDown(buf: array<char>, from: nat, n: nat)
    requires from + n <= buf.Length
    modifies buf
    ensures buf[..n] == old(buf[from..from + n])
  {
    for i := 0 to n
      invariant forall k :: 0 <= k < i ==> buf[k] == old(buf[from + k])
      invariant forall k :: i <= k < buf.Length ==> buf[k] == old(buf[k])
    {
      buf[i] := buf[from + i];
    }
  }

  ghost predicate AgreesAt(parse: Parser, s: string) {
    parse(s) == Parse(s)
  }

  /** `parse` is the server's request parser. */
  ghost predicate IsParse(parse: Parser) {
    Stable(parse) && forall s :: AgreesAt(parse, s)
  }

  lemma ParseIsParse()
    ensures IsParse(Parse)
  {
    ParseIsStable();
    assert forall s :: AgreesAt(Parse, s);
  }

  method ParseUnread(ghost parse: Parser, s: string) returns (r: Parsed)
    requires IsParse(parse)
    ensures r == parse(s) && (r.Complete? ==> 0 < r.total <= |s|)
  {
    r := ParseRequest(s);
    assert AgreesAt(parse, s);
  }

  /** One answered request: the clock reading, the store before and after, the answer and its bytes. */
  datatype Exchange = Exchange(req: Request, now: nat, before: Store, after: Store, answer: Answer, reply: string)

  type Rule = Exchange -> bool

  ghost predicate Faithful(x: Exchange) {
    Answers(x.before, x.req, x.now, x.after, x.answer) && x.reply == AnswerText(x.answer)
  }

  ghost predicate RulesAt(rule: Rule, x: Exchange) {
    rule(x) <==> Faithful(x)
  }

  /** `rule` says which exchanges the handlers may produce. */
  ghost predicate IsRule(rule: Rule) {
    forall x :: RulesAt(rule, x)
  }

  /** A run of exchanges that leads the single-map store from `s` to `s'`, reading the clock once each. */
  ghost predicate Session(rule: Rule, tr: seq<Exchange>, clock: nat -> nat, s: Store, s': Store) {
    if tr == [] then s == s'
    else
      var n := |tr| - 1;
      && tr[n].after == s' && tr[n].now == clock(n) && rule(tr[n])
      && Session(rule, tr[..n], clock, s, tr[n].before)
  }

  function Requests(tr: seq<Exchange>): (r: seq<Request>) {
    if tr == [] then [] else Requests(tr[..|tr| - 1]) + [tr[|tr| - 1].req]
  }

  /** The response bytes of a run. */
  function ReplyBytes(tr: seq<Exchange>): (r: seq<string>)
    ensures |r| == |tr|
  {
    if tr == [] then [] else ReplyBytes(tr[..|tr| - 1]) + [tr[|tr| - 1].reply]
  }

  lemma TraceSnoc(tr: seq<Exchange>, x: Exchange)
    ensures Requests(tr + [x]) == Requests(tr) + [x.req] && ReplyBytes(tr + [x]) == ReplyBytes(tr) + [x.reply]
  {
    assert (tr + [x])[..|tr|] == tr;
  }

  lemma SessionSnoc(rule: Rule, tr: seq<Exchange>, clock: nat -> nat, s: Store, x: Exchange)
    requires Session(rule, tr, clock, s, x.before) && rule(x) && x.now == clock(|tr|)
    ensures Session(rule, tr + [x], clock, s, x.after)
  {
    assert (tr + [x])[..|tr|] == tr;
  }

  /** `later` is `clock` from its reading `n` on. */
  ghost predicate Continues(later: nat -> nat, clock: nat -> nat, n: nat) {
    forall i :: later(i) == clock(n + i)
  }

  function From(clock: nat -> nat, n: nat): (later: nat -> nat)
    ensures Continues(later, clock, n)
  {
    (i: nat) => clock(n + i)
  }

  lemma {:induction false} RequestsAppend(tr: seq<Exchange>, more: seq<Exchange>)
    ensures Requests(tr + more) == Requests(tr) + Requests(more)
    decreases |more|
  {
    if more == [] {
      assert tr + more == tr;
    } else {
      var n := |more| - 1;
      RequestsAppend(tr, more[..n]);
      assert (tr + more)[..|tr| + n] == tr + more[..n];
    }
  }

  lemma {:induction false} RepliesAppend(tr: seq<Exchange>, more: seq<Exchange>)
    ensures ReplyBytes(tr + more) == ReplyBytes(tr) + ReplyBytes(more)
    decreases |more|
  {
    if more == [] {
      assert tr + more == tr;
    } else {
      var n := |more| - 1;
      RepliesAppend(tr, more[..n]);
      assert (tr + more)[..|tr| + n] == tr + more[..n];
    }
  }

  /** Two sessions in succession are one session. */
  lemma {:induction false} SessionAppend(rule: Rule, tr: seq<Exchange>, more: seq<Exchange>, clock: nat -> nat,
                                         later: nat -> nat, s: Store, mid: Store, s': Store)
    requires Session(rule, tr, clock, s, mid) && Session(rule, more, later, mid, s') && Continues(later, clock, |tr|)
    ensures Session(rule, tr + more, clock, s, s')
    decreases |more|
  {
    if more == [] {
      assert tr + more == tr;
    } else {
      var n := |more| - 1;
      SessionAppend(rule, tr, more[..n], clock, later, s, mid, more[n].before);
      SessionSnoc(rule, tr + more[..n], clock, s, more[n]);
      assert tr + more == tr + more[..n] + [more[n]];
    }
  }

  /** Draining `start` has produced `reqs` and has still to drain `unread`. */
  ghost predicate Draining(parse: Parser, start: string, reqs: seq<Request>, unread: string)
    requires Stable(parse)
  {
    var rest := DrainAll(parse, unread);
    DrainAll(parse, start) == (reqs + rest.0, rest.1)
  }

  lemma DrainingStart(parse: Parser, start: string)
    requires Stable(parse)
    ensures Draining(parse, start, [], start)
  {
    assert [] + DrainAll(parse, start).0 == DrainAll(parse, start).0;
  }

  lemma DrainingDone(parse: Parser, start: string, reqs: seq<Request>, unread: string)
    requires Stable(parse) && Draining(parse, start, reqs, unread)
    requires unread == "" || !parse(unread).Complete?
    ensures DrainAll(parse, start) == (reqs, unread)
  {
    assert InBounds(parse, unread);
    assert reqs + [] == reqs;
  }

  lemma DrainingStep(parse: Parser, start: string, reqs: seq<Request>, unread: string)
    requires Stable(parse) && Draining(parse, start, reqs, unread) && parse(unread).Complete?
    ensures 0 < parse(unread).total <= |unread|
    ensures Draining(parse, start, reqs + [parse(unread).req], unread[parse(unread).total..])
  {
    assert InBounds(parse, unread);
    var rest := DrainAll(parse, unread[parse(unread).total..]);
    assert reqs + ([parse(unread).req] + rest.0) == reqs + [parse(unread).req] + rest.0;
  }

  class Connection {
    const readBuf: array<char>
    const writeBuf: array<char>
    var readPos: nat

    ghost predicate Valid()
      reads this
    {
      && readBuf.Length == READ_BUF_SIZE && writeBuf.Length == WRITE_BUF_SIZE && readBuf != writeBuf
      && readPos <= READ_BUF_SIZE
    }

    constructor ()
      ensures Valid() && readPos == 0 && fresh(readBuf) && fresh(writeBuf)
    {
      readBuf := new char[READ_BUF_SIZE](_ => ' ');
      writeBuf := new char[WRITE_BUF_SIZE](_ => ' ');
      readPos := 0;
    }

    function Unread(): (s: string)
      requires Valid()
      reads this, readBuf
    {
      readBuf[..readPos]
    }

    /** Drops the first `n` unread bytes and moves the rest to the front. */
    method Consume(n: nat)
      requires Valid() && n <= readPos
      modifies this`readPos, readBuf
      ensures Valid() && Unread() == old(Unread())[n..]
    {
      var rem := readPos - n;
      ghost var before := readBuf[..];
      if rem > 0 {
        MoveDown(readBuf, n, rem);
      }
      readPos := rem;
      assert Unread() == before[n..n + rem];
    }

    /** `recv` into the free space behind the unread bytes. */
    method Append(chunk: string)
      requires Valid() && readPos + |chunk| <= READ_BUF_SIZE
      modifies this`readPos, readBuf
      ensures Valid() && Unread() == old(Unread()) + chunk
    {
      readPos := Put(readBuf, readPos, chunk);
    }

    /** One round of the inner loop: the request is answered and taken off the buffer. */
    method AnswerNext(server: Server, ghost s: Store, req: Request, total: nat, now: nat, ghost rule: Rule)
      returns (reply: string, ghost x: Exchange)
      requires Valid() && total <= readPos && server.Represents(s) && now < INT64_LIMIT && IsRule(rule)
      requires this !in server.Repr && readBuf !in server.Repr && writeBuf !in server.Repr
      modifies this`readPos, readBuf, writeBuf, server.Repr
      ensures Valid() && Unread() == old(Unread())[total..]
      ensures fresh(server.Repr - old(server.Repr))
      ensures rule(x) && x.before == s && x.req == req && x.now == now && x.reply == reply
      ensures server.Represents(x.after)
    {
      reply, x := ProcessByRule(server, s, req, now, writeBuf, rule);
      Consume(total);
    }

    /** The connection and its buffers are not part of the server. */
    ghost predicate ApartFrom(server: Server)
      reads server
    {
      this !in server.Repr && readBuf !in server.Repr && writeBuf !in server.Repr
    }

    /** All that has been received is `start`, and the requests `reqs` of it have been answered. */
    ghost predicate Served(parse: Parser, start: string, reqs: seq<Request>)
      reads this, readBuf
    {
      Valid() && Stable(parse) && Draining(parse, start, reqs, Unread())
    }

    /** The connection is in order and has `unread` in its buffer. */
    ghost predicate Stands(server: Server, unread: string)
      reads this, readBuf, server
    {
      ApartFrom(server) && Valid() && Unread() == unread
    }

    /**
     One round: parse, answer, and move the rest of the buffer down; or find nothing complete. The
     store `s` is whatever the requests of this and other connections have made of it.
     */
    method AnswerFirst(server: Server, ghost parse: Parser, ghost rule: Rule, now: nat, ghost unread: string, ghost s: Store)
      returns (taken: bool, reply: string, ghost x: Exchange)
      requires IsParse(parse) && IsRule(rule) && now < INT64_LIMIT
      requires Stands(server, unread) && server.Represents(s)
      modifies this`readPos, readBuf, writeBuf, server.Repr
      ensures fresh(server.Repr - old(server.Repr)) && taken == parse(unread).Complete?
      ensures taken ==> 0 < parse(unread).total <= |unread| && x.req == parse(unread).req
      ensures Stands(server, if taken then unread[parse(unread).total..] else unread)
      ensures x.before == s && server.Represents(x.after)
      ensures if taken then rule(x) && x.now == now && x.reply == reply else x.after == s
    {
      taken, reply := false, "";
      x := Exchange(Request(Get, UnknownPath, ""), now, s, s, Healthy, "");
      var r := ParseUnread(parse, Unread());
      if r.Complete? {
        reply, x := AnswerNext(server, s, r.req, r.total, now, rule);
        taken := true;
      }
    }

    /** The state of the inner loop after the exchanges `tr`, which began with `start` unread and store `s`. */
    ghost predicate Running(server: Server, parse: Parser, rule: Rule, clock: nat -> nat,
                            start: string, s: Store, tr: seq<Exchange>, s': Store)
      reads this, readBuf, server, server.Repr
    {
      && ApartFrom(server) && Served(parse, start, Requests(tr))
      && Session(rule, tr, clock, s, s') && server.Represents(s')
    }

    /** One round as a step of a session on this connection alone. */
    method Round(server: Server, ghost parse: Parser, ghost rule: Rule, clock: nat -> nat, n: nat,
                 ghost start: string, ghost s: Store, ghost tr: seq<Exchange>, ghost s': Store)
      returns (taken: bool, reply: string, ghost tr': seq<Exchange>, ghost s'': Store)
      requires IsParse(parse) && IsRule(rule) && clock(n) < INT64_LIMIT && n == |tr|
      requires Running(server, parse, rule, clock, start, s, tr, s')
      modifies this`readPos, readBuf, writeBuf, server.Repr
      ensures fresh(server.Repr - old(server.Repr))
      ensures Running(server, parse, rule, clock, start, s, tr', s'')
      ensures taken ==> readPos < old(readPos) && |tr'| == n + 1 && ReplyBytes(tr') == ReplyBytes(tr) + [reply]
      ensures !taken ==> tr' == tr && !parse(Unread()).Complete?
    {
      ghost var x;
      ghost var unread := Unread();
      taken, reply, x := AnswerFirst(server, parse, rule, clock(n), unread, s');
      tr', s'' := tr, s';
      if taken {
        DrainingStep(parse, start, Requests(tr), unread);
        SessionSnoc(rule, tr, clock, s, x);
        TraceSnoc(tr, x);
        tr', s'' := tr + [x], x.after;
      }
    }

    /**
     The inner loop: every complete request in the buffer is answered in order, each through the
     single-map store, and the incomplete rest stays.
     */
    method Drain(server: Server, ghost s: Store, clock: nat -> nat, ghost parse: Parser, ghost rule: Rule)
      returns (replies: seq<string>, ghost tr: seq<Exchange>, ghost s': Store)
      requires Valid() && IsParse(parse) && IsRule(rule)
      requires server.Represents(s) && forall n :: clock(n) < INT64_LIMIT
      requires this !in server.Repr && readBuf !in server.Repr && writeBuf !in server.Repr
      modifies this`readPos, readBuf, writeBuf, server.Repr
      ensures Valid() && fresh(server.Repr - old(server.Repr))
      ensures (Requests(tr), Unread()) == DrainAll(parse, old(Unread()))
      ensures Session(rule, tr, clock, s, s') && server.Represents(s') && replies == ReplyBytes(tr)
    {
      replies, tr, s' := [], [], s;
      ghost var start := Unread();
      DrainingStart(parse, start);
      var more := true;
      while readPos > 0 && more
        invariant fresh(server.Repr - old(server.Repr))
        invariant Running(server, parse, rule, clock, start, s, tr, s')
        invariant replies == ReplyBytes(tr)
        invariant !more ==> !parse(Unread()).Complete?
        decreases readPos, more
      {
        var reply;
        more, reply, tr, s' := Round(server, parse, rule, clock, |replies|, start, s, tr, s');
        if more {
          replies := replies + [reply];
        }
      }
      DrainingDone(parse, start, Requests(tr), Unread());
    }

    /** One `recv` of `chunk` and what follows it: the parse loop and the full-buffer check. */
    method Receive(server: Server, ghost s: Store, chunk: string, clock: nat -> nat,
                   ghost parse: Parser, ghost rule: Rule)
      returns (replies: seq<string>, closed: bool, ghost tr: seq<Exchange>, ghost s': Store)
      requires Valid() && 0 < |chunk| <= READ_BUF_SIZE - readPos && IsParse(parse) && IsRule(rule)
      requires server.Represents(s) && forall n :: clock(n) < INT64_LIMIT
      requires this !in server.Repr && readBuf !in server.Repr && writeBuf !in server.Repr
      modifies this`readPos, readBuf, writeBuf, server.Repr
      ensures Valid() && fresh(server.Repr - old(server.Repr))
      ensures Conn(Requests(tr), Unread(), !closed) == Feed(parse, Conn([], old(Unread()), true), chunk)
      ensures Session(rule, tr, clock, s, s') && server.Represents(s') && replies == ReplyBytes(tr)
    {
      Append(chunk);
      replies, tr, s' := Drain(server, s, clock, parse, rule);
      assert [] + Requests(tr) == Requests(tr);
      closed := readPos >= READ_BUF_SIZE;
    }

    /** The state of the read loop after the exchanges `tr`, with `chunks` still to come. */
    ghost predicate Reading(server: Server, parse: Parser, rule: Rule, clock: nat -> nat, c: Conn, chunks: seq<string>,
                            s: Store, tr: seq<Exchange>, s': Store, closed: bool, goal: Conn)
      reads this, readBuf, server, server.Repr
    {
      && Valid() && this !in server.Repr && readBuf !in server.Repr && writeBuf !in server.Repr
      && Stable(parse) && c == Conn(Requests(tr), Unread(), !closed)
      && Fits(parse, c, chunks) && Run(parse, c, chunks) == goal
      && Session(rule, tr, clock, s, s') && server.Represents(s')
    }

    /** One turn of the read loop. */
    method ServeNext(server: Server, chunks: seq<string>, clock: nat -> nat, ghost parse: Parser, ghost rule: Rule,
                     ghost c: Conn, ghost s: Store, n: nat, ghost tr: seq<Exchange>, ghost s': Store, ghost goal: Conn)
      returns (replies: seq<string>, closed: bool, ghost c': Conn, ghost tr': seq<Exchange>, ghost s'': Store)
      requires chunks != [] && n == |tr| && IsParse(parse) && IsRule(rule) && forall n :: clock(n) < INT64_LIMIT
      requires Reading(server, parse, rule, clock, c, chunks, s, tr, s', false, goal)
      modifies this`readPos, readBuf, writeBuf, server.Repr
      ensures fresh(server.Repr - old(server.Repr))
      ensures Reading(server, parse, rule, clock, c', chunks[1..], s, tr', s'', closed, goal)
      ensures |tr'| == n + |replies| && ReplyBytes(tr') == ReplyBytes(tr) + replies
    {
      var later := From(clock, n);
      ghost var more;
      replies, closed, more, s'' := Receive(server, s', chunks[0], later, parse, rule);
      SessionAppend(rule, tr, more, clock, later, s, s', s'');
      RequestsAppend(tr, more);
      RepliesAppend(tr, more);
      tr' := tr + more;
      c' := Feed(parse, c, chunks[0]);
      FeedOnTop(parse, c, chunks[0]);
    }

    /**
     The read loop over all the chunks of a connection: it ends as the connection model says, having
     answered every request in one session with the single-map store.
     */
    method Serve(server: Server, ghost s: Store, chunks: seq<string>, clock: nat -> nat,
                 ghost parse: Parser, ghost rule: Rule)
      returns (replies: seq<string>, closed: bool, ghost tr: seq<Exchange>, ghost s': Store)
      requires Valid() && IsParse(parse) && IsRule(rule) && Fits(parse, Conn([], Unread(), true), chunks)
      requires server.Represents(s) && forall n :: clock(n) < INT64_LIMIT
      requires this !in server.Repr && readBuf !in server.Repr && writeBuf !in server.Repr
      modifies this`readPos, readBuf, writeBuf, server.Repr
      ensures Valid() && fresh(server.Repr - old(server.Repr))
      ensures Conn(Requests(tr), Unread(), !closed) == Run(parse, Conn([], old(Unread()), true), chunks)
      ensures Session(rule, tr, clock, s, s') && server.Represents(s') && replies == ReplyBytes(tr)
    {
      replies, closed, tr, s' := [], false, [], s;
      ghost var c := Conn([], Unread(), true);
      ghost var goal := Run(parse, c, chunks);
      var rest := chunks;
      while rest != []
        invariant fresh(server.Repr - old(server.Repr))
        invariant Reading(server, parse, rule, clock, c, rest, s, tr, s', closed, goal)
        invariant |replies| == |tr| && replies == ReplyBytes(tr)
        decreases |rest|
      {
        var sent;
        sent, closed, c, tr, s' := ServeNext(server, rest, clock, parse, rule, c, s, |replies|, tr, s', goal);
        replies := replies + sent;
        rest := rest[1..];
      }
    }
  }

  /** What was handled before does not matter to a read. */
  lemma FeedOnTop(parse: Parser, c: Conn, chunk: string)
    requires Stable(parse)
    ensures var r := Feed(parse, Conn([], c.buf, true), chunk);
      Feed(parse, c, chunk) == Conn(c.handled + r.handled, r.buf, r.open)
  {
    var r := DrainAll(parse, c.buf + chunk);
    assert [] + r.0 == r.0;
  }

  method ProcessByRule(server: Server, ghost s: Store, req: Request, now: nat, buf: array<char>, ghost rule: Rule)
    returns (reply: string, ghost x: Exchange)
    requires server.Represents(s) && now < INT64_LIMIT && IsRule(rule)
    requires buf.Length == WRITE_BUF_SIZE && buf !in server.Repr
    modifies buf, server.Repr
    ensures fresh(server.Repr - old(server.Repr))
    ensures rule(x) && x.before == s && x.req == req && x.now == now && x.reply == reply
    ensures server.Represents(x.after)
  {
    ghost var s', a;
    reply, s', a := Process(server, s, req, now, buf);
    x := Exchange(req, now, s, s', a, reply);
    assert RulesAt(rule, x);
  }

  lemma FaithfulIsRule()
    ensures IsRule(Faithful)
  {
    assert forall x :: RulesAt(Faithful, x);
  }

  /** The store operation a request amounts to, if any. */
  function RequestOp(req: Request, now: nat): (op: Option<Op>) {
    if req.verb == Post && req.path == LockPath then PostOp(req.body, now)
    else if req.verb == Post && req.path == UnlockPath then UnlockOp(req.body)
    else None
  }

  lemma ExchangeIsStep(x: Exchange)
    requires Faithful(x)
    ensures var op := RequestOp(x.req, x.now);
      x.after == if op.None? then x.before else Step(x.before, op.value).0
  {
  }

  /**
   Mutual exclusion at the socket: in a session of the C server a holder loses its key only by
   its own `/unlock` or by somebody else's forced `/lock`.
   */
  lemma {:induction false} SessionTenure(tr: seq<Exchange>, clock: nat -> nat, s: Store, s': Store,
                                         key: string, lockee: string) returns (k: nat)
    requires Session(Faithful, tr, clock, s, s')
    requires HeldBy(s, key, lockee) && !HeldBy(s', key, lockee)
    ensures k < |tr| && HeldBy(tr[k].before, key, lockee) && RequestOp(tr[k].req, tr[k].now).Some?
    ensures EndsTenure(RequestOp(tr[k].req, tr[k].now).value, key, lockee)
    decreases |tr|
  {
    var n := |tr| - 1;
    if HeldBy(tr[n].before, key, lockee) {
      k := n;
      ExchangeIsStep(tr[n]);
      StepEndsTenure(tr[n].before, RequestOp(tr[n].req, tr[n].now).value, key, lockee);
    } else {
      k := SessionTenure(tr[..n], clock, s, tr[n].before, key, lockee);
    }
  }
}
