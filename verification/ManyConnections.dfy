/**
 Many connections on one C server. Worker threads take turns in any order: a connection receives
 some bytes, or has its next complete request answered. Every answer is one exchange with the
 store that all connections share.
 */
module ManyConnections {
  import opened CInts
  import opened ConnectionModel
  import opened Connections
  import opened HttpParse
  import opened LockServer
  import opened LockStore
  import opened Schedules
  import opened Wrappers

  /** An exchange and the connection it belongs to. */
  datatype Tagged = Tagged(conn: nat, x: Exchange)

  /** All exchanges, in the order in which they took place. */
  function Exchanges(tr: seq<Tagged>): (r: seq<Exchange>)
    ensures |r| == |tr| && forall i :: 0 <= i < |tr| ==> r[i] == tr[i].x
  {
    seq(|tr|, i requires 0 <= i < |tr| => tr[i].x)
  }

  /** Those of connection `i`. */
  function Own(tr: seq<Tagged>, i: nat): (r: seq<Exchange>) {
    if tr == [] then []
    else Own(tr[..|tr| - 1], i) + (if tr[|tr| - 1].conn == i then [tr[|tr| - 1].x] else [])
  }

  lemma OwnSnoc(tr: seq<Tagged>, t: Tagged, i: nat)
    ensures Own(tr + [t], i) == Own(tr, i) + (if t.conn == i then [t.x] else [])
  {
    assert (tr + [t])[..|tr|] == tr;
  }

  lemma ExchangesSnoc(rule: Rule, tr: seq<Tagged>, clock: nat -> nat, s: Store, i: nat, x: Exchange)
    requires Session(rule, Exchanges(tr), clock, s, x.before) && rule(x) && x.now == clock(|tr|)
    ensures Session(rule, Exchanges(tr + [Tagged(i, x)]), clock, s, x.after)
  {
    SessionSnoc(rule, Exchanges(tr), clock, s, x);
    assert Exchanges(tr + [Tagged(i, x)]) == Exchanges(tr) + [x];
  }

  /** The connections are different objects with buffers of their own. */
  ghost predicate Distinct(conns: seq<Connection>) {
    forall i, j :: 0 <= i < |conns| && 0 <= j < |conns| && i != j ==>
      && conns[i] != conns[j] && conns[i].readBuf != conns[j].readBuf
      && conns[i].readBuf != conns[j].writeBuf
  }

  ghost function ReadBufs(conns: seq<Connection>): (r: set<array<char>>) {
    set i | 0 <= i < |conns| :: conns[i].readBuf
  }

  ghost function WriteBufs(conns: seq<Connection>): (r: set<array<char>>) {
    set i | 0 <= i < |conns| :: conns[i].writeBuf
  }

  /** Each connection has in its buffer what its view says. */
  ghost predicate InOrder(server: Server, conns: seq<Connection>, views: seq<View>)
    reads server, conns, ReadBufs(conns)
  {
    && Distinct(conns) && |views| == |conns|
    && (forall i :: 0 <= i < |conns| ==> conns[i].Stands(server, views[i].unread))
  }

  /** `recv` into the free space of one connection, from what its client has sent. */
  method ReceiveTurn(ghost server: Server, ghost conns: seq<Connection>, ghost i: nat, conn: Connection, stream: string,
                     at: nat, turn: Turn, ghost parse: Parser, ghost views: seq<View>)
    returns (at': nat)
    requires i < |conns| && conn == conns[i] && InOrder(server, conns, views) && turn.Recv?
    requires Stable(parse) && Sane(stream, views[i]) && at == views[i].pos
    modifies conn`readPos, conn.readBuf
    ensures at' == NextView(parse, stream, views[i], turn).pos
    ensures InOrder(server, conns, views[i := NextView(parse, stream, views[i], turn)])
  {
    var space, rest := READ_BUF_SIZE - conn.readPos, |stream| - at;
    var n := if turn.size <= space && turn.size <= rest then turn.size else if space <= rest then space else rest;
    conn.Append(stream[at..at + n]);
    at' := at + n;
  }

  /** One request of one connection, if a complete one is there. */
  method AnswerTurn(server: Server, ghost conns: seq<Connection>, ghost i: nat, conn: Connection, ghost stream: string,
                    now: nat, ghost turn: Turn, ghost parse: Parser, ghost rule: Rule, ghost views: seq<View>, ghost s: Store)
    returns (taken: bool, reply: string, ghost x: Exchange)
    requires i < |conns| && conn == conns[i] && InOrder(server, conns, views) && turn.Answer?
    requires server.Represents(s) && IsParse(parse) && IsRule(rule) && now < INT64_LIMIT && Sane(stream, views[i])
    modifies conn`readPos, conn.readBuf, conn.writeBuf, server.Repr
    ensures fresh(server.Repr - old(server.Repr))
    ensures taken == parse(views[i].unread).Complete? && (taken ==> x.req == parse(views[i].unread).req)
    ensures x.before == s && server.Represents(x.after)
    ensures if taken then rule(x) && x.now == now && x.reply == reply else x.after == s
    ensures InOrder(server, conns, views[i := NextView(parse, stream, views[i], turn)])
  {
    taken, reply, x := conn.AnswerFirst(server, parse, rule, now, views[i].unread, s);
  }

  /** The record of a schedule: all exchanges, how far each connection has come, and the store. */
  datatype Log = Log(tr: seq<Tagged>, views: seq<View>, store: Store)

  /** Where the server and its connections stand. */
  ghost predicate Standing(server: Server, conns: seq<Connection>, clock: nat -> nat, s: Store, rule: Rule, log: Log)
    reads server, server.Repr, conns, ReadBufs(conns)
  {
    && InOrder(server, conns, log.views) && server.Represents(log.store)
    && Session(rule, Exchanges(log.tr), clock, s, log.store)
  }

  /** What connection `i` has answered and been sent is its own part of the exchanges; its view is due to its own turns. */
  ghost predicate RecordedFor(parse: Parser, stream: string, turns: seq<Turn>, tr: seq<Tagged>, v: View, sent: seq<string>, i: nat)
    requires Stable(parse)
  {
    && v == Seen(parse, stream, Mine(turns, i))
    && v.answered == Requests(Own(tr, i)) && sent == ReplyBytes(Own(tr, i))
  }

  ghost predicate Recorded(parse: Parser, streams: seq<string>, turns: seq<Turn>, log: Log, sent: seq<seq<string>>)
    requires Stable(parse)
  {
    && |log.views| == |streams| == |sent|
    && (forall i :: 0 <= i < |sent| ==> RecordedFor(parse, streams[i], turns, log.tr, log.views[i], sent[i], i))
  }

  /** The record after a turn, with the exchange that answered it, if any. */
  ghost function Advance(parse: Parser, stream: string, log: Log, turn: Turn, answer: Option<Exchange>): (log': Log)
    requires Stable(parse) && turn.conn < |log.views| && Sane(stream, log.views[turn.conn])
  {
    Log(if answer.Some? then log.tr + [Tagged(turn.conn, answer.value)] else log.tr,
        log.views[turn.conn := NextView(parse, stream, log.views[turn.conn], turn)],
        if answer.Some? then answer.value.after else log.store)
  }

  function Sent(sent: seq<seq<string>>, turn: Turn, reply: Option<string>): (sent': seq<seq<string>>)
    requires turn.conn < |sent|
    ensures |sent'| == |sent|
  {
    if reply.Some? then sent[turn.conn := sent[turn.conn] + [reply.value]] else sent
  }

  /** A turn is answered exactly if it is meant to answer and a complete request is there. */
  ghost predicate AnswersTurn(parse: Parser, v: View, turn: Turn, answer: Option<Exchange>, reply: Option<string>) {
    && (answer.Some? <==> turn.Answer? && parse(v.unread).Complete?)
    && (reply.Some? <==> answer.Some?)
    && (answer.Some? ==> answer.value.req == parse(v.unread).req && answer.value.reply == reply.value)
  }

  lemma RecordedForSnoc(parse: Parser, stream: string, turns: seq<Turn>, tr: seq<Tagged>, v: View, sent: seq<string>, i: nat,
                        turn: Turn, answer: Option<Exchange>, reply: Option<string>)
    requires Stable(parse) && RecordedFor(parse, stream, turns, tr, v, sent, i) && turn.conn == i
    requires AnswersTurn(parse, v, turn, answer, reply)
    ensures RecordedFor(parse, stream, turns + [turn],
      if answer.Some? then tr + [Tagged(i, answer.value)] else tr, NextView(parse, stream, v, turn),
      if reply.Some? then sent + [reply.value] else sent, i)
  {
    MineSnoc(turns, turn, i);
    SeenSnoc(parse, stream, Mine(turns, i), turn);
    if answer.Some? {
      OwnSnoc(tr, Tagged(i, answer.value), i);
      TraceSnoc(Own(tr, i), answer.value);
    }
  }

  lemma RecordedForOthers(parse: Parser, stream: string, turns: seq<Turn>, tr: seq<Tagged>, v: View, sent: seq<string>, j: nat,
                          turn: Turn, answer: Option<Exchange>)
    requires Stable(parse) && RecordedFor(parse, stream, turns, tr, v, sent, j) && turn.conn != j
    ensures RecordedFor(parse, stream, turns + [turn],
      if answer.Some? then tr + [Tagged(turn.conn, answer.value)] else tr, v, sent, j)
  {
    MineSnoc(turns, turn, j);
    if answer.Some? {
      OwnSnoc(tr, Tagged(turn.conn, answer.value), j);
      assert Own(tr, j) + [] == Own(tr, j);
    }
  }

  lemma RecordedSnoc(parse: Parser, streams: seq<string>, turns: seq<Turn>, log: Log, sent: seq<seq<string>>,
                     turn: Turn, answer: Option<Exchange>, reply: Option<string>)
    requires Stable(parse) && Recorded(parse, streams, turns, log, sent) && turn.conn < |sent|
    requires Sane(streams[turn.conn], log.views[turn.conn]) && AnswersTurn(parse, log.views[turn.conn], turn, answer, reply)
    ensures Recorded(parse, streams, turns + [turn], Advance(parse, streams[turn.conn], log, turn, answer), Sent(sent, turn, reply))
  {
    var i := turn.conn;
    RecordedForSnoc(parse, streams[i], turns, log.tr, log.views[i], sent[i], i, turn, answer, reply);
    forall j | 0 <= j < |sent| && j != i
      ensures RecordedFor(parse, streams[j], turns + [turn],
        if answer.Some? then log.tr + [Tagged(i, answer.value)] else log.tr, log.views[j], sent[j], j)
    {
      RecordedForOthers(parse, streams[j], turns, log.tr, log.views[j], sent[j], j, turn, answer);
    }
  }

  /** One turn. */
  method TakeTurn(server: Server, ghost conns: seq<Connection>, turn: Turn, conn: Connection, stream: string, at: nat,
                  clock: nat -> nat, n: nat, ghost s: Store, ghost parse: Parser, ghost rule: Rule, ghost log: Log)
    returns (reply: Option<string>, at': nat, ghost answer: Option<Exchange>)
    requires turn.conn < |conns| && conn == conns[turn.conn] && n == |log.tr| && IsParse(parse) && IsRule(rule)
    requires Standing(server, conns, clock, s, rule, log) && clock(n) < INT64_LIMIT
    requires Sane(stream, log.views[turn.conn]) && at == log.views[turn.conn].pos
    modifies conn`readPos, conn.readBuf, conn.writeBuf, server.Repr
    ensures fresh(server.Repr - old(server.Repr)) && AnswersTurn(parse, log.views[turn.conn], turn, answer, reply)
    ensures at' == NextView(parse, stream, log.views[turn.conn], turn).pos
    ensures Standing(server, conns, clock, s, rule, Advance(parse, stream, log, turn, answer))
  {
    reply, at', answer := None, at, None;
    match turn {
      case Recv(_, _) =>
        at' := ReceiveTurn(server, conns, turn.conn, conn, stream, at, turn, parse, log.views);
      case Answer(_) =>
        ghost var x;
        var done, text;
        done, text, x := AnswerTurn(server, conns, turn.conn, conn, stream, clock(n), turn, parse, rule, log.views, log.store);
        if done {
          reply, answer := Some(text), Some(x);
          ExchangesSnoc(rule, log.tr, clock, s, turn.conn, x);
        }
    }
  }

  /** The record agrees with the turns, and `at` with how far each client has been read. */
  ghost predicate Book(parse: Parser, streams: seq<string>, turns: seq<Turn>, log: Log, at: seq<nat>, sent: seq<seq<string>>)
    requires Stable(parse)
  {
    && Recorded(parse, streams, turns, log, sent)
    && |at| == |sent| && forall i :: 0 <= i < |at| ==> at[i] == log.views[i].pos
  }

  lemma BookEntry(parse: Parser, streams: seq<string>, turns: seq<Turn>, log: Log, at: seq<nat>, sent: seq<seq<string>>, i: nat)
    requires Stable(parse) && Book(parse, streams, turns, log, at, sent) && i < |log.views|
    ensures i < |streams| == |sent| == |at| && Sane(streams[i], log.views[i]) && at[i] == log.views[i].pos
  {
    assert RecordedFor(parse, streams[i], turns, log.tr, log.views[i], sent[i], i);
  }

  lemma BookSnoc(parse: Parser, streams: seq<string>, turns: seq<Turn>, log: Log, at: seq<nat>, sent: seq<seq<string>>,
                 turn: Turn, answer: Option<Exchange>, reply: Option<string>)
    requires Stable(parse) && Book(parse, streams, turns, log, at, sent) && turn.conn < |sent|
    requires Sane(streams[turn.conn], log.views[turn.conn]) && AnswersTurn(parse, log.views[turn.conn], turn, answer, reply)
    ensures var i := turn.conn; var log' := Advance(parse, streams[i], log, turn, answer);
      Book(parse, streams, turns + [turn], log', at[i := log'.views[i].pos], Sent(sent, turn, reply))
  {
    RecordedSnoc(parse, streams, turns, log, sent, turn, answer, reply);
  }

  /** Everything that holds between two turns. */
  ghost predicate Serving(server: Server, conns: seq<Connection>, streams: seq<string>, turns: seq<Turn>, clock: nat -> nat,
                          s: Store, parse: Parser, rule: Rule, log: Log, at: seq<nat>, sent: seq<seq<string>>)
    requires Stable(parse)
    reads server, server.Repr, conns, ReadBufs(conns)
  {
    Standing(server, conns, clock, s, rule, log) && Book(parse, streams, turns, log, at, sent)
  }

  method RecordTurn(server: Server, ghost conns: seq<Connection>, streams: seq<string>, turn: Turn, conn: Connection,
                    clock: nat -> nat, n: nat, ghost s: Store, ghost parse: Parser, ghost rule: Rule, ghost log: Log,
                    ghost past: seq<Turn>, at: seq<nat>, sent: seq<seq<string>>)
    returns (n': nat, at': seq<nat>, sent': seq<seq<string>>, ghost log': Log)
    requires turn.conn < |conns| && conn == conns[turn.conn] && n == |log.tr| && IsParse(parse) && IsRule(rule)
    requires Serving(server, conns, streams, past, clock, s, parse, rule, log, at, sent) && clock(n) < INT64_LIMIT
    modifies conn`readPos, conn.readBuf, conn.writeBuf, server.Repr
    ensures fresh(server.Repr - old(server.Repr)) && n' == |log'.tr|
    ensures Serving(server, conns, streams, past + [turn], clock, s, parse, rule, log', at', sent')
  {
    var i := turn.conn;
    BookEntry(parse, streams, past, log, at, sent, i);
    ghost var answer;
    var reply, pos;
    reply, pos, answer := TakeTurn(server, conns, turn, conn, streams[i], at[i], clock, n, s, parse, rule, log);
    BookSnoc(parse, streams, past, log, at, sent, turn, answer, reply);
    log' := Advance(parse, streams[i], log, turn, answer);
    at', sent' := at[i := pos], Sent(sent, turn, reply);
    n' := if reply.Some? then n + 1 else n;
  }

  ghost function FirstLog(n: nat, s: Store): (log: Log) {
    Log([], seq(n, _ => NEW), s)
  }

  lemma FirstRecorded(parse: Parser, streams: seq<string>, s: Store, sent: seq<seq<string>>)
    requires Stable(parse) && |sent| == |streams| && forall i :: 0 <= i < |sent| ==> sent[i] == []
    ensures Recorded(parse, streams, [], FirstLog(|streams|, s), sent)
  {
    forall i | 0 <= i < |sent|
      ensures RecordedFor(parse, streams[i], [], [], FirstLog(|streams|, s).views[i], sent[i], i)
    {
      assert Mine([], i) == [] && Own([], i) == [];
    }
  }

  lemma FirstStanding(server: Server, conns: seq<Connection>, clock: nat -> nat, s: Store, rule: Rule)
    requires server.Represents(s) && Distinct(conns) && forall i :: 0 <= i < |conns| ==> conns[i].Stands(server, "")
    ensures Standing(server, conns, clock, s, rule, FirstLog(|conns|, s))
  {
    assert Exchanges([]) == [];
  }

  lemma PrefixSnoc(turns: seq<Turn>, t: nat)
    requires t < |turns|
    ensures turns[..t + 1] == turns[..t] + [turns[t]]
  {
  }

  /**
   Any schedule of turns, of any number of connections whose clients send `streams`: all exchanges
   together are one session with the single-map store; every connection has received, answered and
   left over exactly what its own turns make of its client's bytes; and it has been sent the
   replies of its own part of the session.
   */
  method ServeAll(server: Server, conns: seq<Connection>, streams: seq<string>, turns: seq<Turn>, clock: nat -> nat,
                  ghost s: Store, ghost parse: Parser, ghost rule: Rule)
    returns (sent: seq<seq<string>>, ghost log: Log)
    requires server.Represents(s) && IsParse(parse) && IsRule(rule) && forall n :: clock(n) < INT64_LIMIT
    requires Distinct(conns) && |streams| == |conns| && forall i :: 0 <= i < |conns| ==> conns[i].Stands(server, "")
    requires forall t :: 0 <= t < |turns| ==> turns[t].conn < |conns|
    modifies server.Repr, conns, ReadBufs(conns), WriteBufs(conns)
    ensures fresh(server.Repr - old(server.Repr))
    ensures Standing(server, conns, clock, s, rule, log) && Recorded(parse, streams, turns, log, sent)
  {
    sent, log := seq(|conns|, _ => []), FirstLog(|conns|, s);
    FirstStanding(server, conns, clock, s, rule);
    FirstRecorded(parse, streams, s, sent);
    var n, at := 0, seq(|conns|, _ => 0);
    for t := 0 to |turns|
      invariant n == |log.tr| && fresh(server.Repr - old(server.Repr))
      invariant Serving(server, conns, streams, turns[..t], clock, s, parse, rule, log, at, sent)
    {
      n, at, sent, log := RecordTurn(server, conns, streams, turns[t], conns[turns[t].conn], clock, n, s, parse, rule, log,
                                     turns[..t], at, sent);
      PrefixSnoc(turns, t);
    }
    assert turns[..|turns|] == turns;
  }
}
