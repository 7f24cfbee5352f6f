/**
 What a client learns from the bytes it gets back: the number in the status line and the members
 of the body, read by their names. It is stated on the store before and after the request.
 */
module AnswerReading {
  import opened CInts
  import opened ClientView
  import opened Connections
  import opened Decimal
  import opened Handlers
  import opened HttpParse
  import opened JsonReader
  import opened Listing
  import opened ListingOrder
  import opened ListingReadback
  import opened LockRuns
  import opened LockServer
  import opened LockStore
  import opened ProbeTable
  import opened RequestLoop
  import opened ResponseStream
  import opened Responses
  import opened Wrappers

  /** The three digits of a status line. */
  function Code(m: Message): (n: int) {
    if |m.status| >= 12 && m.status[..9] == "HTTP/1.1 " then ReadDec(m.status[9..12]) else 0
  }

  /** The number in the status line, and the reason phrase behind it. */
  predicate Says(m: Message, code: int, phrase: string) {
    Code(m) == code && |m.status| >= 13 && m.status[12..] == " " + phrase
  }

  /** What a client must be told about a lock or unlock request on the store `s` that leaves `s'`. */
  ghost predicate Tells(s: Store, op: Op, s': Store, m: Message) {
    match op
    case Acquire(key, lockee, force, _) =>
      && Field(m.body, "key") == Some(Text(key))
      && if key !in s || HeldBy(s, key, lockee) || force then
           && Says(m, 200, "OK") && Field(m.body, "locked") == Some(Word("true"))
           && Field(m.body, "lockee") == Some(Text(lockee)) && HeldBy(s', key, lockee)
         else
           && Says(m, 409, "Conflict") && Field(m.body, "locked") == Some(Word("false"))
           && Field(m.body, "currentLockee") == Some(Text(s[key].lockee)) && s' == s
    case Release(key, lockee) =>
      if key !in s then Says(m, 404, "Not Found") && m.body == "not found" && s' == s
      else if HeldBy(s, key, lockee) then Says(m, 200, "OK") && m.body == "" && key !in s'
      else Says(m, 403, "Forbidden") && m.body == "lockee mismatch" && s' == s
  }

  lemma ThreeDigits(a: char, b: char, c: char)
    ensures ReadDec([a, b, c]) == 100 * (a as int - 48) + 10 * (b as int - 48) + (c as int - 48)
  {
    assert [a, b, c][..2] == [a, b] && [a, b][..1] == [a] && [a][..0] == [];
    assert ReadDec([a]) == a as int - 48;
    assert ReadDec([a, b]) == 10 * ReadDec([a]) + (b as int - 48);
  }

  lemma CodeOf(status: string, body: string)
    requires |status| >= 14 && status[..9] == "HTTP/1.1 "
    ensures Code(Message(status[..|status| - 2], body)) == ReadDec([status[9], status[10], status[11]])
  {
    var l := status[..|status| - 2];
    assert l[..9] == status[..9] && l[9..12] == [status[9], status[10], status[11]];
  }

  lemma Code200(body: string)
    ensures Says(Message(HTTP_200[..|HTTP_200| - 2], body), 200, "OK")
  {
    var l := HTTP_200[..|HTTP_200| - 2];
    CodeOf(HTTP_200, body);
    assert l[12..] == " " + "OK";
    ThreeDigits('2', '0', '0');
  }

  lemma Code400(body: string)
    ensures Says(Message(HTTP_400[..|HTTP_400| - 2], body), 400, "Bad Request")
  {
    var l := HTTP_400[..|HTTP_400| - 2];
    CodeOf(HTTP_400, body);
    assert l[12..] == " " + "Bad Request";
    ThreeDigits('4', '0', '0');
  }

  lemma Code403(body: string)
    ensures Says(Message(HTTP_403[..|HTTP_403| - 2], body), 403, "Forbidden")
  {
    var l := HTTP_403[..|HTTP_403| - 2];
    CodeOf(HTTP_403, body);
    assert l[12..] == " " + "Forbidden";
    ThreeDigits('4', '0', '3');
  }

  lemma Code404(body: string)
    ensures Says(Message(HTTP_404[..|HTTP_404| - 2], body), 404, "Not Found")
  {
    var l := HTTP_404[..|HTTP_404| - 2];
    CodeOf(HTTP_404, body);
    assert l[12..] == " " + "Not Found";
    ThreeDigits('4', '0', '4');
  }

  lemma Code409(body: string)
    ensures Says(Message(HTTP_409[..|HTTP_409| - 2], body), 409, "Conflict")
  {
    var l := HTTP_409[..|HTTP_409| - 2];
    CodeOf(HTTP_409, body);
    assert l[12..] == " " + "Conflict";
    ThreeDigits('4', '0', '9');
  }

  /** A body that is a printed object has that object's members. */
  lemma FieldsOf(ps: seq<Pair>, name: string)
    requires ps != [] && forall x :: x in ps ==> Fine(RawText, Raw, x)
    ensures Field(ObjectText(Raw, ps), name) == Find(ps, name)
  {
    var s := ObjectText(Raw, ps);
    assert s[0..|s|] == s;
    ObjectRead(RawText, Raw, s, 0, ps);
  }

  lemma FindThree(a: Pair, b: Pair, c: Pair)
    requires a.name != b.name && a.name != c.name && b.name != c.name
    ensures Find([a, b, c], a.name) == Some(a.value)
    ensures Find([a, b, c], b.name) == Some(b.value)
    ensures Find([a, b, c], c.name) == Some(c.value)
  {
    assert [a, b, c][1..] == [b, c] && [b, c][1..] == [c];
    assert Find([c], c.name) == Some(c.value);
    assert Find([b, c], b.name) == Some(b.value) && Find([b, c], c.name) == Find([c], c.name);
  }

  /** The members of the answer to a lock request. */
  function LockPairs(word: string, key: string, name: string, lockee: string): (ps: seq<Pair>) {
    [Pair("locked", Word(word)), Pair("key", Text(key)), Pair(name, Text(lockee))]
  }

  lemma LockPairsText(word: string, key: string, name: string, lockee: string)
    ensures ObjectText(Raw, LockPairs(word, key, name, lockee))
         == ("{\"locked\":" + word + ",\"key\":\"") + key + ("\",\"" + name + "\":\"") + lockee + "\"}"
  {
    ThreePairs(Raw, Pair("locked", Word(word)), Pair("key", Text(key)), Pair(name, Text(lockee)));
    TextPairText(Raw, "key", key);
    TextPairText(Raw, name, lockee);
    LockNames();
    LockGlue(word, "\"key\":\"", key, "\"" + name + "\":\"", lockee);
  }

  lemma LockNames()
    ensures "\"" + ("locked" + "\":") == "\"locked\":" && "{" + "\"locked\":" == "{\"locked\":"
    ensures "\"" + "key" + "\":\"" == "\"key\":\"" && "," + "\"key\":\"" == ",\"key\":\""
  {
  }

  lemma LockGlue(word: string, a: string, key: string, b: string, lockee: string)
    ensures "{" + (("\"" + ("locked" + ("\":" + word))) + ("," + ((a + key + "\"") + ("," + ((b + lockee + "\"") + "}")))))
         == ("{" + ("\"" + ("locked" + "\":")) + word + ("," + a)) + key + ("\"," + b) + lockee + "\"}"
  {
    assert "\"" + ("locked" + ("\":" + word)) == "\"" + ("locked" + "\":") + word;
    assert "\"" + "," == "\"," && "\"" + "}" == "\"}";
    LockGroup("{", "\"" + ("locked" + "\":"), word, ",", a, key, "\"", b, lockee, "}");
  }

  lemma LockGroup(o: string, l: string, w: string, c: string, a: string, k: string, q: string, b: string, e: string, z: string)
    ensures o + ((l + w) + (c + ((a + k + q) + (c + ((b + e + q) + z)))))
         == (o + l + w + (c + a)) + k + (q + c + b) + e + (q + z)
  {
    var x := b + e + q + z;
    assert x == b + (e + (q + z));
    var y := a + k + q + (c + x);
    assert y == a + (k + (q + c + x));
    assert o + ((l + w) + (c + y)) == o + l + w + (c + y);
  }

  lemma LockFields(word: string, key: string, name: string, lockee: string)
    requires Unquoted(key) && Unquoted(lockee) && (word == "true" || word == "false") && (name == "lockee" || name == "currentLockee")
    ensures var body := ObjectText(Raw, LockPairs(word, key, name, lockee));
      && Field(body, "locked") == Some(Word(word)) && Field(body, "key") == Some(Text(key))
      && Field(body, name) == Some(Text(lockee))
  {
    var ps := LockPairs(word, key, name, lockee);
    RawIsRead(key);
    RawIsRead(lockee);
    forall x | x in ps ensures Fine(RawText, Raw, x) {
    }
    FieldsOf(ps, "locked");
    FieldsOf(ps, "key");
    FieldsOf(ps, name);
    FindThree(ps[0], ps[1], ps[2]);
  }

  lemma GrantedText(key: string, lockee: string)
    ensures LockText(LOCKED_KEY, key, LOCKEE_IS, lockee) == ObjectText(Raw, LockPairs("true", key, "lockee", lockee))
  {
    LockPairsText("true", key, "lockee", lockee);
    assert LOCKED_KEY == "{\"locked\":" + "true" + ",\"key\":\"";
    assert LOCKEE_IS == "\",\"" + "lockee" + "\":\"";
  }

  lemma RefusedText(key: string, lockee: string)
    ensures LockText(REFUSED_KEY, key, HOLDER_IS, lockee) == ObjectText(Raw, LockPairs("false", key, "currentLockee", lockee))
  {
    LockPairsText("false", key, "currentLockee", lockee);
    assert REFUSED_KEY == "{\"locked\":" + "false" + ",\"key\":\"";
    assert HOLDER_IS == "\",\"" + "currentLockee" + "\":\"";
  }

  lemma GrantRead(key: string, lockee: string)
    requires Unquoted(key) && Unquoted(lockee)
    ensures var m := Message(HTTP_200[..|HTTP_200| - 2], LockText(LOCKED_KEY, key, LOCKEE_IS, lockee));
      && Says(m, 200, "OK") && Field(m.body, "locked") == Some(Word("true"))
      && Field(m.body, "key") == Some(Text(key)) && Field(m.body, "lockee") == Some(Text(lockee))
  {
    GrantedText(key, lockee);
    LockFields("true", key, "lockee", lockee);
    Code200(LockText(LOCKED_KEY, key, LOCKEE_IS, lockee));
  }

  lemma RefusalRead(key: string, holder: string)
    requires Unquoted(key) && Unquoted(holder)
    ensures var m := Message(HTTP_409[..|HTTP_409| - 2], LockText(REFUSED_KEY, key, HOLDER_IS, holder));
      && Says(m, 409, "Conflict") && Field(m.body, "locked") == Some(Word("false"))
      && Field(m.body, "key") == Some(Text(key)) && Field(m.body, "currentLockee") == Some(Text(holder))
  {
    RefusedText(key, holder);
    LockFields("false", key, "currentLockee", holder);
    Code409(LockText(REFUSED_KEY, key, HOLDER_IS, holder));
  }

  /** The answer to a lock request tells the client whether it was granted, and who holds the key. */
  lemma LockTold(s: Store, op: Op)
    requires op.Acquire? && Keyed(s) && StoreUnquoted(s) && Unquoted(op.key) && Unquoted(op.lockee)
    requires FitsBuffers(LockAnswer(op, Step(s, op).1))
    ensures Tells(s, op, Step(s, op).0, MessageOf(LockAnswer(op, Step(s, op).1)))
  {
    if Step(s, op).1.Granted? {
      GrantRead(op.key, op.lockee);
    } else {
      RefusalRead(op.key, s[op.key].lockee);
    }
  }

  /** The answer to an unlock request tells the client whether it held the key, and if not, why not. */
  lemma UnlockTold(s: Store, op: Op)
    requires op.Release? && FitsBuffers(UnlockAnswer(Step(s, op).1.status))
    ensures Tells(s, op, Step(s, op).0, MessageOf(UnlockAnswer(Step(s, op).1.status)))
  {
    Code200("");
    Code403("lockee mismatch");
    Code404("not found");
  }

  lemma OneField(name: string, text: string)
    requires Unquoted(name) && Unquoted(text)
    ensures Field("{\"" + name + "\":\"" + text + "\"}", name) == Some(Text(text))
  {
    var ps := [Pair(name, Text(text))];
    RawIsRead(text);
    FieldsOf(ps, name);
    TextPairText(Raw, name, text);
    assert PairTexts(Raw, ps) == [PairText(Raw, ps[0])];
    assert ListText([PairText(Raw, ps[0])], "}") == PairText(Raw, ps[0]) + "}";
    assert "{" + ("\"" + name + "\":\"" + text + "\"" + "}") == "{\"" + name + "\":\"" + text + "\"}";
  }

  lemma ErrorField()
    ensures Field(BAD_REQUEST, "error") == Some(Text("bad request"))
  {
    assert BAD_REQUEST == "{\"" + "error" + "\":\"" + "bad request" + "\"}";
    OneField("error", "bad request");
  }

  lemma StatusField()
    ensures Field(HEALTHY, "status") == Some(Text("ok"))
  {
    assert HEALTHY == "{\"" + "status" + "\":\"" + "ok" + "\"}";
    OneField("status", "ok");
  }

  /** The body lists the store by slots, as far as it goes, and reads back as those locks. */
  ghost predicate ListsStore(s: Store, body: string, es: seq<Entry>, k: nat) {
    && Lists(AsLocks(es), s) && StopsAt(Items(Stamp, es), k)
    && (StampsUnquoted(es) ==>
          var rows := ReadLocks(RawText, body);
          rows.Some? && |rows.value| == k && forall i :: 0 <= i < k ==> RowTells(rows.value[i], es[i]))
  }

  /** What a client must be told, whatever it asked for. */
  ghost predicate ToldBy(x: Exchange, m: Message) {
    var op := RequestOp(x.req, x.now);
    if op.Some? then Tells(x.before, op.value, x.after, m)
    else
      && x.after == x.before
      && if x.req.verb == Post && (x.req.path == LockPath || x.req.path == UnlockPath) then
           Says(m, 400, "Bad Request") && Field(m.body, "error") == Some(Text("bad request"))
         else if x.req.verb == Get && x.req.path == LocksPath then
           Says(m, 200, "OK") && exists es, k :: ListsStore(x.before, m.body, es, k)
         else if x.req.verb == Get && x.req.path == HealthzPath then
           Says(m, 200, "OK") && Field(m.body, "status") == Some(Text("ok"))
         else
           Says(m, 404, "Not Found") && m.body == "not found"
  }

  /** The bytes of the reply are one response, and it tells the client what it must. */
  ghost predicate BytesTell(x: Exchange) {
    var r := ReadResponse(x.reply);
    && r.Some? && r.value.1 == |x.reply| && ToldBy(x, r.value.0)
    && HasLine(x.reply, "Connection: keep-alive")
    && (r.value.0.body != "" ==> HasLine(x.reply, "Content-Type: application/json"))
  }

  lemma OpTold(x: Exchange)
    requires Faithful(x) && StoreUnquoted(x.before) && Keyed(x.before) && FitsBuffers(x.answer) && RequestOp(x.req, x.now).Some?
    ensures ToldBy(x, MessageOf(x.answer))
  {
    var op := RequestOp(x.req, x.now).value;
    if op.Acquire? {
      RequestsUnquoted(x.req.body, x.now);
      LockTold(x.before, op);
    } else {
      UnlockTold(x.before, op);
    }
  }

  lemma ListingLists(body: string, s: Store, es: seq<Entry>, k: nat)
    requires StoreUnquoted(s) && IsListing(body, s, es, k)
    ensures ListsStore(s, body, es, k)
  {
    if StampsUnquoted(es) {
      ListingIsRead(body, s, es, k);
    }
  }

  lemma ListTold(x: Exchange)
    requires Faithful(x) && StoreUnquoted(x.before) && FitsBuffers(x.answer) && x.req.verb == Get && x.req.path == LocksPath
    ensures ToldBy(x, MessageOf(x.answer))
  {
    var es, k :| IsListing(x.answer.body, x.before, es, k);
    ListingLists(x.answer.body, x.before, es, k);
    Code200(x.answer.body);
  }

  lemma RefusedIs400(x: Exchange)
    requires Faithful(x) && RequestOp(x.req, x.now).None?
    requires x.req.verb == Post && (x.req.path == LockPath || x.req.path == UnlockPath)
    ensures x.answer == WithBody(HTTP_400, BAD_REQUEST) && x.after == x.before
  {
  }

  lemma RefusedBodyTold(x: Exchange)
    requires x.answer == WithBody(HTTP_400, BAD_REQUEST) && x.after == x.before
    requires FitsBuffers(x.answer) && RequestOp(x.req, x.now).None?
    requires x.req.verb == Post && (x.req.path == LockPath || x.req.path == UnlockPath)
    ensures ToldBy(x, MessageOf(x.answer))
  {
    ErrorField();
    Code400(BAD_REQUEST);
  }

  lemma HealthTold(x: Exchange)
    requires Faithful(x) && FitsBuffers(x.answer) && x.req.verb == Get && x.req.path == HealthzPath
    ensures ToldBy(x, MessageOf(x.answer))
  {
    StatusField();
    Code200(HEALTHY);
  }

  lemma UnknownTold(x: Exchange)
    requires Faithful(x) && FitsBuffers(x.answer) && RequestOp(x.req, x.now).None?
    requires !(x.req.verb == Post && (x.req.path == LockPath || x.req.path == UnlockPath))
    requires !(x.req.verb == Get && (x.req.path == LocksPath || x.req.path == HealthzPath))
    ensures ToldBy(x, MessageOf(x.answer))
  {
    Code404("not found");
  }

  /** Every reply, read from its bytes, tells the client what happened. */
  lemma ExchangeTold(x: Exchange)
    requires Faithful(x) && StoreUnquoted(x.before) && Keyed(x.before) && Sized(x.before)
    ensures BytesTell(x)
  {
    AnswersFit(x.before, x.req, x.now, x.after, x.answer);
    AnswerIsRead(x.answer, "");
    AnswerHeaders(x.answer);
    assert AnswerText(x.answer) + "" == AnswerText(x.answer);
    if RequestOp(x.req, x.now).Some? {
      OpTold(x);
    } else if x.req.verb == Get && x.req.path == LocksPath {
      ListTold(x);
    } else if x.req.verb == Get && x.req.path == HealthzPath {
      HealthTold(x);
    } else if x.req.verb == Post && (x.req.path == LockPath || x.req.path == UnlockPath) {
      RefusedIs400(x);
      RefusedBodyTold(x);
    } else {
      UnknownTold(x);
    }
  }

  /** The links of a session: each exchange begins where the one before it ended. */
  lemma {:induction false} SessionLink(rule: Rule, tr: seq<Exchange>, clock: nat -> nat, s: Store, s': Store, k: nat)
    requires Session(rule, tr, clock, s, s') && k < |tr|
    ensures rule(tr[k]) && tr[k].before == if k == 0 then s else tr[k - 1].after
    decreases |tr|
  {
    var n := |tr| - 1;
    if k < n {
      SessionLink(rule, tr[..n], clock, s, tr[n].before, k);
    } else if n > 0 {
      assert tr[..n][n - 1] == tr[n - 1];
    }
  }

  lemma AnswersKeepKeyed(x: Exchange)
    requires Faithful(x) && Keyed(x.before)
    ensures Keyed(x.after)
  {
    ExchangeIsStep(x);
  }

  /** In a session that starts with names the server can have stored, every reply tells its client what happened. */
  lemma {:induction false} SessionTold(rule: Rule, tr: seq<Exchange>, clock: nat -> nat, s: Store, s': Store)
    requires IsRule(rule) && Session(rule, tr, clock, s, s') && forall n :: clock(n) < INT64_LIMIT
    requires StoreUnquoted(s) && Keyed(s) && Sized(s)
    ensures StoreUnquoted(s') && Keyed(s') && Sized(s') && forall x :: x in tr ==> BytesTell(x)
  {
    if tr != [] {
      var n := |tr| - 1;
      var x := tr[n];
      SessionTold(rule, tr[..n], clock, s, x.before);
      assert RulesAt(rule, x);
      ExchangeTold(x);
      AnswersKeepUnquoted(x.before, x.req, x.now, x.after, x.answer);
      AnswersKeepSized(x.before, x.req, x.now, x.after, x.answer);
      AnswersKeepKeyed(x);
    }
  }

  /** The client of `x` has read that it now holds `key` as `lockee`. */
  ghost predicate ReadsLocked(x: Exchange, key: string, lockee: string) {
    var r := ReadResponse(x.reply);
    && r.Some? && Code(r.value.0) == 200 && Field(r.value.0.body, "locked") == Some(Word("true"))
    && Field(r.value.0.body, "key") == Some(Text(key)) && Field(r.value.0.body, "lockee") == Some(Text(lockee))
    && x.req.verb == Post && x.req.path == LockPath
  }

  /** Who reads that it is locked does hold the key then. */
  lemma LockedIsHeld(x: Exchange, key: string, lockee: string)
    requires Faithful(x) && BytesTell(x) && ReadsLocked(x, key, lockee)
    ensures HeldBy(x.after, key, lockee)
  {
    assert RequestOp(x.req, x.now).Some? ==> RequestOp(x.req, x.now).value.Acquire?;
  }

  lemma {:induction false} TenureBetween(rule: Rule, tr: seq<Exchange>, clock: nat -> nat, s: Store, s': Store,
                                         key: string, lockee: string, i: nat, j: nat) returns (k: nat)
    requires IsRule(rule) && Session(rule, tr, clock, s, s') && i <= j < |tr|
    requires HeldBy(tr[i].after, key, lockee) && !HeldBy(tr[j].after, key, lockee)
    ensures i < k <= j && RequestOp(tr[k].req, tr[k].now).Some?
    ensures EndsTenure(RequestOp(tr[k].req, tr[k].now).value, key, lockee)
    decreases j
  {
    SessionLink(rule, tr, clock, s, s', j);
    assert RulesAt(rule, tr[j]);
    if HeldBy(tr[j].before, key, lockee) {
      k := j;
      ExchangeIsStep(tr[j]);
      StepEndsTenure(tr[j].before, RequestOp(tr[j].req, tr[j].now).value, key, lockee);
    } else {
      k := TenureBetween(rule, tr, clock, s, s', key, lockee, i, j - 1);
    }
  }

  /**
   Mutual exclusion as clients read it: if one reads that it has locked a key, and later another
   reads so of the same key, then in between there was an unlock by the first or a forced lock.
   */
  lemma NeverBothLocked(rule: Rule, tr: seq<Exchange>, clock: nat -> nat, s: Store, s': Store,
                        key: string, a: string, b: string, i: nat, j: nat) returns (k: nat)
    requires IsRule(rule) && Session(rule, tr, clock, s, s') && forall n :: clock(n) < INT64_LIMIT
    requires StoreUnquoted(s) && Keyed(s) && Sized(s)
    requires i < j < |tr| && a != b && ReadsLocked(tr[i], key, a) && ReadsLocked(tr[j], key, b)
    ensures i < k <= j && RequestOp(tr[k].req, tr[k].now).Some?
    ensures EndsTenure(RequestOp(tr[k].req, tr[k].now).value, key, a)
  {
    SessionTold(rule, tr, clock, s, s');
    SessionLink(rule, tr, clock, s, s', i);
    SessionLink(rule, tr, clock, s, s', j);
    assert RulesAt(rule, tr[i]) && RulesAt(rule, tr[j]);
    LockedIsHeld(tr[i], key, a);
    LockedIsHeld(tr[j], key, b);
    k := TenureBetween(rule, tr, clock, s, s', key, a, i, j);
  }
}
