/** A client can read the C server's `/locks` body back: it determines the locks it shows. */
module ListingReadback {
  import opened ByteScan
  import opened CInts
  import opened Civil
  import opened Handlers
  import opened HttpParse
  import opened JsonReader
  import opened JsonRequest
  import opened Listing
  import opened ListingOrder
  import opened LockStore
  import opened ProbeTable
  import opened RequestLoop
  import opened Timestamp
  import opened Wrappers

  predicate Unquoted(s: string) {
    '"' !in s
  }

  predicate FieldsUnquoted(f: JsonRequest.Fields) {
    (f.key.Some? ==> Unquoted(f.key.value)) && (f.lockee.Some? ==> Unquoted(f.lockee.value))
  }

  lemma ValueUnquoted(b: string, i: nat)
    requires i <= |b| && QuotedValue(b, i).Some?
    ensures Unquoted(QuotedValue(b, i).value.0)
  {
    var open := IndexFrom(b, '"', i);
    var close := IndexFrom(b, '"', open + 1);
    assert forall k :: open + 1 <= k < close ==> b[k] != '"';
  }

  /** A value ends at a quote, so the scanner never takes one with a quote inside. */
  lemma {:induction false} ScanUnquoted(b: string, p: nat, out: JsonRequest.Fields)
    requires p <= |b| && FieldsUnquoted(out)
    ensures Scan(b, p, out).Some? ==> FieldsUnquoted(Scan(b, p, out).value)
    decreases |b| - p
  {
    if p + 4 < |b| {
      if b[p] != '"' {
        ScanUnquoted(b, p + 1, out);
      } else if StartsAt(b, p + 1, "key\":") {
        TakenUnquoted(b, p + 6, out, true);
      } else if StartsAt(b, p + 1, "lockee\":") {
        TakenUnquoted(b, p + 9, out, false);
      } else if StartsAt(b, p + 1, "force\":") {
        var v := SkipBlanks(b, p + 8);
        ScanUnquoted(b, SkipValue(b, v), out.(force := v < |b| && b[v] == 't'));
      } else {
        ScanUnquoted(b, SkipValue(b, Past(b, IndexFrom(b, '"', p + 1))), out);
      }
    }
  }

  lemma {:induction false} TakenUnquoted(b: string, i: nat, out: JsonRequest.Fields, key: bool)
    requires i <= |b| && FieldsUnquoted(out)
    ensures var v := QuotedValue(b, i);
      v.Some? ==>
        var next := if key then out.(key := Some(v.value.0)) else out.(lockee := Some(v.value.0));
        Scan(b, v.value.1, next).Some? ==> FieldsUnquoted(Scan(b, v.value.1, next).value)
    decreases |b| - i
  {
    var v := QuotedValue(b, i);
    if v.Some? {
      ValueUnquoted(b, i);
      ScanUnquoted(b, v.value.1, if key then out.(key := Some(v.value.0)) else out.(lockee := Some(v.value.0)));
    }
  }

  /** No request can put a quote into a name. */
  lemma RequestsUnquoted(body: string, now: nat)
    ensures var op := PostOp(body, now); op.Some? ==> Unquoted(op.value.key) && Unquoted(op.value.lockee)
  {
    ScanUnquoted(body, 0, NOTHING);
  }

  ghost predicate StoreUnquoted(s: Store) {
    forall k :: k in s ==> Unquoted(k) && Unquoted(s[k].lockee)
  }

  /** In every state that requests lead to, names are free of quotes. */
  lemma AnswersKeepUnquoted(s: Store, req: Request, now: nat, s': Store, a: Answer)
    requires StoreUnquoted(s) && Answers(s, req, now, s', a)
    ensures StoreUnquoted(s')
  {
    RequestsUnquoted(req.body, now);
  }

  /** The C server prints names as they are. */
  function Raw(t: string): (s: string) {
    t
  }

  lemma RawIsRead(t: string)
    requires Unquoted(t)
    ensures Reads(RawText, Raw, t)
  {
    forall s: string, p: nat ensures ReadsAt(RawText, Raw, t, s, p) {
      if At(s, p, t + "\"") {
        RawReads(s, p, t);
      }
    }
  }

  /** What a list should say about an entry. */
  function RowFor(e: Entry): (x: Row) {
    Row(e.key, e.lockee, Stamp(e.since))
  }

  /** The byte `'0' + n` is a quote only for one remainder of `n`, far from the digits. */
  lemma QuoteDigit(n: int)
    ensures Digit(n) == '"' <==> n % 256 == 242
  {
  }

  /** A date whose year or day is so large, or so far below zero, that its first character is a quote. */
  predicate QuoteInDate(d: Date) {
    CDiv(d.year, 1000) % 256 == 242 || CDiv(d.day, 10) % 256 == 242
  }

  lemma PadsUnquoted(n: int)
    ensures 0 <= n ==> ('"' in Pad4(n) <==> CDiv(n, 1000) % 256 == 242)
    ensures '"' in Pad2(n) <==> CDiv(n, 10) % 256 == 242
  {
    QuoteDigit(CDiv(n, 1000));
    QuoteDigit(CDiv(n, 10));
    QuoteDigit(CMod(n, 10));
    QuoteDigit(CMod(CDiv(n, 100), 10));
    QuoteDigit(CMod(CDiv(n, 10), 10));
    var a, b := Pad4(n), Pad2(n);
    assert '"' in a <==> a[0] == '"' || a[1] == '"' || a[2] == '"' || a[3] == '"';
    assert '"' in b <==> b[0] == '"' || b[1] == '"';
  }

  /** Which times are printed with a quote inside: none before the year 242000. */
  lemma StampQuotedIff(since: nat)
    ensures Unquoted(Stamp(since)) <==> !QuoteInDate(CFields(since).date)
  {
    var f := CFields(since);
    LoopDateRange(ToInt32(since / 60 / 60 / 24));
    PadsUnquoted(f.date.year);
    PadsUnquoted(f.date.month);
    PadsUnquoted(f.date.day);
    PadsUnquoted(f.hour);
    PadsUnquoted(f.minute);
    PadsUnquoted(f.second);
    DateQuoted(f.date);
    TimeQuoted(f);
  }

  lemma LoopDateRange(days: int)
    ensures LoopDate(days).year >= 1970 && 1 <= LoopDate(days).month <= 12
  {
    if days >= 0 {
      assert Denotes(Date(1970, 1, 1), 0);
      DatesAreOrdered(DateOf(days), Date(1970, 1, 1), days, 0);
    }
  }

  lemma DateQuoted(d: Date)
    ensures '"' in DateText(d) <==> '"' in Pad4(d.year) || '"' in Pad2(d.month) || '"' in Pad2(d.day)
  {
  }

  lemma TimeQuoted(f: Timestamp.Fields)
    ensures '"' in TimeText(f) <==> '"' in Pad2(f.hour) || '"' in Pad2(f.minute) || '"' in Pad2(f.second)
  {
  }

  lemma StampsOfOurTime(since: nat)
    requires since < END_OF_YEAR_9999
    ensures Unquoted(Stamp(since))
  {
    FieldsAreValid(since);
    ValidDateUnquoted(CFields(since).date);
    StampQuotedIff(since);
  }

  lemma ValidDateUnquoted(d: Date)
    requires 0 <= d.year <= 9999 && 1 <= d.month <= 12 && 1 <= d.day <= MonthLen(d.year, d.month - 1)
    ensures !QuoteInDate(d)
  {
    assert d.day <= 31;
  }

  /** An entry is printed as a row is. */
  lemma EntryIsRow(e: Entry)
    ensures EntryText(e, Stamp(e.since)) == RowText(Raw, RowFor(e))
  {
    RowLayout(Raw, RowFor(e));
    Reassociate(KEY_IS, e.key, LOCKEE_IS, e.lockee, SINCE_IS, Stamp(e.since), END_ENTRY);
  }

  lemma Reassociate(a: string, b: string, c: string, d: string, e: string, f: string, g: string)
    ensures a + b + c + d + e + f + g == a + (b + (c + (d + (e + (f + g)))))
  {
  }

  /** The body from entry `j` on. */
  lemma {:induction false} BodyFrom(items: seq<string>, k: nat, j: nat)
    requires j < k <= |items|
    ensures Written(items, k) + CLOSING
         == Written(items, j) + (if j == 0 then "" else ",") + ListText(items[j..k], CLOSING)
    decreases k - j
  {
    var a, b, c := Written(items, j), if j == 0 then "" else ",", items[j];
    if j == k - 1 {
      assert items[j..k] == [c];
      assert a + b + c + CLOSING == a + b + (c + CLOSING);
    } else {
      BodyFrom(items, k, j + 1);
      var d := ListText(items[j + 1..k], CLOSING);
      assert items[j..k][1..] == items[j + 1..k];
      assert a + b + c + "," + d == a + b + (c + ("," + d));
    }
  }

  lemma BodyIsList(items: seq<string>, k: nat)
    requires k <= |items|
    ensures Written(items, k) + CLOSING == LOCKS_IS + RowsText(items[..k], CLOSING)
  {
    if k > 0 {
      BodyFrom(items, k, 0);
      assert items[0..k] == items[..k];
      assert OPENING + "" == OPENING;
    }
  }

  /** What a list should say about the first `k` entries. */
  function RowsFor(es: seq<Entry>, k: nat): (xs: seq<Row>)
    requires k <= |es|
    ensures |xs| == k && forall i :: 0 <= i < k ==> xs[i] == RowFor(es[i])
  {
    seq(k, i requires 0 <= i < k => RowFor(es[i]))
  }

  ghost predicate EntriesUnquoted(es: seq<Entry>) {
    forall i :: 0 <= i < |es| ==> Unquoted(es[i].key) && Unquoted(es[i].lockee)
  }

  /** The times of the entries are printed without a quote, as all are before the year 242000. */
  ghost predicate StampsUnquoted(es: seq<Entry>) {
    forall i :: 0 <= i < |es| ==> !QuoteInDate(CFields(es[i].since).date)
  }

  lemma RowForFine(e: Entry)
    requires Unquoted(e.key) && Unquoted(e.lockee) && !QuoteInDate(CFields(e.since).date)
    ensures RowFine(RawText, Raw, RowFor(e))
  {
    RawIsRead(e.key);
    RawIsRead(e.lockee);
    StampQuotedIff(e.since);
    RawIsRead(Stamp(e.since));
  }

  lemma BodyIsRead(es: seq<Entry>, k: nat)
    requires k <= |es| && EntriesUnquoted(es) && StampsUnquoted(es)
    ensures ReadLocks(RawText, Written(Items(Stamp, es), k) + CLOSING) == Some(RowsFor(es, k))
  {
    var items := Items(Stamp, es);
    BodyIsList(items, k);
    forall i | 0 <= i < k
      ensures RowFine(RawText, Raw, RowFor(es[i])) && items[i] == RowText(Raw, RowFor(es[i]))
    {
      PrintAllAt(Item(Stamp), es, i);
      EntryIsRow(es[i]);
      RowForFine(es[i]);
    }
    LocksRead(RawText, Raw, Written(items, k) + CLOSING, items[..k], RowsFor(es, k), CLOSING);
  }

  lemma ListedUnquoted(s: Store, es: seq<Entry>)
    requires StoreUnquoted(s) && Lists(AsLocks(es), s)
    ensures EntriesUnquoted(es)
  {
    forall i | 0 <= i < |es| ensures Unquoted(es[i].key) && Unquoted(es[i].lockee) {
      assert AsLocks(es)[i].key in s;
    }
  }

  /** The row names the key, the holder and, until the end of year 9999, the very second of the lock. */
  predicate RowTells(x: Row, e: Entry) {
    && x.key == e.key && x.lockee == e.lockee
    && (e.since < END_OF_YEAR_9999 ==>
          var r := ReadStamp(x.since); r.Some? && ValidFields(r.value) && Instant(r.value) == e.since)
  }

  lemma RowForTells(e: Entry)
    ensures RowTells(RowFor(e), e)
  {
    TimestampRoundTrip(e.since);
  }

  /**
   A client that reads the body by the names of its members finds exactly the first `k` locks of the
   listing: key, holder and timestamp of each, in order.
   */
  lemma ListingIsRead(body: string, s: Store, es: seq<Entry>, k: nat)
    requires StoreUnquoted(s) && IsListing(body, s, es, k) && StampsUnquoted(es)
    ensures ReadLocks(RawText, body) == Some(RowsFor(es, k)) && forall i :: 0 <= i < k ==> RowTells(RowsFor(es, k)[i], es[i])
  {
    ListedUnquoted(s, es);
    BodyIsRead(es, k);
    forall i | 0 <= i < k ensures RowTells(RowsFor(es, k)[i], es[i]) {
      RowForTells(es[i]);
    }
  }

  /**
   The body determines what it shows: two listings, of whatever stores requests can lead to, have
   the same body exactly if they show the same keys, lockees and timestamps in the same order.
   */
  lemma ListingDetermines(body: string, s: Store, es: seq<Entry>, k: nat, body': string, s': Store, es': seq<Entry>, k': nat)
    requires StoreUnquoted(s) && IsListing(body, s, es, k) && StoreUnquoted(s') && IsListing(body', s', es', k')
    ensures body == body' <==> RowsFor(es, k) == RowsFor(es', k')
  {
    ListedUnquoted(s, es);
    ListedUnquoted(s', es');
    if body == body' {
      BodyIsList(Items(Stamp, es), k);
      BodyIsList(Items(Stamp, es'), k');
      CancelPrefix(LOCKS_IS, RowsText(Items(Stamp, es)[..k], CLOSING), RowsText(Items(Stamp, es')[..k'], CLOSING));
      ItemsShow(es, k);
      ItemsShow(es', k');
      RowsDetermine(Items(Stamp, es)[..k], RowsFor(es, k), Items(Stamp, es')[..k'], RowsFor(es', k'));
    }
    if RowsFor(es, k) == RowsFor(es', k') {
      SameRows(es, es', k);
    }
  }

  /** Two texts that go on with a quote where their unquoted beginnings end have the same beginning. */
  lemma UntilQuote(a: string, x: string, b: string, y: string)
    requires Unquoted(a) && Unquoted(b) && x != "" && y != "" && x[0] == '"' == y[0] && a + x == b + y
    ensures a == b && x == y
  {
    var z := a + x;
    assert z[|a|] == '"' && forall i :: 0 <= i < |a| ==> z[i] == a[i];
    assert z[|b|] == '"' && forall i :: 0 <= i < |b| ==> z[i] == b[i];
    assert |a| == |b|;
    assert a == (a + x)[..|a|] && b == (b + y)[..|a|];
    CancelPrefix(a, x, y);
  }

  lemma SameLength(a: string, x: string, b: string, y: string)
    requires |a| == |b| && a + x == b + y
    ensures a == b && x == y
  {
    assert a == (a + x)[..|a|] && b == (b + y)[..|a|];
    CancelPrefix(a, x, y);
  }

  predicate Shown(x: Row) {
    Unquoted(x.key) && Unquoted(x.lockee) && |x.since| == 20
  }

  function FromSince(x: Row, t: string): (s: string) {
    SINCE_IS + (x.since + (END_ENTRY + t))
  }

  function FromLockee(x: Row, t: string): (s: string) {
    LOCKEE_IS + (x.lockee + FromSince(x, t))
  }

  lemma LockeeDetermined(x: Row, y: Row, t: string, u: string)
    requires Shown(x) && Shown(y) && FromLockee(x, t) == FromLockee(y, u)
    ensures x.lockee == y.lockee && x.since == y.since && t == u
  {
    CancelPrefix(LOCKEE_IS, x.lockee + FromSince(x, t), y.lockee + FromSince(y, u));
    assert FromSince(x, t)[0] == SINCE_IS[0] && FromSince(y, u)[0] == SINCE_IS[0];
    UntilQuote(x.lockee, FromSince(x, t), y.lockee, FromSince(y, u));
    CancelPrefix(SINCE_IS, x.since + (END_ENTRY + t), y.since + (END_ENTRY + u));
    SameLength(x.since, END_ENTRY + t, y.since, END_ENTRY + u);
    CancelPrefix(END_ENTRY, t, u);
  }

  lemma RowFollowed(x: Row, t: string)
    ensures RowText(Raw, x) + t == KEY_IS + (x.key + FromLockee(x, t))
  {
    RowLayout(Raw, x);
    Followed(KEY_IS, x.key, LOCKEE_IS, x.lockee, SINCE_IS, x.since, END_ENTRY, t);
  }

  lemma Followed(a: string, k: string, b: string, l: string, c: string, e: string, z: string, t: string)
    ensures (a + (k + (b + (l + (c + (e + z)))))) + t == a + (k + (b + (l + (c + (e + (z + t))))))
  {
    var x := c + (e + z);
    assert x + t == c + (e + (z + t));
    var y := b + (l + x);
    assert y + t == b + (l + (x + t));
    assert (a + (k + y)) + t == a + (k + (y + t));
  }

  /** Whatever their times, entries are an injective prefix-free code for what they show. */
  lemma EntryPrefixFree(x: Row, y: Row, t: string, u: string)
    requires Shown(x) && Shown(y) && RowText(Raw, x) + t == RowText(Raw, y) + u
    ensures x == y && t == u
  {
    RowFollowed(x, t);
    RowFollowed(y, u);
    CancelPrefix(KEY_IS, x.key + FromLockee(x, t), y.key + FromLockee(y, u));
    assert FromLockee(x, t)[0] == LOCKEE_IS[0] && FromLockee(y, u)[0] == LOCKEE_IS[0];
    UntilQuote(x.key, FromLockee(x, t), y.key, FromLockee(y, u));
    LockeeDetermined(x, y, t, u);
  }

  ghost predicate Show(items: seq<string>, xs: seq<Row>) {
    |items| == |xs| && forall i :: 0 <= i < |xs| ==> items[i] == RowText(Raw, xs[i]) && Shown(xs[i])
  }

  lemma ItemsShow(es: seq<Entry>, k: nat)
    requires k <= |es| && EntriesUnquoted(es)
    ensures Show(Items(Stamp, es)[..k], RowsFor(es, k))
  {
    forall i | 0 <= i < k ensures Items(Stamp, es)[i] == RowText(Raw, RowFor(es[i])) {
      ItemIsRow(es, i);
    }
  }

  /** What follows a row: the end of the list, or a comma and more rows. */
  function AfterRow(items: seq<string>): (s: string) {
    if items == [] then CLOSING else "," + RowsText(items, CLOSING)
  }

  lemma RowsUnfold(items: seq<string>)
    requires items != []
    ensures RowsText(items, CLOSING) == items[0] + AfterRow(items[1..])
  {
  }

  lemma RowsBegin(items: seq<string>, xs: seq<Row>)
    requires Show(items, xs)
    ensures RowsText(items, CLOSING) != "" && (RowsText(items, CLOSING)[0] == ']' <==> xs == [])
  {
    if xs != [] {
      RowsUnfold(items);
      assert items[0][0] == '{';
    }
  }

  lemma FirstRow(items: seq<string>, xs: seq<Row>, items': seq<string>, ys: seq<Row>)
    requires Show(items, xs) && Show(items', ys) && RowsText(items, CLOSING) == RowsText(items', CLOSING)
    requires xs != [] && ys != []
    ensures xs[0] == ys[0] && AfterRow(items[1..]) == AfterRow(items'[1..])
  {
    RowsUnfold(items);
    RowsUnfold(items');
    EntryPrefixFree(xs[0], ys[0], AfterRow(items[1..]), AfterRow(items'[1..]));
  }

  lemma ShowTail(items: seq<string>, xs: seq<Row>)
    requires Show(items, xs) && xs != []
    ensures Show(items[1..], xs[1..])
  {
  }

  lemma SameSeq(xs: seq<Row>, ys: seq<Row>)
    requires xs != [] && ys != [] && xs[0] == ys[0] && xs[1..] == ys[1..]
    ensures xs == ys
  {
    assert xs == [xs[0]] + xs[1..] && ys == [ys[0]] + ys[1..];
  }

  lemma RowsLeft(items: seq<string>, items': seq<string>)
    requires AfterRow(items) == AfterRow(items')
    ensures RowsText(items, CLOSING) == RowsText(items', CLOSING)
  {
    AfterRowBegins(items);
    AfterRowBegins(items');
    if items != [] {
      CancelPrefix(",", RowsText(items, CLOSING), RowsText(items', CLOSING));
    }
  }

  lemma {:induction false} RowsDetermine(items: seq<string>, xs: seq<Row>, items': seq<string>, ys: seq<Row>)
    requires Show(items, xs) && Show(items', ys) && RowsText(items, CLOSING) == RowsText(items', CLOSING)
    ensures xs == ys
    decreases |xs|
  {
    RowsBegin(items, xs);
    RowsBegin(items', ys);
    if xs != [] {
      FirstRow(items, xs, items', ys);
      RowsLeft(items[1..], items'[1..]);
      ShowTail(items, xs);
      ShowTail(items', ys);
      RowsDetermine(items[1..], xs[1..], items'[1..], ys[1..]);
      SameSeq(xs, ys);
    }
  }

  lemma AfterRowBegins(items: seq<string>)
    ensures AfterRow(items) != "" && (AfterRow(items)[0] == ']' <==> items == [])
  {
  }

  lemma ItemIsRow(es: seq<Entry>, i: nat)
    requires i < |es|
    ensures Items(Stamp, es)[i] == RowText(Raw, RowFor(es[i]))
  {
    PrintAllAt(Item(Stamp), es, i);
    EntryIsRow(es[i]);
  }

  lemma SameRows(es: seq<Entry>, es': seq<Entry>, k: nat)
    requires k <= |es| && k <= |es'| && RowsFor(es, k) == RowsFor(es', k)
    ensures Written(Items(Stamp, es), k) + CLOSING == Written(Items(Stamp, es'), k) + CLOSING
  {
    var items, items' := Items(Stamp, es), Items(Stamp, es');
    forall i | 0 <= i < k ensures items[i] == items'[i] {
      ItemIsRow(es, i);
      ItemIsRow(es', i);
      assert RowsFor(es, k)[i] == RowsFor(es', k)[i];
    }
    BodyIsList(items, k);
    BodyIsList(items', k);
    assert items[..k] == items'[..k];
  }

  /** Until the end of year 9999 a shown timestamp determines the time as well. */
  lemma StampDetermines(t: nat, u: nat)
    requires t < END_OF_YEAR_9999 && u < END_OF_YEAR_9999
    ensures Stamp(t) == Stamp(u) <==> t == u
  {
    TimestampRoundTrip(t);
    TimestampRoundTrip(u);
  }
}
