/** The body of `GET /locks` in the C server: slot order, cut off near the end of its buffer. */
module Listing {
  import opened Buffers
  import opened CInts
  import opened ProbeTable
  import opened Timestamp

  const BODY_SIZE: nat := 7936
  /** Past this length no further entry is started. */
  const LIMIT: nat := 7680
  const OPENING: string := "{\"locks\":["
  const CLOSING: string := "]}"
  const KEY_IS: string := "{\"key\":\""
  const LOCKEE_IS: string := "\",\"lockee\":\""
  const SINCE_IS: string := "\",\"since\":\""
  const END_ENTRY: string := "\"}"

  /** The bounds every stored entry keeps. */
  predicate Small(e: Entry) {
    |e.key| < 128 && |e.lockee| < 64 && e.since < INT64_LIMIT
  }

  function NamesText(key: string, lockee: string): (s: string)
    ensures |s| == 20 + |key| + |lockee|
  {
    KEY_IS + key + LOCKEE_IS + lockee
  }

  function EntryText(e: Entry, stamp: string): (s: string)
    ensures |s| == 33 + |e.key| + |e.lockee| + |stamp|
  {
    NamesText(e.key, e.lockee) + SINCE_IS + stamp + END_ENTRY
  }

  /** The timestamp of an entry as the listing prints it. */
  function Stamp(since: nat): (s: string)
    ensures |s| == 20
  {
    Text(CFields(since))
  }

  /** How entries are printed, given how their times are. */
  function Item(stamp: nat -> string): (show: Entry -> string) {
    (e: Entry) => EntryText(e, stamp(e.since))
  }

  ghost predicate StampsAt(stamp: nat -> string, n: nat) {
    stamp(n) == Stamp(n)
  }

  /** `stamp` prints times as `Stamp` does. */
  ghost predicate Stamps(stamp: nat -> string) {
    forall n :: StampsAt(stamp, n)
  }

  /** Entries printed in order. */
  function PrintAll(show: Entry -> string, es: seq<Entry>): (r: seq<string>)
    ensures |r| == |es|
  {
    if es == [] then [] else PrintAll(show, es[..|es| - 1]) + [show(es[|es| - 1])]
  }

  lemma {:induction false} PrintAllAppend(show: Entry -> string, es: seq<Entry>, more: seq<Entry>)
    ensures PrintAll(show, es + more) == PrintAll(show, es) + PrintAll(show, more)
    decreases |more|
  {
    if more == [] {
      assert es + more == es;
    } else {
      var n := |more| - 1;
      PrintAllAppend(show, es, more[..n]);
      assert (es + more)[..|es + more| - 1] == es + more[..n];
    }
  }

  lemma PrintAllSnoc(show: Entry -> string, es: seq<Entry>, e: Entry)
    ensures PrintAll(show, es + [e]) == PrintAll(show, es) + [show(e)]
  {
    assert (es + [e])[..|es|] == es;
  }

  lemma {:induction false} PrintAllAt(show: Entry -> string, es: seq<Entry>, i: nat)
    requires i < |es|
    ensures PrintAll(show, es)[i] == show(es[i])
  {
    if i < |es| - 1 {
      PrintAllAt(show, es[..|es| - 1], i);
    }
  }

  /** The items of a listing. */
  function Items(stamp: nat -> string, es: seq<Entry>): (r: seq<string>)
    ensures |r| == |es|
  {
    PrintAll(Item(stamp), es)
  }

  lemma {:induction false} PrintAllBounded(show: Entry -> string, es: seq<Entry>, bound: nat)
    requires forall e :: e in es ==> |show(e)| <= bound
    ensures forall i :: 0 <= i < |es| ==> |PrintAll(show, es)[i]| <= bound
  {
    if es != [] {
      PrintAllBounded(show, es[..|es| - 1], bound);
    }
  }

  lemma ItemsSmall(stamp: nat -> string, es: seq<Entry>)
    requires Stamps(stamp) && forall e :: e in es ==> Small(e)
    ensures forall i :: 0 <= i < |es| ==> |Items(stamp, es)[i]| <= 243
  {
    forall e | e in es ensures |Item(stamp)(e)| <= 243 {
      assert Small(e) && StampsAt(stamp, e.since);
    }
    PrintAllBounded(Item(stamp), es, 243);
  }

  /** The body text once the first `k` entries are written. */
  function Written(items: seq<string>, k: nat): (s: string)
    requires k <= |items|
  {
    if k == 0 then OPENING
    else Written(items, k - 1) + (if k == 1 then "" else ",") + items[k - 1]
  }

  /** The loop ends after `k` entries: all of them, or the first count that passes the limit. */
  ghost predicate StopsAt(items: seq<string>, k: nat) {
    && k <= |items|
    && (forall j :: 0 < j < k ==> |Written(items, j)| <= LIMIT)
    && (k == |items| || (k > 0 && |Written(items, k)| > LIMIT))
  }

  lemma {:induction false} WrittenFrame(items: seq<string>, more: seq<string>, k: nat)
    requires k <= |items|
    ensures Written(items + more, k) == Written(items, k)
  {
    if k > 0 {
      WrittenFrame(items, more, k - 1);
    }
  }

  lemma {:induction false} WrittenLength(items: seq<string>, k: nat)
    requires k <= |items| && forall i :: 0 <= i < |items| ==> |items[i]| <= 243
    ensures |OPENING| <= |Written(items, k)| <= |OPENING| + 244 * k
  {
    if k > 0 {
      WrittenLength(items, k - 1);
    }
  }

  /** The finished body always fits, and a listing cut short still shows at least 32 locks. */
  lemma ListingBounds(items: seq<string>, k: nat)
    requires StopsAt(items, k) && forall i :: 0 <= i < |items| ==> |items[i]| <= 243
    ensures |Written(items, k) + CLOSING| <= BODY_SIZE
    ensures k < |items| ==> k >= 32
  {
    WrittenLength(items, k);
    if k > 0 {
      WrittenLength(items, k - 1);
      assert k > 1 ==> |Written(items, k - 1)| <= LIMIT;
      assert k == 1 ==> Written(items, k - 1) == OPENING;
    }
  }

  lemma {:induction false} WrittenGrows(items: seq<string>, j: nat, k: nat)
    requires j <= k <= |items|
    ensures |Written(items, j)| <= |Written(items, k)|
    decreases k - j
  {
    if j < k {
      WrittenGrows(items, j, k - 1);
    }
  }

  /** The listing is complete exactly if everything but the last entry stays within the limit. */
  lemma ListingCompleteIff(items: seq<string>, k: nat)
    requires StopsAt(items, k)
    ensures k == |items| <==> |items| <= 1 || |Written(items, |items| - 1)| <= LIMIT
  {
    if k < |items| {
      WrittenGrows(items, k, |items| - 1);
    }
  }

  lemma {:induction false} UniformLength(items: seq<string>, k: nat)
    requires k <= |items| && forall i :: 0 <= i < |items| ==> |items[i]| == 243
    ensures |Written(items, k)| == |OPENING| + 243 * k + (if k == 0 then 0 else k - 1)
  {
    if k > 0 {
      UniformLength(items, k - 1);
    }
  }

  method PutNames(buf: array<char>, at: nat, key: string, lockee: string) returns (next: nat)
    requires at + 20 + |key| + |lockee| <= buf.Length
    modifies buf
    ensures next == at + 20 + |key| + |lockee| && buf[..next] == old(buf[..at]) + NamesText(key, lockee)
  {
    next := Put(buf, at, KEY_IS);
    next := Put(buf, next, key);
    next := Put(buf, next, LOCKEE_IS);
    next := Put(buf, next, lockee);
  }

  /** One entry of the loop body, copied piece by piece. */
  method PutEntry(buf: array<char>, at: nat, e: Entry, stamp: string) returns (next: nat)
    requires at + |EntryText(e, stamp)| <= buf.Length
    modifies buf
    ensures next == at + |EntryText(e, stamp)| && buf[..next] == old(buf[..at]) + EntryText(e, stamp)
  {
    next := PutNames(buf, at, e.key, e.lockee);
    next := Put(buf, next, SINCE_IS);
    next := Put(buf, next, stamp);
    next := Put(buf, next, END_ENTRY);
  }

  method StampText(since: nat) returns (text: string)
    requires since < INT64_LIMIT
    ensures text == Stamp(since)
  {
    var buf := new char[21](_ => ' ');
    var n := Format(since, buf);
    text := buf[..n];
  }

  /** The occupied entries among the first `n` slots, in slot order. */
  function Occupied(es: seq<Entry>, n: nat): (r: seq<Entry>)
    requires n <= |es|
    ensures forall e :: e in r ==> e.occupied && e in es
  {
    if n == 0 then [] else Occupied(es, n - 1) + (if es[n - 1].occupied then [es[n - 1]] else [])
  }

  /** `done` followed by the occupied entries among the first `n` slots, one at a time. */
  function Reached(done: seq<Entry>, es: seq<Entry>, n: nat): (r: seq<Entry>)
    requires n <= |es|
  {
    if n == 0 then done
    else if es[n - 1].occupied then Reached(done, es, n - 1) + [es[n - 1]]
    else Reached(done, es, n - 1)
  }

  /** The occupied entries of the first `n` tables. */
  function AllOccupied(tables: seq<seq<Entry>>, n: nat): (r: seq<Entry>)
    requires n <= |tables|
  {
    if n == 0 then [] else AllOccupied(tables, n - 1) + Occupied(tables[n - 1], |tables[n - 1]|)
  }

  /** What the loops have written: all of `items`, stopped by the limit or still within it. */
  ghost predicate Filled(items: seq<string>, text: string, stopped: bool) {
    && text == Written(items, |items|)
    && (forall j :: 0 < j < |items| ==> |Written(items, j)| <= LIMIT)
    && (if stopped then items != [] && |text| > LIMIT else |text| <= LIMIT)
  }

  lemma FilledNext(items: seq<string>, item: string, text: string)
    requires Filled(items, text, false)
    ensures var text' := text + (if items == [] then "" else ",") + item;
      Filled(items + [item], text', |text'| > LIMIT)
  {
    forall j | 0 <= j <= |items| ensures Written(items + [item], j) == Written(items, j) {
      WrittenFrame(items, [item], j);
    }
  }

  /** A finished run of the loops stops exactly where the specification says. */
  lemma FilledStops(items: seq<string>, rest: seq<string>, text: string, stopped: bool)
    requires Filled(items, text, stopped) && (stopped || rest == [])
    ensures StopsAt(items + rest, |items|) && text == Written(items + rest, |items|)
  {
    forall j | 0 <= j <= |items| ensures Written(items + rest, j) == Written(items, j) {
      WrittenFrame(items, rest, j);
    }
  }

  /** Writes one entry of the listing, with the comma that precedes all but the first. */
  method PutNext(body: array<char>, at: nat, e: Entry, text: string, first: bool, ghost items: seq<string>)
    returns (p: nat)
    requires body.Length == BODY_SIZE && at <= LIMIT && Small(e) && |text| == 20
    requires Filled(items, body[..at], false) && (first <==> items == [])
    modifies body
    ensures p <= LIMIT + 244 && Filled(items + [EntryText(e, text)], body[..p], p > LIMIT)
  {
    FilledNext(items, EntryText(e, text), body[..at]);
    ghost var before := body[..at];
    p := at;
    if !first {
      p := Put(body, p, ",");
    }
    assert body[..p] == before + (if items == [] then "" else ",");
    p := PutEntry(body, p, e, text);
  }

  /** One slot: an occupied one is written, an empty one skipped. */
  method PutSlot(body: array<char>, at: nat, e: Entry, first: bool,
                 ghost stamp: nat -> string, ghost done: seq<Entry>) returns (p: nat)
    requires body.Length == BODY_SIZE && at <= LIMIT && (e.occupied ==> Small(e)) && Stamps(stamp)
    requires Filled(Items(stamp, done), body[..at], false) && (first <==> done == [])
    modifies body
    ensures p <= LIMIT + 244
    ensures Filled(Items(stamp, if e.occupied then done + [e] else done), body[..p], p > LIMIT)
  {
    p := at;
    if e.occupied {
      var text := StampText(e.since);
      assert text == stamp(e.since) by {
        assert StampsAt(stamp, e.since);
      }
      p := PutNext(body, p, e, text, first, Items(stamp, done));
      PrintAllSnoc(Item(stamp), done, e);
    }
  }

  /** The inner loop over one table's slots. */
  method PutTable(body: array<char>, at: nat, slots: array<Entry>, first: bool,
                  ghost stamp: nat -> string, ghost done: seq<Entry>)
    returns (p: nat, first': bool, stopped: bool, ghost done': seq<Entry>)
    requires body.Length == BODY_SIZE && at <= LIMIT && Stamps(stamp)
    requires forall i :: 0 <= i < slots.Length && slots[i].occupied ==> Small(slots[i])
    requires Filled(Items(stamp, done), body[..at], false) && (first <==> done == [])
    modifies body
    ensures p <= LIMIT + 244 && Filled(Items(stamp, done'), body[..p], stopped) && (first' <==> done' == [])
    ensures done' <= done + Occupied(slots[..], slots.Length)
    ensures !stopped ==> p <= LIMIT && done' == done + Occupied(slots[..], slots.Length)
  {
    ghost var es := slots[..];
    p, first', stopped, done' := at, first, false, done;
    var i := 0;
    while i < slots.Length && !stopped
      invariant 0 <= i <= slots.Length && slots[..] == es
      invariant p <= LIMIT + 244 && (!stopped ==> p <= LIMIT)
      invariant Filled(Items(stamp, done'), body[..p], stopped) && (first' <==> done' == [])
      invariant done' == Reached(done, es, i)
    {
      var e := slots[i];
      p := PutSlot(body, p, e, first', stamp, done');
      first', stopped := first' && !e.occupied, p > LIMIT;
      i := i + 1;
      done' := Reached(done, es, i);
    }
    StoppedWithin(done, es, i);
  }

  lemma {:induction false} OccupiedGrows(es: seq<Entry>, m: nat, n: nat)
    requires m <= n <= |es|
    ensures Occupied(es, m) <= Occupied(es, n)
    decreases n - m
  {
    if m < n {
      OccupiedGrows(es, m, n - 1);
    }
  }

  lemma {:induction false} ReachedAppends(done: seq<Entry>, es: seq<Entry>, n: nat)
    requires n <= |es|
    ensures Reached(done, es, n) == done + Occupied(es, n)
  {
    if n > 0 {
      ReachedAppends(done, es, n - 1);
    }
  }

  lemma StoppedWithin(done: seq<Entry>, es: seq<Entry>, m: nat)
    requires m <= |es|
    ensures Reached(done, es, m) <= done + Occupied(es, |es|)
    ensures m == |es| ==> Reached(done, es, m) == done + Occupied(es, |es|)
  {
    ReachedAppends(done, es, m);
    OccupiedGrows(es, m, |es|);
  }

  lemma {:induction false} AllOccupiedGrows(tables: seq<seq<Entry>>, m: nat, n: nat)
    requires m <= n <= |tables|
    ensures AllOccupied(tables, m) <= AllOccupied(tables, n)
    decreases n - m
  {
    if m < n {
      AllOccupiedGrows(tables, m, n - 1);
    }
  }

  ghost predicate AllSmall(tables: seq<seq<Entry>>) {
    forall i :: 0 <= i < |tables| ==> SmallTable(tables[i])
  }

  ghost predicate SmallTable(es: seq<Entry>) {
    forall j :: 0 <= j < |es| && es[j].occupied ==> Small(es[j])
  }

  /** The outer loop of `handle_get_locks` over the shards' slot arrays. */
  method PutTables(body: array<char>, arrays: seq<array<Entry>>, ghost tables: seq<seq<Entry>>,
                   ghost stamp: nat -> string)
    returns (p: nat, stopped: bool, ghost done: seq<Entry>)
    requires body.Length == BODY_SIZE && Stamps(stamp) && AllSmall(tables)
    requires |arrays| == |tables| && forall i :: 0 <= i < |arrays| ==> arrays[i][..] == tables[i]
    modifies body
    ensures p <= LIMIT + 244 && Filled(Items(stamp, done), body[..p], stopped)
    ensures done <= AllOccupied(tables, |tables|)
    ensures !stopped ==> done == AllOccupied(tables, |tables|)
  {
    p := Put(body, 0, OPENING);
    var first := true;
    stopped, done := false, [];
    var i := 0;
    while i < |arrays| && !stopped
      invariant 0 <= i <= |arrays|
      invariant forall j :: 0 <= j < |arrays| ==> arrays[j][..] == tables[j]
      invariant p <= LIMIT + 244 && (!stopped ==> p <= LIMIT)
      invariant Filled(Items(stamp, done), body[..p], stopped) && (first <==> done == [])
      invariant done <= AllOccupied(tables, i) && (!stopped ==> done == AllOccupied(tables, i))
    {
      assert SmallTable(tables[i]);
      p, first, stopped, done := PutTable(body, p, arrays[i], first, stamp, done);
      i := i + 1;
    }
    AllOccupiedGrows(tables, i, |tables|);
  }

  /** The whole body, built in a buffer of its fixed size. */
  method ListingText(arrays: seq<array<Entry>>, ghost tables: seq<seq<Entry>>, ghost stamp: nat -> string)
    returns (text: string, ghost k: nat)
    requires Stamps(stamp) && AllSmall(tables)
    requires |arrays| == |tables| && forall i :: 0 <= i < |arrays| ==> arrays[i][..] == tables[i]
    ensures var items := Items(stamp, AllOccupied(tables, |tables|));
      && StopsAt(items, k) && text == Written(items, k) + CLOSING
      && |text| <= BODY_SIZE && (k < |items| ==> k >= 32)
  {
    ghost var es := AllOccupied(tables, |tables|);
    AllOccupiedSmall(tables, |tables|);
    var body := new char[BODY_SIZE](_ => ' ');
    ghost var done;
    var p, stopped;
    p, stopped, done := PutTables(body, arrays, tables, stamp);
    ghost var rest := es[|done|..];
    assert es == done + rest;
    PrintAllAppend(Item(stamp), done, rest);
    FilledStops(Items(stamp, done), Items(stamp, rest), body[..p], stopped);
    k := |done|;
    ItemsSmall(stamp, es);
    ListingBounds(Items(stamp, es), k);
    p := Put(body, p, CLOSING);
    text := body[..p];
  }

  lemma {:induction false} AllOccupiedSmall(tables: seq<seq<Entry>>, n: nat)
    requires n <= |tables| && AllSmall(tables)
    ensures forall e :: e in AllOccupied(tables, n) ==> Small(e)
  {
    if n > 0 {
      AllOccupiedSmall(tables, n - 1);
      var es := tables[n - 1];
      assert SmallTable(es);
      forall e | e in Occupied(es, |es|) ensures Small(e) {
        var j :| 0 <= j < |es| && es[j] == e;
      }
    }
  }
}
