/** The Zig server's JSON output: an escaping string writer and the listing built from it. */
module ZigJson {
  import opened ByteScan
  import opened JsonReader
  import opened Wrappers

  function Escaped(c: char): (s: string)
    ensures s != [] && s[0] != '"'
  {
    match c
    case '"' => "\\\""
    case '\\' => "\\\\"
    case '\n' => "\\n"
    case '\r' => "\\r"
    case '\t' => "\\t"
    case _ => [c]
  }

  /** A string with every character written by `esc`. */
  function EscapeWith(esc: char -> string, s: string): (r: string) {
    if s == [] then [] else esc(s[0]) + EscapeWith(esc, s[1..])
  }

  function EscapeAll(s: string): (r: string) {
    EscapeWith(Escaped, s)
  }

  /** A JSON string. */
  function Quoted(s: string): (r: string) {
    "\"" + EscapeAll(s) + "\""
  }

  /** `writeJsonString`: appends to the output character by character. */
  method WriteJsonString(out: string, s: string) returns (r: string)
    ensures r == out + Quoted(s)
  {
    r := out + "\"";
    ghost var start := r;
    for i := 0 to |s|
      invariant r == start + EscapeWith(Escaped, s[..i])
    {
      EscapeNext(Escaped, start, s, i);
      r := r + Escaped(s[i]);
    }
    assert s[..|s|] == s;
    Grouped(out, "\"", EscapeAll(s), "\"");
    r := r + "\"";
  }

  lemma EscapeNext(esc: char -> string, start: string, s: string, i: nat)
    requires i < |s|
    ensures start + EscapeWith(esc, s[..i + 1]) == start + EscapeWith(esc, s[..i]) + esc(s[i])
  {
    EscapeSnoc(esc, s[..i], s[i]);
    assert s[..i + 1] == s[..i] + [s[i]];
    Joined(start, EscapeWith(esc, s[..i]), esc(s[i]));
  }

  lemma Joined(a: string, b: string, c: string)
    ensures a + (b + c) == a + b + c
  {
  }

  lemma Grouped(a: string, b: string, c: string, d: string)
    ensures a + b + c + d == a + (b + c + d)
  {
  }

  lemma {:induction false} EscapeSnoc(esc: char -> string, s: string, c: char)
    ensures EscapeWith(esc, s + [c]) == EscapeWith(esc, s) + esc(c)
  {
    if s == [] {
      assert [c][1..] == [] && esc(c) + [] == esc(c);
    } else {
      EscapeSnoc(esc, s[1..], c);
      assert (s + [c])[1..] == s[1..] + [c] && (s + [c])[0] == s[0];
      Joined(esc(s[0]), EscapeWith(esc, s[1..]), esc(c));
    }
  }

  /** What `esc` writes for `c` stands for `c` by JSON's rules. */
  ghost predicate MeansAt(esc: char -> string, c: char) {
    var e := esc(c);
    if e != [] && e[0] == '\\' then |e| == 2 && EscapeOf(e[1]) == Some(c) else e == [c] && c != '"'
  }

  ghost predicate IsEscape(esc: char -> string) {
    forall c :: MeansAt(esc, c)
  }

  /** Every character is written as itself or by the escape that JSON has for it. */
  lemma EscapedIsEscape()
    ensures IsEscape(Escaped)
  {
    forall c ensures MeansAt(Escaped, c) {
    }
  }

  lemma CharRead(esc: char -> string, s: string, p: nat, c: char, t: string, q: nat)
    requires IsEscape(esc) && At(s, p, esc(c)) && EscapedText(s, p + |esc(c)|) == Some((t, q))
    ensures EscapedText(s, p) == Some(([c] + t, q))
  {
    assert MeansAt(esc, c);
    AtIndex(s, p, esc(c), p);
    if |esc(c)| == 2 {
      AtIndex(s, p, esc(c), p + 1);
    }
  }

  lemma HeadSplits(esc: char -> string, s: string, p: nat, t: string)
    requires t != [] && At(s, p, EscapeWith(esc, t) + "\"")
    ensures At(s, p, esc(t[0])) && At(s, p + |esc(t[0])|, EscapeWith(esc, t[1..]) + "\"")
    ensures |EscapeWith(esc, t)| == |esc(t[0])| + |EscapeWith(esc, t[1..])|
  {
    Joined(esc(t[0]), EscapeWith(esc, t[1..]), "\"");
    AtSplit(s, p, esc(t[0]), EscapeWith(esc, t[1..]) + "\"");
  }

  /** Undoing JSON's escapes gives the string back, up to its closing quote. */
  lemma {:induction false} EscapedIsRead(esc: char -> string, s: string, p: nat, t: string)
    requires IsEscape(esc) && At(s, p, EscapeWith(esc, t) + "\"")
    ensures EscapedText(s, p) == Some((t, p + |EscapeWith(esc, t)| + 1))
    decreases |t|
  {
    if t == [] {
      AtIndex(s, p, EscapeWith(esc, t) + "\"", p);
    } else {
      HeadSplits(esc, s, p, t);
      EscapedIsRead(esc, s, p + |esc(t[0])|, t[1..]);
      CharRead(esc, s, p, t[0], t[1..], p + |EscapeWith(esc, t)| + 1);
      assert t == [t[0]] + t[1..];
    }
  }

  lemma ReadsBack(esc: char -> string, enc: Printer, t: string)
    requires IsEscape(esc) && enc(t) == EscapeWith(esc, t)
    ensures Reads(EscapedText, enc, t)
  {
    forall s: string, p: nat ensures ReadsAt(EscapedText, enc, t, s, p) {
      ReadsBackAt(esc, enc(t), t, s, p);
    }
  }

  lemma ReadsBackAt(esc: char -> string, e: string, t: string, s: string, p: nat)
    requires IsEscape(esc) && e == EscapeWith(esc, t)
    ensures At(s, p, e + "\"") ==> EscapedText(s, p) == Some((t, p + |e| + 1))
  {
    if At(s, p, e + "\"") {
      EscapedIsRead(esc, s, p, t);
    }
  }

  lemma EscapedReads(t: string)
    ensures Reads(EscapedText, EscapeAll, t)
  {
    EscapedIsEscape();
    ReadsBack(Escaped, EscapeAll, t);
  }

  /** A reader of JSON strings gets every string back and stops behind its closing quote, whatever follows. */
  lemma QuotedIsRead(t: string, rest: string)
    ensures var s := Quoted(t) + rest; s[0] == '"' && EscapedText(s, 1) == Some((t, |Quoted(t)|))
  {
    var s, e := Quoted(t) + rest, EscapeAll(t);
    assert s[1..1 + |e| + 1] == e + "\"";
    EscapedIsEscape();
    EscapedIsRead(Escaped, s, 1, t);
  }

  /** JSON strings are an injective, prefix-free code on all byte strings. */
  lemma QuotedPrefixFree(s: string, s': string, t: string, u: string)
    requires Quoted(s) + t == Quoted(s') + u
    ensures s == s' && t == u
  {
    QuotedIsRead(s, t);
    QuotedIsRead(s', u);
    CancelPrefix(Quoted(s), t, u);
  }

  /** One listed lock; the timestamp is already text. */
  type Item = Row

  const KEY_NAME: string := "{\"key\":"
  const LOCKEE_NAME: string := ",\"lockee\":"
  const SINCE_NAME: string := ",\"since\":\""
  const END_ITEM: string := "\"}"
  const OPENING: string := "{\"locks\":["
  const CLOSING: string := "]}\n"

  function ItemText(x: Item): (s: string) {
    KEY_NAME + (Quoted(x.key) + (LOCKEE_NAME + (Quoted(x.lockee) + (SINCE_NAME + (x.since + END_ITEM)))))
  }

  /** The rest of the listing from some entry on; all but the first entry are preceded by a comma. */
  function RestText(xs: seq<Item>, first: bool): (s: string) {
    if xs == [] then CLOSING
    else (if first then "" else ",") + (ItemText(xs[0]) + RestText(xs[1..], false))
  }

  function LocksText(xs: seq<Item>): (s: string) {
    OPENING + RestText(xs, true)
  }

  lemma RestUnfolds(out: string, xs: seq<Item>, i: nat)
    requires i < |xs|
    ensures out + RestText(xs[i..], i == 0)
         == out + (if i == 0 then "" else ",") + ItemText(xs[i]) + RestText(xs[i + 1..], false)
  {
    var sep, item, rest := if i == 0 then "" else ",", ItemText(xs[i]), RestText(xs[i + 1..], false);
    assert xs[i..][0] == xs[i] && xs[i..][1..] == xs[i + 1..];
    assert out + (sep + (item + rest)) == out + sep + item + rest;
  }

  /** `handleList`: the body, entry by entry. */
  method WriteList(xs: seq<Item>) returns (out: string)
    ensures out == LocksText(xs)
  {
    out := OPENING;
    assert xs[0..] == xs;
    for i := 0 to |xs|
      invariant WrittenSoFar(out, xs, i)
    {
      out := WriteEntry(out, xs, i);
    }
    out := out + CLOSING;
  }

  /** What is written, followed by the rest of the entries, is the whole text. */
  ghost predicate WrittenSoFar(out: string, xs: seq<Item>, i: nat) {
    i <= |xs| && out + RestText(xs[i..], i == 0) == LocksText(xs)
  }

  /** One round of the loop: a comma before all but the first entry, then the entry. */
  method WriteEntry(out: string, xs: seq<Item>, i: nat) returns (r: string)
    requires i < |xs|
    ensures WrittenSoFar(out, xs, i) ==> WrittenSoFar(r, xs, i + 1)
  {
    RestUnfolds(out, xs, i);
    r := out + (if i == 0 then "" else ",");
    var item := WriteItem(xs[i]);
    r := r + item;
  }

  method WriteItem(x: Item) returns (out: string)
    ensures out == ItemText(x)
  {
    out := WriteJsonString(KEY_NAME, x.key);
    out := WriteJsonString(out + LOCKEE_NAME, x.lockee);
    out := out + SINCE_NAME + x.since + END_ITEM;
    Reassociate(KEY_NAME, Quoted(x.key), LOCKEE_NAME, Quoted(x.lockee), SINCE_NAME, x.since + END_ITEM);
    assert SINCE_NAME + x.since + END_ITEM == SINCE_NAME + (x.since + END_ITEM);
  }

  lemma Reassociate(a: string, b: string, c: string, d: string, e: string, f: string)
    ensures a + b + c + d + e + f == a + (b + (c + (d + (e + f))))
  {
  }

  /** Text that is written as it is: it has none of the five characters that are escaped. */
  predicate IsPlain(s: string) {
    forall c :: c in s ==> c != '"' && c != '\\' && c != '\n' && c != '\r' && c != '\t'
  }

  lemma PlainCharIsKept(c: char)
    requires c != '"' && c != '\\' && c != '\n' && c != '\r' && c != '\t'
    ensures Escaped(c) == [c]
  {
  }

  lemma {:induction false} PlainIsKept(s: string)
    requires IsPlain(s)
    ensures EscapeWith(Escaped, s) == s
  {
    if s != [] {
      assert s[0] in s && forall c :: c in s[1..] ==> c in s;
      PlainIsKept(s[1..]);
      PlainCharIsKept(s[0]);
      assert s == [s[0]] + s[1..];
    }
  }

  /** An item is printed as a row is. */
  lemma ItemIsRow(x: Item)
    requires IsPlain(x.since)
    ensures ItemText(x) == RowText(EscapeAll, x)
  {
    RowLayout(EscapeAll, x);
    PlainIsKept(x.since);
    ItemGlue(EscapeAll(x.key), EscapeAll(x.lockee), x.since + END_ITEM);
  }

  lemma ItemGlue(k: string, l: string, rest: string)
    ensures KEY_NAME + ("\"" + k + "\"" + (LOCKEE_NAME + ("\"" + l + "\"" + (SINCE_NAME + rest))))
         == "{\"key\":\"" + (k + ("\",\"lockee\":\"" + (l + ("\",\"since\":\"" + rest))))
  {
    assert KEY_NAME + "\"" == "{\"key\":\"";
    assert "\"" + LOCKEE_NAME + "\"" == "\",\"lockee\":\"";
    assert "\"" + SINCE_NAME == "\",\"since\":\"";
    Regroup(KEY_NAME, "\"", k, "\"", LOCKEE_NAME, l, SINCE_NAME, rest);
  }

  lemma Regroup(a: string, q: string, k: string, r: string, b: string, l: string, c: string, rest: string)
    ensures a + (q + k + r + (b + (q + l + r + (c + rest)))) == (a + q) + (k + ((r + b + q) + (l + ((r + c) + rest))))
  {
    var x := r + (c + rest);
    assert q + l + r + (c + rest) == q + (l + x) && x == r + c + rest;
    assert q + k + r + (b + (q + (l + x))) == q + (k + (r + b + q + (l + x)));
  }

  function ItemTexts(xs: seq<Item>): (ts: seq<string>)
    ensures |ts| == |xs| && forall i :: 0 <= i < |xs| ==> ts[i] == ItemText(xs[i])
  {
    seq(|xs|, i requires 0 <= i < |xs| => ItemText(xs[i]))
  }

  lemma {:induction false} RestIsList(xs: seq<Item>, first: bool)
    ensures RestText(xs, first) == (if first || xs == [] then "" else ",") + RowsText(ItemTexts(xs), CLOSING)
  {
    if xs != [] {
      RestIsList(xs[1..], false);
      assert ItemTexts(xs)[1..] == ItemTexts(xs[1..]);
      assert "" + CLOSING == CLOSING;
    }
  }

  lemma BodyIsList(xs: seq<Item>)
    ensures LocksText(xs) == LOCKS_IS + RowsText(ItemTexts(xs), CLOSING)
  {
    RestIsList(xs, true);
    assert "" + RowsText(ItemTexts(xs), CLOSING) == RowsText(ItemTexts(xs), CLOSING);
  }

  lemma ItemIsFine(x: Item)
    ensures RowFine(EscapedText, EscapeAll, x)
  {
    EscapedReads(x.key);
    EscapedReads(x.lockee);
    EscapedReads(x.since);
  }

  /** A client that reads the body of `/locks` by the names of its members gets the listed locks back. */
  lemma ListIsRead(xs: seq<Item>)
    requires forall x :: x in xs ==> IsPlain(x.since)
    ensures ReadLocks(EscapedText, LocksText(xs)) == Some(xs)
  {
    BodyIsList(xs);
    forall i | 0 <= i < |xs|
      ensures RowFine(EscapedText, EscapeAll, xs[i]) && ItemTexts(xs)[i] == RowText(EscapeAll, xs[i])
    {
      ItemIsFine(xs[i]);
      ItemIsRow(xs[i]);
    }
    LocksRead(EscapedText, EscapeAll, LocksText(xs), ItemTexts(xs), xs, CLOSING);
  }

  /** Text without quotes ends at the first one. */
  lemma {:induction false} PlainEnds(a: string, b: string, t: string, u: string)
    requires '"' !in a && '"' !in b && a + ("\"" + t) == b + ("\"" + u)
    ensures a == b && t == u
  {
    var x, y := a + ("\"" + t), b + ("\"" + u);
    if a == [] || b == [] {
      assert x[0] == y[0];
      assert x[1..] == y[1..];
      assert a == [] && b == [] ==> x[1..] == t && y[1..] == u;
    } else {
      assert x[1..] == a[1..] + ("\"" + t) && y[1..] == b[1..] + ("\"" + u);
      assert x[0] == a[0] && y[0] == b[0];
      PlainEnds(a[1..], b[1..], t, u);
    }
  }

  /** The tail of an item after the lockee's name. */
  function AfterKey(x: Item, t: string): (s: string) {
    LOCKEE_NAME + (Quoted(x.lockee) + AfterLockee(x, t))
  }

  function AfterLockee(x: Item, t: string): (s: string) {
    SINCE_NAME + (x.since + ("\"" + ("}" + t)))
  }

  lemma ItemParts(x: Item, t: string)
    ensures ItemText(x) + t == KEY_NAME + (Quoted(x.key) + AfterKey(x, t))
  {
    assert x.since + END_ITEM + t == x.since + ("\"" + ("}" + t));
    Reassociate(KEY_NAME, Quoted(x.key), LOCKEE_NAME, Quoted(x.lockee), SINCE_NAME, x.since + END_ITEM);
    Reassociate(KEY_NAME, Quoted(x.key), LOCKEE_NAME, Quoted(x.lockee), SINCE_NAME, x.since + END_ITEM + t);
  }

  lemma ItemPrefixFree(x: Item, y: Item, t: string, u: string)
    requires '"' !in x.since && '"' !in y.since && ItemText(x) + t == ItemText(y) + u
    ensures x == y && t == u
  {
    ItemParts(x, t);
    ItemParts(y, u);
    CancelPrefix(KEY_NAME, Quoted(x.key) + AfterKey(x, t), Quoted(y.key) + AfterKey(y, u));
    QuotedPrefixFree(x.key, y.key, AfterKey(x, t), AfterKey(y, u));
    CancelPrefix(LOCKEE_NAME, Quoted(x.lockee) + AfterLockee(x, t), Quoted(y.lockee) + AfterLockee(y, u));
    QuotedPrefixFree(x.lockee, y.lockee, AfterLockee(x, t), AfterLockee(y, u));
    CancelPrefix(SINCE_NAME, x.since + ("\"" + ("}" + t)), y.since + ("\"" + ("}" + u)));
    PlainEnds(x.since, y.since, "}" + t, "}" + u);
    CancelPrefix("}", t, u);
  }

  lemma {:induction false} RestDetermines(xs: seq<Item>, ys: seq<Item>, first: bool)
    requires (forall x :: x in xs ==> '"' !in x.since) && (forall y :: y in ys ==> '"' !in y.since)
    requires RestText(xs, first) == RestText(ys, first)
    ensures xs == ys
  {
    RestStart(xs, first);
    RestStart(ys, first);
    if xs != [] {
      var t, u := RestText(xs[1..], false), RestText(ys[1..], false);
      CancelPrefix(if first then "" else ",", ItemText(xs[0]) + t, ItemText(ys[0]) + u);
      ItemPrefixFree(xs[0], ys[0], t, u);
      RestDetermines(xs[1..], ys[1..], false);
      assert xs == [xs[0]] + xs[1..] && ys == [ys[0]] + ys[1..];
    }
  }

  lemma RestStart(xs: seq<Item>, first: bool)
    ensures RestText(xs, first) != [] && (RestText(xs, first)[0] == ']' <==> xs == [])
  {
    if xs != [] {
      assert (ItemText(xs[0]) + RestText(xs[1..], false))[0] == KEY_NAME[0] == '{';
    }
  }

  /** The whole body of `/locks` determines the listed keys, lockees and timestamps, in order. */
  lemma ListDetermines(xs: seq<Item>, ys: seq<Item>)
    requires (forall x :: x in xs ==> '"' !in x.since) && (forall y :: y in ys ==> '"' !in y.since)
    ensures LocksText(xs) == LocksText(ys) <==> xs == ys
  {
    if LocksText(xs) == LocksText(ys) {
      CancelPrefix(OPENING, RestText(xs, true), RestText(ys, true));
      RestDetermines(xs, ys, true);
    }
  }
}
