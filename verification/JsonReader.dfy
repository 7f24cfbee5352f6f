/**
 A client's reader of flat JSON objects and of a list of locks. It finds members by their names
 and is written from the JSON grammar alone, not from what any server prints.
 */
module JsonReader {
  import opened ByteScan
  import opened Wrappers

  /** A string, or a bare word such as `true`. */
  datatype Value = Text(s: string) | Word(s: string)

  datatype Pair = Pair(name: string, value: Value)

  /** Reads something at a position, and says where it ends. */
  type Reader<T> = (string, nat) -> Option<(T, nat)>

  /** Reads a string from behind its opening quote: its contents, and the position behind its closing quote. */
  type TextReader = Reader<string>

  /** Strings taken literally, up to the next quote. */
  function RawText(s: string, p: nat): (r: Option<(string, nat)>) {
    if p > |s| then None
    else
      var q := IndexFrom(s, '"', p);
      if q == |s| then None else Some((s[p..q], q + 1))
  }

  /** What a character behind a backslash stands for. */
  function EscapeOf(c: char): (r: Option<char>) {
    match c
    case '"' => Some('"')
    case '\\' => Some('\\')
    case '/' => Some('/')
    case 'n' => Some('\n')
    case 'r' => Some('\r')
    case 't' => Some('\t')
    case _ => None
  }

  /** Strings with JSON's escapes undone (section 7 of RFC 8259). */
  function EscapedText(s: string, p: nat): (r: Option<(string, nat)>)
    decreases |s| - p
  {
    if p >= |s| then None
    else if s[p] == '"' then Some(("", p + 1))
    else if s[p] != '\\' then Prepend(s[p], EscapedText(s, p + 1))
    else if p + 1 >= |s| then None
    else
      match EscapeOf(s[p + 1])
      case None => None
      case Some(c) => Prepend(c, EscapedText(s, p + 2))
  }

  function Prepend(c: char, r: Option<(string, nat)>): (r': Option<(string, nat)>) {
    if r.None? then None else Some(([c] + r.value.0, r.value.1))
  }

  predicate EndsWord(c: char) {
    c == ',' || c == '}' || c == ']'
  }

  function WordEnd(s: string, p: nat): (q: nat)
    requires p <= |s|
    ensures p <= q <= |s|
    decreases |s| - p
  {
    if p == |s| || EndsWord(s[p]) then p else WordEnd(s, p + 1)
  }

  function ReadValue(text: TextReader, s: string, p: nat): (r: Option<(Value, nat)>) {
    if p >= |s| then None
    else if s[p] == '"' then
      (match text(s, p + 1)
       case None => None
       case Some(t) => Some((Text(t.0), t.1)))
    else Some((Word(s[p..WordEnd(s, p)]), WordEnd(s, p)))
  }

  function ReadPair(text: TextReader, s: string, p: nat): (r: Option<(Pair, nat)>) {
    if p >= |s| || s[p] != '"' then None
    else
      match RawText(s, p + 1)
      case None => None
      case Some(name) =>
        if name.1 >= |s| || s[name.1] != ':' then None
        else
          match ReadValue(text, s, name.1 + 1)
          case None => None
          case Some(v) => Some((Pair(name.0, v.0), v.1))
  }

  /** Items separated by commas, up to `close`, and the position behind it. */
  function ReadList<T>(item: Reader<T>, close: char, s: string, p: nat): (r: Option<(seq<T>, nat)>)
    decreases |s| - p
  {
    match item(s, p)
    case None => None
    case Some(x) =>
      if x.1 <= p || x.1 >= |s| then None
      else if s[x.1] == close then Some(([x.0], x.1 + 1))
      else if s[x.1] != ',' then None
      else
        match ReadList(item, close, s, x.1 + 1)
        case None => None
        case Some(r) => Some(([x.0] + r.0, r.1))
  }

  function PairReader(text: TextReader): (item: Reader<Pair>) {
    (s: string, p: nat) => ReadPair(text, s, p)
  }

  function ReadObject(text: TextReader, s: string, p: nat): (r: Option<(seq<Pair>, nat)>) {
    if p >= |s| || s[p] != '{' then None else ReadList(PairReader(text), '}', s, p + 1)
  }

  /** The value of the first member of that name. */
  function Find(ps: seq<Pair>, name: string): (r: Option<Value>) {
    if ps == [] then None else if ps[0].name == name then Some(ps[0].value) else Find(ps[1..], name)
  }

  /** The value of a member of the object that a body is. */
  function Field(body: string, name: string): (r: Option<Value>) {
    match ReadObject(RawText, body, 0)
    case None => None
    case Some(o) => Find(o.0, name)
  }

  /** What a list says about a lock. */
  datatype Row = Row(key: string, lockee: string, since: string)

  function RowOf(ps: seq<Pair>): (r: Option<Row>) {
    match (Find(ps, "key"), Find(ps, "lockee"), Find(ps, "since"))
    case (Some(Text(key)), Some(Text(lockee)), Some(Text(since))) => Some(Row(key, lockee, since))
    case (_, _, _) => None
  }

  function ReadRow(text: TextReader, s: string, p: nat): (r: Option<(Row, nat)>) {
    match ReadObject(text, s, p)
    case None => None
    case Some(o) => if RowOf(o.0).None? then None else Some((RowOf(o.0).value, o.1))
  }

  function RowReader(text: TextReader): (item: Reader<Row>) {
    (s: string, p: nat) => ReadRow(text, s, p)
  }

  const LOCKS_IS: string := "{\"locks\":["

  /** The rows of an object whose member `locks` is a list. */
  function ReadLocks(text: TextReader, s: string): (r: Option<seq<Row>>) {
    var p := |LOCKS_IS|;
    if !At(s, 0, LOCKS_IS) || p >= |s| then None
    else
      var rows := if s[p] == ']' then Some(([], p + 1)) else ReadList(RowReader(text), ']', s, p);
      if rows.None? || rows.value.1 >= |s| || s[rows.value.1] != '}' then None else Some(rows.value.0)
  }

  /** A way of printing strings. */
  type Printer = string -> string

  ghost predicate ReadsAt(text: TextReader, enc: Printer, t: string, s: string, p: nat) {
    At(s, p, enc(t) + "\"") ==> text(s, p) == Some((t, p + |enc(t)| + 1))
  }

  /** `text` reads `t` back wherever `enc` has printed it. */
  ghost predicate Reads(text: TextReader, enc: Printer, t: string) {
    forall s, p :: ReadsAt(text, enc, t, s, p)
  }

  function ValueText(enc: Printer, v: Value): (s: string) {
    match v
    case Text(t) => "\"" + (enc(t) + "\"")
    case Word(w) => w
  }

  function PairText(enc: Printer, x: Pair): (s: string) {
    "\"" + (x.name + ("\":" + ValueText(enc, x.value)))
  }

  /** Texts separated by commas and followed by `close`. */
  function ListText(ts: seq<string>, close: string): (s: string)
    requires ts != []
  {
    ts[0] + (if |ts| == 1 then close else "," + ListText(ts[1..], close))
  }

  function PairTexts(enc: Printer, ps: seq<Pair>): (ts: seq<string>)
    ensures |ts| == |ps| && forall i :: 0 <= i < |ps| ==> ts[i] == PairText(enc, ps[i])
  {
    seq(|ps|, i requires 0 <= i < |ps| => PairText(enc, ps[i]))
  }

  function ObjectText(enc: Printer, ps: seq<Pair>): (s: string)
    requires ps != []
  {
    "{" + ListText(PairTexts(enc, ps), "}")
  }

  ghost predicate ItemReadsAt<T(!new)>(item: Reader<T>, t: string, x: T, s: string, p: nat) {
    At(s, p, t) && p + |t| < |s| && EndsWord(s[p + |t|]) ==> item(s, p) == Some((x, p + |t|))
  }

  /** `item` reads the text `t` as `x`, wherever it stands in a list. */
  ghost predicate ItemReads<T(!new)>(item: Reader<T>, t: string, x: T) {
    t != "" && forall s, p :: ItemReadsAt(item, t, x, s, p)
  }

  lemma LastRead<T(!new)>(item: Reader<T>, close: char, s: string, p: nat, t: string, x: T)
    requires ItemReads(item, t, x) && At(s, p, t) && p + |t| < |s| && s[p + |t|] == close && EndsWord(close)
    ensures ReadList(item, close, s, p) == Some(([x], p + |t| + 1))
  {
    assert ItemReadsAt(item, t, x, s, p);
  }

  lemma NextRead<T(!new)>(item: Reader<T>, close: char, s: string, p: nat, t: string, xs: seq<T>, q: nat)
    requires xs != [] && ItemReads(item, t, xs[0]) && At(s, p, t) && p + |t| < |s| && s[p + |t|] == ',' && close != ','
    requires ReadList(item, close, s, p + |t| + 1) == Some((xs[1..], q))
    ensures ReadList(item, close, s, p) == Some((xs, q))
  {
    assert ItemReadsAt(item, t, xs[0], s, p);
    assert xs == [xs[0]] + xs[1..];
  }

  /** A printed list reads back item by item. */
  lemma {:induction false} ListRead<T(!new)>(item: Reader<T>, close: string, s: string, p: nat, ts: seq<string>, xs: seq<T>)
    requires |ts| == |xs| > 0 && forall i :: 0 <= i < |ts| ==> ItemReads(item, ts[i], xs[i])
    requires close != "" && EndsWord(close[0]) && close[0] != ',' && At(s, p, ListText(ts, close))
    ensures ReadList(item, close[0], s, p) == Some((xs, p + |ListText(ts, close)| - |close| + 1))
    decreases |ts|
  {
    if |ts| == 1 {
      assert xs == [xs[0]];
      LastLayout(s, p, ts[0], close);
      LastRead(item, close[0], s, p, ts[0], xs[0]);
    } else {
      var rest := ListText(ts[1..], close);
      NextLayout(s, p, ts[0], rest);
      ListRead(item, close, s, p + |ts[0]| + 1, ts[1..], xs[1..]);
      NextRead(item, close[0], s, p, ts[0], xs, p + |ListText(ts, close)| - |close| + 1);
    }
  }

  lemma LastLayout(s: string, p: nat, t: string, close: string)
    requires At(s, p, t + close) && close != ""
    ensures At(s, p, t) && p + |t| < |s| && s[p + |t|] == close[0]
  {
    AtSplit(s, p, t, close);
    AtIndex(s, p + |t|, close, p + |t|);
  }

  lemma NextLayout(s: string, p: nat, t: string, rest: string)
    requires At(s, p, t + ("," + rest))
    ensures At(s, p, t) && p + |t| < |s| && s[p + |t|] == ',' && At(s, p + |t| + 1, rest)
  {
    AtSplit(s, p, t, "," + rest);
    AtSplit(s, p + |t|, ",", rest);
    AtIndex(s, p + |t|, ",", p + |t|);
  }

  ghost predicate Fine(text: TextReader, enc: Printer, x: Pair) {
    && '"' !in x.name
    && match x.value
       case Text(t) => Reads(text, enc, t)
       case Word(w) => w != "" && w[0] != '"' && forall c :: c in w ==> !EndsWord(c)
  }

  lemma RawReads(s: string, p: nat, t: string)
    requires '"' !in t && At(s, p, t + "\"")
    ensures RawText(s, p) == Some((t, p + |t| + 1))
  {
    AtSplit(s, p, t, "\"");
    AtWithout(s, p, t, '"');
    AtIndex(s, p + |t|, "\"", p + |t|);
    IndexIs(s, '"', p, p + |t|);
  }

  lemma {:induction false} WordEnds(s: string, p: nat, q: nat)
    requires p <= q < |s| && EndsWord(s[q]) && forall i :: p <= i < q ==> !EndsWord(s[i])
    ensures WordEnd(s, p) == q
    decreases q - p
  {
    if p < q {
      WordEnds(s, p + 1, q);
    }
  }

  lemma ValueRead(text: TextReader, enc: Printer, s: string, p: nat, x: Pair, e: nat)
    requires Fine(text, enc, x) && At(s, p, ValueText(enc, x.value)) && e == p + |ValueText(enc, x.value)| < |s|
    requires EndsWord(s[e])
    ensures ReadValue(text, s, p) == Some((x.value, e))
  {
    match x.value {
      case Text(t) =>
        AtSplit(s, p, "\"", enc(t) + "\"");
        AtIndex(s, p, "\"", p);
        assert ReadsAt(text, enc, t, s, p + 1);
      case Word(w) =>
        AtIndex(s, p, w, p);
        forall i | p <= i < e ensures !EndsWord(s[i]) {
          AtIndex(s, p, w, i);
        }
        WordEnds(s, p, e);
    }
  }

  lemma NameRead(s: string, p: nat, name: string, rest: string)
    requires At(s, p, "\"" + (name + ("\":" + rest))) && '"' !in name
    ensures var q := p + |name| + 2;
      s[p] == '"' && RawText(s, p + 1) == Some((name, q)) && q < |s| && s[q] == ':' && At(s, q + 1, rest)
  {
    AtSplitFour(s, p, "\"", name, "\":", rest);
    AtIndex(s, p, "\"", p);
    AtSplit(s, p + 1 + |name|, "\"", ":");
    AtIndex(s, p + 2 + |name|, ":", p + 2 + |name|);
    AtJoin(s, p + 1, name, "\"");
    RawReads(s, p + 1, name);
  }

  lemma PairRead(text: TextReader, enc: Printer, s: string, p: nat, x: Pair, e: nat)
    requires Fine(text, enc, x) && At(s, p, PairText(enc, x)) && e == p + |PairText(enc, x)| < |s| && EndsWord(s[e])
    ensures ReadPair(text, s, p) == Some((x, e))
  {
    NameRead(s, p, x.name, ValueText(enc, x.value));
    ValueRead(text, enc, s, p + |x.name| + 3, x, e);
  }

  lemma PairReads(text: TextReader, enc: Printer, x: Pair)
    requires Fine(text, enc, x)
    ensures ItemReads(PairReader(text), PairText(enc, x), x)
  {
    var t := PairText(enc, x);
    forall s: string, p: nat ensures ItemReadsAt(PairReader(text), t, x, s, p) {
      if At(s, p, t) && p + |t| < |s| && EndsWord(s[p + |t|]) {
        PairRead(text, enc, s, p, x, p + |t|);
      }
    }
  }

  /** A printed object reads back as its members, whatever follows it. */
  lemma ObjectRead(text: TextReader, enc: Printer, s: string, p: nat, ps: seq<Pair>)
    requires ps != [] && At(s, p, ObjectText(enc, ps)) && forall x :: x in ps ==> Fine(text, enc, x)
    ensures ReadObject(text, s, p) == Some((ps, p + |ObjectText(enc, ps)|))
  {
    AllPairsRead(text, enc, ps);
    BracedRead(PairReader(text), s, p, PairTexts(enc, ps), ps);
  }

  lemma BracedRead<T(!new)>(item: Reader<T>, s: string, p: nat, ts: seq<string>, xs: seq<T>)
    requires |ts| == |xs| > 0 && forall i :: 0 <= i < |ts| ==> ItemReads(item, ts[i], xs[i])
    requires At(s, p, "{" + ListText(ts, "}"))
    ensures p < |s| && s[p] == '{' && ReadList(item, '}', s, p + 1) == Some((xs, p + 1 + |ListText(ts, "}")|))
  {
    AtSplit(s, p, "{", ListText(ts, "}"));
    AtIndex(s, p, "{", p);
    ListRead(item, "}", s, p + 1, ts, xs);
  }

  lemma AllPairsRead(text: TextReader, enc: Printer, ps: seq<Pair>)
    requires forall x :: x in ps ==> Fine(text, enc, x)
    ensures forall i :: 0 <= i < |ps| ==> ItemReads(PairReader(text), PairTexts(enc, ps)[i], ps[i])
  {
    forall i | 0 <= i < |ps| ensures ItemReads(PairReader(text), PairTexts(enc, ps)[i], ps[i]) {
      PairReads(text, enc, ps[i]);
    }
  }

  function RowPairs(x: Row): (ps: seq<Pair>) {
    [Pair("key", Text(x.key)), Pair("lockee", Text(x.lockee)), Pair("since", Text(x.since))]
  }

  lemma RowFound(x: Row)
    ensures RowOf(RowPairs(x)) == Some(x)
  {
    var ps := RowPairs(x);
    assert ps[1..][0] == ps[1] && ps[1..][1..][0] == ps[2];
    assert Find(ps[1..][1..], "since") == Some(Text(x.since));
    assert Find(ps[1..], "lockee") == Some(Text(x.lockee)) && Find(ps[1..], "since") == Find(ps[1..][1..], "since");
  }

  ghost predicate RowFine(text: TextReader, enc: Printer, x: Row) {
    Reads(text, enc, x.key) && Reads(text, enc, x.lockee) && Reads(text, enc, x.since)
  }

  function RowText(enc: Printer, x: Row): (s: string) {
    ObjectText(enc, RowPairs(x))
  }

  lemma RowRead(text: TextReader, enc: Printer, s: string, p: nat, x: Row)
    requires RowFine(text, enc, x) && At(s, p, RowText(enc, x))
    ensures ReadRow(text, s, p) == Some((x, p + |RowText(enc, x)|))
  {
    RowIsFine(text, enc, x);
    ObjectRead(text, enc, s, p, RowPairs(x));
    RowFound(x);
  }

  lemma RowIsFine(text: TextReader, enc: Printer, x: Row)
    requires RowFine(text, enc, x)
    ensures forall y :: y in RowPairs(x) ==> Fine(text, enc, y)
  {
  }

  lemma RowReads(text: TextReader, enc: Printer, x: Row)
    requires RowFine(text, enc, x)
    ensures ItemReads(RowReader(text), RowText(enc, x), x)
  {
    forall s: string, p: nat ensures ItemReadsAt(RowReader(text), RowText(enc, x), x, s, p) {
      if At(s, p, RowText(enc, x)) {
        RowRead(text, enc, s, p, x);
      }
    }
  }

  /** What follows the opening of a list of locks: the rows' texts, the closing bracket and the rest. */
  function RowsText(ts: seq<string>, close: string): (s: string) {
    if ts == [] then close else ListText(ts, close)
  }

  lemma {:induction false} ListCloses(ts: seq<string>, close: string)
    requires ts != []
    ensures |ListText(ts, close)| >= |close| && ListText(ts, close)[|ListText(ts, close)| - |close|..] == close
    decreases |ts|
  {
    if |ts| > 1 {
      ListCloses(ts[1..], close);
    }
  }

  /** A printed list of locks reads back row by row. */
  lemma LocksRead(text: TextReader, enc: Printer, s: string, ts: seq<string>, xs: seq<Row>, close: string)
    requires s == LOCKS_IS + RowsText(ts, close) && |close| >= 2 && close[0] == ']' && close[1] == '}'
    requires |ts| == |xs| && forall i :: 0 <= i < |xs| ==> RowFine(text, enc, xs[i]) && ts[i] == RowText(enc, xs[i])
    ensures ReadLocks(text, s) == Some(xs)
  {
    var p := |LOCKS_IS|;
    assert s[..p] == LOCKS_IS && s[p..] == RowsText(ts, close);
    assert At(s, 0, LOCKS_IS) && At(s, p, RowsText(ts, close));
    if xs == [] {
      AtIndex(s, p, close, p);
      AtIndex(s, p, close, p + 1);
    } else {
      forall i | 0 <= i < |ts| ensures ItemReads(RowReader(text), ts[i], xs[i]) {
        RowReads(text, enc, xs[i]);
      }
      ListRead(RowReader(text), close, s, p, ts, xs);
      ListCloses(ts, close);
      assert s[|s| - |close| + 1] == close[1];
      assert s[p] == ts[0][0] == '{';
    }
  }

  /** A member with a string value, as it is printed. */
  lemma TextPairText(enc: Printer, name: string, t: string)
    ensures PairText(enc, Pair(name, Text(t))) == "\"" + name + "\":\"" + enc(t) + "\""
  {
    var v := enc(t);
    assert "\":" + ("\"" + (v + "\"")) == "\":\"" + (v + "\"");
    assert "\"" + (name + ("\":\"" + (v + "\""))) == "\"" + name + "\":\"" + v + "\"";
  }

  /** An object of three members. */
  lemma ThreePairs(enc: Printer, a: Pair, b: Pair, c: Pair)
    ensures ObjectText(enc, [a, b, c])
         == "{" + (PairText(enc, a) + ("," + (PairText(enc, b) + ("," + (PairText(enc, c) + "}")))))
  {
    var ts := PairTexts(enc, [a, b, c]);
    var x, y, z := PairText(enc, a), PairText(enc, b), PairText(enc, c);
    assert ts == [x, y, z] && ts[1..] == [y, z] && [y, z][1..] == [z];
    assert ListText([z], "}") == z + "}";
    assert ListText([y, z], "}") == y + ("," + ListText([z], "}"));
  }

  /** A row's text, member by member. */
  lemma RowLayout(enc: Printer, x: Row)
    ensures RowText(enc, x)
         == "{\"key\":\"" + (enc(x.key) + ("\",\"lockee\":\"" + (enc(x.lockee) + ("\",\"since\":\"" + (enc(x.since) + "\"}")))))
  {
    ThreePairs(enc, Pair("key", Text(x.key)), Pair("lockee", Text(x.lockee)), Pair("since", Text(x.since)));
    TextPairText(enc, "key", x.key);
    TextPairText(enc, "lockee", x.lockee);
    TextPairText(enc, "since", x.since);
    RowNames();
    RowGlue("\"key\":\"", enc(x.key), "\"lockee\":\"", enc(x.lockee), "\"since\":\"", enc(x.since));
  }

  lemma RowNames()
    ensures "\"" + "key" + "\":\"" == "\"key\":\"" && "{" + "\"key\":\"" == "{\"key\":\""
    ensures "\"" + "lockee" + "\":\"" == "\"lockee\":\"" && "\"," + "\"lockee\":\"" == "\",\"lockee\":\""
    ensures "\"" + "since" + "\":\"" == "\"since\":\"" && "\"," + "\"since\":\"" == "\",\"since\":\""
  {
  }

  lemma RowGlue(a: string, x: string, b: string, y: string, c: string, z: string)
    ensures "{" + ((a + x + "\"") + ("," + ((b + y + "\"") + ("," + ((c + z + "\"") + "}")))))
         == ("{" + a) + (x + (("\"," + b) + (y + (("\"," + c) + (z + "\"}")))))
  {
    assert "\"" + "," == "\"," && "\"" + "}" == "\"}";
    var p, q := c + z + "\"" + "}", b + y + "\"" + ",";
    assert p == c + (z + "\"}");
    assert q == b + (y + "\",");
  }
}
