/** Requests as a client puts them on the wire, and what the parser makes of them. */
module HttpRoundTrip {
  import opened ByteScan
  import opened CInts
  import opened ConnectionModel
  import opened Decimal
  import opened HttpParse
  import opened Wrappers

  /** A header line other than a recognised `Content-Length`. */
  predicate IsPlainLine(l: string) {
    && IsLine(l) && !("Content-Length: " <= l) && !("content-length: " <= l)
  }

  predicate IsLine(l: string) {
    l != "" && '\r' !in l && '\n' !in l
  }

  /** Lines as they are sent, each with its line end. */
  function Head(lines: seq<string>): (s: string) {
    if lines == [] then "" else lines[0] + "\r\n" + Head(lines[1..])
  }

  lemma {:induction false} HeaderEndSkips(s: string, p: nat, q: nat)
    requires p <= q <= |s| && forall k :: p <= k < q ==> !HeadersEndAt(s, k)
    ensures HeaderEnd(s, p) == HeaderEnd(s, q)
    decreases q - p
  {
    if p < q {
      HeaderEndSkips(s, p + 1, q);
    }
  }

  lemma LineChars(s: string, p: nat, l: string, rest: string)
    requires At(s, p, l + "\r\n" + rest)
    ensures At(s, p, l) && At(s, p + |l| + 2, rest)
    ensures s[p + |l|] == '\r' && s[p + |l| + 1] == '\n'
  {
    AtSplit(s, p, l + "\r\n", rest);
    AtSplit(s, p, l, "\r\n");
    AtIndex(s, p + |l|, "\r\n", p + |l|);
    AtIndex(s, p + |l|, "\r\n", p + |l| + 1);
  }

  /** No blank line begins inside a line or at its end, unless an empty line follows. */
  lemma LineSkipped(s: string, p: nat, l: string)
    requires At(s, p, l) && IsLine(l) && p + |l| + 2 < |s|
    requires s[p + |l|] == '\r' && s[p + |l| + 1] == '\n' && s[p + |l| + 2] != '\r'
    ensures HeaderEnd(s, p) == HeaderEnd(s, p + |l| + 2)
  {
    AtWithout(s, p, l, '\r');
    HeaderEndSkips(s, p, p + |l| + 2);
  }

  lemma LastLineEnds(s: string, p: nat, l: string)
    requires At(s, p, l) && IsLine(l) && HeadersEndAt(s, p + |l|)
    ensures HeaderEnd(s, p) == p + |l|
  {
    AtWithout(s, p, l, '\r');
    HeaderEndSkips(s, p, p + |l|);
  }

  lemma HeadStarts(lines: seq<string>)
    requires lines != [] && IsLine(lines[0])
    ensures |Head(lines)| >= 3 && Head(lines)[0] != '\r'
  {
    assert Head(lines)[0] == lines[0][0];
  }

  lemma FirstLineSkipped(s: string, p: nat, lines: seq<string>)
    requires |lines| > 1 && At(s, p, Head(lines)) && IsLine(lines[0]) && IsLine(lines[1])
    ensures var q := p + |lines[0]| + 2; At(s, q, Head(lines[1..])) && HeaderEnd(s, p) == HeaderEnd(s, q)
  {
    var l, rest := lines[0], Head(lines[1..]);
    LineChars(s, p, l, rest);
    HeadStarts(lines[1..]);
    AtIndex(s, p + |l| + 2, rest, p + |l| + 2);
    LineSkipped(s, p, l);
  }

  lemma OnlyLineEnds(s: string, p: nat, l: string)
    requires At(s, p, l + "\r\n") && At(s, p + |l| + 2, "\r\n") && IsLine(l)
    ensures HeaderEnd(s, p) == p + |l|
  {
    var q := p + |l|;
    assert l + "\r\n" == l + "\r\n" + "";
    LineChars(s, p, l, "");
    AtIndex(s, q + 2, "\r\n", q + 2);
    AtIndex(s, q + 2, "\r\n", q + 3);
    LastLineEnds(s, p, l);
  }

  /** The first blank line is the one that ends the header block. */
  lemma {:induction false} HeaderEndFound(s: string, p: nat, lines: seq<string>)
    requires lines != [] && At(s, p, Head(lines)) && At(s, p + |Head(lines)|, "\r\n")
    requires forall i :: 0 <= i < |lines| ==> IsLine(lines[i])
    ensures |Head(lines)| >= 2 && HeaderEnd(s, p) == p + |Head(lines)| - 2
    decreases |lines|
  {
    if |lines| == 1 {
      assert lines[1..] == [];
      assert Head(lines) == lines[0] + "\r\n";
      OnlyLineEnds(s, p, lines[0]);
    } else {
      FirstLineSkipped(s, p, lines);
      HeaderEndFound(s, p + |lines[0]| + 2, lines[1..]);
    }
  }

  lemma {:induction false} ReadDecGrows(d: string, k: nat)
    requires k <= |d| && forall c :: c in d ==> IsDigit(c)
    ensures 0 <= ReadDec(d[..k]) <= ReadDec(d)
    decreases |d| - k
  {
    if k == |d| {
      ReadDecNonNegative(d);
      assert d[..k] == d;
    } else {
      ReadDecGrows(d, k + 1);
      assert d[..k + 1][..k] == d[..k];
      assert d[k] in d;
      ReadDecNonNegative(d[..k]);
    }
  }

  lemma {:induction false} ReadDecNonNegative(d: string)
    requires forall c :: c in d ==> IsDigit(c)
    ensures ReadDec(d) >= 0
  {
    if d != [] {
      assert d[|d| - 1] in d;
      ReadDecNonNegative(d[..|d| - 1]);
    }
  }

  /** The digit loop reads a numeral that fits an `int` without wrapping. */
  lemma {:induction false} DigitsRead(line: string, i: nat, d: string, k: nat)
    requires At(line, i, d) && i + |d| < |line| && !IsDigit(line[i + |d|])
    requires k <= |d| && (forall c :: c in d ==> IsDigit(c)) && ReadDec(d) < INT_LIMIT
    ensures ReadLength(line, i + k, ReadDec(d[..k])) == ReadDec(d)
    decreases |d| - k
  {
    if k == |d| {
      assert d[..k] == d;
    } else {
      AtIndex(line, i, d, i + k);
      ReadDecGrows(d, k + 1);
      assert d[..k + 1][..k] == d[..k];
      DigitsRead(line, i, d, k + 1);
    }
  }

  function LengthLine(n: nat): (l: string) {
    "Content-Length: " + Dec(n)
  }

  lemma LengthLineIsLine(n: nat)
    ensures IsLine(LengthLine(n))
  {
    assert forall c :: c in "Content-Length: " ==> c != '\r' && c != '\n';
  }

  lemma LengthLineRead(n: nat)
    requires n < INT_LIMIT
    ensures IsLengthHeader(LengthLine(n) + "\r") && LineLength(LengthLine(n) + "\r") == n
  {
    var line := LengthLine(n) + "\r";
    assert line[..16] == "Content-Length: ";
    assert line[16..16 + |Dec(n)|] == Dec(n);
    DecRoundTrip(n);
    DigitsRead(line, 16, Dec(n), 0);
  }

  /** The length of a body as a client announces it, in either of the spellings the server knows. */
  function Announcement(lower: bool, n: nat): (l: string) {
    if lower then "content-length: " + Dec(n) else LengthLine(n)
  }

  lemma AnnouncementRead(lower: bool, n: nat)
    ensures IsLine(Announcement(lower, n))
    ensures n < INT_LIMIT ==> IsLengthHeader(Announcement(lower, n) + "\r") && LineLength(Announcement(lower, n) + "\r") == n
  {
    if lower {
      assert forall c :: c in "content-length: " ==> c != '\r' && c != '\n';
    } else {
      LengthLineIsLine(n);
    }
    if n < INT_LIMIT {
      if lower {
        LowerRead(n);
      } else {
        LengthLineRead(n);
      }
    }
  }

  lemma LowerRead(n: nat)
    requires n < INT_LIMIT
    ensures IsLengthHeader(Announcement(true, n) + "\r") && LineLength(Announcement(true, n) + "\r") == n
  {
    var line := Announcement(true, n) + "\r";
    assert line[..16] == "content-length: ";
    assert line[16..16 + |Dec(n)|] == Dec(n);
    DecRoundTrip(n);
    DigitsRead(line, 16, Dec(n), 0);
  }

  lemma PlainIsNotLength(l: string)
    requires IsPlainLine(l)
    ensures !IsLengthHeader(l + "\r")
  {
    if |l| >= 16 {
      assert (l + "\r")[..16] == l[..16];
    }
  }

  /** A header scan takes one line at a time, with its carriage return. */
  lemma LineScanned(l: string, rest: string, recognised: string -> bool, read: string -> int)
    requires IsLine(l)
    ensures ScanLines(l + "\r\n" + rest, recognised, read)
         == if recognised(l + "\r") then read(l + "\r") else ScanLines(rest, recognised, read)
  {
    var s := l + "\r\n" + rest;
    IndexIs(s, '\n', 0, |l| + 1);
    assert s[..|l| + 1] == l + "\r";
    assert s[|l| + 2..] == rest;
  }

  /** A header scan finds the first recognised line, wherever it stands. */
  lemma {:induction false} LineFound(lines: seq<string>, k: nat, recognised: string -> bool, read: string -> int)
    requires k < |lines| && recognised(lines[k] + "\r")
    requires forall j :: 0 <= j < |lines| ==> IsLine(lines[j])
    requires forall j :: 0 <= j < k ==> !recognised(lines[j] + "\r")
    ensures ScanLines(Head(lines), recognised, read) == read(lines[k] + "\r")
    decreases k
  {
    LineScanned(lines[0], Head(lines[1..]), recognised, read);
    if k > 0 {
      LineFound(lines[1..], k - 1, recognised, read);
    }
  }

  /** A request on the wire. */
  datatype Wire =
    | GetWire(target: string, lines: seq<string>)
    | PostWire(target: string, before: seq<string>, lower: bool, after: seq<string>, body: string)

  function Verb(w: Wire): (s: string) {
    if w.GetWire? then "GET" else "POST"
  }

  const VERSION: string := " HTTP/1.1"

  function RequestLine(w: Wire): (s: string) {
    Verb(w) + (" " + (w.target + VERSION))
  }

  /** The lines of a request; a POST announces its body's length. */
  function WireLines(w: Wire): (r: seq<string>) {
    match w
    case GetWire(_, lines) => [RequestLine(w)] + lines
    case PostWire(_, before, lower, after, body) => [RequestLine(w)] + before + [Announcement(lower, |body|)] + after
  }

  function WireBody(w: Wire): (s: string) {
    if w.GetWire? then "" else w.body
  }

  function WireText(w: Wire): (s: string) {
    Head(WireLines(w)) + "\r\n" + WireBody(w)
  }

  predicate IsTarget(t: string) {
    ' ' !in t && '\r' !in t && '\n' !in t
  }

  ghost predicate WellFormed(w: Wire) {
    && IsTarget(w.target) && |WireText(w)| < INT_LIMIT
    && match w
       case GetWire(_, lines) => forall l :: l in lines ==> IsLine(l)
       case PostWire(_, before, _, after, _) =>
         (forall l :: l in before ==> IsPlainLine(l)) && (forall l :: l in after ==> IsLine(l))
  }

  /** What the parser should make of it. */
  function Meaning(w: Wire): (r: Request) {
    Request(if w.GetWire? then Get else Post, PathOf(w.target), WireBody(w))
  }

  predicate Unbroken(s: string) {
    '\r' !in s && '\n' !in s
  }

  lemma UnbrokenJoin(s: string, t: string)
    requires Unbroken(s) && Unbroken(t)
    ensures Unbroken(s + t)
  {
  }

  lemma RequestLineIsPlain(w: Wire)
    requires IsTarget(w.target)
    ensures IsPlainLine(RequestLine(w)) && |RequestLine(w)| >= 13
    ensures RequestLine(w)[0] == if w.GetWire? then 'G' else 'P'
  {
    UnbrokenJoin(w.target, VERSION);
    UnbrokenJoin(" ", w.target + VERSION);
    UnbrokenJoin(Verb(w), " " + (w.target + VERSION));
    assert RequestLine(w)[0] == Verb(w)[0];
    assert "Content-Length: "[0] == 'C' && "content-length: "[0] == 'c';
  }

  lemma LinesAreLines(w: Wire)
    requires WellFormed(w)
    ensures forall l :: l in WireLines(w) ==> IsLine(l)
  {
    RequestLineIsPlain(w);
    if w.PostWire? {
      AnnouncementRead(w.lower, |w.body|);
      forall l | l in w.before ensures IsLine(l) {
        assert IsPlainLine(l);
      }
    }
  }

  lemma SpaceFound(s: string, p: nat, word: string)
    requires At(s, p, word) && ' ' !in word && p + |word| < |s| && s[p + |word|] == ' '
    ensures IndexFrom(s, ' ', p) == p + |word|
  {
    AtWithout(s, p, word, ' ');
    IndexIs(s, ' ', p, p + |word|);
  }

  lemma RequestLineLayout(s: string, w: Wire)
    requires At(s, 0, RequestLine(w))
    ensures var p := |Verb(w)|; var q := p + 1 + |w.target|;
      && At(s, 0, Verb(w)) && At(s, p + 1, w.target)
      && p < q < |s| && s[p] == ' ' && s[q] == ' '
  {
    var p := |Verb(w)|;
    AtSplitFour(s, 0, Verb(w), " ", w.target, VERSION);
    AtIndex(s, p, " ", p);
    AtIndex(s, p + 1 + |w.target|, VERSION, p + 1 + |w.target|);
  }

  /** The first two spaces of a request line enclose its target. */
  lemma TargetFound(s: string, w: Wire)
    requires IsTarget(w.target) && At(s, 0, RequestLine(w))
    ensures Target(s) == Some(PathOf(w.target))
  {
    RequestLineLayout(s, w);
    SpaceFound(s, 0, Verb(w));
    SpaceFound(s, |Verb(w)| + 1, w.target);
  }

  lemma WireLength(w: Wire)
    requires WellFormed(w) && w.PostWire?
    ensures ContentLength(Head(WireLines(w))) == |w.body|
  {
    var lines, k := WireLines(w), 1 + |w.before|;
    assert |WireText(w)| == |Head(lines)| + 2 + |w.body|;
    AnnouncementRead(w.lower, |w.body|);
    LinesAreLines(w);
    assert forall j :: 0 <= j < |lines| ==> lines[j] in lines;
    forall j | 0 <= j < k ensures !IsLengthHeader(lines[j] + "\r") {
      RequestLineIsPlain(w);
      assert j > 0 ==> lines[j] == w.before[j - 1];
      PlainIsNotLength(lines[j]);
    }
    LineFound(lines, k, IsLengthHeader, LineLength);
  }

  lemma BodyFollows(s: string, h: string, body: string, m: Method, path: Path)
    requires 2 <= |h| && |h| + 2 + |body| <= |s| && |h| + 2 + |body| < INT_LIMIT
    requires s[..|h|] == h && s[|h| + 2..|h| + 2 + |body|] == body
    requires |body| == if m == Post then ContentLength(h) else 0
    ensures ParseBody(s, m, path, |h| - 2) == Complete(Request(m, path, body), |h| + 2 + |body|)
  {
  }

  lemma BodyPlaced(h: string, body: string, rest: string)
    ensures var s := h + "\r\n" + body + rest; s[..|h|] == h && s[|h| + 2..|h| + 2 + |body|] == body
  {
  }

  lemma WireLayout(w: Wire, rest: string)
    requires IsTarget(w.target)
    ensures var s := WireText(w) + rest; var h := Head(WireLines(w));
      && |s| >= 16 && s[0] == (if w.GetWire? then 'G' else 'P')
      && At(s, 0, RequestLine(w)) && At(s, 0, h) && At(s, |h|, "\r\n")
  {
    var l, h, s := RequestLine(w), Head(WireLines(w)), WireText(w) + rest;
    RequestLineIsPlain(w);
    assert WireLines(w)[0] == l;
    assert h == l + "\r\n" + Head(WireLines(w)[1..]);
    assert s[0..|h|] == h && s[|h|..|h| + 2] == "\r\n";
    assert s[0..|l|] == l;
    AtIndex(s, 0, l, 0);
  }

  lemma WireHeader(w: Wire, rest: string)
    requires WellFormed(w)
    ensures var s := WireText(w) + rest; var h := Head(WireLines(w));
      && |s| >= 16 && s[0] == (if w.GetWire? then 'G' else 'P') && Target(s) == Some(PathOf(w.target))
      && |h| >= 2 && HeaderEnd(s, 0) == |h| - 2 < |s|
  {
    var s := WireText(w) + rest;
    WireLayout(w, rest);
    LinesAreLines(w);
    assert forall i :: 0 <= i < |WireLines(w)| ==> WireLines(w)[i] in WireLines(w);
    HeaderEndFound(s, 0, WireLines(w));
    TargetFound(s, w);
  }

  lemma ParseAssembled(s: string, h: string, body: string, m: Method, path: Path)
    requires |s| >= 16 && s[0] == (if m == Get then 'G' else 'P') && m != Delete && Target(s) == Some(path)
    requires |h| >= 2 && HeaderEnd(s, 0) == |h| - 2 < |s|
    requires ParseBody(s, m, path, |h| - 2) == Complete(Request(m, path, body), |h| + 2 + |body|)
    ensures Parse(s) == Complete(Request(m, path, body), |h| + 2 + |body|)
  {
  }

  /** A head that announces the body behind it, with the method and path already found. */
  lemma HeadParsed(s: string, h: string, body: string, rest: string, m: Method, path: Path)
    requires s == h + "\r\n" + body + rest && |h| + 2 + |body| < INT_LIMIT
    requires |s| >= 16 && s[0] == (if m == Get then 'G' else 'P') && m != Delete && Target(s) == Some(path)
    requires |h| >= 2 && HeaderEnd(s, 0) == |h| - 2 < |s|
    requires |body| == if m == Post then ContentLength(h) else 0
    ensures Parse(s) == Complete(Request(m, path, body), |h| + 2 + |body|)
  {
    BodyPlaced(h, body, rest);
    BodyFollows(s, h, body, m, path);
    ParseAssembled(s, h, body, m, path);
  }

  /** Framing: a well-formed request at the front of the buffer is recognised, whatever follows it. */
  lemma WireIsParsed(w: Wire, rest: string)
    requires WellFormed(w)
    ensures Parse(WireText(w) + rest) == Complete(Meaning(w), |WireText(w)|)
  {
    WireHeader(w, rest);
    if w.PostWire? {
      WireLength(w);
    }
    HeadParsed(WireText(w) + rest, Head(WireLines(w)), WireBody(w), rest, Meaning(w).verb, PathOf(w.target));
  }

  function FrameOf(w: Wire): (f: Frame) {
    Frame(WireText(w), Meaning(w))
  }

  function FramesOf(ws: seq<Wire>): (fs: seq<Frame>)
    ensures |fs| == |ws| && forall i :: 0 <= i < |ws| ==> fs[i] == FrameOf(ws[i])
  {
    seq(|ws|, i requires 0 <= i < |ws| => FrameOf(ws[i]))
  }

  /** Well-formed requests are frames of the server's parser. */
  lemma WiresAreFrames(ws: seq<Wire>)
    requires forall w :: w in ws ==> WellFormed(w)
    ensures forall f :: f in FramesOf(ws) ==> Frames(Parse, f)
  {
    forall f, rest | f in FramesOf(ws) ensures FramesAt(Parse, f, rest) {
      var i :| 0 <= i < |ws| && f == FrameOf(ws[i]);
      WireIsParsed(ws[i], rest);
    }
  }

  /**
   Pipelined requests on the wire, split by `recv` in any way: the connection stays open exactly if
   no request is longer than the read buffer, and then they all come out, in order, with their
   bodies, and nothing is left over.
   */
  lemma PipelineRecovered(ws: seq<Wire>, chunks: seq<string>)
    requires forall w :: w in ws ==> WellFormed(w)
    ensures Stable(Parse)
    ensures Delivers(Parse, Conn([], "", true), Texts(FramesOf(ws)), chunks) ==>
      var r := Run(Parse, Conn([], "", true), chunks);
      && (r.open <==> forall w :: w in ws ==> |WireText(w)| <= 4096)
      && (r.open ==> r == Conn(Reqs(FramesOf(ws)), "", true))
  {
    ParseIsStable();
    WiresAreFrames(ws);
    if Delivers(Parse, Conn([], "", true), Texts(FramesOf(ws)), chunks) {
      DeliveredIffEachFits(Parse, FramesOf(ws), chunks);
      FitAlike(ws);
    }
  }

  lemma FitAlike(ws: seq<Wire>)
    ensures AllFit(FramesOf(ws)) <==> forall w :: w in ws ==> |WireText(w)| <= READ_BUF_SIZE
  {
    forall w | w in ws ensures FrameOf(w) in FramesOf(ws) {
      var i :| 0 <= i < |ws| && ws[i] == w;
      assert FramesOf(ws)[i] == FrameOf(w);
    }
    assert AllFit(FramesOf(ws)) ==> forall w :: w in ws ==> |FrameOf(w).text| <= READ_BUF_SIZE;
  }
}
