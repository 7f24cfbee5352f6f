/** What a client reads back from the bytes the C server sends. */
module ResponseStream {
  import opened ByteScan
  import opened ConnectionModel
  import opened Decimal
  import opened Handlers
  import opened HttpParse
  import opened HttpRoundTrip
  import opened Listing
  import opened Responses
  import opened Wrappers

  /** A response as a client sees it: its status line and its body. */
  datatype Message = Message(status: string, body: string)

  /**
   A client's reader: headers up to the first blank line, then as many bytes as the headers
   announce (section 6.3 of RFC 9112). The number of bytes taken comes with the message.
   */
  function ReadResponse(s: string): (r: Option<(Message, nat)>)
    ensures r.Some? ==> 0 < r.value.1 <= |s|
  {
    var end := HeaderEnd(s, 0);
    if end == |s| then None else ReadBody(s, end)
  }

  /** The same, once the end of the headers is known. */
  function ReadBody(s: string, end: nat): (r: Option<(Message, nat)>)
    requires end + 4 <= |s|
    ensures r.Some? ==> 0 < r.value.1 <= |s|
  {
    var n := ContentLength(s[..end + 2]);
    if n < 0 || end + 4 + n > |s| then None
    else Some((Message(s[..IndexFrom(s, '\r', 0)], s[end + 4..end + 4 + n]), end + 4 + n))
  }

  /** Everything a client reads from a stream, and what it cannot read. */
  function ReadAll(s: string): (r: (seq<Message>, string))
    decreases |s|
  {
    match ReadResponse(s)
    case None => ([], s)
    case Some(m) =>
      var r := ReadAll(s[m.1..]);
      ([m.0] + r.0, r.1)
  }

  /** The message an answer stands for. */
  function MessageOf(a: Answer): (m: Message)
    requires FitsBuffers(a)
  {
    match a
    case WithBody(status, body) => Message(status[..|status| - 2], body)
    case NoBody(status) => Message(status[..|status| - 2], "")
    case Healthy => Message(HTTP_200[..|HTTP_200| - 2], HEALTHY)
  }

  /** The header lines that precede and follow the length. */
  function LinesBefore(a: Answer): (r: seq<string>) {
    match a
    case WithBody(_, _) => [JSON_LINE, ALIVE_LINE]
    case NoBody(_) => []
    case Healthy => [JSON_LINE]
  }

  function LinesAfter(a: Answer): (r: seq<string>) {
    if a.WithBody? then [] else [ALIVE_LINE]
  }

  function AnswerLines(a: Answer): (r: seq<string>)
    requires FitsBuffers(a)
  {
    [MessageOf(a).status] + LinesBefore(a) + [LengthLine(|MessageOf(a).body|)] + LinesAfter(a)
  }

  lemma {:induction false} HeadAppend(xs: seq<string>, ys: seq<string>)
    ensures Head(xs + ys) == Head(xs) + Head(ys)
  {
    if xs == [] {
      assert xs + ys == ys;
    } else {
      HeadAppend(xs[1..], ys);
      assert (xs + ys)[1..] == xs[1..] + ys;
    }
  }

  lemma HeadOne(l: string)
    ensures Head([l]) == l + "\r\n"
  {
    assert [l][1..] == [];
  }

  lemma HeadTwo(k: string, l: string)
    ensures Head([k, l]) == k + "\r\n" + (l + "\r\n")
  {
    HeadOne(l);
    assert [k, l][1..] == [l];
  }

  lemma HeadLayout(first: string, before: seq<string>, length: string, after: seq<string>)
    ensures Head([first] + before + [length] + after)
         == first + "\r\n" + Head(before) + (length + "\r\n") + Head(after)
  {
    HeadAppend([first] + before + [length], after);
    HeadAppend([first] + before, [length]);
    HeadAppend([first], before);
    HeadOne(first);
    HeadOne(length);
  }

  lemma NotLength(l: string)
    requires IsLine(l) && |l| > 8 && l[0] == 'C' && l[8] != 'L'
    ensures IsPlainLine(l)
  {
    assert "Content-Length: "[8] == 'L' && "content-length: "[0] == 'c';
  }

  lemma JsonLineIsPlain()
    ensures IsPlainLine(JSON_LINE)
  {
    NotLength(JSON_LINE);
  }

  lemma AliveLineIsPlain()
    ensures IsPlainLine(ALIVE_LINE)
  {
    NotLength(ALIVE_LINE);
  }

  lemma StatusSplit(status: string)
    requires IsStatusLine(status)
    ensures var l := status[..|status| - 2]; status == l + "\r\n" && IsPlainLine(l)
  {
    assert "Content-Length: "[0] == 'C' && "content-length: "[0] == 'c';
  }

  lemma WithBodyLayout(status: string, body: string)
    requires IsStatusLine(status) && |body| <= BODY_SIZE
    ensures var a := WithBody(status, body); AnswerText(a) == Head(AnswerLines(a)) + "\r\n" + body
  {
    var l, d := status[..|status| - 2], Dec(|body|);
    StatusSplit(status);
    HeadLayout(l, [JSON_LINE, ALIVE_LINE], LengthLine(|body|), []);
    HeadTwo(JSON_LINE, ALIVE_LINE);
    assert LengthLine(|body|) == LENGTH_NAME + d;
    Regroup(status, JSON_TYPE, KEEP_ALIVE, LENGTH_NAME, d, body);
  }

  lemma Regroup(status: string, a: string, b: string, c: string, d: string, body: string)
    ensures status + (a + b + c) + d + "\r\n\r\n" + body
         == status + (a + b) + ((c + d) + "\r\n") + "" + "\r\n" + body
  {
    assert "\r\n\r\n" == "\r\n" + "\r\n";
  }

  lemma NoBodyLayout(status: string)
    requires IsStatusLine(status)
    ensures var a := NoBody(status); AnswerText(a) == Head(AnswerLines(a)) + "\r\n" + ""
  {
    StatusSplit(status);
    HeadLayout(status[..|status| - 2], [], LengthLine(0), [ALIVE_LINE]);
    HeadOne(ALIVE_LINE);
    assert LengthLine(0) == "Content-Length: 0";
  }

  lemma FifteenBytes()
    ensures |HEALTHY| == 15 && LengthLine(15) == "Content-Length: 15"
  {
    assert Dec(1) == "1" && Dec(15) == Dec(1) + "5";
  }

  lemma HealthyLayout()
    ensures AnswerText(Healthy) == Head(AnswerLines(Healthy)) + "\r\n" + HEALTHY
  {
    var l := HTTP_200[..|HTTP_200| - 2];
    StatusLines();
    StatusSplit(HTTP_200);
    FifteenBytes();
    HeadLayout(l, [JSON_LINE], LengthLine(15), [ALIVE_LINE]);
    HeadOne(JSON_LINE);
    HeadOne(ALIVE_LINE);
  }

  lemma AnswerLayout(a: Answer)
    requires FitsBuffers(a)
    ensures AnswerText(a) == Head(AnswerLines(a)) + "\r\n" + MessageOf(a).body
  {
    match a {
      case WithBody(status, body) => WithBodyLayout(status, body);
      case NoBody(status) => NoBodyLayout(status);
      case Healthy => HealthyLayout();
    }
  }

  lemma LinesOfAnswer(a: Answer)
    requires FitsBuffers(a)
    ensures IsPlainLine(MessageOf(a).status)
    ensures forall l :: l in LinesBefore(a) || l in LinesAfter(a) ==> IsPlainLine(l)
    ensures forall i :: 0 <= i < |AnswerLines(a)| ==> IsLine(AnswerLines(a)[i])
  {
    JsonLineIsPlain();
    AliveLineIsPlain();
    LengthLineIsLine(|MessageOf(a).body|);
    if a.Healthy? {
      StatusLines();
      StatusSplit(HTTP_200);
    } else {
      StatusSplit(a.status);
    }
  }

  lemma AnnouncedLength(a: Answer)
    requires FitsBuffers(a)
    ensures ContentLength(Head(AnswerLines(a))) == |MessageOf(a).body|
  {
    var lines, k := AnswerLines(a), 1 + |LinesBefore(a)|;
    LinesOfAnswer(a);
    LengthLineRead(|MessageOf(a).body|);
    assert lines[k] == LengthLine(|MessageOf(a).body|);
    forall j | 0 <= j < k ensures !IsLengthHeader(lines[j] + "\r") {
      assert if j == 0 then lines[j] == MessageOf(a).status else lines[j] == LinesBefore(a)[j - 1];
      PlainIsNotLength(lines[j]);
    }
    LineFound(lines, k, IsLengthHeader, LineLength);
  }

  lemma TextLayout(s: string, h: string, body: string, rest: string)
    requires s == h + "\r\n" + body + rest
    ensures IsPlaced(s, h, body)
  {
  }

  /** The reader on a head of non-empty lines and a body of the announced length. */
  lemma HeadRead(s: string, lines: seq<string>, body: string)
    requires lines != [] && ContentLength(Head(lines)) == |body| && forall i :: 0 <= i < |lines| ==> IsLine(lines[i])
    requires At(s, 0, Head(lines)) && At(s, |Head(lines)|, "\r\n") && At(s, |Head(lines)| + 2, body)
    ensures ReadResponse(s) == Some((Message(lines[0], body), |Head(lines)| + 2 + |body|))
  {
    var h := Head(lines);
    HeaderEndFound(s, 0, lines);
    StatusRead(s, lines);
    BodyIsRead(s, h, lines[0], body);
    BodyFollowsHead(s, |h| - 2);
  }

  lemma BodyFollowsHead(s: string, end: nat)
    requires HeaderEnd(s, 0) == end < |s|
    ensures end + 4 <= |s| && ReadResponse(s) == ReadBody(s, end)
  {
  }

  lemma BodyIsRead(s: string, h: string, status: string, body: string)
    requires |h| >= 2 && At(s, 0, h) && At(s, |h| + 2, body) && ContentLength(h) == |body|
    requires s[..IndexFrom(s, '\r', 0)] == status
    ensures ReadBody(s, |h| - 2) == Some((Message(status, body), |h| + 2 + |body|))
  {
    assert s[..|h|] == s[0..|h|];
  }

  lemma StatusRead(s: string, lines: seq<string>)
    requires lines != [] && At(s, 0, Head(lines)) && IsLine(lines[0])
    ensures s[..IndexFrom(s, '\r', 0)] == lines[0]
  {
    var l := lines[0];
    LineChars(s, 0, l, Head(lines[1..]));
    AtWithout(s, 0, l, '\r');
    IndexIs(s, '\r', 0, |l|);
  }

  /** A head of non-empty lines that announces the length of the body. */
  ghost predicate IsHead(lines: seq<string>, m: Message) {
    && lines != [] && lines[0] == m.status && (forall i :: 0 <= i < |lines| ==> IsLine(lines[i]))
    && ContentLength(Head(lines)) == |m.body|
  }

  ghost predicate IsPlaced(s: string, h: string, body: string) {
    At(s, 0, h) && At(s, |h|, "\r\n") && At(s, |h| + 2, body)
  }

  lemma PlacedIsRead(s: string, lines: seq<string>, m: Message, n: nat)
    requires IsHead(lines, m) && IsPlaced(s, Head(lines), m.body) && n == |Head(lines)| + 2 + |m.body|
    ensures ReadResponse(s) == Some((m, n))
  {
    HeadRead(s, lines, m.body);
  }

  lemma FramedIsRead(text: string, lines: seq<string>, m: Message, rest: string)
    requires IsHead(lines, m) && text == Head(lines) + "\r\n" + m.body
    ensures ReadResponse(text + rest) == Some((m, |text|))
  {
    TextLayout(text + rest, Head(lines), m.body, rest);
    PlacedIsRead(text + rest, lines, m, |text|);
  }

  lemma AnswerIsFramed(a: Answer) returns (lines: seq<string>)
    requires FitsBuffers(a)
    ensures IsHead(lines, MessageOf(a)) && AnswerText(a) == Head(lines) + "\r\n" + MessageOf(a).body
  {
    lines := AnswerLines(a);
    AnswerLayout(a);
    LinesOfAnswer(a);
    AnnouncedLength(a);
  }

  /**
   Framing: a client that finds any answer of the server at the front of its input reads exactly
   that answer's status and body and takes exactly its bytes, whatever follows.
   */
  lemma AnswerIsRead(a: Answer, rest: string)
    requires FitsBuffers(a)
    ensures ReadResponse(AnswerText(a) + rest) == Some((MessageOf(a), |AnswerText(a)|))
  {
    var lines := AnswerIsFramed(a);
    FramedIsRead(AnswerText(a), lines, MessageOf(a), rest);
  }

  /** The response at the front of `s` has this header line. */
  ghost predicate HasLine(s: string, line: string) {
    exists p: nat :: p < HeaderEnd(s, 0) && At(s, p, "\r\n" + line + "\r\n")
  }

  lemma {:induction false} LineIn(s: string, p: nat, lines: seq<string>, k: nat) returns (q: nat)
    requires At(s, p, Head(lines)) && 0 < k < |lines|
    ensures At(s, q, "\r\n" + lines[k] + "\r\n") && q + |lines[k]| + 4 <= p + |Head(lines)|
    decreases k
  {
    var l, rest := lines[0], Head(lines[1..]);
    AtSplit(s, p, l + "\r\n", rest);
    if k == 1 {
      q := p + |l|;
      AtSplit(s, p, l, "\r\n");
      AtSplit(s, p + |l| + 2, lines[1] + "\r\n", Head(lines[1..][1..]));
      AtJoin(s, q, "\r\n", lines[1] + "\r\n");
      assert "\r\n" + (lines[1] + "\r\n") == "\r\n" + lines[1] + "\r\n";
    } else {
      q := LineIn(s, p + |l| + 2, lines[1..], k - 1);
    }
  }

  lemma LineIsThere(s: string, lines: seq<string>, k: nat, body: string)
    requires s == Head(lines) + "\r\n" + body && 0 < k < |lines| && forall i :: 0 <= i < |lines| ==> IsLine(lines[i])
    ensures HasLine(s, lines[k])
  {
    var h := Head(lines);
    assert s[0..|h|] == h && s[|h|..|h| + 2] == "\r\n";
    HeaderEndFound(s, 0, lines);
    var q := LineIn(s, 0, lines, k);
  }

  /** The header lines of every answer: the connection stays open, and a body is announced as JSON. */
  lemma AnswerHeaders(a: Answer)
    requires FitsBuffers(a)
    ensures HasLine(AnswerText(a), "Connection: keep-alive")
    ensures MessageOf(a).body != "" ==> HasLine(AnswerText(a), "Content-Type: application/json")
  {
    var lines := AnswerLines(a);
    AnswerLayout(a);
    LinesOfAnswer(a);
    var k := if a.Healthy? then 3 else 2;
    assert lines[k] == ALIVE_LINE;
    LineIsThere(AnswerText(a), lines, k, MessageOf(a).body);
    if !a.NoBody? {
      assert lines[1] == JSON_LINE;
      LineIsThere(AnswerText(a), lines, 1, MessageOf(a).body);
    }
  }

  /** The bytes of several answers, each on its own. */
  function AnswerTexts(answers: seq<Answer>): (r: seq<string>)
    ensures |r| == |answers| && forall i :: 0 <= i < |r| ==> r[i] == AnswerText(answers[i])
  {
    seq(|answers|, i requires 0 <= i < |answers| => AnswerText(answers[i]))
  }

  function MessagesOf(answers: seq<Answer>): (r: seq<Message>)
    requires forall a :: a in answers ==> FitsBuffers(a)
  {
    if answers == [] then [] else [MessageOf(answers[0])] + MessagesOf(answers[1..])
  }

  /** A client splits the answers of a connection apart: one message each, in order, nothing left over. */
  lemma {:induction false} AnswersAreRead(answers: seq<Answer>)
    requires forall a :: a in answers ==> FitsBuffers(a)
    ensures ReadAll(Flat(AnswerTexts(answers))) == (MessagesOf(answers), "")
  {
    if answers != [] {
      var t, rest := AnswerText(answers[0]), Flat(AnswerTexts(answers[1..]));
      assert AnswerTexts(answers)[1..] == AnswerTexts(answers[1..]);
      AnswerIsRead(answers[0], rest);
      AnswersAreRead(answers[1..]);
      assert (t + rest)[|t|..] == rest;
    }
  }
}
