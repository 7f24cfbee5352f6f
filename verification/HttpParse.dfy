/**
 The C server's incremental HTTP request parser. It is handed the whole unread part of a
 connection's buffer and either recognises one request at its front or waits.
 */
module HttpParse {
  import opened ByteScan
  import opened CInts
  import opened Decimal
  import opened Wrappers

  datatype Method = Get | Post | Delete

  datatype Path = LockPath | UnlockPath | LocksPath | HealthzPath | UnknownPath

  datatype Request = Request(verb: Method, path: Path, body: string)

  /** `Complete` is a positive return value, `Incomplete` is 0 and `Malformed` is negative. */
  datatype Parsed = Incomplete | Malformed | Complete(req: Request, total: nat)

  predicate HeadersEndAt(s: string, i: nat) {
    i + 4 <= |s| && s[i] == '\r' && s[i + 1] == '\n' && s[i + 2] == '\r' && s[i + 3] == '\n'
  }

  /** The first blank line at or after `i`; the length stands for "not found". */
  function HeaderEnd(s: string, i: nat): (r: nat)
    requires i <= |s|
    ensures i <= r <= |s|
    ensures r < |s| ==> HeadersEndAt(s, r)
    ensures forall k :: i <= k < r ==> !HeadersEndAt(s, k)
    decreases |s| - i
  {
    if i == |s| || HeadersEndAt(s, i) then i else HeaderEnd(s, i + 1)
  }

  function PathOf(p: string): (r: Path) {
    if "/healthz" <= p then HealthzPath
    else if p == "/locks" || p == "/locks/" then LocksPath
    else if p == "/unlock" || p == "/unlock/" then UnlockPath
    else if p == "/lock" || p == "/lock/" then LockPath
    else UnknownPath
  }

  /** Which paths are recognised: three with or without a trailing slash, the health check by its prefix. */
  lemma PathIff(p: string)
    ensures PathOf(p) == LockPath <==> p == "/lock" || p == "/lock/"
    ensures PathOf(p) == UnlockPath <==> p == "/unlock" || p == "/unlock/"
    ensures PathOf(p) == LocksPath <==> p == "/locks" || p == "/locks/"
    ensures PathOf(p) == HealthzPath <==> exists rest :: p == "/healthz" + rest
  {
    assert "/healthz"[1] == 'h' && "/unlock"[1] == 'u' && "/unlock/"[1] == 'u' && "/locks"[1] == 'l' && "/lock"[1] == 'l';
    assert |"/lock/"| == |"/locks"| && "/lock/"[5] != "/locks"[5];
    if "/healthz" <= p {
      assert p == "/healthz" + p[8..];
    }
  }

  /** `t` stands between the first two spaces of `s`. */
  ghost predicate HasTarget(s: string, t: string) {
    exists verb, rest :: s == verb + " " + t + " " + rest && ' ' !in verb && ' ' !in t
  }

  /** The digit loop: an `int` accumulator over the digits of `s[i..]`. */
  function ReadLength(s: string, i: nat, acc: int): (r: int)
    requires i <= |s|
    decreases |s| - i
  {
    if i < |s| && IsDigit(s[i]) then ReadLength(s, i + 1, ToInt32(acc * 10 + (s[i] as int - 48))) else acc
  }

  predicate IsLengthHeader(line: string) {
    |line| > 16 && (line[..16] == "Content-Length: " || line[..16] == "content-length: ")
  }

  /** The number on a recognised line. */
  function LineLength(line: string): (r: int) {
    if |line| < 16 then 0 else ReadLength(line, 16, 0)
  }

  /** A scan of header lines: the first recognised line decides, and none means 0. */
  function ScanLines(text: string, recognised: string -> bool, read: string -> int): (r: int)
    decreases |text|
  {
    var nl := IndexFrom(text, '\n', 0);
    if nl == |text| then 0
    else if recognised(text[..nl]) then read(text[..nl])
    else ScanLines(text[nl + 1..], recognised, read)
  }

  /** The announced body length of a header block. */
  function ContentLength(head: string): (r: int) {
    ScanLines(head, IsLengthHeader, LineLength)
  }

  function MethodOf(c: char): (m: Method)
    requires c == 'G' || c == 'P' || c == 'D'
  {
    if c == 'G' then Get else if c == 'P' then Post else Delete
  }

  /** The path between the first two spaces, which need not lie on the first line. */
  function Target(s: string): (r: Option<Path>) {
    var space1 := IndexFrom(s, ' ', 0);
    if space1 == |s| then None
    else
      var space2 := IndexFrom(s, ' ', space1 + 1);
      if space2 == |s| then None else Some(PathOf(s[space1 + 1..space2]))
  }

  lemma TargetOf(s: string, verb: string, t: string, rest: string)
    requires s == verb + " " + t + " " + rest && ' ' !in verb && ' ' !in t
    ensures var p := IndexFrom(s, ' ', 0); p < |s| && var q := IndexFrom(s, ' ', p + 1); q < |s| && s[p + 1..q] == t
  {
    var p, q := |verb|, |verb| + 1 + |t|;
    assert forall i :: 0 <= i < p ==> s[i] == verb[i];
    assert forall i :: p < i < q ==> s[i] == t[i - p - 1];
    assert s[p] == ' ' && s[q] == ' ' && s[p + 1..q] == t;
    IndexIs(s, ' ', 0, p);
    IndexIs(s, ' ', p + 1, q);
  }

  lemma SplitAtSpaces(s: string, p: nat, q: nat)
    requires p < q < |s| && s[p] == ' ' && s[q] == ' '
    ensures s == s[..p] + " " + s[p + 1..q] + " " + s[q + 1..]
  {
  }

  /** A request with a target has exactly one. */
  lemma OnlyTarget(s: string) returns (t: string)
    requires Target(s).Some?
    ensures Target(s) == Some(PathOf(t)) && forall u :: HasTarget(s, u) <==> u == t
  {
    var p := IndexFrom(s, ' ', 0);
    var q := IndexFrom(s, ' ', p + 1);
    t := s[p + 1..q];
    SplitAtSpaces(s, p, q);
    assert HasTarget(s, t);
    forall u | HasTarget(s, u) ensures u == t {
      var verb, rest :| s == verb + " " + u + " " + rest && ' ' !in verb && ' ' !in u;
      TargetOf(s, verb, u, rest);
    }
  }

  /** What follows the headers, once the method, path and header end are known. */
  function ParseBody(s: string, m: Method, path: Path, end: nat): (r: Parsed)
    requires end + 4 <= |s|
    ensures r.Complete? ==> 0 < r.total <= |s|
  {
    var size := end + 4;
    var length := if m == Post then ContentLength(s[..end + 2]) else 0;
    var total := ToInt32(size + length);
    if |s| < total || total == 0 then Incomplete
    else if total < 0 then Malformed
    else Complete(Request(m, path, if size <= total then s[size..total] else ""), total)
  }

  /** `parse_request` on the unread bytes `s`. */
  function Parse(s: string): (r: Parsed)
    ensures r.Complete? ==> 0 < r.total <= |s|
  {
    if |s| < 16 then Incomplete
    else if s[0] != 'G' && s[0] != 'P' && s[0] != 'D' then Malformed
    else
      var path := Target(s);
      var end := HeaderEnd(s, 0);
      if path.None? || end == |s| then Incomplete
      else ParseBody(s, MethodOf(s[0]), path.value, end)
  }

  lemma ParseBodyExtends(s: string, t: string, m: Method, path: Path, end: nat)
    requires end + 4 <= |s| && ParseBody(s, m, path, end).Complete?
    ensures ParseBody(s + t, m, path, end) == ParseBody(s, m, path, end)
  {
    assert (s + t)[..end + 2] == s[..end + 2];
    var total := ParseBody(s, m, path, end).total;
    if end + 4 <= total {
      assert (s + t)[end + 4..total] == s[end + 4..total];
    }
  }

  /** A positive answer on a prefix stays the same answer on every extension. */
  lemma ParseExtends(s: string, t: string)
    requires Parse(s).Complete?
    ensures Parse(s + t) == Parse(s)
  {
    TargetExtends(s, t);
    HeaderEndExtends(s, t);
    ParseBodyExtends(s, t, MethodOf(s[0]), Target(s).value, HeaderEnd(s, 0));
  }

  /**
   Which complete requests reach which endpoint, by their bytes: the text between the first two
   spaces decides, and the first byte is the method.
   */
  lemma EndpointIff(s: string)
    requires Parse(s).Complete?
    ensures var req := Parse(s).req;
      && (req.verb == Get <==> s[0] == 'G') && (req.verb == Post <==> s[0] == 'P')
      && (req.path == LockPath <==> HasTarget(s, "/lock") || HasTarget(s, "/lock/"))
      && (req.path == UnlockPath <==> HasTarget(s, "/unlock") || HasTarget(s, "/unlock/"))
      && (req.path == LocksPath <==> HasTarget(s, "/locks") || HasTarget(s, "/locks/"))
      && (req.path == HealthzPath <==> exists rest :: HasTarget(s, "/healthz" + rest))
  {
    ParsedPath(s);
    var t := OnlyTarget(s);
    PathIff(t);
  }

  lemma ParsedPath(s: string)
    requires Parse(s).Complete?
    ensures Target(s) == Some(Parse(s).req.path) && s != ""
    ensures Parse(s).req.verb == Get <==> s[0] == 'G'
    ensures Parse(s).req.verb == Post <==> s[0] == 'P'
  {
  }

  lemma TargetExtends(s: string, t: string)
    requires Target(s).Some?
    ensures Target(s + t) == Target(s)
  {
    var space1 := IndexFrom(s, ' ', 0);
    IndexExtends(s, t, ' ', 0);
    var space2 := IndexFrom(s, ' ', space1 + 1);
    IndexExtends(s, t, ' ', space1 + 1);
    assert (s + t)[space1 + 1..space2] == s[space1 + 1..space2];
  }

  lemma HeaderEndExtends(s: string, t: string)
    requires HeaderEnd(s, 0) < |s|
    ensures HeaderEnd(s + t, 0) == HeaderEnd(s, 0)
  {
    var a, b := HeaderEnd(s, 0), HeaderEnd(s + t, 0);
    assert HeadersEndAt(s + t, a);
    assert forall k :: 0 <= k < a ==> (HeadersEndAt(s + t, k) <==> HeadersEndAt(s, k));
  }

  /** The blank-line search, which stops four bytes before the end. */
  method FindHeaderEnd(s: string) returns (r: nat)
    ensures r == HeaderEnd(s, 0)
  {
    for i := 0 to if |s| >= 4 then |s| - 3 else 0
      invariant i <= |s| && HeaderEnd(s, 0) == HeaderEnd(s, i)
    {
      if s[i] == '\r' && s[i + 1] == '\n' && s[i + 2] == '\r' && s[i + 3] == '\n' {
        return i;
      }
    }
    r := |s|;
  }

  /** The digit loop of a recognised line. */
  method SumDigits(line: string) returns (length: int)
    requires |line| >= 16
    ensures length == ReadLength(line, 16, 0)
  {
    length := 0;
    var p := 16;
    while p < |line| && IsDigit(line[p])
      invariant 16 <= p <= |line|
      invariant ReadLength(line, 16, 0) == ReadLength(line, p, length)
    {
      length := ToInt32(length * 10 + (line[p] as int - 48));
      p := p + 1;
    }
  }

  /** The line loop over the header block. */
  method ScanContentLength(head: string) returns (length: int)
    ensures length == ContentLength(head)
  {
    var rest := head;
    while rest != ""
      invariant ContentLength(head) == ScanLines(rest, IsLengthHeader, LineLength)
      decreases |rest|
    {
      var nl := FindChar(rest, '\n', 0);
      if nl == |rest| {
        return 0;
      }
      var line := rest[..nl];
      if IsLengthHeader(line) {
        length := SumDigits(line);
        return;
      }
      rest := rest[nl + 1..];
    }
    length := 0;
  }

  /** `parse_request` step by step. */
  method ParseRequest(s: string) returns (r: Parsed)
    ensures r == Parse(s)
  {
    if |s| < 16 {
      return Incomplete;
    }
    var m;
    match s[0] {
      case 'G' => m := Get;
      case 'P' => m := Post;
      case 'D' => m := Delete;
      case _ => return Malformed;
    }
    var path := FindTarget(s);
    if path.None? {
      return Incomplete;
    }
    var end := FindHeaderEnd(s);
    if end == |s| {
      return Incomplete;
    }
    r := FrameBody(s, m, path.value, end);
  }

  method FindTarget(s: string) returns (r: Option<Path>)
    ensures r == Target(s)
  {
    var space1 := FindChar(s, ' ', 0);
    if space1 == |s| {
      return None;
    }
    var space2 := FindChar(s, ' ', space1 + 1);
    if space2 == |s| {
      return None;
    }
    r := Some(PathOf(s[space1 + 1..space2]));
  }

  /** The tail of `parse_request`: how long the request is and whether all of it has arrived. */
  method FrameBody(s: string, m: Method, path: Path, end: nat) returns (r: Parsed)
    requires end + 4 <= |s|
    ensures r == ParseBody(s, m, path, end)
  {
    var size, length := end + 4, 0;
    if m == Post {
      length := ScanContentLength(s[..end + 2]);
    }
    var total := ToInt32(size + length);
    if |s| < total || total == 0 {
      return Incomplete;
    }
    if total < 0 {
      return Malformed;
    }
    r := Complete(Request(m, path, if size <= total then s[size..total] else ""), total);
  }
}
