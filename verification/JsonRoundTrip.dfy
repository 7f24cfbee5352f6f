/** Request bodies as clients print them, and what the scanner recovers. */
module JsonRoundTrip {
  import opened ByteScan
  import opened JsonRequest
  import opened Wrappers

  /** A member of a request: one of the three the server knows, or another with a string or a bare word. */
  datatype Member =
    | KeyMember(text: string)
    | LockeeMember(text: string)
    | ForceMember(flag: bool)
    | OtherText(name: string, text: string)
    | OtherWord(name: string, word: string)

  /** A printed member: whitespace before its name, around its colon and after its value. */
  datatype Piece = Piece(before: string, m: Member, colon: string, gap: string, after: string)

  predicate Blanks(s: string) {
    forall c :: c in s ==> c == ' ' || c == '\t'
  }

  /** JSON's insignificant whitespace, which has line breaks as well. */
  predicate Space(s: string) {
    forall c :: c in s ==> c == ' ' || c == '\t' || c == '\n' || c == '\r'
  }

  /** Text without a comma or a closing brace. */
  predicate Undivided(s: string) {
    ',' !in s && '}' !in s
  }

  predicate OtherName(name: string) {
    '"' !in name && Undivided(name) && name != "key" && name != "lockee" && name != "force"
  }

  /** A string value that JSON prints verbatim has no quote (nor any escaped character). */
  predicate Plain(m: Member) {
    match m
    case ForceMember(_) => true
    case OtherText(name, text) => OtherName(name) && '"' !in text
    case OtherWord(name, word) => OtherName(name) && word != "" && '"' !in word && Undivided(word)
    case _ => '"' !in m.text
  }

  predicate Printable(p: Piece) {
    Space(p.before) && Space(p.colon) && Space(p.gap) && Space(p.after) && Plain(p.m)
  }

  function NameOf(m: Member): (s: string) {
    match m
    case KeyMember(_) => "key"
    case LockeeMember(_) => "lockee"
    case ForceMember(_) => "force"
    case OtherText(name, _) => name
    case OtherWord(name, _) => name
  }

  /** A name in its quotes, up to its colon. */
  function Tag(p: Piece): (s: string) {
    "\"" + NameOf(p.m) + "\"" + p.colon + ":"
  }

  predicate HasText(m: Member) {
    m.KeyMember? || m.LockeeMember? || m.OtherText?
  }

  function Value(m: Member): (s: string) {
    match m
    case ForceMember(flag) => if flag then "true" else "false"
    case OtherWord(_, word) => word
    case _ => "\"" + m.text + "\""
  }

  function FromName(p: Piece): (s: string) {
    Tag(p) + (p.gap + (Value(p.m) + p.after))
  }

  function PieceText(p: Piece): (s: string) {
    p.before + FromName(p)
  }

  /** Members printed by `show`, separated by commas. */
  function Members(show: Piece -> string, ps: seq<Piece>): (s: string) {
    if ps == [] then ""
    else if |ps| == 1 then show(ps[0])
    else show(ps[0]) + ("," + Members(show, ps[1..]))
  }

  /** An object with whitespace around it. */
  function Object(lead: string, ps: seq<Piece>, trail: string): (s: string) {
    lead + "{" + (Members(PieceText, ps) + ("}" + trail))
  }

  ghost predicate ShowsAt(show: Piece -> string, p: Piece) {
    show(p) == PieceText(p)
  }

  /** `show` prints pieces as `PieceText` does. */
  ghost predicate Shows(show: Piece -> string) {
    forall p :: ShowsAt(show, p)
  }

  /** The scanner knows three names, and only with the colon right behind the closing quote. */
  predicate Ignored(p: Piece) {
    p.colon != "" || p.m.OtherText? || p.m.OtherWord?
  }

  /** What the scanner takes from a member; it sees a `true` only behind blanks. */
  function Apply(p: Piece, out: Fields): (r: Fields) {
    if Ignored(p) then out
    else
      match p.m
      case KeyMember(text) => out.(key := Some(text))
      case LockeeMember(text) => out.(lockee := Some(text))
      case ForceMember(flag) => out.(force := flag && Blanks(p.gap))
      case _ => out
  }

  /** A string value with a comma or brace, where skipping over the value stops too early. */
  predicate Divided(m: Member) {
    HasText(m) && !Undivided(m.text)
  }

  /** Whether the scanner has lost its place behind a member, given whether it had before it. */
  predicate Loses(lost: bool, p: Piece) {
    Divided(p.m) && (lost || Ignored(p))
  }

  /** Having read `ps`, the scanner will take the next member for part of a value. */
  predicate Lost(ps: seq<Piece>)
    decreases |ps|
  {
    ps != [] && Loses(Lost(ps[..|ps| - 1]), ps[|ps| - 1])
  }

  function ApplyAll(lost: bool, ps: seq<Piece>, out: Fields): (r: Fields)
    decreases |ps|
  {
    if ps == [] then out
    else ApplyAll(Loses(lost, ps[0]), ps[1..], if lost then out else Apply(ps[0], out))
  }

  lemma {:induction false} ScanSkips(b: string, p: nat, q: nat, out: Fields)
    requires p <= q <= |b| && forall i :: p <= i < q ==> b[i] != '"'
    ensures Scan(b, p, out) == Scan(b, q, out)
    decreases q - p
  {
    if p < q {
      ScanSkips(b, p + 1, q, out);
    }
  }

  type Scanner = (nat, Fields) -> Option<Fields>

  ghost predicate ScansAt(scan: Scanner, b: string, p: nat, out: Fields) {
    p <= |b| ==> scan(p, out) == Scan(b, p, out)
  }

  /** `scan` is the scanner on the body `b`. */
  ghost predicate Scans(scan: Scanner, b: string) {
    forall p, out :: ScansAt(scan, b, p, out)
  }

  /** Text without quotes is passed over. */
  lemma TextSkipped(scan: Scanner, b: string, p: nat, q: nat, out: Fields)
    requires Scans(scan, b) && p <= q <= |b| && forall i :: p <= i < q ==> b[i] != '"'
    ensures scan(p, out) == scan(q, out)
  {
    ScanSkips(b, p, q, out);
    assert ScansAt(scan, b, p, out) && ScansAt(scan, b, q, out);
  }

  lemma SpaceSkipped(scan: Scanner, b: string, p: nat, s: string, out: Fields)
    requires Scans(scan, b) && At(b, p, s) && Space(s)
    ensures scan(p, out) == scan(p + |s|, out)
  {
    AtWithout(b, p, s, '"');
    TextSkipped(scan, b, p, p + |s|, out);
  }

  lemma BlanksUnfold(gap: string)
    requires gap != []
    ensures Blanks(gap) <==> IsBlank(gap[0]) && Blanks(gap[1..])
  {
    if Blanks(gap) {
      assert gap[0] in gap;
      assert forall c :: c in gap[1..] ==> c in gap;
    } else {
      var c :| c in gap && c != ' ' && c != '\t';
      assert c == gap[0] || c in gap[1..];
    }
  }

  /** Skipping blanks reaches the end of a gap exactly if the gap is all blanks. */
  lemma {:induction false} BlanksSkipped(b: string, p: nat, gap: string)
    requires At(b, p, gap)
    requires p + |gap| == |b| || !IsBlank(b[p + |gap|])
    ensures var v := SkipBlanks(b, p);
      v <= p + |gap| && (v == p + |gap| <==> Blanks(gap)) && (v < p + |gap| ==> b[v] in gap)
    decreases |gap|
  {
    if gap != [] {
      AtIndex(b, p, gap, p);
      assert gap == [gap[0]] + gap[1..];
      AtSplit(b, p, [gap[0]], gap[1..]);
      BlanksSkipped(b, p + 1, gap[1..]);
      BlanksUnfold(gap);
    }
  }

  lemma {:induction false} ValueSkipped(b: string, p: nat, q: nat)
    requires p <= q < |b| && EndsValue(b[q]) && forall i :: p <= i < q ==> !EndsValue(b[i])
    ensures SkipValue(b, p) == q
    decreases q - p
  {
    if p < q {
      ValueSkipped(b, p + 1, q);
    }
  }

  lemma QuoteAt(b: string, p: nat, s: string)
    requires At(b, p, s) && '"' !in s && p + |s| < |b| && b[p + |s|] == '"'
    ensures IndexFrom(b, '"', p) == p + |s|
  {
    AtWithout(b, p, s, '"');
    IndexIs(b, '"', p, p + |s|);
  }

  lemma QuotedLayout(b: string, p: nat, text: string)
    requires At(b, p, "\"" + text + "\"")
    ensures var e := p + 1 + |text|; e < |b| && b[p] == '"' && b[e] == '"' && At(b, p + 1, text)
  {
    AtSplit(b, p, "\"" + text, "\"");
    AtSplit(b, p, "\"", text);
    AtIndex(b, p, "\"", p);
    AtIndex(b, p + 1 + |text|, "\"", p + 1 + |text|);
  }

  lemma QuotedFound(b: string, p: nat, gap: string, text: string)
    requires At(b, p, gap) && At(b, p + |gap|, "\"" + text + "\"") && Space(gap) && '"' !in text
    ensures QuotedValue(b, p) == Some((text, p + |gap| + |text| + 2))
  {
    QuotedLayout(b, p + |gap|, text);
    QuoteAt(b, p, gap);
    QuoteAt(b, p + |gap| + 1, text);
  }

  /** No comma or brace before the one that ends a force value. */
  lemma ForceUndivided(b: string, p: nat, gap: string, text: string, after: string)
    requires At(b, p, gap) && At(b, p + |gap|, text) && At(b, p + |gap| + |text|, after)
    requires Space(gap) && Space(after) && ',' !in text && '}' !in text
    ensures forall i :: p <= i < p + |gap| + |text| + |after| ==> !EndsValue(b[i])
  {
    AtWithout(b, p, gap, ',');
    AtWithout(b, p, gap, '}');
    AtWithout(b, p + |gap|, text, ',');
    AtWithout(b, p + |gap|, text, '}');
    AtWithout(b, p + |gap| + |text|, after, ',');
    AtWithout(b, p + |gap| + |text|, after, '}');
  }

  lemma ForceFound(b: string, p: nat, gap: string, flag: bool, after: string, q: nat)
    requires var text := Value(ForceMember(flag));
      && At(b, p, gap) && At(b, p + |gap|, text) && At(b, p + |gap| + |text|, after)
      && q == p + |gap| + |text| + |after| < |b|
    requires Space(gap) && Space(after) && EndsValue(b[q])
    ensures var v := SkipBlanks(b, p); v < |b| && (b[v] == 't' <==> flag && Blanks(gap)) && SkipValue(b, v) == q
  {
    var text := Value(ForceMember(flag));
    AtIndex(b, p + |gap|, text, p + |gap|);
    BlanksSkipped(b, p, gap);
    ForceUndivided(b, p, gap, text, after);
    ValueSkipped(b, SkipBlanks(b, p), q);
  }

  lemma KnownTag(x: Piece)
    requires !Ignored(x)
    ensures Tag(x) == "\"" + (NameOf(x.m) + "\":")
  {
  }

  /** The name at `p` is recognised as its own and as no other. */
  lemma NameSeen(b: string, p: nat, x: Piece)
    requires At(b, p, Tag(x)) && !Ignored(x)
    ensures p + 4 < |b| && b[p] == '"'
    ensures StartsAt(b, p + 1, "key\":") <==> x.m.KeyMember?
    ensures StartsAt(b, p + 1, "lockee\":") <==> x.m.LockeeMember?
    ensures x.m.ForceMember? ==> StartsAt(b, p + 1, "force\":")
  {
    KnownTag(x);
    var word := NameOf(x.m) + "\":";
    AtSplit(b, p, "\"", word);
    AtIndex(b, p, "\"", p);
    AtIndex(b, p + 1, word, p + 1);
    assert StartsAt(b, p + 1, "key\":") ==> b[p + 1..p + 6][0] == 'k';
    assert StartsAt(b, p + 1, "lockee\":") ==> b[p + 1..p + 9][0] == 'l';
  }

  /** One step of the scan at a name with a quoted value. */
  lemma NameTaken(scan: Scanner, b: string, p: nat, x: Piece, text: string, e: nat, out: Fields)
    requires Scans(scan, b) && At(b, p, Tag(x)) && !Ignored(x) && !x.m.ForceMember?
    requires QuotedValue(b, p + |Tag(x)|) == Some((text, e))
    ensures scan(p, out) == scan(e, if x.m.KeyMember? then out.(key := Some(text)) else out.(lockee := Some(text)))
  {
    var out' := if x.m.KeyMember? then out.(key := Some(text)) else out.(lockee := Some(text));
    NameSeen(b, p, x);
    assert ScansAt(scan, b, p, out) && ScansAt(scan, b, e, out');
  }

  /** One step of the scan at the name of the flag. */
  lemma FlagTaken(scan: Scanner, b: string, p: nat, x: Piece, v: nat, q: nat, seen: bool, out: Fields)
    requires Scans(scan, b) && At(b, p, Tag(x)) && !Ignored(x) && x.m.ForceMember? && SkipBlanks(b, p + 8) == v < |b|
    requires SkipValue(b, v) == q && (b[v] == 't' <==> seen)
    ensures scan(p, out) == scan(q, out.(force := seen))
  {
    NameSeen(b, p, x);
    assert ScansAt(scan, b, p, out) && ScansAt(scan, b, q, out.(force := seen));
  }

  lemma ValueIn(b: string, p: nat, tag: string, gap: string, text: string, after: string)
    requires At(b, p, tag + (gap + (("\"" + text + "\"") + after))) && Space(gap) && '"' !in text
    ensures At(b, p, tag) && QuotedValue(b, p + |tag|) == Some((text, p + |tag| + |gap| + |text| + 2))
  {
    AtSplitFour(b, p, tag, gap, "\"" + text + "\"", after);
    QuotedFound(b, p + |tag|, gap, text);
  }

  lemma ValueFound(b: string, p: nat, x: Piece, e: nat)
    requires At(b, p, FromName(x)) && Printable(x) && HasText(x.m) && e == p + |FromName(x)| - |x.after|
    ensures At(b, p, Tag(x)) && QuotedValue(b, p + |Tag(x)|) == Some((x.m.text, e))
  {
    ValueIn(b, p, Tag(x), x.gap, x.m.text, x.after);
  }

  lemma TextTaken(scan: Scanner, b: string, p: nat, x: Piece, e: nat, out: Fields)
    requires Scans(scan, b) && At(b, p, FromName(x)) && Printable(x) && !Ignored(x) && !x.m.ForceMember?
    requires e == p + |FromName(x)| - |x.after|
    ensures scan(p, out) == scan(e, Apply(x, out))
  {
    ValueFound(b, p, x, e);
    NameTaken(scan, b, p, x, x.m.text, e, out);
  }

  lemma TextScanned(scan: Scanner, b: string, p: nat, x: Piece, q: nat, out: Fields)
    requires Scans(scan, b) && At(b, p, FromName(x)) && Printable(x) && !Ignored(x) && !x.m.ForceMember?
    requires q == p + |FromName(x)|
    ensures scan(p, out) == scan(q, Apply(x, out))
  {
    TextTaken(scan, b, p, x, q - |x.after|, out);
    AtSplitFour(b, p, Tag(x), x.gap, Value(x.m), x.after);
    SpaceSkipped(scan, b, q - |x.after|, x.after, Apply(x, out));
  }

  lemma ForceScanned(scan: Scanner, b: string, p: nat, x: Piece, q: nat, out: Fields)
    requires Scans(scan, b) && At(b, p, FromName(x)) && Printable(x) && !Ignored(x) && x.m.ForceMember?
    requires q == p + |FromName(x)| < |b| && EndsValue(b[q])
    ensures scan(p, out) == scan(q, Apply(x, out))
  {
    KnownTag(x);
    AtSplitFour(b, p, Tag(x), x.gap, Value(x.m), x.after);
    ForceFound(b, p + 8, x.gap, x.m.flag, x.after, q);
    FlagTaken(scan, b, p, x, SkipBlanks(b, p + 8), q, x.m.flag && Blanks(x.gap), out);
  }

  /** A member that the scanner knows is read, and the scan goes on behind it. */
  lemma KnownScanned(scan: Scanner, b: string, p: nat, x: Piece, q: nat, out: Fields)
    requires Scans(scan, b) && At(b, p, FromName(x)) && Printable(x) && !Ignored(x)
    requires q == p + |FromName(x)| < |b| && EndsValue(b[q])
    ensures scan(p, out) == scan(q, Apply(x, out))
  {
    if x.m.ForceMember? {
      ForceScanned(scan, b, p, x, q, out);
    } else {
      TextScanned(scan, b, p, x, q, out);
    }
  }

  lemma UndividedJoin(s: string, t: string)
    requires Undivided(s) && Undivided(t)
    ensures Undivided(s + t)
  {
  }

  lemma UndividedAt(b: string, p: nat, s: string)
    requires At(b, p, s) && Undivided(s)
    ensures forall i :: p <= i < p + |s| ==> !EndsValue(b[i])
  {
    AtWithout(b, p, s, ',');
    AtWithout(b, p, s, '}');
  }

  /** Whatever comes before a value has no comma or brace in it. */
  lemma TagUndivided(x: Piece)
    requires Printable(x)
    ensures Undivided(Tag(x)) && Undivided(x.gap) && Undivided(x.after)
  {
    UndividedJoin("\"", NameOf(x.m));
    UndividedJoin("\"" + NameOf(x.m), "\"");
    UndividedJoin("\"" + NameOf(x.m) + "\"", x.colon);
    UndividedJoin("\"" + NameOf(x.m) + "\"" + x.colon, ":");
  }

  lemma WholeUndivided(x: Piece)
    requires Printable(x) && !Divided(x.m)
    ensures Undivided(FromName(x))
  {
    TagUndivided(x);
    if HasText(x.m) {
      UndividedJoin("\"", x.m.text);
      UndividedJoin("\"" + x.m.text, "\"");
    }
    UndividedJoin(Value(x.m), x.after);
    UndividedJoin(x.gap, Value(x.m) + x.after);
    UndividedJoin(Tag(x), x.gap + (Value(x.m) + x.after));
  }

  /** The first comma or brace of a text that has one. */
  lemma {:induction false} FirstDivision(s: string) returns (d: nat)
    requires !Undivided(s)
    ensures d < |s| && EndsValue(s[d]) && Undivided(s[..d])
    decreases |s|
  {
    if EndsValue(s[0]) {
      d := 0;
    } else {
      assert s == [s[0]] + s[1..];
      d := FirstDivision(s[1..]);
      d := d + 1;
      assert s[..d] == [s[0]] + s[1..][..d - 1];
    }
  }

  /** Where the text of a string value lies. */
  lemma TextLayout(b: string, p: nat, x: Piece, c: nat)
    requires At(b, p, FromName(x)) && HasText(x.m) && c == p + |FromName(x)| - |x.after| - 1
    ensures At(b, p, Tag(x)) && At(b, p + |Tag(x)|, x.gap) && At(b, p + |Tag(x)| + |x.gap|, "\"")
    ensures At(b, c - |x.m.text|, x.m.text) && c < |b| && b[c] == '"' && At(b, c + 1, x.after)
  {
    AtSplitFour(b, p, Tag(x), x.gap, Value(x.m), x.after);
    QuotedLayout(b, p + |Tag(x)| + |x.gap|, x.m.text);
    AtSplit(b, p + |Tag(x)| + |x.gap|, "\"" + x.m.text, "\"");
    AtSplit(b, p + |Tag(x)| + |x.gap|, "\"", x.m.text);
  }

  lemma BeforeTextUndivided(b: string, p: nat, x: Piece, c: nat)
    requires At(b, p, FromName(x)) && Printable(x) && HasText(x.m) && c == p + |FromName(x)| - |x.after| - 1
    ensures p <= c - |x.m.text| <= |b| && forall i :: p <= i < c - |x.m.text| ==> !EndsValue(b[i])
  {
    TextLayout(b, p, x, c);
    TagUndivided(x);
    UndividedAt(b, p, Tag(x));
    UndividedAt(b, p + |Tag(x)|, x.gap);
    UndividedAt(b, p + |Tag(x)| + |x.gap|, "\"");
  }

  lemma DivisionFound(b: string, s: nat, text: string) returns (d: nat)
    requires At(b, s, text) && !Undivided(text)
    ensures s <= d < s + |text| && EndsValue(b[d]) && forall i :: s <= i < d ==> !EndsValue(b[i])
  {
    d := FirstDivision(text);
    assert text == text[..d] + text[d..];
    AtSplit(b, s, text[..d], text[d..]);
    UndividedAt(b, s, text[..d]);
    AtIndex(b, s, text, s + d);
    d := s + d;
  }

  lemma SkipStops(scan: Scanner, b: string, v: nat, s: nat, text: string, out: Fields)
    requires Scans(scan, b) && At(b, s, text) && !Undivided(text) && '"' !in text
    requires v <= s && forall i :: v <= i < s ==> !EndsValue(b[i])
    ensures scan(SkipValue(b, v), out) == scan(s + |text|, out)
  {
    var d := DivisionFound(b, s, text);
    ValueSkipped(b, v, d);
    AtWithout(b, s, text, '"');
    TextSkipped(scan, b, d, s + |text|, out);
  }

  /** Skipping the value stops inside the text, and the next quote is the one that closes it. */
  lemma SkipStopsInText(scan: Scanner, b: string, p: nat, x: Piece, v: nat, c: nat, out: Fields)
    requires Scans(scan, b) && At(b, p, FromName(x)) && Printable(x) && Divided(x.m)
    requires c == p + |FromName(x)| - |x.after| - 1 && p <= v <= c - |x.m.text|
    ensures v <= |b| && scan(SkipValue(b, v), out) == scan(c, out)
  {
    TextLayout(b, p, x, c);
    BeforeTextUndivided(b, p, x, c);
    SkipStops(scan, b, v, c - |x.m.text|, x.m.text, out);
  }

  /** Where the scan goes on when the value of `x` is skipped: behind it, or at the quote that closes it. */
  function SkippedTo(x: Piece, q: int): (c: int) {
    if Divided(x.m) then q - |x.after| - 1 else q
  }

  /** Skipping from the name of a member on. */
  lemma ValuePassed(scan: Scanner, b: string, p: nat, x: Piece, v: nat, q: nat, out: Fields)
    requires Scans(scan, b) && At(b, p, FromName(x)) && Printable(x) && p <= v <= p + |NameOf(x.m)| + 2
    requires q == p + |FromName(x)| < |b| && EndsValue(b[q])
    ensures 0 <= SkippedTo(x, q) && scan(SkipValue(b, v), out) == scan(SkippedTo(x, q), out)
  {
    if Divided(x.m) {
      TextLayout(b, p, x, q - |x.after| - 1);
      SkipStopsInText(scan, b, p, x, v, q - |x.after| - 1, out);
    } else {
      WholeUndivided(x);
      UndividedAt(b, p, FromName(x));
      ValueSkipped(b, v, q);
    }
  }

  lemma TagLayout(b: string, p: nat, x: Piece)
    requires At(b, p, Tag(x))
    ensures var e := p + 1 + |NameOf(x.m)|;
      At(b, p, "\"") && At(b, p + 1, NameOf(x.m)) && At(b, e, "\"") && At(b, e + 1, x.colon) && At(b, e + 1 + |x.colon|, ":")
  {
    var n := NameOf(x.m);
    AtSplit(b, p, "\"" + n + "\"" + x.colon, ":");
    AtSplit(b, p, "\"" + n + "\"", x.colon);
    AtSplit(b, p, "\"" + n, "\"");
    AtSplit(b, p, "\"", n);
  }

  lemma NameCloses(b: string, p: nat, x: Piece)
    requires At(b, p, Tag(x)) && Printable(x)
    ensures var e := p + 1 + |NameOf(x.m)|; e + 1 < |b| && b[p] == '"' && b[e] == '"' && IndexFrom(b, '"', p + 1) == e
    ensures var e := p + 1 + |NameOf(x.m)|; b[e + 1] == if x.colon == "" then ':' else x.colon[0]
  {
    var e := p + 1 + |NameOf(x.m)|;
    TagLayout(b, p, x);
    AtIndex(b, p, "\"", p);
    AtIndex(b, e, "\"", e);
    QuoteAt(b, p + 1, NameOf(x.m));
    if x.colon == "" {
      AtIndex(b, e + 1, ":", e + 1);
    } else {
      AtIndex(b, e + 1, x.colon, e + 1);
    }
  }

  /** A known word in quotes, right before a colon, is the name itself. */
  lemma WordIsName(b: string, p: nat, x: Piece, word: string)
    requires At(b, p, Tag(x)) && Printable(x) && '"' !in word && StartsAt(b, p + 1, word + "\":")
    ensures NameOf(x.m) == word && x.colon == ""
  {
    var e := p + 1 + |word|;
    assert x.colon != "" ==> x.colon[0] in x.colon;
    assert At(b, p + 1, word + "\":");
    AtSplit(b, p + 1, word, "\":");
    AtIndex(b, e, "\":", e);
    AtIndex(b, e, "\":", e + 1);
    QuoteAt(b, p + 1, word);
    NameCloses(b, p, x);
    TagLayout(b, p, x);
  }

  lemma NoKnownName(b: string, p: nat, x: Piece)
    requires At(b, p, Tag(x)) && Printable(x) && Ignored(x)
    ensures !StartsAt(b, p + 1, "key\":") && !StartsAt(b, p + 1, "lockee\":") && !StartsAt(b, p + 1, "force\":")
  {
    assert "key\":" == "key" + "\":" && "lockee\":" == "lockee" + "\":" && "force\":" == "force" + "\":";
    if StartsAt(b, p + 1, "key\":") {
      WordIsName(b, p, x, "key");
    }
    if StartsAt(b, p + 1, "lockee\":") {
      WordIsName(b, p, x, "lockee");
    }
    if StartsAt(b, p + 1, "force\":") {
      WordIsName(b, p, x, "force");
    }
  }

  lemma PieceSize(x: Piece)
    requires Printable(x)
    ensures |FromName(x)| >= |NameOf(x.m)| + 4 && |FromName(x)| >= |Tag(x)|
  {
  }

  /** One step of the scan at a name it does not know. */
  lemma OtherSkipped(scan: Scanner, b: string, p: nat, x: Piece, q: nat, out: Fields)
    requires Scans(scan, b) && At(b, p, Tag(x)) && Printable(x) && Ignored(x) && p + 4 <= q < |b|
    ensures p + 2 + |NameOf(x.m)| <= |b| && scan(p, out) == scan(SkipValue(b, p + 2 + |NameOf(x.m)|), out)
  {
    NoKnownName(b, p, x);
    NameCloses(b, p, x);
    assert ScansAt(scan, b, p, out) && ScansAt(scan, b, SkipValue(b, p + 2 + |NameOf(x.m)|), out);
  }

  /** A member that the scanner does not know is skipped, as far as its value lets it. */
  lemma OtherScanned(scan: Scanner, b: string, p: nat, x: Piece, q: nat, out: Fields)
    requires Scans(scan, b) && At(b, p, FromName(x)) && Printable(x) && Ignored(x)
    requires q == p + |FromName(x)| < |b| && EndsValue(b[q])
    ensures 0 <= SkippedTo(x, q) && scan(p, out) == scan(SkippedTo(x, q), out)
  {
    PieceSize(x);
    AtSplit(b, p, Tag(x), x.gap + (Value(x.m) + x.after));
    OtherSkipped(scan, b, p, x, q, out);
    ValuePassed(scan, b, p, x, p + 2 + |NameOf(x.m)|, q, out);
  }

  /** What stands between a value and the next name. */
  predicate Outside(c: char) {
    c == ' ' || c == '\t' || c == '\n' || c == '\r' || c == ',' || c == '}'
  }

  /** The scanner is at a quote that closes a value, and nothing else comes before `p`. */
  predicate Behind(b: string, c: nat, p: nat) {
    c + 1 < p <= |b| && b[c] == '"' && forall i :: c < i < p ==> Outside(b[i])
  }

  lemma NothingStarts(b: string, c: nat, p: nat)
    requires Behind(b, c, p)
    ensures !StartsAt(b, c + 1, "key\":") && !StartsAt(b, c + 1, "lockee\":") && !StartsAt(b, c + 1, "force\":")
  {
    assert Outside(b[c + 1]);
  }

  /** From a closing quote the scanner goes on as if a name began there, which the next quote ends. */
  lemma LostStep(scan: Scanner, b: string, c: nat, p: nat, out: Fields)
    requires Scans(scan, b) && Behind(b, c, p) && c + 4 < |b|
    ensures scan(c, out) == scan(SkipValue(b, Past(b, IndexFrom(b, '"', p))), out)
  {
    NothingStarts(b, c, p);
    var q := IndexFrom(b, '"', p);
    assert IndexFrom(b, '"', c + 1) == q by {
      if q < |b| {
        IndexIs(b, '"', c + 1, q);
      }
    }
    assert ScansAt(scan, b, c, out) && ScansAt(scan, b, SkipValue(b, Past(b, q)), out);
  }

  lemma NextName(b: string, p: nat, x: Piece)
    requires At(b, p, x.before + FromName(x)) && Printable(x)
    ensures var n := p + |x.before|; At(b, n, FromName(x)) && IndexFrom(b, '"', p) == n && n + 4 <= |b|
  {
    var n, f := p + |x.before|, FromName(x);
    AtSplit(b, p, x.before, f);
    PieceSize(x);
    assert f[0] == Tag(x)[0] == '"';
    AtIndex(b, n, f, n);
    QuoteAt(b, p, x.before);
  }

  /** The next name is then taken for part of the value, and its own value is skipped with it. */
  lemma LostScanned(scan: Scanner, b: string, c: nat, p: nat, x: Piece, q: nat, out: Fields)
    requires Scans(scan, b) && Behind(b, c, p) && At(b, p, x.before + FromName(x)) && Printable(x)
    requires q == p + |x.before| + |FromName(x)| < |b| && EndsValue(b[q])
    ensures 0 <= SkippedTo(x, q) && scan(c, out) == scan(SkippedTo(x, q), out)
  {
    var n := p + |x.before|;
    NextName(b, p, x);
    LostStep(scan, b, c, p, out);
    ValuePassed(scan, b, n, x, n + 1, q, out);
  }

  /** Where the scanner stands when the member before `p` is done. */
  predicate Stands(lost: bool, b: string, c: nat, p: nat) {
    if lost then Behind(b, c, p) else c == p
  }

  function EndOf(lost: bool, x: Piece, q: int): (c: int) {
    if Loses(lost, x) then q - |x.after| - 1 else q
  }

  lemma ClosingQuote(b: string, p: nat, x: Piece, c: nat)
    requires At(b, p, x.before + FromName(x)) && HasText(x.m) && c == p + |x.before| + |FromName(x)| - |x.after| - 1
    ensures c < |b| && b[c] == '"' && At(b, c + 1, x.after)
  {
    AtSplit(b, p, x.before, FromName(x));
    TextLayout(b, p + |x.before|, x, c);
  }

  lemma TextInside(x: Piece)
    requires HasText(x.m)
    ensures |FromName(x)| >= |x.after| + 1
  {
  }

  /** The scanner at a printed piece: read, skipped, or swallowed by the value before it. */
  lemma PieceScanned(scan: Scanner, b: string, lost: bool, c: nat, p: nat, show: Piece -> string, x: Piece, q: nat, out: Fields)
    requires Scans(scan, b) && Shows(show) && Stands(lost, b, c, p) && At(b, p, show(x)) && Printable(x)
    requires q == p + |show(x)| < |b| && EndsValue(b[q])
    ensures 0 <= EndOf(lost, x, q) && scan(c, out) == scan(EndOf(lost, x, q), if lost then out else Apply(x, out))
  {
    assert ShowsAt(show, x);
    if lost {
      LostScanned(scan, b, c, p, x, q, out);
    } else {
      AtSplit(b, p, x.before, FromName(x));
      SpaceSkipped(scan, b, p, x.before, out);
      if Ignored(x) {
        OtherScanned(scan, b, p + |x.before|, x, q, out);
      } else {
        KnownScanned(scan, b, p + |x.before|, x, q, out);
      }
    }
  }

  lemma LostBehind(b: string, lost: bool, p: nat, show: Piece -> string, x: Piece, q: nat)
    requires Shows(show) && At(b, p, show(x)) && Printable(x) && Loses(lost, x)
    requires q == p + |show(x)| < |b| && EndsValue(b[q])
    ensures q - |x.after| - 1 >= 0 && Behind(b, q - |x.after| - 1, q + 1)
  {
    assert ShowsAt(show, x);
    TextInside(x);
    ClosingQuote(b, p, x, q - |x.after| - 1);
    OutsideAfter(b, q - |x.after| - 1, x.after);
  }

  lemma OutsideAfter(b: string, c: nat, after: string)
    requires c < |b| && b[c] == '"' && At(b, c + 1, after) && Space(after) && c + 1 + |after| < |b| && EndsValue(b[c + 1 + |after|])
    ensures Behind(b, c, c + |after| + 2)
  {
    forall i | c < i < c + |after| + 2 ensures Outside(b[i]) {
      if i < c + 1 + |after| {
        AtIndex(b, c + 1, after, i);
        assert after[i - c - 1] in after;
      }
    }
  }

  /** From `e` on there is a closing brace and no further quote. */
  predicate Closes(b: string, e: nat) {
    e < |b| && b[e] == '}' && forall i :: e <= i < |b| ==> b[i] != '"'
  }

  lemma TailScanned(scan: Scanner, b: string, p: nat, out: Fields)
    requires Scans(scan, b) && p <= |b| && forall i :: p <= i < |b| ==> b[i] != '"'
    ensures scan(p, out) == Some(out)
  {
    TextSkipped(scan, b, p, |b|, out);
    assert ScansAt(scan, b, |b|, out);
  }

  /** Nothing follows, so a lost scanner has nothing to miss. */
  lemma EndScanned(scan: Scanner, b: string, lost: bool, c: nat, e: nat, out: Fields)
    requires Scans(scan, b) && Closes(b, e) && Stands(lost, b, c, if lost then e + 1 else e)
    ensures scan(c, out) == Some(out)
  {
    if !lost {
      TailScanned(scan, b, c, out);
    } else if c + 4 < |b| {
      LostStep(scan, b, c, e + 1, out);
      assert IndexFrom(b, '"', e + 1) == |b|;
      TailScanned(scan, b, |b|, out);
    } else {
      assert ScansAt(scan, b, c, out);
    }
  }

  /** The scan goes on at the next member, having lost its place or not. */
  lemma CommaScanned(scan: Scanner, b: string, lost: bool, p: nat, show: Piece -> string, x: Piece, q: nat, out: Fields) returns (c: nat)
    requires Scans(scan, b) && Shows(show) && At(b, p, show(x)) && Printable(x)
    requires q == p + |show(x)| < |b| && b[q] == ','
    ensures 0 <= EndOf(lost, x, q) && scan(EndOf(lost, x, q), out) == scan(c, out) && Stands(Loses(lost, x), b, c, q + 1)
  {
    if Loses(lost, x) {
      LostBehind(b, lost, p, show, x, q);
      c := q - |x.after| - 1;
    } else {
      TextSkipped(scan, b, q, q + 1, out);
      c := q + 1;
    }
  }

  lemma LastScanned(scan: Scanner, b: string, lost: bool, c: nat, p: nat, show: Piece -> string, x: Piece, out: Fields)
    requires Scans(scan, b) && Shows(show) && Stands(lost, b, c, p) && At(b, p, show(x)) && Closes(b, p + |show(x)|)
    requires Printable(x)
    ensures scan(c, out) == Some(if lost then out else Apply(x, out))
  {
    var q := p + |show(x)|;
    PieceScanned(scan, b, lost, c, p, show, x, q, out);
    if Loses(lost, x) {
      LostBehind(b, lost, p, show, x, q);
    }
    EndScanned(scan, b, Loses(lost, x), EndOf(lost, x, q), q, if lost then out else Apply(x, out));
  }

  lemma FirstScanned(scan: Scanner, b: string, lost: bool, c: nat, p: nat, show: Piece -> string, x: Piece, rest: string, out: Fields)
    returns (c': nat)
    requires Scans(scan, b) && Shows(show) && Stands(lost, b, c, p) && At(b, p, show(x) + ("," + rest)) && Printable(x)
    ensures At(b, p + |show(x)| + 1, rest) && Stands(Loses(lost, x), b, c', p + |show(x)| + 1)
    ensures scan(c, out) == scan(c', if lost then out else Apply(x, out))
  {
    var q := p + |show(x)|;
    AtSplit(b, p, show(x), "," + rest);
    AtSplit(b, q, ",", rest);
    AtIndex(b, q, ",", q);
    PieceScanned(scan, b, lost, c, p, show, x, q, out);
    c' := CommaScanned(scan, b, lost, p, show, x, q, if lost then out else Apply(x, out));
  }

  lemma {:induction false} MembersScanned(scan: Scanner, b: string, lost: bool, c: nat, p: nat, show: Piece -> string,
                                          ps: seq<Piece>, out: Fields)
    requires Scans(scan, b) && Shows(show) && Stands(lost, b, c, p) && ps != []
    requires At(b, p, Members(show, ps)) && Closes(b, p + |Members(show, ps)|) && forall x :: x in ps ==> Printable(x)
    ensures scan(c, out) == Some(ApplyAll(lost, ps, out))
    decreases |ps|
  {
    var out' := if lost then out else Apply(ps[0], out);
    if |ps| == 1 {
      assert ps[1..] == [];
      LastScanned(scan, b, lost, c, p, show, ps[0], out);
    } else {
      var c' := FirstScanned(scan, b, lost, c, p, show, ps[0], Members(show, ps[1..]), out);
      MembersScanned(scan, b, Loses(lost, ps[0]), c', p + |show(ps[0])| + 1, show, ps[1..], out');
    }
  }

  lemma ObjectScanned(scan: Scanner, b: string, show: Piece -> string, lead: string, ps: seq<Piece>, trail: string)
    requires Scans(scan, b) && b == lead + "{" + (Members(show, ps) + ("}" + trail))
    requires Shows(show) && Space(lead) && Space(trail) && forall x :: x in ps ==> Printable(x)
    ensures scan(0, NOTHING) == Some(ApplyAll(false, ps, NOTHING))
  {
    var p := |lead| + 1;
    var e := p + |Members(show, ps)|;
    assert b[p..e] == Members(show, ps);
    forall i | 0 <= i < p ensures b[i] != '"' {
      assert b[i] == (lead + "{")[i] && (i < |lead| ==> lead[i] in lead);
    }
    forall i | e <= i < |b| ensures b[i] != '"' {
      assert b[i] == ("}" + trail)[i - e] && (i > e ==> trail[i - e - 1] in trail);
    }
    assert b[e] == ("}" + trail)[0];
    TextSkipped(scan, b, 0, p, NOTHING);
    if ps == [] {
      TailScanned(scan, b, p, NOTHING);
    } else {
      MembersScanned(scan, b, false, p, p, show, ps, NOTHING);
    }
  }

  /** Whatever the order of the members and the whitespace, the scanner takes them one by one. */
  lemma ObjectRecovered(lead: string, ps: seq<Piece>, trail: string)
    requires Space(lead) && Space(trail) && forall x :: x in ps ==> Printable(x)
    ensures Scan(Object(lead, ps, trail), 0, NOTHING) == Some(ApplyAll(false, ps, NOTHING))
  {
    var b := Object(lead, ps, trail);
    var scan := (p: nat, out: Fields) => if p <= |b| then Scan(b, p, out) else None;
    assert forall x :: ShowsAt(PieceText, x);
    assert forall p, out :: ScansAt(scan, b, p, out);
    ObjectScanned(scan, b, PieceText, lead, ps, trail);
  }

  /** As in a JSON object, no name occurs twice. */
  predicate DistinctNames(ps: seq<Piece>) {
    forall i, j :: 0 <= i < j < |ps| ==> NameOf(ps[i].m) != NameOf(ps[j].m)
  }

  /** The scanner comes to the member and knows its name. */
  predicate SeenAt(ps: seq<Piece>, i: nat)
    requires i < |ps|
  {
    !Lost(ps[..i]) && !Ignored(ps[i])
  }

  predicate Sees(ps: seq<Piece>, m: Member) {
    exists i :: 0 <= i < |ps| && ps[i].m == m && SeenAt(ps, i)
  }

  /** A true `force` with no line break between its colon and its value. */
  predicate SeesForce(ps: seq<Piece>) {
    exists i :: 0 <= i < |ps| && ps[i].m == ForceMember(true) && SeenAt(ps, i) && Blanks(ps[i].gap)
  }

  /** `f` holds exactly the values of the members that are seen. */
  ghost predicate Recovers(ps: seq<Piece>, f: Fields) {
    && (forall text :: f.key == Some(text) <==> Sees(ps, KeyMember(text)))
    && (forall text :: f.lockee == Some(text) <==> Sees(ps, LockeeMember(text)))
    && (f.force <==> SeesForce(ps))
  }

  lemma SeenSnoc(ps: seq<Piece>, x: Piece)
    ensures forall i :: 0 <= i < |ps| ==> (ps + [x])[i] == ps[i] && (SeenAt(ps + [x], i) <==> SeenAt(ps, i))
    ensures SeenAt(ps + [x], |ps|) <==> !Lost(ps) && !Ignored(x)
  {
    var qs := ps + [x];
    assert qs[..|ps|] == ps;
    forall i | 0 <= i < |ps| ensures qs[i] == ps[i] && (SeenAt(qs, i) <==> SeenAt(ps, i)) {
      assert qs[..i] == ps[..i];
    }
  }

  lemma SeesSnoc(ps: seq<Piece>, x: Piece, m: Member)
    ensures Sees(ps + [x], m) <==> Sees(ps, m) || (x.m == m && !Lost(ps) && !Ignored(x))
  {
    var qs := ps + [x];
    SeenSnoc(ps, x);
    assert qs[|ps|] == x;
    if Sees(ps, m) {
      var i :| 0 <= i < |ps| && ps[i].m == m && SeenAt(ps, i);
      assert qs[i].m == m && SeenAt(qs, i);
    }
  }

  lemma SeesForceSnoc(ps: seq<Piece>, x: Piece)
    ensures SeesForce(ps + [x]) <==> SeesForce(ps) || (x.m == ForceMember(true) && !Lost(ps) && !Ignored(x) && Blanks(x.gap))
  {
    var qs := ps + [x];
    SeenSnoc(ps, x);
    assert qs[|ps|] == x;
    if SeesForce(ps) {
      var i :| 0 <= i < |ps| && ps[i].m == ForceMember(true) && SeenAt(ps, i) && Blanks(ps[i].gap);
      assert qs[i] == ps[i] && SeenAt(qs, i);
    }
  }

  /** A member whose name has not occurred before adds its value, if it is seen. */
  lemma RecoversSnoc(ps: seq<Piece>, x: Piece, f: Fields)
    requires Recovers(ps, f) && DistinctNames(ps + [x])
    ensures Recovers(ps + [x], if Lost(ps) then f else Apply(x, f))
  {
    forall i | 0 <= i < |ps| ensures NameOf(ps[i].m) != NameOf(x.m) {
      assert (ps + [x])[i] == ps[i] && (ps + [x])[|ps|] == x;
    }
    forall m ensures Sees(ps + [x], m) <==> Sees(ps, m) || (x.m == m && !Lost(ps) && !Ignored(x)) {
      SeesSnoc(ps, x, m);
    }
    SeesForceSnoc(ps, x);
    assert !Ignored(x) ==> x.m.KeyMember? || x.m.LockeeMember? || x.m.ForceMember?;
  }

  lemma {:induction false} RecoversAll(done: seq<Piece>, ps: seq<Piece>, f: Fields)
    requires Recovers(done, f) && DistinctNames(done + ps)
    ensures Recovers(done + ps, ApplyAll(Lost(done), ps, f))
    decreases |ps|
  {
    if ps == [] {
      assert done + ps == done;
    } else {
      var next := done + [ps[0]];
      assert done + ps == next + ps[1..];
      assert next == (done + ps)[..|done| + 1];
      assert next[..|next| - 1] == done;
      RecoversSnoc(done, ps[0], f);
      RecoversAll(next, ps[1..], if Lost(done) then f else Apply(ps[0], f));
    }
  }

  /**
   JSON request round trip, for any members in any order with any whitespace: a body is refused
   exactly if no non-empty key is seen in it, and otherwise every field that is seen comes back as
   printed, except that a true `force` also needs that no line break follows its colon.
   */
  lemma RequestRoundTrip(lead: string, ps: seq<Piece>, trail: string)
    requires Space(lead) && Space(trail) && DistinctNames(ps) && forall x :: x in ps ==> Printable(x)
    ensures var r := ParseBody(Object(lead, ps, trail));
      && (r.None? <==> forall text :: Sees(ps, KeyMember(text)) ==> text == "")
      && (r.Some? ==> Recovers(ps, r.value))
  {
    var f := ApplyAll(false, ps, NOTHING);
    ObjectRecovered(lead, ps, trail);
    assert [] + ps == ps;
    RecoversAll([], ps, NOTHING);
    if f.key.Some? {
      assert Sees(ps, KeyMember(f.key.value));
    }
  }

  /** Every ignored member with another one behind it can be passed over. */
  predicate PassedOver(ps: seq<Piece>) {
    forall i :: 0 <= i < |ps| - 1 ==> !(Ignored(ps[i]) && Divided(ps[i].m))
  }

  /**
   The scanner keeps its place before every member exactly if no ignored member with another one
   behind it has a comma or a closing brace in its string.
   */
  lemma AllSeenIff(ps: seq<Piece>)
    ensures (forall i :: 0 <= i < |ps| ==> !Lost(ps[..i])) <==> PassedOver(ps)
  {
    if PassedOver(ps) {
      forall i | 0 <= i < |ps| ensures !Lost(ps[..i]) {
        NotLost(ps, i);
      }
    } else {
      var i :| 0 <= i < |ps| - 1 && Ignored(ps[i]) && Divided(ps[i].m);
      assert ps[..i + 1][..i] == ps[..i] && ps[..i + 1][i] == ps[i];
      assert Lost(ps[..i + 1]);
    }
  }

  lemma {:induction false} NotLost(ps: seq<Piece>, i: nat)
    requires i < |ps| && PassedOver(ps)
    ensures !Lost(ps[..i])
  {
    if i > 0 {
      NotLost(ps, i - 1);
      assert ps[..i][..i - 1] == ps[..i - 1] && ps[..i][i - 1] == ps[i - 1];
    }
  }

  /** The body of a lock request in the order the members are given. */
  lemma LockBody(lead: string, ps: seq<Piece>, trail: string, key: string, lockee: string)
    requires Space(lead) && Space(trail) && DistinctNames(ps) && forall x :: x in ps ==> Printable(x)
    requires key != "" && Sees(ps, KeyMember(key)) && Sees(ps, LockeeMember(lockee))
    ensures ParseBody(Object(lead, ps, trail)) == Some(Fields(Some(key), Some(lockee), SeesForce(ps)))
  {
    RequestRoundTrip(lead, ps, trail);
  }

  /** The plainest way to print a member. */
  function Bare(m: Member): (x: Piece) {
    Piece("", m, "", "", "")
  }

  lemma BareSeen(key: string, lockee: string, rest: seq<Piece>)
    ensures var ps := [Bare(KeyMember(key)), Bare(LockeeMember(lockee))] + rest;
      Sees(ps, KeyMember(key)) && Sees(ps, LockeeMember(lockee)) && !Lost(ps[..2])
  {
    var k, l := Bare(KeyMember(key)), Bare(LockeeMember(lockee));
    var ps := [k, l] + rest;
    assert ps[0] == k && ps[1] == l && ps[..0] == [] && ps[..1] == [k] && ps[..2] == [k, l];
    assert [k][..0] == [] && [k, l][..1] == [k];
    assert SeenAt(ps, 0) && SeenAt(ps, 1);
  }

  /** Valid JSON whose forced takeover the scanner does not see. */
  lemma ForceBehindNewlineIsLost(key: string, lockee: string, gap: string)
    requires key != "" && '"' !in key && '"' !in lockee && Space(gap) && !Blanks(gap)
    ensures ParseBody(Object("", [Bare(KeyMember(key)), Bare(LockeeMember(lockee)), Piece("", ForceMember(true), "", gap, "")], ""))
         == Some(Fields(Some(key), Some(lockee), false))
  {
    var force := Piece("", ForceMember(true), "", gap, "");
    var ps := [Bare(KeyMember(key)), Bare(LockeeMember(lockee)), force];
    BareSeen(key, lockee, [force]);
    assert ps == [Bare(KeyMember(key)), Bare(LockeeMember(lockee))] + [force];
    LockBody("", ps, "", key, lockee);
  }

  /** Valid JSON that is refused: the key stands behind a remark with a comma in it. */
  lemma RemarkHidesKey(key: string, lockee: string)
    requires key != "" && '"' !in key && '"' !in lockee
    ensures ParseBody(Object("", [Bare(OtherText("note", "a,b")), Bare(KeyMember(key)), Bare(LockeeMember(lockee))], "")).None?
  {
    var note := Bare(OtherText("note", "a,b"));
    var ps := [note, Bare(KeyMember(key)), Bare(LockeeMember(lockee))];
    assert "a,b"[1] == ',';
    assert ps[..1] == [note] && [note][..0] == [] && Lost(ps[..1]);
    assert forall text :: !Sees(ps, KeyMember(text));
    RequestRoundTrip("", ps, "");
  }

  /** Valid JSON that is refused: there is whitespace between the name of the key and its colon. */
  lemma SpacedKeyIsRefused(key: string, lockee: string, colon: string)
    requires '"' !in key && '"' !in lockee && Space(colon) && colon != ""
    ensures ParseBody(Object("", [Piece("", KeyMember(key), colon, "", ""), Bare(LockeeMember(lockee))], "")).None?
  {
    var ps := [Piece("", KeyMember(key), colon, "", ""), Bare(LockeeMember(lockee))];
    assert forall text :: !Sees(ps, KeyMember(text));
    RequestRoundTrip("", ps, "");
  }
}
