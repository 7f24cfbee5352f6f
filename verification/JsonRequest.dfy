/**
 The C server's JSON scanner: it walks the body looking for quoted member names and takes
 values up to the next quote, without unescaping.
 */
module JsonRequest {
  import opened ByteScan
  import opened Wrappers

  /** The fields found so far; a null pointer in the source is `None`. */
  datatype Fields = Fields(key: Option<string>, lockee: Option<string>, force: bool)

  const NOTHING: Fields := Fields(None, None, false)

  predicate StartsAt(b: string, p: nat, word: string) {
    p + |word| <= |b| && b[p..p + |word|] == word
  }

  predicate EndsValue(c: char) {
    c == ',' || c == '}'
  }

  /** Skips to the next comma or closing brace. */
  function SkipValue(b: string, i: nat): (r: nat)
    requires i <= |b|
    ensures i <= r <= |b|
    decreases |b| - i
  {
    if i == |b| || EndsValue(b[i]) then i else SkipValue(b, i + 1)
  }

  predicate IsBlank(c: char) {
    c == ' ' || c == '\t'
  }

  function SkipBlanks(b: string, i: nat): (r: nat)
    requires i <= |b|
    ensures i <= r <= |b|
    decreases |b| - i
  {
    if i == |b| || !IsBlank(b[i]) then i else SkipBlanks(b, i + 1)
  }

  function Past(b: string, i: nat): (r: nat)
    requires i <= |b|
    ensures i <= r <= |b|
  {
    if i < |b| then i + 1 else i
  }

  /** A quoted value at or after `i`: its text and the position after it; `None` if no quote opens one. */
  function QuotedValue(b: string, i: nat): (r: Option<(string, nat)>)
    requires i <= |b|
    ensures r.Some? ==> i < r.value.1 <= |b|
  {
    var open := IndexFrom(b, '"', i);
    if open == |b| then None
    else
      var close := IndexFrom(b, '"', open + 1);
      Some((b[open + 1..close], Past(b, close)))
  }

  /** The scan from position `p`; `None` is the early failure on a missing opening quote. */
  function Scan(b: string, p: nat, out: Fields): (r: Option<Fields>)
    requires p <= |b|
    decreases |b| - p
  {
    if p + 4 >= |b| then Some(out)
    else if b[p] != '"' then Scan(b, p + 1, out)
    else if StartsAt(b, p + 1, "key\":") then
      match QuotedValue(b, p + 6)
      case None => None
      case Some(v) => Scan(b, v.1, out.(key := Some(v.0)))
    else if StartsAt(b, p + 1, "lockee\":") then
      match QuotedValue(b, p + 9)
      case None => None
      case Some(v) => Scan(b, v.1, out.(lockee := Some(v.0)))
    else if StartsAt(b, p + 1, "force\":") then
      var v := SkipBlanks(b, p + 8);
      Scan(b, SkipValue(b, v), out.(force := v < |b| && b[v] == 't'))
    else
      Scan(b, SkipValue(b, Past(b, IndexFrom(b, '"', p + 1))), out)
  }

  /** `parse_json_body`: succeeds only with a non-empty key. */
  function ParseBody(b: string): (r: Option<Fields>) {
    var r := Scan(b, 0, NOTHING);
    if r.Some? && r.value.key.Some? && r.value.key.value != "" then r else None
  }

  method SkipValueLoop(b: string, i: nat) returns (r: nat)
    requires i <= |b|
    ensures r == SkipValue(b, i)
  {
    r := i;
    while r < |b| && b[r] != ',' && b[r] != '}'
      invariant i <= r <= |b|
      invariant SkipValue(b, i) == SkipValue(b, r)
    {
      r := r + 1;
    }
  }

  method SkipBlanksLoop(b: string, i: nat) returns (r: nat)
    requires i <= |b|
    ensures r == SkipBlanks(b, i)
  {
    r := i;
    while r < |b| && (b[r] == ' ' || b[r] == '\t')
      invariant i <= r <= |b|
      invariant SkipBlanks(b, i) == SkipBlanks(b, r)
    {
      r := r + 1;
    }
  }

  method TakeQuoted(b: string, i: nat) returns (r: Option<(string, nat)>)
    requires i <= |b|
    ensures r == QuotedValue(b, i)
  {
    var open := FindChar(b, '"', i);
    if open >= |b| {
      return None;
    }
    var close := FindChar(b, '"', open + 1);
    r := Some((b[open + 1..close], Past(b, close)));
  }

  /** The scanning loop of `parse_json_body`. */
  method ParseJsonBody(b: string) returns (r: Option<Fields>)
    ensures r == ParseBody(b)
  {
    var out := NOTHING;
    var p := 0;
    while p < |b| - 4
      invariant 0 <= p <= |b|
      invariant Scan(b, 0, NOTHING) == Scan(b, p, out)
      decreases |b| - p
    {
      if b[p] != '"' {
        p := p + 1;
      } else if StartsAt(b, p + 1, "key\":") {
        var v := TakeQuoted(b, p + 6);
        if v.None? {
          return None;
        }
        out, p := out.(key := Some(v.value.0)), v.value.1;
      } else if StartsAt(b, p + 1, "lockee\":") {
        var v := TakeQuoted(b, p + 9);
        if v.None? {
          return None;
        }
        out, p := out.(lockee := Some(v.value.0)), v.value.1;
      } else if StartsAt(b, p + 1, "force\":") {
        var v := SkipBlanksLoop(b, p + 8);
        out := out.(force := v < |b| && b[v] == 't');
        p := SkipValueLoop(b, v);
      } else {
        var q := FindChar(b, '"', p + 1);
        p := SkipValueLoop(b, Past(b, q));
      }
    }
    r := if out.key.Some? && out.key.value != "" then Some(out) else None;
  }
}
