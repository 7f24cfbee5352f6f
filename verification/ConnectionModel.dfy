/**
 The read loop of one connection: bytes arrive in chunks, complete requests are taken off
 the front of a 4096-byte buffer, and a buffer that fills without yielding one closes it.

 The argument needs only that the parser's positive answers survive extension of its input,
 so everything is stated for an arbitrary stable parser and then applied to the real one.
 */
module ConnectionModel {
  import opened HttpParse

  const READ_BUF_SIZE: nat := 4096

  type Parser = string -> Parsed

  /** A request found in `s` is non-empty and lies within it. */
  ghost predicate InBounds(parse: Parser, s: string) {
    parse(s).Complete? ==> 0 < parse(s).total <= |s|
  }

  /** A request found in `s` is found again when `t` follows. */
  ghost predicate Persists(parse: Parser, s: string, t: string) {
    parse(s).Complete? ==> parse(s + t) == parse(s)
  }

  ghost predicate Stable(parse: Parser) {
    (forall s :: InBounds(parse, s)) && (forall s, t :: Persists(parse, s, t))
  }

  lemma ParseIsStable()
    ensures Stable(Parse)
  {
    forall s, t ensures Persists(Parse, s, t) {
      if Parse(s).Complete? {
        ParseExtends(s, t);
      }
    }
  }

  /** What a connection has done so far: requests handed to the handlers, and unread bytes. */
  datatype Conn = Conn(handled: seq<Request>, buf: string, open: bool)

  /** All the requests at the front of `s`, and what is left. */
  ghost function DrainAll(parse: Parser, s: string): (r: (seq<Request>, string))
    requires Stable(parse)
    ensures |r.1| <= |s|
    ensures !parse(r.1).Complete?
    decreases |s|
  {
    assert InBounds(parse, s);
    if parse(s).Complete? then
      var r := DrainAll(parse, s[parse(s).total..]);
      ([parse(s).req] + r.0, r.1)
    else ([], s)
  }

  /** One `recv` followed by the parse loop and the full-buffer check. */
  ghost function Feed(parse: Parser, c: Conn, chunk: string): (r: Conn)
    requires Stable(parse)
  {
    var r := DrainAll(parse, c.buf + chunk);
    Conn(c.handled + r.0, r.1, |r.1| < READ_BUF_SIZE)
  }

  ghost function Run(parse: Parser, c: Conn, chunks: seq<string>): (r: Conn)
    requires Stable(parse)
    decreases |chunks|
  {
    if chunks == [] then c else Run(parse, Feed(parse, c, chunks[0]), chunks[1..])
  }

  /** Every chunk is non-empty, arrives on an open connection and fits the free space. */
  ghost predicate Fits(parse: Parser, c: Conn, chunks: seq<string>)
    requires Stable(parse)
    decreases |chunks|
  {
    chunks == [] || (c.open && 0 < |chunks[0]| <= READ_BUF_SIZE - |c.buf|
                     && Fits(parse, Feed(parse, c, chunks[0]), chunks[1..]))
  }

  function Flat(chunks: seq<string>): (s: string) {
    if chunks == [] then "" else chunks[0] + Flat(chunks[1..])
  }

  /** `chunks` is one way `recv` may hand over `stream`: all of it, or up to the point of closing. */
  ghost predicate Delivers(parse: Parser, c: Conn, stream: string, chunks: seq<string>)
    requires Stable(parse)
  {
    Fits(parse, c, chunks) && Flat(chunks) <= stream && (Flat(chunks) == stream || !Run(parse, c, chunks).open)
  }

  /** The state between two reads: nothing complete is left in the buffer. */
  ghost predicate Settled(parse: Parser, c: Conn) {
    !parse(c.buf).Complete? && (c.open <==> |c.buf| < READ_BUF_SIZE)
  }

  /** Draining a prefix first and the rest later makes no difference. */
  lemma {:induction false} DrainCompose(parse: Parser, s: string, t: string)
    requires Stable(parse)
    ensures var r := DrainAll(parse, s); var q := DrainAll(parse, r.1 + t);
      DrainAll(parse, s + t) == (r.0 + q.0, q.1)
    decreases |s|
  {
    assert InBounds(parse, s) && Persists(parse, s, t);
    if parse(s).Complete? {
      var n := parse(s).total;
      assert (s + t)[n..] == s[n..] + t;
      DrainCompose(parse, s[n..], t);
      var r := DrainAll(parse, s[n..]);
      var q := DrainAll(parse, r.1 + t);
      assert [parse(s).req] + (r.0 + q.0) == [parse(s).req] + r.0 + q.0;
    } else {
      assert [] + DrainAll(parse, s + t).0 == DrainAll(parse, s + t).0;
    }
  }

  /** Two reads act like one read of both chunks. */
  lemma FeedCompose(parse: Parser, c: Conn, x: string, y: string)
    requires Stable(parse)
    ensures Feed(parse, Feed(parse, c, x), y) == Feed(parse, c, x + y)
  {
    Regrouped(c.buf, x, y);
    DrainCompose(parse, c.buf + x, y);
    var r := DrainAll(parse, c.buf + x);
    var q := DrainAll(parse, r.1 + y);
    Regrouped(c.handled, r.0, q.0);
  }

  lemma Regrouped<T>(a: seq<T>, b: seq<T>, c: seq<T>)
    ensures a + b + c == a + (b + c)
  {
  }

  /** A run's outcome depends only on the bytes it has read. */
  lemma {:induction false} RunIsFeed(parse: Parser, c: Conn, chunks: seq<string>)
    requires Stable(parse) && Settled(parse, c) && Fits(parse, c, chunks)
    ensures Run(parse, c, chunks) == Feed(parse, c, Flat(chunks))
    decreases |chunks|
  {
    if chunks == [] {
      assert c.buf + "" == c.buf;
    } else {
      RunIsFeed(parse, Feed(parse, c, chunks[0]), chunks[1..]);
      FeedCompose(parse, c, chunks[0], Flat(chunks[1..]));
    }
  }

  /** No run reads past a prefix that fills the buffer: it would have to end a chunk there and close. */
  lemma {:induction false} NoReadPastFull(parse: Parser, c: Conn, chunks: seq<string>, p: string)
    requires Stable(parse) && Settled(parse, c) && Fits(parse, c, chunks)
    requires p <= Flat(chunks) && c.open && !Feed(parse, c, p).open
    ensures p == Flat(chunks)
    decreases |chunks|
  {
    if chunks != [] && |p| >= |chunks[0]| {
      var x := chunks[0];
      var c', p' := Feed(parse, c, x), p[|x|..];
      assert p == x + p' && p' <= Flat(chunks[1..]);
      FeedCompose(parse, c, x, p');
      if c'.open {
        NoReadPastFull(parse, c', chunks[1..], p');
      }
    }
  }

  lemma ShorterRunAgrees(parse: Parser, c: Conn, stream: string, xs: seq<string>, ys: seq<string>)
    requires Stable(parse) && Settled(parse, c) && c.open
    requires Delivers(parse, c, stream, xs) && Delivers(parse, c, stream, ys) && |Flat(xs)| <= |Flat(ys)|
    ensures Flat(xs) == Flat(ys)
  {
    assert Flat(xs) <= Flat(ys);
    if Flat(xs) != stream {
      RunIsFeed(parse, c, xs);
      NoReadPastFull(parse, c, ys, Flat(xs));
    }
  }

  /**
   Chunk independence: however `recv` splits a stream, the connection hands over the same
   requests, keeps the same unread bytes, and closes on a full buffer in the same cases.
   */
  lemma StableParserChunks(parse: Parser, c: Conn, stream: string, xs: seq<string>, ys: seq<string>)
    requires Stable(parse) && Settled(parse, c) && c.open
    requires Delivers(parse, c, stream, xs) && Delivers(parse, c, stream, ys)
    ensures Run(parse, c, xs) == Run(parse, c, ys)
  {
    RunIsFeed(parse, c, xs);
    RunIsFeed(parse, c, ys);
    if |Flat(xs)| <= |Flat(ys)| {
      ShorterRunAgrees(parse, c, stream, xs, ys);
    } else {
      ShorterRunAgrees(parse, c, stream, ys, xs);
    }
  }

  /** Chunk independence of the server's own parser, from any settled connection. */
  lemma ChunkIndependence(c: Conn, stream: string, xs: seq<string>, ys: seq<string>)
    ensures Stable(Parse)
    ensures Settled(Parse, c) && c.open && Delivers(Parse, c, stream, xs) && Delivers(Parse, c, stream, ys)
            ==> Run(Parse, c, xs) == Run(Parse, c, ys)
  {
    ParseIsStable();
    if Settled(Parse, c) && c.open && Delivers(Parse, c, stream, xs) && Delivers(Parse, c, stream, ys) {
      StableParserChunks(Parse, c, stream, xs, ys);
    }
  }

  /** Bytes that are one request to the parser, whatever follows them. */
  datatype Frame = Frame(text: string, req: Request)

  ghost predicate FramesAt(parse: Parser, f: Frame, rest: string) {
    parse(f.text + rest) == Complete(f.req, |f.text|)
  }

  ghost predicate Frames(parse: Parser, f: Frame) {
    forall rest :: FramesAt(parse, f, rest)
  }

  function Texts(fs: seq<Frame>): (s: string) {
    if fs == [] then "" else fs[0].text + Texts(fs[1..])
  }

  function Reqs(fs: seq<Frame>): (r: seq<Request>) {
    if fs == [] then [] else [fs[0].req] + Reqs(fs[1..])
  }

  lemma FrameDrained(parse: Parser, f: Frame, rest: string)
    requires Stable(parse) && Frames(parse, f)
    ensures var r := DrainAll(parse, rest); DrainAll(parse, f.text + rest) == ([f.req] + r.0, r.1)
  {
    assert FramesAt(parse, f, rest);
    assert (f.text + rest)[|f.text|..] == rest;
  }

  /** Pipelined requests come out one by one, in order, and nothing is left over. */
  lemma {:induction false} FramesDrained(parse: Parser, fs: seq<Frame>)
    requires Stable(parse) && !parse("").Complete? && forall f :: f in fs ==> Frames(parse, f)
    ensures DrainAll(parse, Texts(fs)) == (Reqs(fs), "")
  {
    if fs != [] {
      FrameDrained(parse, fs[0], Texts(fs[1..]));
      FramesDrained(parse, fs[1..]);
    }
  }

  /** Each request on its own fits the read buffer. */
  predicate AllFit(fs: seq<Frame>) {
    forall f :: f in fs ==> |f.text| <= READ_BUF_SIZE
  }

  /** However far such a stream has been read, less than a buffer is left undrained. */
  lemma {:induction false} PrefixDrained(parse: Parser, fs: seq<Frame>, p: string)
    requires Stable(parse) && (forall f :: f in fs ==> Frames(parse, f)) && AllFit(fs) && p <= Texts(fs)
    ensures |DrainAll(parse, p).1| < READ_BUF_SIZE
    decreases |fs|
  {
    if fs != [] && |p| >= |fs[0].text| {
      var t, p' := fs[0].text, p[|fs[0].text|..];
      assert p == t + p' && p' <= Texts(fs[1..]);
      FrameDrained(parse, fs[0], p');
      PrefixDrained(parse, fs[1..], p');
    }
  }

  /** The part of a stream with an over-long request that fills the buffer. */
  function StuckPrefix(fs: seq<Frame>): (p: string)
    requires !AllFit(fs)
  {
    if |fs[0].text| > READ_BUF_SIZE then fs[0].text[..READ_BUF_SIZE] else fs[0].text + StuckPrefix(fs[1..])
  }

  /** A request cut short is not recognised. */
  lemma CutFrameWaits(parse: Parser, f: Frame, p: string)
    requires Stable(parse) && Frames(parse, f) && p <= f.text && |p| < |f.text|
    ensures !parse(p).Complete?
  {
    assert FramesAt(parse, f, "") && f.text + "" == f.text;
    assert f.text == p + f.text[|p|..];
    assert InBounds(parse, p) && Persists(parse, p, f.text[|p|..]);
  }

  lemma {:induction false} StuckFills(parse: Parser, fs: seq<Frame>)
    requires Stable(parse) && (forall f :: f in fs ==> Frames(parse, f)) && !AllFit(fs)
    ensures StuckPrefix(fs) <= Texts(fs) && |StuckPrefix(fs)| < |Texts(fs)|
    ensures |DrainAll(parse, StuckPrefix(fs)).1| == READ_BUF_SIZE
  {
    if |fs[0].text| > READ_BUF_SIZE {
      CutFrameWaits(parse, fs[0], StuckPrefix(fs));
    } else {
      StuckFills(parse, fs[1..]);
      FrameDrained(parse, fs[0], StuckPrefix(fs[1..]));
    }
  }

  lemma StuckCloses(parse: Parser, fs: seq<Frame>, chunks: seq<string>)
    requires Stable(parse) && !parse("").Complete? && (forall f :: f in fs ==> Frames(parse, f)) && !AllFit(fs)
    requires Fits(parse, Conn([], "", true), chunks)
    ensures Flat(chunks) != Texts(fs)
  {
    StuckFills(parse, fs);
    var p := StuckPrefix(fs);
    assert "" + p == p;
    if Flat(chunks) == Texts(fs) {
      NoReadPastFull(parse, Conn([], "", true), chunks, p);
    }
  }

  /**
   A client that pipelines requests: however they are chunked, the connection stays open exactly
   if each request on its own fits the buffer, and then all are handed over, in order.
   */
  lemma DeliveredIffEachFits(parse: Parser, fs: seq<Frame>, chunks: seq<string>)
    requires Stable(parse) && !parse("").Complete? && forall f :: f in fs ==> Frames(parse, f)
    requires Delivers(parse, Conn([], "", true), Texts(fs), chunks)
    ensures var r := Run(parse, Conn([], "", true), chunks);
      (r.open <==> AllFit(fs)) && (r.open ==> r == Conn(Reqs(fs), "", true))
  {
    var c, p := Conn([], "", true), Flat(chunks);
    RunIsFeed(parse, c, chunks);
    assert "" + p == p;
    if AllFit(fs) {
      PrefixDrained(parse, fs, p);
      FramesDrained(parse, fs);
      assert [] + Reqs(fs) == Reqs(fs);
    } else {
      StuckCloses(parse, fs, chunks);
    }
  }
}
