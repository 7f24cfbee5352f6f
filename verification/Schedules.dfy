/**
 Turns of many connections, scheduled in any order, and what each connection makes of its own: a
 function of the bytes its client sends and of its own turns, whatever the others do.
 */
module Schedules {
  import opened ConnectionModel
  import opened Connections
  import opened HttpParse

  /** What a worker thread does next for some connection: a `recv` of up to `size` bytes, or one request. */
  datatype Turn = Recv(conn: nat, size: nat) | Answer(conn: nat)

  /** The turns of connection `i`. */
  function Mine(turns: seq<Turn>, i: nat): (r: seq<Turn>)
    ensures forall t :: t in r ==> t.conn == i
  {
    if turns == [] then []
    else Mine(turns[..|turns| - 1], i) + (if turns[|turns| - 1].conn == i then [turns[|turns| - 1]] else [])
  }

  lemma MineSnoc(turns: seq<Turn>, turn: Turn, i: nat)
    ensures Mine(turns + [turn], i) == if turn.conn == i then Mine(turns, i) + [turn] else Mine(turns, i)
  {
    assert (turns + [turn])[..|turns|] == turns;
  }

  /** How far a connection has come: bytes received, requests answered, bytes still in the buffer. */
  datatype View = View(pos: nat, answered: seq<Request>, unread: string)

  const NEW: View := View(0, [], "")

  predicate Sane(stream: string, v: View) {
    v.pos <= |stream| && |v.unread| <= READ_BUF_SIZE
  }

  /** `recv` takes what is asked for, has arrived and fits. */
  function Taken(stream: string, v: View, size: nat): (n: nat)
    requires Sane(stream, v)
    ensures v.pos + n <= |stream| && |v.unread| + n <= READ_BUF_SIZE && n <= size
    ensures n == 0 <==> size == 0 || v.pos == |stream| || |v.unread| == READ_BUF_SIZE
  {
    var space, rest := READ_BUF_SIZE - |v.unread|, |stream| - v.pos;
    if size <= space && size <= rest then size else if space <= rest then space else rest
  }

  /** One turn of a connection. */
  ghost function NextView(parse: Parser, stream: string, v: View, turn: Turn): (v': View)
    requires Stable(parse) && Sane(stream, v)
    ensures Sane(stream, v')
  {
    match turn
    case Recv(_, size) =>
      var n := Taken(stream, v, size);
      View(v.pos + n, v.answered, v.unread + stream[v.pos..v.pos + n])
    case Answer(_) =>
      assert InBounds(parse, v.unread);
      var r := parse(v.unread);
      if r.Complete? then View(v.pos, v.answered + [r.req], v.unread[r.total..]) else v
  }

  /** Where its own turns bring a connection whose client sends `stream`. */
  ghost function Seen(parse: Parser, stream: string, mine: seq<Turn>): (v: View)
    requires Stable(parse)
    ensures Sane(stream, v)
  {
    if mine == [] then NEW
    else NextView(parse, stream, Seen(parse, stream, mine[..|mine| - 1]), mine[|mine| - 1])
  }

  lemma SeenSnoc(parse: Parser, stream: string, mine: seq<Turn>, turn: Turn)
    requires Stable(parse)
    ensures Seen(parse, stream, mine + [turn]) == NextView(parse, stream, Seen(parse, stream, mine), turn)
  {
    assert (mine + [turn])[..|mine|] == mine;
  }

  /** More bytes behind what is to be drained are more bytes to drain. */
  lemma DrainingMore(parse: Parser, start: string, reqs: seq<Request>, unread: string, more: string)
    requires Stable(parse) && Draining(parse, start, reqs, unread)
    ensures Draining(parse, start + more, reqs, unread + more)
  {
    DrainCompose(parse, start, more);
    DrainCompose(parse, unread, more);
    var r := DrainAll(parse, unread);
    var q := DrainAll(parse, r.1 + more);
    assert reqs + r.0 + q.0 == reqs + (r.0 + q.0);
  }

  /** Answered and unread together are always what draining the bytes received gives. */
  lemma {:induction false} SeenDrains(parse: Parser, stream: string, mine: seq<Turn>)
    requires Stable(parse)
    ensures var v := Seen(parse, stream, mine); Draining(parse, stream[..v.pos], v.answered, v.unread)
  {
    if mine == [] {
      DrainingStart(parse, "");
      assert stream[..0] == "";
    } else {
      var before := mine[..|mine| - 1];
      SeenDrains(parse, stream, before);
      NextDrains(parse, stream, Seen(parse, stream, before), mine[|mine| - 1]);
    }
  }

  lemma NextDrains(parse: Parser, stream: string, v: View, turn: Turn)
    requires Stable(parse) && Sane(stream, v) && Draining(parse, stream[..v.pos], v.answered, v.unread)
    ensures var v' := NextView(parse, stream, v, turn); Draining(parse, stream[..v'.pos], v'.answered, v'.unread)
  {
    if turn.Recv? {
      var n := Taken(stream, v, turn.size);
      DrainingMore(parse, stream[..v.pos], v.answered, v.unread, stream[v.pos..v.pos + n]);
      assert stream[..v.pos] + stream[v.pos..v.pos + n] == stream[..v.pos + n];
    } else if parse(v.unread).Complete? {
      DrainingStep(parse, stream[..v.pos], v.answered, v.unread);
    }
  }

  /** Of a client's requests the first `k` have been answered, and each of these fits the buffer. */
  ghost predicate AtFrame(fs: seq<Frame>, v: View, k: nat) {
    && k <= |fs| && v.answered == Reqs(fs[..k]) && v.pos <= |Texts(fs)|
    && Texts(fs)[..v.pos] == Texts(fs[..k]) + v.unread
    && (forall j :: 0 <= j < k ==> |fs[j].text| <= READ_BUF_SIZE)
  }

  lemma {:induction false} TextsSplit(fs: seq<Frame>, k: nat)
    requires k <= |fs|
    ensures Texts(fs) == Texts(fs[..k]) + Texts(fs[k..])
  {
    if k == 0 {
      assert fs[..0] == [] && fs[0..] == fs;
    } else {
      TextsSplit(fs[1..], k - 1);
      assert fs[..k][1..] == fs[1..][..k - 1] && fs[1..][k - 1..] == fs[k..] && fs[..k][0] == fs[0];
      var a, b, c := fs[0].text, Texts(fs[1..][..k - 1]), Texts(fs[k..]);
      assert a + (b + c) == a + b + c;
    }
  }

  lemma {:induction false} ReqsSplit(fs: seq<Frame>, k: nat)
    requires k <= |fs|
    ensures Reqs(fs) == Reqs(fs[..k]) + Reqs(fs[k..])
  {
    if k == 0 {
      assert fs[..0] == [] && fs[0..] == fs;
    } else {
      ReqsSplit(fs[1..], k - 1);
      assert fs[..k][1..] == fs[1..][..k - 1] && fs[1..][k - 1..] == fs[k..] && fs[..k][0] == fs[0];
      var a, b, c := [fs[0].req], Reqs(fs[1..][..k - 1]), Reqs(fs[k..]);
      assert a + (b + c) == a + b + c;
    }
  }

  lemma OneMoreFrame(fs: seq<Frame>, k: nat)
    requires k < |fs|
    ensures Texts(fs[..k + 1]) == Texts(fs[..k]) + fs[k].text && Reqs(fs[..k + 1]) == Reqs(fs[..k]) + [fs[k].req]
  {
    TextsSplit(fs[..k + 1], k);
    ReqsSplit(fs[..k + 1], k);
    assert fs[..k + 1][..k] == fs[..k] && fs[..k + 1][k..] == [fs[k]];
    assert [fs[k]][1..] == [] && fs[k].text + "" == fs[k].text;
  }

  /** What is unread is the beginning of the requests still to be answered. */
  lemma UnreadIsPrefix(fs: seq<Frame>, v: View, k: nat)
    requires AtFrame(fs, v, k)
    ensures v.unread <= Texts(fs[k..]) && (k == |fs| ==> v.unread == "")
  {
    assert k == |fs| ==> fs[k..] == [];
    TextsSplit(fs, k);
    var a, b := Texts(fs[..k]), Texts(fs[k..]);
    assert (a + b)[..v.pos] == a + v.unread;
    assert v.pos == |a| + |v.unread|;
    assert b[..|v.unread|] == (a + b)[|a|..v.pos];
    assert v.unread == (a + v.unread)[|a|..];
  }

  lemma PrefixSplits(p: string, s: string, t: string)
    requires p <= s + t && |s| <= |p|
    ensures s <= p && p == s + p[|s|..]
  {
    assert p[..|s|] == (s + t)[..|s|] == s;
  }

  /** The parser finds the next request exactly if all of it is there. */
  lemma NextFound(parse: Parser, fs: seq<Frame>, v: View, k: nat)
    requires Stable(parse) && !parse("").Complete? && (forall f :: f in fs ==> Frames(parse, f)) && AtFrame(fs, v, k)
    ensures parse(v.unread).Complete? <==> k < |fs| && |fs[k].text| <= |v.unread|
    ensures parse(v.unread).Complete? ==> parse(v.unread) == Complete(fs[k].req, |fs[k].text|) && fs[k].text <= v.unread
  {
    UnreadIsPrefix(fs, v, k);
    if k < |fs| {
      var f := fs[k];
      assert Texts(fs[k..]) == f.text + Texts(fs[k..][1..]);
      if |f.text| <= |v.unread| {
        PrefixSplits(v.unread, f.text, Texts(fs[k..][1..]));
        assert Frames(parse, f);
        assert FramesAt(parse, f, v.unread[|f.text|..]);
      } else {
        CutFrameWaits(parse, f, v.unread);
      }
    }
  }

  lemma RecvKeepsFrame(parse: Parser, fs: seq<Frame>, v: View, turn: Turn, k: nat)
    requires Stable(parse) && AtFrame(fs, v, k) && Sane(Texts(fs), v) && turn.Recv?
    ensures AtFrame(fs, NextView(parse, Texts(fs), v, turn), k)
  {
    var s, n := Texts(fs), Taken(Texts(fs), v, turn.size);
    assert s[..v.pos + n] == s[..v.pos] + s[v.pos..v.pos + n];
    assert Texts(fs[..k]) + v.unread + s[v.pos..v.pos + n] == Texts(fs[..k]) + (v.unread + s[v.pos..v.pos + n]);
  }

  lemma AnswerMovesOn(parse: Parser, fs: seq<Frame>, v: View, turn: Turn, k: nat)
    requires Stable(parse) && AtFrame(fs, v, k) && Sane(Texts(fs), v) && turn.Answer?
    requires k < |fs| && parse(v.unread) == Complete(fs[k].req, |fs[k].text|) && fs[k].text <= v.unread
    ensures AtFrame(fs, NextView(parse, Texts(fs), v, turn), k + 1)
  {
    var t, rest := fs[k].text, v.unread[|fs[k].text|..];
    OneMoreFrame(fs, k);
    assert v.unread == t + rest;
    assert Texts(fs[..k]) + (t + rest) == Texts(fs[..k]) + t + rest;
  }

  /** The number of requests a connection has answered after its turns. */
  lemma {:induction false} FrameReached(parse: Parser, fs: seq<Frame>, mine: seq<Turn>) returns (k: nat)
    requires Stable(parse) && !parse("").Complete? && forall f :: f in fs ==> Frames(parse, f)
    ensures AtFrame(fs, Seen(parse, Texts(fs), mine), k)
  {
    if mine == [] {
      k := 0;
      assert fs[..0] == [] && Texts(fs)[..0] == "";
    } else {
      var n := |mine| - 1;
      k := FrameReached(parse, fs, mine[..n]);
      var v := Seen(parse, Texts(fs), mine[..n]);
      if mine[n].Recv? {
        RecvKeepsFrame(parse, fs, v, mine[n], k);
      } else {
        NextFound(parse, fs, v, k);
        if parse(v.unread).Complete? {
          AnswerMovesOn(parse, fs, v, mine[n], k);
          k := k + 1;
        }
      }
    }
  }

  lemma {:induction false} ReqsSize(fs: seq<Frame>)
    ensures |Reqs(fs)| == |fs|
  {
    if fs != [] {
      ReqsSize(fs[1..]);
    }
  }

  /** A `recv` that asks for something, followed by an attempt to answer. */
  predicate IsRound(t: Turn, u: Turn) {
    t.Recv? && t.size > 0 && u.Answer?
  }

  /** How many such rounds a connection's own turns contain. */
  function Rounds(mine: seq<Turn>): (n: nat) {
    if |mine| < 2 then 0
    else Rounds(mine[..|mine| - 1]) + (if IsRound(mine[|mine| - 2], mine[|mine| - 1]) then 1 else 0)
  }

  /** What is left to do for the client: bytes to receive and requests to answer. */
  function Todo(fs: seq<Frame>, v: View): (n: int) {
    |Texts(fs)| - v.pos + |fs| - |v.answered|
  }

  /** With nothing to receive, or no room for it, a request that fits is complete. */
  lemma BlockedIsComplete(parse: Parser, fs: seq<Frame>, v: View, k: nat)
    requires Stable(parse) && !parse("").Complete? && (forall f :: f in fs ==> Frames(parse, f)) && AtFrame(fs, v, k)
    requires AllFit(fs) && Todo(fs, v) > 0 && (v.pos == |Texts(fs)| || |v.unread| == READ_BUF_SIZE)
    ensures k < |fs| && parse(v.unread) == Complete(fs[k].req, |fs[k].text|) && fs[k].text <= v.unread
  {
    UnreadIsPrefix(fs, v, k);
    NextFound(parse, fs, v, k);
    TextsSplit(fs, k);
    ReqsSize(fs[..k]);
    assert k < |fs|;
    assert fs[k] in fs;
    assert Texts(fs[k..]) == fs[k].text + Texts(fs[k..][1..]);
    if v.pos == |Texts(fs)| {
      assert Texts(fs)[..v.pos] == Texts(fs);
    }
  }

  /** A turn never adds to what is left to do. */
  lemma TurnKeepsTodo(parse: Parser, fs: seq<Frame>, v: View, turn: Turn)
    requires Stable(parse) && Sane(Texts(fs), v)
    ensures Todo(fs, NextView(parse, Texts(fs), v, turn)) <= Todo(fs, v)
  {
  }

  /** A round gets something done as long as there is something to do. */
  lemma RoundProgresses(parse: Parser, fs: seq<Frame>, v: View, t: Turn, u: Turn, k: nat)
    requires Stable(parse) && !parse("").Complete? && (forall f :: f in fs ==> Frames(parse, f)) && AllFit(fs)
    requires AtFrame(fs, v, k) && Sane(Texts(fs), v) && IsRound(t, u) && Todo(fs, v) > 0
    ensures var s := Texts(fs); Todo(fs, NextView(parse, s, NextView(parse, s, v, t), u)) < Todo(fs, v)
  {
    var v' := NextView(parse, Texts(fs), v, t);
    TurnKeepsTodo(parse, fs, v', u);
    if Taken(Texts(fs), v, t.size) == 0 {
      assert v.unread + "" == v.unread;
      BlockedIsComplete(parse, fs, v, k);
    }
  }

  /** The work left shrinks with every round of the connection's own turns. */
  lemma {:induction false} TodoShrinks(parse: Parser, fs: seq<Frame>, mine: seq<Turn>)
    requires Stable(parse) && !parse("").Complete? && (forall f :: f in fs ==> Frames(parse, f)) && AllFit(fs)
    ensures var v := Seen(parse, Texts(fs), mine);
      Todo(fs, v) <= 0 || Todo(fs, v) + Rounds(mine) <= |Texts(fs)| + |fs|
  {
    var s, n := Texts(fs), |mine|;
    if n > 0 {
      var before := mine[..n - 1];
      TurnKeepsTodo(parse, fs, Seen(parse, s, before), mine[n - 1]);
      if n > 1 && IsRound(mine[n - 2], mine[n - 1]) {
        var first := mine[..n - 2];
        assert before[..n - 2] == first && before[n - 2] == mine[n - 2];
        TodoShrinks(parse, fs, first);
        var k := FrameReached(parse, fs, first);
        var v := Seen(parse, s, first);
        if Todo(fs, v) > 0 {
          RoundProgresses(parse, fs, v, mine[n - 2], mine[n - 1], k);
        } else {
          TurnKeepsTodo(parse, fs, v, mine[n - 2]);
        }
      } else {
        TodoShrinks(parse, fs, before);
      }
    }
  }

  /** Whatever the schedule, a client's requests are answered in order and nothing else is. */
  lemma AnsweredInOrder(parse: Parser, fs: seq<Frame>, mine: seq<Turn>)
    requires Stable(parse) && !parse("").Complete? && forall f :: f in fs ==> Frames(parse, f)
    ensures Seen(parse, Texts(fs), mine).answered <= Reqs(fs)
  {
    var k := FrameReached(parse, fs, mine);
    ReqsSplit(fs, k);
  }

  /**
   A connection that is given enough rounds, however they are mixed with other turns and with those
   of other connections, answers all of its client's requests exactly if each of them fits the
   read buffer; then every byte has been received and none is left over.
   */
  lemma AnsweredIffEachFits(parse: Parser, fs: seq<Frame>, mine: seq<Turn>)
    requires Stable(parse) && !parse("").Complete? && forall f :: f in fs ==> Frames(parse, f)
    requires Rounds(mine) >= |Texts(fs)| + |fs|
    ensures var v := Seen(parse, Texts(fs), mine);
      && (v.answered == Reqs(fs) <==> AllFit(fs))
      && (AllFit(fs) ==> v == View(|Texts(fs)|, Reqs(fs), ""))
  {
    var v := Seen(parse, Texts(fs), mine);
    var k := FrameReached(parse, fs, mine);
    ReqsSize(fs);
    ReqsSize(fs[..k]);
    if k == |fs| {
      forall f | f in fs ensures |f.text| <= READ_BUF_SIZE {
        var j :| 0 <= j < |fs| && fs[j] == f;
      }
    }
    if AllFit(fs) {
      TodoShrinks(parse, fs, mine);
      AllDone(fs, v, k);
    }
  }

  lemma AllDone(fs: seq<Frame>, v: View, k: nat)
    requires AtFrame(fs, v, k) && |v.answered| == k && Todo(fs, v) <= 0
    ensures v == View(|Texts(fs)|, Reqs(fs), "")
  {
    assert fs[..|fs|] == fs && Texts(fs)[..|Texts(fs)|] == Texts(fs);
  }
}
