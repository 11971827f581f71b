/** What runs deliver: nothing before the opening delimiter, the exact body of a part, and what refusals cut off. */
module MultipartRuns {
  import opened Substring
  import opened Multipart
  import opened MultipartChunking
  import opened MultipartFeed

  // ----- before the opening delimiter

  /** Where the parser goes on behind the first opening delimiter. */
  function BehindOpening(cfg: Config, p: Parser): Parser
    requires Find(p.live, cfg.Opening()) < |p.live|
  {
    p.(live := p.live[Find(p.live, cfg.Opening()) + |cfg.Opening()|..], state := 1)
  }

  /** In the initial state a chunk that does not hold the whole opening delimiter is dropped, parts of it included. */
  lemma OpeningDropped(cfg: Config, p: Parser)
    requires Willing(cfg) && p.state == 0
    ensures Call(cfg, p) == if Find(p.live, cfg.Opening()) == |p.live| then Run(p.(live := ""), [], true)
                            else Call(cfg, BehindOpening(cfg, p))
  {
    var o := cfg.Opening();
    var pos := Find(p.live, o);
    if p.live != "" {
      CallTurn(cfg, p);
      FindFirst(p.live, o);
      if pos < |p.live| {
        assert p.live[pos..][..|o|] == o;
        assert p.live[pos..][|o|..] == p.live[pos + |o|..];
      }
    }
  }

  ghost predicate NoOpening(cfg: Config, chunks: seq<string>) {
    forall c :: c in chunks ==> Find(c, cfg.Opening()) == |c|
  }

  lemma {:induction false} NoOpeningSkipped(cfg: Config, skipped: seq<string>, chunks: seq<string>)
    requires Willing(cfg) && NoOpening(cfg, skipped)
    ensures Feed(cfg, FRESH, skipped + chunks) == Feed(cfg, FRESH, chunks)
    decreases |skipped|
  {
    if skipped == [] {
      assert skipped + chunks == chunks;
    } else {
      assert skipped[0] in skipped;
      assert (skipped + chunks)[1..] == skipped[1..] + chunks;
      assert FRESH.Receive(skipped[0]).live == skipped[0];
      OpeningDropped(cfg, FRESH.Receive(skipped[0]));
      NoOpeningSkipped(cfg, skipped[1..], chunks);
      var f := Feed(cfg, FRESH, chunks);
      assert Prepend([], f) == f;
    }
  }

  lemma {:induction false} StaysOpen(cfg: Config, p: Parser, chunks: seq<string>)
    requires Willing(cfg) && 1 <= p.state <= 4
    ensures Feed(cfg, p, chunks).p.state > 0
    decreases |chunks|
  {
    if chunks == [] {
    } else {
      var r := Call(cfg, p.Receive(chunks[0]));
      if r.ok { StaysOpen(cfg, r.p, chunks[1..]); }
    }
  }

  lemma OpensHere(cfg: Config, c: string, rest: seq<string>)
    requires Willing(cfg) && Find(c, cfg.Opening()) < |c|
    ensures Feed(cfg, FRESH, [c] + rest).p.state > 0
  {
    var q, o := FRESH.Receive(c), cfg.Opening();
    assert q.live == c;
    OpeningDropped(cfg, q);
    FeedFirst(cfg, FRESH, c, rest);
    if Call(cfg, q).ok { StaysOpen(cfg, Call(cfg, q).p, rest); }
  }

  lemma FeedFirst(cfg: Config, p: Parser, c: string, rest: seq<string>)
    requires p.state <= 4
    ensures var r := Call(cfg, p.Receive(c));
            Feed(cfg, p, [c] + rest) == if r.ok then Prepend(r.log, Feed(cfg, r.p, rest)) else r
  {
    assert ([c] + rest)[1..] == rest;
  }

  /** The first part begins exactly when one chunk holds the whole opening delimiter. */
  lemma {:induction false} OpenedExactly(cfg: Config, chunks: seq<string>)
    requires Willing(cfg)
    ensures Feed(cfg, FRESH, chunks).p.state == 0 <==> NoOpening(cfg, chunks)
    decreases |chunks|
  {
    if chunks == [] {
    } else {
      var c, rest := chunks[0], chunks[1..];
      assert chunks == [c] + rest && c in chunks;
      if Find(c, cfg.Opening()) == |c| {
        NoOpeningSkipped(cfg, [c], rest);
        OpenedExactly(cfg, rest);
      } else {
        OpensHere(cfg, c, rest);
      }
    }
  }

  /** A delimiter cut in two is lost: the same bytes start the first part or start nothing, as they arrive. */
  lemma CutOpening(cfg: Config)
    requires Willing(cfg) && cfg.boundary == "x"
    ensures Feed(cfg, FRESH, ["--x", "\r\n"]).p.state == 0
    ensures Feed(cfg, FRESH, ["--x\r\n"]).p.state == 1
  {
    var o := cfg.Opening();
    assert o == "--x\r\n";
    NotIn("--x", o);
    NotIn("\r\n", o);
    NoOpeningSkipped(cfg, ["--x", "\r\n"], []);
    assert ["--x", "\r\n"] + [] == ["--x", "\r\n"];
    assert OccursAt("--x\r\n", o, 0);
    assert FRESH.Receive(o).live == o;
    OpeningDropped(cfg, FRESH.Receive(o));
  }

  lemma NotIn(t: string, s: string)
    requires |t| < |s|
    ensures Find(t, s) == |t|
  {
  }

  // ----- cuts before and in the opening delimiter

  /** An occurrence of the opening delimiter begins in the first text and ends in the second. */
  predicate Straddled(cfg: Config, t: string, y: string) {
    Find(t, cfg.Opening()) == |t| && Find(t + y, cfg.Opening()) < |t|
  }

  /** Behind the opening delimiter a cut in the first chunk is like any other. */
  lemma CutOpened(cfg: Config, p: Parser, y: string)
    requires Willing(cfg) && p.state == 0 && Find(p.live, cfg.Opening()) < |p.live|
    requires Call(cfg, p).ok
    ensures SameAsJoined(cfg, p, y) <==> MayCut(cfg, BehindOpening(cfg, p), y)
  {
    var o := cfg.Opening();
    var q := BehindOpening(cfg, p);
    OpeningDropped(cfg, p);
    FindStable(p.live, y, o);
    OpeningDropped(cfg, p.Receive(y));
    Extended(p.live, y, Find(p.live, o) + |o|);
    assert BehindOpening(cfg, p.Receive(y)) == q.Receive(y);
    CutExactly(cfg, q, y);
  }

  /**
   Before the opening delimiter a cut is harmless if and only if it goes through no opening delimiter, or there
   is another one in the second text and the parser comes to the same end from there.
   */
  lemma CutUnopened(cfg: Config, p: Parser, y: string)
    requires Willing(cfg) && p.state == 0 && Find(p.live, cfg.Opening()) == |p.live|
    ensures Call(cfg, p) == Run(p.(live := ""), [], true)
    ensures SameAsJoined(cfg, p, y) <==>
            || !Straddled(cfg, p.live, y)
            || (Find(y, cfg.Opening()) < |y|
                && Follows(Call(cfg, BehindOpening(cfg, p.Receive(y))), [],
                           Call(cfg, BehindOpening(cfg, p.(live := y)))))
  {
    var q := p.(live := "").Receive(y);
    assert q == p.(live := y);
    OpeningDropped(cfg, p);
    if !Straddled(cfg, p.live, y) {
      SkippedText(cfg, p, y);
      NoneAround(Flat(Call(cfg, q).log));
    } else {
      OpeningDropped(cfg, p.Receive(y));
      OpeningDropped(cfg, q);
    }
  }

  /** A first text without a part of the delimiter might as well not have been there. */
  lemma SkippedText(cfg: Config, p: Parser, y: string)
    requires Willing(cfg) && p.state == 0 && Find(p.live, cfg.Opening()) == |p.live|
    requires !Straddled(cfg, p.live, y)
    ensures Call(cfg, p.Receive(y)) == Call(cfg, p.(live := y))
  {
    FindBehind(p.live, y, cfg.Opening());
    OpeningDropped(cfg, p.Receive(y));
    OpeningDropped(cfg, p.(live := y));
    if Find(y, cfg.Opening()) < |y| {
      assert BehindOpening(cfg, p.Receive(y)) == BehindOpening(cfg, p.(live := y));
    }
  }

  // ----- the body of a part

  /** The bytes reported before the next header block. */
  function Leading(f: seq<Symbol>): seq<Symbol> {
    if f == [] || f[0].Head? then [] else [f[0]] + Leading(f[1..])
  }

  lemma {:induction false} LeadingBytes(a: string, f: seq<Symbol>)
    ensures Leading(Bytes(a) + f) == Bytes(a) + Leading(f)
    decreases |a|
  {
    if a == "" {
      assert Bytes(a) + f == f;
    } else {
      assert (Bytes(a) + f)[1..] == Bytes(a[1..]) + f;
      LeadingBytes(a[1..], f);
      assert Bytes(a) == [Byte(a[0])] + Bytes(a[1..]);
    }
  }

  lemma {:induction false} NoLeading(cfg: Config, p: Parser, chunks: seq<string>)
    requires Willing(cfg) && p.state in {1, 2, 4}
    ensures Leading(Flat(Feed(cfg, p, chunks).log)) == []
    decreases |chunks|
  {
    if chunks == [] {
    } else {
      var q := p.Receive(chunks[0]);
      HeaderFirst(cfg, q);
      var r := Call(cfg, q);
      if r.ok {
        var f := Feed(cfg, r.p, chunks[1..]);
        FlatConcat(r.log, f.log);
        if Flat(r.log) == [] {
          NoLeading(cfg, r.p, chunks[1..]);
          assert Flat(r.log) + Flat(f.log) == Flat(f.log);
        }
      }
    }
  }

  /** How much of a body's text has been delivered once all of `t` has arrived. */
  function BodyLength(t: string, d: string): (n: nat)
    requires d != ""
    ensures n <= |t|
  {
    if |d| <= |t| then Deliverable(t, d) else 0
  }

  /** What is fed after the first call. */
  function FeedRest(cfg: Config, r: Run, rest: seq<string>): Run
    requires r.p.state <= 4
  {
    if r.ok then Feed(cfg, r.p, rest) else Run(r.p, [], r.ok)
  }

  lemma FeedFlat(cfg: Config, p: Parser, chunks: seq<string>)
    requires p.state <= 4 && chunks != []
    ensures var r := Call(cfg, p.Receive(chunks[0]));
            Flat(Feed(cfg, p, chunks).log) == Flat(r.log) + Flat(FeedRest(cfg, r, chunks[1..]).log)
  {
    var r := Call(cfg, p.Receive(chunks[0]));
    FlatConcat(r.log, FeedRest(cfg, r, chunks[1..]).log);
  }

  lemma BodyFound(cfg: Config, p: Parser, chunks: seq<string>)
    requires Willing(cfg) && p.state == 3 && chunks != []
    requires var t := p.live + chunks[0]; |cfg.Delimiter()| <= |t| && Find(t, cfg.Delimiter()) < |t|
    ensures var t := p.live + chunks[0];
            Leading(Flat(Feed(cfg, p, chunks).log)) == Bytes(t[..Find(t, cfg.Delimiter())])
  {
    var d, q, rest := cfg.Delimiter(), p.Receive(chunks[0]), chunks[1..];
    var pos := Find(q.live, d);
    var after := q.(state := 4, live := Remainder(q.live, d));
    BodyCall(cfg, q);
    FeedFlat(cfg, p, chunks);
    FeedFlat(cfg, after, [""] + rest);
    assert after.Receive("") == after && ([""] + rest)[1..] == rest;
    NoLeading(cfg, after, [""] + rest);
    var f := FeedRest(cfg, Call(cfg, after), rest);
    LeadingBytes(q.live[..pos], Flat(Call(cfg, after).log) + Flat(f.log));
    Assoc(Bytes(q.live[..pos]), Flat(Call(cfg, after).log), Flat(f.log));
  }

  /** What a run `f` that starts in a body, with all of `s` in or before its chunks, has done. */
  ghost predicate BodyDone(cfg: Config, p: Parser, s: string, f: Run) {
    var d := cfg.Delimiter();
    && Leading(Flat(f.log)) == Bytes(s[..BodyLength(s, d)])
    && (Find(s, d) == |s| ==>
          f.ok && f.p == p.(live := s[BodyLength(s, d)..]) && Flat(f.log) == Bytes(s[..BodyLength(s, d)]))
  }

  lemma BodyDoneLater(cfg: Config, p: Parser, t: string, y: string, log: seq<Event>, f: Run)
    requires p.state == 3 && |cfg.Delimiter()| <= |t| == Find(t, cfg.Delimiter())
    requires Flat(log) == Bytes(t[..|t| - |cfg.Delimiter()|])
    requires BodyDone(cfg, p, t[|t| - |cfg.Delimiter()|..] + y, f)
    ensures BodyDone(cfg, p, t + y, Prepend(log, f))
  {
    var d := cfg.Delimiter();
    BodySplit(t, y, d);
    BodyDoneBehind(cfg, p, t + y, t[|t| - |d|..] + y, t[..|t| - |d|], log, f);
  }

  /** `head` has been delivered, and the rest is that of the text `u`. */
  lemma BodyDoneBehind(cfg: Config, p: Parser, s: string, u: string, head: string, log: seq<Event>, f: Run)
    requires Flat(log) == Bytes(head) && BodyDone(cfg, p, u, f)
    requires Find(s, cfg.Delimiter()) == |s| <==> Find(u, cfg.Delimiter()) == |u|
    requires s[..BodyLength(s, cfg.Delimiter())] == head + u[..BodyLength(u, cfg.Delimiter())]
    requires s[BodyLength(s, cfg.Delimiter())..] == u[BodyLength(u, cfg.Delimiter())..]
    ensures BodyDone(cfg, p, s, Prepend(log, f))
  {
    LogBehind(log, head, f.log);
    BytesConcat(head, u[..BodyLength(u, cfg.Delimiter())]);
  }

  lemma LogBehind(log: seq<Event>, head: string, more: seq<Event>)
    requires Flat(log) == Bytes(head)
    ensures Flat(log + more) == Bytes(head) + Flat(more)
    ensures Leading(Flat(log + more)) == Bytes(head) + Leading(Flat(more))
  {
    FlatConcat(log, more);
    LeadingBytes(head, Flat(more));
  }

  lemma BodySplit(t: string, y: string, d: string)
    requires d != "" && |d| <= |t| == Find(t, d)
    ensures var s, head, u := t + y, t[..|t| - |d|], t[|t| - |d|..] + y;
            && (Find(s, d) == |s| <==> Find(u, d) == |u|)
            && s[..BodyLength(s, d)] == head + u[..BodyLength(u, d)]
            && s[BodyLength(s, d)..] == u[BodyLength(u, d)..]
  {
    var s, head, u := t + y, t[..|t| - |d|], t[|t| - |d|..] + y;
    Pause(t, y, d);
    var m, n := BodyLength(s, d), BodyLength(u, d);
    assert m == |s[..m]| == |head| + n;
    Behind(t, y, |head|, n);
  }

  lemma Behind(t: string, y: string, h: nat, n: nat)
    requires h <= |t| && n <= |t[h..] + y|
    ensures (t + y)[h + n..] == (t[h..] + y)[n..]
  {
    Extended(t, y, h);
    CutTwice(t + y, h, n);
  }

  /** Nothing more arrives. */
  lemma BodyLast(cfg: Config, q: Parser)
    requires Willing(cfg) && q.state == 3 && Find(q.live, cfg.Delimiter()) == |q.live|
    ensures BodyDone(cfg, q, q.live, Call(cfg, q))
  {
    var d := cfg.Delimiter();
    if |d| <= |q.live| {
      BodyCall(cfg, q);
      LeadingBytes(q.live[..|q.live| - |d|], []);
      assert Bytes(q.live[..|q.live| - |d|]) + [] == Bytes(q.live[..|q.live| - |d|]);
    }
  }

  /**
   Body exactness: over any run that starts inside a body, the content reported before the next header is
   the stream up to the first delimiter, wherever the chunks were cut; until one has arrived it is all but
   the last bytes that could still belong to one.
   */
  lemma {:induction false} BodyExact(cfg: Config, p: Parser, chunks: seq<string>)
    requires Willing(cfg) && p.state == 3 && chunks != []
    ensures BodyDone(cfg, p, p.live + Concat(chunks), Feed(cfg, p, chunks))
    decreases |chunks|
  {
    var d, q, rest := cfg.Delimiter(), p.Receive(chunks[0]), chunks[1..];
    var y := Concat(rest);
    assert p.live + Concat(chunks) == q.live + y by { Assoc(p.live, chunks[0], y); }
    if |d| <= |q.live| && Find(q.live, d) < |q.live| {
      BodyDelimited(cfg, p, chunks, y);
    } else {
      BodyCallState(cfg, q);
      if rest == [] {
        BodyLast(cfg, q);
        PrependNone(Call(cfg, q));
        assert q.live + y == q.live;
      } else {
        BodyExact(cfg, Call(cfg, q).p, rest);
        BodyMore(cfg, q, y, Feed(cfg, Call(cfg, q).p, rest));
      }
    }
  }

  lemma BodyMore(cfg: Config, q: Parser, y: string, f: Run)
    requires Willing(cfg) && q.state == 3 && Find(q.live, cfg.Delimiter()) == |q.live|
    requires var r := Call(cfg, q); BodyDone(cfg, r.p, r.p.live + y, f)
    ensures BodyDone(cfg, q, q.live + y, Prepend(Call(cfg, q).log, f))
  {
    BodyCallState(cfg, q);
    if |cfg.Delimiter()| <= |q.live| {
      BodyDoneLater(cfg, Call(cfg, q).p, q.live, y, Call(cfg, q).log, f);
    } else {
      PrependNone(f);
    }
  }

  lemma BodyDelimited(cfg: Config, p: Parser, chunks: seq<string>, y: string)
    requires Willing(cfg) && p.state == 3 && chunks != []
    requires var t := p.live + chunks[0]; |cfg.Delimiter()| <= |t| && Find(t, cfg.Delimiter()) < |t|
    ensures BodyDone(cfg, p, p.live + chunks[0] + y, Feed(cfg, p, chunks))
  {
    var t, d := p.live + chunks[0], cfg.Delimiter();
    FindStable(t, y, d);
    BodyFound(cfg, p, chunks);
    assert (t + y)[..Find(t, d)] == t[..Find(t, d)];
  }

  lemma PrependNone(f: Run)
    ensures Prepend([], f) == f && Prepend(f.log, Run(f.p, [], f.ok)) == f
  {
    assert [] + f.log == f.log && f.log + [] == f.log;
  }

  lemma BodyCallState(cfg: Config, q: Parser)
    requires Willing(cfg) && q.state == 3 && Find(q.live, cfg.Delimiter()) == |q.live|
    ensures var d, r := cfg.Delimiter(), Call(cfg, q);
            && r.ok
            && if |q.live| < |d| then r == Run(q, [], true)
               else r.p == q.(live := q.live[|q.live| - |d|..]) && Flat(r.log) == Bytes(q.live[..|q.live| - |d|])
  {
    if |cfg.Delimiter()| <= |q.live| {
      BodyCall(cfg, q);
    }
  }

  // ----- callbacks that refuse

  ghost predicate AllAccepted(cfg: Config, log: seq<Event>) {
    forall i :: 0 <= i < |log| ==> cfg.accept(log[..i], log[i])
  }

  /** Every event was accepted, or the last one was refused and ended the call with false and an invalid parser. */
  ghost predicate RefusalEnds(cfg: Config, r: Run) {
    || AllAccepted(cfg, r.log)
    || (|r.log| > 0 && AllAccepted(cfg, r.log[..|r.log| - 1]) && !cfg.accept(r.log[..|r.log| - 1], r.log[|r.log| - 1])
        && !r.ok && !r.p.isValid)
  }

  lemma AcceptedOrNot(cfg: Config, log: seq<Event>, e: Event)
    requires AllAccepted(cfg, log)
    ensures if cfg.accept(log, e) then AllAccepted(cfg, log + [e]) else (log + [e])[..|log|] == log
  {
    var l := log + [e];
    assert l[..|log|] == log;
    forall i | 0 <= i < |log| ensures cfg.accept(l[..i], l[i]) {
      assert l[..i] == log[..i];
    }
  }

  lemma {:induction false} HeaderLoopRefusal(cfg: Config, p: Parser, log: seq<Event>)
    requires AllAccepted(cfg, log)
    ensures match HeaderLoop(cfg, p, log)
            case Next(_, l) => AllAccepted(cfg, l)
            case Stop(r) => RefusalEnds(cfg, r)
    decreases |p.live|
  {
    var pos := Find(p.live, CRLF);
    if pos == 0 < |p.live| {
      AcceptedOrNot(cfg, log, Header(p.file));
    } else if pos < |p.live| {
      match ParseHeader(cfg.recognise, p.file, p.live[..pos])
      case Some(f) => HeaderLoopRefusal(cfg, p.(file := f, live := p.live[pos + |CRLF|..]), log);
      case None =>
    }
  }

  lemma TurnRefusal(cfg: Config, p: Parser, log: seq<Event>)
    requires p.live != "" && p.state <= 4 && AllAccepted(cfg, log)
    ensures match Turn(cfg, p, log)
            case Next(_, l) => AllAccepted(cfg, l)
            case Stop(r) => RefusalEnds(cfg, r)
  {
    if p.state == 2 {
      HeaderLoopRefusal(cfg, p, log);
    } else if p.state == 3 && |cfg.Delimiter()| <= |p.live| {
      AcceptedOrNot(cfg, log, Content(p.live[..Deliverable(p.live, cfg.Delimiter())]));
    }
  }

  /** For any callbacks: the first refusal is the last event of the call. */
  lemma {:induction false} Refusal(cfg: Config, p: Parser, log: seq<Event>)
    requires p.state <= 4 && AllAccepted(cfg, log)
    ensures RefusalEnds(cfg, Drain(cfg, p, log))
    decreases |p.live|, if p.state == 1 then 1 else 0
  {
    if p.live == "" {
    } else {
      TurnRefusal(cfg, p, log);
      DrainTurn(cfg, p, log);
      match Turn(cfg, p, log)
      case Next(q, l) => Refusal(cfg, q, l);
      case Stop(_) =>
    }
  }

  // ----- what a refusal leaves out

  /** The same parser with callbacks that agree to everything. */
  function Agreeing(cfg: Config): Config {
    cfg.(accept := (log, e) => true)
  }

  function StepLog(s: Step): seq<Event> {
    match s
    case Next(_, l) => l
    case Stop(r) => r.log
  }

  /** The step is the one with agreeing callbacks, or a refusal of the last event of that one. */
  predicate SameOrRefused(s: Step, agreed: Step) {
    s == agreed || (s.Stop? && !s.run.ok && !s.run.p.isValid && s.run.log == StepLog(agreed))
  }

  lemma {:induction false} HeaderLoopAgreed(cfg: Config, p: Parser, log: seq<Event>)
    ensures SameOrRefused(HeaderLoop(cfg, p, log), HeaderLoop(Agreeing(cfg), p, log))
    ensures log <= StepLog(HeaderLoop(cfg, p, log))
    decreases |p.live|
  {
    var pos := Find(p.live, CRLF);
    if pos == 0 || pos == |p.live| {
    } else {
      match ParseHeader(cfg.recognise, p.file, p.live[..pos])
      case Some(f) => HeaderLoopAgreed(cfg, p.(file := f, live := p.live[pos + |CRLF|..]), log);
      case None =>
    }
  }

  lemma TurnAgreed(cfg: Config, p: Parser, log: seq<Event>)
    requires p.live != "" && p.state <= 4
    ensures SameOrRefused(Turn(cfg, p, log), Turn(Agreeing(cfg), p, log))
    ensures log <= StepLog(Turn(cfg, p, log))
  {
    if p.state == 2 {
      HeaderLoopAgreed(cfg, p, log);
    } else if p.state == 3 {
      BodyAgreed(cfg, p, log);
    }
  }

  lemma BodyAgreed(cfg: Config, p: Parser, log: seq<Event>)
    requires p.live != "" && p.state == 3
    ensures SameOrRefused(Turn(cfg, p, log), Turn(Agreeing(cfg), p, log))
    ensures log <= StepLog(Turn(cfg, p, log))
  {
  }

  lemma {:induction false} DrainGrows(cfg: Config, p: Parser, log: seq<Event>)
    requires p.state <= 4
    ensures log <= Drain(cfg, p, log).log
    decreases |p.live|, if p.state == 1 then 1 else 0
  {
    if p.live == "" {
    } else {
      TurnAgreed(cfg, p, log);
      DrainTurn(cfg, p, log);
      match Turn(cfg, p, log)
      case Next(q, l) => DrainGrows(cfg, q, l);
      case Stop(_) =>
    }
  }

  /** A call is the call with agreeing callbacks, or was refused and reported a front part of what that one reports. */
  lemma {:induction false} RefusedFront(cfg: Config, p: Parser, log: seq<Event>)
    requires p.state <= 4
    ensures var r, agreed := Drain(cfg, p, log), Drain(Agreeing(cfg), p, log);
            r == agreed || (!r.ok && !r.p.isValid && r.log <= agreed.log)
    decreases |p.live|, if p.state == 1 then 1 else 0
  {
    if p.live == "" {
    } else {
      TurnAgreed(cfg, p, log);
      DrainTurn(cfg, p, log);
      DrainTurn(Agreeing(cfg), p, log);
      match Turn(Agreeing(cfg), p, log)
      case Next(q, l) =>
        if Turn(cfg, p, log).Next? {
          RefusedFront(cfg, q, l);
        } else {
          DrainGrows(Agreeing(cfg), q, l);
        }
      case Stop(_) =>
    }
  }
}
