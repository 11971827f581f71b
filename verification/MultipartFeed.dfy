/** Any number of chunks: exactly when a run has the effect of one call on all of them. */
module MultipartFeed {
  import opened Substring
  import opened Multipart
  import opened MultipartChunking

  /** One call for each chunk, up to the first that returns false. */
  function Feed(cfg: Config, p: Parser, chunks: seq<string>): Run
    requires p.state <= 4
    decreases |chunks|
  {
    if chunks == [] then Run(p, [], true)
    else
      var r := Call(cfg, p.Receive(chunks[0]));
      if r.ok then Prepend(r.log, Feed(cfg, r.p, chunks[1..])) else r
  }

  /** What was not given to the parser because a call had returned false. */
  function Unfed(cfg: Config, p: Parser, chunks: seq<string>): string
    requires p.state <= 4
    decreases |chunks|
  {
    if chunks == [] then ""
    else
      var r := Call(cfg, p.Receive(chunks[0]));
      if r.ok then Unfed(cfg, r.p, chunks[1..]) else Concat(chunks[1..])
  }

  /** The run did what the joined call did, which has what was not fed in its buffer as well. */
  ghost predicate SameRun(fed: Run, unfed: string, joined: Run) {
    fed.ok == joined.ok && fed.p.Receive(unfed) == joined.p && Flat(fed.log) == Flat(joined.log)
  }

  lemma SameBehind(joined: Run, log: seq<Event>, b: Run, fed: Run, unfed: string)
    requires Follows(joined, log, b)
    ensures SameRun(Prepend(log, fed), unfed, joined) <==> SameRun(fed, unfed, b)
  {
    FlatConcat(log, fed.log);
    Cancel(Flat(log), Flat(fed.log), Flat(b.log));
  }

  lemma Prepended(l: seq<Event>, r: Run)
    ensures Follows(Prepend(l, r), l, r)
  {
    FlatConcat(l, r.log);
  }

  // ----- a call that returns false

  /**
   A header line that was refused because it was unknown or too long is refused all the same when more text
   is there, unless that text shows the line to end within the limit after all.
   */
  predicate CleanFailure(cfg: Config, q: Parser, y: string) {
    var pos := Find(q.live + y, CRLF);
    || Find(q.live, CRLF) < |q.live|
    || pos > HEADER_MAX_LENGTH
    || (ParseHeader(cfg.recognise, q.file, (q.live + y)[..pos]).None? && !q.isValid)
  }

  lemma {:induction false} HeaderLoopFails(cfg: Config, p: Parser)
    requires Willing(cfg) && HeaderLoop(cfg, p, []).Stop? && !HeaderLoop(cfg, p, []).run.ok
    ensures var r := HeaderLoop(cfg, p, []).run;
            Find(r.p.live, CRLF) < |r.p.live| && r.p.state == p.state && Find(p.live, CRLF) < |p.live|
    decreases |p.live|
  {
    var pos := Find(p.live, CRLF);
    match ParseHeader(cfg.recognise, p.file, p.live[..pos])
    case Some(f) => if 0 < pos < |p.live| { HeaderLoopFails(cfg, p.(file := f, live := p.live[pos + |CRLF|..])); }
    case None =>
  }

  /** A line that was too long before its end had arrived. */
  lemma TooLong(cfg: Config, p: Parser, y: string)
    requires Willing(cfg) && p.state == 2 && Find(p.live, CRLF) == |p.live| > HEADER_MAX_LENGTH
    ensures Call(cfg, p) == Run(p, [], false)
    ensures SameRun(Call(cfg, p), y, Call(cfg, p.Receive(y))) <==> CleanFailure(cfg, p, y)
  {
    CallTurn(cfg, p);
    CallTurn(cfg, p.Receive(y));
    FindLate(p.live, y, CRLF);
  }

  lemma FailedHere(cfg: Config, p: Parser, y: string)
    requires Willing(cfg) && 1 <= p.state <= 4 && p.live != "" && Turn(cfg, p, []).Stop? && !Turn(cfg, p, []).run.ok
    ensures var r := Call(cfg, p);
            r.p.state == 2 && (SameRun(r, y, Call(cfg, p.Receive(y))) <==> CleanFailure(cfg, r.p, y))
  {
    CallTurn(cfg, p);
    if Find(p.live, CRLF) == |p.live| > HEADER_MAX_LENGTH {
      TooLong(cfg, p, y);
    } else {
      CallTurn(cfg, p.Receive(y));
      if Find(p.live, CRLF) <= HEADER_MAX_LENGTH {
        HeaderLoopFails(cfg, p);
        HeaderLoopExtend(cfg, p, y);
      }
      FindStable(p.live, y, CRLF);
    }
  }

  /** When the call on the front of a text returns false: exactly when the call on all of it does the same. */
  lemma {:induction false} FailExactly(cfg: Config, p: Parser, y: string)
    requires Willing(cfg) && 1 <= p.state <= 4 && !Call(cfg, p).ok
    ensures var r := Call(cfg, p);
            r.p.state == 2 && (SameRun(r, y, Call(cfg, p.Receive(y))) <==> CleanFailure(cfg, r.p, y))
    decreases |p.live|, if p.state == 1 then 1 else 0
  {
    match Turn(cfg, p, [])
    case Stop(_) =>
      CallTurn(cfg, p);
      FailedHere(cfg, p, y);
    case Next(q, l) =>
      if Closing(p, Next(q, l)) {
        CloseExtend(cfg, p, y);
      } else {
        NextExtend(cfg, p, y, q, l);
        FailExactly(cfg, q, y);
        Prepended(l, Call(cfg, q.Receive(y)));
        SameBehind(Call(cfg, p.Receive(y)), l, Call(cfg, q.Receive(y)), Call(cfg, q), y);
      }
  }

  // ----- runs that go wrong stay wrong

  /** Without a header block the parser does not come to the end of a part. */
  lemma {:induction false} NoReturn(cfg: Config, p: Parser, chunks: seq<string>)
    requires Willing(cfg) && p.state in {1, 2}
    ensures Flat(Feed(cfg, p, chunks).log) == [] ==> Feed(cfg, p, chunks).p.state in {1, 2}
    decreases |chunks|
  {
    if chunks == [] {
    } else {
      var q := p.Receive(chunks[0]);
      HeaderFirst(cfg, q);
      var r := Call(cfg, q);
      if r.ok {
        FlatConcat(r.log, Feed(cfg, r.p, chunks[1..]).log);
        if Flat(r.log) == [] { NoReturn(cfg, r.p, chunks[1..]); }
      }
    }
  }

  lemma BoundaryCall(cfg: Config, p: Parser)
    requires Willing(cfg) && p.state == 4
    ensures Call(cfg, p) ==
            if CRLF <= p.live then Call(cfg, p.(live := p.live[|CRLF|..], state := 1))
            else if DASH_CRLF <= p.live then Run(p.(isValid := true, live := ""), [], true)
            else Run(p, [], true)
  {
    if p.live != "" { CallTurn(cfg, p); }
  }

  /** Behind a boundary, text that is no closing delimiter leaves something in the buffer, begins a part, or fails. */
  lemma {:induction false} NotClosed(cfg: Config, p: Parser, chunks: seq<string>)
    requires Willing(cfg) && p.state == 4
    requires var s := p.live + Concat(chunks); s != "" && !(DASH_CRLF <= s)
    ensures var f := Feed(cfg, p, chunks);
            !(f.ok && f.p.state == 4 && f.p.live == "" && Flat(f.log) == [])
    decreases |chunks|
  {
    if chunks == [] {
    } else {
      var q := p.Receive(chunks[0]);
      var r := Call(cfg, q);
      var rest := chunks[1..];
      Assoc(p.live, chunks[0], Concat(rest));
      BoundaryCall(cfg, q);
      if CRLF <= q.live {
        HeaderFirst(cfg, q.(live := q.live[|CRLF|..], state := 1));
        if r.ok {
          FlatConcat(r.log, Feed(cfg, r.p, rest).log);
          if Flat(r.log) == [] { NoReturn(cfg, r.p, rest); }
        }
      } else {
        if DASH_CRLF <= q.live { PrefixOfMore(DASH_CRLF, q.live, Concat(rest)); }
        NotClosed(cfg, q, rest);
        assert Feed(cfg, p, chunks) == Prepend([], Feed(cfg, q, rest));
        NoneAround(Feed(cfg, q, rest).log);
      }
    }
  }

  lemma PrefixOfMore(a: string, t: string, y: string)
    requires a <= t
    ensures a <= t + y
  {
    assert (t + y)[..|a|] == t[..|a|];
  }

  /** A header line over the limit, resumed in any number of chunks, is refused with nothing consumed. */
  lemma {:induction false} LateFed(cfg: Config, q: Parser, chunks: seq<string>)
    requires Willing(cfg) && q.state == 2 && chunks != []
    requires Find(q.live + Concat(chunks), CRLF) > HEADER_MAX_LENGTH
    ensures var f := Feed(cfg, q, chunks);
            !f.ok && f.log == [] && f.p.Receive(Unfed(cfg, q, chunks)) == q.Receive(Concat(chunks))
    decreases |chunks|
  {
    var u, rest := q.Receive(chunks[0]), chunks[1..];
    var y := Concat(rest);
    Assoc(q.live, chunks[0], y);
    NoneAround(u.live);
    if u.live == "" {
    } else {
      CallTurn(cfg, u);
    }
    if Find(u.live, CRLF) < |u.live| {
      FindStable(u.live, y, CRLF);
    } else if |u.live| <= HEADER_MAX_LENGTH {
      assert Call(cfg, u) == Run(u, [], true);
      if rest != [] { LateFed(cfg, u, rest); }
    }
  }

  // ----- the exact condition

  /** Every cut is one that may be made, up to the first call that fails, which fails cleanly. */
  predicate CutsAllowed(cfg: Config, p: Parser, chunks: seq<string>)
    requires p.state <= 4
    decreases |chunks|
  {
    |chunks| <= 1 ||
    var q, y := p.Receive(chunks[0]), Concat(chunks[1..]);
    var r := Call(cfg, q);
    if r.ok then MayCut(cfg, q, y) && CutsAllowed(cfg, r.p, chunks[1..])
    else CleanFailure(cfg, r.p, y)
  }

  /** A cut that may not be made is not made good by any later one. */
  lemma BadCut(cfg: Config, q: Parser, rest: seq<string>)
    requires Willing(cfg) && 1 <= q.state <= 4 && Call(cfg, q).ok && rest != []
    requires !MayCut(cfg, q, Concat(rest))
    ensures var r := Call(cfg, q);
            !SameRun(Feed(cfg, r.p, rest), Unfed(cfg, r.p, rest), Resume(cfg, HaltOf(cfg, q), r.p, Concat(rest)))
  {
    var r, y := Call(cfg, q), Concat(rest);
    HaltState(cfg, q);
    Extend(cfg, q, y);
    match HaltOf(cfg, q)
    case Waiting =>
    case Closed =>
      assert r.p.live + y == y;
      NotClosed(cfg, r.p, rest);
    case Late =>
      LateFed(cfg, r.p, rest);
      LateLine(cfg, r.p, y);
      CallTurn(cfg, r.p.Receive(y));
  }

  lemma LastChunk(cfg: Config, p: Parser, c: string)
    requires p.state <= 4
    ensures Feed(cfg, p, [c]) == Call(cfg, p.Receive(c)) && Unfed(cfg, p, [c]) == ""
  {
    var r := Call(cfg, p.Receive(c));
    NoneAround(r.log);
  }

  /** Chunking independence over a whole run, with its exact condition. */
  lemma {:induction false} FeedExactly(cfg: Config, p: Parser, chunks: seq<string>)
    requires Willing(cfg) && 1 <= p.state <= 4 && chunks != []
    ensures SameRun(Feed(cfg, p, chunks), Unfed(cfg, p, chunks), Call(cfg, p.Receive(Concat(chunks))))
            <==> CutsAllowed(cfg, p, chunks)
    decreases |chunks|
  {
    var q, rest := p.Receive(chunks[0]), chunks[1..];
    var r, y := Call(cfg, q), Concat(rest);
    assert q.Receive(y) == p.Receive(Concat(chunks)) by { Assoc(p.live, chunks[0], y); }
    if rest == [] {
      assert chunks == [chunks[0]] && q.Receive(y) == q;
      LastChunk(cfg, p, chunks[0]);
    } else if !r.ok {
      FailExactly(cfg, q, y);
    } else {
      Extend(cfg, q, y);
      if MayCut(cfg, q, y) {
        CutExactly(cfg, q, y);
        SameBehind(Call(cfg, q.Receive(y)), r.log, Call(cfg, r.p.Receive(y)),
                   Feed(cfg, r.p, rest), Unfed(cfg, r.p, rest));
        FeedExactly(cfg, r.p, rest);
      } else {
        BadCut(cfg, q, rest);
        SameBehind(Call(cfg, q.Receive(y)), r.log, Resume(cfg, HaltOf(cfg, q), r.p, y),
                   Feed(cfg, r.p, rest), Unfed(cfg, r.p, rest));
      }
    }
  }

  // ----- texts that may be cut anywhere

  /** Every header line from here to the end of the block, finished or not, is short. */
  predicate ShortLines(cfg: Config, p: Parser)
    decreases |p.live|
  {
    var pos := Find(p.live, CRLF);
    if pos == |p.live| then |p.live| <= HEADER_MAX_LENGTH
    else
      && pos < HEADER_MAX_LENGTH
      && (pos > 0 ==>
            match ParseHeader(cfg.recognise, p.file, p.live[..pos])
            case Some(f) => ShortLines(cfg, p.(file := f, live := p.live[pos + |CRLF|..]))
            case None => true)
  }

  /** The text in a call's buffer has short header lines only and ends with the closing delimiter, if it has one. */
  predicate Tame(cfg: Config, p: Parser)
    requires p.state <= 4
    decreases |p.live|, if p.state == 1 then 1 else 0
  {
    var d := cfg.Delimiter();
    p.live != "" ==>
      match p.state
      case 0 => true
      case 1 => Tame(cfg, p.(file := NO_FILE, state := 2))
      case 2 => ShortLines(cfg, p) && (HeaderLoop(cfg, p, []).Next? ==> Tame(cfg, HeaderLoop(cfg, p, []).p))
      case 3 =>
        |d| <= |p.live| && Find(p.live, d) < |p.live| ==>
          Tame(cfg, p.(state := 4, live := Remainder(p.live, d)))
      case _ => if CRLF <= p.live then Tame(cfg, p.(live := p.live[|CRLF|..], state := 1))
                else DASH_CRLF <= p.live ==> p.live == DASH_CRLF
  }

  lemma {:induction false} ShortPrefix(cfg: Config, p: Parser, y: string)
    requires ShortLines(cfg, p.Receive(y))
    ensures ShortLines(cfg, p)
    decreases |p.live|
  {
    var pos := Find(p.live, CRLF);
    if pos == |p.live| {
      FindLate(p.live, y, CRLF);
    } else {
      LineExtend(p.live, y);
      if pos > 0 {
        match ParseHeader(cfg.recognise, p.file, p.live[..pos])
        case Some(f) => ShortPrefix(cfg, p.(file := f, live := p.live[pos + |CRLF|..]), y);
        case None =>
      }
    }
  }

  lemma {:induction false} ShortRest(cfg: Config, p: Parser, y: string)
    requires ShortLines(cfg, p.Receive(y)) && HeaderLoop(cfg, p, []).Stop? && HeaderLoop(cfg, p, []).run.ok
    ensures ShortLines(cfg, HeaderLoop(cfg, p, []).run.p.Receive(y))
    decreases |p.live|
  {
    var pos := Find(p.live, CRLF);
    if pos == |p.live| {
    } else {
      LineExtend(p.live, y);
      if pos > 0 {
        match ParseHeader(cfg.recognise, p.file, p.live[..pos])
        case Some(f) => ShortRest(cfg, p.(file := f, live := p.live[pos + |CRLF|..]), y);
        case None =>
      }
    }
  }

  lemma StopTameHeaders(cfg: Config, p: Parser, y: string)
    requires Willing(cfg) && p.state == 2 && p.live != "" && Turn(cfg, p, []).Stop? && Tame(cfg, p.Receive(y))
    ensures var r := Turn(cfg, p, []).run;
            && r.p.state == 2
            && if r.ok then ShortLines(cfg, r.p.Receive(y)) && Tame(cfg, r.p.Receive(y)) else CleanFailure(cfg, r.p, y)
  {
    ShortPrefix(cfg, p, y);
    if HeaderLoop(cfg, p, []).run.ok {
      HeaderLoopExtend(cfg, p, y);
      ShortRest(cfg, p, y);
    } else {
      HeaderLoopFails(cfg, p);
    }
  }

  lemma TameNext(cfg: Config, p: Parser)
    requires Willing(cfg) && 1 <= p.state <= 4 && p.live != "" && Turn(cfg, p, []).Next? && Tame(cfg, p)
    ensures Tame(cfg, Turn(cfg, p, []).p)
    ensures Closing(p, Turn(cfg, p, [])) ==> p.live == DASH_CRLF
  {
  }

  lemma StopTameBody(cfg: Config, p: Parser, y: string)
    requires Willing(cfg) && p.state == 3 && |cfg.Delimiter()| <= |p.live| == Find(p.live, cfg.Delimiter())
    requires Tame(cfg, p.Receive(y))
    ensures Tame(cfg, p.(live := p.live[|p.live| - |cfg.Delimiter()|..]).Receive(y))
  {
    Pause(p.live, y, cfg.Delimiter());
  }

  lemma StopSame(cfg: Config, p: Parser)
    requires Willing(cfg) && p.state <= 4 && p.live != "" && Turn(cfg, p, []).Stop?
    requires p.state == 4 || (p.state == 3 && |p.live| < |cfg.Delimiter()|)
    ensures Turn(cfg, p, []).run == Run(p, [], true)
  {
  }

  lemma StopShort(cfg: Config, p: Parser)
    requires Willing(cfg) && p.state == 3 && |cfg.Delimiter()| <= |p.live| && Turn(cfg, p, []).Stop?
    ensures var r := Turn(cfg, p, []).run;
            && Find(p.live, cfg.Delimiter()) == |p.live| && r.ok
            && r.p == p.(live := p.live[|p.live| - |cfg.Delimiter()|..])
  {
  }

  lemma StopTame(cfg: Config, p: Parser, y: string)
    requires Willing(cfg) && 1 <= p.state <= 4 && p.live != "" && Turn(cfg, p, []).Stop? && Tame(cfg, p.Receive(y))
    ensures var r := Turn(cfg, p, []).run;
            && r.p.state == p.state
            && (if r.ok then Tame(cfg, r.p.Receive(y)) else CleanFailure(cfg, r.p, y))
            && (p.state == 2 && r.ok ==> ShortLines(cfg, r.p.Receive(y)))
  {
    if p.state == 2 {
      StopTameHeaders(cfg, p, y);
    } else if p.state == 3 && |cfg.Delimiter()| <= |p.live| {
      StopShort(cfg, p);
      StopTameBody(cfg, p, y);
    } else if p.state != 1 {
      StopSame(cfg, p);
    }
  }

  /** Every prefix of a tame text leaves a place where the stream may be cut, or fails cleanly. */
  lemma {:induction false} TamePrefix(cfg: Config, p: Parser, y: string)
    requires Willing(cfg) && 1 <= p.state <= 4 && Tame(cfg, p.Receive(y))
    ensures var r := Call(cfg, p);
            if r.ok then MayCut(cfg, p, y) && Tame(cfg, r.p.Receive(y)) else CleanFailure(cfg, r.p, y)
    decreases |p.live|, if p.state == 1 then 1 else 0
  {
    if p.live == "" {
    } else {
      match Turn(cfg, p, [])
      case Stop(_) =>
        StopTame(cfg, p, y);
        CallTurn(cfg, p);
      case Next(q, l) =>
        if Closing(p, Next(q, l)) {
          CloseExtend(cfg, p, y);
          TurnExtend(cfg, p, y);
          TameNext(cfg, p.Receive(y));
        } else {
          NextExtend(cfg, p, y, q, l);
          TameNext(cfg, p.Receive(y));
          TamePrefix(cfg, q, y);
        }
    }
  }

  lemma {:induction false} TameCuts(cfg: Config, p: Parser, chunks: seq<string>)
    requires Willing(cfg) && 1 <= p.state <= 4 && Tame(cfg, p.Receive(Concat(chunks)))
    ensures CutsAllowed(cfg, p, chunks)
    decreases |chunks|
  {
    if |chunks| <= 1 {
    } else {
      var q, y := p.Receive(chunks[0]), Concat(chunks[1..]);
      assert q.Receive(y) == p.Receive(Concat(chunks)) by { Assoc(p.live, chunks[0], y); }
      TamePrefix(cfg, q, y);
      if Call(cfg, q).ok { TameCuts(cfg, Call(cfg, q).p, chunks[1..]); }
    }
  }

  /**
   Chunking independence over a whole run: a tame text may be cut anywhere, any number of times, whether it is
   accepted or not.
   */
  lemma FeedJoined(cfg: Config, p: Parser, chunks: seq<string>)
    requires Willing(cfg) && 1 <= p.state <= 4 && chunks != [] && Tame(cfg, p.Receive(Concat(chunks)))
    ensures SameRun(Feed(cfg, p, chunks), Unfed(cfg, p, chunks), Call(cfg, p.Receive(Concat(chunks))))
    ensures Call(cfg, p.Receive(Concat(chunks))).ok ==>
              Feed(cfg, p, chunks).p == Call(cfg, p.Receive(Concat(chunks))).p
  {
    TameCuts(cfg, p, chunks);
    FeedExactly(cfg, p, chunks);
    if Feed(cfg, p, chunks).ok {
      AllFed(cfg, p, chunks);
      NoneAround(Feed(cfg, p, chunks).p.live);
    }
  }

  lemma {:induction false} AllFed(cfg: Config, p: Parser, chunks: seq<string>)
    requires Willing(cfg) && 1 <= p.state <= 4 && Feed(cfg, p, chunks).ok
    ensures Unfed(cfg, p, chunks) == ""
    decreases |chunks|
  {
    if chunks == [] {
    } else {
      AllFed(cfg, Call(cfg, p.Receive(chunks[0])).p, chunks[1..]);
    }
  }
}
