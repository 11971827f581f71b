/** Where a caller may cut the stream: exactly when parsing two chunks is parsing their concatenation. */
module MultipartChunking {
  import opened Substring
  import opened Multipart

  ghost predicate Willing(cfg: Config) {
    forall log, e :: cfg.accept(log, e)
  }

  // ----- what the callbacks receive, with neighbouring content merged

  datatype Symbol = Head(file: File) | Byte(c: char)

  function Bytes(data: string): (s: seq<Symbol>)
    ensures |s| == |data|
  {
    seq(|data|, i requires 0 <= i < |data| => Byte(data[i]))
  }

  function Symbols(e: Event): seq<Symbol> {
    match e
    case Header(file) => [Head(file)]
    case Content(data) => Bytes(data)
  }

  /** The log as one stream: each header block, then the bytes of its part however they were cut. */
  function Flat(log: seq<Event>): seq<Symbol> {
    if log == [] then [] else Flat(log[..|log| - 1]) + Symbols(log[|log| - 1])
  }

  lemma {:induction false} FlatConcat(a: seq<Event>, b: seq<Event>)
    ensures Flat(a + b) == Flat(a) + Flat(b)
    decreases |b|
  {
    if b == [] {
      assert a + b == a;
    } else {
      var n := |b| - 1;
      assert b == b[..n] + [b[n]];
      Assoc(a, b[..n], [b[n]]);
      FlatConcat(a, b[..n]);
      FlatSnoc(a + b[..n], b[n]);
      FlatSnoc(b[..n], b[n]);
      Assoc(Flat(a), Flat(b[..n]), Symbols(b[n]));
    }
  }

  lemma FlatSnoc(log: seq<Event>, e: Event)
    ensures Flat(log + [e]) == Flat(log) + Symbols(e)
  {
    assert (log + [e])[..|log|] == log;
  }

  lemma FlatOne(e: Event)
    ensures Flat([e]) == Symbols(e)
  {
    assert [e][..0] == [];
  }

  lemma BytesConcat(a: string, b: string)
    ensures Bytes(a + b) == Bytes(a) + Bytes(b)
  {
  }

  // ----- one call, without what was reported before it

  function Prepend(log: seq<Event>, r: Run): Run { r.(log := log + r.log) }

  function PrependStep(log: seq<Event>, s: Step): Step {
    match s
    case Next(p, l) => Next(p, log + l)
    case Stop(r) => Stop(Prepend(log, r))
  }

  function Call(cfg: Config, p: Parser): (r: Run)
    requires p.state <= 4
    ensures r.p.state <= 4 && (p.state > 0 ==> r.p.state > 0) && |r.p.live| <= |p.live|
  {
    Drain(cfg, p, [])
  }

  lemma {:induction false} HeaderLoopLog(cfg: Config, p: Parser, log: seq<Event>)
    requires Willing(cfg)
    ensures HeaderLoop(cfg, p, log) == PrependStep(log, HeaderLoop(cfg, p, []))
    decreases |p.live|
  {
    var pos := Find(p.live, CRLF);
    if pos == 0 || pos == |p.live| {
    } else {
      match ParseHeader(cfg.recognise, p.file, p.live[..pos])
      case Some(f) => HeaderLoopLog(cfg, p.(file := f, live := p.live[pos + |CRLF|..]), log);
      case None =>
    }
  }

  lemma TurnLog(cfg: Config, p: Parser, log: seq<Event>)
    requires Willing(cfg) && p.state <= 4 && p.live != ""
    ensures Turn(cfg, p, log) == PrependStep(log, Turn(cfg, p, []))
  {
    if p.state == 2 { HeaderLoopLog(cfg, p, log); }
  }

  lemma {:induction false} DrainLog(cfg: Config, p: Parser, log: seq<Event>)
    requires Willing(cfg) && p.state <= 4
    ensures Drain(cfg, p, log) == Prepend(log, Call(cfg, p))
    decreases |p.live|, if p.state == 1 then 1 else 0
  {
    if p.live == "" {
    } else {
      TurnLog(cfg, p, log);
      DrainTurn(cfg, p, log);
      DrainTurn(cfg, p, []);
      var s := Turn(cfg, p, []);
      if s.Next? {
        DrainLog(cfg, s.p, log + s.log);
        DrainLog(cfg, s.p, s.log);
        Assoc(log, s.log, Call(cfg, s.p).log);
      }
    }
  }

  function Continue(cfg: Config, s: Step): Run
    requires s.Next? ==> s.p.state <= 4
  {
    match s
    case Next(q, l) => Prepend(l, Call(cfg, q))
    case Stop(r) => r
  }

  lemma CallTurn(cfg: Config, p: Parser)
    requires Willing(cfg) && p.state <= 4 && p.live != ""
    ensures Call(cfg, p) == Continue(cfg, Turn(cfg, p, []))
  {
    match Turn(cfg, p, [])
    case Next(q, l) => DrainLog(cfg, q, l);
    case Stop(r) =>
  }

  // ----- how a call ends

  /**
   `Late`: inside a header block after at least one of its lines was consumed in this call.
   `Closed`: the closing delimiter was read in this call. `Waiting`: everything else.
   */
  datatype Halt = Waiting | Late | Closed

  function HaltOf(cfg: Config, p: Parser): Halt
    requires p.state <= 4
    decreases |p.live|, if p.state == 1 then 1 else 0
  {
    if p.live == "" then Waiting
    else
      match Turn(cfg, p, [])
      case Next(q, _) => if p.state == 4 && q.state == 4 then Closed else HaltOf(cfg, q)
      case Stop(r) => if p.state == 2 && r.p.live != p.live then Late else Waiting
  }

  /** The rest of a call that had `y` in its buffer all along, from the point where the call without it ended. */
  function Resume(cfg: Config, halt: Halt, p: Parser, y: string): Run
    requires p.state <= 4
  {
    match halt
    case Waiting => Call(cfg, p.Receive(y))
    case Late => Continue(cfg, HeaderLoop(cfg, p.Receive(y), []))
    case Closed => Run(p, [], true)
  }

  /** `a` is `b` after `log` was reported, up to the cutting of content. */
  ghost predicate Follows(a: Run, log: seq<Event>, b: Run) {
    a.p == b.p && a.ok == b.ok && Flat(a.log) == Flat(log) + Flat(b.log)
  }

  lemma FollowsPrepend(a: Run, log: seq<Event>, b: Run, l: seq<Event>)
    requires Follows(a, log, b)
    ensures Follows(Prepend(l, a), l + log, b)
  {
    FlatConcat(l, a.log);
    FlatConcat(l, log);
    Assoc(Flat(l), Flat(log), Flat(b.log));
  }

  /** A header line that is complete is the same line, with the same text behind it, on a longer buffer. */
  lemma LineExtend(live: string, y: string)
    requires Find(live, CRLF) < |live|
    ensures var pos := Find(live, CRLF);
            && Find(live + y, CRLF) == pos && (live + y)[..pos] == live[..pos]
            && (live + y)[pos + |CRLF|..] == live[pos + |CRLF|..] + y
  {
    var pos := Find(live, CRLF);
    FindStable(live, y, CRLF);
    Extended(live, y, pos);
    Extended(live, y, pos + |CRLF|);
  }

  lemma {:induction false} HeaderLoopExtend(cfg: Config, p: Parser, y: string)
    ensures var s, e := HeaderLoop(cfg, p, []), HeaderLoop(cfg, p.Receive(y), []);
            match s
            case Next(q, l) => e == Next(q.Receive(y), l)
            case Stop(r) => if r.ok then r.log == [] && r.p.state == p.state && e == HeaderLoop(cfg, r.p.Receive(y), [])
                            else e == Stop(r.(p := r.p.Receive(y)))
    decreases |p.live|
  {
    var pos := Find(p.live, CRLF);
    if pos == |p.live| {
    } else {
      LineExtend(p.live, y);
      if pos > 0 {
        match ParseHeader(cfg.recognise, p.file, p.live[..pos])
        case Some(f) => HeaderLoopExtend(cfg, p.(file := f, live := p.live[pos + |CRLF|..]), y);
        case None =>
      }
    }
  }

  // ----- the body state

  /** How many bytes of content a call that starts in the body state delivers before it leaves it or stops. */
  function Deliverable(t: string, d: string): (n: nat)
    requires d != "" && |d| <= |t|
    ensures n <= |t|
  {
    if Find(t, d) < |t| then Find(t, d) else |t| - |d|
  }

  /** What is left behind the delimiter, or the held-back tail. */
  function Remainder(t: string, d: string): string
    requires d != "" && |d| <= |t|
  {
    if Find(t, d) < |t| then t[Find(t, d) + |d|..] else t[|t| - |d|..]
  }

  function AfterBody(cfg: Config, p: Parser): Run
    requires p.state == 3 && |cfg.Delimiter()| <= |p.live|
  {
    var d := cfg.Delimiter();
    var q := p.(live := Remainder(p.live, d));
    if Find(p.live, d) < |p.live| then Call(cfg, q.(state := 4)) else Run(q, [], true)
  }

  /** Cutting off a prefix in which no delimiter starts takes exactly that prefix off what is delivered. */
  lemma BodyShift(t: string, len: nat, d: string)
    requires d != "" && len + |d| <= |t|
    requires NoneBefore(t, d, len)
    ensures var u := t[len..];
            && (Find(t, d) < |t| <==> Find(u, d) < |u|)
            && Remainder(t, d) == Remainder(u, d)
            && t[..Deliverable(t, d)] == t[..len] + u[..Deliverable(u, d)]
  {
    var u := t[len..];
    FindShift(t, len, d);
    CutTwice(t, len, Deliverable(u, d));
    CutTwice(t, len, |u| - |Remainder(u, d)|);
  }

  lemma BodyTurn(cfg: Config, p: Parser)
    requires Willing(cfg) && p.state == 3 && |cfg.Delimiter()| <= |p.live|
    ensures var n := Deliverable(p.live, cfg.Delimiter());
            var log := if n == 0 && Find(p.live, cfg.Delimiter()) == |p.live| then [] else [Content(p.live[..n])];
            Call(cfg, p) == Prepend(log, AfterBody(cfg, p))
  {
    CallTurn(cfg, p);
  }

  lemma BodyCall(cfg: Config, p: Parser)
    requires Willing(cfg) && p.state == 3 && |cfg.Delimiter()| <= |p.live|
    ensures var r, a := Call(cfg, p), AfterBody(cfg, p);
            && r.p == a.p && r.ok == a.ok
            && Flat(r.log) == Bytes(p.live[..Deliverable(p.live, cfg.Delimiter())]) + Flat(a.log)
  {
    BodyTurn(cfg, p);
    var e := Content(p.live[..Deliverable(p.live, cfg.Delimiter())]);
    FlatOne(e);
    FlatConcat([e], AfterBody(cfg, p).log);
  }

  /** Without a delimiter in `t`, the held-back tail decides everything that follows it. */
  lemma Pause(t: string, y: string, d: string)
    requires d != "" && |d| <= |t| == Find(t, d)
    ensures var len := |t| - |d|;
            var u := t[len..] + y;
            && (Find(t + y, d) < |t + y| <==> Find(u, d) < |u|)
            && Remainder(t + y, d) == Remainder(u, d)
            && (t + y)[..Deliverable(t + y, d)] == t[..len] + u[..Deliverable(u, d)]
  {
    var len := |t| - |d|;
    assert (t + y)[len..] == t[len..] + y && (t + y)[..len] == t[..len];
    FindFirst(t, d);
    forall k | 0 <= k < len ensures !OccursAt(t + y, d, k) {
      OccursInPrefix(t, y, d, k);
    }
    BodyShift(t + y, len, d);
  }

  /** A call that finds no delimiter delivers all but the tail, and the tail carries the search on. */
  lemma BodyPause(cfg: Config, p: Parser, y: string)
    requires Willing(cfg) && p.state == 3 && |cfg.Delimiter()| <= |p.live| == Find(p.live, cfg.Delimiter())
    ensures var len := |p.live| - |cfg.Delimiter()|;
            var q := p.(live := p.live[len..]);
            var u := q.live + y;
            && Call(cfg, p).p == q && Call(cfg, p).ok && Flat(Call(cfg, p).log) == Bytes(p.live[..len])
            && AfterBody(cfg, p.Receive(y)) == AfterBody(cfg, q.Receive(y))
            && (p.live + y)[..Deliverable(p.live + y, cfg.Delimiter())]
            == p.live[..len] + u[..Deliverable(u, cfg.Delimiter())]
  {
    BodyCall(cfg, p);
    Pause(p.live, y, cfg.Delimiter());
  }

  /** Content already delivered for `p` is the front part of what the longer buffer delivers at once. */
  lemma BodyExtend(cfg: Config, p: Parser, y: string)
    requires Willing(cfg) && p.state == 3 && |cfg.Delimiter()| <= |p.live| == Find(p.live, cfg.Delimiter())
    ensures var r := Call(cfg, p);
            r.p.state == 3 && Follows(Call(cfg, p.Receive(y)), r.log, Call(cfg, r.p.Receive(y)))
  {
    var d := cfg.Delimiter();
    var len := |p.live| - |d|;
    var q := p.(live := p.live[len..]);
    var u := q.live + y;
    BodyPause(cfg, p, y);
    BodyCall(cfg, p.Receive(y));
    BodyCall(cfg, q.Receive(y));
    BytesConcat(p.live[..len], u[..Deliverable(u, d)]);
    Assoc(Bytes(p.live[..len]), Bytes(u[..Deliverable(u, d)]), Flat(AfterBody(cfg, q.Receive(y)).log));
  }

  // ----- a call with more text behind it

  predicate Closing(p: Parser, s: Step) { p.state == 4 && s.Next? && s.p.state == 4 }

  /** A turn that goes on does the same on a longer buffer, except that closing drops what follows. */
  lemma TurnExtend(cfg: Config, p: Parser, y: string)
    requires Willing(cfg) && 1 <= p.state <= 4 && p.live != ""
    requires Turn(cfg, p, []).Next?
    ensures var s := Turn(cfg, p, []);
            Turn(cfg, p.Receive(y), []) == if Closing(p, s) then s else Next(s.p.Receive(y), s.log)
  {
    if p.state == 2 {
      HeaderLoopExtend(cfg, p, y);
      if Find(p.live, CRLF) < |p.live| { FindStable(p.live, y, CRLF); }
    } else if p.state == 3 {
      var d := cfg.Delimiter();
      FindStable(p.live, y, d);
      var pos := Find(p.live, d);
      Extended(p.live, y, pos);
      Extended(p.live, y, pos + |d|);
    } else if p.state == 4 {
      Extended(p.live, y, |CRLF|);
      if |p.live| >= |DASH_CRLF| { Extended(p.live, y, |DASH_CRLF|); }
    }
  }

  /** A turn that stops: the longer buffer goes on from there, inside the header loop when that is where it stopped. */
  lemma StopExtend(cfg: Config, p: Parser, y: string)
    requires Willing(cfg) && 1 <= p.state <= 4 && p.live != ""
    requires Turn(cfg, p, []).Stop? && Turn(cfg, p, []).run.ok
    ensures var r := Turn(cfg, p, []).run;
            r.p.state == p.state && Follows(Call(cfg, p.Receive(y)), r.log, Resume(cfg, HaltOf(cfg, p), r.p, y))
  {
    CallTurn(cfg, p);
    var d := cfg.Delimiter();
    if p.state == 3 && |d| <= |p.live| {
      BodyExtend(cfg, p, y);
    } else if p.state == 2 && Turn(cfg, p, []).run.p.live != p.live {
      HeaderLoopExtend(cfg, p, y);
      FindStable(p.live, y, CRLF);
      CallTurn(cfg, p.Receive(y));
    }
  }

  lemma CloseExtend(cfg: Config, p: Parser, y: string)
    requires Willing(cfg) && p.state == 4 && p.live != "" && Closing(p, Turn(cfg, p, []))
    ensures var r := Call(cfg, p);
            && r == Run(p.(isValid := true, live := ""), [], true)
            && Call(cfg, p.Receive(y)) == r && HaltOf(cfg, p) == Closed
  {
    TurnExtend(cfg, p, y);
    CallTurn(cfg, p);
    CallTurn(cfg, p.Receive(y));
  }

  lemma NextExtend(cfg: Config, p: Parser, y: string, q: Parser, l: seq<Event>)
    requires Willing(cfg) && 1 <= p.state <= 4 && p.live != ""
    requires Turn(cfg, p, []) == Next(q, l) && !Closing(p, Next(q, l))
    ensures Turn(cfg, p.Receive(y), []) == Next(q.Receive(y), l)
    ensures HaltOf(cfg, p) == HaltOf(cfg, q)
    ensures Call(cfg, p) == Prepend(l, Call(cfg, q))
    ensures Call(cfg, p.Receive(y)) == Prepend(l, Call(cfg, q.Receive(y)))
  {
    TurnExtend(cfg, p, y);
    CallTurn(cfg, p);
    CallTurn(cfg, p.Receive(y));
  }

  /** The joined text continues where the first chunk's call ended. */
  lemma {:induction false} Extend(cfg: Config, p: Parser, y: string)
    requires Willing(cfg) && 1 <= p.state <= 4 && Call(cfg, p).ok
    ensures var r := Call(cfg, p);
            Follows(Call(cfg, p.Receive(y)), r.log, Resume(cfg, HaltOf(cfg, p), r.p, y))
    decreases |p.live|, if p.state == 1 then 1 else 0
  {
    if p.live == "" {
    } else {
      match Turn(cfg, p, [])
      case Stop(_) =>
        CallTurn(cfg, p);
        StopExtend(cfg, p, y);
      case Next(q, l) =>
        if Closing(p, Next(q, l)) {
          CloseExtend(cfg, p, y);
        } else {
          NextExtend(cfg, p, y, q, l);
          Extend(cfg, q, y);
          FollowsPrepend(Call(cfg, q.Receive(y)), Call(cfg, q).log, Resume(cfg, HaltOf(cfg, q), Call(cfg, q).p, y), l);
        }
    }
  }

  // ----- exactly where the stream may be cut

  /** Parsing `p`'s text and then `y` has the effect of parsing both at once. */
  ghost predicate SameAsJoined(cfg: Config, p: Parser, y: string)
    requires p.state <= 4
  {
    var r := Call(cfg, p);
    Follows(Call(cfg, p.Receive(y)), r.log, Call(cfg, r.p.Receive(y)))
  }

  /**
   What a caller can look at before the second call: nothing but another closing delimiter may follow
   the closing one, and a header line resumed behind an earlier line must end within the limit (a longer
   one is refused either way only when it is complete, unknown, and no closing delimiter was seen).
   */
  predicate MayCut(cfg: Config, p: Parser, y: string)
    requires p.state <= 4
  {
    var q := Call(cfg, p).p;
    match HaltOf(cfg, p)
    case Waiting => true
    case Closed => y == "" || DASH_CRLF <= y
    case Late =>
      var pos := Find(q.live + y, CRLF);
      || pos <= HEADER_MAX_LENGTH
      || (pos < |q.live + y| && ParseHeader(cfg.recognise, q.file, (q.live + y)[..pos]).None? && !q.isValid)
  }

  lemma {:induction false} HaltState(cfg: Config, p: Parser)
    requires Willing(cfg) && 1 <= p.state <= 4 && Call(cfg, p).ok
    ensures var q := Call(cfg, p).p;
            && (HaltOf(cfg, p) == Late ==> q.state == 2)
            && (HaltOf(cfg, p) == Closed ==> q == Parser(4, true, q.file, ""))
    decreases |p.live|, if p.state == 1 then 1 else 0
  {
    if p.live == "" {
    } else {
      match Turn(cfg, p, [])
      case Stop(_) =>
        CallTurn(cfg, p);
        StopExtend(cfg, p, "");
      case Next(q, l) =>
        if Closing(p, Next(q, l)) {
          CloseExtend(cfg, p, "");
        } else {
          NextExtend(cfg, p, "", q, l);
          HaltState(cfg, q);
        }
    }
  }

  /** Outside a body, a header is reported before any content; without one the parser is still outside a body. */
  lemma {:induction false} HeaderFirst(cfg: Config, p: Parser)
    requires Willing(cfg) && p.state in {1, 2, 4}
    ensures var r := Call(cfg, p);
            if Flat(r.log) == [] then r.p.state in {1, 2, 4} && (p.state != 4 ==> r.p.state != 4)
               else Flat(r.log)[0].Head?
    decreases |p.live|, if p.state == 1 then 1 else 0
  {
    if p.live == "" {
    } else {
      CallTurn(cfg, p);
      if p.state == 1 {
        HeaderFirst(cfg, p.(file := NO_FILE, state := 2));
      } else if p.state == 2 && Find(p.live, CRLF) <= HEADER_MAX_LENGTH {
        HeaderLoopReports(cfg, p);
        match HeaderLoop(cfg, p, [])
        case Stop(_) =>
        case Next(q, l) =>
          FlatConcat(l, Call(cfg, q).log);
          FlatOne(l[0]);
      } else if p.state == 4 && CRLF <= p.live {
        HeaderFirst(cfg, p.(live := p.live[|CRLF|..], state := 1));
      }
    }
  }

  lemma {:induction false} HeaderLoopReports(cfg: Config, p: Parser)
    requires Willing(cfg)
    ensures match HeaderLoop(cfg, p, [])
            case Next(q, l) => exists f :: l == [Header(f)]
            case Stop(r) => r.p.state == p.state && r.log == []
    decreases |p.live|
  {
    var pos := Find(p.live, CRLF);
    if 0 < pos < |p.live| {
      match ParseHeader(cfg.recognise, p.file, p.live[..pos])
      case Some(f) => HeaderLoopReports(cfg, p.(file := f, live := p.live[pos + |CRLF|..]));
      case None =>
    } else if pos < |p.live| {
      assert [] + [Header(p.file)] == [Header(p.file)];
    }
  }

  /** After the end of the stream, only silence or a second closing delimiter leaves everything as it was. */
  lemma AfterClose(cfg: Config, p: Parser, y: string)
    requires Willing(cfg) && p == Parser(4, true, p.file, "")
    ensures var b := Call(cfg, p.Receive(y));
            (b.p == p && b.ok && Flat(b.log) == []) <==> (y == "" || DASH_CRLF <= y)
  {
    var q := p.Receive(y);
    assert q.live == y;
    if y != "" {
      CallTurn(cfg, q);
      if CRLF <= y {
        HeaderFirst(cfg, q.(live := y[|CRLF|..], state := 1));
        assert y[0] == CRLF[0] != DASH_CRLF[0];
      }
    }
  }

  /** A resumed header line over the limit is refused with nothing consumed; the uncut text never looked. */
  lemma LateLine(cfg: Config, q: Parser, y: string)
    requires Willing(cfg) && q.state == 2
    ensures var live := q.live + y;
            var pos := Find(live, CRLF);
            var b, c := Call(cfg, q.Receive(y)), Resume(cfg, Late, q, y);
            (b.p == c.p && b.ok == c.ok && Flat(b.log) == Flat(c.log)) <==>
            || pos <= HEADER_MAX_LENGTH
            || (pos < |live| && ParseHeader(cfg.recognise, q.file, live[..pos]).None? && !q.isValid)
  {
    if q.live + y != "" {
      CallTurn(cfg, q.Receive(y));
    }
  }

  lemma Cancel<T>(x: seq<T>, y: seq<T>, z: seq<T>)
    ensures x + y == x + z <==> y == z
  {
    assert (x + y)[|x|..] == y && (x + z)[|x|..] == z;
  }

  /** Chunking independence, with its exact condition. */
  lemma CutExactly(cfg: Config, p: Parser, y: string)
    requires Willing(cfg) && 1 <= p.state <= 4 && Call(cfg, p).ok
    ensures SameAsJoined(cfg, p, y) <==> MayCut(cfg, p, y)
  {
    var r := Call(cfg, p);
    Extend(cfg, p, y);
    var b, c := Call(cfg, r.p.Receive(y)), Resume(cfg, HaltOf(cfg, p), r.p, y);
    HaltState(cfg, p);
    Cancel(Flat(r.log), Flat(b.log), Flat(c.log));
    match HaltOf(cfg, p)
    case Waiting =>
    case Closed => AfterClose(cfg, r.p, y);
    case Late => LateLine(cfg, r.p, y);
  }
}
