/** Which texts the form-data parser accepts as a whole message, and what it makes of them. */
module MultipartAccepted {
  import opened Options
  import opened Substring
  import opened Multipart
  import opened MultipartChunking
  import opened MultipartFeed
  import opened MultipartRuns
  import opened MultipartRoundTrip

  // ----- messages

  /** One part as it stands in a message: its header lines and its body. */
  datatype Entry = Entry(lines: seq<string>, body: string)

  function BlockText(lines: seq<string>, rest: string): string {
    if lines == [] then CRLF + rest else Line(lines[0], BlockText(lines[1..], rest))
  }

  function EntryText(cfg: Config, e: Entry, rest: string): string {
    BlockText(e.lines, e.body + cfg.Delimiter() + rest)
  }

  function MessageText(cfg: Config, entries: seq<Entry>, epilogue: string): string
    requires entries != []
  {
    EntryText(cfg, entries[0],
              if |entries| == 1 then DASH_CRLF + epilogue else CRLF + MessageText(cfg, entries[1..], epilogue))
  }

  /** What the header lines say, if all of them are known. */
  function FileOf(recognise: Recogniser, file: File, lines: seq<string>): Option<File>
    decreases |lines|
  {
    if lines == [] then Some(file)
    else
      match ParseHeader(recognise, file, lines[0])
      case None => None
      case Some(f) => FileOf(recognise, f, lines[1..])
  }

  predicate Unbroken(line: string) {
    line != "" && Find(line + CRLF, CRLF) == |line|
  }

  predicate AllUnbroken(lines: seq<string>) {
    forall line :: line in lines ==> Unbroken(line)
  }

  /** Known header lines, of which only the first is held to the limit, and a body without a delimiter. */
  predicate Readable(cfg: Config, e: Entry) {
    && AllUnbroken(e.lines) && FileOf(cfg.recognise, NO_FILE, e.lines).Some?
    && (e.lines != [] ==> |e.lines[0]| <= 8192)
    && Find(e.body + cfg.Delimiter(), cfg.Delimiter()) == |e.body|
  }

  predicate AllReadable(cfg: Config, entries: seq<Entry>) {
    forall e :: e in entries ==> Readable(cfg, e)
  }

  predicate IsMessage(cfg: Config, t: string, entries: seq<Entry>, epilogue: string) {
    entries != [] && AllReadable(cfg, entries) && t == MessageText(cfg, entries, epilogue)
  }

  ghost predicate Acceptable(cfg: Config, t: string) {
    exists entries, epilogue :: IsMessage(cfg, t, entries, epilogue)
  }

  function PartsOf(cfg: Config, entries: seq<Entry>): (parts: seq<Part>)
    requires AllReadable(cfg, entries)
  {
    if entries == [] then []
    else
      assert entries[0] in entries;
      [Part(FileOf(cfg.recognise, NO_FILE, entries[0].lines).value, entries[0].body)] + PartsOf(cfg, entries[1..])
  }

  // ----- header blocks

  lemma LineSplit(line: string, rest: string)
    requires Unbroken(line)
    ensures var t := Line(line, rest);
            && Find(t, CRLF) == |line| < |t| && t[..|line|] == line && t[|line| + |CRLF|..] == rest
  {
    Assoc(line, CRLF, rest);
    FindStable(line + CRLF, rest, CRLF);
    Joined(line + CRLF, rest);
    Joined(line, CRLF + rest);
  }

  lemma BlankSplit(rest: string)
    ensures Find(CRLF + rest, CRLF) == 0 && (CRLF + rest)[|CRLF|..] == rest
  {
    Joined(CRLF, rest);
    assert OccursAt(CRLF + rest, CRLF, 0);
  }

  lemma LinesCons(lines: seq<string>)
    requires lines != []
    ensures AllUnbroken(lines) <==> Unbroken(lines[0]) && AllUnbroken(lines[1..])
  {
    assert lines == [lines[0]] + lines[1..];
    assert lines[0] in lines;
    assert forall line :: line in lines[1..] ==> line in lines;
  }

  lemma {:induction false} BlockRead(cfg: Config, p: Parser, lines: seq<string>, rest: string)
    requires Willing(cfg) && p.live == BlockText(lines, rest)
    requires AllUnbroken(lines) && FileOf(cfg.recognise, p.file, lines).Some?
    ensures var f := FileOf(cfg.recognise, p.file, lines).value;
            HeaderLoop(cfg, p, []) == Next(Filed(p, f, 3, rest), [Header(f)])
    decreases |lines|
  {
    if lines == [] {
      BlankSplit(rest);
      NoneAround([Header(p.file)]);
    } else {
      var more := BlockText(lines[1..], rest);
      LinesCons(lines);
      LineSplit(lines[0], more);
      BlockRead(cfg, p.(file := ParseHeader(cfg.recognise, p.file, lines[0]).value, live := more), lines[1..], rest);
    }
  }

  lemma {:induction false} BlockFound(cfg: Config, p: Parser) returns (lines: seq<string>)
    requires Willing(cfg) && HeaderLoop(cfg, p, []).Next?
    ensures var q := HeaderLoop(cfg, p, []).p;
            && AllUnbroken(lines) && FileOf(cfg.recognise, p.file, lines) == Some(q.file)
            && p.live == BlockText(lines, q.live)
            && HeaderLoop(cfg, p, []) == Next(Filed(p, q.file, 3, q.live), [Header(q.file)])
    decreases |p.live|
  {
    var pos := Find(p.live, CRLF);
    FindCut(p.live, CRLF);
    if pos == 0 {
      lines := [];
      NoneAround([Header(p.file)]);
      NoneAround(CRLF + p.live[|CRLF|..]);
    } else {
      var line := p.live[..pos];
      var f := ParseHeader(cfg.recognise, p.file, line).value;
      var more := BlockFound(cfg, p.(file := f, live := p.live[pos + |CRLF|..]));
      lines := [line] + more;
      assert lines[1..] == more;
      LinesCons(lines);
    }
  }

  lemma {:induction false} HeaderLoopValid(cfg: Config, p: Parser)
    requires !p.isValid && HeaderLoop(cfg, p, []).Stop?
    ensures !HeaderLoop(cfg, p, []).run.p.isValid
    decreases |p.live|
  {
    var pos := Find(p.live, CRLF);
    if pos == 0 || pos == |p.live| {
    } else {
      match ParseHeader(cfg.recognise, p.file, p.live[..pos])
      case Some(f) => HeaderLoopValid(cfg, p.(file := f, live := p.live[pos + |CRLF|..]));
      case None =>
    }
  }

  lemma FirstLine(lines: seq<string>, rest: string)
    requires AllUnbroken(lines)
    ensures var t := BlockText(lines, rest);
            t != "" && Find(t, CRLF) == if lines == [] then 0 else |lines[0]|
  {
    if lines == [] {
      BlankSplit(rest);
    } else {
      LinesCons(lines);
      LineSplit(lines[0], BlockText(lines[1..], rest));
    }
  }

  // ----- one entry

  /** From state 1 through one entry, to what stands behind its delimiter. */
  lemma EntryRead(cfg: Config, p: Parser, e: Entry, rest: string)
    requires Willing(cfg) && Readable(cfg, e) && p.state == 1 && p.live == EntryText(cfg, e, rest)
    ensures var f := FileOf(cfg.recognise, NO_FILE, e.lines).value;
            var a, b := Call(cfg, p), Call(cfg, Filed(p, f, 4, rest));
            && a.p == b.p && a.ok == b.ok
            && Flat(a.log) == ([Head(f)] + Bytes(e.body)) + Flat(b.log)
  {
    var f := FileOf(cfg.recognise, NO_FILE, e.lines).value;
    var tail := e.body + cfg.Delimiter() + rest;
    var p2, p3 := Filed(p, NO_FILE, 2, p.live), Filed(p, f, 3, tail);
    FirstLine(e.lines, tail);
    StartEntry(cfg, p);
    BlockRead(cfg, p2, e.lines, tail);
    HeadersCall(cfg, p2, f, tail);
    BodyBefore(cfg, p3, e.body, rest);
    Assoc([Head(f)], Bytes(e.body), Flat(Call(cfg, Filed(p, f, 4, rest)).log));
  }

  lemma StartEntry(cfg: Config, p: Parser)
    requires Willing(cfg) && p.state == 1 && p.live != ""
    ensures Call(cfg, p) == Call(cfg, Filed(p, NO_FILE, 2, p.live))
  {
    CallTurn(cfg, p);
    PrependNone(Call(cfg, Filed(p, NO_FILE, 2, p.live)));
  }

  /** A call that ends valid has gone through the header block. */
  lemma HeadersDone(cfg: Config, p: Parser)
    requires Willing(cfg) && p.state == 2 && !p.isValid && Call(cfg, p).p.isValid
    ensures Find(p.live, CRLF) <= HEADER_MAX_LENGTH && HeaderLoop(cfg, p, []).Next?
  {
    if p.live != "" {
      CallTurn(cfg, p);
      if HeaderLoop(cfg, p, []).Stop? { HeaderLoopValid(cfg, p); }
    }
  }

  /** And through the body. */
  lemma BodyOver(cfg: Config, p: Parser)
    requires Willing(cfg) && p.state == 3 && !p.isValid && Call(cfg, p).p.isValid
    ensures Find(p.live, cfg.Delimiter()) < |p.live|
  {
    if Find(p.live, cfg.Delimiter()) == |p.live| { BodyCallState(cfg, p); }
  }

  lemma HeadersFound(cfg: Config, p: Parser) returns (lines: seq<string>, q: Parser)
    requires Willing(cfg) && p.state == 1 && !p.isValid && Call(cfg, p).p.isValid
    ensures AllUnbroken(lines) && FileOf(cfg.recognise, NO_FILE, lines).Some?
    ensures lines != [] ==> |lines[0]| <= HEADER_MAX_LENGTH
    ensures p.live == BlockText(lines, q.live)
    ensures q.state == 3 && !q.isValid && Call(cfg, q).p.isValid
  {
    var p2 := Filed(p, NO_FILE, 2, p.live);
    StartEntry(cfg, p);
    HeadersDone(cfg, p2);
    lines := BlockFound(cfg, p2);
    q := HeaderLoop(cfg, p2, []).p;
    FirstLine(lines, q.live);
    HeadersCall(cfg, p2, q.file, q.live);
  }

  lemma BodyFirst(t: string, d: string) returns (body: string, rest: string)
    requires d != "" && Find(t, d) < |t|
    ensures Find(body + d, d) == |body| && t == body + d + rest
  {
    FindCut(t, d);
    body, rest := t[..Find(t, d)], t[Find(t, d) + |d|..];
    Assoc(body, d, rest);
  }

  lemma EntryFound(cfg: Config, p: Parser) returns (e: Entry, rest: string)
    requires Willing(cfg) && p.state == 1 && !p.isValid && Call(cfg, p).p.isValid
    ensures Readable(cfg, e) && p.live == EntryText(cfg, e, rest)
  {
    var lines, q := HeadersFound(cfg, p);
    BodyOver(cfg, q);
    var body;
    body, rest := BodyFirst(q.live, cfg.Delimiter());
    e := Entry(lines, body);
  }

  lemma {:induction false} BlockLonger(lines: seq<string>, rest: string)
    ensures |BlockText(lines, rest)| > |rest|
    decreases |lines|
  {
    if lines == [] {
    } else {
      BlockLonger(lines[1..], rest);
    }
  }

  // ----- whole messages

  /** A message is accepted, and delivers its parts. */
  lemma {:induction false} MessageRead(cfg: Config, p: Parser, entries: seq<Entry>, epilogue: string)
    requires Willing(cfg) && p.state == 1 && IsMessage(cfg, p.live, entries, epilogue)
    ensures Delivered(Call(cfg, p), PartsOf(cfg, entries))
    decreases |entries|
  {
    var e, more := entries[0], entries[1..];
    assert e in entries && forall x :: x in more ==> x in entries;
    var f := FileOf(cfg.recognise, NO_FILE, e.lines).value;
    var rest := if |entries| == 1 then DASH_CRLF + epilogue else CRLF + MessageText(cfg, more, epilogue);
    var q := Filed(p, f, 4, rest);
    EntryRead(cfg, p, e, rest);
    BoundaryCall(cfg, q);
    if |entries| == 1 {
      Joined(DASH_CRLF, epilogue);
      assert rest[0] == DASH_CRLF[0] != CRLF[0];
      NoneAround([Head(f)] + Bytes(e.body));
      assert Expected(PartsOf(cfg, entries)) == ([Head(f)] + Bytes(e.body)) + Expected([]);
    } else {
      Joined(CRLF, MessageText(cfg, more, epilogue));
      MessageRead(cfg, q.(state := 1, live := MessageText(cfg, more, epilogue)), more, epilogue);
      assert PartsOf(cfg, entries)[1..] == PartsOf(cfg, more);
    }
  }

  /** What was accepted is a message. */
  lemma {:induction false} MessageFound(cfg: Config, p: Parser) returns (entries: seq<Entry>, epilogue: string)
    requires Willing(cfg) && p.state == 1 && !p.isValid && Call(cfg, p).p.isValid
    ensures IsMessage(cfg, p.live, entries, epilogue)
    decreases |p.live|
  {
    var e, rest := EntryFound(cfg, p);
    BlockLonger(e.lines, e.body + cfg.Delimiter() + rest);
    var q := Filed(p, FileOf(cfg.recognise, NO_FILE, e.lines).value, 4, rest);
    EntryRead(cfg, p, e, rest);
    BoundaryCall(cfg, q);
    if CRLF <= rest {
      var more;
      more, epilogue := MessageFound(cfg, q.(state := 1, live := rest[|CRLF|..]));
      entries := [e] + more;
      assert entries[1..] == more && rest == CRLF + rest[|CRLF|..];
    } else {
      entries, epilogue := [e], rest[|DASH_CRLF|..];
      assert rest == DASH_CRLF + epilogue;
    }
  }

  /** Accepted are exactly the messages, with anything behind the closing delimiter. */
  lemma ValidExactly(cfg: Config, p: Parser)
    requires Willing(cfg) && p.state == 1 && !p.isValid
    ensures Call(cfg, p).p.isValid <==> Acceptable(cfg, p.live)
  {
    if Call(cfg, p).p.isValid {
      var entries, epilogue := MessageFound(cfg, p);
    }
    forall entries, epilogue | IsMessage(cfg, p.live, entries, epilogue) ensures Call(cfg, p).p.isValid {
      MessageRead(cfg, p, entries, epilogue);
    }
  }

  /** The same from the initial state: a message behind the first opening delimiter. */
  lemma FreshExactly(cfg: Config, t: string)
    requires Willing(cfg)
    ensures var pos := Find(t, cfg.Opening());
            Call(cfg, FRESH.Receive(t)).p.isValid <==> pos < |t| && Acceptable(cfg, t[pos + |cfg.Opening()|..])
  {
    var p := FRESH.(live := t);
    assert FRESH.Receive(t) == p;
    OpeningDropped(cfg, p);
    if Find(t, cfg.Opening()) < |t| {
      ValidExactly(cfg, BehindOpening(cfg, p));
    }
  }

  /** A text is a message in one way only, as far as its parts go. */
  lemma OneReading(cfg: Config, t: string, a: seq<Entry>, x: string, b: seq<Entry>, y: string)
    requires Willing(cfg) && IsMessage(cfg, t, a, x) && IsMessage(cfg, t, b, y)
    ensures PartsOf(cfg, a) == PartsOf(cfg, b)
  {
    var p := FRESH.(state := 1, live := t);
    MessageRead(cfg, p, a, x);
    MessageRead(cfg, p, b, y);
    GatherExpected([], PartsOf(cfg, a));
    GatherExpected([], PartsOf(cfg, b));
    NoneAround(Expected(PartsOf(cfg, a)));
    NoneAround(PartsOf(cfg, a));
    NoneAround(PartsOf(cfg, b));
  }

  // ----- an opening delimiter that is cut in two and not missed

  /** Behind text with a single dash in it, a delimiter that begins with two is found where it stands. */
  lemma DashFound(u: string, v: string, s: string, rest: string)
    requires '-' !in u && '-' !in v && v != "" && |s| >= 2 && s[0] == s[1] == '-'
    ensures var a := u + ("-" + v);
            Find(a + (s + rest), s) == |a|
  {
    var a := u + ("-" + v);
    var t := a + (s + rest);
    forall k | 0 <= k < |a| ensures !OccursAt(t, s, k) {
      assert k < |u| ==> t[k] == u[k] && u[k] in u;
      assert k > |u| ==> t[k] == v[k - |u| - 1] && v[k - |u| - 1] in v;
      assert k == |u| ==> t[k + 1] == v[0] && v[0] in v;
      OtherPair(t, s, k);
    }
    assert OccursAt(t, s, |a|) by { assert t[|a|..|a| + |s|] == s; }
    FindUnique(t, s, |a|);
  }

  lemma OtherPair(t: string, s: string, k: nat)
    requires |s| >= 2 && k + 1 < |t| && (t[k] != s[0] || t[k + 1] != s[1])
    ensures !OccursAt(t, s, k)
  {
    assert k + |s| <= |t| ==> t[k..k + |s|][0] == t[k] && t[k..k + |s|][1] == t[k + 1];
  }

  lemma UnbrokenLine(line: string)
    requires line != "" && HeaderLine(line)
    ensures Unbroken(line)
  {
    FindPlanted(line, CRLF, "");
    NoneAround(line + CRLF);
  }

  /** A block of type lines, of which the last one counts. */
  lemma TypeLinesCall(cfg: Config, p: Parser, lines: seq<string>, kind: string)
    requires Willing(cfg) && p.state == 1 && p.live == BlockText(lines, "")
    requires AllUnbroken(lines) && (lines != [] ==> |lines[0]| <= HEADER_MAX_LENGTH)
    requires FileOf(cfg.recognise, NO_FILE, lines) == Some(NO_FILE.(contentType := kind))
    ensures var f := NO_FILE.(contentType := kind);
            var r := Call(cfg, p);
            r.p == Filed(p, f, 3, "") && r.ok && Flat(r.log) == [Head(f)]
  {
    var f, p2 := NO_FILE.(contentType := kind), Filed(p, NO_FILE, 2, p.live);
    FirstLine(lines, "");
    StartEntry(cfg, p);
    BlockRead(cfg, p2, lines, "");
    HeadersCall(cfg, p2, f, "");
    assert Call(cfg, Filed(p, f, 3, "")) == Run(Filed(p, f, 3, ""), [], true);
    NoneAround([Head(f)]);
  }

  const TYPE: string := "Content-Type: "

  /** The second text: the end of a delimiter, and a whole one at the end of a type line. */
  function SecondText(cfg: Config, last: string): string {
    "\n" + (TYPE + (cfg.Opening() + last))
  }

  lemma OwnOpening(cfg: Config, last: string)
    ensures var y, n := SecondText(cfg, last), 1 + |TYPE|;
            Find(y, cfg.Opening()) == n < |y| && y[n + |cfg.Opening()|..] == last
  {
    var o := cfg.Opening();
    var y, pre := SecondText(cfg, last), "\nContent" + ("-" + "Type: ");
    assert pre == "\n" + TYPE;
    Assoc("\n", TYPE, o + last);
    DashFound("\nContent", "Type: ", o, last);
    Joined(pre, o + last);
    Joined(o, last);
    CutTwice(y, |pre|, |o|);
  }

  lemma CutThrough(cfg: Config, head: string, last: string)
    requires head == DASH + cfg.boundary + "\r"
    ensures var o, t := cfg.Opening(), head + SecondText(cfg, last);
            && Find(head, o) == |head| && Find(t, o) == 0
            && t[|o|..] == Line(TYPE + (DASH + cfg.boundary), last)
  {
    var o, t, line := cfg.Opening(), head + SecondText(cfg, last), TYPE + (DASH + cfg.boundary);
    NotIn(head, o);
    assert head + "\n" == o;
    Assoc(head, "\n", TYPE + (o + last));
    Joined(o, TYPE + (o + last));
    assert OccursAt(t, o, 0);
    DelimitedLine(cfg, last);
  }

  lemma DelimitedLine(cfg: Config, last: string)
    ensures TYPE + (cfg.Opening() + last) == Line(TYPE + (DASH + cfg.boundary), last)
  {
    Assoc(DASH + cfg.boundary, CRLF, last);
    Assoc(TYPE, DASH + cfg.boundary, CRLF + last);
  }

  predicate GoodType(kind: string) {
    Find(TYPE + kind, CRLF) == |TYPE + kind| < HEADER_MAX_LENGTH && Tight(kind)
  }

  lemma TypeSaid(cfg: Config, kind: string, file: File)
    requires GoodType(kind)
    ensures ParseHeader(cfg.recognise, file, TYPE + kind) == Some(file.(contentType := kind))
    ensures Unbroken(TYPE + kind)
  {
    assert TypeParts(TYPE + kind, "Content-Type:", " ", kind, "");
    TypeRead(cfg.recognise, file, TYPE + kind, "Content-Type:", " ", kind, "");
    UnbrokenLine(TYPE + kind);
  }

  /** One type line or two: the file is the same. */
  lemma TypesSaid(cfg: Config, other: string, kind: string)
    requires GoodType(other) && GoodType(kind)
    ensures var one, two := [TYPE + kind], [TYPE + other, TYPE + kind];
            && AllUnbroken(one) && AllUnbroken(two)
            && FileOf(cfg.recognise, NO_FILE, one) == Some(NO_FILE.(contentType := kind))
            && FileOf(cfg.recognise, NO_FILE, two) == Some(NO_FILE.(contentType := kind))
  {
    var one, two := [TYPE + kind], [TYPE + other, TYPE + kind];
    var f, g := NO_FILE.(contentType := other), NO_FILE.(contentType := kind);
    TypeSaid(cfg, other, NO_FILE);
    TypeSaid(cfg, kind, NO_FILE);
    TypeSaid(cfg, kind, f);
    assert one[1..] == [] && two[1..] == one;
    assert FileOf(cfg.recognise, g, []) == Some(g);
    assert FileOf(cfg.recognise, f, one) == FileOf(cfg.recognise, g, one[1..]);
  }

  /**
   A cut through the opening delimiter that does no harm: the second text holds another one, as the value of a
   content type that a second type line overrides.
   */
  lemma HarmlessStraddle(cfg: Config, kind: string, head: string)
    requires Willing(cfg) && GoodType(DASH + cfg.boundary) && GoodType(kind)
    requires head == DASH + cfg.boundary + "\r"
    ensures var y := SecondText(cfg, Line(TYPE + kind, CRLF));
            Straddled(cfg, head, y) && SameAsJoined(cfg, FRESH.Receive(head), y)
  {
    var last := Line(TYPE + kind, CRLF);
    var p, y := FRESH.Receive(head), SecondText(cfg, last);
    var other := DASH + cfg.boundary;
    assert p.live == head;
    OwnOpening(cfg, last);
    CutThrough(cfg, head, last);
    var a, b := BehindOpening(cfg, p.Receive(y)), BehindOpening(cfg, p.(live := y));
    TypeBlocks(TYPE + other, TYPE + kind);
    SameCalls(cfg, a, b, other, kind);
    CutUnopened(cfg, p, y);
  }

  lemma SameCalls(cfg: Config, a: Parser, b: Parser, other: string, kind: string)
    requires Willing(cfg) && GoodType(other) && GoodType(kind) && a.state == 1 && b == a.(live := b.live)
    requires a.live == BlockText([TYPE + other, TYPE + kind], "") && b.live == BlockText([TYPE + kind], "")
    ensures Follows(Call(cfg, a), [], Call(cfg, b))
  {
    TypesSaid(cfg, other, kind);
    TypeLinesCall(cfg, a, [TYPE + other, TYPE + kind], kind);
    TypeLinesCall(cfg, b, [TYPE + kind], kind);
    NoneAround([Head(NO_FILE.(contentType := kind))]);
  }

  lemma TypeBlocks(first: string, second: string)
    ensures BlockText([second], "") == Line(second, CRLF)
    ensures BlockText([first, second], "") == Line(first, Line(second, CRLF))
  {
    NoneAround(CRLF);
    assert BlockText([], "") == CRLF;
    assert [second][1..] == [] && [first, second][1..] == [second];
  }
}
