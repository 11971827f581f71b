/** Rendering form data and parsing it back, in whatever chunks it arrives. */
module MultipartRoundTrip {
  import opened Options
  import opened Substring
  import opened Multipart
  import opened MultipartChunking
  import opened MultipartFeed
  import opened MultipartRuns

  datatype Part = Part(file: File, body: string)

  /** A part, and how its type line is written: "Content-Type:" in some spelling, and the blanks around the type. */
  datatype Draft = Draft(part: Part, tag: string, left: string, right: string)

  function PartsIn(drafts: seq<Draft>): seq<Part> {
    if drafts == [] then [] else [drafts[0].part] + PartsIn(drafts[1..])
  }

  // ----- rendering, after sections 4.2 to 4.4 of RFC 7578

  function DispositionLine(f: File): string {
    "Content-Disposition: form-data; name=\"" + f.name + "\""
    + (if f.filename == "" then "" else "; filename=\"" + f.filename + "\"")
  }

  function TypeLine(d: Draft): string { d.tag + (d.left + d.part.file.contentType + d.right) }

  function Line(line: string, rest: string): string { line + ("\r\n" + rest) }

  function HeaderBlock(d: Draft): string {
    Line(DispositionLine(d.part.file), TypeBlock(d))
  }

  function TypeBlock(d: Draft): string {
    if d.part.file.contentType == "" then "\r\n" else Line(TypeLine(d), "\r\n")
  }

  function OpeningText(boundary: string): string { "--" + boundary + "\r\n" }

  function DelimiterText(boundary: string): string { "\r\n--" + boundary }

  lemma DelimiterTexts(cfg: Config)
    ensures cfg.Opening() == OpeningText(cfg.boundary) && cfg.Delimiter() == DelimiterText(cfg.boundary)
  {
    assert CRLF + DASH == "\r\n--";
  }

  /** Everything behind the opening delimiter. */
  function Entries(boundary: string, drafts: seq<Draft>): string
    requires drafts != []
  {
    HeaderBlock(drafts[0]) + (drafts[0].part.body + DelimiterText(boundary)
      + (if |drafts| == 1 then "--\r\n" else "\r\n" + Entries(boundary, drafts[1..])))
  }

  // ----- what makes a part renderable

  ghost predicate HeaderLine(line: string) {
    Find(line, "\r\n") == |line| < 8192
  }

  ghost predicate Renderable(cfg: Config, d: Draft) {
    var f := d.part.file;
    && HeaderLine(DispositionLine(f)) && cfg.recognise(DispositionLine(f)) == Some((f.name, f.filename))
    && (f.contentType != "" ==>
          HeaderLine(TypeLine(d)) && TypeParts(TypeLine(d), d.tag, d.left, f.contentType, d.right))
    && Find(d.part.body, DelimiterText(cfg.boundary)) == |d.part.body|
  }

  ghost predicate Message(cfg: Config, drafts: seq<Draft>) {
    drafts != [] && '\r' !in cfg.boundary && forall d :: d in drafts ==> Renderable(cfg, d)
  }

  // ----- what a consumer of the callbacks gathers

  function Expected(parts: seq<Part>): seq<Symbol> {
    if parts == [] then [] else [Head(parts[0].file)] + Bytes(parts[0].body) + Expected(parts[1..])
  }

  function Gather(f: seq<Symbol>): seq<Part> {
    if f == [] then []
    else
      var parts := Gather(f[..|f| - 1]);
      match f[|f| - 1]
      case Head(file) => parts + [Part(file, "")]
      case Byte(c) =>
        if parts == [] then [] else parts[..|parts| - 1] + [parts[|parts| - 1].(body := parts[|parts| - 1].body + [c])]
  }

  /** The last part with more content. */
  function Grown(parts: seq<Part>, data: string): seq<Part>
    requires parts != []
  {
    var last := parts[|parts| - 1];
    parts[..|parts| - 1] + [last.(body := last.body + data)]
  }

  lemma GrownTwice(parts: seq<Part>, a: string, b: string)
    requires parts != []
    ensures Grown(parts, a) != [] && Grown(Grown(parts, a), b) == Grown(parts, a + b)
  {
    Assoc(parts[|parts| - 1].body, a, b);
  }

  lemma GrownNone(parts: seq<Part>)
    requires parts != []
    ensures Grown(parts, "") == parts
  {
    NoneAround(parts[|parts| - 1].body);
  }

  lemma GatherByte(f: seq<Symbol>, c: char)
    requires Gather(f) != []
    ensures Gather(f + [Byte(c)]) == Grown(Gather(f), [c])
  {
    assert (f + [Byte(c)])[..|f|] == f;
  }

  lemma {:induction false} GatherBytes(f: seq<Symbol>, data: string)
    requires Gather(f) != []
    ensures Gather(f + Bytes(data)) == Grown(Gather(f), data)
    decreases |data|
  {
    if data == "" {
      NoneAround(f);
      GrownNone(Gather(f));
    } else {
      var n := |data| - 1;
      var front, g := data[..n], f + Bytes(data[..n]);
      assert data == front + [data[n]];
      GrownTwice(Gather(f), front, [data[n]]);
      GatherBytes(f, front);
      GatherByte(g, data[n]);
      BytesConcat(front, [data[n]]);
      Assoc(f, Bytes(front), [Byte(data[n])]);
      assert Bytes([data[n]]) == [Byte(data[n])];
    }
  }

  lemma {:induction false} GatherExpected(f: seq<Symbol>, parts: seq<Part>)
    ensures Gather(f + Expected(parts)) == Gather(f) + parts
    decreases |parts|
  {
    if parts == [] {
      assert f + Expected(parts) == f;
    } else {
      var part, rest := parts[0], parts[1..];
      var shown := [Head(part.file)] + Bytes(part.body);
      GatherPart(f, part);
      GatherExpected(f + shown, rest);
      Assoc(f, shown, Expected(rest));
      Assoc(Gather(f), [part], rest);
      assert [part] + rest == parts;
    }
  }

  lemma GatherPart(f: seq<Symbol>, part: Part)
    ensures Gather(f + ([Head(part.file)] + Bytes(part.body))) == Gather(f) + [part]
  {
    var g := f + [Head(part.file)];
    GatherHead(f, part.file);
    GatherBytes(g, part.body);
    Assoc(f, [Head(part.file)], Bytes(part.body));
    assert Gather(g)[..|Gather(g)| - 1] == Gather(f);
    assert "" + part.body == part.body;
  }

  lemma GatherHead(f: seq<Symbol>, file: File)
    ensures Gather(f + [Head(file)]) == Gather(f) + [Part(file, "")]
  {
    assert (f + [Head(file)])[..|f|] == f;
  }

  // ----- the header block of one part

  lemma LineIn(line: string, rest: string, more: string)
    ensures Line(line, rest) + more == Line(line, rest + more)
  {
    Assoc(line, CRLF + rest, more);
    Assoc(CRLF, rest, more);
  }

  lemma LineStep(cfg: Config, p: Parser, line: string, rest: string, f: File)
    requires p.live == Line(line, rest) && line != "" && HeaderLine(line)
    requires ParseHeader(cfg.recognise, p.file, line) == Some(f)
    ensures var q := p.(file := f, live := rest);
            HeaderLoop(cfg, p, []) == HeaderLoop(cfg, q, []) && ShortLines(cfg, p) == ShortLines(cfg, q)
  {
    Assoc(line, CRLF, rest);
    FindPlanted(line, CRLF, rest);
    assert p.live[..|line|] == line && p.live[|line| + |CRLF|..] == rest;
  }

  lemma BlankStep(cfg: Config, p: Parser, rest: string)
    requires Willing(cfg) && p.live == CRLF + rest
    ensures HeaderLoop(cfg, p, []) == Next(p.(live := rest, state := 3), [Header(p.file)]) && ShortLines(cfg, p)
  {
    assert p.live[..2] == CRLF && p.live[2..] == rest;
    assert OccursAt(p.live, CRLF, 0);
    assert [] + [Header(p.file)] == [Header(p.file)];
  }

  lemma DispositionHeader(cfg: Config, f: File, g: File)
    requires cfg.recognise(DispositionLine(f)) == Some((f.name, f.filename))
    ensures ParseHeader(cfg.recognise, g, DispositionLine(f)) == Some(g.(name := f.name, filename := f.filename))
  {
    var line := DispositionLine(f);
    assert line[8] == 'D' && CONTENT_TYPE[8] == 't';
    assert Lower(line[8]) != Lower(CONTENT_TYPE[8]);
  }

  lemma TypeStep(cfg: Config, p: Parser, d: Draft, rest: string)
    requires Willing(cfg) && Renderable(cfg, d)
    requires p.live == TypeBlock(d) + rest && p.file == d.part.file.(contentType := "")
    ensures HeaderLoop(cfg, p, []) == Next(p.(file := d.part.file, live := rest, state := 3), [Header(d.part.file)])
    ensures ShortLines(cfg, p)
  {
    var f := d.part.file;
    if f.contentType == "" {
      BlankStep(cfg, p, rest);
    } else {
      LineIn(TypeLine(d), CRLF, rest);
      TypeRead(cfg.recognise, p.file, TypeLine(d), d.tag, d.left, f.contentType, d.right);
      LineStep(cfg, p, TypeLine(d), CRLF + rest, f);
      BlankStep(cfg, p.(file := f, live := CRLF + rest), rest);
    }
  }

  lemma BlockStep(cfg: Config, p: Parser, d: Draft, rest: string)
    requires Willing(cfg) && Renderable(cfg, d) && p.file == NO_FILE && p.live == HeaderBlock(d) + rest
    ensures HeaderLoop(cfg, p, []) == Next(p.(file := d.part.file, live := rest, state := 3), [Header(d.part.file)])
    ensures ShortLines(cfg, p)
  {
    var f := d.part.file;
    var g := f.(contentType := "");
    LineIn(DispositionLine(f), TypeBlock(d), rest);
    DispositionHeader(cfg, f, NO_FILE);
    LineStep(cfg, p, DispositionLine(f), TypeBlock(d) + rest, g);
    TypeStep(cfg, p.(file := g, live := TypeBlock(d) + rest), d, rest);
  }

  // ----- one part, all parts, the whole message

  function Filed(p: Parser, file: File, state: nat, live: string): Parser {
    p.(file := file, state := state, live := live)
  }

  /** From the entry state through one rendered part. */
  lemma PartStep(cfg: Config, p: Parser, d: Draft, rest: string)
    requires Willing(cfg) && Renderable(cfg, d) && '\r' !in cfg.boundary
    requires p.state == 1 && p.live == HeaderBlock(d) + (d.part.body + DelimiterText(cfg.boundary) + rest)
    ensures var a, b := Call(cfg, p), Call(cfg, Filed(p, d.part.file, 4, rest));
            && a.p == b.p && a.ok == b.ok
            && Flat(a.log) == [Head(d.part.file)] + Bytes(d.part.body) + Flat(b.log)
            && Tame(cfg, p) == Tame(cfg, Filed(p, d.part.file, 4, rest))
  {
    DelimiterTexts(cfg);
    var f := d.part.file;
    var tail := d.part.body + cfg.Delimiter() + rest;
    var p2, p3 := Filed(p, NO_FILE, 2, p.live), Filed(p, f, 3, tail);
    CallTurn(cfg, p);
    BlockStep(cfg, p2, d, tail);
    EnterBody(cfg, p2, f, tail);
    BodyStep(cfg, p3, d.part.body, rest);
    Assoc([Head(f)], Bytes(d.part.body), Flat(Call(cfg, Filed(p, f, 4, rest)).log));
  }

  /** A body in front of the first delimiter, whatever follows. */
  lemma BodyBefore(cfg: Config, p: Parser, body: string, rest: string)
    requires Willing(cfg) && Find(body + cfg.Delimiter(), cfg.Delimiter()) == |body|
    requires p.state == 3 && p.live == body + cfg.Delimiter() + rest
    ensures var a, b := Call(cfg, p), Call(cfg, p.(state := 4, live := rest));
            a.p == b.p && a.ok == b.ok && Flat(a.log) == Bytes(body) + Flat(b.log)
    ensures Tame(cfg, p) == Tame(cfg, p.(state := 4, live := rest))
  {
    var d := cfg.Delimiter();
    FindStable(body + d, rest, d);
    Joined(body + d, rest);
    assert p.live[..|body|] == body;
    BodyCall(cfg, p);
  }

  lemma BodyStep(cfg: Config, p: Parser, body: string, rest: string)
    requires Willing(cfg) && '\r' !in cfg.boundary && Find(body, cfg.Delimiter()) == |body|
    requires p.state == 3 && p.live == body + cfg.Delimiter() + rest
    ensures var a, b := Call(cfg, p), Call(cfg, p.(state := 4, live := rest));
            && a.p == b.p && a.ok == b.ok && Flat(a.log) == Bytes(body) + Flat(b.log)
            && Tame(cfg, p) == Tame(cfg, p.(state := 4, live := rest))
  {
    var d := cfg.Delimiter();
    FindPlanted(body, d, "");
    NoneAround(body + d);
    BodyBefore(cfg, p, body, rest);
  }

  lemma HeadersCall(cfg: Config, p: Parser, f: File, tail: string)
    requires Willing(cfg) && p.state == 2 && p.live != "" && Find(p.live, CRLF) <= HEADER_MAX_LENGTH
    requires HeaderLoop(cfg, p, []) == Next(Filed(p, f, 3, tail), [Header(f)])
    ensures var a, b := Call(cfg, p), Call(cfg, Filed(p, f, 3, tail));
            a.p == b.p && a.ok == b.ok && Flat(a.log) == [Head(f)] + Flat(b.log)
  {
    CallTurn(cfg, p);
    FlatOne(Header(f));
    FlatConcat([Header(f)], Call(cfg, Filed(p, f, 3, tail)).log);
  }

  lemma EnterBody(cfg: Config, p: Parser, f: File, tail: string)
    requires Willing(cfg) && p.state == 2 && p.live != "" && ShortLines(cfg, p)
    requires HeaderLoop(cfg, p, []) == Next(Filed(p, f, 3, tail), [Header(f)])
    ensures var a, b := Call(cfg, p), Call(cfg, Filed(p, f, 3, tail));
            a.p == b.p && a.ok == b.ok && Flat(a.log) == [Head(f)] + Flat(b.log)
    ensures Tame(cfg, p) == Tame(cfg, Filed(p, f, 3, tail))
  {
    HeadersCall(cfg, p, f, tail);
  }

  lemma CloseStep(cfg: Config, p: Parser)
    requires Willing(cfg) && p.state == 4 && p.live == DASH_CRLF
    ensures Call(cfg, p) == Run(p.(isValid := true, live := ""), [], true) && Tame(cfg, p)
  {
    CallTurn(cfg, p);
    assert p.live[0] != CRLF[0];
    PrependNone(Run(p.(isValid := true, live := ""), [], true));
  }

  lemma NextPartStep(cfg: Config, p: Parser, rest: string)
    requires Willing(cfg) && p.state == 4 && p.live == CRLF + rest
    ensures var q := p.(state := 1, live := rest);
            Call(cfg, p) == Call(cfg, q) && Tame(cfg, p) == Tame(cfg, q)
  {
    assert p.live[..2] == CRLF && p.live[2..] == rest;
    CallTurn(cfg, p);
    PrependNone(Call(cfg, p.(state := 1, live := rest)));
  }

  ghost predicate Delivered(r: Run, parts: seq<Part>) {
    && r.ok && r.p.state == 4 && r.p.isValid && r.p.live == ""
    && Flat(r.log) == Expected(parts)
  }

  lemma {:induction false} EntriesStep(cfg: Config, p: Parser, drafts: seq<Draft>)
    requires Willing(cfg) && Message(cfg, drafts)
    requires p.state == 1 && p.live == Entries(cfg.boundary, drafts)
    ensures Delivered(Call(cfg, p), PartsIn(drafts)) && Tame(cfg, p)
    decreases |drafts|
  {
    var d, more := drafts[0], drafts[1..];
    var part := d.part;
    var rest := if |drafts| == 1 then DASH_CRLF else CRLF + Entries(cfg.boundary, more);
    assert d in drafts;
    PartStep(cfg, p, d, rest);
    var q := Filed(p, part.file, 4, rest);
    if |drafts| == 1 {
      CloseStep(cfg, q);
      assert Expected(PartsIn(drafts)) == [Head(part.file)] + Bytes(part.body) + [];
    } else {
      NextPartStep(cfg, q, Entries(cfg.boundary, more));
      EntriesStep(cfg, q.(state := 1, live := Entries(cfg.boundary, more)), more);
      assert PartsIn(drafts)[1..] == PartsIn(more);
    }
  }

  /**
   Round trip: chunks without the opening delimiter, then chunks of which the first holds it (behind any
   text that does not), together carrying a rendered message, make the parser report exactly the rendered
   parts, in order, and end in a valid state with nothing left over.
   */
  lemma RoundTrip(cfg: Config, drafts: seq<Draft>, skipped: seq<string>,
                  preamble: string, first: string, rest: seq<string>)
    requires Willing(cfg) && Message(cfg, drafts)
    requires forall c :: c in skipped ==> Find(c, OpeningText(cfg.boundary)) == |c|
    requires Find(preamble + OpeningText(cfg.boundary), OpeningText(cfg.boundary)) == |preamble|
    requires first + Concat(rest) == Entries(cfg.boundary, drafts)
    ensures var r := Feed(cfg, FRESH, skipped + ([preamble + OpeningText(cfg.boundary) + first] + rest));
            Delivered(r, PartsIn(drafts)) && Gather(Flat(r.log)) == PartsIn(drafts)
  {
    DelimiterTexts(cfg);
    var parts := PartsIn(drafts);
    var chunks := [preamble + cfg.Opening() + first] + rest;
    NoOpeningSkipped(cfg, skipped, chunks);
    FirstChunkOpens(cfg, preamble, first);
    assert chunks[1..] == rest;
    AfterOpening(cfg, drafts, FRESH.(state := 1, live := first), rest);
    GatherExpected([], parts);
    NoneAround(Expected(parts));
    NoneAround(parts);
  }

  lemma FirstChunkOpens(cfg: Config, preamble: string, first: string)
    requires Willing(cfg) && Find(preamble + cfg.Opening(), cfg.Opening()) == |preamble|
    ensures Call(cfg, FRESH.Receive(preamble + cfg.Opening() + first)) == Call(cfg, FRESH.(state := 1, live := first))
  {
    var opening := preamble + cfg.Opening();
    var p := FRESH.Receive(opening + first);
    assert p.live == opening + first;
    FindStable(opening, first, cfg.Opening());
    OpeningDropped(cfg, p);
    Joined(opening, first);
  }

  /** From behind the opening delimiter: what the first chunk still holds, then the rest. */
  lemma AfterOpening(cfg: Config, drafts: seq<Draft>, p: Parser, rest: seq<string>)
    requires Willing(cfg) && Message(cfg, drafts)
    requires p.state == 1 && p.live + Concat(rest) == Entries(cfg.boundary, drafts)
    ensures Call(cfg, p).ok
    ensures Delivered(Prepend(Call(cfg, p).log, Feed(cfg, Call(cfg, p).p, rest)), PartsIn(drafts))
  {
    var q := p.(live := "");
    var chunks := [p.live] + rest;
    assert chunks[1..] == rest && q.Receive(chunks[0]) == p;
    assert Concat(chunks) == Entries(cfg.boundary, drafts);
    var whole := q.Receive(Concat(chunks));
    assert whole.live == Entries(cfg.boundary, drafts);
    EntriesStep(cfg, whole, drafts);
    FeedJoined(cfg, q, chunks);
  }
}
