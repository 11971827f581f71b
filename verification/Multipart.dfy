/** What a form-data parser sees and reports, and one call of its parse loop as a function on values. */
module Multipart {
  import opened Options
  import opened Substring

  const CRLF: string := "\r\n"
  const DASH: string := "--"
  const DASH_CRLF: string := "--\r\n"
  const CONTENT_TYPE: string := "content-type:"
  const HEADER_MAX_LENGTH := 8192

  datatype File = File(name: string, filename: string, contentType: string)

  const NO_FILE := File("", "", "")

  /** A call to one of the two callbacks: a finished header block, or a stretch of a part's content. */
  datatype Event = Header(file: File) | Content(data: string)

  /** The callbacks' answer to an event, which may depend on all that was reported before it. */
  type Callback = (seq<Event>, Event) -> bool

  /** The Content-Disposition expression: the name and file name of a line it matches. */
  type Recogniser = string -> Option<(string, string)>

  datatype Config = Config(boundary: string, recognise: Recogniser, accept: Callback) {
    /** The delimiter that opens the first part. */
    function Opening(): string { DASH + boundary + CRLF }

    /** The delimiter that ends a part's content. */
    function Delimiter(): string { CRLF + DASH + boundary }
  }

  /** The state that outlives a call: `live` is the text received and not yet consumed. */
  datatype Parser = Parser(state: nat, isValid: bool, file: File, live: string) {
    function Receive(y: string): Parser { this.(live := live + y) }
  }

  const FRESH := Parser(0, false, NO_FILE, "")

  /** The end of a call: the state left behind, everything reported so far, and the returned flag. */
  datatype Run = Run(p: Parser, log: seq<Event>, ok: bool)

  datatype Step = Next(p: Parser, log: seq<Event>) | Stop(run: Run)

  // ----- one header line

  predicate Blank(c: char) { c == ' ' || c == '\t' }

  function LeftEdge(s: string, i: nat): (l: nat)
    requires i <= |s|
    ensures i <= l <= |s|
    decreases |s| - i
  {
    if i < |s| && Blank(s[i]) then LeftEdge(s, i + 1) else i
  }

  function RightEdge(s: string, j: nat): (r: nat)
    requires j <= |s|
    ensures r <= j
  {
    if j > 0 && Blank(s[j - 1]) then RightEdge(s, j - 1) else j
  }

  function TrimCopy(s: string): string {
    var l, r := LeftEdge(s, 0), RightEdge(s, |s|);
    if l <= r then s[l..r] else ""
  }

  function Lower(c: char): char {
    if 'A' <= c <= 'Z' then (c as int + 32) as char else c
  }

  predicate StartsWithIgnoreCase(a: string, b: string) {
    |b| <= |a| && forall i :: 0 <= i < |b| ==> Lower(a[i]) == Lower(b[i])
  }

  function ParseHeader(recognise: Recogniser, file: File, line: string): Option<File> {
    if StartsWithIgnoreCase(line, CONTENT_TYPE) then
      Some(file.(contentType := TrimCopy(line[|CONTENT_TYPE|..])))
    else
      match recognise(line)
      case Some((name, filename)) => Some(file.(name := name, filename := filename))
      case None => None
  }

  // ----- the parse loop

  /** The inner loop over header lines: stops at an unfinished or unknown line, goes on after a blank one. */
  function HeaderLoop(cfg: Config, p: Parser, log: seq<Event>): (s: Step)
    ensures s.Next? ==> s.p.state == 3 && |s.p.live| < |p.live|
    ensures s.Stop? ==> s.run.p.state == p.state && |s.run.p.live| <= |p.live|
    decreases |p.live|
  {
    var pos := Find(p.live, CRLF);
    if pos == |p.live| then
      Stop(Run(p, log, true))
    else if pos == 0 then
      var e := Header(p.file);
      if cfg.accept(log, e) then
        Next(p.(live := p.live[|CRLF|..], state := 3), log + [e])
      else
        Stop(Run(p.(isValid := false), log + [e], false))
    else
      match ParseHeader(cfg.recognise, p.file, p.live[..pos])
      case Some(f) => HeaderLoop(cfg, p.(file := f, live := p.live[pos + |CRLF|..]), log)
      case None => Stop(Run(p.(isValid := false), log, false))
  }

  /** One turn of the outer loop. */
  function Turn(cfg: Config, p: Parser, log: seq<Event>): (s: Step)
    requires p.live != "" && p.state <= 4
    ensures s.Next? ==> 1 <= s.p.state <= 4
    ensures s.Next? ==> |s.p.live| < |p.live| || (|s.p.live| == |p.live| && p.state == 1 && s.p.state == 2)
    ensures s.Stop? ==> s.run.p.state == p.state && |s.run.p.live| <= |p.live|
  {
    match p.state
    case 0 =>
      var q := p.(live := p.live[Find(p.live, cfg.Opening())..]);
      if |cfg.Opening()| > |q.live| then
        Stop(Run(q, log, true))
      else if !(cfg.Opening() <= q.live) then
        Stop(Run(q, log, false))
      else
        Next(q.(live := q.live[|cfg.Opening()|..], state := 1), log)
    case 1 =>
      Next(p.(file := NO_FILE, state := 2), log)
    case 2 =>
      if Find(p.live, CRLF) > HEADER_MAX_LENGTH then Stop(Run(p, log, false)) else HeaderLoop(cfg, p, log)
    case 3 =>
      var d := cfg.Delimiter();
      if |d| > |p.live| then
        Stop(Run(p, log, true))
      else
        var pos := Find(p.live, d);
        if pos < |p.live| then
          var e := Content(p.live[..pos]);
          if cfg.accept(log, e) then
            Next(p.(live := p.live[pos + |d|..], state := 4), log + [e])
          else
            Stop(Run(p.(isValid := false), log + [e], false))
        else
          var len := |p.live| - |d|;
          var e := Content(p.live[..len]);
          if len == 0 then
            Stop(Run(p, log, true))
          else if cfg.accept(log, e) then
            Stop(Run(p.(live := p.live[len..]), log + [e], true))
          else
            Stop(Run(p.(isValid := false), log + [e], false))
    case _ =>
      if |CRLF| > |p.live| then
        Stop(Run(p, log, true))
      else if CRLF <= p.live then
        Next(p.(live := p.live[|CRLF|..], state := 1), log)
      else if |DASH_CRLF| > |p.live| then
        Stop(Run(p, log, true))
      else if DASH_CRLF <= p.live then
        Next(p.(isValid := true, live := ""), log)
      else
        Stop(Run(p, log, true))
  }

  /** The whole loop of one call, from the moment the new text has been appended. */
  function Drain(cfg: Config, p: Parser, log: seq<Event>): (r: Run)
    requires p.state <= 4
    ensures r.p.state <= 4 && (p.state > 0 ==> r.p.state > 0) && |r.p.live| <= |p.live|
    decreases |p.live|, if p.state == 1 then 1 else 0
  {
    if p.live == "" then
      Run(p, log, true)
    else
      match Turn(cfg, p, log)
      case Next(q, l) => Drain(cfg, q, l)
      case Stop(r) => r
  }

  lemma DrainTurn(cfg: Config, p: Parser, log: seq<Event>)
    requires p.state <= 4 && p.live != ""
    ensures Drain(cfg, p, log) == match Turn(cfg, p, log)
                                  case Next(q, l) => Drain(cfg, q, l)
                                  case Stop(r) => r
  {
  }

  // ----- what trimming means

  /** Nothing but spaces and tabs. */
  predicate AllBlank(s: string) { forall k :: 0 <= k < |s| ==> s[k] == ' ' || s[k] == '\t' }

  /** No space or tab at either end. */
  predicate Tight(s: string) { s != "" ==> s[0] !in " \t" && s[|s| - 1] !in " \t" }

  lemma {:induction false} LeftEdgeOf(l: string, t: string, i: nat)
    requires AllBlank(l) && (t != "" ==> !Blank(t[0])) && i <= |l|
    ensures LeftEdge(l + t, i) == |l|
    decreases |l| - i
  {
    if i == |l| {
    } else {
      assert (l + t)[i] == l[i];
      LeftEdgeOf(l, t, i + 1);
    }
  }

  lemma {:induction false} RightEdgeOf(t: string, r: string, j: nat)
    requires AllBlank(r) && (t != "" ==> !Blank(t[|t| - 1])) && |t| <= j <= |t + r|
    ensures RightEdge(t + r, j) == |t|
    decreases j
  {
    if j == |t| {
    } else {
      assert (t + r)[j - 1] == r[j - 1 - |t|];
      RightEdgeOf(t, r, j - 1);
    }
  }

  /** Trimming removes exactly the blanks around a text, all of it when there is nothing else. */
  lemma TrimExact(l: string, t: string, r: string)
    requires AllBlank(l) && AllBlank(r) && Tight(t)
    ensures TrimCopy(l + t + r) == t
  {
    var s := l + t + r;
    if t != "" {
      assert s == l + (t + r);
      LeftEdgeOf(l, t + r, 0);
      RightEdgeOf(l + t, r, |s|);
    } else {
      assert s == (l + r) + "";
      LeftEdgeOf(l + r, "", 0);
    }
  }

  // ----- what a header line says

  /** The same character, or the two cases of one letter. */
  predicate SameButCase(c: char, d: char) {
    || c == d
    || ('A' <= c <= 'Z' && d as int == c as int + 32)
    || ('A' <= d <= 'Z' && c as int == d as int + 32)
  }

  predicate SameTextButCase(a: string, b: string) {
    |a| == |b| && forall i :: 0 <= i < |b| ==> SameButCase(a[i], b[i])
  }

  /** The comparison ignores the case of letters, of all of them, and nothing else. */
  lemma StartsExactly(a: string, b: string)
    ensures StartsWithIgnoreCase(a, b) <==> |b| <= |a| && SameTextButCase(a[..|b|], b)
  {
    if |b| <= |a| {
      forall i | 0 <= i < |b| ensures Lower(a[i]) == Lower(b[i]) <==> SameButCase(a[..|b|][i], b[i]) {
        assert a[..|b|][i] == a[i];
      }
    }
  }

  /** A line made of "content-type:" in any spelling, blanks, the type, and blanks. */
  predicate TypeParts(line: string, tag: string, left: string, kind: string, right: string) {
    && SameTextButCase(tag, "content-type:") && AllBlank(left) && AllBlank(right) && Tight(kind)
    && line == tag + (left + kind + right)
  }

  lemma TypeRead(recognise: Recogniser, f: File, line: string, tag: string, left: string, kind: string, right: string)
    requires TypeParts(line, tag, left, kind, right)
    ensures ParseHeader(recognise, f, line) == Some(f.(contentType := kind))
  {
    Joined(tag, left + kind + right);
    StartsExactly(line, CONTENT_TYPE);
    TrimExact(left, kind, right);
  }

  lemma TypeFound(line: string) returns (tag: string, left: string, kind: string, right: string)
    requires StartsWithIgnoreCase(line, CONTENT_TYPE)
    ensures TypeParts(line, tag, left, kind, right)
  {
    StartsExactly(line, CONTENT_TYPE);
    tag := line[..|CONTENT_TYPE|];
    var text := line[|CONTENT_TYPE|..];
    left, kind, right := Edges(text);
    assert line == tag + text;
  }

  lemma Edges(s: string) returns (left: string, t: string, right: string)
    ensures s == left + t + right && AllBlank(left) && AllBlank(right) && Tight(t)
  {
    var l := LeftBlank(s);
    left := s[..l];
    var rest := s[l..];
    var r := RightBlank(rest);
    t, right := rest[..r], rest[r..];
    assert t != "" ==> t[0] == rest[0];
  }

  lemma {:induction false} LeftBlank(s: string) returns (l: nat)
    ensures l <= |s| && AllBlank(s[..l]) && (l < |s| ==> s[l] !in " \t")
    decreases |s|
  {
    if s == "" || s[0] !in " \t" {
      l := 0;
    } else {
      var m := LeftBlank(s[1..]);
      l := 1 + m;
      assert s[..l] == [s[0]] + s[1..][..m];
    }
  }

  lemma {:induction false} RightBlank(s: string) returns (r: nat)
    ensures r <= |s| && AllBlank(s[r..]) && (r > 0 ==> s[r - 1] !in " \t")
    decreases |s|
  {
    var n := |s| - 1;
    if s == "" || s[n] !in " \t" {
      r := |s|;
    } else {
      r := RightBlank(s[..n]);
      assert s[r..] == s[..n][r..] + [s[n]];
    }
  }

  /** What a header line says: a type, whatever the case and the blanks; or what the recogniser finds in it. */
  lemma HeaderExactly(recognise: Recogniser, f: File, line: string)
    ensures forall tag, left, kind, right :: TypeParts(line, tag, left, kind, right) ==>
              ParseHeader(recognise, f, line) == Some(f.(contentType := kind))
    ensures (!exists tag, left, kind, right :: TypeParts(line, tag, left, kind, right)) ==>
              ParseHeader(recognise, f, line) ==
              match recognise(line)
              case None => None
              case Some(m) => Some(f.(name := m.0, filename := m.1))
  {
    forall tag, left, kind, right | TypeParts(line, tag, left, kind, right)
      ensures ParseHeader(recognise, f, line) == Some(f.(contentType := kind))
    {
      TypeRead(recognise, f, line, tag, left, kind, right);
    }
    if StartsWithIgnoreCase(line, CONTENT_TYPE) {
      var tag, left, kind, right := TypeFound(line);
    }
  }
}
