/** The push parser as the class it is: a sliding window over a growing buffer, five states, two callbacks. */
module MultipartParser {
  import opened Substring
  import opened Multipart

  /** The two edges of `s` without its surrounding blanks, found by two independent scans. */
  method Trim(s: string) returns (left: nat, right: nat)
    ensures left == LeftEdge(s, 0) && right == RightEdge(s, |s|)
  {
    left, right := 0, |s|;
    while left < |s| && Blank(s[left])
      invariant left <= |s| && LeftEdge(s, left) == LeftEdge(s, 0)
    {
      left := left + 1;
    }
    while right > 0 && Blank(s[right - 1])
      invariant right <= |s| && RightEdge(s, right) == RightEdge(s, |s|)
    {
      right := right - 1;
    }
  }

  method StartWithCaseIgnore(a: string, b: string) returns (r: bool)
    ensures r == StartsWithIgnoreCase(a, b)
  {
    if |a| < |b| {
      return false;
    }
    for i := 0 to |b|
      invariant forall k :: 0 <= k < i ==> Lower(a[k]) == Lower(b[k])
    {
      if Lower(a[i]) != Lower(b[i]) {
        return false;
      }
    }
    return true;
  }

  class MultipartFormDataParser {
    const recognise: Recogniser
    var boundary: string
    var dashBoundaryCrlf: string
    var crlfDashBoundary: string

    var state: nat
    var isValid: bool
    var file: File

    var buf: array<char>
    var bufSpos: nat
    var bufEpos: nat

    // every callback made so far, in order
    var log: seq<Event>

    predicate BufferOk()
      reads this
    {
      bufSpos <= bufEpos <= buf.Length
    }

    predicate Valid()
      reads this
    {
      && BufferOk()
      && state <= 4
      && dashBoundaryCrlf == DASH + boundary + CRLF
      && crlfDashBoundary == CRLF + DASH + boundary
    }

    function Live(): string
      requires BufferOk()
      reads this, buf
    {
      buf[bufSpos..bufEpos]
    }

    function Abs(): Parser
      requires BufferOk()
      reads this, buf
    {
      Parser(state, isValid, file, Live())
    }

    function Cfg(callback: Callback): Config
      reads this
    {
      Config(boundary, recognise, callback)
    }

    constructor (recognise: Recogniser)
      ensures BufferOk() && fresh(buf)
      ensures Abs() == FRESH && log == []
    {
      this.recognise := recognise;
      boundary, dashBoundaryCrlf, crlfDashBoundary := "", "", "";
      state, isValid, file := 0, false, NO_FILE;
      buf, bufSpos, bufEpos := new char[0], 0, 0;
      log := [];
    }

    method SetBoundary(boundary: string)
      requires BufferOk() && state <= 4
      modifies `boundary, `dashBoundaryCrlf, `crlfDashBoundary
      ensures Valid() && this.boundary == boundary
    {
      this.boundary := boundary;
      dashBoundaryCrlf := DASH + boundary + CRLF;
      crlfDashBoundary := CRLF + DASH + boundary;
    }

    // ----- buffer

    method BufSize() returns (n: nat)
      requires BufferOk()
      ensures n == |Live()|
    {
      n := bufEpos - bufSpos;
    }

    method StartWith(spos: nat, s: string) returns (r: bool)
      requires bufSpos <= spos <= bufEpos <= buf.Length
      ensures r == OccursAt(Live(), s, spos - bufSpos)
    {
      if bufEpos - spos < |s| {
        return false;
      }
      ghost var here := Live()[spos - bufSpos..spos - bufSpos + |s|];
      for i := 0 to |s|
        invariant forall k :: 0 <= k < i ==> here[k] == s[k]
      {
        assert here[i] == buf[i + spos];
        if buf[i + spos] != s[i] {
          return false;
        }
      }
      assert here == s;
      return true;
    }

    method BufStartWith(s: string) returns (r: bool)
      requires BufferOk()
      ensures r == (s <= Live())
    {
      r := StartWith(bufSpos, s);
    }

    /** Skips to the next copy of the first character, then compares, until too little text is left. */
    method BufFind(s: string) returns (r: nat)
      requires BufferOk() && s != ""
      ensures r == Find(Live(), s)
    {
      FindFirst(Live(), s);
      var c := s[0];
      var off := bufSpos;
      while off < bufEpos
        invariant bufSpos <= off <= bufEpos
        invariant forall k :: 0 <= k < off - bufSpos ==> !OccursAt(Live(), s, k)
      {
        var pos := off;
        while true
          invariant off <= pos <= bufEpos
          invariant forall k :: 0 <= k < pos - bufSpos ==> !OccursAt(Live(), s, k)
          decreases bufEpos - pos
        {
          if pos == bufEpos {
            return bufEpos - bufSpos;
          }
          if buf[pos] == c {
            break;
          }
          NoMatchHere(Live(), s, pos - bufSpos);
          pos := pos + 1;
        }
        if |s| > bufEpos - pos {
          return bufEpos - bufSpos;
        }
        var here := StartWith(pos, s);
        if here {
          return pos - bufSpos;
        }
        off := pos + 1;
      }
      return bufEpos - bufSpos;
    }

    /** Moves the unread bytes to the front of the buffer. */
    method Compact()
      requires BufferOk()
      modifies `bufSpos, `bufEpos, buf
      ensures BufferOk() && bufSpos == 0 && Live() == old(Live())
    {
      var remaining := BufSize();
      if remaining > 0 && bufSpos > 0 {
        for i := 0 to remaining
          modifies buf
          invariant forall k :: 0 <= k < i ==> buf[k] == old(buf[bufSpos + k])
          invariant forall k :: i <= k < buf.Length ==> buf[k] == old(buf[k])
        {
          buf[i] := buf[bufSpos + i];
        }
      }
      bufSpos, bufEpos := 0, remaining;
    }

    /** Makes room for `n` more bytes. */
    method Grow(n: nat)
      requires BufferOk() && bufSpos == 0
      modifies `buf
      ensures BufferOk() && (buf == old(buf) || fresh(buf))
      ensures bufEpos + n <= buf.Length && Live() == old(Live())
    {
      if bufEpos + n > buf.Length {
        var grown := new char[bufEpos + n];
        for i := 0 to buf.Length
          modifies grown
          invariant forall k :: 0 <= k < i ==> grown[k] == buf[k]
        {
          grown[i] := buf[i];
        }
        buf := grown;
      }
    }

    /** Appends the new bytes to the unread ones. */
    method BufAppend(data: string)
      requires BufferOk()
      modifies `buf, `bufSpos, `bufEpos, buf
      ensures BufferOk() && (buf == old(buf) || fresh(buf))
      ensures Live() == old(Live()) + data
    {
      Compact();
      Grow(|data|);
      label ready:
      for i := 0 to |data|
        modifies buf
        invariant forall k :: 0 <= k < bufEpos ==> buf[k] == old@ready(buf[k])
        invariant forall k :: 0 <= k < i ==> buf[bufEpos + k] == data[k]
      {
        buf[bufEpos + i] := data[i];
      }
      bufEpos := bufEpos + |data|;
    }

    method BufErase(size: nat)
      requires BufferOk() && size <= |Live()|
      modifies `bufSpos
      ensures BufferOk() && Live() == old(Live())[size..]
    {
      bufSpos := bufSpos + size;
    }

    // ----- parse

    /** One non-empty header line; false when neither kind of header is recognised. */
    method ParseLine(header: string) returns (known: bool)
      modifies `file, `isValid
      ensures match ParseHeader(recognise, old(file), header)
              case Some(f) => known && file == f && isValid == old(isValid)
              case None => !known && file == old(file) && !isValid
    {
      var isType := StartWithCaseIgnore(header, CONTENT_TYPE);
      if isType {
        var text := header[|CONTENT_TYPE|..];
        var l, r := Trim(text);
        file := file.(contentType := if l <= r then text[l..r] else "");
      } else {
        match recognise(header) {
          case Some(m) =>
            file := file.(name := m.0, filename := m.1);
          case None =>
            isValid := false;
            return false;
        }
      }
      return true;
    }

    /** Takes the non-empty line of length `pos` off the unread text. */
    method TakeLine(pos: nat) returns (known: bool)
      requires Valid() && 0 < pos == Find(Live(), CRLF) < |Live()|
      modifies `file, `isValid, `bufSpos
      ensures Valid()
      ensures match ParseHeader(recognise, old(file), old(Live())[..pos])
              case Some(f) => known && Abs() == old(Abs()).(file := f, live := old(Live())[pos + |CRLF|..])
              case None => !known && Abs() == old(Abs()).(isValid := false)
    {
      var header := buf[bufSpos..bufSpos + pos];
      assert header == Live()[..pos];
      known := ParseLine(header);
      if known {
        BufErase(pos + |CRLF|);
      }
    }

    /** Hands a stretch of content to its callback. */
    method Deliver(callback: Callback, len: nat) returns (ok: bool)
      requires BufferOk() && len <= |Live()|
      modifies `isValid, `log
      ensures log == old(log) + [Content(Live()[..len])]
      ensures ok == callback(old(log), Content(Live()[..len]))
      ensures isValid == (old(isValid) && ok)
    {
      var data := buf[bufSpos..bufSpos + len];
      assert data == Live()[..len];
      ok := callback(log, Content(data));
      log := log + [Content(data)];
      if !ok {
        isValid := false;
      }
    }

    /** The blank line: the header callback, and on to the body when it agrees. */
    method EndHeaders(callback: Callback) returns (ok: bool)
      requires Valid() && |CRLF| <= |Live()|
      modifies `state, `isValid, `bufSpos, `log
      ensures Valid() && log == old(log) + [Header(file)] && ok == callback(old(log), Header(file))
      ensures Abs() == if ok then old(Abs()).(live := old(Live())[|CRLF|..], state := 3)
                       else old(Abs()).(isValid := false)
    {
      ok := callback(log, Header(file));
      log := log + [Header(file)];
      if !ok {
        isValid := false;
        return;
      }
      BufErase(|CRLF|);
      state := 3;
    }

    /** The blank line, as the header loop sees it. */
    method BlankLine(callback: Callback) returns (accepted: bool)
      requires Valid() && Find(Live(), CRLF) == 0 < |Live()|
      modifies `state, `isValid, `bufSpos, `log
      ensures Valid()
      ensures HeaderLoop(Cfg(callback), old(Abs()), old(log))
           == if accepted then Next(Abs(), log) else Stop(Run(Abs(), log, false))
    {
      ghost var p := Abs();
      accepted := EndHeaders(callback);
      HeaderLoopBlank(Cfg(callback), p, old(log));
    }

    /** Any other line, as the header loop sees it. */
    method NextLine(callback: Callback, pos: nat) returns (known: bool)
      requires Valid() && 0 < pos == Find(Live(), CRLF) < |Live()|
      modifies `file, `isValid, `bufSpos
      ensures Valid() && (known ==> |Live()| < |old(Live())|)
      ensures HeaderLoop(Cfg(callback), old(Abs()), log)
           == if known then HeaderLoop(Cfg(callback), Abs(), log) else Stop(Run(Abs(), log, false))
    {
      ghost var p := Abs();
      known := TakeLine(pos);
      HeaderLoopLine(Cfg(callback), p, log);
    }

    /** The header lines of one entry: `again` says whether the outer loop goes on, `ok` what is returned otherwise. */
    method ParseHeaders(callback: Callback, first: nat) returns (again: bool, ok: bool)
      requires Valid() && state == 2 && first == Find(Live(), CRLF)
      modifies `state, `isValid, `file, `bufSpos, `log
      ensures Valid()
      ensures HeaderLoop(Cfg(callback), old(Abs()), old(log))
           == if again then Next(Abs(), log) else Stop(Run(Abs(), log, ok))
    {
      var pos := first;
      var size := BufSize();
      ghost var run := HeaderLoop(Cfg(callback), Abs(), log);
      while pos < size
        invariant Valid() && state == 2 && size == |Live()| && pos == Find(Live(), CRLF)
        invariant HeaderLoop(Cfg(callback), Abs(), log) == run
        decreases size
      {
        if pos == 0 {
          var accepted := BlankLine(callback);
          return accepted, false;
        }
        var known := NextLine(callback, pos);
        if !known {
          return false, false;
        }
        pos := BufFind(CRLF);
        size := BufSize();
      }
      return false, true;
    }

    /** The initial boundary. */
    method ParseOpening() returns (again: bool, ok: bool)
      requires Valid() && state == 0 && Live() != ""
      modifies `state, `bufSpos
      ensures Valid()
      ensures forall callback :: Turn(Cfg(callback), old(Abs()), log)
                              == if again then Next(Abs(), log) else Stop(Run(Abs(), log, ok))
    {
      var pos := BufFind(dashBoundaryCrlf);
      BufErase(pos);
      var size := BufSize();
      if |dashBoundaryCrlf| > size {
        return false, true;
      }
      var here := BufStartWith(dashBoundaryCrlf);
      if !here {
        return false, false;
      }
      BufErase(|dashBoundaryCrlf|);
      state := 1;
      return true, true;
    }

    /** The delimiter has been found at `pos`: the content before it is delivered, and the part is over. */
    method EndBody(callback: Callback, pos: nat) returns (taken: bool)
      requires Valid() && state == 3 && pos == Find(Live(), crlfDashBoundary) < |Live()|
      modifies `state, `isValid, `bufSpos, `log
      ensures Valid()
      ensures Turn(Cfg(callback), old(Abs()), old(log))
           == if taken then Next(Abs(), log) else Stop(Run(Abs(), log, false))
    {
      taken := Deliver(callback, pos);
      if taken {
        BufErase(pos + |crlfDashBoundary|);
        state := 4;
      }
    }

    /** There is no delimiter: all but the tail that may begin one is delivered. */
    method PauseBody(callback: Callback) returns (taken: bool)
      requires Valid() && state == 3
      requires |crlfDashBoundary| <= |Live()| == Find(Live(), crlfDashBoundary)
      modifies `isValid, `bufSpos, `log
      ensures Valid()
      ensures Turn(Cfg(callback), old(Abs()), old(log)) == Stop(Run(Abs(), log, taken))
    {
      var size := BufSize();
      var len := size - |crlfDashBoundary|;
      if len == 0 {
        return true;
      }
      taken := Deliver(callback, len);
      if taken {
        BufErase(len);
      }
    }

    /** A part's content, up to its delimiter or up to the held-back tail. */
    method ParseBody(callback: Callback) returns (again: bool, ok: bool)
      requires Valid() && state == 3 && Live() != ""
      modifies `state, `isValid, `bufSpos, `log
      ensures Valid()
      ensures Turn(Cfg(callback), old(Abs()), old(log))
           == if again then Next(Abs(), log) else Stop(Run(Abs(), log, ok))
    {
      var size := BufSize();
      if |crlfDashBoundary| > size {
        return false, true;
      }
      var pos := BufFind(crlfDashBoundary);
      if pos < size {
        var taken := EndBody(callback, pos);
        return taken, false;
      }
      var taken := PauseBody(callback);
      return false, taken;
    }

    /** What follows a delimiter: the next part, the end, or too little to tell. */
    method ParseBoundary() returns (again: bool, ok: bool)
      requires Valid() && state == 4 && Live() != ""
      modifies `state, `isValid, `bufSpos
      ensures Valid()
      ensures forall callback :: Turn(Cfg(callback), old(Abs()), log)
                              == if again then Next(Abs(), log) else Stop(Run(Abs(), log, ok))
    {
      var size := BufSize();
      if |CRLF| > size {
        return false, true;
      }
      var next := BufStartWith(CRLF);
      if next {
        BufErase(|CRLF|);
        state := 1;
        return true, true;
      }
      if |DASH_CRLF| > size {
        return false, true;
      }
      var last := BufStartWith(DASH_CRLF);
      if !last {
        return false, true;
      }
      BufErase(|DASH_CRLF|);
      isValid := true;
      size := BufSize();
      BufErase(size);
      return true, true;
    }

    /** One turn of the loop over the unread bytes. */
    method ParseTurn(callback: Callback) returns (again: bool, ok: bool)
      requires Valid() && Live() != ""
      modifies `state, `isValid, `file, `bufSpos, `log
      ensures Valid()
      ensures Turn(Cfg(callback), old(Abs()), old(log))
           == if again then Next(Abs(), log) else Stop(Run(Abs(), log, ok))
    {
      match state {
        case 0 =>
          again, ok := ParseOpening();
        case 1 =>
          file := NO_FILE;
          state := 2;
          again, ok := true, true;
        case 2 =>
          var pos := BufFind(CRLF);
          if pos > HEADER_MAX_LENGTH {
            return false, false;
          }
          again, ok := ParseHeaders(callback, pos);
        case 3 =>
          again, ok := ParseBody(callback);
        case _ =>
          again, ok := ParseBoundary();
      }
    }

    /** One received chunk: everything observable is that of `Drain` on the unread text plus the chunk. */
    method Parse(data: string, callback: Callback) returns (ok: bool)
      requires Valid()
      modifies `state, `isValid, `file, `buf, `bufSpos, `bufEpos, `log, buf
      ensures Valid() && (buf == old(buf) || fresh(buf))
      ensures Run(Abs(), log, ok) == Drain(Cfg(callback), old(Abs()).Receive(data), old(log))
    {
      ghost var cfg := Cfg(callback);
      BufAppend(data);
      ghost var run := Drain(cfg, Abs(), log);
      var size := BufSize();
      while size > 0
        modifies `state, `isValid, `file, `bufSpos, `log
        invariant Valid() && size == |Live()|
        invariant Drain(cfg, Abs(), log) == run
        decreases size, if state == 1 then 1 else 0
      {
        ghost var p, l := Abs(), log;
        var again, r := ParseTurn(callback);
        DrainTurn(cfg, p, l);
        if !again {
          return r;
        }
        size := BufSize();
      }
      return true;
    }
  }

  lemma HeaderLoopBlank(cfg: Config, p: Parser, log: seq<Event>)
    requires Find(p.live, CRLF) == 0 < |p.live|
    ensures HeaderLoop(cfg, p, log) ==
            var e := Header(p.file);
            if cfg.accept(log, e) then Next(p.(live := p.live[|CRLF|..], state := 3), log + [e])
            else Stop(Run(p.(isValid := false), log + [e], false))
  {
  }

  lemma HeaderLoopLine(cfg: Config, p: Parser, log: seq<Event>)
    requires 0 < Find(p.live, CRLF) < |p.live|
    ensures HeaderLoop(cfg, p, log) ==
            var pos := Find(p.live, CRLF);
            match ParseHeader(cfg.recognise, p.file, p.live[..pos])
            case Some(f) => HeaderLoop(cfg, p.(file := f, live := p.live[pos + |CRLF|..]), log)
            case None => Stop(Run(p.(isValid := false), log, false))
  {
  }

  lemma NoMatchHere(t: string, s: string, i: nat)
    requires s != "" && i < |t| && t[i] != s[0]
    ensures !OccursAt(t, s, i)
  {
    assert i + |s| <= |t| ==> t[i..i + |s|][0] == t[i];
  }
}
