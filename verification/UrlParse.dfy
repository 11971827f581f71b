/** Splitting a URL into its components, into a record the caller supplies. */
module UrlParse {
  import opened Options
  import opened Substring
  import opened UrlText
  import opened UrlCanonify
  import opened Utf8

  const NPORT := -1
  const INT_MIN := -0x8000_0000
  const INT_MAX := 0x7FFF_FFFF

  datatype Url = Url(rawurl: string, scheme: string, userinfo: string, host: string, hostname: string,
                     port: int, requri: string, path: string, query: string, fragment: string)

  // ----- specification

  function DefaultPort(scheme: string): int {
    if scheme == "git" then 9418
    else if scheme == "gopher" then 70
    else if scheme == "http" then 80
    else if scheme == "https" then 443
    else if scheme == "ssh" then 22
    else if scheme == "telnet" then 23
    else if scheme == "ws" then 80
    else if scheme == "wss" then 443
    else NPORT
  }

  /** Path, query behind '?', fragment behind '#'. */
  datatype Requri = Requri(path: string, query: Option<string>, fragment: Option<string>)

  function SplitRequri(r: string): Requri {
    var s := PathEnd(r);
    var asked := s < |r| && r[s] == '?';
    var e := if asked then IndexFrom(r, '#', s + 1) else s;
    Requri(r[..s], if asked then Some(r[s + 1..e]) else None, if e < |r| then Some(r[e + 1..]) else None)
  }

  /** Query and fragment keep their old values when the text has none. */
  function StoreRequri(u: Url, r: string): Url {
    var q := SplitRequri(r);
    u.(requri := r, path := q.path,
       query := if q.query.Some? then q.query.value else u.query,
       fragment := if q.fragment.Some? then q.fragment.value else u.fragment)
  }

  function ParseRequri(raw: string, u: Url): Option<Url> {
    match Canonify(CString(raw))
    case None => None
    case Some(r) => Some(StoreRequri(u, r))
  }

  // the authority: `start` is where the host begins, `i` the next character looked at

  datatype Authority = Host(userinfo: string, start: nat, end: nat) | TwoUsers(first: string) | PastTheEnd(user: string)

  predicate EndsAuthority(c: char) { c == '/' || SuffixMark(c) }

  /** Behind an '@' the scan goes on one character late, which may already lie behind the text's end. */
  function ScanAuthority(t: string, start: nat, i: nat, userinfo: string): (a: Authority)
    requires start <= i
    ensures a.Host? ==> a.start <= a.end <= |t|
    decreases |t| + 1 - i
  {
    if i > |t| then PastTheEnd(userinfo)
    else if i == |t| || EndsAuthority(t[i]) then Host(userinfo, start, i)
    else if t[i] != '@' then ScanAuthority(t, start, i + 1, userinfo)
    else if userinfo != "" then TwoUsers(userinfo)
    else ScanAuthority(t, i + 1, i + 2, t[start..i])
  }

  function SkipStar(t: string, start: nat, end: nat): (n: nat)
    requires start <= end <= |t|
    ensures start <= n <= end
  {
    if end - start > 1 && "*:" <= t[start..] then start + 1 else start
  }

  /** Host name and the rest of the host text; none for an unclosed or badly followed bracket. */
  function SplitHost(host: string): Option<(string, string)> {
    if host != "" && host[0] == '[' then
      var n := IndexFrom(host, ']', 1);
      if n == |host| || (n + 1 < |host| && host[n + 1] != ':') then None else Some((host[1..n], host[n + 1..]))
    else
      var n := IndexOf(host, ':');
      Some((host[..n], host[n..]))
  }

  predicate Digit(c: char) { '0' <= c <= '9' }

  function SkipSpace(s: string): string {
    if s != "" && Space(s[0]) then SkipSpace(s[1..]) else s
  }

  function LeadingDigits(s: string): string {
    if s != "" && Digit(s[0]) then [s[0]] + LeadingDigits(s[1..]) else ""
  }

  function DigitsValue(s: string): nat {
    if s == "" then 0
    else DigitsValue(s[..|s| - 1]) * 10 + (if Digit(s[|s| - 1]) then s[|s| - 1] as int - '0' as int else 0)
  }

  /** The number a text begins with, after blanks and a sign; none without a digit or out of range. */
  function Stoi(text: string): Option<int> {
    var s := SkipSpace(text);
    var negative := s != "" && s[0] == '-';
    var digits := LeadingDigits(if s != "" && (s[0] == '-' || s[0] == '+') then s[1..] else s);
    var v := (if negative then -1 else 1) * DigitsValue(digits);
    if digits != "" && INT_MIN <= v <= INT_MAX then Some(v) else None
  }

  function PortOf(rest: string, scheme: string): int {
    if rest == "" || rest[0] != ':' then DefaultPort(scheme)
    else match Stoi(rest[1..])
      case Some(v) => v
      case None => NPORT
  }

  /**
   The record a parse leaves, accepted or not. `PastEnd`: the next thing would be to read behind the terminating
   NUL; the outcome is undefined from there on.
   */
  datatype Outcome = Parsed(u: Url) | Refused(left: Url) | PastEnd(left: Url)

  datatype Verdict = Yes | No | Undefined

  /** The verdict and the record `u` are those of the outcome. */
  predicate Leaves(o: Outcome, v: Verdict, u: Url) {
    match o
    case Parsed(x) => v == Yes && u == x
    case Refused(x) => v == No && u == x
    case PastEnd(x) => v == Undefined && u == x
  }

  /** From the stored host text to host name and port. */
  function FinishHost(u: Url): Outcome {
    match SplitHost(u.host)
    case None => Refused(u)
    case Some((name, rest)) =>
      var v := u.(hostname := name, port := PortOf(rest, u.scheme));
      if v.port == NPORT then Refused(v) else Parsed(v)
  }

  function TargetOutcome(rest: string, u: Url): Outcome {
    match ParseRequri(rest, u)
    case None => Refused(u.(requri := Torn(CString(rest))))
    case Some(v) => FinishHost(v)
  }

  /** From the authority on, which begins at `from`. */
  function ParseAuthority(t: string, from: nat, u: Url): Outcome
    requires from <= |t|
  {
    match ScanAuthority(t, from, from, u.userinfo)
    case PastTheEnd(user) => PastEnd(u.(userinfo := user))
    case TwoUsers(first) => Refused(u.(userinfo := first))
    case Host(userinfo, start, end) =>
      TargetOutcome(t[end..], u.(userinfo := userinfo, host := t[SkipStar(t, start, end)..end]))
  }

  function ParseUrl(raw: string, u: Url): Outcome {
    var t := CString(raw);
    var n := IndexOf(t, ':');
    if !("://" <= t[n..]) then Refused(u.(rawurl := raw))
    else
      var v := u.(rawurl := raw, scheme := t[..n]);
      if v.scheme == "unix" then Parsed(v.(path := t[n + 3..])) else ParseAuthority(t, n + 3, v)
  }

  // ----- the record and its two parsers

  /** Reading through a pointer into a NUL-terminated text. */
  function At(t: string, i: nat): char
    requires i <= |t|
  {
    if i == |t| then '\0' else t[i]
  }

  method UrlDefaultPort(scheme: string) returns (port: int)
    ensures port == DefaultPort(scheme)
  {
    var known := map["git" := 9418, "gopher" := 70, "http" := 80, "https" := 443,
                     "ssh" := 22, "telnet" := 23, "ws" := 80, "wss" := 443];
    port := if scheme in known then known[scheme] else NPORT;
  }

  class UrlT {
    var rawurl: string
    var scheme: string
    var userinfo: string
    var host: string
    var hostname: string
    var port: int
    var requri: string
    var path: string
    var query: string
    var fragment: string

    constructor (port: int)
      ensures Value() == Url("", "", "", "", "", port, "", "", "", "")
    {
      rawurl, scheme, userinfo, host, hostname := "", "", "", "", "";
      this.port := port;
      requri, path, query, fragment := "", "", "", "";
    }

    function Value(): Url
      reads this
    {
      Url(rawurl, scheme, userinfo, host, hostname, port, requri, path, query, fragment)
    }

    /** The text up to the first character for which one of the two marks stands. */
    method ScanTo(t: string, from: nat, a: char, b: char) returns (i: nat)
      requires from <= |t| && NulFree(t)
      ensures from <= i <= |t| && (i < |t| ==> t[i] == a || t[i] == b)
      ensures forall k :: from <= k < i ==> t[k] != a && t[k] != b
    {
      i := from;
      while At(t, i) != '\0'
        invariant from <= i <= |t|
        invariant forall k :: from <= k < i ==> t[k] != a && t[k] != b
        decreases |t| - i
      {
        if At(t, i) == a || At(t, i) == b {
          break;
        }
        i := i + 1;
      }
    }

    method UrlParseRequri(raw: string) returns (ok: bool)
      modifies `requri, `path, `query, `fragment
      ensures ok <==> ParseRequri(raw, old(Value())).Some?
      ensures Value() == if ok then ParseRequri(raw, old(Value())).value
                         else old(Value()).(requri := Torn(CString(raw)))
    {
      var rv, canonical := UrlCanonifyUri(raw);
      requri := canonical;
      if rv != 0 {
        return false;
      }
      CanonifyNulFree(CString(raw));
      StoreParts();
      return true;
    }

    method StoreParts()
      requires NulFree(requri)
      modifies `path, `query, `fragment
      ensures Value() == StoreRequri(old(Value()), requri)
    {
      var s := ScanTo(requri, 0, '?', '#');
      EndIs(requri, s);
      path := requri[..s];
      var e := s;
      if At(requri, s) == '?' {
        e := ScanTo(requri, s + 1, '#', '#');
        IndexIs(requri, '#', s + 1, e);
        query := requri[s + 1..e];
      }
      if At(requri, e) == '#' {
        fragment := requri[e + 1..];
      }
    }

    /** The bounds of the host name in the host text, and where the port part begins. */
    method HostBounds() returns (ok: bool, s: nat, e: nat, rest: nat)
      requires NulFree(host)
      ensures match SplitHost(host)
              case None => !ok
              case Some((name, p)) => ok && s <= e <= rest <= |host| && name == host[s..e] && p == host[rest..]
    {
      s, e, rest := 0, 0, 0;
      if At(host, 0) == '[' {
        s := 1;
        e := ScanTo(host, 1, ']', ']');
        IndexIs(host, ']', 1, e);
        if e == |host| {
          return false, s, e, rest;
        }
        if At(host, e + 1) != ':' && At(host, e + 1) != '\0' {
          return false, s, e, rest;
        }
      } else {
        e := ScanTo(host, 0, ':', ':');
        IndexIs(host, ':', 0, e);
      }
      rest := if At(host, e) == ']' then e + 1 else e;
      return true, s, e, rest;
    }

    method PortAt(rest: nat) returns (p: int)
      requires NulFree(host) && rest <= |host|
      ensures p == PortOf(host[rest..], scheme)
    {
      ghost var t := host[rest..];
      assert rest < |host| ==> t[0] == host[rest] && t[1..] == host[rest + 1..];
      if At(host, rest) != ':' {
        p := UrlDefaultPort(scheme);
      } else if At(host, rest + 1) == '\0' {
        p := NPORT;
      } else {
        var number := Stoi(host[rest + 1..]);
        p := if number.Some? then number.value else NPORT;
      }
    }

    method FillHost() returns (ok: bool)
      requires NulFree(host)
      modifies `hostname, `port
      ensures Leaves(FinishHost(old(Value())), if ok then Yes else No, Value())
    {
      var s, e, rest;
      ok, s, e, rest := HostBounds();
      if !ok {
        return false;
      }
      hostname := host[s..e];
      port := PortAt(rest);
      return port != NPORT;
    }

    /** The user field and the bounds of the host; a second '@' is refused behind a non-empty user. */
    method FindHost(t: string, from: nat) returns (v: Verdict, s: nat, len: nat)
      requires NulFree(t) && from <= |t|
      modifies `userinfo
      ensures match ScanAuthority(t, from, from, old(userinfo))
              case Host(user, start, end) => v == Yes && userinfo == user && s == start && s + len == end
              case TwoUsers(first) => v == No && userinfo == first
              case PastTheEnd(user) => v == Undefined && userinfo == user
    {
      s, len := from, 0;
      ghost var goal := ScanAuthority(t, from, from, userinfo);
      while true
        invariant ScanAuthority(t, s, s + len, userinfo) == goal
        decreases |t| + 1 - s - len
      {
        if s + len > |t| {
          return Undefined, s, len;
        }
        var c := At(t, s + len);
        if c == '/' || c == '\0' || c == '#' || c == '?' {
          return Yes, s, len;
        }
        if c == '@' {
          if userinfo != "" {
            return No, s, len;
          }
          userinfo := t[s..s + len];
          s := s + len + 1;
          len := 0;
        }
        len := len + 1;
      }
    }

    /** With the host text stored: what follows it, then the host text itself. */
    method ParseTarget(rest: string) returns (v: Verdict)
      requires NulFree(host)
      modifies `requri, `path, `query, `fragment, `hostname, `port
      ensures Leaves(TargetOutcome(rest, old(Value())), v, Value())
    {
      var ok := UrlParseRequri(rest);
      if !ok {
        return No;
      }
      ok := FillHost();
      return if ok then Yes else No;
    }

    method ParseRest(t: string, from: nat) returns (v: Verdict)
      requires NulFree(t) && from <= |t|
      modifies this
      ensures Leaves(ParseAuthority(t, from, old(Value())), v, Value())
    {
      var s, len;
      v, s, len := FindHost(t, from);
      if v != Yes {
        return v;
      }
      ghost var start := s;
      var end := s + len;
      if len > 1 && "*:" <= t[s..] {
        s := s + 1;
      }
      host := t[s..end];
      assert s == SkipStar(t, start, end);
      AuthorityFound(t, from, old(Value()), Value(), start, end, t[end..]);
      v := ParseTarget(t[end..]);
    }

    method UrlParse(raw: string) returns (v: Verdict)
      modifies this
      ensures Leaves(ParseUrl(raw, old(Value())), v, Value())
    {
      rawurl := raw;
      var t := CString(raw);
      var n := ScanTo(t, 0, ':', ':');
      IndexIs(t, ':', 0, n);
      if !("://" <= t[n..]) {
        return No;
      }
      scheme := t[..n];
      if scheme == "unix" {
        path := t[n + 3..];
        return Yes;
      }
      v := ParseRest(t, n + 3);
    }
  }

  lemma AuthorityFound(t: string, from: nat, u: Url, v: Url, start: nat, end: nat, rest: string)
    requires from <= |t| && start <= end <= |t| && rest == t[end..]
    requires ScanAuthority(t, from, from, u.userinfo) == Host(v.userinfo, start, end)
    requires v == u.(userinfo := v.userinfo, host := t[SkipStar(t, start, end)..end])
    ensures ParseAuthority(t, from, u) == TargetOutcome(rest, v)
  {
  }

  lemma EndIs(s: string, n: nat)
    requires n <= |s| && (n < |s| ==> SuffixMark(s[n]))
    requires forall k :: 0 <= k < n ==> !SuffixMark(s[k])
    ensures PathEnd(s) == n
  {
  }

  lemma CanonifyNulFree(s: string)
    requires NulFree(s) && Canonify(s).Some?
    ensures NulFree(Canonify(s).value)
  {
    SafeDecodeNulFree(s);
    SqueezeNulFree(SafeDecode(s).value);
    ReduceNulFree("", Squeeze(SafeDecode(s).value));
  }
}
