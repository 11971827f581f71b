/** Printing a URL's components and parsing them back. */
module UrlRoundTrip {
  import opened Options
  import opened Substring
  import opened UrlText
  import opened UrlSegments
  import opened UrlCanonify
  import opened UrlCanonical
  import opened UrlParse
  import opened Utf8

  // ----- the request target

  function Unsplit(q: Requri): string {
    q.path
    + ((if q.query.Some? then "?" + q.query.value else "")
       + (if q.fragment.Some? then "#" + q.fragment.value else ""))
  }

  ghost predicate Separable(q: Requri) {
    NoMarks(q.path) && (q.query.Some? ==> '#' !in q.query.value)
  }

  /** Splitting loses nothing and puts every mark where it belongs. */
  lemma UnsplitSplit(r: string)
    ensures Separable(SplitRequri(r)) && Unsplit(SplitRequri(r)) == r
  {
    CutSuffix(r);
    UnsplitSuffix(r);
    if SplitRequri(r).query.Some? {
      QueryPiece(r, PathEnd(r), IndexFrom(r, '#', PathEnd(r) + 1));
    }
  }

  lemma UnsplitSuffix(r: string)
    ensures var q := SplitRequri(r);
            (if q.query.Some? then "?" + q.query.value else "")
            + (if q.fragment.Some? then "#" + q.fragment.value else "")
            == SuffixOf(r)
  {
    var s := PathEnd(r);
    if s < |r| && r[s] == '?' {
      QueryPiece(r, s, IndexFrom(r, '#', s + 1));
    } else {
      TailPiece(r, s);
      NoneAround(r[s..]);
      assert SplitRequri(r).query == None;
    }
  }

  lemma QueryPiece(r: string, s: nat, e: nat)
    requires s < e <= |r| && r[s] == '?' && e == IndexFrom(r, '#', s + 1)
    ensures var f := if e < |r| then "#" + r[e + 1..] else "";
            r[s..] == ("?" + r[s + 1..e]) + f
    ensures '#' !in r[s + 1..e]
  {
    NoneBeforeIndex(r, '#', s + 1);
    SuffixPieces(r, s, e);
    TailPiece(r, e);
  }

  lemma SuffixPieces(r: string, s: nat, e: nat)
    requires s < e <= |r|
    ensures r[s..] == [r[s]] + r[s + 1..e] + r[e..]
  {
  }

  lemma TailPiece(r: string, e: nat)
    requires e <= |r|
    ensures if e < |r| then r[e..] == [r[e]] + r[e + 1..] else r[e..] == ""
  {
  }

  /** Separable components are found again. */
  lemma SplitUnsplit(q: Requri)
    requires Separable(q)
    ensures SplitRequri(Unsplit(q)) == q
  {
    var f := if q.fragment.Some? then "#" + q.fragment.value else "";
    if q.query.Some? {
      SplitQueried(q.path, q.query.value, f);
    } else {
      NoneAround(f);
      SplitPlain(q.path, f);
    }
  }

  predicate Fragment(f: string) { f == "" || f[0] == '#' }

  lemma SplitPlain(path: string, f: string)
    requires NoMarks(path) && Fragment(f)
    ensures SplitRequri(path + f) == Requri(path, None, if f == "" then None else Some(f[1..]))
  {
    var r := path + f;
    AllSuffix(path, f);
    Joined(path, f);
    assert f != "" ==> r[|path| + 1..] == f[1..] && r[|path|] == f[0];
  }

  lemma SplitQueried(path: string, query: string, f: string)
    requires NoMarks(path) && Fragment(f) && '#' !in query
    ensures SplitRequri(path + (("?" + query) + f)) == Requri(path, Some(query), if f == "" then None else Some(f[1..]))
  {
    var suffix := ("?" + query) + f;
    var r := path + suffix;
    AllSuffix(path, suffix);
    QueryBehind(path, query, f);
    HashBehind(query, f);
    IndexBehind(path + "?", query + f, '#', 0);
    PiecesBehind(r, |path| + 1, query, f);
  }

  lemma PiecesBehind(r: string, i: nat, query: string, f: string)
    requires i <= |r| && r[i..] == query + f
    ensures var e := i + |query|;
            e <= |r| && r[i..e] == query && (e < |r| <==> f != "") && (e < |r| ==> r[e] == f[0] && r[e + 1..] == f[1..])
  {
    var e := i + |query|;
    assert |r[i..]| == |r| - i;
    assert r[i..e] == r[i..][..|query|] && r[e..] == r[i..][|query|..];
    assert e < |r| ==> r[e] == r[e..][0] && r[e + 1..] == r[e..][1..];
  }

  lemma QueryBehind(path: string, query: string, f: string)
    ensures var r := path + (("?" + query) + f);
            && r == (path + "?") + (query + f) && r[|path|] == '?' && r[|path| + 1..] == query + f
  {
    Assoc("?", query, f);
    Assoc(path, "?", query + f);
    Joined(path + "?", query + f);
  }

  lemma HashBehind(query: string, f: string)
    requires Fragment(f) && '#' !in query
    ensures IndexOf(query + f, '#') == |query|
  {
    var t := query + f;
    forall k | 0 <= k < |query| ensures t[k] != '#' {
      assert t[k] == query[k] && query[k] in query;
    }
    assert |query| < |t| ==> t[|query|] == f[0];
    IndexIs(t, '#', 0, |query|);
  }

  /** An accepted target is stored canonical; parsing the stored text again gives the same components. */
  lemma RequriFixpoint(raw: string, u: Url)
    requires ParseRequri(raw, u).Some?
    ensures var v := ParseRequri(raw, u).value;
            && v.requri == Unsplit(SplitRequri(v.requri)) && Separable(SplitRequri(v.requri))
            && ParseRequri(v.requri, u) == Some(v)
  {
    var r := Canonify(CString(raw)).value;
    Idempotent(CString(raw));
    CanonifyNulFree(CString(raw));
    CStringWhole(r);
    UnsplitSplit(r);
  }

  // ----- the port

  predicate AllDigits(s: string) { s != "" && forall c :: c in s ==> Digit(c) }

  lemma {:induction false} LeadingAll(s: string)
    requires forall c :: c in s ==> Digit(c)
    ensures LeadingDigits(s) == s
    decreases |s|
  {
    if s == "" {
    } else {
      assert s[0] in s;
      LeadingAll(s[1..]);
      assert s == [s[0]] + s[1..];
    }
  }

  lemma StoiDigits(s: string)
    requires AllDigits(s) && DigitsValue(s) <= INT_MAX
    ensures Stoi(s) == Some(DigitsValue(s))
  {
    assert s[0] in s;
    assert SkipSpace(s) == s;
    LeadingAll(s);
  }

  function Decimal(n: nat): string {
    if n < 10 then [(n + '0' as int) as char] else Decimal(n / 10) + [(n % 10 + '0' as int) as char]
  }

  lemma {:induction false} DecimalValue(n: nat)
    ensures AllDigits(Decimal(n)) && DigitsValue(Decimal(n)) == n
    decreases n
  {
    var s := Decimal(n);
    if n < 10 {
      assert s[..0] == "";
    } else {
      DecimalValue(n / 10);
      assert s[..|s| - 1] == Decimal(n / 10);
      forall c | c in s ensures Digit(c) {}
    }
  }

  // ----- the whole URL

  datatype Parts = Parts(scheme: string, user: Option<string>, name: string, bracketed: bool,
                         port: Option<string>, requri: string)

  function PortText(p: Parts): string { if p.port.Some? then ":" + p.port.value else "" }

  function HostText(p: Parts): string {
    (if p.bracketed then "[" + p.name + "]" else p.name) + PortText(p)
  }

  function UserText(p: Parts): string { if p.user.Some? then p.user.value + "@" else "" }

  function Render(p: Parts): string {
    p.scheme + ("://" + (UserText(p) + (HostText(p) + p.requri)))
  }

  /** Free of everything that ends or divides the authority. */
  predicate Inside(s: string) {
    forall c :: c in s ==> c !in "/?#@"
  }

  predicate GoodParts(p: Parts) {
    && NulFree(Render(p))
    && ':' !in p.scheme && p.scheme != "unix"
    && (p.user.Some? ==> p.user.value != "" && Inside(p.user.value) && HostText(p) != "")
    && Inside(p.name)
    && (if p.bracketed then ']' !in p.name else ':' !in p.name && !("[" <= p.name))
    && (match p.port
        case Some(d) => AllDigits(d) && DigitsValue(d) <= INT_MAX && (p.bracketed || p.name != "*")
        case None => DefaultPort(p.scheme) != NPORT)
    && Canonify(p.requri) == Some(p.requri)
    && (p.requri != "" ==> p.requri[0] in "/?#")
  }

  function PortValue(p: Parts): int {
    if p.port.Some? then DigitsValue(p.port.value) else DefaultPort(p.scheme)
  }

  lemma {:induction false} ScanInside(t: string, start: nat, i: nat, j: nat, user: string)
    requires start <= i <= j <= |t|
    requires forall k :: i <= k < j ==> !EndsAuthority(t[k]) && t[k] != '@'
    ensures ScanAuthority(t, start, i, user) == ScanAuthority(t, start, j, user)
    decreases j - i
  {
    if i == j {
    } else {
      ScanInside(t, start, i + 1, j, user);
    }
  }

  lemma InsideAt(t: string, from: nat, s: string, rest: string)
    requires from <= |t| && t[from..] == s + rest && Inside(s)
    ensures forall k :: from <= k < from + |s| ==> !EndsAuthority(t[k]) && t[k] != '@'
    ensures from + |s| <= |t| && t[from + |s|..] == rest && t[from..from + |s|] == s
  {
    assert |t[from..]| == |t| - from;
    forall k | from <= k < from + |s| ensures !EndsAuthority(t[k]) && t[k] != '@' {
      assert t[k] == t[from..][k - from] == s[k - from] && s[k - from] in s;
    }
    assert t[from + |s|..] == t[from..][|s|..];
    assert t[from..from + |s|] == t[from..][..|s|];
  }

  lemma HostInside(p: Parts)
    requires GoodParts(p)
    ensures Inside(HostText(p))
  {
    var s := HostText(p);
    forall c | c in s ensures !EndsAuthority(c) && c != '@' {
      assert c in p.name || c == '[' || c == ']' || c == ':' || (p.port.Some? && c in p.port.value);
    }
  }

  /** Where a host text lies when it begins at `start`, and that the scan ends with it. */
  lemma HostFound(h: string, rest: string, t: string, start: nat, i: nat, user: string)
    requires Inside(h) && (rest != "" ==> EndsAuthority(rest[0])) && !StarColon(h)
    requires start <= i <= start + |h| && start <= |t| && t[start..] == h + rest
    ensures var end := start + |h|;
            && ScanAuthority(t, start, i, user) == Host(user, start, end)
            && end <= |t| && t[start..end] == h && t[end..] == rest
            && SkipStar(t, start, end) == start
  {
    var end := start + |h|;
    InsideAt(t, start, h, rest);
    ScanInside(t, start, i, end, user);
    assert end < |t| ==> t[end] == t[end..][0];
    if |h| > 1 {
      assert t[start..][0] == h[0] && t[start..][1] == h[1];
    }
  }

  predicate StarColon(h: string) { |h| > 1 && h[0] == '*' && h[1] == ':' }

  /** The host text never is a star before a colon. */
  lemma NotStar(p: Parts)
    requires p.bracketed || ':' !in p.name
    requires p.port.Some? ==> p.bracketed || p.name != "*"
    ensures !StarColon(HostText(p))
  {
    var h := HostText(p);
    if !p.bracketed && |h| > 1 {
      if |p.name| == 1 {
        assert h[0] == p.name[0];
        assert p.name[0] == '*' ==> p.name == "*";
      } else if |p.name| > 1 {
        assert h[1] == p.name[1] && p.name[1] in p.name;
      } else {
        assert h == PortText(p) && h[0] == ':';
      }
    }
  }

  lemma UserFound(user: string, t: string, from: nat, tail: string)
    requires Inside(user) && from <= |t| && t[from..] == user + ("@" + tail)
    ensures var start := from + |user| + 1;
            && start <= |t| && t[start..] == tail
            && ScanAuthority(t, from, from, "") == ScanAuthority(t, start, start + 1, user)
  {
    var j := from + |user|;
    InsideAt(t, from, user, "@" + tail);
    ScanInside(t, from, from, j, "");
    Joined("@", tail);
    assert t[j] == t[j..][0] == '@';
    assert t[j + 1..] == t[j..][1..];
  }

  lemma AuthorityRound(user: Option<string>, h: string, rest: string, t: string, from: nat)
    requires Inside(h) && (rest != "" ==> EndsAuthority(rest[0])) && !StarColon(h)
    requires user.Some? ==> Inside(user.value) && h != ""
    requires from <= |t| && t[from..] == (if user.Some? then user.value + "@" else "") + (h + rest)
    ensures var start := from + (if user.Some? then |user.value| + 1 else 0);
            var end := start + |h|;
            && ScanAuthority(t, from, from, "") == Host(if user.Some? then user.value else "", start, end)
            && end <= |t| && t[start..end] == h && t[end..] == rest
            && SkipStar(t, start, end) == start
  {
    if user.Some? {
      Assoc(user.value, "@", h + rest);
      UserAndHost(user.value, h, rest, t, from);
    } else {
      NoneAround(h + rest);
      HostFound(h, rest, t, from, from, "");
    }
  }

  lemma UserAndHost(user: string, h: string, rest: string, t: string, from: nat)
    requires Inside(user) && Inside(h) && h != "" && (rest != "" ==> EndsAuthority(rest[0])) && !StarColon(h)
    requires from <= |t| && t[from..] == user + ("@" + (h + rest))
    ensures var start := from + |user| + 1;
            var end := start + |h|;
            && ScanAuthority(t, from, from, "") == Host(user, start, end)
            && end <= |t| && t[start..end] == h && t[end..] == rest
            && SkipStar(t, start, end) == start
  {
    UserFound(user, t, from, h + rest);
    HostFound(h, rest, t, from + |user| + 1, from + |user| + 2, user);
  }

  lemma HostSplit(p: Parts)
    requires GoodParts(p)
    ensures SplitHost(HostText(p)) == Some((p.name, PortText(p)))
  {
    var h := HostText(p);
    if p.bracketed {
      var n := 1 + |p.name|;
      assert h[1..n] == p.name && h[n] == ']' && h[n + 1..] == PortText(p);
      forall k | 1 <= k < n ensures h[k] != ']' {
        assert h[k] == p.name[k - 1] && p.name[k - 1] in p.name;
      }
      IndexIs(h, ']', 1, n);
    } else {
      var n := |p.name|;
      assert h[..n] == p.name && h[n..] == PortText(p);
      forall k | 0 <= k < n ensures h[k] != ':' {
        assert h[k] == p.name[k] && p.name[k] in p.name;
      }
      assert n > 0 ==> h[0] == p.name[0];
      IndexIs(h, ':', 0, n);
    }
  }

  lemma PortRound(p: Parts)
    requires GoodParts(p)
    ensures PortOf(PortText(p), p.scheme) == PortValue(p) != NPORT
  {
    if p.port.Some? {
      assert PortText(p)[1..] == p.port.value;
      StoiDigits(p.port.value);
    }
  }

  lemma SchemeFound(p: Parts)
    requires GoodParts(p)
    ensures var t, n := Render(p), |p.scheme|;
            && CString(t) == t && IndexOf(t, ':') == n && t[..n] == p.scheme && "://" <= t[n..]
            && t[n + 3..] == UserText(p) + (HostText(p) + p.requri)
  {
    var t, n := Render(p), |p.scheme|;
    CStringWhole(t);
    forall k | 0 <= k < n ensures t[k] != ':' {
      assert t[k] == p.scheme[k] && p.scheme[k] in p.scheme;
    }
    assert t[n..] == "://" + (UserText(p) + (HostText(p) + p.requri));
    assert t[n] == t[n..][0];
    assert t[n..][..3] == "://" && t[n + 3..] == t[n..][3..];
    IndexIs(t, ':', 0, n);
  }

  function Fresh(port: int): Url { Url("", "", "", "", "", port, "", "", "", "") }

  /** What a fresh record holds after the parse. */
  function Expected(p: Parts): Url {
    var q := SplitRequri(p.requri);
    Url(Render(p), p.scheme, if p.user.Some? then p.user.value else "", HostText(p), p.name, PortValue(p),
        p.requri, q.path,
        if q.query.Some? then q.query.value else "", if q.fragment.Some? then q.fragment.value else "")
  }

  lemma TargetRound(p: Parts, u: Url)
    requires GoodParts(p) && u.host == HostText(p) && u.scheme == p.scheme
    ensures TargetOutcome(p.requri, u) == Parsed(StoreRequri(u, p.requri).(hostname := p.name, port := PortValue(p)))
  {
    CStringWhole(p.requri) by { RequriNulFree(p); }
    HostSplit(p);
    PortRound(p);
  }

  lemma RequriNulFree(p: Parts)
    requires NulFree(Render(p))
    ensures NulFree(p.requri)
  {
    var t, r := Render(p), p.requri;
    var k := |t| - |r|;
    assert t == p.scheme + ("://" + (UserText(p) + HostText(p))) + r;
    forall i | 0 <= i < |r| ensures r[i] != '\0' { assert r[i] == t[k + i]; }
  }

  lemma ParseFrom(raw: string, v: Url, t: string, n: nat)
    requires t == CString(raw) && n == IndexOf(t, ':') && "://" <= t[n..] && t[..n] != "unix"
    ensures ParseUrl(raw, v) == ParseAuthority(t, n + 3, v.(rawurl := raw, scheme := t[..n]))
  {
  }

  /** Round trip: every well-formed list of components is printed to a text that parses to exactly them. */
  lemma UrlRound(p: Parts, port: int)
    requires GoodParts(p)
    ensures ParseUrl(Render(p), Fresh(port)) == Parsed(Expected(p))
  {
    var t, n := Render(p), |p.scheme|;
    var u := Fresh(port).(rawurl := t, scheme := p.scheme);
    SchemeFound(p);
    ParseFrom(t, Fresh(port), t, n);
    UrlRoundAuthority(p, u, t, n + 3);
    ExpectedStored(p, u);
  }

  lemma ExpectedStored(p: Parts, u: Url)
    requires GoodParts(p) && u == Fresh(u.port).(rawurl := Render(p), scheme := p.scheme)
    ensures var v := u.(userinfo := if p.user.Some? then p.user.value else "", host := HostText(p));
            StoreRequri(v, p.requri).(hostname := p.name, port := PortValue(p)) == Expected(p)
  {
  }

  lemma UrlRoundAuthority(p: Parts, u: Url, t: string, from: nat)
    requires GoodParts(p) && u.userinfo == "" && u.scheme == p.scheme
    requires from <= |t| && t[from..] == UserText(p) + (HostText(p) + p.requri)
    ensures var v := u.(userinfo := if p.user.Some? then p.user.value else "", host := HostText(p));
            ParseAuthority(t, from, u) == Parsed(StoreRequri(v, p.requri).(hostname := p.name, port := PortValue(p)))
  {
    var v := u.(userinfo := if p.user.Some? then p.user.value else "", host := HostText(p));
    HostInside(p);
    NotStar(p);
    HostStored(p.user, HostText(p), p.requri, u, v, t, from);
    TargetRound(p, v);
  }

  lemma HostStored(user: Option<string>, h: string, rest: string, u: Url, v: Url, t: string, from: nat)
    requires Inside(h) && (rest != "" ==> EndsAuthority(rest[0])) && !StarColon(h)
    requires user.Some? ==> Inside(user.value) && h != ""
    requires from <= |t| && t[from..] == (if user.Some? then user.value + "@" else "") + (h + rest)
    requires u.userinfo == "" && v == u.(userinfo := if user.Some? then user.value else "", host := h)
    ensures ParseAuthority(t, from, u) == TargetOutcome(rest, v)
  {
    var start := from + (if user.Some? then |user.value| + 1 else 0);
    AuthorityRound(user, h, rest, t, from);
    AuthorityFound(t, from, u, v, start, start + |h|, rest);
  }

  // ----- when the parse is defined

  /** The host scan runs past the end of this authority and what follows it. */
  predicate Overruns(a: string) {
    && a != "" && a[|a| - 1] == '@'
    && (Inside(a[..|a| - 1]) || (|a| >= 3 && a[0] == '@' && Inside(a[2..|a| - 1])))
  }

  lemma InsideCons(c: char, s: string)
    ensures Inside([c] + s) <==> !EndsAuthority(c) && c != '@' && Inside(s)
  {
    assert c in [c] + s && forall d :: d in s ==> d in [c] + s;
  }

  /** Where the scan stands at `i`: it stays inside with a user, and without one unless the next '@' ends the text. */
  lemma {:induction false} ScanOverruns(t: string, start: nat, i: nat, user: string)
    requires start < i <= |t| || (start == i <= |t| && user != "")
    ensures ScanAuthority(t, start, i, user).PastTheEnd? <==>
            user == "" && i < |t| && t[|t| - 1] == '@' && Inside(t[i..|t| - 1])
    decreases |t| - i
  {
    if i == |t| {
    } else {
      var rest := t[i..|t| - 1];
      if i < |t| - 1 {
        assert rest == [t[i]] + t[i + 1..|t| - 1];
        InsideCons(t[i], t[i + 1..|t| - 1]);
      }
      if EndsAuthority(t[i]) {
      } else if t[i] != '@' {
        ScanOverruns(t, start, i + 1, user);
      } else if user == "" && i + 2 <= |t| {
        ScanOverruns(t, i + 1, i + 2, t[start..i]);
      }
    }
  }

  /** From the beginning of the authority: an '@' there leaves the user empty, so that a second one is let through. */
  lemma {:induction false} ScanFromStart(t: string, from: nat, user: string)
    requires from <= |t|
    ensures ScanAuthority(t, from, from, user).PastTheEnd? <==> user == "" && Overruns(t[from..])
  {
    var a := t[from..];
    if user != "" || a == "" {
      if user != "" { ScanOverruns(t, from, from, user); }
    } else {
      assert a[0] == t[from] && a[|a| - 1] == t[|t| - 1];
      assert a[..|a| - 1] == t[from..|t| - 1];
      if |a| > 1 {
        assert a[..|a| - 1] == [a[0]] + t[from + 1..|t| - 1];
        InsideCons(a[0], t[from + 1..|t| - 1]);
        if a[0] == '@' {
          assert t[from..from] == "";
          assert ScanAuthority(t, from, from, "") == ScanAuthority(t, from + 1, from + 2, "");
          ScanOverruns(t, from + 1, from + 2, "");
          if |a| >= 3 {
            assert a[2..|a| - 1] == t[from + 2..|t| - 1];
          }
        } else if !EndsAuthority(a[0]) {
          ScanOverruns(t, from, from + 1, user);
        }
      }
    }
  }

  /**
   The parse reads past the terminating NUL if and only if the record has no user yet and the text behind
   "scheme://" ends with an '@' that is the first '@' or authority end in it, or the first one behind a
   leading '@' and the character that is skipped after it.
   */
  lemma UndefinedExactly(raw: string, u: Url)
    ensures var t := CString(raw);
            var n := IndexOf(t, ':');
            ParseUrl(raw, u).PastEnd? <==>
              && "://" <= t[n..] && t[..n] != "unix"
              && u.userinfo == "" && Overruns(t[n + 3..])
  {
    var t := CString(raw);
    var n := IndexOf(t, ':');
    if "://" <= t[n..] && t[..n] != "unix" {
      var v := u.(rawurl := raw, scheme := t[..n]);
      ScanFromStart(t, n + 3, v.userinfo);
      NotPastEnd(t, n + 3, v);
    }
  }

  lemma NotPastEnd(t: string, from: nat, u: Url)
    requires from <= |t|
    ensures ParseAuthority(t, from, u).PastEnd? <==> ScanAuthority(t, from, from, u.userinfo).PastTheEnd?
  {
  }

  /** In particular an authority that is a user and nothing else does, in a fresh record. */
  lemma UserOnly(user: string, t: string, from: nat, u: Url)
    requires Inside(user) && u.userinfo == ""
    requires from <= |t| && t[from..] == user + "@"
    ensures ParseAuthority(t, from, u).PastEnd?
  {
    ScanFromStart(t, from, "");
    assert t[from..][..|user|] == user;
  }
}
