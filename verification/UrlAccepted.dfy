/** Exactly which texts are accepted as a URL, and what their components are, read off the text. */
module UrlAccepted {
  import opened Options
  import opened Substring
  import opened UrlCanonify
  import opened UrlParse
  import opened UrlRoundTrip
  import opened UrlReprint
  import opened Utf8

  // ----- numbers

  predicate Blanks(s: string) { forall c :: c in s ==> c == ' ' || '\t' <= c <= '\r' }

  predicate AllDecimal(s: string) { forall c :: c in s ==> c in "0123456789" }

  /** Blanks, one optional sign, a run of digits, and whatever follows them. */
  predicate NumberParts(d: string, blanks: string, sign: string, digits: string, junk: string) {
    && d == blanks + (sign + (digits + junk))
    && Blanks(blanks) && sign in {"", "+", "-"}
    && digits != "" && AllDecimal(digits) && (junk != "" ==> junk[0] !in "0123456789")
  }

  function Signed(sign: string, digits: string): int {
    if sign == "-" then 0 - DigitsValue(digits) else DigitsValue(digits)
  }

  /** The text begins with this number, and it is one of 32 bits. */
  ghost predicate Number(d: string, v: int) {
    -2147483648 <= v <= 2147483647
    && exists blanks, sign, digits, junk :: NumberParts(d, blanks, sign, digits, junk) && v == Signed(sign, digits)
  }

  lemma DigitIs(c: char)
    ensures Digit(c) <==> c in "0123456789"
  {
  }

  lemma {:induction false} SkipBlanks(blanks: string, t: string)
    requires Blanks(blanks) && (t != "" ==> !Space(t[0]))
    ensures SkipSpace(blanks + t) == t
    decreases |blanks|
  {
    if blanks == "" {
      assert blanks + t == t;
    } else {
      assert blanks[0] in blanks && (blanks + t)[1..] == blanks[1..] + t;
      assert forall c :: c in blanks[1..] ==> c in blanks;
      SkipBlanks(blanks[1..], t);
    }
  }

  lemma {:induction false} DigitsFirst(digits: string, junk: string)
    requires AllDecimal(digits) && (junk != "" ==> junk[0] !in "0123456789")
    ensures LeadingDigits(digits + junk) == digits
    decreases |digits|
  {
    if digits == "" {
      assert digits + junk == junk;
      if junk != "" { DigitIs(junk[0]); }
    } else {
      assert digits[0] in digits && (digits + junk)[1..] == digits[1..] + junk;
      DigitIs(digits[0]);
      DigitsFirst(digits[1..], junk);
      assert digits == [digits[0]] + digits[1..];
    }
  }

  lemma StoiRead(d: string, blanks: string, sign: string, digits: string, junk: string)
    requires NumberParts(d, blanks, sign, digits, junk)
    ensures Stoi(d) == if INT_MIN <= Signed(sign, digits) <= INT_MAX then Some(Signed(sign, digits)) else None
  {
    var s := sign + (digits + junk);
    assert digits[0] in digits;
    DigitIs(digits[0]);
    assert sign == "" ==> s == digits + junk && s[0] == digits[0];
    assert sign != "" ==> s[0] == sign[0] && s[1..] == digits + junk;
    SkipBlanks(blanks, s);
    DigitsFirst(digits, junk);
  }

  lemma {:induction false} BlanksFound(d: string) returns (blanks: string, s: string)
    ensures d == blanks + s && Blanks(blanks) && s == SkipSpace(d)
    decreases |d|
  {
    if d == "" || !Space(d[0]) {
      blanks, s := "", d;
      NoneAround(d);
    } else {
      var more;
      more, s := BlanksFound(d[1..]);
      blanks := [d[0]] + more;
      assert d == [d[0]] + d[1..];
      Assoc([d[0]], more, s);
    }
  }

  lemma {:induction false} DigitsFound(t: string) returns (junk: string)
    ensures t == LeadingDigits(t) + junk && AllDecimal(LeadingDigits(t)) && (junk != "" ==> junk[0] !in "0123456789")
    decreases |t|
  {
    if t == "" || !Digit(t[0]) {
      junk := t;
      NoneAround(t);
      if t != "" { DigitIs(t[0]); }
    } else {
      DigitIs(t[0]);
      junk := DigitsFound(t[1..]);
      assert t == [t[0]] + t[1..];
      Assoc([t[0]], LeadingDigits(t[1..]), junk);
    }
  }

  lemma StoiFound(d: string) returns (blanks: string, sign: string, digits: string, junk: string)
    requires Stoi(d).Some?
    ensures NumberParts(d, blanks, sign, digits, junk)
  {
    var s;
    blanks, s := BlanksFound(d);
    var signed := s != "" && (s[0] == '-' || s[0] == '+');
    sign := if signed then [s[0]] else "";
    var t := if signed then s[1..] else s;
    assert s == sign + t;
    digits := LeadingDigits(t);
    junk := DigitsFound(t);
  }

  /** A text gives a number exactly when it begins with one that fits. */
  lemma StoiExactly(d: string, v: int)
    ensures Stoi(d) == Some(v) <==> Number(d, v)
  {
    if Stoi(d) == Some(v) {
      var blanks, sign, digits, junk := StoiFound(d);
      StoiRead(d, blanks, sign, digits, junk);
    }
    if Number(d, v) {
      var blanks, sign, digits, junk :| NumberParts(d, blanks, sign, digits, junk) && v == Signed(sign, digits);
      StoiRead(d, blanks, sign, digits, junk);
    }
  }

  // ----- the port

  predicate KnownPort(scheme: string, port: int) {
    (scheme, port) in {("git", 9418), ("gopher", 70), ("http", 80), ("https", 443),
                       ("ssh", 22), ("telnet", 23), ("ws", 80), ("wss", 443)}
  }

  lemma DefaultExactly(scheme: string, port: int)
    ensures DefaultPort(scheme) == port && port != -1 <==> KnownPort(scheme, port)
  {
  }

  /** The scheme's port where none is written; otherwise the number behind the colon, which must not be -1. */
  ghost predicate PortSays(scheme: string, tail: string, port: int) {
    if tail == "" then KnownPort(scheme, port) else tail[0] == ':' && port != -1 && Number(tail[1..], port)
  }

  lemma PortExactly(scheme: string, tail: string, port: int)
    requires tail != "" ==> tail[0] == ':'
    ensures PortOf(tail, scheme) == port && port != -1 <==> PortSays(scheme, tail, port)
  {
    DefaultExactly(scheme, port);
    if tail != "" { StoiExactly(tail[1..], port); }
  }

  // ----- the host

  /** A name, in brackets or without a colon, and nothing or a colon behind it. */
  predicate HostParts(h: string, name: string, tail: string) {
    && (tail != "" ==> tail[0] == ':')
    && if h != "" && h[0] == '[' then h == "[" + (name + ("]" + tail)) && ']' !in name
       else h == name + tail && ':' !in name
  }

  lemma HostRead(h: string, name: string, tail: string)
    requires HostParts(h, name, tail)
    ensures SplitHost(h) == Some((name, tail))
  {
    if h != "" && h[0] == '[' {
      BracketRead(h, name, tail);
    } else {
      PieceAt(h, 0, name, tail);
      assert forall k :: 0 <= k < |name| ==> h[k] == name[k] && name[k] in name;
      IndexIs(h, ':', 0, |name|);
    }
  }

  lemma BracketRead(h: string, name: string, tail: string)
    requires h == "[" + (name + ("]" + tail)) && ']' !in name && (tail != "" ==> tail[0] == ':')
    ensures SplitHost(h) == Some((name, tail))
  {
    var n := 1 + |name|;
    NoneAround(h);
    Joined("[", name + ("]" + tail));
    Joined(name, "]" + tail);
    assert h[1..] == name + ("]" + tail);
    PieceAt(h, 1, name, "]" + tail);
    assert h[n] == h[n..][0] && h[n + 1..] == h[n..][1..];
    BracketAt(h, name, n);
    assert n + 1 < |h| ==> h[n + 1] == h[n + 1..][0];
  }

  lemma BracketAt(h: string, name: string, n: nat)
    requires 1 <= n < |h| && h[1..n] == name && ']' !in name && h[n] == ']'
    ensures IndexFrom(h, ']', 1) == n
  {
    forall k | 1 <= k < n ensures h[k] != ']' {
      assert h[k] == h[1..n][k - 1] && h[k] in name;
    }
    IndexIs(h, ']', 1, n);
  }

  lemma HostFoundParts(h: string)
    requires SplitHost(h).Some?
    ensures HostParts(h, SplitHost(h).value.0, SplitHost(h).value.1)
  {
    if h != "" && h[0] == '[' {
      var n := IndexFrom(h, ']', 1);
      NoneBeforeIndex(h, ']', 1);
      assert h == [h[0]] + (h[1..n] + ([h[n]] + h[n + 1..]));
      assert n + 1 < |h| ==> h[n + 1..][0] == h[n + 1];
    } else {
      var n := IndexOf(h, ':');
      NoneBeforeIndex(h, ':', 0);
      assert h == h[..n] + h[n..];
    }
  }

  /** Host name and port are what the host text says. */
  ghost predicate HostSays(scheme: string, h: string, name: string, port: int) {
    exists tail :: HostParts(h, name, tail) && PortSays(scheme, tail, port)
  }

  lemma HostExactly(u: Url, name: string, port: int)
    ensures FinishHost(u) == Parsed(u.(hostname := name, port := port)) <==> HostSays(u.scheme, u.host, name, port)
  {
    if SplitHost(u.host).Some? {
      var tail := SplitHost(u.host).value.1;
      HostFoundParts(u.host);
      PortExactly(u.scheme, tail, PortOf(tail, u.scheme));
      PortExactly(u.scheme, tail, port);
    }
    forall tail | HostParts(u.host, name, tail) && PortSays(u.scheme, tail, port)
      ensures FinishHost(u) == Parsed(u.(hostname := name, port := port))
    {
      HostRead(u.host, name, tail);
      PortExactly(u.scheme, tail, port);
    }
  }

  // ----- the authority

  /** `lead`: an '@' with no user before it, behind which one character is not looked at. */
  function AuthorityRaw(lead: bool, user: string, host: string): string {
    (if lead then "@" else "") + ((if user == "" then "" else user + "@") + host)
  }

  predicate AuthorityGood(lead: bool, user: string, host: string) {
    if user != "" then (if lead then Scanned(user) else Inside(user)) && Scanned(host)
    else if lead then Scanned(host)
    else Inside(host)
  }

  /** What was scanned: user, host, and the rest. */
  ghost predicate ScansTo(t: string, from: nat, user: string, host: string, rest: string)
    requires from <= |t|
  {
    var a := ScanAuthority(t, from, from, "");
    a.Host? && a.userinfo == user && t[a.start..a.end] == host && t[a.end..] == rest
  }

  /** A host behind an '@': its first character is not looked at. */
  lemma HostBehindAt(t: string, start: nat, host: string, rest: string, user: string)
    requires start <= |t| && t[start..] == host + rest && Scanned(host) && (rest != "" ==> rest[0] in "/?#")
    ensures var end := start + |host|;
            && ScanAuthority(t, start, start + 1, user) == Host(user, start, end)
            && end <= |t| && t[start..end] == host && t[end..] == rest
  {
    ScanTail(t, start, host, rest, user);
    PieceAt(t, start, host, rest);
    ScanEnd(t, start, start + |host|, user);
  }

  lemma LeadAt(t: string, from: nat, tail: string)
    requires from <= |t| && t[from..] == "@" + tail
    ensures from + 1 <= |t| && t[from + 1..] == tail
    ensures ScanAuthority(t, from, from, "") == ScanAuthority(t, from + 1, from + 2, "")
  {
    PieceAt(t, from, "@", tail);
    ScanAt(t, from, from);
    assert t[from..from] == "";
  }

  /** A user, the '@' behind it, and the host. */
  lemma UserHostRead(t: string, start: nat, i: nat, user: string, host: string, rest: string)
    requires user != "" && Scanned(host) && (rest != "" ==> rest[0] in "/?#")
    requires start <= |t| && t[start..] == user + ("@" + (host + rest))
    requires (i == start && Inside(user)) || (i == start + 1 && Scanned(user))
    ensures var a := ScanAuthority(t, start, i, "");
            a.Host? && a.userinfo == user && t[a.start..a.end] == host && t[a.end..] == rest
  {
    var tail := "@" + (host + rest);
    UserPassed(t, start, i, user, tail);
    ScanUser(t, start, user, tail);
    HostBehindAt(t, start + |user| + 1, host, rest, user);
  }

  lemma UserPassed(t: string, start: nat, i: nat, user: string, tail: string)
    requires user != "" && start <= |t| && t[start..] == user + tail
    requires (i == start && Inside(user)) || (i == start + 1 && Scanned(user))
    ensures start + |user| <= |t|
    ensures ScanAuthority(t, start, i, "") == ScanAuthority(t, start, start + |user|, "")
  {
    if i == start {
      InsideAt(t, start, user, tail);
      ScanInside(t, start, start, start + |user|, "");
    } else {
      ScanTail(t, start, user, tail, "");
    }
  }

  lemma AuthorityRead(t: string, from: nat, lead: bool, user: string, host: string, rest: string)
    requires AuthorityGood(lead, user, host) && (rest != "" ==> rest[0] in "/?#")
    requires from <= |t| && t[from..] == AuthorityRaw(lead, user, host) + rest
    ensures ScansTo(t, from, user, host, rest)
  {
    var body := (if user == "" then "" else user + "@") + host;
    RawTail(lead, user, host, rest);
    if lead {
      LeadAt(t, from, body + rest);
      if user == "" {
        HostBehindAt(t, from + 1, host, rest, "");
      } else {
        UserHostRead(t, from + 1, from + 2, user, host, rest);
      }
    } else if user == "" {
      InsideAt(t, from, host, rest);
      ScanInside(t, from, from, from + |host|, "");
      ScanEnd(t, from, from + |host|, "");
    } else {
      UserHostRead(t, from, from, user, host, rest);
    }
  }

  lemma RawTail(lead: bool, user: string, host: string, rest: string)
    ensures var body := (if user == "" then "" else user + "@") + host;
            && AuthorityRaw(lead, user, host) + rest == (if lead then "@" + (body + rest) else body + rest)
            && body + rest == (if user == "" then host + rest else user + ("@" + (host + rest)))
  {
    var body := (if user == "" then "" else user + "@") + host;
    NoneAround(body);
    NoneAround(host);
    Assoc("@", body, rest);
    Assoc(user, "@", host);
    Assoc(user, "@" + host, rest);
    Assoc("@", host, rest);
  }

  /** An accepted scan, taken apart again. */
  lemma AuthorityFoundRaw(t: string, from: nat) returns (lead: bool, user: string, host: string, rest: string)
    requires from <= |t| && ScanAuthority(t, from, from, "").Host?
    ensures AuthorityGood(lead, user, host) && (rest != "" ==> rest[0] in "/?#")
    ensures t[from..] == AuthorityRaw(lead, user, host) + rest
    ensures ScansTo(t, from, user, host, rest)
  {
    var j := ScanTo(t, from, from, "");
    if j == |t| || EndsAuthority(t[j]) {
      lead, user, host, rest := false, "", t[from..j], t[j..];
      CutAt(t, from, j);
      RawTail(lead, user, host, rest);
      assert rest != "" ==> rest[0] == t[j];
    } else if j > from {
      lead, user := false, t[from..j];
      host, rest := HostFoundRaw(t, j, user);
      CutAround(t, from, j);
      RawTail(lead, user, host, rest);
    } else {
      assert t[from..from] == "";
      lead, user, host, rest := LeadFoundRaw(t, from);
    }
  }

  lemma CutAt(t: string, i: nat, j: nat)
    requires i <= j <= |t|
    ensures t[i..] == t[i..j] + t[j..]
  {
  }

  lemma CutAround(t: string, i: nat, j: nat)
    requires i <= j < |t| && t[j] == '@'
    ensures t[i..] == t[i..j] + ("@" + t[j + 1..])
  {
  }

  /** The host behind the '@' at `j`. */
  lemma HostFoundRaw(t: string, j: nat, user: string) returns (host: string, rest: string)
    requires j < |t| && user != "" && ScanAuthority(t, j + 1, j + 2, user).Host?
    ensures Scanned(host) && (rest != "" ==> rest[0] in "/?#") && t[j + 1..] == host + rest
    ensures var a := ScanAuthority(t, j + 1, j + 2, user);
            a.userinfo == user && t[a.start..a.end] == host && t[a.end..] == rest
  {
    var k := ScanTo(t, j + 1, j + 2, user);
    host, rest := t[j + 1..k], t[k..];
    CutAt(t, j + 1, k);
    assert host[1..] == t[j + 2..k];
    assert rest != "" ==> rest[0] == t[k];
  }

  /** An '@' at the very beginning. */
  lemma LeadFoundRaw(t: string, from: nat) returns (lead: bool, user: string, host: string, rest: string)
    requires from < |t| && t[from] == '@' && ScanAuthority(t, from + 1, from + 2, "").Host?
    requires ScanAuthority(t, from, from, "") == ScanAuthority(t, from + 1, from + 2, "")
    ensures AuthorityGood(lead, user, host) && (rest != "" ==> rest[0] in "/?#")
    ensures t[from..] == AuthorityRaw(lead, user, host) + rest
    ensures ScansTo(t, from, user, host, rest)
  {
    lead := true;
    var k := ScanTo(t, from + 1, from + 2, "");
    var first := t[from + 1..k];
    assert first[1..] == t[from + 2..k];
    assert t[from..] == "@" + t[from + 1..];
    if k == |t| || EndsAuthority(t[k]) {
      user, host, rest := "", first, t[k..];
      CutAt(t, from + 1, k);
      assert rest != "" ==> rest[0] == t[k];
    } else {
      user := first;
      host, rest := HostFoundRaw(t, k, user);
      CutAround(t, from + 1, k);
    }
    RawTail(lead, user, host, rest);
  }

  // ----- the whole text

  /** A host text that begins with "*:" is stored without the star. */
  function Unstarred(host: string): string {
    if "*:" <= host then host[1..] else host
  }

  /** The target is canonicalised and divided at its first '?' and the first '#' behind it. */
  ghost predicate TargetSays(rest: string, u: Url) {
    && Canonify(rest) == Some(u.requri)
    && exists q :: Separable(q) && Unsplit(q) == u.requri && u.path == q.path
         && u.query == (if q.query.Some? then q.query.value else "")
         && u.fragment == (if q.fragment.Some? then q.fragment.value else "")
  }

  /** The components of a URL, where they stand in its text. */
  ghost predicate Describes(raw: string, u: Url, lead: bool, host: string, rest: string) {
    && u.rawurl == raw
    && CString(raw) == u.scheme + ("://" + (AuthorityRaw(lead, u.userinfo, host) + rest))
    && ':' !in u.scheme && u.scheme != "unix"
    && AuthorityGood(lead, u.userinfo, host) && (rest != "" ==> rest[0] in "/?#")
    && u.host == Unstarred(host)
    && TargetSays(rest, u) && HostSays(u.scheme, u.host, u.hostname, u.port)
  }

  lemma StoredSays(v: Url, r: string, w: Url)
    requires v.query == "" && v.fragment == ""
    ensures (exists q :: Separable(q) && Unsplit(q) == r && w == v.(requri := r, path := q.path,
               query := if q.query.Some? then q.query.value else "",
               fragment := if q.fragment.Some? then q.fragment.value else ""))
            <==> w == StoreRequri(v, r)
  {
    UnsplitSplit(r);
    forall q | Separable(q) && Unsplit(q) == r ensures q == SplitRequri(r) {
      SplitUnsplit(q);
    }
  }

  /** From the target on. */
  lemma TargetExactly(rest: string, v: Url, u: Url)
    requires NulFree(rest) && v.query == "" && v.fragment == ""
    requires v == u.(hostname := v.hostname, port := v.port, requri := v.requri, path := v.path,
                     query := v.query, fragment := v.fragment)
    ensures TargetOutcome(rest, v) == Parsed(u) <==>
            TargetSays(rest, u) && HostSays(u.scheme, u.host, u.hostname, u.port)
  {
    CStringWhole(rest);
    if Canonify(rest).Some? {
      var r := Canonify(rest).value;
      var x := StoreRequri(v, r);
      var w := u.(hostname := v.hostname, port := v.port);
      StoredSays(v, r, w);
      HostExactly(x, u.hostname, u.port);
    }
  }

  lemma FromAuthority(t: string, from: nat, v: Url, user: string, host: string, rest: string)
    requires from <= |t| && v.userinfo == "" && ScansTo(t, from, user, host, rest) && (rest != "" ==> rest[0] in "/?#")
    ensures ParseAuthority(t, from, v) == TargetOutcome(rest, v.(userinfo := user, host := Unstarred(host)))
  {
    var a := ScanAuthority(t, from, from, "");
    StarSkipped(t, a.start, a.end, host, rest);
    AuthorityFound(t, from, v, v.(userinfo := user, host := Unstarred(host)), a.start, a.end, rest);
  }

  lemma StarSkipped(t: string, start: nat, end: nat, host: string, rest: string)
    requires start <= end <= |t| && t[start..end] == host && t[end..] == rest && (rest != "" ==> rest[0] in "/?#")
    ensures t[SkipStar(t, start, end)..end] == Unstarred(host)
  {
    CutAt(t, start, end);
    assert t[start..] == host + rest;
    if |host| > 1 {
      assert t[start..][..2] == host[..2];
    }
    if host != "" {
      assert t[start + 1..end] == host[1..];
    }
  }

  /** What the parse stores of an accepted text. */
  lemma AcceptedDescribes(raw: string, port: int) returns (lead: bool, host: string, rest: string)
    requires ParseUrl(raw, Fresh(port)).Parsed? && ParseUrl(raw, Fresh(port)).u.scheme != "unix"
    ensures Describes(raw, ParseUrl(raw, Fresh(port)).u, lead, host, rest)
  {
    var t := CString(raw);
    var n := IndexOf(t, ':');
    var v := Fresh(port).(rawurl := raw, scheme := t[..n]);
    SchemeAccepted(raw, Fresh(port));
    var user;
    lead, user, host, rest := AuthorityFoundRaw(t, n + 3);
    FromAuthority(t, n + 3, v, user, host, rest);
    RestNulFree(t, n + 3, AuthorityRaw(lead, user, host), rest);
    TargetDescribed(rest, v.(userinfo := user, host := Unstarred(host)));
  }

  lemma SchemeAccepted(raw: string, v: Url)
    requires ParseUrl(raw, v).Parsed? && ParseUrl(raw, v).u.scheme != "unix"
    ensures var t := CString(raw);
            var n := IndexOf(t, ':');
            && n + 3 <= |t| && t == t[..n] + ("://" + t[n + 3..]) && ':' !in t[..n] && t[..n] != "unix"
            && ParseUrl(raw, v) == ParseAuthority(t, n + 3, v.(rawurl := raw, scheme := t[..n]))
  {
    var t := CString(raw);
    var n := IndexOf(t, ':');
    NoneBeforeIndex(t, ':', 0);
    ParseFrom(raw, v, t, n);
    SchemeText(t, n);
  }

  lemma TargetDescribed(rest: string, x: Url)
    requires NulFree(rest) && x.query == "" && x.fragment == "" && TargetOutcome(rest, x).Parsed?
    ensures var u := TargetOutcome(rest, x).u;
            && u.rawurl == x.rawurl && u.scheme == x.scheme && u.userinfo == x.userinfo && u.host == x.host
            && TargetSays(rest, u) && HostSays(u.scheme, u.host, u.hostname, u.port)
  {
    TargetKeeps(rest, x);
    StoredRecord(rest, x);
    TargetExactly(rest, x, TargetOutcome(rest, x).u);
  }

  lemma SchemeText(t: string, n: nat)
    requires n <= |t| && "://" <= t[n..]
    ensures t == t[..n] + ("://" + t[n + 3..])
  {
    assert t[n..] == "://" + t[n..][3..] && t[n..][3..] == t[n + 3..];
  }

  lemma RestNulFree(t: string, from: nat, a: string, rest: string)
    requires NulFree(t) && from <= |t| && t[from..] == a + rest
    ensures NulFree(rest)
  {
    PieceAt(t, from, a, rest);
  }

  lemma StoredRecord(rest: string, x: Url)
    requires TargetOutcome(rest, x).Parsed?
    ensures var u := TargetOutcome(rest, x).u;
            x == u.(hostname := x.hostname, port := x.port, requri := x.requri, path := x.path,
                    query := x.query, fragment := x.fragment)
  {
  }

  /** A described text is accepted with these components. */
  lemma DescribedAccepted(raw: string, port: int, u: Url, lead: bool, host: string, rest: string)
    requires Describes(raw, u, lead, host, rest)
    ensures ParseUrl(raw, Fresh(port)) == Parsed(u)
  {
    var t, n := CString(raw), |u.scheme|;
    var v := Fresh(port).(rawurl := raw, scheme := u.scheme);
    ColonFound(u.scheme, AuthorityRaw(lead, u.userinfo, host) + rest);
    ParseFrom(raw, Fresh(port), t, n);
    AuthorityRead(t, n + 3, lead, u.userinfo, host, rest);
    FromAuthority(t, n + 3, v, u.userinfo, host, rest);
    RestNulFree(t, n + 3, AuthorityRaw(lead, u.userinfo, host), rest);
    TargetExactly(rest, v.(userinfo := u.userinfo, host := u.host), u);
  }

  /** Exactly what a fresh record accepts, and with which components. */
  lemma AcceptedExactly(raw: string, port: int, u: Url)
    ensures ParseUrl(raw, Fresh(port)) == Parsed(u) && u.scheme != "unix" <==>
            exists lead, host, rest :: Describes(raw, u, lead, host, rest)
  {
    if ParseUrl(raw, Fresh(port)) == Parsed(u) && u.scheme != "unix" {
      var lead, host, rest := AcceptedDescribes(raw, port);
    }
    forall lead, host, rest | Describes(raw, u, lead, host, rest)
      ensures ParseUrl(raw, Fresh(port)) == Parsed(u) && u.scheme != "unix"
    {
      DescribedAccepted(raw, port, u, lead, host, rest);
    }
  }

  /** A "unix" URL is its path, and nothing else in the record changes. */
  lemma UnixAccepted(raw: string, v: Url, path: string)
    requires CString(raw) == "unix://" + path
    ensures ParseUrl(raw, v) == Parsed(v.(rawurl := raw, scheme := "unix", path := path))
  {
    assert "unix://" + path == "unix" + ("://" + path);
    ColonFound("unix", path);
  }

  predicate SchemeParts(t: string, scheme: string, more: string) {
    ':' !in scheme && t == scheme + ("://" + more)
  }

  /** Without "://" behind the first run of characters other than a colon, nothing but the text is stored. */
  lemma NoScheme(raw: string, v: Url)
    requires !exists scheme, more :: SchemeParts(CString(raw), scheme, more)
    ensures ParseUrl(raw, v) == Refused(v.(rawurl := raw))
  {
    var t := CString(raw);
    var n := IndexOf(t, ':');
    if "://" <= t[n..] {
      NoneBeforeIndex(t, ':', 0);
      SchemeText(t, n);
      assert SchemeParts(t, t[..n], t[n + 3..]);
      assert false;
    }
  }

  /** A host without an '@' is scanned as it is, whatever user the record holds. */
  lemma PlainHost(t: string, from: nat, w: Url, host: string, rest: string)
    requires from <= |t| && t[from..] == host + rest && Inside(host) && (rest != "" ==> rest[0] in "/?#")
    ensures ParseAuthority(t, from, w) == TargetOutcome(rest, w.(host := Unstarred(host)))
  {
    var end := from + |host|;
    InsideAt(t, from, host, rest);
    ScanInside(t, from, from, end, w.userinfo);
    ScanEnd(t, from, end, w.userinfo);
    StarSkipped(t, from, end, host, rest);
    AuthorityFound(t, from, w, w.(host := Unstarred(host)), from, end, rest);
  }

  lemma BadTarget(rest: string, x: Url)
    requires SplitHost(x.host).Some? && PortOf(SplitHost(x.host).value.1, x.scheme) == NPORT
    ensures TargetOutcome(rest, x).Refused?
  {
  }

  /** A port that is no number, or the number -1, is refused, whatever the scheme and whatever the record held. */
  lemma PortRefused(raw: string, v: Url, scheme: string, name: string, d: string, rest: string)
    requires CString(raw) == scheme + ("://" + ((name + (":" + d)) + rest)) && ':' !in scheme && scheme != "unix"
    requires Inside(name) && ':' !in name && !("[" <= name) && Inside(d) && (rest != "" ==> rest[0] in "/?#")
    requires forall p :: Number(d, p) ==> p == -1
    ensures ParseUrl(raw, v).Refused?
  {
    var t, n, host := CString(raw), |scheme|, name + (":" + d);
    var w := v.(rawurl := raw, scheme := scheme);
    ColonFound(scheme, host + rest);
    ParseFrom(raw, v, t, n);
    InsideHost(name, d);
    PlainHost(t, n + 3, w, host, rest);
    UnstarredPort(name, d);
    BadPort(if "*:" <= host then "" else name, d, Unstarred(host), scheme);
    BadTarget(rest, w.(host := Unstarred(host)));
  }

  lemma InsideHost(name: string, d: string)
    requires Inside(name) && Inside(d)
    ensures Inside(name + (":" + d))
  {
  }

  lemma UnstarredPort(name: string, d: string)
    requires ':' !in name
    ensures var host := name + (":" + d);
            Unstarred(host) == if "*:" <= host then ":" + d else name + (":" + d)
  {
    var host := name + (":" + d);
    if "*:" <= host {
      assert forall k :: 0 <= k < |name| ==> host[k] == name[k] && name[k] in name;
      assert host[|name|] == ':' && host[0] == '*' && host[1] == ':';
      assert |name| == 1;
      assert host[1..] == ":" + d;
    }
  }

  lemma BadPort(name: string, d: string, h: string, scheme: string)
    requires h == name + (":" + d) && ':' !in name && !("[" <= name) && forall p :: Number(d, p) ==> p == -1
    ensures SplitHost(h) == Some((name, ":" + d)) && PortOf(":" + d, scheme) == NPORT
  {
    HostRead(h, name, ":" + d);
    assert (":" + d)[1..] == d;
    if Stoi(d).Some? { StoiExactly(d, Stoi(d).value); }
  }

  // ----- what a refused text leaves

  /** A second '@' behind a user: the user is stored, and nothing behind it. */
  lemma SecondAt(raw: string, v: Url, scheme: string, user: string, host: string, more: string)
    requires CString(raw) == scheme + ("://" + (user + ("@" + (host + ("@" + more)))))
    requires ':' !in scheme && scheme != "unix"
    requires v.userinfo == "" && user != "" && Inside(user) && Scanned(host)
    ensures ParseUrl(raw, v) == Refused(v.(rawurl := raw, scheme := scheme, userinfo := user))
  {
    var t, n := CString(raw), |scheme|;
    ColonFound(scheme, user + ("@" + (host + ("@" + more))));
    ParseFrom(raw, v, t, n);
    SecondScan(t, n + 3, user, host, "@" + more);
    TwoUsersLeft(t, n + 3, v.(rawurl := raw, scheme := scheme), user);
  }

  lemma SecondScan(t: string, from: nat, user: string, host: string, rest: string)
    requires from <= |t| && t[from..] == user + ("@" + (host + rest)) && rest != "" && rest[0] == '@'
    requires user != "" && Inside(user) && Scanned(host)
    ensures ScanAuthority(t, from, from, "") == TwoUsers(user)
  {
    var tail := "@" + (host + rest);
    var start := from + |user| + 1;
    UserPassed(t, from, from, user, tail);
    ScanUser(t, from, user, tail);
    ScanTail(t, start, host, rest, user);
    PieceAt(t, start, host, rest);
    assert t[start + |host|] == t[start + |host|..][0];
    AtRefused(t, start, start + |host|, user);
  }

  lemma AtRefused(t: string, start: nat, i: nat, user: string)
    requires start <= i < |t| && t[i] == '@' && user != ""
    ensures ScanAuthority(t, start, i, user) == TwoUsers(user)
  {
  }

  lemma TwoUsersLeft(t: string, from: nat, v: Url, user: string)
    requires from <= |t| && ScanAuthority(t, from, from, v.userinfo) == TwoUsers(user)
    ensures ParseAuthority(t, from, v) == Refused(v.(userinfo := user))
  {
  }

  /** With a user left from an earlier parse, the first '@' is refused, and the record keeps that user. */
  lemma StaleRefused(raw: string, v: Url, scheme: string, user: string, more: string)
    requires CString(raw) == scheme + ("://" + (user + ("@" + more))) && ':' !in scheme && scheme != "unix"
    requires v.userinfo != "" && Inside(user)
    ensures ParseUrl(raw, v) == Refused(v.(rawurl := raw, scheme := scheme))
  {
    var t, n := CString(raw), |scheme|;
    ColonFound(scheme, user + ("@" + more));
    ParseFrom(raw, v, t, n);
    InsideAt(t, n + 3, user, "@" + more);
    ScanInside(t, n + 3, n + 3, n + 3 + |user|, v.userinfo);
    PieceAt(t, n + 3 + |user|, "@", more);
    AtRefused(t, n + 3, n + 3 + |user|, v.userinfo);
    TwoUsersLeft(t, n + 3, v.(rawurl := raw, scheme := scheme), v.userinfo);
  }

  /**
   Behind a good authority, the record is filled in this order: user and host, then the target, then host name
   and port. A refusal leaves what was filled before it, and the refused target torn.
   */
  lemma RefusedRecord(raw: string, port: int, scheme: string, lead: bool, user: string, host: string, rest: string)
    requires CString(raw) == scheme + ("://" + (AuthorityRaw(lead, user, host) + rest))
    requires ':' !in scheme && scheme != "unix" && AuthorityGood(lead, user, host) && (rest != "" ==> rest[0] in "/?#")
    ensures var v := Fresh(port).(rawurl := raw, scheme := scheme, userinfo := user, host := Unstarred(host));
            var o := ParseUrl(raw, Fresh(port));
            match Canonify(rest)
            case None => o == Refused(v.(requri := Torn(rest)))
            case Some(r) =>
              && ((!exists name, tail :: HostParts(v.host, name, tail)) ==> o == Refused(StoreRequri(v, r)))
              && forall name, tail :: HostParts(v.host, name, tail) && (forall p :: !PortSays(scheme, tail, p)) ==>
                   o == Refused(StoreRequri(v, r).(hostname := name, port := -1))
  {
    var t, n := CString(raw), |scheme|;
    var v := Fresh(port).(rawurl := raw, scheme := scheme, userinfo := user, host := Unstarred(host));
    ColonFound(scheme, AuthorityRaw(lead, user, host) + rest);
    ParseFrom(raw, Fresh(port), t, n);
    AuthorityRead(t, n + 3, lead, user, host, rest);
    FromAuthority(t, n + 3, Fresh(port).(rawurl := raw, scheme := scheme), user, host, rest);
    RestNulFree(t, n + 3, AuthorityRaw(lead, user, host), rest);
    CStringWhole(rest);
    if Canonify(rest).Some? { HostRefused(StoreRequri(v, Canonify(rest).value)); }
  }

  lemma HostRefused(x: Url)
    ensures (!exists name, tail :: HostParts(x.host, name, tail)) ==> FinishHost(x) == Refused(x)
    ensures forall name, tail :: HostParts(x.host, name, tail) && (forall p :: !PortSays(x.scheme, tail, p)) ==>
              FinishHost(x) == Refused(x.(hostname := name, port := -1))
  {
    if SplitHost(x.host).Some? { HostFoundParts(x.host); }
    forall name, tail | HostParts(x.host, name, tail) && (forall p :: !PortSays(x.scheme, tail, p))
      ensures FinishHost(x) == Refused(x.(hostname := name, port := -1))
    {
      HostRead(x.host, name, tail);
      PortExactly(x.scheme, tail, PortOf(tail, x.scheme));
    }
  }
}
