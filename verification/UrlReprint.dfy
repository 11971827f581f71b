/** Printing what was parsed: the text made from an accepted URL's components parses to the same components. */
module UrlReprint {
  import opened Options
  import opened Substring
  import opened UrlText
  import opened UrlSegments
  import opened UrlCanonify
  import opened UrlCanonical
  import opened UrlParse
  import opened UrlRoundTrip
  import opened Utf8

  // ----- printing

  predicate Divider(c: char) { EndsAuthority(c) || c == '@' }

  /** An '@' goes in front of a text whose first character the scan would stop at; behind an '@' it is not looked at. */
  function Guard(s: string): string {
    if s != "" && Divider(s[0]) then "@" else ""
  }

  function AuthorityText(user: string, host: string): string {
    if user == "" then Guard(host) + host else Guard(user) + (user + ("@" + host))
  }

  function PrintUrl(u: Url): string {
    u.scheme + ("://" + (AuthorityText(u.userinfo, u.host) + u.requri))
  }

  // ----- what the scan finds

  /** Not empty, and no divider behind the first character. */
  predicate Scanned(s: string) { s != "" && Inside(s[1..]) }

  predicate GoodAuthority(user: string, host: string) {
    (user == "" && host == "") || (Scanned(host) && (user == "" || Scanned(user)))
  }

  /** The stretch from `i` on that the scan passes over, and what it does there. */
  lemma {:induction false} ScanTo(t: string, start: nat, i: nat, user: string) returns (j: nat)
    requires start <= i <= |t|
    ensures i <= j <= |t| && Inside(t[i..j])
    ensures ScanAuthority(t, start, i, user) ==
            if j == |t| || EndsAuthority(t[j]) then Host(user, start, j)
            else if user != "" then TwoUsers(user)
            else ScanAuthority(t, j + 1, j + 2, t[start..j])
    ensures j < |t| ==> Divider(t[j])
    decreases |t| - i
  {
    if i == |t| || Divider(t[i]) {
      j := i;
    } else {
      j := ScanTo(t, start, i + 1, user);
      HeadOff(t, i, j);
      InsideCons(t[i], t[i + 1..j]);
    }
  }

  lemma HeadOff(t: string, i: nat, j: nat)
    requires i < j <= |t|
    ensures t[i..j] == [t[i]] + t[i + 1..j]
  {
  }

  /** What the scan stores is good, and it stops where the authority ends. */
  lemma ScanGood(t: string, from: nat)
    requires from <= |t| && ScanAuthority(t, from, from, "").Host?
    ensures var a := ScanAuthority(t, from, from, "");
            && GoodAuthority(a.userinfo, t[a.start..a.end])
            && (a.end < |t| ==> EndsAuthority(t[a.end]))
            && (NulFree(t) ==> NulFree(a.userinfo))
  {
    var j := ScanTo(t, from, from, "");
    if j == |t| || EndsAuthority(t[j]) {
      if j > from { InsideTail(t, from, j); }
    } else {
      assert j + 2 <= |t|;
      var k := ScanTo(t, j + 1, j + 2, t[from..j]);
      assert t[j + 1..k][1..] == t[j + 2..k];
      if j > from { InsideTail(t, from, j); }
      if k < |t| && !EndsAuthority(t[k]) {
        assert t[from..j] == "" && k + 2 <= |t|;
        var l := ScanTo(t, k + 1, k + 2, t[j + 1..k]);
        assert t[k + 1..l][1..] == t[k + 2..l];
      }
    }
  }

  lemma InsideTail(t: string, i: nat, j: nat)
    requires i < j <= |t| && Inside(t[i..j])
    ensures Scanned(t[i..j])
  {
    forall c | c in t[i..j][1..] ensures c in t[i..j] {}
  }

  // ----- scanning what was printed

  lemma PieceAt(t: string, i: nat, a: string, b: string)
    requires i <= |t| && t[i..] == a + b
    ensures i + |a| <= |t| && t[i..i + |a|] == a && t[i + |a|..] == b
    ensures a != "" ==> t[i] == a[0]
  {
    assert |t[i..]| == |t| - i;
    assert t[i..i + |a|] == t[i..][..|a|] && t[i + |a|..] == t[i..][|a|..];
  }

  lemma ScanAt(t: string, start: nat, i: nat)
    requires start <= i < |t| && t[i] == '@'
    ensures ScanAuthority(t, start, i, "") == ScanAuthority(t, i + 1, i + 2, t[start..i])
  {
  }

  lemma ScanEnd(t: string, start: nat, i: nat, user: string)
    requires start <= i <= |t| && (t[i..] != "" ==> EndsAuthority(t[i..][0]))
    ensures ScanAuthority(t, start, i, user) == Host(user, start, i)
  {
    assert i < |t| ==> t[i] == t[i..][0];
  }

  /** The scan over `s`, looked at from its second character on. */
  lemma ScanTail(t: string, start: nat, s: string, rest: string, user: string)
    requires start <= |t| && t[start..] == s + rest && Scanned(s)
    ensures start + |s| <= |t|
    ensures ScanAuthority(t, start, start + 1, user) == ScanAuthority(t, start, start + |s|, user)
  {
    PieceAt(t, start, s, rest);
    Assoc([s[0]], s[1..], rest);
    assert s == [s[0]] + s[1..];
    PieceAt(t, start, [s[0]], s[1..] + rest);
    InsideAt(t, start + 1, s[1..], rest);
    ScanInside(t, start, start + 1, start + |s|, user);
  }

  /** A printed piece in front of an '@' or the end: with its guard it is scanned as a whole. */
  lemma ScanGuarded(t: string, from: nat, s: string, rest: string)
    requires from <= |t| && t[from..] == Guard(s) + (s + rest) && Scanned(s)
    ensures var start := from + |Guard(s)|;
            && start + |s| <= |t| && t[start..] == s + rest
            && ScanAuthority(t, from, from, "") == ScanAuthority(t, start, start + |s|, "")
  {
    PieceAt(t, from, Guard(s), s + rest);
    if Divider(s[0]) {
      ScanAt(t, from, from);
      assert t[from..from] == "";
      ScanTail(t, from + 1, s, rest, "");
    } else {
      PieceAt(t, from, s, rest);
      ScanTail(t, from, s, rest, "");
      ScanStep(t, from);
    }
  }

  lemma ScanStep(t: string, from: nat)
    requires from < |t| && !Divider(t[from])
    ensures ScanAuthority(t, from, from, "") == ScanAuthority(t, from, from + 1, "")
  {
  }

  /** Scanning a printed authority finds what was printed. */
  lemma ScanPrinted(t: string, from: nat, user: string, host: string, rest: string)
    requires GoodAuthority(user, host) && (rest != "" ==> EndsAuthority(rest[0]))
    requires from <= |t| && t[from..] == AuthorityText(user, host) + rest
    ensures var a := ScanAuthority(t, from, from, "");
            && a.Host? && a.userinfo == user && a.end <= |t|
            && t[a.start..a.end] == host && t[a.end..] == rest
  {
    if user == "" && host == "" {
      NoneAround(rest);
      ScanEnd(t, from, from, "");
    } else if user == "" {
      Assoc(Guard(host), host, rest);
      ScanGuarded(t, from, host, rest);
      var start := from + |Guard(host)|;
      PieceAt(t, start, host, rest);
      ScanEnd(t, start, start + |host|, "");
    } else {
      UserPrinted(t, from, user, host, rest);
    }
  }

  /** At the '@' behind a piece that begins at `start` and was scanned as a whole. */
  lemma ScanUser(t: string, start: nat, user: string, tail: string)
    requires start <= |t| && t[start..] == user + tail && tail != "" && tail[0] == '@'
    ensures var j := start + |user|;
            && j + 1 <= |t| && t[j + 1..] == tail[1..]
            && ScanAuthority(t, start, j, "") == ScanAuthority(t, j + 1, j + 2, user)
  {
    var j := start + |user|;
    PieceAt(t, start, user, tail);
    assert t[j] == t[j..][0] && t[j + 1..] == t[j..][1..];
    ScanAt(t, start, j);
  }

  /** A printed user and its '@'; the host begins at `start`. */
  lemma UserScanned(t: string, from: nat, user: string, tail: string) returns (start: nat)
    requires Scanned(user) && tail != "" && tail[0] == '@'
    requires from <= |t| && t[from..] == Guard(user) + (user + tail)
    ensures start <= |t| && t[start..] == tail[1..]
    ensures ScanAuthority(t, from, from, "") == ScanAuthority(t, start, start + 1, user)
  {
    ScanGuarded(t, from, user, tail);
    var i := from + |Guard(user)|;
    ghost var first := ScanAuthority(t, from, from, "");
    assert first == ScanAuthority(t, i, i + |user|, "");
    assert t[i..] == user + tail;
    ScanUser(t, i, user, tail);
    start := i + |user| + 1;
  }

  lemma UserPrinted(t: string, from: nat, user: string, host: string, rest: string)
    requires Scanned(user) && Scanned(host) && (rest != "" ==> EndsAuthority(rest[0]))
    requires from <= |t| && t[from..] == (Guard(user) + (user + ("@" + host))) + rest
    ensures var a := ScanAuthority(t, from, from, "");
            && a.Host? && a.userinfo == user && a.end <= |t|
            && t[a.start..a.end] == host && t[a.end..] == rest
  {
    Assoc("@", host, rest);
    Assoc(user, "@" + host, rest);
    Assoc(Guard(user), user + ("@" + host), rest);
    var tail := "@" + (host + rest);
    assert tail[1..] == host + rest;
    var start := UserScanned(t, from, user, tail);
    ScanTail(t, start, host, rest, user);
    PieceAt(t, start, host, rest);
    ScanEnd(t, start, start + |host|, user);
  }

  // ----- the target still begins where an authority ends

  lemma {:induction false} ReduceStart(kept: string, rest: string)
    requires Ends(kept) && (kept == "" ==> Ends(rest))
    ensures Ends(Reduce(kept, rest))
    decreases |rest|
  {
    if rest == "" || SuffixMark(rest[0]) {
    } else if AtSegment(rest, "/..") {
      PopIsPrefix(kept);
      assert rest[3..] != "" ==> rest[3..][0] == rest[3];
      ReduceStart(Pop(kept), rest[3..]);
    } else if AtSegment(rest, "/.") {
      assert rest[2..] != "" ==> rest[2..][0] == rest[2];
      ReduceStart(kept, rest[2..]);
    } else {
      ReduceStart(kept + [rest[0]], rest[1..]);
    }
  }

  lemma CanonifyStart(s: string)
    requires Ends(s) && Canonify(s).Some?
    ensures Ends(Canonify(s).value)
  {
    ReduceStart("", Squeeze(SafeDecode(s).value));
  }

  // ----- the whole URL

  lemma ColonFound(scheme: string, rest: string)
    requires ':' !in scheme
    ensures var t := scheme + ("://" + rest);
            var n := |scheme|;
            IndexOf(t, ':') == n && t[..n] == scheme && "://" <= t[n..] && t[n + 3..] == rest
  {
    var t := scheme + ("://" + rest);
    PieceAt(t, 0, scheme, "://" + rest);
    PieceAt(t, |scheme|, "://", rest);
    assert forall k :: 0 <= k < |scheme| ==> t[k] == scheme[k] && scheme[k] in scheme;
    IndexIs(t, ':', 0, |scheme|);
  }

  /** The stored host text is never skipped into again. */
  lemma StoredHost(t: string, user: string, start: nat, end: nat)
    requires start <= end <= |t| && GoodAuthority(user, t[start..end])
    ensures var h := t[SkipStar(t, start, end)..end];
            GoodAuthority(user, h) && !StarColon(h)
  {
    var h := t[start..end];
    var n := SkipStar(t, start, end);
    assert |h| > 1 ==> h[0] == t[start] == t[start..][0] && h[1] == t[start + 1] == t[start..][1];
    if n == start + 1 {
      assert t[n..end] == h[1..];
      assert h[1..] == [h[1]] + h[2..] && h[1..][1..] == h[2..];
      InsideCons(h[1], h[2..]);
    }
  }

  lemma PrintedNulFree(u: Url)
    requires NulFree(u.scheme) && NulFree(u.userinfo) && NulFree(u.host) && NulFree(u.requri)
    ensures NulFree(PrintUrl(u))
  {
    assert NulFree(AuthorityText(u.userinfo, u.host));
    var tail := AuthorityText(u.userinfo, u.host) + u.requri;
    assert NulFree(tail);
    assert NulFree("://" + tail);
  }

  /** Parsing the printed text again, from any record without a user. */
  lemma ParsePrinted(u: Url, v: Url, t: string, from: nat)
    requires GoodAuthority(u.userinfo, u.host) && !StarColon(u.host) && Ends(u.requri)
    requires from <= |t| && t[from..] == AuthorityText(u.userinfo, u.host) + u.requri
    requires v.userinfo == ""
    ensures ParseAuthority(t, from, v) == TargetOutcome(u.requri, v.(userinfo := u.userinfo, host := u.host))
  {
    ScanPrinted(t, from, u.userinfo, u.host, u.requri);
    var a := ScanAuthority(t, from, from, "");
    var h := t[a.start..a.end];
    assert |h| > 1 ==> h[0] == t[a.start] == t[a.start..][0] && h[1] == t[a.start + 1] == t[a.start..][1];
    assert SkipStar(t, a.start, a.end) == a.start;
    AuthorityFound(t, from, v, v.(userinfo := u.userinfo, host := u.host), a.start, a.end, u.requri);
  }

  /** What an accepted authority leaves in the record. */
  lemma AuthorityStored(t: string, from: nat, v: Url) returns (rest: string)
    requires NulFree(t) && from <= |t| && v.userinfo == "" && ParseAuthority(t, from, v).Parsed?
    ensures var u := ParseAuthority(t, from, v).u;
            && GoodAuthority(u.userinfo, u.host) && !StarColon(u.host)
            && NulFree(u.userinfo) && NulFree(u.host)
            && NulFree(rest) && Ends(rest)
            && TargetOutcome(rest, v.(userinfo := u.userinfo, host := u.host)) == Parsed(u)
  {
    var a := ScanAuthority(t, from, from, "");
    ScanGood(t, from);
    StoredHost(t, a.userinfo, a.start, a.end);
    rest := t[a.end..];
    assert rest != "" ==> rest[0] == t[a.end];
    var w := v.(userinfo := a.userinfo, host := t[SkipStar(t, a.start, a.end)..a.end]);
    AuthorityFound(t, from, v, w, a.start, a.end, rest);
    TargetKeeps(rest, w);
  }

  lemma TargetKeeps(rest: string, w: Url)
    requires TargetOutcome(rest, w).Parsed?
    ensures var u := TargetOutcome(rest, w).u;
            && u.rawurl == w.rawurl && u.scheme == w.scheme && u.userinfo == w.userinfo && u.host == w.host
            && Canonify(CString(rest)) == Some(u.requri)
  {
  }

  /** The canonical target gives the same outcome as the text it came from. */
  lemma TargetAgain(rest: string, w: Url, x: Url)
    requires NulFree(rest) && Ends(rest) && TargetOutcome(rest, w).Parsed?
    requires x == w.(rawurl := x.rawurl, port := x.port)
    ensures var u := TargetOutcome(rest, w).u;
            NulFree(u.requri) && Ends(u.requri) && TargetOutcome(u.requri, x) == Parsed(u.(rawurl := x.rawurl))
  {
    CStringWhole(rest);
    TargetKeeps(rest, w);
    var r := Canonify(rest).value;
    CanonifyNulFree(rest);
    CanonifyStart(rest);
    CStringWhole(r);
    Idempotent(rest);
    FinishAgain(StoreRequri(w, r), StoreRequri(x, r));
  }

  lemma FinishAgain(v: Url, x: Url)
    requires FinishHost(v).Parsed? && x == v.(rawurl := x.rawurl, port := x.port)
    ensures FinishHost(x) == Parsed(FinishHost(v).u.(rawurl := x.rawurl))
  {
  }

  /**
   Whatever a fresh record accepts, other than a "unix" URL, can be printed from its components; the printed
   text is accepted by a fresh record too and gives the same components.
   */
  lemma ReparsePrinted(raw: string, port: int, again: int)
    requires ParseUrl(raw, Fresh(port)).Parsed? && ParseUrl(raw, Fresh(port)).u.scheme != "unix"
    ensures var u := ParseUrl(raw, Fresh(port)).u;
            ParseUrl(PrintUrl(u), Fresh(again)) == Parsed(u.(rawurl := PrintUrl(u)))
  {
    var t := CString(raw);
    var n := IndexOf(t, ':');
    var v := Fresh(port).(rawurl := raw, scheme := t[..n]);
    NoneBeforeIndex(t, ':', 0);
    ParseFrom(raw, Fresh(port), t, n);
    var rest := AuthorityStored(t, n + 3, v);
    var u := ParseAuthority(t, n + 3, v).u;
    TargetKeeps(rest, v.(userinfo := u.userinfo, host := u.host));
    PrintedAccepted(u, v, rest, Fresh(again));
  }

  lemma PrintedAccepted(u: Url, v: Url, rest: string, blank: Url)
    requires GoodAuthority(u.userinfo, u.host) && !StarColon(u.host) && NulFree(rest) && Ends(rest)
    requires NulFree(u.scheme) && NulFree(u.userinfo) && NulFree(u.host) && ':' !in u.scheme && u.scheme != "unix"
    requires TargetOutcome(rest, v.(userinfo := u.userinfo, host := u.host)) == Parsed(u)
    requires u.scheme == v.scheme && blank.userinfo == ""
    requires v == blank.(rawurl := v.rawurl, scheme := v.scheme, port := v.port)
    ensures ParseUrl(PrintUrl(u), blank) == Parsed(u.(rawurl := PrintUrl(u)))
  {
    var s := PrintUrl(u);
    var x := blank.(rawurl := s, scheme := u.scheme);
    TargetAgain(rest, v.(userinfo := u.userinfo, host := u.host), x.(userinfo := u.userinfo, host := u.host));
    PrintedStart(u, blank);
    ParsePrinted(u, x, s, |u.scheme| + 3);
  }

  lemma PrintedStart(u: Url, blank: Url)
    requires NulFree(u.scheme) && NulFree(u.userinfo) && NulFree(u.host) && NulFree(u.requri)
    requires ':' !in u.scheme && u.scheme != "unix"
    ensures var s, n := PrintUrl(u), |u.scheme| + 3;
            && n <= |s| && s[n..] == AuthorityText(u.userinfo, u.host) + u.requri
            && ParseUrl(s, blank) == ParseAuthority(s, n, blank.(rawurl := s, scheme := u.scheme))
  {
    var s := PrintUrl(u);
    PrintedNulFree(u);
    CStringWhole(s);
    ColonFound(u.scheme, AuthorityText(u.userinfo, u.host) + u.requri);
    ParseFrom(s, blank, s, |u.scheme|);
  }

  // ----- using a record again

  /** With a user in the record from an earlier parse, no '@' gets through, and the earlier user stays. */
  lemma StaleUser(t: string, from: nat, user: string)
    requires from <= |t| && user != "" && ScanAuthority(t, from, from, user).Host?
    ensures ScanAuthority(t, from, from, user).userinfo == user
    ensures ScanAuthority(t, from, from, "") == ScanAuthority(t, from, from, user).(userinfo := "")
  {
    var j := ScanTo(t, from, from, user);
    forall k | from <= k < j ensures !EndsAuthority(t[k]) && t[k] != '@' {
      assert t[k] == t[from..j][k - from] && t[k] in t[from..j];
    }
    ScanInside(t, from, from, j, "");
  }

  /** Only the stored target decides what of an earlier query and fragment is left. */
  lemma TargetReused(rest: string, v: Url, w: Url)
    requires v.rawurl == w.rawurl && v.scheme == w.scheme && v.host == w.host && v.userinfo == w.userinfo
    requires TargetOutcome(rest, v).Parsed?
    ensures var f := TargetOutcome(rest, v).u;
            var q := SplitRequri(f.requri);
            TargetOutcome(rest, w) == Parsed(f.(query := if q.query.Some? then q.query.value else w.query,
                                                fragment := if q.fragment.Some? then q.fragment.value else w.fragment))
  {
  }

  /**
   What a fresh record accepts, a used one accepts with the same components if and only if it holds no user,
   and no query or fragment that the new target does not replace.
   */
  lemma UsedRecord(raw: string, port: int, w: Url)
    requires ParseUrl(raw, Fresh(port)).Parsed? && ParseUrl(raw, Fresh(port)).u.scheme != "unix"
    ensures var f := ParseUrl(raw, Fresh(port)).u;
            var q := SplitRequri(f.requri);
            ParseUrl(raw, w) == Parsed(f) <==>
              w.userinfo == "" && (q.query.Some? || w.query == "") && (q.fragment.Some? || w.fragment == "")
  {
    var t := CString(raw);
    var n := IndexOf(t, ':');
    ParseFrom(raw, Fresh(port), t, n);
    ParseFrom(raw, w, t, n);
    UsedAuthority(t, n + 3, Fresh(port).(rawurl := raw, scheme := t[..n]), w.(rawurl := raw, scheme := t[..n]));
  }

  lemma UsedAuthority(t: string, from: nat, v: Url, w: Url)
    requires from <= |t| && v.userinfo == v.query == v.fragment == "" && v.rawurl == w.rawurl && v.scheme == w.scheme
    requires ParseAuthority(t, from, v).Parsed?
    ensures var f := ParseAuthority(t, from, v).u;
            var q := SplitRequri(f.requri);
            ParseAuthority(t, from, w) == Parsed(f) <==>
              w.userinfo == "" && (q.query.Some? || w.query == "") && (q.fragment.Some? || w.fragment == "")
  {
    var a := ScanAuthority(t, from, from, "");
    var b := ScanAuthority(t, from, from, w.userinfo);
    var h := t[SkipStar(t, a.start, a.end)..a.end];
    var x := v.(userinfo := a.userinfo, host := h);
    AuthorityFound(t, from, v, x, a.start, a.end, t[a.end..]);
    if w.userinfo == "" {
      var y := w.(userinfo := a.userinfo, host := h);
      AuthorityFound(t, from, w, y, a.start, a.end, t[a.end..]);
      TargetReused(t[a.end..], x, y);
      TargetReused(t[a.end..], x, x);
    } else if b.Host? {
      StaleUser(t, from, w.userinfo);
      var y := w.(userinfo := w.userinfo, host := h);
      AuthorityFound(t, from, w, y, a.start, a.end, t[a.end..]);
      TargetKeeps(t[a.end..], x);
      if TargetOutcome(t[a.end..], y).Parsed? { TargetKeeps(t[a.end..], y); }
    }
  }
}
