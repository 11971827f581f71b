/** The canonicaliser's passes over one buffer, each with a reading and a writing index. */
module UrlCanonify {
  import opened Options
  import opened Substring
  import opened UrlText
  import opened Utf8

  /** The whole canonicaliser on texts: three passes, then the UTF-8 check on what they leave. */
  function Canonify(s: string): Option<string> {
    match SafeDecode(s)
    case None => None
    case Some(t) =>
      var r := Reduce("", Squeeze(t));
      if Accepted(r) then Some(r) else None
  }

  /** The buffer that a refused text leaves: decoded up to the bad escape, or what three passes made of it. */
  function Torn(s: string): string {
    match SafeDecode(s)
    case None => DecodedFront(s) + s[|DecodedFront(s)|..]
    case Some(t) =>
      var b := Rewritten(s + "\0", t);
      b[..|b| - 1]
  }

  /** The buffer `b` when pass 1 has left `t` in it and the other two passes are through. */
  function Rewritten(b: string, t: string): (r: string)
    requires |t| < |b|
    ensures r != ""
  {
    var q := Squeeze(t);
    Reduced(Over(Over(b, t), q), q)
  }

  /** The buffer `b`, which holds `q`, when pass 3 is through. */
  function Reduced(b: string, q: string): (r: string)
    requires |q| < |b|
    ensures r != ""
  {
    var r := Reduce("", q);
    Over(r + (ReduceTrail("", "", q) + b[|q|..]), r)
  }

  lemma {:induction false} TrailLength(kept: string, trail: string, rest: string)
    ensures |Reduce(kept, rest)| + |ReduceTrail(kept, trail, rest)| == |kept| + |trail| + |rest|
    decreases |rest|
  {
    if rest == "" || SuffixMark(rest[0]) {
    } else if AtSegment(rest, "/..") {
      TrailLength(Pop(kept), kept[|Pop(kept)|..] + trail + rest[..3], rest[3..]);
    } else if AtSegment(rest, "/.") {
      TrailLength(kept, trail + rest[..2], rest[2..]);
    } else {
      TrailLength(kept + [rest[0]], Copied(trail, [rest[0]]), rest[1..]);
    }
  }

  /** No pass changes the length of the buffer. */
  lemma TornLength(s: string)
    ensures |Torn(s)| == |s|
  {
    if SafeDecode(s).Some? { TrailLength("", "", Squeeze(SafeDecode(s).value)); }
  }

  /** A bad escape: what stands before it is decoded, and the rest of the text is left as it was. */
  lemma {:induction false} TornEscape(good: string, bad: string)
    requires SafeDecode(good).Some? && bad != "" && bad[0] == '%' && !Escape(bad)
    ensures SafeDecode(good + bad) == None && DecodedFront(good + bad) == SafeDecode(good).value
    ensures Torn(good + bad) == SafeDecode(good).value + (good + bad)[|SafeDecode(good).value|..]
    decreases |good|
  {
    var s := good + bad;
    if good == "" {
      assert s == bad;
    } else if good[0] == '%' {
      assert s[1] == good[1] && s[2] == good[2] && s[3..] == good[3..] + bad;
      TornEscape(good[3..], bad);
    } else {
      assert s[1..] == good[1..] + bad;
      TornEscape(good[1..], bad);
    }
  }

  /** Every text that pass 1 refuses has a first bad escape. */
  lemma {:induction false} BadEscape(s: string) returns (good: string, bad: string)
    requires SafeDecode(s) == None
    ensures s == good + bad && SafeDecode(good).Some? && bad != "" && bad[0] == '%' && !Escape(bad)
    decreases |s|
  {
    if s[0] == '%' && !Escape(s) {
      good, bad := "", s;
    } else {
      var n := if s[0] == '%' then 3 else 1;
      var rest;
      rest, bad := BadEscape(s[n..]);
      good := s[..n] + rest;
      assert good[n..] == rest && s == s[..n] + s[n..];
      Assoc(s[..n], rest, bad);
    }
  }

  /** A result that fails the UTF-8 check is what a reader of the buffer finds. */
  lemma TornText(s: string)
    requires NulFree(s) && SafeDecode(s).Some?
    ensures CString(Torn(s)) == Reduce("", Squeeze(SafeDecode(s).value))
  {
    var t := SafeDecode(s).value;
    var q := Squeeze(t);
    var r := Reduce("", q);
    SafeDecodeNulFree(s);
    SqueezeNulFree(t);
    ReduceNulFree("", q);
    TrailLength("", "", q);
    OverRead(r + (ReduceTrail("", "", q) + Over(Over(s + "\0", t), q)[|q|..]), r);
  }

  lemma OverRead(b: string, r: string)
    requires |r| < |b| && NulFree(r)
    ensures CString(Over(b, r)[..|b| - 1]) == r
  {
    var c := Over(b, r)[..|b| - 1];
    if |r| == |b| - 1 {
      assert c == r;
      CStringWhole(r);
    } else {
      assert c == r + ("\0" + b[|r| + 1..|b| - 1]);
      CStringCut(r, b[|r| + 1..|b| - 1]);
    }
  }

  lemma OverIs(b: string, was: string, t: string)
    requires |b| == |was| && |t| < |b| && b[..|t|] == t && b[|t|] == '\0'
    requires forall k :: |t| < k < |b| ==> b[k] == was[k]
    ensures b == Over(was, t)
  {
    assert b == b[..|t|] + ([b[|t|]] + b[|t| + 1..]);
    assert b[|t| + 1..] == was[|t| + 1..];
  }

  /** `was` holds `s`. */
  ghost predicate HeldIn(was: string, s: string) {
    NulFree(s) && |s| < |was| && was[|s|] == '\0' && forall k :: 0 <= k < |s| ==> was[k] == s[k]
  }

  /** The buffer between turns of the first two passes: what is written, and the rest as it was. */
  ghost predicate Written(buf: array<char>, was: string, dst: nat, out: string)
    reads buf
  {
    dst <= buf.Length == |was| && buf[..dst] == out && forall k :: dst <= k < buf.Length ==> buf[k] == was[k]
  }

  /** Ends the text at the writing index; `was` is the buffer from there on. */
  method Terminate(buf: array<char>, dst: nat, ghost was: string)
    requires dst < buf.Length == |was| && forall k :: dst <= k < buf.Length ==> buf[k] == was[k]
    modifies buf
    ensures buf[dst] == '\0' && buf[..dst] == old(buf[..dst]) && buf[..] == Over(was, old(buf[..dst]))
  {
    buf[dst] := '\0';
    OverIs(buf[..], was, buf[..dst]);
  }

  // ----- pass 1

  /** Writes what stands for the escape at `src`; nothing from `src + 3` on is touched. */
  method WriteImage(buf: array<char>, src: nat, dst: nat) returns (next: nat)
    requires dst <= src && src + 3 < buf.Length && IsHex(buf[src + 1]) && IsHex(buf[src + 2])
    modifies buf
    ensures dst < next <= src + 3
    ensures buf[..next] == old(buf[..dst]) + Image(old(buf[src + 1]), old(buf[src + 2]))
    ensures forall k :: next <= k < buf.Length ==> buf[k] == old(buf[k])
  {
    var c := HexByte(buf[src + 1], buf[src + 2]);
    if Literal(c) {
      buf[dst] := c as char;
      return dst + 1;
    }
    buf[dst] := '%';
    buf[dst + 1] := Upper(buf[src + 1]);
    buf[dst + 2] := Upper(buf[src + 2]);
    return dst + 3;
  }

  lemma DecodeTurn(s: string, src: nat, out: string)
    requires src < |s|
    ensures s[src] != '%' ==>
              Prefixed(out, SafeDecode(s[src..])) == Prefixed(out + [s[src]], SafeDecode(s[src + 1..]))
    ensures Escape(s[src..]) ==>
              Prefixed(out, SafeDecode(s[src..]))
              == Prefixed(out + Image(s[src + 1], s[src + 2]), SafeDecode(s[src + 3..]))
    ensures s[src] == '%' && !Escape(s[src..]) ==> Prefixed(out, SafeDecode(s[src..])) == None
  {
    var t := s[src..];
    assert t[0] == s[src] && t[1..] == s[src + 1..];
    if Escape(t) {
      assert t[1] == s[src + 1] && t[2] == s[src + 2] && t[3..] == s[src + 3..];
      PrefixedTwice(out, Image(t[1], t[2]), SafeDecode(t[3..]));
    } else if t[0] != '%' {
      PrefixedTwice(out, [t[0]], SafeDecode(t[1..]));
    }
  }

  lemma FrontTurn(s: string, src: nat, out: string)
    requires src < |s|
    ensures s[src] != '%' ==> out + DecodedFront(s[src..]) == (out + [s[src]]) + DecodedFront(s[src + 1..])
    ensures Escape(s[src..]) ==>
              out + DecodedFront(s[src..]) == (out + Image(s[src + 1], s[src + 2])) + DecodedFront(s[src + 3..])
    ensures s[src] == '%' && !Escape(s[src..]) ==> out + DecodedFront(s[src..]) == out
  {
    var t := s[src..];
    assert t[0] == s[src] && t[1..] == s[src + 1..];
    NoneAround(out);
    if Escape(t) {
      assert t[1] == s[src + 1] && t[2] == s[src + 2] && t[3..] == s[src + 3..];
      Assoc(out, Image(t[1], t[2]), DecodedFront(t[3..]));
    } else if t[0] != '%' {
      Assoc(out, [t[0]], DecodedFront(t[1..]));
    }
  }

  lemma PrefixedTwice(a: string, b: string, o: Option<string>)
    ensures Prefixed(a, Prefixed(b, o)) == Prefixed(a + b, o)
  {
    if o.Some? { Assoc(a, b, o.value); }
  }

  lemma PrefixedNone(o: Option<string>)
    ensures Prefixed("", o) == o
  {
    if o.Some? { assert "" + o.value == o.value; }
  }

  lemma {:induction false} SafeDecodeNulFree(s: string)
    requires NulFree(s) && SafeDecode(s).Some?
    ensures NulFree(SafeDecode(s).value)
    decreases |s|
  {
    if s == "" {
    } else if Escape(s) {
      SafeDecodeNulFree(s[3..]);
      assert '\0' !in Image(s[1], s[2]);
    } else {
      SafeDecodeNulFree(s[1..]);
    }
  }

  /** One turn of the pass; false at a bad escape. */
  method DecodeStep(buf: array<char>, src: nat, dst: nat, ghost was: string, ghost s: string, ghost out: string)
    returns (ok: bool, newSrc: nat, newDst: nat, ghost newOut: string)
    requires HeldIn(was, s) && dst <= src < |s| && Written(buf, was, dst, out)
    modifies buf
    ensures Written(buf, was, newDst, newOut) && newDst <= newSrc <= |s| && (ok ==> src < newSrc)
    ensures ok ==> Prefixed(newOut, SafeDecode(s[newSrc..])) == Prefixed(out, SafeDecode(s[src..]))
    ensures ok ==> newOut + DecodedFront(s[newSrc..]) == out + DecodedFront(s[src..])
    ensures !ok ==> SafeDecode(s[src..]) == None && newOut == out == out + DecodedFront(s[src..])
  {
    DecodeTurn(s, src, out);
    FrontTurn(s, src, out);
    ok, newSrc, newDst, newOut := true, src, dst, out;
    if buf[src] == '%' {
      if !IsHex(buf[src + 1]) || !IsHex(buf[src + 2]) {
        return false, src, dst, out;
      }
      newOut := out + Image(s[src + 1], s[src + 2]);
      newDst := WriteImage(buf, src, dst);
      newSrc := src + 3;
    } else {
      buf[dst] := buf[src];
      newSrc, newDst, newOut := src + 1, dst + 1, out + [s[src]];
    }
  }

  /** Escapes of literal bytes become the byte itself, the others upper case; `dst` never passes `src`. */
  method SafeDecodePass(buf: array<char>, ghost s: string) returns (ok: bool)
    requires Holds(buf, s)
    modifies buf
    ensures ok <==> SafeDecode(s).Some?
    ensures ok ==> Holds(buf, SafeDecode(s).value) && buf[..] == Over(old(buf[..]), SafeDecode(s).value)
    ensures !ok ==> buf[..] == DecodedFront(s) + old(buf[..])[|DecodedFront(s)|..]
  {
    var src: nat, dst: nat := 0, 0;
    ghost var out := "";
    ghost var was := buf[..];
    assert s[0..] == s;
    PrefixedNone(SafeDecode(s));
    NoneAround(DecodedFront(s));
    while buf[src] != '\0'
      invariant HeldIn(was, s) && dst <= src <= |s| && Written(buf, was, dst, out)
      invariant Prefixed(out, SafeDecode(s[src..])) == SafeDecode(s)
      invariant out + DecodedFront(s[src..]) == DecodedFront(s)
      decreases |s| - src
    {
      ok, src, dst, out := DecodeStep(buf, src, dst, was, s, out);
      if !ok {
        assert buf[..] == buf[..dst] + buf[dst..] && buf[dst..] == was[dst..];
        return false;
      }
    }
    assert s[src..] == "" && out + "" == out;
    SafeDecodeNulFree(s);
    Terminate(buf, dst, was);
    return true;
  }

  // ----- pass 2

  /** The pass from `src` on, in or behind the suffix. */
  function SqueezeFrom(s: string, src: nat, skip: bool): string
    requires src <= |s|
  {
    if skip then s[src..] else Squeeze(s[src..])
  }

  lemma SqueezeTurn(s: string, src: nat, skip: bool, out: string)
    requires src < |s|
    ensures skip || s[src] != '/' ==>
              out + SqueezeFrom(s, src, skip) == (out + [s[src]]) + SqueezeFrom(s, src + 1, skip || SuffixMark(s[src]))
    ensures !skip && s[src] == '/' ==>
              out + SqueezeFrom(s, src, skip) == (out + "/") + Squeeze(DropSlashes(s[src..]))
  {
    var c, t := [s[src]], s[src + 1..];
    assert s[src..] == c + t && s[src..][1..] == t;
    Assoc(out, c, SqueezeFrom(s, src + 1, skip || SuffixMark(s[src])));
    Assoc(out, "/", Squeeze(DropSlashes(s[src..])));
  }

  lemma {:induction false} SqueezeNulFree(s: string)
    requires NulFree(s)
    ensures NulFree(Squeeze(s))
    decreases |s|
  {
    if s == "" || SuffixMark(s[0]) {
    } else if s[0] == '/' {
      DropIsSuffix(s[1..]);
      SqueezeNulFree(DropSlashes(s[1..]));
    } else {
      SqueezeNulFree(s[1..]);
    }
  }

  lemma {:induction false} DropIsSuffix(s: string)
    ensures DropSlashes(s) == s[|s| - |DropSlashes(s)|..]
    decreases |s|
  {
    if s == "" || s[0] != '/' {
    } else {
      DropIsSuffix(s[1..]);
    }
  }

  /** One turn of the pass. */
  method SqueezeStep(buf: array<char>, src: nat, dst: nat, skip: bool,
                     ghost was: string, ghost s: string, ghost out: string)
    returns (newSrc: nat, newDst: nat, newSkip: bool, ghost newOut: string)
    requires HeldIn(was, s) && dst <= src < |s| && Written(buf, was, dst, out)
    modifies buf
    ensures src < newSrc <= |s| && newDst <= newSrc && Written(buf, was, newDst, newOut)
    ensures newOut + SqueezeFrom(s, newSrc, newSkip) == out + SqueezeFrom(s, src, skip)
  {
    SqueezeTurn(s, src, skip, out);
    var c := buf[src];
    newDst, newSkip, newOut := dst + 1, skip, out + [c];
    if c == '/' && !skip {
      buf[dst] := '/';
      newSrc := SkipSlashes(buf, src, s);
      return;
    }
    if c == '?' || c == '#' {
      newSkip := true;
    }
    buf[dst] := c;
    newSrc := src + 1;
  }

  method SqueezePass(buf: array<char>, ghost s: string)
    requires Holds(buf, s)
    modifies buf
    ensures Holds(buf, Squeeze(s)) && buf[..] == Over(old(buf[..]), Squeeze(s))
  {
    var src: nat, dst: nat := 0, 0;
    var skip := false;
    ghost var out := "";
    ghost var was := buf[..];
    assert s[0..] == s && out + Squeeze(s) == Squeeze(s);
    while buf[src] != '\0'
      invariant HeldIn(was, s) && dst <= src <= |s| && Written(buf, was, dst, out)
      invariant out + SqueezeFrom(s, src, skip) == Squeeze(s)
      decreases |s| - src
    {
      src, dst, skip, out := SqueezeStep(buf, src, dst, skip, was, s, out);
    }
    assert s[src..] == "" && out + "" == out;
    SqueezeNulFree(s);
    Terminate(buf, dst, was);
  }

  method SkipSlashes(buf: array<char>, src: nat, ghost s: string) returns (next: nat)
    requires src < |s| < buf.Length && buf[src] == s[src] == '/' && buf[|s|] == '\0'
    requires forall k :: src <= k < |s| ==> buf[k] == s[k]
    ensures src < next <= |s| && s[next..] == DropSlashes(s[src..])
  {
    next := src;
    while buf[next] == '/'
      invariant src <= next <= |s| && (next == src ==> s[next] == '/')
      invariant DropSlashes(s[next..]) == DropSlashes(s[src..])
      decreases |s| - next
    {
      assert s[next..][1..] == s[next + 1..];
      next := next + 1;
    }
    assert next < |s| ==> s[next..][0] == s[next];
  }

  // ----- pass 3

  /** The comparison of the text at `at` with a fixed text, stopping at the first difference. */
  method StrNCmpEqual(buf: array<char>, at: nat, lit: string, ghost s: string) returns (same: bool)
    requires at <= |s| < buf.Length && NulFree(lit) && buf[|s|] == '\0'
    requires forall k :: at <= k < |s| ==> buf[k] == s[k]
    ensures same <==> lit <= s[at..]
  {
    for i := 0 to |lit|
      invariant at + i <= |s| && s[at..at + i] == lit[..i]
    {
      if buf[at + i] != lit[i] {
        assert at + i < |s| ==> s[at..][i] == s[at + i];
        return false;
      }
      assert s[at..at + i + 1] == s[at..at + i] + [s[at + i]];
    }
    assert s[at..][..|lit|] == s[at..at + |lit|];
    return true;
  }

  method StartsSegment(buf: array<char>, src: nat, dots: string, ghost s: string) returns (here: bool)
    requires src <= |s| < buf.Length && NulFree(s) && NulFree(dots) && buf[|s|] == '\0'
    requires forall k :: src <= k < |s| ==> buf[k] == s[k]
    ensures here <==> AtSegment(s[src..], dots)
  {
    var same := StrNCmpEqual(buf, src, dots, s);
    if !same {
      return false;
    }
    var c := buf[src + |dots|];
    return c == '\0' || c == '#' || c == '?' || c == '/';
  }

  /** Moves the writing index back over the last kept segment. */
  method PopPass(buf: array<char>, dst: nat) returns (next: nat)
    requires 0 < dst <= buf.Length
    ensures next < dst && buf[..next] == Pop(buf[..dst])
  {
    next := dst - 1;
    assert buf[..dst][..dst - 1] == buf[..dst - 1];
    while next > 0 && buf[next] != '/'
      invariant next < dst
      invariant Pop(buf[..next + 1]) == Pop(buf[..dst])
    {
      next := next - 1;
      assert buf[..next + 2][..next + 1] == buf[..next + 1];
      assert buf[..next + 1][..next] == buf[..next];
    }
  }

  /** The pass from `src` on, with `out` written so far. */
  function ReduceFrom(out: string, s: string, src: nat, skip: bool): string
    requires src <= |s|
  {
    if skip then out + s[src..] else Reduce(out, s[src..])
  }

  lemma ReduceTurn(s: string, src: nat, skip: bool, out: string)
    requires src < |s|
    ensures var rest := s[src..];
            ReduceFrom(out, s, src, skip) ==
            if !skip && AtSegment(rest, "/..") then ReduceFrom(Pop(out), s, src + 3, false)
            else if !skip && AtSegment(rest, "/.") then ReduceFrom(out, s, src + 2, false)
            else ReduceFrom(out + [s[src]], s, src + 1, skip || SuffixMark(s[src]))
  {
    var rest := s[src..];
    assert rest == [s[src]] + s[src + 1..] && rest[1..] == s[src + 1..];
    Assoc(out, [s[src]], s[src + 1..]);
    if AtSegment(rest, "/..") { assert rest[3..] == s[src + 3..]; }
    if AtSegment(rest, "/.") { assert rest[2..] == s[src + 2..]; }
  }

  /** What lies between the two ends when the pass is through, from `src` on. */
  function TrailFrom(out: string, trail: string, s: string, src: nat, skip: bool): string
    requires src <= |s|
  {
    if skip then Copied(trail, s[src..]) else ReduceTrail(out, trail, s[src..])
  }

  lemma TrailTurn(s: string, src: nat, skip: bool, out: string, trail: string)
    requires src < |s|
    ensures var rest := s[src..];
            TrailFrom(out, trail, s, src, skip) ==
            if !skip && AtSegment(rest, "/..") then
              TrailFrom(Pop(out), out[|Pop(out)|..] + trail + rest[..3], s, src + 3, false)
            else if !skip && AtSegment(rest, "/.") then TrailFrom(out, trail + rest[..2], s, src + 2, false)
            else TrailFrom(out + [s[src]], Copied(trail, [s[src]]), s, src + 1, skip || SuffixMark(s[src]))
  {
    var rest := s[src..];
    assert rest[0] == s[src] && rest[1..] == s[src + 1..];
    CopiedTwice(trail, rest);
    if AtSegment(rest, "/..") { assert rest[3..] == s[src + 3..]; }
    if AtSegment(rest, "/.") { assert rest[2..] == s[src + 2..]; }
  }

  lemma CopiedTwice(trail: string, rest: string)
    requires rest != ""
    ensures Copied(Copied(trail, [rest[0]]), rest[1..]) == Copied(trail, rest)
  {
    assert rest == [rest[0]] + rest[1..];
    Assoc(trail, [rest[0]], rest[1..]);
    var t := trail + [rest[0]];
    assert t == [t[0]] + t[1..];
    assert (t + rest[1..])[1..] == t[1..] + rest[1..];
  }

  lemma {:induction false} PopIsPrefix(out: string)
    ensures Pop(out) == out[..|Pop(out)|]
    decreases |out|
  {
    if out == "" || out[|out| - 1] == '/' {
    } else {
      PopIsPrefix(out[..|out| - 1]);
    }
  }

  lemma {:induction false} ReduceNulFree(out: string, rest: string)
    requires NulFree(out) && NulFree(rest)
    ensures NulFree(Reduce(out, rest))
    decreases |rest|
  {
    if rest == "" || SuffixMark(rest[0]) {
    } else {
      PopIsPrefix(out);
      if AtSegment(rest, "/..") {
        ReduceNulFree(Pop(out), rest[3..]);
      } else if AtSegment(rest, "/.") {
        ReduceNulFree(out, rest[2..]);
      } else {
        ReduceNulFree(out + [rest[0]], rest[1..]);
      }
    }
  }

  /** At a slash of the path: where reading and writing go on when a dot segment is there. */
  method SkipDots(buf: array<char>, src: nat, dst: nat, ghost trail: string, ghost s: string)
    returns (skipped: bool, newSrc: nat, newDst: nat, ghost newTrail: string)
    requires dst <= src < |s| < buf.Length && NulFree(s) && buf[|s|] == '\0'
    requires forall k :: src <= k < |s| ==> buf[k] == s[k]
    requires buf[dst..src] == trail
    ensures newDst <= dst && src <= newSrc <= |s| && newTrail == buf[newDst..newSrc]
    ensures var rest, out := s[src..], buf[..dst];
            if AtSegment(rest, "/..") then
              && skipped && newSrc == src + 3 && buf[..newDst] == Pop(out)
              && newTrail == out[|Pop(out)|..] + trail + rest[..3]
            else if AtSegment(rest, "/.") then
              skipped && newSrc == src + 2 && newDst == dst && newTrail == trail + rest[..2]
            else !skipped && newSrc == src && newDst == dst && newTrail == trail
  {
    newSrc, newDst, newTrail := src, dst, trail;
    var up := StartsSegment(buf, src, "/..", s);
    if up {
      if dst > 0 {
        newDst := PopPass(buf, dst);
      }
      Passed(buf[..], dst, src, newDst, src + 3, s);
      return true, src + 3, newDst, buf[newDst..src + 3];
    }
    var dot := StartsSegment(buf, src, "/.", s);
    if dot {
      Passed(buf[..], dst, src, dst, src + 2, s);
      return true, src + 2, dst, buf[dst..src + 2];
    }
    return false, src, dst, trail;
  }

  /** What lies between the ends after both have moved away from each other. */
  lemma Passed(b: string, dst: nat, src: nat, newDst: nat, newSrc: nat, s: string)
    requires newDst <= dst <= src <= newSrc <= |s| < |b| && forall k :: src <= k < |s| ==> b[k] == s[k]
    ensures b[newDst..newSrc] == b[..dst][newDst..] + b[dst..src] + s[src..][..newSrc - src]
  {
  }

  /** The buffer between turns: what is kept, what lies between the two ends, and the unread rest. */
  ghost predicate Between(buf: array<char>, was: string, src: nat, dst: nat, out: string, trail: string)
    reads buf
  {
    && dst <= src <= buf.Length == |was|
    && buf[..dst] == out && buf[dst..src] == trail
    && forall k :: src <= k < buf.Length ==> buf[k] == was[k]
  }

  /** One turn of the pass. */
  method ReduceStep(buf: array<char>, src: nat, dst: nat, skip: bool,
                    ghost was: string, ghost s: string, ghost out: string, ghost trail: string)
    returns (newSrc: nat, newDst: nat, newSkip: bool, ghost newOut: string, ghost newTrail: string)
    requires HeldIn(was, s) && src < |s| && Between(buf, was, src, dst, out, trail)
    modifies buf
    ensures src < newSrc <= |s| && Between(buf, was, newSrc, newDst, newOut, newTrail)
    ensures ReduceFrom(newOut, s, newSrc, newSkip) == ReduceFrom(out, s, src, skip)
    ensures TrailFrom(newOut, newTrail, s, newSrc, newSkip) == TrailFrom(out, trail, s, src, skip)
  {
    ReduceTurn(s, src, skip, out);
    TrailTurn(s, src, skip, out, trail);
    newSrc, newDst, newSkip, newTrail := src, dst, skip, trail;
    var c := buf[src];
    if c == '/' && !skip {
      var skipped;
      skipped, newSrc, newDst, newTrail := SkipDots(buf, src, dst, trail, s);
      if skipped {
        newOut := buf[..newDst];
        return;
      }
    } else if c == '?' || c == '#' {
      newSkip := true;
    }
    newOut, newTrail := CopyChar(buf, src, dst, was, out, trail);
    newSrc, newDst := src + 1, dst + 1;
  }

  /** Drops "/." and lets "/.." move `dst` back; what lies from `src` on is never overwritten. */
  method ReducePass(buf: array<char>, ghost s: string)
    requires Holds(buf, s)
    modifies buf
    ensures Holds(buf, Reduce("", s))
    ensures buf[..] == Reduced(old(buf[..]), s)
  {
    var src: nat, dst: nat := 0, 0;
    var skip := false;
    ghost var out, trail := "", "";
    ghost var was := buf[..];
    assert s[0..] == s;
    while buf[src] != '\0'
      invariant HeldIn(was, s) && src <= |s| && Between(buf, was, src, dst, out, trail)
      invariant ReduceFrom(out, s, src, skip) == Reduce("", s)
      invariant TrailFrom(out, trail, s, src, skip) == ReduceTrail("", "", s)
      decreases |s| - src
    {
      src, dst, skip, out, trail := ReduceStep(buf, src, dst, skip, was, s, out, trail);
    }
    assert s[src..] == "" && out + "" == out;
    ReduceNulFree("", s);
    NoneAround(trail);
    ghost var whole := buf[..];
    EndReduced(buf, was, src, dst, out, trail);
    Terminate(buf, dst, whole);
    ReducedIs(was, s, whole, out, trail);
  }

  lemma ReducedIs(was: string, s: string, whole: string, out: string, trail: string)
    requires |s| < |was| && out == Reduce("", s) && trail == ReduceTrail("", "", s)
    requires whole == out + (trail + was[|s|..])
    ensures Over(whole, out) == Reduced(was, s)
  {
  }

  lemma EndReduced(buf: array<char>, was: string, src: nat, dst: nat, out: string, trail: string)
    requires Between(buf, was, src, dst, out, trail)
    ensures buf[..] == out + (trail + was[src..])
  {
    assert buf[..] == buf[..dst] + (buf[dst..src] + buf[src..]);
    assert buf[src..] == was[src..];
  }

  /** Moves one character to the writing end; what lies between the ends moves along. */
  method CopyChar(buf: array<char>, src: nat, dst: nat, ghost was: string, ghost out: string, ghost trail: string)
    returns (ghost newOut: string, ghost newTrail: string)
    requires src < buf.Length && Between(buf, was, src, dst, out, trail)
    modifies buf
    ensures newOut == out + [was[src]] && newTrail == Copied(trail, [was[src]])
    ensures Between(buf, was, src + 1, dst + 1, newOut, newTrail)
  {
    newOut, newTrail := out + [was[src]], Copied(trail, [was[src]]);
    assert trail + [was[src]] == buf[dst..src + 1];
    buf[dst] := buf[src];
  }

  // ----- all of it

  method UrlCanonifyUri(input: string) returns (rv: int, out: string)
    ensures rv == 0 <==> Canonify(CString(input)).Some?
    ensures out == if rv == 0 then Canonify(CString(input)).value else Torn(CString(input))
  {
    ghost var s := CString(input);
    var buf := LoadText(input);
    var n := buf.Length - 1;
    var ok := RewritePasses(buf, s);
    if !ok {
      return -1, buf[..n];
    }
    ghost var r := Reduce("", Squeeze(SafeDecode(s).value));
    rv := UrlUtf8Validate(buf, r);
    if rv != 0 {
      return rv, buf[..n];
    }
    out := ReadText(buf, r);
  }

  /** The three passes. */
  method RewritePasses(buf: array<char>, ghost s: string) returns (ok: bool)
    requires Holds(buf, s)
    modifies buf
    ensures ok <==> SafeDecode(s).Some?
    ensures ok ==> Holds(buf, Reduce("", Squeeze(SafeDecode(s).value)))
    ensures buf[..] == if ok then Rewritten(old(buf[..]), SafeDecode(s).value)
                       else DecodedFront(s) + old(buf[..])[|DecodedFront(s)|..]
  {
    ok := SafeDecodePass(buf, s);
    if ok {
      SqueezePass(buf, SafeDecode(s).value);
      ReducePass(buf, Squeeze(SafeDecode(s).value));
    }
  }

  /** The text up to its first NUL in a buffer of its own. */
  method LoadText(input: string) returns (buf: array<char>)
    ensures fresh(buf) && Holds(buf, CString(input)) && buf[..] == CString(input) + "\0"
  {
    ghost var s := CString(input);
    var n := 0;
    assert input[0..] == input;
    while n < |input| && input[n] != '\0'
      invariant n <= |s| && n <= |input| && s[..n] == input[..n] && s[n..] == CString(input[n..])
    {
      assert input[n..][0] == input[n] && input[n..][1..] == input[n + 1..];
      assert s[n..][0] == s[n] && s[n..][1..] == s[n + 1..];
      n := n + 1;
    }
    buf := new char[n + 1];
    forall i | 0 <= i < n {
      buf[i] := input[i];
    }
    buf[n] := '\0';
    assert n < |input| ==> input[n..][0] == input[n];
    assert buf[..n] == s;
  }

  method ReadText(buf: array<char>, ghost s: string) returns (t: string)
    requires Holds(buf, s)
    ensures t == s
  {
    t := "";
    while buf[|t|] != '\0'
      invariant |t| <= |s| && t == s[..|t|]
      decreases |s| - |t|
    {
      t := t + [buf[|t|]];
    }
  }
}
