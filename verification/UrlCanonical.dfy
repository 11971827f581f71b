/** What the canonical form is, that it means what the input meant, and that it is reached in one go. */
module UrlCanonical {
  import opened Options
  import opened Substring
  import opened UrlText
  import opened UrlSegments
  import opened UrlCanonify
  import opened Utf8

  // ----- escapes in normal form

  predicate UpperHex(c: char) { IsHex(c) && !('a' <= c <= 'f') }

  /** A percent sign that starts a well-placed, upper-case escape of a byte that needs escaping. */
  predicate NeededEscape(s: string, i: nat)
    requires i < |s|
  {
    i + 2 < |s| && UpperHex(s[i + 1]) && UpperHex(s[i + 2]) && !Literal(HexByte(s[i + 1], s[i + 2]))
  }

  predicate Normal(s: string) {
    forall i :: 0 <= i < |s| && s[i] == '%' ==> NeededEscape(s, i)
  }

  lemma NormalConcat(a: string, b: string)
    requires Normal(a) && Normal(b)
    ensures Normal(a + b)
  {
    var s := a + b;
    forall i | 0 <= i < |s| && s[i] == '%' ensures NeededEscape(s, i) {
      if i < |a| {
        assert NeededEscape(a, i);
      } else {
        assert b[i - |a|] == '%' && NeededEscape(b, i - |a|);
      }
    }
  }

  lemma NormalSuffix(s: string, n: nat)
    requires Normal(s) && n <= |s|
    ensures Normal(s[n..])
  {
    var t := s[n..];
    forall i | 0 <= i < |t| && t[i] == '%' ensures NeededEscape(t, i) {
      assert s[n + i] == '%' && NeededEscape(s, n + i);
    }
  }

  /** An escape never reaches over a character that is not a hexadecimal digit. */
  lemma NormalPrefix(s: string, n: nat)
    requires Normal(s) && n <= |s| && (n < |s| ==> !IsHex(s[n]))
    ensures Normal(s[..n])
  {
    var t := s[..n];
    forall i | 0 <= i < |t| && t[i] == '%' ensures NeededEscape(t, i) {
      assert s[i] == '%' && NeededEscape(s, i);
    }
  }

  lemma ImageNormal(a: char, b: char)
    requires IsHex(a) && IsHex(b)
    ensures Normal(Image(a, b))
    ensures HexByte(Upper(a), Upper(b)) == HexByte(a, b)
  {
    var s := Image(a, b);
    if !Literal(HexByte(a, b)) {
      assert NeededEscape(s, 0);
    }
  }

  lemma {:induction false} SafeDecodeNormal(s: string)
    requires SafeDecode(s).Some?
    ensures Normal(SafeDecode(s).value)
    decreases |s|
  {
    if s == "" {
    } else if s[0] == '%' {
      SafeDecodeNormal(s[3..]);
      ImageNormal(s[1], s[2]);
      NormalConcat(Image(s[1], s[2]), SafeDecode(s[3..]).value);
    } else {
      SafeDecodeNormal(s[1..]);
      NormalConcat([s[0]], SafeDecode(s[1..]).value);
    }
  }

  /** Pass 1 has nothing to do on a text in normal form. */
  lemma {:induction false} SafeDecodeFixed(s: string)
    requires Normal(s)
    ensures SafeDecode(s) == Some(s)
    decreases |s|
  {
    if s == "" {
    } else if s[0] == '%' {
      assert NeededEscape(s, 0);
      NormalSuffix(s, 3);
      SafeDecodeFixed(s[3..]);
      assert Image(s[1], s[2]) == s[..3] && s == s[..3] + s[3..];
    } else {
      NormalSuffix(s, 1);
      SafeDecodeFixed(s[1..]);
      assert s == [s[0]] + s[1..];
    }
  }

  // ----- meaning

  lemma {:induction false} ImageDecodes(a: char, b: char, rest: string)
    requires IsHex(a) && IsHex(b)
    ensures Decode(Image(a, b) + rest) == Prefixed([HexByte(a, b) as char], Decode(rest))
  {
    var t := Image(a, b) + rest;
    ImageNormal(a, b);
    if Literal(HexByte(a, b)) {
      assert t[1..] == rest;
    } else {
      assert t[3..] == rest;
    }
  }

  /**
   Pass 1 keeps the meaning: it rejects exactly what the plain decoder rejects, and its result decodes to
   the same bytes as the input.
   */
  lemma {:induction false} MeaningKept(s: string)
    ensures SafeDecode(s).Some? <==> Decode(s).Some?
    ensures SafeDecode(s).Some? ==> Decode(SafeDecode(s).value) == Decode(s)
    decreases |s|
  {
    if s == "" {
    } else if Escape(s) {
      MeaningKept(s[3..]);
      if SafeDecode(s).Some? {
        ImageDecodes(s[1], s[2], SafeDecode(s[3..]).value);
      }
    } else {
      MeaningKept(s[1..]);
      if SafeDecode(s).Some? {
        assert ([s[0]] + SafeDecode(s[1..]).value)[1..] == SafeDecode(s[1..]).value;
      }
    }
  }

  // ----- path and suffix

  lemma {:induction false} EndBehind(a: string, t: string)
    requires NoMarks(a)
    ensures PathEnd(a + t) == |a| + PathEnd(t)
    ensures PathOf(a + t) == a + PathOf(t) && SuffixOf(a + t) == SuffixOf(t)
  {
    var s, m := a + t, PathEnd(t);
    assert forall k :: 0 <= k < |a| ==> s[k] == a[k] && a[k] in a;
    assert forall k :: |a| <= k < |s| ==> s[k] == t[k - |a|];
    EndAt(s, |a| + m);
    Joined(a, t);
    CutTwice(s, |a|, m);
  }

  lemma EndAt(s: string, n: nat)
    requires n <= |s| && (n < |s| ==> SuffixMark(s[n])) && forall k :: 0 <= k < n ==> !SuffixMark(s[k])
    ensures PathEnd(s) == n
  {
  }

  lemma CutSuffix(s: string)
    ensures s == PathOf(s) + SuffixOf(s) && NoMarks(PathOf(s))
    ensures SuffixOf(s) != "" ==> SuffixMark(SuffixOf(s)[0])
  {
    PathUnmarked(s);
  }

  /** A text that begins with a suffix mark, or is empty, is all suffix. */
  lemma AllSuffix(p: string, suffix: string)
    requires NoMarks(p) && (suffix != "" ==> SuffixMark(suffix[0]))
    ensures PathOf(p + suffix) == p && SuffixOf(p + suffix) == suffix
  {
    EndBehind(p, suffix);
  }

  /** Pass 1 neither makes nor hides a suffix mark. */
  lemma {:induction false} SafeDecodeSuffix(s: string)
    requires SafeDecode(s).Some?
    ensures SafeDecode(SuffixOf(s)) == Some(SuffixOf(SafeDecode(s).value))
    decreases |s|
  {
    if s == "" {
    } else if SuffixMark(s[0]) {
      assert SuffixOf(s) == s;
    } else if s[0] == '%' {
      SafeDecodeSuffix(s[3..]);
      SuffixBehind(s, 3, Image(s[1], s[2]), SafeDecode(s[3..]).value);
    } else {
      SafeDecodeSuffix(s[1..]);
      SuffixBehind(s, 1, [s[0]], SafeDecode(s[1..]).value);
    }
  }

  lemma SuffixBehind(s: string, n: nat, image: string, t: string)
    requires n <= |s| && NoMarks(s[..n]) && NoMarks(image)
    ensures SuffixOf(s) == SuffixOf(s[n..]) && SuffixOf(image + t) == SuffixOf(t)
  {
    EndBehind(s[..n], s[n..]);
    EndBehind(image, t);
    assert s == s[..n] + s[n..];
  }

  // ----- slashes

  /** No two slashes side by side. */
  predicate Single(p: string) {
    forall i :: 0 <= i && i + 1 < |p| ==> p[i] != '/' || p[i + 1] != '/'
  }

  lemma {:induction false} SqueezePath(p: string, suffix: string)
    requires NoMarks(p) && (suffix != "" ==> SuffixMark(suffix[0]))
    ensures Squeeze(p + suffix) == Squeeze(p) + suffix
    decreases |p|
  {
    if p == "" {
      assert p + suffix == suffix && Squeeze(p) + suffix == suffix;
    } else {
      var s, q := p + suffix, p[1..];
      assert p[0] in p && s[0] == p[0] && s[1..] == q + suffix;
      NoMarksCut(p, 1);
      if p[0] == '/' {
        DropPath(q, suffix);
        DropIsSuffix(q);
        NoMarksCut(q, |q| - |DropSlashes(q)|);
        SqueezePath(DropSlashes(q), suffix);
        Assoc("/", Squeeze(DropSlashes(q)), suffix);
      } else {
        SqueezePath(q, suffix);
        Assoc([p[0]], Squeeze(q), suffix);
      }
    }
  }

  lemma {:induction false} DropPath(q: string, suffix: string)
    requires suffix != "" ==> SuffixMark(suffix[0])
    ensures DropSlashes(q + suffix) == DropSlashes(q) + suffix
    decreases |q|
  {
    if q == "" {
      assert q + suffix == suffix;
    } else if q[0] == '/' {
      assert (q + suffix)[1..] == q[1..] + suffix;
      DropPath(q[1..], suffix);
    }
  }

  lemma {:induction false} SqueezeSingle(p: string)
    requires NoMarks(p)
    ensures var r := Squeeze(p);
            Single(r) && NoMarks(r) && (p != "" ==> r != "" && r[0] == p[0])
    decreases |p|
  {
    if p == "" {
    } else {
      assert p[0] in p;
      NoMarksCut(p, 1);
      var q := p[1..];
      var t := if p[0] == '/' then DropSlashes(q) else q;
      DropIsSuffix(q);
      NoMarksCut(q, |q| - |t|);
      DropStops(q);
      SqueezeSingle(t);
      assert Squeeze(p) == [p[0]] + Squeeze(t);
      NoMarksJoined([p[0]], Squeeze(t));
    }
  }

  lemma {:induction false} DropStops(q: string)
    ensures DropSlashes(q) != "" ==> DropSlashes(q)[0] != '/'
    decreases |q|
  {
    if q == "" || q[0] != '/' {
    } else {
      DropStops(q[1..]);
    }
  }

  /** Squeezing removes slashes only, so it keeps every escape whole. */
  lemma {:induction false} SqueezeNormal(s: string)
    requires Normal(s)
    ensures Normal(Squeeze(s))
    decreases |s|
  {
    if s == "" || SuffixMark(s[0]) {
    } else if s[0] == '%' {
      assert NeededEscape(s, 0);
      NormalSuffix(s, 3);
      SqueezeNormal(s[3..]);
      SqueezeThree(s);
      NormalPrefix3(s);
      NormalConcat(s[..3], Squeeze(s[3..]));
    } else {
      var q := s[1..];
      var t := if s[0] == '/' then DropSlashes(q) else q;
      DropIsSuffix(q);
      NormalSuffix(s, |s| - |t|);
      assert t == s[|s| - |t|..];
      SqueezeNormal(t);
      NormalConcat([s[0]], Squeeze(t));
    }
  }

  lemma NormalPrefix3(s: string)
    requires s != "" && Normal(s) && s[0] == '%'
    ensures |s| >= 3 && Normal(s[..3])
  {
    assert NeededEscape(s, 0);
    assert NeededEscape(s[..3], 0);
  }

  lemma SqueezeThree(s: string)
    requires |s| >= 3 && s[0] == '%' && IsHex(s[1]) && IsHex(s[2])
    ensures Squeeze(s) == s[..3] + Squeeze(s[3..])
  {
    var r := Squeeze(s[3..]);
    assert s[1..][1..] == s[2..] && s[2..][1..] == s[3..];
    assert Squeeze(s[2..]) == [s[2]] + r;
    assert Squeeze(s[1..]) == [s[1]] + ([s[2]] + r);
    assert Squeeze(s) == [s[0]] + ([s[1]] + ([s[2]] + r));
  }

  lemma {:induction false} SqueezeFixed(p: string)
    requires NoMarks(p) && Single(p)
    ensures Squeeze(p) == p
    decreases |p|
  {
    if p == "" {
    } else {
      assert p[0] in p;
      var q := p[1..];
      NoMarksCut(p, 1);
      assert Single(q) by {
        forall i | 0 <= i && i + 1 < |q| ensures q[i] != '/' || q[i + 1] != '/' {
          assert q[i] == p[i + 1] && q[i + 1] == p[i + 2];
        }
      }
      assert q != "" ==> q[0] == p[1];
      SqueezeFixed(q);
      assert p == [p[0]] + q;
    }
  }

  // ----- segments

  /** Only the last segment may be empty. */
  predicate InnerFilled(segs: seq<string>) {
    forall i :: 0 <= i && i + 1 < |segs| ==> segs[i] != ""
  }

  /** Only the last segment may be empty, and none is a dot segment. */
  predicate Clean(segs: seq<string>) {
    InnerFilled(segs) && forall i :: 0 <= i < |segs| ==> segs[i] != "." && segs[i] != ".."
  }

  lemma {:induction false} SingleSegments(p: string)
    requires Single(p) && (p != "" ==> p[0] == '/')
    ensures InnerFilled(Segments(p))
    decreases |p|
  {
    if p == "" {
    } else {
      var q := p[1..];
      var n := IndexOf(q, '/');
      var t := q[n..];
      assert Single(t) by {
        forall i | 0 <= i && i + 1 < |t| ensures t[i] != '/' || t[i + 1] != '/' {
          assert t[i] == p[1 + n + i] && t[i + 1] == p[1 + n + i + 1];
        }
      }
      SingleSegments(t);
      assert q != "" ==> q[0] == p[1];
      if t == "" { assert Segments(t) == []; }
    }
  }

  lemma {:induction false} JoinSingle(segs: seq<string>)
    requires InnerFilled(segs) && forall seg :: seg in segs ==> Bare(seg)
    ensures Single(Join(segs))
    decreases |segs|
  {
    if segs == [] {
    } else {
      var seg, t := segs[0], Join(segs[1..]);
      JoinSingle(segs[1..]);
      JoinStarts(segs[1..]);
      assert seg in segs;
      assert segs[1..] != [] ==> seg != "";
      var s := "/" + seg + t;
      forall i | 0 <= i && i + 1 < |s| ensures s[i] != '/' || s[i + 1] != '/' {
        if 0 < i <= |seg| {
          assert s[i] == seg[i - 1] && seg[i - 1] in seg;
        } else if i > |seg| {
          assert s[i] == t[i - |seg| - 1] && s[i + 1] == t[i - |seg|];
        } else if seg != "" {
          assert s[1] == seg[0] && seg[0] in seg;
        }
      }
    }
  }

  /** Resolving keeps only filled segments and possibly an empty last one, and no dot segment. */
  lemma {:induction false} ResolveClean(p: Path, segs: seq<string>)
    requires Clean(p.segs) && InnerFilled(segs)
    requires segs != [] ==> forall i :: 0 <= i < |p.segs| ==> p.segs[i] != ""
    ensures Clean(Resolve(p, segs).segs)
    decreases |segs|
  {
    if segs == [] {
    } else {
      var q := Visit(p, segs[0]);
      assert segs[1..] != [] ==> segs[0] != "";
      ResolveClean(q, segs[1..]);
    }
  }

  lemma {:induction false} ResolveNormal(p: Path, segs: seq<string>)
    requires Normal(p.head) && forall seg :: seg in p.segs + segs ==> Normal(seg)
    ensures var q := Resolve(p, segs);
            Normal(q.head) && forall seg :: seg in q.segs ==> Normal(seg)
    decreases |segs|
  {
    if segs == [] {
    } else {
      var q := Visit(p, segs[0]);
      forall seg | seg in q.segs + segs[1..] ensures seg in p.segs + segs {}
      ResolveNormal(q, segs[1..]);
    }
  }

  /** A clean list of segments resolves to itself. */
  lemma {:induction false} ResolveFixed(p: Path, segs: seq<string>)
    requires forall i :: 0 <= i < |segs| ==> segs[i] != "." && segs[i] != ".."
    ensures Resolve(p, segs) == Path(p.head, p.segs + segs)
    decreases |segs|
  {
    if segs == [] {
      assert p.segs + segs == p.segs;
    } else {
      ResolveFixed(Visit(p, segs[0]), segs[1..]);
      assert p.segs + [segs[0]] + segs[1..] == p.segs + segs;
    }
  }

  // ----- the two theorems

  lemma {:induction false} SegmentsNormal(p: string)
    requires Normal(p) && (p != "" ==> p[0] == '/')
    ensures forall seg :: seg in Segments(p) ==> Normal(seg)
    decreases |p|
  {
    if p == "" {
    } else {
      var q := p[1..];
      var n := IndexOf(q, '/');
      NormalSuffix(p, 1);
      NormalPrefix(q, n);
      NormalSuffix(q, n);
      SegmentsNormal(q[n..]);
    }
  }

  lemma {:induction false} JoinNormal(segs: seq<string>)
    requires forall seg :: seg in segs ==> Normal(seg)
    ensures Normal(Join(segs))
    decreases |segs|
  {
    if segs == [] {
    } else {
      assert segs[0] in segs;
      JoinNormal(segs[1..]);
      NormalConcat("/", segs[0]);
      NormalConcat("/" + segs[0], Join(segs[1..]));
    }
  }

  lemma SplitNormal(p: string)
    requires Normal(p) && NoMarks(p)
    ensures Normal(Split(p).head) && forall seg :: seg in Split(p).segs ==> Normal(seg)
  {
    NormalPrefix(p, IndexOf(p, '/'));
    NormalSuffix(p, IndexOf(p, '/'));
    SegmentsNormal(p[IndexOf(p, '/')..]);
  }

  /** The path of the result, as a list of segments, with all that is known of it. */
  ghost predicate CanonicalPath(p: Path) {
    && BarePath(p) && Clean(p.segs)
    && Normal(p.head) && forall seg :: seg in p.segs ==> Normal(seg)
  }

  lemma SplitFilled(p: string)
    requires Single(p)
    ensures InnerFilled(Split(p).segs)
  {
    var t := p[IndexOf(p, '/')..];
    assert Single(t) by {
      forall i | 0 <= i && i + 1 < |t| ensures t[i] != '/' || t[i + 1] != '/' {
        assert t[i] == p[IndexOf(p, '/') + i] && t[i + 1] == p[IndexOf(p, '/') + i + 1];
      }
    }
    SingleSegments(t);
  }

  /** Passes 2 and 3 on a text whose escapes are in normal form. */
  lemma Passes(t: string)
    requires Normal(t)
    ensures var p := Resolved(Squeeze(PathOf(t)));
            CanonicalPath(p) && Reduce("", Squeeze(t)) == Text(p) + SuffixOf(t)
  {
    CutSuffix(t);
    var path, suffix := PathOf(t), SuffixOf(t);
    var q := Squeeze(path);
    NormalPrefix(t, PathEnd(t));
    SqueezePath(path, suffix);
    SqueezeSingle(path);
    SqueezeNormal(path);
    AllSuffix(q, suffix);
    ReduceIsStack(q + suffix);
    SplitFilled(q);
    SplitNormal(q);
    ResolveClean(Path(Split(q).head, []), Split(q).segs);
    assert [] + Split(q).segs == Split(q).segs;
    ResolveNormal(Path(Split(q).head, []), Split(q).segs);
  }

  /** Nothing is left to do on a canonical path and a suffix in normal form. */
  lemma PassesFixed(p: Path, suffix: string)
    requires CanonicalPath(p) && Normal(suffix) && (suffix != "" ==> SuffixMark(suffix[0]))
    ensures var r := Text(p) + suffix;
            && PathOf(r) == Text(p) && SuffixOf(r) == suffix
            && Normal(r) && Single(PathOf(r)) && Split(PathOf(r)) == p
            && SafeDecode(r) == Some(r) && Squeeze(r) == r && Reduce("", r) == r
  {
    var r, path := Text(p) + suffix, Text(p);
    SplitText(p);
    AllSuffix(path, suffix);
    JoinNormal(p.segs);
    NormalConcat(p.head, Join(p.segs));
    NormalConcat(path, suffix);
    SafeDecodeFixed(r);
    TextSingle(p);
    SqueezePath(path, suffix);
    SqueezeFixed(path);
    ReduceIsStack(r);
    ResolveFixed(Path(p.head, []), p.segs);
    assert [] + p.segs == p.segs;
  }

  lemma TextSingle(p: Path)
    requires BarePath(p) && Clean(p.segs)
    ensures Single(Text(p))
  {
    var t, s := Join(p.segs), Text(p);
    JoinSingle(p.segs);
    forall i | 0 <= i && i + 1 < |s| ensures s[i] != '/' || s[i + 1] != '/' {
      if i < |p.head| {
        assert s[i] == p.head[i] && p.head[i] in p.head;
      } else {
        assert s[i] == t[i - |p.head|] && s[i + 1] == t[i + 1 - |p.head|];
      }
    }
  }

  /** Normal escapes, single slashes and no dot segment in the path, and units that pass the check. */
  ghost predicate Canonical(s: string) {
    && Normal(s) && Single(PathOf(s)) && Accepted(s)
    && forall seg :: seg in Split(PathOf(s)).segs ==> seg != "." && seg != ".."
  }

  /**
   Canonical form: no two slashes side by side in the path, no "." or ".." segment behind a slash, every
   percent sign the start of a needed upper-case escape, and the suffix that of pass 1. The path is the
   input's, decoded, squeezed and resolved.
   */
  lemma CanonicalForm(s: string)
    requires Canonify(s).Some?
    ensures var r := Canonify(s).value;
            && Canonical(r)
            && Split(PathOf(r)) == Resolved(Squeeze(PathOf(SafeDecode(s).value)))
            && SafeDecode(SuffixOf(s)) == Some(SuffixOf(r))
  {
    var t := SafeDecode(s).value;
    SafeDecodeNormal(s);
    SafeDecodeSuffix(s);
    Passes(t);
    CutSuffix(t);
    NormalSuffix(t, PathEnd(t));
    PassesFixed(Resolved(Squeeze(PathOf(t))), SuffixOf(t));
  }

  /** Canonifying a canonical text succeeds and changes nothing. */
  lemma Idempotent(s: string)
    requires Canonify(s).Some?
    ensures Canonify(Canonify(s).value) == Canonify(s)
  {
    var t := SafeDecode(s).value;
    SafeDecodeNormal(s);
    Passes(t);
    CutSuffix(t);
    NormalSuffix(t, PathEnd(t));
    PassesFixed(Resolved(Squeeze(PathOf(t))), SuffixOf(t));
  }

  lemma CanonicalParts(s: string)
    requires Canonical(s)
    ensures CanonicalPath(Split(PathOf(s))) && Text(Split(PathOf(s))) == PathOf(s) && Normal(SuffixOf(s))
  {
    var path := PathOf(s);
    var segs := Split(path).segs;
    PathUnmarked(s);
    TextSplit(path);
    NormalPrefix(s, PathEnd(s));
    NormalSuffix(s, PathEnd(s));
    SplitNormal(path);
    SplitFilled(path);
    assert forall i :: 0 <= i < |segs| ==> segs[i] in segs;
  }

  /** The texts that canonifying leaves as they are. */
  lemma FixedExactly(s: string)
    ensures Canonify(s) == Some(s) <==> Canonical(s)
  {
    if Canonify(s) == Some(s) {
      CanonicalForm(s);
    } else if Canonical(s) {
      CanonicalParts(s);
      CutSuffix(s);
      PassesFixed(Split(PathOf(s)), SuffixOf(s));
    }
  }

  // ----- pass 2 on segments

  /** Without the empty segments, but for an empty last one. */
  function Filled(segs: seq<string>): (t: seq<string>)
    ensures segs != [] ==> t != []
  {
    if |segs| <= 1 then segs
    else if segs[0] == "" then Filled(segs[1..])
    else [segs[0]] + Filled(segs[1..])
  }

  lemma {:induction false} SqueezeBare(t: string, rest: string)
    requires Bare(t)
    ensures Squeeze(t + rest) == t + Squeeze(rest)
    decreases |t|
  {
    if t == "" {
      assert t + rest == rest && t + Squeeze(rest) == Squeeze(rest);
    } else {
      assert t[0] in t && (t + rest)[1..] == t[1..] + rest;
      SqueezeBare(t[1..], rest);
      Assoc([t[0]], t[1..], Squeeze(rest));
      assert [t[0]] + t[1..] == t;
    }
  }

  /** One segment in front: it stays, unless it is empty and another one follows. */
  lemma SqueezeFirst(seg: string, rest: string)
    requires Bare(seg) && (rest != "" ==> rest[0] == '/')
    ensures Squeeze("/" + seg + rest) ==
            if seg != "" then "/" + seg + Squeeze(rest) else if rest == "" then "/" else Squeeze(rest)
  {
    var s := "/" + seg + rest;
    assert s[1..] == seg + rest;
    if seg == "" {
      NoneAround(rest);
    } else {
      assert seg[0] in seg && (seg + rest)[0] == seg[0];
      SqueezeBare(seg, rest);
      Assoc("/", seg, Squeeze(rest));
    }
  }

  lemma {:induction false} SqueezeJoin(segs: seq<string>)
    requires forall seg :: seg in segs ==> Bare(seg)
    ensures Squeeze(Join(segs)) == Join(Filled(segs))
    decreases |segs|
  {
    if segs == [] {
    } else {
      var seg, rest := segs[0], Join(segs[1..]);
      assert seg in segs;
      SqueezeJoin(segs[1..]);
      JoinStarts(segs[1..]);
      SqueezeFirst(seg, rest);
      if seg != "" { FirstSegment(seg, Filled(segs[1..])); }
    }
  }

  /** Pass 2 removes the empty segments of a path, but for an empty last one, and nothing else. */
  lemma SqueezeSegments(p: Path)
    requires BarePath(p)
    ensures Squeeze(Text(p)) == Text(p.(segs := Filled(p.segs)))
  {
    SqueezeBare(p.head, Join(p.segs));
    SqueezeJoin(p.segs);
  }

  lemma {:induction false} FilledBare(segs: seq<string>)
    requires forall seg :: seg in segs ==> Bare(seg)
    ensures forall seg :: seg in Filled(segs) ==> Bare(seg)
    decreases |segs|
  {
    if |segs| <= 1 {
    } else {
      assert segs[0] in segs;
      FilledBare(segs[1..]);
    }
  }

  /** The whole path of a result: the segments of the decoded path, without the empty ones, resolved. */
  lemma CanonicalSegments(s: string)
    requires Canonify(s).Some?
    ensures var p := Split(PathOf(SafeDecode(s).value));
            Split(PathOf(Canonify(s).value)) == Resolve(Path(p.head, []), Filled(p.segs))
  {
    var path := PathOf(SafeDecode(s).value);
    var p := Split(path);
    CanonicalForm(s);
    PathUnmarked(SafeDecode(s).value);
    TextSplit(path);
    SqueezeSegments(p);
    FilledBare(p.segs);
    SplitText(p.(segs := Filled(p.segs)));
  }
}
