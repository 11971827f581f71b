/** Pass 3 is a stack machine over path segments. */
module UrlSegments {
  import opened Substring
  import opened UrlText

  /** A text that holds no slash and no suffix mark: the head of a path, or one segment. */
  predicate Bare(t: string) {
    forall c :: c in t ==> c != '/' && !SuffixMark(c)
  }

  predicate NoMarks(s: string) {
    forall c :: c in s ==> !SuffixMark(c)
  }

  lemma NoMarksCut(s: string, n: nat)
    requires NoMarks(s) && n <= |s|
    ensures NoMarks(s[..n]) && NoMarks(s[n..])
  {
    forall c | c in s[..n] || c in s[n..] ensures c in s {}
  }

  predicate BarePath(p: Path) {
    Bare(p.head) && forall seg :: seg in p.segs ==> Bare(seg)
  }

  /** Where a segment may end: at the end of the text, a slash, or a suffix mark. */
  predicate Ends(rest: string) {
    rest == "" || rest[0] == '/' || SuffixMark(rest[0])
  }

  // ----- splitting and joining

  lemma {:induction false} SegmentsBare(p: string)
    requires p != "" ==> p[0] == '/'
    requires NoMarks(p)
    ensures forall seg :: seg in Segments(p) ==> Bare(seg)
    ensures Join(Segments(p)) == p
    decreases |p|
  {
    if p == "" {
    } else {
      var n := IndexOf(p[1..], '/');
      var q := p[1..];
      NoMarksCut(p, 1);
      NoMarksCut(q, n);
      HeadBare(q);
      SegmentsBare(q[n..]);
      CutFirst(p, n);
      FirstSegment(q[..n], Segments(q[n..]));
    }
  }

  lemma CutFirst(p: string, n: nat)
    requires p != "" && p[0] == '/' && n <= |p| - 1
    ensures p == "/" + p[1..][..n] + p[1..][n..]
  {
  }

  lemma FirstSegment(seg: string, segs: seq<string>)
    ensures Join([seg] + segs) == "/" + seg + Join(segs)
  {
    assert ([seg] + segs)[1..] == segs;
  }

  lemma JoinStarts(segs: seq<string>)
    ensures Join(segs) != "" ==> Join(segs)[0] == '/'
  {
  }

  lemma {:induction false} SegmentsOfJoin(segs: seq<string>)
    requires forall seg :: seg in segs ==> Bare(seg)
    ensures (Join(segs) != "" ==> Join(segs)[0] == '/') && Segments(Join(segs)) == segs
    decreases |segs|
  {
    JoinStarts(segs);
    if segs == [] {
    } else {
      var t := Join(segs[1..]);
      SegmentsOfJoin(segs[1..]);
      assert segs[0] in segs;
      Assoc("/", segs[0], t);
      Joined("/", segs[0] + t);
      SlashBehind(segs[0], t);
      assert Segments(Join(segs)) == [segs[0]] + Segments(t);
    }
  }

  lemma {:induction false} JoinUnmarked(segs: seq<string>)
    requires forall seg :: seg in segs ==> Bare(seg)
    ensures NoMarks(Join(segs))
    decreases |segs|
  {
    if segs == [] {
    } else {
      JoinUnmarked(segs[1..]);
      assert segs[0] in segs;
      NoMarksJoined("/" + segs[0], Join(segs[1..]));
    }
  }

  lemma NoMarksJoined(a: string, b: string)
    requires NoMarks(a) && NoMarks(b)
    ensures NoMarks(a + b)
  {
    forall c | c in a + b ensures c in a || c in b {}
  }

  lemma SlashBehind(a: string, t: string)
    requires Bare(a) && (t != "" ==> t[0] == '/')
    ensures IndexOf(a + t, '/') == |a| && (a + t)[..|a|] == a && (a + t)[|a|..] == t
  {
    var s := a + t;
    assert forall k :: 0 <= k < |a| ==> s[k] == a[k] && a[k] in a;
    assert t != "" ==> s[|a|] == t[0];
    IndexIs(s, '/', 0, |a|);
  }

  /** Splitting a path and joining it again are inverse to each other. */
  lemma SplitText(p: Path)
    requires BarePath(p)
    ensures Split(Text(p)) == p
    ensures NoMarks(Text(p))
  {
    SegmentsOfJoin(p.segs);
    JoinUnmarked(p.segs);
    NoMarksJoined(p.head, Join(p.segs));
    SlashBehind(p.head, Join(p.segs));
  }

  lemma TextSplit(s: string)
    requires NoMarks(s)
    ensures BarePath(Split(s)) && Text(Split(s)) == s
  {
    var n := IndexOf(s, '/');
    var head, tail := s[..n], s[n..];
    assert tail != "" ==> tail[0] == s[n];
    NoMarksCut(s, n);
    SegmentsBare(tail);
    HeadBare(s);
    assert Split(s) == Path(head, Segments(tail));
    assert s == head + tail;
  }

  lemma HeadBare(s: string)
    requires NoMarks(s)
    ensures Bare(s[..IndexOf(s, '/')])
  {
    var t := s[..IndexOf(s, '/')];
    NoneBeforeIndex(s, '/', 0);
    forall c | c in t ensures c != '/' && !SuffixMark(c) {
      var k :| 0 <= k < |t| && t[k] == c;
      assert s[k] == c;
    }
  }

  // ----- one segment at a time

  lemma {:induction false} CopyBare(kept: string, t: string, rest: string)
    requires Bare(t)
    ensures Reduce(kept, t + rest) == Reduce(kept + t, rest)
    decreases |t|
  {
    if t == "" {
      assert t + rest == rest && kept + t == kept;
    } else {
      assert t[0] in t;
      assert (t + rest)[1..] == t[1..] + rest;
      assert kept + t == kept + [t[0]] + t[1..];
      CopyBare(kept + [t[0]], t[1..], rest);
    }
  }

  lemma ReduceSegment(kept: string, seg: string, rest: string)
    requires Bare(seg) && Ends(rest)
    ensures Reduce(kept, "/" + seg + rest) ==
            if seg == "." then Reduce(kept, rest)
            else if seg == ".." then Reduce(Pop(kept), rest)
            else Reduce(kept + ("/" + seg), rest)
  {
    var s := "/" + seg + rest;
    assert forall i :: 0 <= i < |seg| ==> s[i + 1] == seg[i];
    assert |rest| > 0 ==> s[|seg| + 1] == rest[0];
    if seg == "." {
      assert s[2..] == rest && s[..2] == "/.";
    } else if seg == ".." {
      assert s[3..] == rest && s[..3] == "/..";
    } else {
      assert !AtSegment(s, "/.") by { NotAt(s, seg, rest, "."); }
      assert !AtSegment(s, "/..") by { NotAt(s, seg, rest, ".."); }
      assert s[1..] == seg + rest && s[0] == '/';
      CopyBare(kept + "/", seg, rest);
      Assoc(kept, "/", seg);
    }
  }

  lemma NotAt(s: string, seg: string, rest: string, dots: string)
    requires s == "/" + seg + rest && Bare(seg) && Ends(rest) && Bare(dots) && seg != dots
    ensures !AtSegment(s, "/" + dots)
  {
    var d := "/" + dots;
    assert d[1..] == dots && |d| == |dots| + 1;
    assert d <= s ==> s[..|d|] == d && s[1..|d|] == d[1..];
    assert forall i :: 0 <= i < |seg| ==> s[i + 1] == seg[i];
    if |seg| < |dots| {
      assert dots[|seg|] in dots;
      assert rest != "" ==> s[|seg| + 1] == rest[0];
      assert d[|seg| + 1] == dots[|seg|];
    } else if |dots| < |seg| {
      assert s[|d|] == seg[|dots|] && seg[|dots|] in seg;
    } else {
      assert s[1..|d|] == seg;
    }
  }

  lemma {:induction false} PopJoin(a: string, seg: string)
    requires Bare(seg)
    ensures Pop(a + ("/" + seg)) == a
    decreases |seg|
  {
    var k := a + ("/" + seg);
    if seg == "" {
      assert k[..|k| - 1] == a;
    } else {
      var n := |seg| - 1;
      assert seg[n] in seg && k[|k| - 1] == seg[n];
      assert k[..|k| - 1] == a + ("/" + seg[..n]);
      PopJoin(a, seg[..n]);
    }
  }

  lemma {:induction false} PopBare(t: string)
    requires Bare(t)
    ensures Pop(t) == ""
    decreases |t|
  {
    if t == "" {
    } else {
      assert t[|t| - 1] in t;
      PopBare(t[..|t| - 1]);
    }
  }

  lemma {:induction false} JoinSnoc(segs: seq<string>, seg: string)
    ensures Join(segs + [seg]) == Join(segs) + ("/" + seg)
    decreases |segs|
  {
    if segs == [] {
      assert segs + [seg] == [seg];
    } else {
      JoinSnoc(segs[1..], seg);
      assert (segs + [seg])[1..] == segs[1..] + [seg];
      assert "/" + segs[0] + (Join(segs[1..]) + ("/" + seg)) == ("/" + segs[0] + Join(segs[1..])) + ("/" + seg);
    }
  }

  /** Popping bytes back to the last slash pops the last segment; with no slash it clears the head. */
  lemma PopText(p: Path)
    requires BarePath(p)
    ensures Pop(Text(p)) == Text(Visit(p, ".."))
  {
    if p.segs == [] {
      PopBare(p.head);
      assert Text(p) == p.head;
    } else {
      var n := |p.segs| - 1;
      JoinSnoc(p.segs[..n], p.segs[n]);
      assert p.segs == p.segs[..n] + [p.segs[n]];
      Assoc(p.head, Join(p.segs[..n]), "/" + p.segs[n]);
      PopJoin(p.head + Join(p.segs[..n]), p.segs[n]);
    }
  }

  lemma VisitBare(p: Path, seg: string)
    requires BarePath(p) && Bare(seg)
    ensures BarePath(Visit(p, seg))
  {
    if seg != "." && seg != ".." {
      var segs := p.segs + [seg];
      forall x | x in segs ensures Bare(x) {}
    }
  }

  lemma {:induction false} ReduceResolves(p: Path, segs: seq<string>, suffix: string)
    requires BarePath(p) && (forall seg :: seg in segs ==> Bare(seg))
    requires suffix != "" ==> SuffixMark(suffix[0])
    ensures Reduce(Text(p), Join(segs) + suffix) == Text(Resolve(p, segs)) + suffix
    ensures BarePath(Resolve(p, segs))
    decreases |segs|
  {
    if segs == [] {
      assert Join(segs) + suffix == suffix;
      assert Text(p) + "" == Text(p);
    } else {
      var seg, rest := segs[0], Join(segs[1..]) + suffix;
      assert seg in segs;
      assert Join(segs) + suffix == "/" + seg + rest;
      JoinEnds(segs[1..], suffix);
      ReduceSegment(Text(p), seg, rest);
      VisitBare(p, seg);
      if seg == ".." {
        PopText(p);
      } else if seg != "." {
        JoinSnoc(p.segs, seg);
        Assoc(p.head, Join(p.segs), "/" + seg);
      }
      ReduceResolves(Visit(p, seg), segs[1..], suffix);
    }
  }

  lemma JoinEnds(segs: seq<string>, suffix: string)
    requires suffix != "" ==> SuffixMark(suffix[0])
    ensures Ends(Join(segs) + suffix)
  {
    assert segs == [] ==> Join(segs) + suffix == suffix;
  }

  lemma PathUnmarked(s: string)
    ensures NoMarks(PathOf(s))
  {
    var t := PathOf(s);
    forall c | c in t ensures !SuffixMark(c) {
      var k :| 0 <= k < |t| && t[k] == c;
      assert s[k] == c;
    }
  }

  /**
   Pass 3, read as a whole: the path is split at its slashes, "." segments vanish, each ".." takes back the
   segment before it (or the head), and the suffix is untouched.
   */
  lemma ReduceIsStack(s: string)
    ensures BarePath(Resolved(PathOf(s)))
    ensures Reduce("", s) == Text(Resolved(PathOf(s))) + SuffixOf(s)
  {
    var path, suffix := PathOf(s), SuffixOf(s);
    PathUnmarked(s);
    TextSplit(path);
    var p := Split(path);
    assert s == path + suffix;
    assert p.head + Join(p.segs) == path;
    Assoc(p.head, Join(p.segs), suffix);
    CopyBare("", p.head, Join(p.segs) + suffix);
    assert Text(Path(p.head, [])) == p.head && "" + p.head == p.head;
    ReduceResolves(Path(p.head, []), p.segs, suffix);
  }
}
