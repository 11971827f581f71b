/**
 The three rewriting passes of the URL canonicaliser and the plain decoder, as functions on texts, and the
 declarative forms they have: percent escapes, slash runs, and a stack of path segments.
 */
module UrlText {
  import opened Options
  import opened Substring

  // ----- percent escapes

  predicate IsHex(c: char) {
    '0' <= c <= '9' || 'A' <= c <= 'F' || 'a' <= c <= 'f'
  }

  function HexVal(c: char): (v: nat)
    ensures v < 16
  {
    if '0' <= c <= '9' then c as int - '0' as int
    else if 'A' <= c <= 'F' then c as int - 'A' as int + 10
    else if 'a' <= c <= 'f' then c as int - 'a' as int + 10
    else 0
  }

  function HexByte(a: char, b: char): (v: nat)
    ensures v < 256
  {
    HexVal(a) * 16 + HexVal(b)
  }

  function Upper(c: char): char {
    if 'a' <= c <= 'z' then (c as int - 32) as char else c
  }

  /** The bytes the canonical form never escapes: RFC 3986's unreserved set and everything above ASCII. */
  predicate Literal(v: nat)
    requires v < 256
  {
    var c := v as char;
    || 'A' <= c <= 'Z' || 'a' <= c <= 'z' || '0' <= c <= '9'
    || c == '.' || c == '~' || c == '_' || c == '-' || v >= 0x80
  }

  predicate Escape(s: string) {
    |s| >= 3 && s[0] == '%' && IsHex(s[1]) && IsHex(s[2])
  }

  function Image(a: char, b: char): string {
    if Literal(HexByte(a, b)) then [HexByte(a, b) as char] else ['%', Upper(a), Upper(b)]
  }

  function Prefixed(a: string, o: Option<string>): Option<string> {
    match o
    case None => None
    case Some(t) => Some(a + t)
  }

  /** Pass 1: escapes of literal bytes are replaced, the others get upper-case digits. */
  function SafeDecode(s: string): (o: Option<string>)
    ensures o.Some? ==> |o.value| <= |s|
  {
    if s == "" then Some("")
    else if s[0] != '%' then Prefixed([s[0]], SafeDecode(s[1..]))
    else if Escape(s) then Prefixed(Image(s[1], s[2]), SafeDecode(s[3..]))
    else None
  }

  /** What pass 1 writes before it stops at a bad escape, or at the end. */
  function DecodedFront(s: string): (t: string)
    ensures |t| <= |s|
  {
    if s == "" then ""
    else if s[0] != '%' then [s[0]] + DecodedFront(s[1..])
    else if Escape(s) then Image(s[1], s[2]) + DecodedFront(s[3..])
    else ""
  }

  /** The plain decoder: every escape is replaced. */
  function Decode(s: string): Option<string> {
    if s == "" then Some("")
    else if s[0] != '%' then Prefixed([s[0]], Decode(s[1..]))
    else if Escape(s) then Prefixed([HexByte(s[1], s[2]) as char], Decode(s[3..]))
    else None
  }

  // ----- path and suffix

  predicate SuffixMark(c: char) { c == '?' || c == '#' }

  function PathEnd(s: string): (n: nat)
    ensures n <= |s| && (n < |s| ==> SuffixMark(s[n]))
    ensures forall k :: 0 <= k < n ==> !SuffixMark(s[k])
  {
    if s == "" || SuffixMark(s[0]) then 0 else
      assert forall k :: 1 <= k < |s| ==> s[k] == s[1..][k - 1];
      1 + PathEnd(s[1..])
  }

  function PathOf(s: string): string { s[..PathEnd(s)] }

  function SuffixOf(s: string): string { s[PathEnd(s)..] }

  // ----- pass 2

  function DropSlashes(s: string): (t: string)
    ensures |t| <= |s|
  {
    if s != "" && s[0] == '/' then DropSlashes(s[1..]) else s
  }

  /** Pass 2: every run of slashes in the path becomes one slash. */
  function Squeeze(s: string): (t: string)
    ensures |t| <= |s|
    decreases |s|
  {
    if s == "" || SuffixMark(s[0]) then s
    else if s[0] == '/' then "/" + Squeeze(DropSlashes(s[1..]))
    else [s[0]] + Squeeze(s[1..])
  }

  // ----- pass 3

  /** Does the text begin with the whole segment `dots`? */
  predicate AtSegment(s: string, dots: string) {
    dots <= s && (|s| == |dots| || s[|dots|] == '/' || SuffixMark(s[|dots|]))
  }

  /** What is kept when the last segment goes, with its slash; everything when there is no slash. */
  function Pop(kept: string): (r: string)
    ensures |r| <= |kept|
  {
    if kept == "" then ""
    else if kept[|kept| - 1] == '/' then kept[..|kept| - 1]
    else Pop(kept[..|kept| - 1])
  }

  /** Pass 3 with its two ends: what was written so far and what is still to be read. */
  function Reduce(kept: string, rest: string): string
    decreases |rest|
  {
    if rest == "" then kept
    else if SuffixMark(rest[0]) then kept + rest
    else if AtSegment(rest, "/..") then Reduce(Pop(kept), rest[3..])
    else if AtSegment(rest, "/.") then Reduce(kept, rest[2..])
    else Reduce(kept + [rest[0]], rest[1..])
  }

  // ----- what the passes leave behind their result

  /** A buffer once `t` and a terminator have been written over its front. */
  function Over(b: string, t: string): (r: string)
    ensures |t| < |b| ==> |r| == |b|
  {
    t + (if |t| < |b| then "\0" + b[|t| + 1..] else "")
  }

  /** What lies between the two ends of pass 3 once `rest` has moved from the reading end to the writing end. */
  function Copied(trail: string, rest: string): (t: string)
    ensures |t| == |trail|
  {
    (trail + rest)[|rest|..]
  }

  /** What lies there when pass 3 is through. */
  function ReduceTrail(kept: string, trail: string, rest: string): string
    decreases |rest|
  {
    if rest == "" then trail
    else if SuffixMark(rest[0]) then Copied(trail, rest)
    else if AtSegment(rest, "/..") then ReduceTrail(Pop(kept), kept[|Pop(kept)|..] + trail + rest[..3], rest[3..])
    else if AtSegment(rest, "/.") then ReduceTrail(kept, trail + rest[..2], rest[2..])
    else ReduceTrail(kept + [rest[0]], Copied(trail, [rest[0]]), rest[1..])
  }

  // ----- the segments of a path

  /** A text before the first slash, and one text behind each slash. */
  datatype Path = Path(head: string, segs: seq<string>)

  function Segments(p: string): seq<string>
    requires p != "" ==> p[0] == '/'
    decreases |p|
  {
    if p == "" then []
    else
      var n := IndexOf(p[1..], '/');
      [p[1..][..n]] + Segments(p[1..][n..])
  }

  function Split(p: string): Path {
    Path(p[..IndexOf(p, '/')], Segments(p[IndexOf(p, '/')..]))
  }

  function Join(segs: seq<string>): string {
    if segs == [] then "" else "/" + segs[0] + Join(segs[1..])
  }

  function Text(p: Path): string { p.head + Join(p.segs) }

  /** One segment, from left to right: "." is dropped, ".." takes the last one back, or the head when none is left. */
  function Visit(p: Path, seg: string): Path {
    if seg == "." then p
    else if seg == ".." then
      if p.segs == [] then Path("", []) else p.(segs := p.segs[..|p.segs| - 1])
    else p.(segs := p.segs + [seg])
  }

  function Resolve(p: Path, segs: seq<string>): Path
    decreases |segs|
  {
    if segs == [] then p else Resolve(Visit(p, segs[0]), segs[1..])
  }

  /** The path with its dot segments resolved. */
  function Resolved(p: string): Path {
    Resolve(Path(Split(p).head, []), Split(p).segs)
  }
}
