/** Route patterns: rewriting ":key" into capture groups, matching, and binding the keys. */
module Route {
  import opened Options
  import opened Substring
  import opened RouteQuery
  import opened Utf8

  const GROUP: string := "(\\S+)"

  // ----- the compiler

  /** The text between the anchors and the keys in order. */
  datatype Compiled = Compiled(text: string, keys: seq<string>)

  /** Where the key that begins behind the ':' at `i` ends: the next slash, the next ':', or the end. */
  function KeyEnd(s: string, i: nat): (e: nat)
    requires i < |s| && s[i] == ':'
    ensures i < e <= |s|
  {
    var slash, next := IndexFrom(s, '/', i), IndexFrom(s, ':', i + 1);
    if slash < next then slash else next
  }

  /** None when a key is empty. */
  function Compile(path: string): Option<Compiled>
    decreases |path|
  {
    var i := IndexOf(path, ':');
    if i == |path| then Some(Compiled(path, []))
    else
      var e := KeyEnd(path, i);
      if e == i + 1 then None
      else
        match Compile(path[e..])
        case None => None
        case Some(c) => Some(Compiled(path[..i] + GROUP + c.text, [path[i + 1..e]] + c.keys))
  }

  function Behind(text: string, keys: seq<string>, o: Option<Compiled>): Option<Compiled> {
    match o
    case None => None
    case Some(c) => Some(Compiled(text + c.text, keys + c.keys))
  }

  lemma BehindTwice(a: string, x: seq<string>, b: string, y: seq<string>, o: Option<Compiled>)
    ensures Behind(a, x, Behind(b, y, o)) == Behind(a + b, x + y, o)
  {
    if o.Some? {
      Assoc(a, b, o.value.text);
      Assoc(x, y, o.value.keys);
    }
  }

  lemma CompileTurn(rest: string)
    requires IndexOf(rest, ':') < |rest|
    ensures var i := IndexOf(rest, ':');
            var e := KeyEnd(rest, i);
            Compile(rest) == if e == i + 1 then None
                             else Behind(rest[..i] + GROUP, [rest[i + 1..e]], Compile(rest[e..]))
  {
  }

  /** The searches run on the whole regex text find what they would find in the unread part alone. */
  lemma FindInRest(pre: string, rest: string, startPos: nat)
    requires startPos <= |pre| && forall k :: startPos <= k < |pre| ==> pre[k] != ':'
    ensures IndexFrom(pre + rest, ':', startPos) == |pre| + IndexOf(rest, ':')
    ensures var i := IndexOf(rest, ':');
            i < |rest| ==> KeyEnd(pre + rest, |pre| + i) == |pre| + KeyEnd(rest, i)
  {
    IndexSkip(pre + rest, ':', startPos, |pre|);
    IndexBehind(pre, rest, ':', 0);
    var i := IndexOf(rest, ':');
    if i < |rest| {
      IndexBehind(pre, rest, '/', i);
      IndexBehind(pre, rest, ':', i + 1);
    }
  }

  /** The text once the key at `startPos` is replaced, and the key; `pre` is its finished and `rest` its unread part. */
  method RewriteKey(regex: string, startPos: nat, ghost pre: string, ghost rest: string)
    returns (newRegex: string, key: string, ghost i: nat, ghost e: nat)
    requires regex == pre + rest && startPos == |pre| + IndexOf(rest, ':') < |regex|
    requires KeyEnd(regex, startPos) == |pre| + KeyEnd(rest, IndexOf(rest, ':'))
    ensures i == IndexOf(rest, ':') && e == KeyEnd(rest, i) && key == rest[i + 1..e]
    ensures newRegex == pre + (rest[..i] + GROUP) + rest[e..]
  {
    var slashEnd, nextEnd := IndexFrom(regex, '/', startPos), IndexFrom(regex, ':', startPos + 1);
    var end := if slashEnd < nextEnd then slashEnd else nextEnd;
    key := regex[startPos + 1..end];
    newRegex := regex[..startPos] + GROUP + regex[end..];
    i, e := startPos - |pre|, end - |pre|;
    KeyCut(pre, rest, i, e);
    Spliced(pre, rest[..i], rest[e..]);
  }

  lemma Spliced(pre: string, lit: string, tail: string)
    ensures pre + lit + GROUP + tail == pre + (lit + GROUP) + tail
  {
    Assoc(pre, lit, GROUP);
  }

  lemma KeyCut(pre: string, rest: string, i: nat, e: nat)
    requires i < e <= |rest|
    ensures var s := pre + rest;
            && s[|pre| + i + 1..|pre| + e] == rest[i + 1..e]
            && s[..|pre| + i] == pre + rest[..i] && s[|pre| + e..] == rest[e..]
  {
    Joined(pre, rest);
    CutTwice(pre + rest, |pre|, i);
    CutTwice(pre + rest, |pre|, e);
  }

  /** From `startPos` on the finished part holds no ':'. */
  ghost predicate NoKeyFrom(pre: string, startPos: nat) {
    startPos <= |pre| && forall k :: startPos <= k < |pre| ==> pre[k] != ':'
  }

  lemma NoKeyInGroup(pre: string, t: string)
    ensures NoKeyFrom(pre + (t + GROUP), |pre| + |t|)
  {
    var s := pre + (t + GROUP);
    forall k | |pre| + |t| <= k < |s| ensures s[k] != ':' {
      assert s[k] == GROUP[k - |pre| - |t|];
    }
  }

  /** One turn of the loop: the key, and the text with its group. */
  method NextKey(regex: string, startPos: nat, ghost keys: seq<string>, ghost pre: string, ghost rest: string)
    returns (newRegex: string, key: string, ghost newPre: string, ghost newRest: string)
    requires regex == pre + rest && startPos == |pre| + IndexOf(rest, ':') < |regex|
    requires KeyEnd(regex, startPos) == |pre| + KeyEnd(rest, IndexOf(rest, ':'))
    ensures key == "" ==> Compile(rest) == None
    ensures newRegex == newPre + newRest && |newRest| < |rest| && startPos < |newRegex| && NoKeyFrom(newPre, startPos)
    ensures key != "" ==> Behind(newPre, keys + [key], Compile(newRest)) == Behind(pre, keys, Compile(rest))
  {
    ghost var i, e;
    newRegex, key, i, e := RewriteKey(regex, startPos, pre, rest);
    newPre, newRest := pre + (rest[..i] + GROUP), rest[e..];
    CompileTurn(rest);
    BehindTwice(pre, keys, rest[..i] + GROUP, [key], Compile(newRest));
    NoKeyInGroup(pre, rest[..i]);
  }

  /** The rewriting loop on the regex text itself: the next search starts at the group just put in. */
  method RewritePath(path: string) returns (ok: bool, regex: string, keys: seq<string>)
    ensures ok <==> Compile(path).Some?
    ensures ok ==> regex == "^" + Compile(path).value.text && keys == Compile(path).value.keys
  {
    regex := "^" + path;
    keys := [];
    var startPos: nat := 0;
    ghost var pre, rest := "^", path;
    while startPos < |regex|
      invariant regex == pre + rest
      invariant if startPos < |regex| then NoKeyFrom(pre, startPos) else IndexOf(rest, ':') == |rest|
      invariant Behind(pre, keys, Compile(rest)) == Behind("^", [], Compile(path))
      decreases |rest|, |regex| - startPos
    {
      FindInRest(pre, rest, startPos);
      startPos := IndexFrom(regex, ':', startPos);
      if startPos < |regex| {
        var key;
        ghost var newPre, newRest;
        regex, key, newPre, newRest := NextKey(regex, startPos, keys, pre, rest);
        if key == "" {
          return false, regex, keys;
        }
        keys := keys + [key];
        pre, rest := newPre, newRest;
      }
    }
    RewriteDone(path, pre, keys, rest);
    return true, regex, keys;
  }

  lemma RewriteDone(path: string, pre: string, keys: seq<string>, rest: string)
    requires IndexOf(rest, ':') == |rest|
    requires Behind(pre, keys, Compile(rest)) == Behind("^", [], Compile(path))
    ensures Compile(path).Some?
    ensures pre + rest == "^" + Compile(path).value.text && keys == Compile(path).value.keys
  {
    CompileDone(rest);
    NoneAround(keys);
    if Compile(path).Some? { NoneAround(Compile(path).value.keys); }
  }

  lemma CompileDone(rest: string)
    requires IndexOf(rest, ':') == |rest|
    ensures Compile(rest) == Some(Compiled(rest, []))
  {
  }

  // ----- the regular expression

  datatype Piece = Lit(c: char) | Group

  predicate Meta(c: char) {
    c in "^$\\.*+?()[]{}|"
  }

  predicate Solid(s: string) { forall c :: c in s ==> !Space(c) }

  /** Reading the text between the anchors: plain characters and "(\S+)" groups; none for anything else. */
  function ReadRegex(s: string): Option<seq<Piece>>
    decreases |s|
  {
    if s == "" then Some([])
    else if GROUP <= s then
      match ReadRegex(s[|GROUP|..])
      case None => None
      case Some(ps) => Some([Group] + ps)
    else if Meta(s[0]) then None
    else
      match ReadRegex(s[1..])
      case None => None
      case Some(ps) => Some([Lit(s[0])] + ps)
  }

  datatype Rule = Rule(keys: seq<string>, re: seq<Piece>)

  /** `Foreign`: not a text of plain characters and groups; the library builds another expression or throws. */
  datatype Built = EmptyKey | Foreign(regex: string) | Built(rule: Rule)

  function BuildRule(path: string): Built {
    match Compile(path)
    case None => EmptyKey
    case Some(c) =>
      match ReadRegex(c.text)
      case None => Foreign("^" + c.text + "$")
      case Some(re) => Built(Rule(c.keys, re))
  }

  /** Reading the whole text, which is anchored at both ends. */
  function ReadAnchored(regex: string): Option<seq<Piece>> {
    if |regex| >= 2 && regex[0] == '^' && regex[|regex| - 1] == '$' then ReadRegex(regex[1..|regex| - 1]) else None
  }

  /** From a pattern to a rule: the text is rewritten, anchored, and read as a regular expression. */
  method HttpRouterPathParse(path: string) returns (built: Built)
    ensures built == BuildRule(path)
  {
    var ok, regex, keys := RewritePath(path);
    if !ok {
      return EmptyKey;
    }
    ghost var text := regex[1..];
    regex := regex + "$";
    assert regex[1..|regex| - 1] == text;
    var re := ReadAnchored(regex);
    return if re.None? then Foreign(regex) else Built(Rule(keys, re.value));
  }

  /** `s` is the literals in order with the captures in the place of the groups. */
  predicate Matches(ps: seq<Piece>, s: string, caps: seq<string>)
    decreases |ps|
  {
    if ps == [] then s == "" && caps == []
    else match ps[0]
      case Lit(c) => s != "" && s[0] == c && Matches(ps[1..], s[1..], caps)
      case Group =>
        && caps != [] && caps[0] != "" && Solid(caps[0]) && caps[0] <= s
        && Matches(ps[1..], s[|caps[0]|..], caps[1..])
  }

  /** Backtracking search, longest capture first. */
  function Search(ps: seq<Piece>, s: string): Option<seq<string>>
    decreases |ps|, |s| + 2
  {
    if ps == [] then (if s == "" then Some([]) else None)
    else match ps[0]
      case Lit(c) => if s != "" && s[0] == c then Search(ps[1..], s[1..]) else None
      case Group => SearchGroup(ps, s, |s|)
  }

  function SearchGroup(ps: seq<Piece>, s: string, k: nat): Option<seq<string>>
    requires ps != [] && ps[0] == Group && k <= |s|
    decreases |ps|, k + 1
  {
    if k == 0 then None
    else if !Solid(s[..k]) then SearchGroup(ps, s, k - 1)
    else match Search(ps[1..], s[k..])
      case Some(caps) => Some([s[..k]] + caps)
      case None => SearchGroup(ps, s, k - 1)
  }

  /** What the search finds is a match. */
  lemma {:induction false} SearchSound(ps: seq<Piece>, s: string)
    requires Search(ps, s).Some?
    ensures Matches(ps, s, Search(ps, s).value)
    decreases |ps|, |s| + 2
  {
    if ps == [] {
    } else {
      match ps[0]
      case Lit(_) => SearchSound(ps[1..], s[1..]);
      case Group => GroupSound(ps, s, |s|);
    }
  }

  lemma {:induction false} GroupSound(ps: seq<Piece>, s: string, k: nat)
    requires ps != [] && ps[0] == Group && k <= |s| && SearchGroup(ps, s, k).Some?
    ensures Matches(ps, s, SearchGroup(ps, s, k).value)
    decreases |ps|, k + 1
  {
    if Solid(s[..k]) && Search(ps[1..], s[k..]).Some? {
      SearchSound(ps[1..], s[k..]);
      var caps := SearchGroup(ps, s, k).value;
      assert caps[0] == s[..k] && caps[1..] == Search(ps[1..], s[k..]).value;
    } else {
      GroupSound(ps, s, k - 1);
    }
  }

  /** Some value is longer, and those before it are the same. */
  predicate Ahead(c: seq<string>, d: seq<string>)
    decreases |c|
  {
    c != [] && d != [] && (|c[0]| > |d[0]| || (c[0] == d[0] && Ahead(c[1..], d[1..])))
  }

  lemma {:induction false} AheadOneWay(c: seq<string>, d: seq<string>)
    ensures !(Ahead(c, d) && Ahead(d, c)) && !Ahead(c, c)
    decreases |c|
  {
    if c == [] {
    } else {
      AheadOneWay(c[1..], if d != [] then d[1..] else []);
    }
  }

  /** When there is a match the search finds one, and what it finds is ahead of every other match. */
  lemma {:induction false} SearchFirst(ps: seq<Piece>, s: string, caps: seq<string>)
    requires Matches(ps, s, caps)
    ensures Search(ps, s).Some? && (Search(ps, s).value == caps || Ahead(Search(ps, s).value, caps))
    decreases |ps|, |s| + 2
  {
    if ps == [] {
    } else {
      match ps[0]
      case Lit(_) => SearchFirst(ps[1..], s[1..], caps);
      case Group => GroupFirst(ps, s, |s|, caps);
    }
  }

  lemma {:induction false} GroupFirst(ps: seq<Piece>, s: string, k: nat, caps: seq<string>)
    requires ps != [] && ps[0] == Group && Matches(ps, s, caps) && |caps[0]| <= k <= |s|
    ensures SearchGroup(ps, s, k).Some?
    ensures SearchGroup(ps, s, k).value == caps || Ahead(SearchGroup(ps, s, k).value, caps)
    decreases |ps|, k + 1
  {
    if k == |caps[0]| {
      assert s[..k] == caps[0];
      SearchFirst(ps[1..], s[k..], caps[1..]);
      var found := SearchGroup(ps, s, k).value;
      assert found[0] == caps[0] && found[1..] == Search(ps[1..], s[k..]).value;
      assert caps == [caps[0]] + caps[1..];
    } else {
      GroupFirst(ps, s, k - 1, caps);
    }
  }

  // ----- applying a rule

  function Pairs(keys: seq<string>, values: seq<string>): (p: seq<Pair>)
    requires |keys| == |values|
    ensures |p| == |keys|
  {
    seq(|keys|, i requires 0 <= i < |keys| => Pair(keys[i], values[i]))
  }

  function ApplyRule(path: string, rule: Rule, m: Params): Result {
    match Search(rule.re, CString(path))
    case None => Result(false, m)
    case Some(caps) =>
      if |caps| != |rule.keys| then Result(false, m) else Result(true, EmplaceAll(m, Pairs(rule.keys, caps)))
  }

  method HttpRouterPathApplyRule(path: string, rule: Rule, params: Params) returns (ok: bool, out: Params)
    ensures Result(ok, out) == ApplyRule(path, rule, params)
  {
    out := params;
    var cm := Search(rule.re, CString(path));
    if cm.None? {
      return false, out;
    }
    if |cm.value| != |rule.keys| {
      return false, out;
    }
    ghost var pairs := Pairs(rule.keys, cm.value);
    for i := 0 to |rule.keys|
      invariant EmplaceAll(out, pairs[i..]) == EmplaceAll(params, pairs)
    {
      assert pairs[i..][1..] == pairs[i + 1..];
      out := Emplace(out, rule.keys[i], cm.value[i]);
    }
    return true, out;
  }

  // ----- patterns and their instances

  /** The pattern without its keys. */
  function LiteralText(path: string): string
    requires Compile(path).Some?
    decreases |path|
  {
    var i := IndexOf(path, ':');
    if i == |path| then path else path[..i] + LiteralText(path[KeyEnd(path, i)..])
  }

  /** No metacharacter outside the keys, which do not reach the regular expression. */
  ghost predicate PlainPattern(path: string) {
    Compile(path).Some? && forall c :: c in LiteralText(path) ==> !Meta(c)
  }

  function Keys(path: string): seq<string>
    requires Compile(path).Some?
  {
    Compile(path).value.keys
  }

  /** The pattern with its keys replaced by values, in order. */
  function Instantiate(path: string, values: seq<string>): string
    requires Compile(path).Some? && |values| == |Keys(path)|
    decreases |path|
  {
    var i := IndexOf(path, ':');
    if i == |path| then path
    else path[..i] + (values[0] + Instantiate(path[KeyEnd(path, i)..], values[1..]))
  }

  function Literals(s: string): (ps: seq<Piece>)
    ensures |ps| == |s|
  {
    seq(|s|, i requires 0 <= i < |s| => Lit(s[i]))
  }

  /** What the compiled text means: the literals, and a group for every key. */
  function Pieces(path: string): seq<Piece>
    requires Compile(path).Some?
    decreases |path|
  {
    var i := IndexOf(path, ':');
    if i == |path| then Literals(path)
    else Literals(path[..i]) + ([Group] + Pieces(path[KeyEnd(path, i)..]))
  }

  lemma {:induction false} ReadLiterals(lit: string, rest: string)
    requires forall c :: c in lit ==> !Meta(c)
    ensures ReadRegex(lit + rest) == match ReadRegex(rest)
                                     case None => None
                                     case Some(ps) => Some(Literals(lit) + ps)
    decreases |lit|
  {
    if lit == "" {
      assert lit + rest == rest;
      assert forall ps: seq<Piece> :: Literals(lit) + ps == ps;
    } else {
      var s := lit + rest;
      assert lit[0] in lit && s[0] == lit[0] && s[1..] == lit[1..] + rest;
      assert GROUP[0] == '(' != s[0];
      ReadLiterals(lit[1..], rest);
      if ReadRegex(rest).Some? {
        var ps := ReadRegex(rest).value;
        assert [Lit(lit[0])] + (Literals(lit[1..]) + ps) == Literals(lit) + ps;
      }
    }
  }

  /** The compiled text of a pattern without metacharacters has one group for each key. */
  lemma {:induction false} CompiledReads(path: string)
    requires PlainPattern(path)
    ensures ReadRegex(Compile(path).value.text) == Some(Pieces(path))
    decreases |path|
  {
    var i := IndexOf(path, ':');
    if i == |path| {
      ReadLiterals(path, "");
      assert path + "" == path && Literals(path) + [] == Literals(path);
    } else {
      var lit, rest := path[..i], path[KeyEnd(path, i)..];
      var text := Compile(rest).value.text;
      assert LiteralText(path) == lit + LiteralText(rest);
      CompiledReads(rest);
      Assoc(lit, GROUP, text);
      ReadLiterals(lit, GROUP + text);
      assert (GROUP + text)[|GROUP|..] == text;
    }
  }

  lemma RulePieces(path: string)
    requires PlainPattern(path)
    ensures BuildRule(path) == Built(Rule(Keys(path), Pieces(path)))
  {
    CompiledReads(path);
  }

  /** The rule of a pattern that can be built. */
  function CompiledRule(path: string): Rule
    requires BuildRule(path).Built?
  {
    BuildRule(path).rule
  }

  // ----- patterns that bring groups of their own

  function Groups(ps: seq<Piece>): nat {
    if ps == [] then 0 else (if ps[0] == Group then 1 else 0) + Groups(ps[1..])
  }

  lemma {:induction false} GroupsJoin(ps: seq<Piece>, qs: seq<Piece>)
    ensures Groups(ps + qs) == Groups(ps) + Groups(qs)
    decreases |ps|
  {
    if ps == [] {
      assert ps + qs == qs;
    } else {
      assert (ps + qs)[1..] == ps[1..] + qs;
      GroupsJoin(ps[1..], qs);
    }
  }

  lemma {:induction false} MatchGroups(ps: seq<Piece>, s: string, caps: seq<string>)
    requires Matches(ps, s, caps)
    ensures |caps| == Groups(ps)
    decreases |ps|
  {
    if ps == [] {
    } else {
      match ps[0]
      case Lit(_) => MatchGroups(ps[1..], s[1..], caps);
      case Group => MatchGroups(ps[1..], s[|caps[0]|..], caps[1..]);
    }
  }

  function JoinPieces(a: Option<seq<Piece>>, b: Option<seq<Piece>>): Option<seq<Piece>> {
    if a.None? || b.None? then None else Some(a.value + b.value)
  }

  /** A group that is put in does not change how the text before it reads. */
  lemma {:induction false} ReadJoin(a: string, b: string)
    requires b == "" || GROUP <= b
    ensures ReadRegex(a + b) == JoinPieces(ReadRegex(a), ReadRegex(b))
    decreases |a|
  {
    var s := a + b;
    if a == "" {
      assert s == b;
      assert forall ps: seq<Piece> :: [] + ps == ps;
    } else if GROUP <= a {
      assert s[..|GROUP|] == a[..|GROUP|] && s[|GROUP|..] == a[|GROUP|..] + b;
      ReadJoin(a[|GROUP|..], b);
      JoinOne(Group, ReadRegex(a[|GROUP|..]), ReadRegex(b));
    } else {
      NotYetGroup(a, b);
      assert s[0] == a[0] && s[1..] == a[1..] + b;
      ReadJoin(a[1..], b);
      JoinOne(Lit(a[0]), ReadRegex(a[1..]), ReadRegex(b));
    }
  }

  lemma JoinOne(p: Piece, a: Option<seq<Piece>>, b: Option<seq<Piece>>)
    ensures a.Some? && b.Some? ==> JoinPieces(Some([p] + a.value), b) == Some([p] + JoinPieces(a, b).value)
  {
    if a.Some? && b.Some? { Assoc([p], a.value, b.value); }
  }

  lemma NotYetGroup(a: string, b: string)
    requires a != "" && !(GROUP <= a) && (b == "" || GROUP <= b)
    ensures !(GROUP <= a + b)
  {
    var s := a + b;
    assert s[..|a|] == a;
    assert |a| >= |GROUP| ==> s[..|GROUP|] == a[..|GROUP|];
    assert b != "" ==> s[|a|] == b[0] == GROUP[0];
    assert forall k :: 1 <= k < |GROUP| ==> GROUP[k] != GROUP[0];
  }

  /** A text that reads without a group is plain. */
  lemma {:induction false} ReadPlain(a: string)
    requires ReadRegex(a).Some?
    ensures Groups(ReadRegex(a).value) == 0 <==> forall c :: c in a ==> !Meta(c)
    decreases |a|
  {
    if GROUP <= a {
      assert GROUP[0] in a && Meta(GROUP[0]);
    } else if a != "" {
      ReadPlain(a[1..]);
      assert a == [a[0]] + a[1..];
    }
  }

  lemma {:induction false} GroupsOfRule(path: string)
    requires BuildRule(path).Built?
    ensures Groups(CompiledRule(path).re) >= |Keys(path)|
    ensures Groups(CompiledRule(path).re) == |Keys(path)| <==> PlainPattern(path)
    decreases |path|
  {
    var i := IndexOf(path, ':');
    if i == |path| {
      ReadPlain(path);
    } else {
      var lit, rest := path[..i], path[KeyEnd(path, i)..];
      var text := Compile(rest).value.text;
      Assoc(lit, GROUP, text);
      ReadJoin(lit, GROUP + text);
      assert (GROUP + text)[|GROUP|..] == text;
      ReadPlain(lit);
      GroupsOfRule(rest);
      GroupsJoin(ReadRegex(lit).value, [Group] + ReadRegex(text).value);
      assert ([Group] + ReadRegex(text).value)[1..] == ReadRegex(text).value;
    }
  }

  /** A pattern that brings groups of its own compiles to a rule that accepts nothing. */
  lemma PlainOrDead(path: string, target: string, m: Params)
    requires BuildRule(path).Built? && ApplyRule(target, CompiledRule(path), m) != Result(false, m)
    ensures PlainPattern(path)
  {
    var re, s := CompiledRule(path).re, CString(target);
    SearchSound(re, s);
    MatchGroups(re, s, Search(re, s).value);
    GroupsOfRule(path);
  }

  // ----- what is refused and what is foreign

  predicate EmptyKeyAt(path: string, i: int) {
    0 <= i < |path| && path[i] == ':' && (i + 1 == |path| || path[i + 1] in ":/")
  }

  /** A pattern is refused exactly when some ':' has no key behind it. */
  lemma {:induction false} EmptyKeyExactly(path: string)
    ensures BuildRule(path) == EmptyKey <==> exists i :: EmptyKeyAt(path, i)
    decreases |path|
  {
    var i := IndexOf(path, ':');
    NoneBeforeIndex(path, ':', 0);
    if i == |path| {
    } else {
      var e := KeyEnd(path, i);
      NoneBeforeIndex(path, ':', i + 1);
      if e == i + 1 {
        assert EmptyKeyAt(path, i);
      } else {
        EmptyKeyExactly(path[e..]);
        EmptyKeyBehind(path, i, e);
      }
    }
  }

  lemma EmptyKeyBehind(path: string, i: nat, e: nat)
    requires i == IndexOf(path, ':') < |path| && e == KeyEnd(path, i) != i + 1
    requires (forall k :: 0 <= k < i ==> path[k] != ':')
    requires (forall k :: i + 1 <= k < IndexFrom(path, ':', i + 1) ==> path[k] != ':')
    ensures (exists j :: EmptyKeyAt(path, j)) <==> exists j :: EmptyKeyAt(path[e..], j)
  {
    var rest := path[e..];
    NoneBeforeIndex(path, '/', i);
    assert forall j :: 0 <= j < |rest| ==> rest[j] == path[e + j];
    if j :| EmptyKeyAt(path, j) {
      assert j >= e;
      assert EmptyKeyAt(rest, j - e);
    }
    if j :| EmptyKeyAt(rest, j) { assert EmptyKeyAt(path, e + j); }
  }

  /** Of the single characters, exactly these are not matched literally. */
  lemma OneCharacter(c: char)
    requires c != ':'
    ensures BuildRule([c]).Foreign? <==> c in "^$\\.*+?()[]{}|"
    ensures c !in "^$\\.*+?()[]{}|" ==> BuildRule([c]) == Built(Rule([], [Lit(c)]))
  {
    var path := [c];
    assert IndexOf(path, ':') == 1 && path[1..] == "";
    assert Compile(path) == Some(Compiled(path, []));
    assert ReadRegex(path) == if Meta(c) then None else Some([Lit(c)] + []);
  }

  /** A match that fails leaves the map as it is, and one that succeeds leaves what was in it. */
  lemma AppliedInto(target: string, rule: Rule, m: Params)
    ensures var r, alone := ApplyRule(target, rule, m), ApplyRule(target, rule, map[]);
            && r.ok == alone.ok
            && (!r.ok ==> r.params == m)
            && (r.ok ==> forall k :: k in r.params <==> k in m || k in alone.params)
            && (r.ok ==> forall k :: k in r.params ==> r.params[k] == if k in m then m[k] else alone.params[k])
  {
    var found := Search(rule.re, CString(target));
    if found.Some? && |found.value| == |rule.keys| {
      var pairs := Pairs(rule.keys, found.value);
      forall k
        ensures var a, b := EmplaceAll(m, pairs), EmplaceAll(map[], pairs);
                (k in a <==> k in m || k in b) && (k in a ==> a[k] == if k in m then m[k] else b[k])
      {
        FirstWins(m, pairs, k);
        FirstWins(map[], pairs, k);
      }
    }
  }

  /** A group takes any single character but whitespace. */
  lemma GroupCharacter(c: char)
    ensures Search([Group], [c]).Some? <==> c !in [' ', '\t', '\n', '\U{0B}', '\U{0C}', '\r']
  {
    var s := [c];
    assert s[..1] == s && s[1..] == "" && [Group][1..] == [];
    assert c in s;
    assert Search([], "") == Some([]);
    assert SearchGroup([Group], s, 0) == None;
  }
}
