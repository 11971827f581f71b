/** A pattern accepts exactly its instances, and gives back the values it was instantiated with. */
module RouteRoundTrip {
  import opened Options
  import opened Substring
  import opened RouteQuery
  import opened Route
  import opened Utf8

  /** What a group can capture. */
  predicate Captures(values: seq<string>) {
    forall v :: v in values ==> v != "" && Solid(v)
  }

  lemma {:induction false} MatchLiterals(lit: string, ps: seq<Piece>, s: string, caps: seq<string>)
    ensures Matches(Literals(lit) + ps, s, caps) <==> lit <= s && Matches(ps, s[|lit|..], caps)
    decreases |lit|
  {
    var all := Literals(lit) + ps;
    if lit == "" {
      assert all == ps && s[0..] == s;
    } else {
      assert all[0] == Lit(lit[0]) && all[1..] == Literals(lit[1..]) + ps;
      if s != "" {
        MatchLiterals(lit[1..], ps, s[1..], caps);
        assert lit <= s <==> s[0] == lit[0] && lit[1..] <= s[1..] by { PrefixTail(lit, s); }
        assert |lit| <= |s| ==> s[1..][|lit| - 1..] == s[|lit|..];
      }
    }
  }

  lemma PrefixTail(a: string, s: string)
    requires a != "" && s != ""
    ensures a <= s <==> a[0] == s[0] && a[1..] <= s[1..]
  {
    assert a == [a[0]] + a[1..] && s == [s[0]] + s[1..];
  }

  lemma {:induction false} MatchAll(lit: string, s: string, caps: seq<string>)
    ensures Matches(Literals(lit), s, caps) <==> s == lit && caps == []
  {
    assert Literals(lit) + [] == Literals(lit);
    MatchLiterals(lit, [], s, caps);
    assert lit <= s && s[|lit|..] == "" ==> s == s[..|lit|];
  }

  /** The match relation of a compiled pattern: the text is an instance, and the captures are its values. */
  lemma {:induction false} MatchIsInstance(path: string, s: string, caps: seq<string>)
    requires Compile(path).Some?
    ensures Matches(Pieces(path), s, caps) <==>
            |caps| == |Keys(path)| && Captures(caps) && s == Instantiate(path, caps)
    decreases |path|, 0
  {
    var i := IndexOf(path, ':');
    if i == |path| {
      MatchAll(path, s, caps);
    } else {
      var lit, rest := path[..i], path[KeyEnd(path, i)..];
      MatchLiterals(lit, [Group] + Pieces(rest), s, caps);
      if lit <= s {
        MatchGroup(rest, s[|lit|..], caps);
        assert s == lit + s[|lit|..];
      }
      if |caps| == |Keys(path)| {
        var tail := caps[0] + Instantiate(rest, caps[1..]);
        assert s == lit + tail ==> s[|lit|..] == tail;
      }
    }
  }

  lemma CapturesCons(caps: seq<string>)
    requires caps != []
    ensures Captures(caps) <==> caps[0] != "" && Solid(caps[0]) && Captures(caps[1..])
  {
    assert caps[0] in caps;
    forall v | v in caps ensures v == caps[0] || v in caps[1..] {
      var i :| 0 <= i < |caps| && caps[i] == v;
      assert i > 0 ==> caps[1..][i - 1] == v;
    }
    forall v | v in caps[1..] ensures v in caps {}
  }

  lemma {:induction false} MatchGroup(rest: string, t: string, caps: seq<string>)
    requires Compile(rest).Some?
    ensures Matches([Group] + Pieces(rest), t, caps) <==>
            |caps| == 1 + |Keys(rest)| && Captures(caps) && t == caps[0] + Instantiate(rest, caps[1..])
    decreases |rest|, 1
  {
    var ps := [Group] + Pieces(rest);
    assert ps[1..] == Pieces(rest);
    if caps == [] {
    } else {
      CapturesCons(caps);
      if caps[0] <= t {
        MatchIsInstance(rest, t[|caps[0]|..], caps[1..]);
        assert t == caps[0] + t[|caps[0]|..];
      }
      if |caps| == 1 + |Keys(rest)| {
        var tail := Instantiate(rest, caps[1..]);
        assert (caps[0] + tail)[|caps[0]|..] == tail;
      }
    }
  }

  // ----- soundness

  predicate Distinct(keys: seq<string>) {
    forall i, j :: 0 <= i < j < |keys| ==> keys[i] != keys[j]
  }

  function Values(keys: seq<string>, m: Params): seq<string>
    requires forall k :: k in keys ==> k in m
  {
    seq(|keys|, i requires 0 <= i < |keys| => m[keys[i]])
  }

  /** With distinct keys and an empty map every key keeps its own value. */
  lemma {:induction false} BoundAll(keys: seq<string>, values: seq<string>)
    requires |keys| == |values| && Distinct(keys)
    ensures var m := EmplaceAll(map[], Pairs(keys, values));
            && (forall k :: k in m <==> k in keys)
            && Values(keys, m) == values
  {
    var pairs := Pairs(keys, values);
    var m := EmplaceAll(map[], pairs);
    forall k ensures k in m <==> k in keys {
      FirstWins(map[], pairs, k);
      if HasKey(pairs, k) {
        var i :| 0 <= i < |pairs| && pairs[i].key == k;
        assert keys[i] == k;
      }
      if k in keys {
        var i :| 0 <= i < |keys| && keys[i] == k;
        assert pairs[i].key == k;
      }
    }
    forall i | 0 <= i < |keys| ensures m[keys[i]] == values[i] {
      FirstWins(map[], pairs, keys[i]);
      assert pairs[i].key == keys[i];
      FirstValueAt(keys, values, i);
    }
  }

  lemma {:induction false} FirstValueAt(keys: seq<string>, values: seq<string>, i: nat)
    requires |keys| == |values| && Distinct(keys) && i < |keys|
    ensures HasKey(Pairs(keys, values), keys[i]) && FirstValue(Pairs(keys, values), keys[i]) == values[i]
    decreases i
  {
    var pairs := Pairs(keys, values);
    assert pairs[i].key == keys[i];
    if i == 0 {
    } else {
      assert pairs[0].key != keys[i];
      assert pairs[1..] == Pairs(keys[1..], values[1..]);
      FirstValueAt(keys[1..], values[1..], i - 1);
    }
  }

  predicate Fitting(path: string, values: seq<string>)
    requires Compile(path).Some?
  {
    |values| == |Keys(path)| && Captures(values)
  }

  /** A path is matched exactly when it is an instance of the pattern; then the values found are ahead of all others. */
  lemma Applied(path: string, s: string) returns (caps: seq<string>)
    requires PlainPattern(path)
    ensures (exists values :: Fitting(path, values) && s == Instantiate(path, values)) ==> Search(Pieces(path), s).Some?
    ensures Search(Pieces(path), s).Some? ==>
              && Search(Pieces(path), s).value == caps
              && Fitting(path, caps) && Instantiate(path, caps) == s
              && forall v :: Fitting(path, v) && Instantiate(path, v) == s ==> caps == v || Ahead(caps, v)
  {
    var ps := Pieces(path);
    forall values | Fitting(path, values) && s == Instantiate(path, values)
      ensures Search(ps, s).Some? && (Search(ps, s).value == values || Ahead(Search(ps, s).value, values))
    {
      MatchIsInstance(path, s, values);
      SearchFirst(ps, s, values);
    }
    caps := [];
    if Search(ps, s).Some? {
      caps := Search(ps, s).value;
      SearchSound(ps, s);
      MatchIsInstance(path, s, caps);
    }
  }

  /** A path is accepted exactly when it is an instance of the pattern. */
  lemma AcceptedInstances(path: string, target: string, m: Params)
    requires PlainPattern(path)
    ensures BuildRule(path).Built?
    ensures ApplyRule(target, CompiledRule(path), m).ok <==>
            exists values :: Fitting(path, values) && CString(target) == Instantiate(path, values)
  {
    RulePieces(path);
    var caps := Applied(path, CString(target));
  }

  /**
   Soundness: an accepted path is the pattern with every key replaced by the value bound to it, and exactly
   the keys are bound, to solid non-empty values.
   */
  lemma RouteSound(path: string, target: string)
    requires PlainPattern(path) && Distinct(Keys(path))
    ensures BuildRule(path).Built?
    ensures var r := ApplyRule(target, CompiledRule(path), map[]);
            r.ok ==>
              && (forall k :: k in r.params <==> k in Keys(path))
              && Captures(Values(Keys(path), r.params))
              && Instantiate(path, Values(Keys(path), r.params)) == CString(target)
  {
    RulePieces(path);
    var caps := Applied(path, CString(target));
    if ApplyRule(target, CompiledRule(path), map[]).ok {
      BoundAll(Keys(path), caps);
    }
  }

  // ----- completeness

  /** The pattern filled with these values is accepted, and each key is bound to exactly its value. */
  ghost predicate ComesBack(path: string, values: seq<string>)
    requires BuildRule(path).Built? && |values| == |Keys(path)|
  {
    var r := ApplyRule(Instantiate(path, values), CompiledRule(path), map[]);
    r.ok && (forall k :: k in r.params <==> k in Keys(path)) && Values(Keys(path), r.params) == values
  }

  /** Values come back exactly when the path has no NUL and no others make the same path and are ahead of them. */
  lemma ComesBackExactly(path: string, values: seq<string>)
    requires PlainPattern(path) && Distinct(Keys(path)) && Fitting(path, values)
    ensures BuildRule(path).Built?
    ensures ComesBack(path, values) <==>
            && NulFree(Instantiate(path, values))
            && !exists w :: Fitting(path, w) && Instantiate(path, w) == Instantiate(path, values) && Ahead(w, values)
  {
    var s := Instantiate(path, values);
    var t := CString(s);
    RulePieces(path);
    var caps := Applied(path, t);
    if Search(Pieces(path), t).Some? {
      BoundAll(Keys(path), caps);
      assert ComesBack(path, values) <==> caps == values;
    }
    if NulFree(s) {
      CStringWhole(s);
      AheadOneWay(caps, values);
      forall w | Fitting(path, w) && Instantiate(path, w) == s && Ahead(w, values) ensures caps != values {
        AheadOneWay(caps, w);
      }
    }
  }

  // ----- what a pattern can promise for all values

  /** No character that values are not made of: one that is barred, or whitespace. */
  predicate Clear(s: string, bars: set<char>) {
    forall c :: c in s ==> c !in bars && !Space(c)
  }

  predicate AllClear(values: seq<string>, bars: set<char>) {
    forall v :: v in values ==> Clear(v, bars)
  }

  /** How many barred characters and whitespace there are. */
  function Barred(s: string, bars: set<char>): nat {
    if s == "" then 0 else (if s[0] in bars || Space(s[0]) then 1 else 0) + Barred(s[1..], bars)
  }

  function BarredSum(values: seq<string>, bars: set<char>): nat {
    if values == [] then 0 else Barred(values[0], bars) + BarredSum(values[1..], bars)
  }

  lemma {:induction false} BarredConcat(a: string, b: string, bars: set<char>)
    ensures Barred(a + b, bars) == Barred(a, bars) + Barred(b, bars)
    decreases |a|
  {
    if a == "" {
      assert a + b == b;
    } else {
      assert (a + b)[1..] == a[1..] + b;
      BarredConcat(a[1..], b, bars);
    }
  }

  lemma {:induction false} BarredNone(s: string, bars: set<char>)
    ensures Barred(s, bars) == 0 <==> Clear(s, bars)
    decreases |s|
  {
    if s == "" {
    } else {
      BarredNone(s[1..], bars);
      assert s == [s[0]] + s[1..];
    }
  }

  lemma {:induction false} BarredNoneAll(values: seq<string>, bars: set<char>)
    ensures BarredSum(values, bars) == 0 <==> AllClear(values, bars)
    decreases |values|
  {
    if values == [] {
    } else {
      BarredNone(values[0], bars);
      BarredNoneAll(values[1..], bars);
      assert values == [values[0]] + values[1..];
      assert AllClear(values, bars) <==> Clear(values[0], bars) && AllClear(values[1..], bars);
    }
  }

  /** Every barred character of an instance is a literal's or a value's. */
  lemma {:induction false} InstanceBarred(path: string, values: seq<string>, bars: set<char>)
    requires Compile(path).Some? && |values| == |Keys(path)|
    ensures Barred(Instantiate(path, values), bars) == Barred(LiteralText(path), bars) + BarredSum(values, bars)
    decreases |path|
  {
    var i := IndexOf(path, ':');
    if i == |path| {
    } else {
      var lit, rest := path[..i], path[KeyEnd(path, i)..];
      InstanceBarred(rest, values[1..], bars);
      BarredConcat(values[0], Instantiate(rest, values[1..]), bars);
      BarredConcat(lit, values[0] + Instantiate(rest, values[1..]), bars);
      BarredConcat(lit, LiteralText(rest), bars);
    }
  }

  /** What makes the same path as clear values is clear. */
  lemma ClearToo(path: string, a: seq<string>, b: seq<string>, bars: set<char>)
    requires Compile(path).Some? && |a| == |b| == |Keys(path)| && AllClear(a, bars)
    requires Instantiate(path, a) == Instantiate(path, b)
    ensures AllClear(b, bars)
  {
    InstanceBarred(path, a, bars);
    InstanceBarred(path, b, bars);
    BarredNoneAll(a, bars);
    BarredNoneAll(b, bars);
  }

  /** Between two keys there is a literal with a character that values are not made of. */
  predicate Parted(path: string, bars: set<char>)
    requires Compile(path).Some?
    decreases |path|
  {
    var i := IndexOf(path, ':');
    i == |path| || (PartedBehind(path[KeyEnd(path, i)..], bars) && Parted(path[KeyEnd(path, i)..], bars))
  }

  predicate PartedBehind(rest: string, bars: set<char>) {
    IndexOf(rest, ':') == |rest| || !Clear(rest[..IndexOf(rest, ':')], bars)
  }

  /** Two clear texts in front of the same literal, which is not clear, are as long as each other. */
  lemma SplitAtBar(a: string, b: string, lit: string, s: string, t: string, bars: set<char>)
    requires a + (lit + s) == b + (lit + t) && Clear(a, bars) && Clear(b, bars) && !Clear(lit, bars)
    ensures a == b && s == t
  {
    var all := a + (lit + s);
    BarBehind(a, lit, s, bars);
    BarBehind(b, lit, t, bars);
    assert a == all[..|a|] && b == all[..|b|];
    assert s == all[|a| + |lit|..] && t == all[|b| + |lit|..];
  }

  lemma BarBehind(a: string, lit: string, s: string, bars: set<char>)
    requires Clear(a, bars) && !Clear(lit, bars)
    ensures var all := a + (lit + s);
            !Clear(all, bars) && FirstBar(all, bars) == |a| + FirstBar(lit, bars)
  {
    var all, k := a + (lit + s), FirstBar(lit, bars);
    assert all[|a| + k] == lit[k] && all[|a| + k] in all;
    forall j | 0 <= j < |a| + k ensures all[j] !in bars && !Space(all[j]) {
      if j < |a| {
        assert all[j] == a[j] && a[j] in a;
      } else {
        assert all[j] == lit[j - |a|];
      }
    }
  }

  function FirstBar(lit: string, bars: set<char>): (k: nat)
    requires !Clear(lit, bars)
    ensures k < |lit| && (lit[k] in bars || Space(lit[k]))
    ensures forall j :: 0 <= j < k ==> lit[j] !in bars && !Space(lit[j])
  {
    if lit[0] in bars || Space(lit[0]) then 0
    else
      assert lit == [lit[0]] + lit[1..];
      1 + FirstBar(lit[1..], bars)
  }

  /** Values made of other characters can be read off an instance of a parted pattern. */
  lemma {:induction false} InstanceUnique(path: string, bars: set<char>, a: seq<string>, b: seq<string>)
    requires Compile(path).Some? && Parted(path, bars)
    requires |a| == |b| == |Keys(path)| && AllClear(a, bars) && AllClear(b, bars)
    requires Instantiate(path, a) == Instantiate(path, b)
    ensures a == b
    decreases |path|
  {
    var i := IndexOf(path, ':');
    if i == |path| {
    } else {
      var rest := path[KeyEnd(path, i)..];
      var j := IndexOf(rest, ':');
      assert a[0] in a && b[0] in b;
      var s, t := Instantiate(rest, a[1..]), Instantiate(rest, b[1..]);
      assert Instantiate(path, a)[i..] == a[0] + s && Instantiate(path, b)[i..] == b[0] + t;
      if j == |rest| {
        assert a[0] == (a[0] + s)[..|a[0]|] && b[0] == (b[0] + t)[..|b[0]|];
      } else {
        SplitAtBar(a[0], b[0], rest[..j], s[j..], t[j..], bars);
        assert s == rest[..j] + s[j..] && t == rest[..j] + t[j..];
      }
      InstanceUnique(rest, bars, a[1..], b[1..]);
      assert a == [a[0]] + a[1..] && b == [b[0]] + b[1..];
    }
  }

  function Copies(x: char, n: nat): (v: seq<string>)
    ensures |v| == n && forall i :: 0 <= i < n ==> v[i] == [x]
  {
    seq(n, _ => [x])
  }

  /** A pattern that is not parted confuses two lists of values; the search prefers the second. */
  lemma {:induction false} Confused(path: string, bars: set<char>, x: char) returns (v: seq<string>, w: seq<string>)
    requires Compile(path).Some? && !Parted(path, bars) && Clear([x], bars)
    ensures Fitting(path, v) && Fitting(path, w) && AllClear(v, bars)
    ensures Instantiate(path, v) == Instantiate(path, w) && Ahead(w, v)
    decreases |path|
  {
    var i := IndexOf(path, ':');
    var rest := path[KeyEnd(path, i)..];
    if PartedBehind(rest, bars) {
      var a, b := Confused(rest, bars, x);
      v, w := [[x]] + a, [[x]] + b;
      assert v[1..] == a && w[1..] == b;
    } else {
      v, w := ConfusedHere(rest, bars, x);
    }
  }

  /** The key in front of `rest` and the first one in it have no literal between them that keeps them apart. */
  lemma ConfusedHere(rest: string, bars: set<char>, x: char) returns (v: seq<string>, w: seq<string>)
    requires Compile(rest).Some? && !PartedBehind(rest, bars) && Clear([x], bars)
    ensures |v| == |w| == 1 + |Keys(rest)| && Captures(v) && Captures(w) && AllClear(v, bars) && Ahead(w, v)
    ensures v[0] + Instantiate(rest, v[1..]) == w[0] + Instantiate(rest, w[1..])
  {
    var j := IndexOf(rest, ':');
    var lit, last := rest[..j], rest[KeyEnd(rest, j)..];
    var tail := Copies(x, |Keys(last)|);
    var long := [x] + (lit + [x]);
    v, w := [[x], long] + tail, [long, [x]] + tail;
    assert v[1..] == [long] + tail && v[1..][1..] == tail && w[1..] == [[x]] + tail && w[1..][1..] == tail;
    ConfusedTail(lit, [x], Instantiate(last, tail));
  }

  lemma ConfusedTail(lit: string, x: string, t: string)
    ensures x + (lit + ((x + (lit + x)) + t)) == (x + (lit + x)) + (lit + (x + t))
  {
  }

  lemma NulFreeJoin(a: string, b: string)
    ensures NulFree(a + b) <==> NulFree(a) && NulFree(b)
  {
    assert forall k :: 0 <= k < |a| ==> (a + b)[k] == a[k];
    assert forall k :: 0 <= k < |b| ==> (a + b)[|a| + k] == b[k];
  }

  lemma {:induction false} InstanceNulFree(path: string, values: seq<string>)
    requires Compile(path).Some? && |values| == |Keys(path)|
    ensures NulFree(Instantiate(path, values)) <==> NulFree(LiteralText(path)) && forall v :: v in values ==> NulFree(v)
    decreases |path|
  {
    var i := IndexOf(path, ':');
    if i == |path| {
    } else {
      var lit, rest := path[..i], path[KeyEnd(path, i)..];
      var tail := Instantiate(rest, values[1..]);
      InstanceNulFree(rest, values[1..]);
      NulFreeJoin(values[0], tail);
      NulFreeJoin(lit, values[0] + tail);
      NulFreeJoin(lit, LiteralText(rest));
      assert values == [values[0]] + values[1..];
    }
  }

  ghost predicate AllComeBack(path: string, bars: set<char>)
    requires BuildRule(path).Built?
  {
    forall v :: Fitting(path, v) && AllClear(v, bars) ==> ComesBack(path, v)
  }

  /**
   What a pattern can promise: all values without the barred characters come back if and only if between any
   two keys there is a barred character or whitespace. `x` is any character a value may be made of.
   */
  lemma PatternPromise(path: string, bars: set<char>, x: char)
    requires PlainPattern(path) && Distinct(Keys(path)) && '\0' in bars && Clear([x], bars)
    ensures BuildRule(path).Built?
    ensures AllComeBack(path, bars) <==> Parted(path, bars) && NulFree(LiteralText(path))
  {
    RulePieces(path);
    if Parted(path, bars) && NulFree(LiteralText(path)) {
      forall v | Fitting(path, v) && AllClear(v, bars) ensures ComesBack(path, v) {
        PartedComesBack(path, bars, v);
      }
    } else if !Parted(path, bars) {
      var v, w := Confused(path, bars, x);
      ComesBackExactly(path, v);
    } else {
      var v := Copies(x, |Keys(path)|);
      InstanceNulFree(path, v);
      ComesBackExactly(path, v);
      assert Fitting(path, v) && AllClear(v, bars);
    }
  }

  lemma PartedComesBack(path: string, bars: set<char>, v: seq<string>)
    requires PlainPattern(path) && Distinct(Keys(path)) && '\0' in bars
    requires Parted(path, bars) && NulFree(LiteralText(path)) && Fitting(path, v) && AllClear(v, bars)
    ensures BuildRule(path).Built? && ComesBack(path, v)
  {
    ComesBackExactly(path, v);
    InstanceNulFree(path, v);
    forall w | Fitting(path, w) && Instantiate(path, w) == Instantiate(path, v) ensures !Ahead(w, v) {
      ClearToo(path, v, w, bars);
      InstanceUnique(path, bars, v, w);
      AheadOneWay(v, v);
    }
  }

  // ----- values without slashes

  /** Between two keys there is a slash. */
  predicate OneKeyPerSegment(path: string) {
    forall i, j :: 0 <= i < j < |path| && path[i] == ':' && path[j] == ':' ==> exists k :: i < k < j && path[k] == '/'
  }

  lemma KeyThenSlash(path: string)
    requires OneKeyPerSegment(path) && IndexOf(path, ':') < |path|
    ensures var rest := path[KeyEnd(path, IndexOf(path, ':'))..];
            (rest != "" ==> rest[0] == '/') && OneKeyPerSegment(rest)
  {
    var i := IndexOf(path, ':');
    var e := KeyEnd(path, i);
    var rest := path[e..];
    NoneBeforeIndex(path, '/', i);
    NoneBeforeIndex(path, ':', i + 1);
    assert e < |path| ==> path[e] == '/';
    forall a, b | 0 <= a < b < |rest| && rest[a] == ':' && rest[b] == ':'
      ensures exists k :: a < k < b && rest[k] == '/'
    {
      assert path[e + a] == ':' && path[e + b] == ':';
      var k :| e + a < k < e + b && path[k] == '/';
      assert rest[k - e] == '/';
    }
  }

  lemma SlashThenKey(path: string, bars: set<char>)
    requires IndexOf(path, ':') < |path|
    requires var rest := path[KeyEnd(path, IndexOf(path, ':'))..]; PartedBehind(rest, bars) && OneKeyPerSegment(rest)
    ensures OneKeyPerSegment(path)
  {
    var i := IndexOf(path, ':');
    var e := KeyEnd(path, i);
    var rest := path[e..];
    NoneBeforeIndex(path, ':', 0);
    NoneBeforeIndex(path, ':', i + 1);
    assert e < |path| ==> rest[0] == path[e];
    forall a, b | 0 <= a < b < |path| && path[a] == ':' && path[b] == ':'
      ensures exists k :: a < k < b && path[k] == '/'
    {
      assert b >= e && rest[b - e] == ':';
      if a >= e {
        assert rest[a - e] == ':';
        var k :| a - e < k < b - e && rest[k] == '/';
        assert path[e + k] == '/';
      } else {
        NoneBeforeIndex(rest, ':', 0);
        assert path[e] == '/';
      }
    }
  }

  /** When slashes are barred, parted means one key per segment. */
  lemma {:induction false} SegmentsPart(path: string, bars: set<char>)
    requires Compile(path).Some? && '/' in bars
    ensures Parted(path, bars) <==> OneKeyPerSegment(path)
    decreases |path|
  {
    var i := IndexOf(path, ':');
    NoneBeforeIndex(path, ':', 0);
    if i == |path| {
    } else {
      var rest := path[KeyEnd(path, i)..];
      SegmentsPart(rest, bars);
      if OneKeyPerSegment(path) {
        KeyThenSlash(path);
        var j := IndexOf(rest, ':');
        assert j < |rest| ==> rest[..j][0] == '/' && rest[..j][0] in rest[..j];
      } else if Parted(path, bars) {
        SlashThenKey(path, bars);
      }
    }
  }

  const SLASH_BARRED: set<char> := {'/', '\0'}

  /** All slash-free values come back exactly when no segment has two keys. */
  lemma SlashFreePromise(path: string)
    requires PlainPattern(path) && Distinct(Keys(path))
    ensures BuildRule(path).Built?
    ensures AllComeBack(path, SLASH_BARRED) <==> OneKeyPerSegment(path) && NulFree(LiteralText(path))
  {
    PatternPromise(path, SLASH_BARRED, 'x');
    SegmentsPart(path, SLASH_BARRED);
  }

  predicate SlashFree(values: seq<string>) {
    forall v :: v in values ==> '/' !in v
  }

  /**
   Completeness: with distinct keys, one to a segment, and solid, non-empty, slash-free values, the
   instantiated pattern is accepted and each key is bound to exactly its value.
   */
  lemma RouteComplete(path: string, values: seq<string>)
    requires PlainPattern(path) && Distinct(Keys(path)) && OneKeyPerSegment(path)
    requires Fitting(path, values) && SlashFree(values) && NulFree(Instantiate(path, values))
    ensures BuildRule(path).Built? && ComesBack(path, values)
  {
    InstanceNulFree(path, values);
    SlashFreePromise(path);
    forall v | v in values ensures Clear(v, SLASH_BARRED) {
      forall c | c in v ensures c != '\0' {
        var k :| 0 <= k < |v| && v[k] == c;
      }
    }
  }

  // ----- two keys the search decides about

  predicate KeyName(key: string) { key != "" && ':' !in key && '/' !in key }

  lemma KeySpan(lit: string, key: string, rest: string, p: string)
    requires p == lit + (":" + (key + rest)) && ':' !in lit && KeyName(key)
    requires rest != "" ==> rest[0] == ':' || rest[0] == '/'
    ensures var i, e := |lit|, |lit| + 1 + |key|;
            && IndexOf(p, ':') == i < e <= |p| && KeyEnd(p, i) == e
            && p[..i] == lit && p[i + 1..e] == key && p[e..] == rest
  {
    var i, e := |lit|, |lit| + 1 + |key|;
    KeySlices(lit, key, rest, p);
    assert forall k :: 0 <= k < i ==> p[k] == lit[k] && lit[k] in lit;
    IndexIs(p, ':', 0, i);
    forall k | i < k < e ensures p[k] != ':' && p[k] != '/' {
      assert p[k] == key[k - i - 1] && key[k - i - 1] in key;
    }
    EndsAt(p, i, e);
  }

  lemma KeySlices(lit: string, key: string, rest: string, p: string)
    requires p == lit + (":" + (key + rest))
    ensures var i, e := |lit|, |lit| + 1 + |key|;
            && i < e <= |p| && p[i] == ':' && p[..i] == lit && p[i + 1..e] == key && p[e..] == rest
            && (e < |p| ==> p[e] == rest[0])
  {
  }

  lemma EndsAt(p: string, i: nat, e: nat)
    requires i < e <= |p| && p[i] == ':' && (e < |p| ==> p[e] == ':' || p[e] == '/')
    requires forall k :: i < k < e ==> p[k] != ':' && p[k] != '/'
    ensures KeyEnd(p, i) == e
  {
    assert IndexFrom(p, '/', i) >= e && IndexFrom(p, ':', i + 1) >= e;
    if e < |p| {
      if p[e] == '/' { IndexIs(p, '/', i, e); } else { IndexIs(p, ':', i + 1, e); }
    }
  }

  lemma CompiledInFront(p: string, i: nat, e: nat, lit: string, key: string, rest: string)
    requires IndexOf(p, ':') == i < |p| && KeyEnd(p, i) == e && key != ""
    requires p[..i] == lit && p[i + 1..e] == key && p[e..] == rest
    ensures Compile(p) == Behind(lit + GROUP, [key], Compile(rest))
  {
    CompileTurn(p);
  }

  lemma BehindKeys(text: string, key: string, o: Option<Compiled>, c: Option<Compiled>)
    requires o.Some? && c == Behind(text, [key], o)
    ensures c.Some? && c.value.keys == [key] + o.value.keys
  {
  }

  lemma TextInFront(p: string, i: nat, e: nat)
    requires IndexOf(p, ':') == i < |p| && KeyEnd(p, i) == e && Compile(p).Some?
    ensures Compile(p[e..]).Some? && LiteralText(p) == p[..i] + LiteralText(p[e..])
  {
  }

  lemma PiecesInFront(p: string, i: nat, e: nat)
    requires IndexOf(p, ':') == i < |p| && KeyEnd(p, i) == e && Compile(p).Some?
    ensures Compile(p[e..]).Some? && Pieces(p) == Literals(p[..i]) + ([Group] + Pieces(p[e..]))
  {
  }

  /** A pattern with one more key in front. */
  lemma KeyInFront(p: string, lit: string, key: string, rest: string)
    requires p == lit + (":" + (key + rest)) && Compile(rest).Some? && ':' !in lit && KeyName(key)
    requires rest != "" ==> rest[0] == ':' || rest[0] == '/'
    ensures Compile(p).Some? && Keys(p) == [key] + Keys(rest) && LiteralText(p) == lit + LiteralText(rest)
    ensures Pieces(p) == Literals(lit) + ([Group] + Pieces(rest))
  {
    var i, e := |lit|, |lit| + 1 + |key|;
    KeySpan(lit, key, rest, p);
    CompiledInFront(p, i, e, lit, key, rest);
    BehindKeys(lit + GROUP, key, Compile(rest), Compile(p));
    TextInFront(p, i, e);
    PiecesInFront(p, i, e);
  }

  lemma GroupTakes(ps: seq<Piece>, s: string, k: nat, caps: seq<string>)
    requires ps != [] && ps[0] == Group && 0 < k <= |s| && Solid(s[..k])
    ensures Search(ps[1..], s[k..]) == Some(caps) ==> SearchGroup(ps, s, k) == Some([s[..k]] + caps)
    ensures Search(ps[1..], s[k..]) == None ==> SearchGroup(ps, s, k) == SearchGroup(ps, s, k - 1)
  {
  }

  /** One group, and nothing else, takes all of a solid text. */
  lemma LastTakesAll(s: string)
    requires s != "" && Solid(s)
    ensures Search([Group], s) == Some([s])
  {
    assert s[..|s|] == s && s[|s|..] == "" && [Group][1..] == [];
    assert Search([], "") == Some([]);
    GroupTakes([Group], s, |s|, []);
    NoneAround([s]);
  }

  /** The first of two groups takes all but one character. */
  lemma FirstTakesMost(s: string)
    requires |s| >= 2 && Solid(s)
    ensures Search([Group, Group], s) == Some([s[..|s| - 1], s[|s| - 1..]])
  {
    var ps, n := [Group, Group], |s|;
    var last := s[n - 1..];
    assert ps[1..] == [Group] && s[n..] == "" && Solid(s[..n]) && Solid(s[..n - 1]) && Solid(last);
    assert Search([Group], "") == None;
    GroupTakes(ps, s, n, []);
    LastTakesAll(last);
    GroupTakes(ps, s, n - 1, [last]);
    assert [s[..n - 1]] + [last] == [s[..n - 1], last];
  }

  /** With a slash between them, the first group takes everything up to the last slash. */
  lemma {:induction false} SlashSearch(v: string, w: string, s: string, k: nat)
    requires s == v + ("/" + w) && v != "" && w != "" && '/' !in w && Solid(s) && |v| <= k <= |s|
    ensures SearchGroup([Group, Lit('/'), Group], s, k) == Some([v, w])
    decreases k
  {
    var ps := [Group, Lit('/'), Group];
    assert ps[1..] == [Lit('/'), Group] && ps[1..][1..] == [Group];
    assert Solid(s[..k]);
    GroupTakes(ps, s, k, [w]);
    if k == |v| {
      assert s[..k] == v && s[k..] == "/" + w && s[k..][1..] == w && Solid(s[k + 1..]) && s[k + 1..] == w;
      LastTakesAll(w);
      assert [v] + [w] == [v, w];
    } else {
      assert k < |s| ==> s[k..][0] == w[k - |v| - 1] && w[k - |v| - 1] in w;
      assert Search(ps[1..], s[k..]) == None;
      SlashSearch(v, w, s, k - 1);
    }
  }

  lemma BindTwo(key0: string, key1: string, value0: string, value1: string)
    requires key0 != key1
    ensures EmplaceAll(map[], Pairs([key0, key1], [value0, value1])) == map[key0 := value0, key1 := value1]
  {
    var pairs := Pairs([key0, key1], [value0, value1]);
    var last := [Pair(key1, value1)];
    var m: Params := map[key0 := value0];
    assert pairs[1..] == last && last[1..] == [];
    assert EmplaceAll(m, last) == EmplaceAll(Emplace(m, key1, value1), []) == m[key1 := value1];
    assert Emplace(map[], key0, value0) == m;
  }

  lemma ApplyTwo(p: string, a: string, b: string, s: string, v: string, w: string)
    requires PlainPattern(p) && Keys(p) == [a, b] && a != b && NulFree(s) && Search(Pieces(p), s) == Some([v, w])
    ensures BuildRule(p).Built?
    ensures ApplyRule(s, CompiledRule(p), map[]) == Result(true, map[a := v, b := w])
  {
    RulePieces(p);
    CStringWhole(s);
    BindTwo(a, b, v, w);
  }

  lemma KeyAlone(q: string, lit: string, key: string)
    requires q == lit + (":" + key) && KeyName(key) && ':' !in lit
    ensures Compile(q).Some? && Keys(q) == [key] && LiteralText(q) == lit && Pieces(q) == Literals(lit) + [Group]
  {
    NoneAround(key);
    KeyInFront(q, lit, key, "");
    NoneAround(lit);
    NoneAround([key]);
    assert [Group] + Pieces("") == [Group];
  }

  lemma KeyFirst(p: string, key: string, rest: string)
    requires p == ":" + (key + rest) && Compile(rest).Some? && KeyName(key)
    requires rest != "" ==> rest[0] == ':' || rest[0] == '/'
    ensures Compile(p).Some? && Keys(p) == [key] + Keys(rest) && LiteralText(p) == LiteralText(rest)
    ensures Pieces(p) == [Group] + Pieces(rest)
  {
    NoneAround(p);
    KeyInFront(p, "", key, rest);
    NoneAround(LiteralText(rest));
    NoneAround([Group] + Pieces(rest));
    assert Literals("") == [];
  }

  lemma TwoAdjacent(a: string, b: string, q: string, p: string)
    requires KeyName(a) && KeyName(b) && q == ":" + b && p == ":" + (a + q)
    ensures PlainPattern(p) && Keys(p) == [a, b] && Pieces(p) == [Group, Group]
  {
    NoneAround(q);
    KeyAlone(q, "", b);
    KeyFirst(p, a, q);
  }

  lemma TwoSlashed(a: string, b: string, q: string, p: string)
    requires KeyName(a) && KeyName(b) && q == "/" + (":" + b) && p == ":" + (a + q)
    ensures PlainPattern(p) && Keys(p) == [a, b] && Pieces(p) == [Group, Lit('/'), Group]
  {
    KeyAlone(q, "/", b);
    KeyFirst(p, a, q);
    assert Literals("/") == [Lit('/')];
  }

  /** Two keys in one segment: whatever the path was made of, the first gets all but its last character. */
  lemma TwoInOneSegment(a: string, b: string, q: string, p: string, s: string)
    requires KeyName(a) && KeyName(b) && a != b && q == ":" + b && p == ":" + (a + q)
    requires |s| >= 2 && Solid(s) && NulFree(s)
    ensures PlainPattern(p) && BuildRule(p).Built?
    ensures ApplyRule(s, CompiledRule(p), map[]) == Result(true, map[a := s[..|s| - 1], b := s[|s| - 1..]])
  {
    TwoAdjacent(a, b, q, p);
    FirstTakesMost(s);
    ApplyTwo(p, a, b, s, s[..|s| - 1], s[|s| - 1..]);
  }

  /** A slash in a value: whatever the path was made of, the first key gets everything up to the last slash. */
  lemma SlashInValue(a: string, b: string, q: string, p: string, v: string, w: string, s: string)
    requires KeyName(a) && KeyName(b) && a != b && q == "/" + (":" + b) && p == ":" + (a + q)
    requires s == v + ("/" + w) && v != "" && w != "" && '/' !in w && Solid(s) && NulFree(s)
    ensures PlainPattern(p) && BuildRule(p).Built?
    ensures ApplyRule(s, CompiledRule(p), map[]) == Result(true, map[a := v, b := w])
  {
    TwoSlashed(a, b, q, p);
    SlashSearch(v, w, s, |s|);
    ApplyTwo(p, a, b, s, v, w);
  }
}
