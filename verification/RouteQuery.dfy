/** The query splitter: '&'-separated fields into a map, first value wins. */
module RouteQuery {
  import opened Substring

  type Params = map<string, string>

  function Emplace(m: Params, key: string, value: string): Params {
    if key in m then m else m[key := value]
  }

  datatype Result = Result(ok: bool, params: Params)

  /** What is left behind the first field and its '&'. */
  function AfterField(q: string): string {
    if IndexOf(q, '&') < |q| then q[IndexOf(q, '&') + 1..] else ""
  }

  function ParseQuery(q: string, m: Params): Result
    decreases |q|
  {
    if q == "" then Result(true, m)
    else
      var field := q[..IndexOf(q, '&')];
      var j := IndexOf(field, '=');
      if j + 1 >= |field| then Result(false, m)
      else ParseQuery(AfterField(q), Emplace(m, field[..j], field[j + 1..]))
  }

  /** How many of the next `count` characters come before the first `c`. */
  method Scan(query: string, s: nat, count: nat, c: char) returns (n: nat)
    requires s + count <= |query|
    ensures n == IndexOf(query[s..s + count], c)
  {
    n := 0;
    ghost var text := query[s..s + count];
    while n < count && query[s + n] != c
      invariant n <= count
      invariant forall k :: 0 <= k < n ==> text[k] != c
    {
      n := n + 1;
    }
    IndexIs(text, c, 0, n);
  }

  lemma Slices(t: string, s: nat, j: nat, len: nat)
    requires j <= len && s + len <= |t|
    ensures t[s..|t|] == t[s..] && t[s..s + len] == t[s..][..len] && t[s..s + j] == t[s..][..len][..j]
    ensures j < len ==> t[s + j + 1..s + len] == t[s..][..len][j + 1..]
    ensures s + len < |t| ==> t[s..][len + 1..] == t[s + len + 1..]
  {
  }

  function Unread(query: string, s: nat): string {
    if s < |query| then query[s..] else ""
  }

  lemma ParseStep(t: string, m: Params, len: nat, j: nat)
    requires t != "" && len == IndexOf(t, '&') && j == IndexOf(t[..len], '=')
    ensures ParseQuery(t, m) ==
            if j + 1 >= len then Result(false, m)
            else ParseQuery(AfterField(t), Emplace(m, t[..len][..j], t[..len][j + 1..]))
  {
  }

  lemma FieldTurn(query: string, s: nat, m: Params, len: nat, j: nat)
    requires s < |query| && len == IndexOf(query[s..|query|], '&') && j == IndexOf(query[s..s + len], '=')
    ensures ParseQuery(Unread(query, s), m) ==
            if j + 1 >= len then Result(false, m)
            else ParseQuery(Unread(query, s + len + 1), Emplace(m, query[s..s + j], query[s + j + 1..s + len]))
  {
    var t := query[s..];
    Slices(query, s, j, len);
    ParseStep(t, m, len, j);
    assert AfterField(t) == Unread(query, s + len + 1);
  }

  /** One field: its length, and the map with its value put in unless the key is taken. */
  method ReadField(query: string, s: nat, left: nat, params: Params) returns (ok: bool, len: nat, out: Params)
    requires left > 0 && s + left == |query|
    ensures len <= left
    ensures ParseQuery(Unread(query, s), params) ==
            if ok then ParseQuery(Unread(query, s + len + 1), out) else Result(false, out)
  {
    out := params;
    len := Scan(query, s, left, '&');
    var j := Scan(query, s, len, '=');
    FieldTurn(query, s, out, len, j);
    if j + 1 >= len {
      return false, len, out;
    }
    var key, value := query[s..s + j], query[s + j + 1..s + len];
    out := Emplace(out, key, value);
    return true, len, out;
  }

  /** The scanner: `s` is where the unread text begins, `left` how much of it there is, -1 behind the last field. */
  method HttpRouterQueryParse(query: string, params: Params) returns (ok: bool, out: Params)
    ensures Result(ok, out) == ParseQuery(query, params)
  {
    out := params;
    var s, left: int := 0, |query|;
    assert Unread(query, 0) == query;
    while left > 0
      invariant 0 <= s <= |query| + 1 && left == |query| - s
      invariant ParseQuery(Unread(query, s), out) == ParseQuery(query, params)
      decreases left
    {
      var len;
      ok, len, out := ReadField(query, s, left, out);
      if !ok {
        return false, out;
      }
      s := s + len + 1;
      left := left - (len + 1);
    }
    return true, out;
  }

  // ----- which texts are accepted

  function Fields(q: string): (f: seq<string>)
    ensures f != []
    decreases |q|
  {
    var n := IndexOf(q, '&');
    if n == |q| then [q] else [q[..n]] + Fields(q[n + 1..])
  }

  function DropEmptyLast(f: seq<string>): seq<string>
    requires f != []
  {
    if f[|f| - 1] == "" then f[..|f| - 1] else f
  }

  /** The fields that are looked at: one empty field at the end is not. */
  function ReadFields(q: string): seq<string> {
    DropEmptyLast(Fields(q))
  }

  /** A '=' with something behind it. */
  predicate Assigns(field: string) {
    exists p :: 0 <= p && p + 1 < |field| && field[p] == '='
  }

  lemma AssignsFirst(field: string)
    ensures Assigns(field) <==> IndexOf(field, '=') + 1 < |field|
  {
    NoneBeforeIndex(field, '=', 0);
  }

  lemma FieldsNext(q: string)
    requires q != ""
    ensures ReadFields(q) == [q[..IndexOf(q, '&')]] + ReadFields(AfterField(q))
  {
    var n := IndexOf(q, '&');
    if n == |q| {
      assert Fields("") == [""] && DropEmptyLast([""]) == [];
      assert Fields(q) == [q] && q[..n] == q && [q] + [] == [q];
    } else {
      DropCons(q[..n], Fields(q[n + 1..]));
    }
  }

  lemma DropCons(x: string, g: seq<string>)
    requires g != []
    ensures DropEmptyLast([x] + g) == [x] + DropEmptyLast(g)
  {
    var f := [x] + g;
    assert f[|f| - 1] == g[|g| - 1] && f[..|f| - 1] == [x] + g[..|g| - 1];
  }

  /** Accepted are exactly the texts all of whose fields, bar one empty last field, assign something. */
  lemma {:induction false} AcceptedExactly(q: string, m: Params)
    ensures ParseQuery(q, m).ok <==> forall f :: f in ReadFields(q) ==> Assigns(f)
    decreases |q|
  {
    if q == "" {
      assert ReadFields(q) == [];
    } else {
      var field := q[..IndexOf(q, '&')];
      var j := IndexOf(field, '=');
      FieldsNext(q);
      AssignsFirst(field);
      assert field in ReadFields(q);
      if j + 1 < |field| {
        AcceptedExactly(AfterField(q), Emplace(m, field[..j], field[j + 1..]));
      }
    }
  }

  // ----- round trip

  datatype Pair = Pair(key: string, value: string)

  function QueryText(pairs: seq<Pair>): string {
    if pairs == [] then ""
    else
      var field := pairs[0].key + ("=" + pairs[0].value);
      if |pairs| == 1 then field else field + ("&" + QueryText(pairs[1..]))
  }

  function EmplaceAll(m: Params, pairs: seq<Pair>): Params
    decreases |pairs|
  {
    if pairs == [] then m else EmplaceAll(Emplace(m, pairs[0].key, pairs[0].value), pairs[1..])
  }

  predicate GoodPair(p: Pair) {
    '=' !in p.key && '&' !in p.key && p.value != "" && '&' !in p.value
  }

  lemma FieldRead(p: Pair, rest: string)
    requires GoodPair(p) && (rest != "" ==> rest[0] == '&')
    ensures var q := p.key + ("=" + p.value) + rest;
            var field := q[..IndexOf(q, '&')];
            && field == p.key + ("=" + p.value) && q[|field|..] == rest
            && IndexOf(field, '=') == |p.key| && field[..|p.key|] == p.key && field[|p.key| + 1..] == p.value
  {
    var field := p.key + ("=" + p.value);
    var q := field + rest;
    forall k | 0 <= k < |field| ensures q[k] != '&' {
      if k < |p.key| {
        assert q[k] == p.key[k] && p.key[k] in p.key;
      } else if k > |p.key| {
        assert q[k] == p.value[k - |p.key| - 1] && p.value[k - |p.key| - 1] in p.value;
      }
    }
    assert rest != "" ==> q[|field|] == rest[0];
    IndexIs(q, '&', 0, |field|);
    assert q[..|field|] == field;
    forall k | 0 <= k < |p.key| ensures field[k] != '=' {
      assert field[k] == p.key[k] && p.key[k] in p.key;
    }
    IndexIs(field, '=', 0, |p.key|);
  }

  lemma {:induction false} QueryStep(m: Params, pairs: seq<Pair>)
    requires forall p :: p in pairs ==> GoodPair(p)
    ensures ParseQuery(QueryText(pairs), m) == Result(true, EmplaceAll(m, pairs))
    decreases |pairs|
  {
    if pairs == [] {
    } else {
      var p := pairs[0];
      assert p in pairs;
      var rest := if |pairs| == 1 then "" else "&" + QueryText(pairs[1..]);
      FieldRead(p, rest);
      var q := p.key + ("=" + p.value) + rest;
      assert q == QueryText(pairs);
      assert AfterField(q) == QueryText(pairs[1..]) by {
        if |pairs| > 1 {
          assert q[IndexOf(q, '&') + 1..] == q[IndexOf(q, '&')..][1..];
        }
      }
      QueryStep(Emplace(m, p.key, p.value), pairs[1..]);
    }
  }

  predicate HasKey(pairs: seq<Pair>, key: string) {
    exists i :: 0 <= i < |pairs| && pairs[i].key == key
  }

  /** The value of the first pair with this key. */
  function FirstValue(pairs: seq<Pair>, key: string): string
    requires HasKey(pairs, key)
  {
    if pairs[0].key == key then pairs[0].value else
      assert forall i :: 1 <= i < |pairs| ==> pairs[i] == pairs[1..][i - 1];
      FirstValue(pairs[1..], key)
  }

  /** What is in the map stays; any other key gets the value of its first pair. */
  lemma {:induction false} FirstWins(m: Params, pairs: seq<Pair>, key: string)
    ensures var r := EmplaceAll(m, pairs);
            && (key in r <==> key in m || HasKey(pairs, key))
            && (key in r ==> r[key] == if key in m then m[key] else FirstValue(pairs, key))
    decreases |pairs|
  {
    if pairs == [] {
    } else {
      FirstWins(Emplace(m, pairs[0].key, pairs[0].value), pairs[1..], key);
      assert forall i :: 1 <= i < |pairs| ==> pairs[i] == pairs[1..][i - 1];
    }
  }

  /** Round trip: the '&'-joined text of a list of pairs parses to the map with the first value of each key. */
  lemma QueryRound(pairs: seq<Pair>)
    requires forall p :: p in pairs ==> GoodPair(p)
    ensures var r := ParseQuery(QueryText(pairs), map[]);
            && r.ok
            && (forall key :: key in r.params <==> HasKey(pairs, key))
            && (forall key :: key in r.params ==> r.params[key] == FirstValue(pairs, key))
  {
    QueryStep(map[], pairs);
    var r := EmplaceAll(map[], pairs);
    forall key ensures key in r <==> HasKey(pairs, key) {
      FirstWins(map[], pairs, key);
    }
    forall key | key in r ensures r[key] == FirstValue(pairs, key) {
      FirstWins(map[], pairs, key);
    }
  }

  // ----- what a refused text leaves

  /** A field is its key, the first '=', and its value. */
  function PairOf(field: string): Pair
    requires Assigns(field)
  {
    AssignsFirst(field);
    Pair(field[..IndexOf(field, '=')], field[IndexOf(field, '=') + 1..])
  }

  lemma PairText(field: string)
    requires Assigns(field)
    ensures var p := PairOf(field);
            field == p.key + ("=" + p.value) && '=' !in p.key && p.value != ""
  {
    AssignsFirst(field);
    NoneBeforeIndex(field, '=', 0);
    var j := IndexOf(field, '=');
    assert field == field[..j] + ([field[j]] + field[j + 1..]);
  }

  /** The fields up to the first that assigns nothing. */
  function GoodFront(fields: seq<string>): seq<Pair> {
    if fields == [] || !Assigns(fields[0]) then [] else [PairOf(fields[0])] + GoodFront(fields[1..])
  }

  /** Accepted or not, the map holds what the fields before the first bad one say. */
  lemma {:induction false} FrontStored(q: string, m: Params)
    ensures ParseQuery(q, m).params == EmplaceAll(m, GoodFront(ReadFields(q)))
    decreases |q|
  {
    if q == "" {
      assert ReadFields(q) == [];
    } else {
      var field := q[..IndexOf(q, '&')];
      FieldsNext(q);
      AssignsFirst(field);
      if Assigns(field) {
        var p := PairOf(field);
        FrontStored(AfterField(q), Emplace(m, p.key, p.value));
        assert GoodFront(ReadFields(q))[1..] == GoodFront(ReadFields(AfterField(q)));
      }
    }
  }
}
