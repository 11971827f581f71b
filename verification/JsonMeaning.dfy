/** What a tree says about a value: encoding and decoding described without either of them. */
module JsonMeaning {
  import opened Options
  import opened Json
  import opened JsonRoundTrip

  // ----- encoding

  /** The tree writes the value: the same number, the same items in order, the present members in order. */
  ghost predicate Writes(t: Type, v: Value, js: Json)
    decreases t, 0
  {
    match t
    case TBool => v.VBool? && js == JBool(v.b)
    case TReal => v.VReal? && js == JReal(v.r)
    case TInt(_, _) => v.VInt? && js == JInt(v.n)
    case TString => v.VString? && js == JString(v.s)
    case TSeq(e) =>
      && v.VSeq? && js.JArray? && |js.items| == |v.items|
      && forall i :: 0 <= i < |v.items| ==> Writes(e, v.items[i], js.items[i])
    case TMap(e) =>
      && v.VMap? && js.JObject? && |js.members| == |v.entries|
      && forall i :: 0 <= i < |v.entries| ==>
           js.members[i].key == v.entries[i].key && Writes(e, v.entries[i].value, js.members[i].value)
    case TStruct(fields) => v.VStruct? && js.JObject? && WritesMembers(fields, v.members, js.members)
  }

  /** One member of the object for each member that is there, under its declared key, in declaration order. */
  ghost predicate WritesMembers(fields: seq<Field>, members: seq<Option<Value>>, obj: seq<Member>)
    decreases fields, 1
  {
    if fields == [] || members == [] then fields == [] && members == [] && obj == []
    else
      match members[0]
      case None => WritesMembers(fields[1..], members[1..], obj)
      case Some(x) =>
        && obj != [] && obj[0].key == fields[0].key && Writes(fields[0].kind, x, obj[0].value)
        && WritesMembers(fields[1..], members[1..], obj[1..])
  }

  /** The encoded tree is the one tree that writes the value. */
  lemma {:induction false} EncodeExactly(t: Type, v: Value, js: Json)
    requires HasType(t, v)
    ensures Writes(t, v, js) <==> js == Encode(t, v)
    decreases t, 0
  {
    match t
    case TSeq(e) =>
      if js.JArray? && |js.items| == |v.items| {
        forall i | 0 <= i < |v.items|
          ensures Writes(e, v.items[i], js.items[i]) <==> js.items[i] == Encode(e, v.items[i])
        {
          EncodeExactly(e, v.items[i], js.items[i]);
        }
      }
    case TMap(e) =>
      if js.JObject? && |js.members| == |v.entries| {
        forall i | 0 <= i < |v.entries|
          ensures Writes(e, v.entries[i].value, js.members[i].value)
                  <==> js.members[i].value == Encode(e, v.entries[i].value)
        {
          EncodeExactly(e, v.entries[i].value, js.members[i].value);
        }
        assert js.members == EncodeEntries(e, v.entries) <==> forall i :: 0 <= i < |v.entries| ==>
            js.members[i] == Member(v.entries[i].key, Encode(e, v.entries[i].value));
      }
    case TStruct(fields) =>
      if js.JObject? { EncodeMembersExactly(fields, v.members, js.members); }
    case _ =>
  }

  lemma {:induction false} EncodeMembersExactly(fields: seq<Field>, members: seq<Option<Value>>, obj: seq<Member>)
    requires |members| == |fields| && forall i :: 0 <= i < |fields| ==> HasMember(fields[i], members[i])
    ensures WritesMembers(fields, members, obj) <==> obj == EncodeFields(fields, members)
    decreases fields, 1
  {
    if fields == [] {
    } else {
      assert HasMember(fields[0], members[0]);
      match members[0]
      case None => EncodeMembersExactly(fields[1..], members[1..], obj);
      case Some(x) =>
        if obj != [] {
          assert obj == [obj[0]] + obj[1..];
          EncodeExactly(fields[0].kind, x, obj[0].value);
          EncodeMembersExactly(fields[1..], members[1..], obj[1..]);
        }
    }
  }

  // ----- integers

  /** The ranges of the integer types. */
  lemma Widths(n: int)
    ensures Fits(n, 8, false) <==> 0 <= n <= 255
    ensures Fits(n, 8, true) <==> -128 <= n <= 127
    ensures Fits(n, 16, false) <==> 0 <= n <= 65535
    ensures Fits(n, 16, true) <==> -32768 <= n <= 32767
    ensures Fits(n, 32, false) <==> 0 <= n <= 0xFFFF_FFFF
    ensures Fits(n, 32, true) <==> -0x8000_0000 <= n <= 0x7FFF_FFFF
    ensures Fits(n, 64, false) <==> 0 <= n <= 0xFFFF_FFFF_FFFF_FFFF
    ensures Fits(n, 64, true) <==> -0x8000_0000_0000_0000 <= n <= 0x7FFF_FFFF_FFFF_FFFF
  {
    Powers();
  }

  lemma Powers()
    ensures Pow2(7) == 0x80 && Pow2(8) == 0x100
    ensures Pow2(15) == 0x8000 && Pow2(16) == 0x1_0000
    ensures Pow2(31) == 0x8000_0000 && Pow2(32) == 0x1_0000_0000
    ensures Pow2(63) == 0x8000_0000_0000_0000 && Pow2(64) == 0x1_0000_0000_0000_0000
  {
    assert Pow2(3) == 8 && Pow2(4) == 16;
    PowerTimes(4, 16, 3, 8, 0x80);
    PowerTimes(4, 16, 4, 16, 0x100);
    PowerTimes(8, 0x100, 7, 0x80, 0x8000);
    PowerTimes(8, 0x100, 8, 0x100, 0x1_0000);
    PowerTimes(16, 0x1_0000, 15, 0x8000, 0x8000_0000);
    PowerTimes(16, 0x1_0000, 16, 0x1_0000, 0x1_0000_0000);
    PowerTimes(32, 0x1_0000_0000, 31, 0x8000_0000, 0x8000_0000_0000_0000);
    PowerTimes(32, 0x1_0000_0000, 32, 0x1_0000_0000, 0x1_0000_0000_0000_0000);
  }

  lemma PowerTimes(a: nat, x: nat, b: nat, y: nat, z: nat)
    requires Pow2(a) == x && Pow2(b) == y && x * y == z
    ensures Pow2(a + b) == z
  {
    PowerSum(a, b);
  }

  lemma {:induction false} PowerSum(a: nat, b: nat)
    ensures Pow2(a + b) == Pow2(a) * Pow2(b)
    decreases a
  {
    if a == 0 {
    } else {
      PowerSum(a - 1, b);
      PowSplit(a);
      PowSplit(a + b);
    }
  }

  /** Narrowing gives the number of the type that is congruent modulo the type's size. */
  lemma WrapExactly(n: int, bits: nat, signed: bool, m: int)
    ensures m == Wrap(n, bits, signed) <==> Fits(m, bits, signed) && (m - n) % Pow2(bits) == 0
  {
    FitsWrap(n, bits, signed);
    WrapCongruent(n, bits, signed);
    if Fits(m, bits, signed) && (m - n) % Pow2(bits) == 0 {
      var w := Wrap(n, bits, signed);
      if signed && bits > 0 { PowSplit(bits); }
      SameResidue(m, w, n, Pow2(bits));
    }
  }

  lemma SameResidue(m: int, w: int, n: int, p: nat)
    requires p > 0 && (m - n) % p == 0 && (w - n) % p == 0 && 0 - p < m - w < p
    ensures m == w
  {
    ModTwice(m - n, w - n, p);
    OneMultiple(m - w, p);
  }

  lemma WrapCongruent(n: int, bits: nat, signed: bool)
    ensures (Wrap(n, bits, signed) - n) % Pow2(bits) == 0
  {
    RemainderOff(n, Pow2(bits), Wrap(n, bits, signed));
  }

  lemma RemainderOff(n: int, p: nat, w: int)
    requires p > 0 && (w == n % p || w == n % p - p)
    ensures (w - n) % p == 0
  {
    var k := if w == n % p then 0 - n / p else 0 - n / p - 1;
    assert n == n / p * p + n % p;
    assert w - n == k * p;
    MultipleOf(k, p);
  }

  lemma MultipleOf(k: int, p: nat)
    requires p > 0
    ensures (k * p) % p == 0
  {
    var x := k * p;
    OneMultipleOf(x - x / p * p, k - x / p, p);
    assert x == x / p * p + x % p;
  }

  lemma OneMultipleOf(r: int, k: int, p: nat)
    requires p > 0 && r == k * p && 0 <= r < p
    ensures r == 0
  {
    MulMono(k, 1, p);
    MulMono(-1, k, p);
  }

  lemma ModTwice(a: int, b: int, p: nat)
    requires p > 0 && a % p == 0 && b % p == 0
    ensures (a - b) % p == 0
  {
    assert a == a / p * p && b == b / p * p;
    assert a - b == (a / p - b / p) * p;
    MultipleOf(a / p - b / p, p);
  }

  lemma OneMultiple(d: int, p: nat)
    requires p > 0 && d % p == 0 && 0 - p < d < p
    ensures d == 0
  {
    var k := d / p;
    assert d == k * p;
    MulMono(k, 1, p);
    MulMono(-1, k, p);
  }

  // ----- which trees are accepted

  /** The first member with this key stands at `j`. */
  predicate First(members: seq<Member>, key: string, j: int) {
    0 <= j < |members| && members[j].key == key && forall k :: 0 <= k < j ==> members[k].key != key
  }

  lemma {:induction false} LookupFirst(members: seq<Member>, key: string) returns (j: nat)
    ensures Lookup(members, key).Some? ==> First(members, key, j) && Lookup(members, key) == Some(members[j].value)
    ensures Lookup(members, key).None? ==> forall i :: !First(members, key, i)
    decreases |members|
  {
    if members == [] {
      j := 0;
    } else if members[0].key == key {
      j := 0;
    } else {
      j := LookupFirst(members[1..], key);
      LookupIn(members, key);
      j := j + 1;
      if Lookup(members, key).Some? {
        assert forall k :: 1 <= k < |members| ==> members[k] == members[1..][k - 1];
      }
    }
  }

  lemma FirstOnce(members: seq<Member>, key: string, i: int, j: int)
    requires First(members, key, i) && First(members, key, j)
    ensures i == j
  {
  }

  function ValuesOf(members: seq<Member>): (items: seq<Json>)
    ensures |items| == |members|
  {
    seq(|members|, i requires 0 <= i < |members| => members[i].value)
  }

  /** The kind fits at every depth, and the declared members are there. */
  ghost predicate Acceptable(t: Type, js: Json)
    decreases t, 0
  {
    match t
    case TBool => js.JBool?
    case TReal => js.JReal?
    case TInt(_, _) => js.JInt? || js.JReal?
    case TString => js.JString?
    case TSeq(e) => js.JArray? && AllAcceptable(e, js.items)
    case TMap(e) => js.JObject? && AllAcceptable(e, ValuesOf(js.members))
    case TStruct(fields) => js.JObject? && MembersAcceptable(fields, js.members)
  }

  ghost predicate AllAcceptable(e: Type, items: seq<Json>)
    decreases e, 1
  {
    forall i :: 0 <= i < |items| ==> Acceptable(e, items[i])
  }

  ghost predicate MembersAcceptable(fields: seq<Field>, members: seq<Member>)
    decreases fields, 1
  {
    forall i :: 0 <= i < |fields| ==> MemberAcceptable(fields[i], members)
  }

  /** A required member occurs and its first occurrence fits; an optional one may be missing or null. */
  ghost predicate MemberAcceptable(f: Field, members: seq<Member>)
    decreases f, 0
  {
    if f.optional then
      forall j :: First(members, f.key, j) ==> members[j].value.JNull? || Acceptable(f.kind, members[j].value)
    else exists j :: First(members, f.key, j) && Acceptable(f.kind, members[j].value)
  }

  /** The first bad thing is a required member that is missing. */
  ghost predicate Missing(t: Type, js: Json)
    decreases t, 0
  {
    match t
    case TSeq(e) => js.JArray? && FirstMissing(e, js.items)
    case TMap(e) => js.JObject? && FirstMissing(e, ValuesOf(js.members))
    case TStruct(fields) => js.JObject? && FirstMemberMissing(fields, js.members)
    case _ => false
  }

  ghost predicate FirstMissing(e: Type, items: seq<Json>)
    decreases e, 1
  {
    exists i :: 0 <= i < |items| && Missing(e, items[i]) && forall k :: 0 <= k < i ==> Acceptable(e, items[k])
  }

  ghost predicate FirstMemberMissing(fields: seq<Field>, members: seq<Member>)
    decreases fields, 1
  {
    exists i :: 0 <= i < |fields| && MemberMissing(fields[i], members)
                && forall k :: 0 <= k < i ==> MemberAcceptable(fields[k], members)
  }

  ghost predicate MemberMissing(f: Field, members: seq<Member>)
    decreases f, 0
  {
    || (!f.optional && forall j :: !First(members, f.key, j))
    || exists j :: First(members, f.key, j) && !(f.optional && members[j].value.JNull?)
                   && Missing(f.kind, members[j].value)
  }

  /** An outcome that is a success exactly for acceptable input, and ends the program exactly for a missing member. */
  ghost predicate Verdicts(o: Outcome, acceptable: bool, missing: bool) {
    (o.Ok? <==> acceptable) && (o.Aborted? <==> missing) && !(acceptable && missing)
  }

  /** Exactly which trees are decoded, and how decoding any other ends. */
  lemma {:induction false} DecodeVerdict(t: Type, js: Json, target: Value)
    requires HasType(t, target)
    ensures Verdicts(Decode(t, js, target), Acceptable(t, js), Missing(t, js))
    decreases t, 0
  {
    match t
    case TSeq(e) => if js.JArray? { ItemsVerdict(e, js.items, target.items); }
    case TMap(e) => if js.JObject? { EntriesVerdict(e, js.members, target.entries); }
    case TStruct(fields) => if js.JObject? { FieldsVerdict(fields, js.members, target.members, []); }
    case _ =>
  }

  lemma {:induction false} ItemsVerdict(e: Type, items: seq<Json>, done: seq<Value>)
    ensures Verdicts(DecodeItems(e, items, done), AllAcceptable(e, items), FirstMissing(e, items))
    decreases e, 1, |items|
  {
    if items == [] {
    } else {
      EmptyHasType(e);
      DecodeVerdict(e, items[0], Empty(e));
      ShiftItems(e, items);
      match Decode(e, items[0], Empty(e))
      case Ok(v) => ItemsVerdict(e, items[1..], done + [v]);
      case _ =>
    }
  }

  lemma AllShift(e: Type, items: seq<Json>)
    requires items != []
    ensures AllAcceptable(e, items) <==> Acceptable(e, items[0]) && AllAcceptable(e, items[1..])
  {
    var rest := items[1..];
    assert forall i :: 1 <= i < |items| ==> items[i] == rest[i - 1];
    if AllAcceptable(e, items) {
      forall i | 0 <= i < |rest| ensures Acceptable(e, rest[i]) { assert rest[i] == items[i + 1]; }
    }
  }

  lemma MissingInRest(e: Type, items: seq<Json>)
    requires items != [] && Acceptable(e, items[0]) && FirstMissing(e, items[1..])
    ensures FirstMissing(e, items)
  {
    var rest := items[1..];
    var i :| 0 <= i < |rest| && Missing(e, rest[i]) && forall k :: 0 <= k < i ==> Acceptable(e, rest[k]);
    assert Missing(e, items[i + 1]);
    forall k | 0 <= k < i + 1 ensures Acceptable(e, items[k]) {
      if k > 0 { assert items[k] == rest[k - 1]; }
    }
  }

  /** The first item decides, or the others do. */
  lemma ShiftItems(e: Type, items: seq<Json>)
    requires items != []
    ensures AllAcceptable(e, items) <==> Acceptable(e, items[0]) && AllAcceptable(e, items[1..])
    ensures FirstMissing(e, items) <==>
            Missing(e, items[0]) || (Acceptable(e, items[0]) && FirstMissing(e, items[1..]))
  {
    var rest := items[1..];
    AllShift(e, items);
    if i :| 0 <= i < |items| && Missing(e, items[i]) && forall k :: 0 <= k < i ==> Acceptable(e, items[k]) {
      if i > 0 {
        assert items[i] == rest[i - 1];
        forall k | 0 <= k < i - 1 ensures Acceptable(e, rest[k]) { assert rest[k] == items[k + 1]; }
      }
    }
    if Acceptable(e, items[0]) && FirstMissing(e, rest) { MissingInRest(e, items); }
  }

  lemma {:induction false} EntriesVerdict(e: Type, members: seq<Member>, done: seq<Entry>)
    ensures Verdicts(DecodeEntries(e, members, done),
                     AllAcceptable(e, ValuesOf(members)), FirstMissing(e, ValuesOf(members)))
    decreases e, 1, |members|
  {
    if members == [] {
    } else {
      EmptyHasType(e);
      DecodeVerdict(e, members[0].value, Empty(e));
      ShiftItems(e, ValuesOf(members));
      assert ValuesOf(members)[1..] == ValuesOf(members[1..]);
      match Decode(e, members[0].value, Empty(e))
      case Ok(v) => EntriesVerdict(e, members[1..], EmplaceEntry(done, Entry(members[0].key, v)));
      case _ =>
    }
  }

  lemma MemberVerdict(f: Field, members: seq<Member>, target: Option<Value>)
    requires HasMember(f, target)
    ensures DecodeMember(f, members, target).Got? <==> MemberAcceptable(f, members)
    ensures DecodeMember(f, members, target) == Bad(Aborted) <==> MemberMissing(f, members)
    ensures DecodeMember(f, members, target).Bad? ==> !DecodeMember(f, members, target).why.Ok?
    decreases f, 0
  {
    var j := LookupFirst(members, f.key);
    var js := Lookup(members, f.key);
    EmptyHasType(f.kind);
    if js.Some? {
      forall i | First(members, f.key, i) ensures i == j { FirstOnce(members, f.key, i, j); }
      DecodeVerdict(f.kind, js.value, if f.optional || target.None? then Empty(f.kind) else target.value);
    }
  }

  lemma {:induction false} FieldsVerdict(fields: seq<Field>, members: seq<Member>,
                                         target: seq<Option<Value>>, done: seq<Option<Value>>)
    requires |target| == |fields| && forall i :: 0 <= i < |fields| ==> HasMember(fields[i], target[i])
    ensures Verdicts(DecodeFields(fields, members, target, done),
                     MembersAcceptable(fields, members), FirstMemberMissing(fields, members))
    decreases fields, 1
  {
    if fields == [] {
    } else {
      assert HasMember(fields[0], target[0]);
      MemberVerdict(fields[0], members, target[0]);
      ShiftFields(fields, members);
      match DecodeMember(fields[0], members, target[0])
      case Got(m) => FieldsVerdict(fields[1..], members, target[1..], done + [m]);
      case Bad(_) =>
    }
  }

  lemma ShiftFields(fields: seq<Field>, members: seq<Member>)
    requires fields != []
    ensures MembersAcceptable(fields, members) <==>
            MemberAcceptable(fields[0], members) && MembersAcceptable(fields[1..], members)
    ensures FirstMemberMissing(fields, members) <==>
            MemberMissing(fields[0], members)
            || (MemberAcceptable(fields[0], members) && FirstMemberMissing(fields[1..], members))
  {
    var rest := fields[1..];
    assert forall i :: 1 <= i < |fields| ==> fields[i] == rest[i - 1];
    if MembersAcceptable(fields, members) {
      forall i | 0 <= i < |rest| ensures MemberAcceptable(rest[i], members) { assert rest[i] == fields[i + 1]; }
    }
    if i :| 0 <= i < |fields| && MemberMissing(fields[i], members)
            && forall k :: 0 <= k < i ==> MemberAcceptable(fields[k], members) {
      if i > 0 {
        assert MemberMissing(rest[i - 1], members);
        forall k | 0 <= k < i - 1 ensures MemberAcceptable(rest[k], members) { assert rest[k] == fields[k + 1]; }
      }
    }
    if MemberAcceptable(fields[0], members) && FirstMemberMissing(rest, members) {
      var i :| 0 <= i < |rest| && MemberMissing(rest[i], members)
               && forall k :: 0 <= k < i ==> MemberAcceptable(rest[k], members);
      assert MemberMissing(fields[i + 1], members);
      forall k | 0 <= k < i + 1 ensures MemberAcceptable(fields[k], members) {
        if k > 0 { assert fields[k] == rest[k - 1]; }
      }
    }
  }

  // ----- what comes out

  /** What decoding into the target makes of the tree. */
  ghost predicate Yields(t: Type, js: Json, target: Value, v: Value)
    decreases t, 0
  {
    match t
    case TBool => js.JBool? && v == VBool(js.b)
    case TReal => js.JReal? && v == VReal(js.r)
    case TInt(bits, signed) =>
      v.VInt? && if js.JInt? then Fits(v.n, bits, signed) && (v.n - js.n) % Pow2(bits) == 0 else js.JReal? && v.n == 0
    case TString => js.JString? && v == VString(js.s)
    case TSeq(e) =>
      js.JArray? && target.VSeq? && v.VSeq? && YieldsItems(e, js.items, target.items, v.items)
    case TMap(e) =>
      js.JObject? && target.VMap? && v.VMap? && YieldsEntries(e, js.members, target.entries, v.entries)
    case TStruct(fields) =>
      && js.JObject? && target.VStruct? && v.VStruct? && |fields| == |target.members| == |v.members|
      && YieldsMembers(fields, js.members, target.members, v.members)
  }

  /** The target's items, then one for each item of the array. */
  ghost predicate YieldsItems(e: Type, items: seq<Json>, target: seq<Value>, result: seq<Value>)
    decreases e, 2
  {
    |result| == |target| + |items| && result[..|target|] == target && YieldsEach(e, items, result[|target|..])
  }

  ghost predicate YieldsEach(e: Type, items: seq<Json>, values: seq<Value>)
    requires |items| == |values|
    decreases e, 1
  {
    forall i :: 0 <= i < |items| ==> Yields(e, items[i], Empty(e), values[i])
  }

  predicate HasEntry(entries: seq<Entry>, key: string) {
    exists i :: 0 <= i < |entries| && entries[i].key == key
  }

  /** The target's entries, then the first member under each key that is not there already; every member must fit. */
  ghost predicate YieldsEntries(e: Type, members: seq<Member>, target: seq<Entry>, result: seq<Entry>)
    decreases e, 1, |members|
  {
    if members == [] then result == target
    else
      var n := |members| - 1;
      var m := members[n];
      if HasEntry(target, m.key) || exists k :: 0 <= k < n && members[k].key == m.key then
        Acceptable(e, m.value) && YieldsEntries(e, members[..n], target, result)
      else
        && result != [] && result[|result| - 1].key == m.key
        && Yields(e, m.value, Empty(e), result[|result| - 1].value)
        && YieldsEntries(e, members[..n], target, result[..|result| - 1])
  }

  ghost predicate YieldsMembers(fields: seq<Field>, members: seq<Member>,
                                target: seq<Option<Value>>, result: seq<Option<Value>>)
    requires |fields| == |target| == |result|
    decreases fields, 1
  {
    forall i :: 0 <= i < |fields| ==> YieldsMember(fields[i], members, target[i], result[i])
  }

  /** The first occurrence decides; an optional member that is missing or null is absent. */
  ghost predicate YieldsMember(f: Field, members: seq<Member>, target: Option<Value>, result: Option<Value>)
    decreases f, 0
  {
    match result
    case None => f.optional && forall j :: First(members, f.key, j) ==> members[j].value.JNull?
    case Some(x) =>
      exists j :: First(members, f.key, j) && !(f.optional && members[j].value.JNull?)
        && Yields(f.kind, members[j].value, if f.optional || target.None? then Empty(f.kind) else target.value, x)
  }

  /** Decoding succeeds with a value if and only if the tree yields it. */
  lemma {:induction false} DecodeExactly(t: Type, js: Json, target: Value, v: Value)
    ensures Decode(t, js, target) == Ok(v) <==> Yields(t, js, target, v)
    decreases t, 0
  {
    match t
    case TInt(bits, signed) => if js.JInt? && v.VInt? { WrapExactly(js.n, bits, signed, v.n); }
    case TSeq(e) =>
      if js.JArray? && target.VSeq? {
        OkItems(e, js.items, target.items);
        if v.VSeq? { ItemsYield(e, js.items, target.items, v.items); }
      }
    case TMap(e) =>
      if js.JObject? && target.VMap? {
        OkEntries(e, js.members, target.entries);
        if v.VMap? { EntriesYield(e, js.members, target.entries, v.entries); }
      }
    case TStruct(fields) =>
      if js.JObject? && target.VStruct? && |target.members| == |fields| {
        OkFields(fields, js.members, target.members, []);
        if v.VStruct? { FieldsYield(fields, js.members, target.members, [], v.members); }
      }
    case _ =>
  }

  lemma {:induction false} OkItems(e: Type, items: seq<Json>, done: seq<Value>)
    ensures DecodeItems(e, items, done).Ok? ==> DecodeItems(e, items, done).value.VSeq?
    decreases |items|
  {
    if items == [] {
    } else {
      match Decode(e, items[0], Empty(e))
      case Ok(v) => OkItems(e, items[1..], done + [v]);
      case _ =>
    }
  }

  lemma {:induction false} OkEntries(e: Type, members: seq<Member>, done: seq<Entry>)
    ensures DecodeEntries(e, members, done).Ok? ==> DecodeEntries(e, members, done).value.VMap?
    decreases |members|
  {
    if members == [] {
    } else {
      match Decode(e, members[0].value, Empty(e))
      case Ok(v) => OkEntries(e, members[1..], EmplaceEntry(done, Entry(members[0].key, v)));
      case _ =>
    }
  }

  lemma {:induction false} OkFields(fields: seq<Field>, members: seq<Member>,
                                    target: seq<Option<Value>>, done: seq<Option<Value>>)
    requires |target| == |fields|
    ensures DecodeFields(fields, members, target, done).Ok? ==>
              var v := DecodeFields(fields, members, target, done).value;
              v.VStruct? && |v.members| == |done| + |fields|
    decreases |fields|
  {
    if fields == [] {
    } else {
      match DecodeMember(fields[0], members, target[0])
      case Got(m) => OkFields(fields[1..], members, target[1..], done + [m]);
      case Bad(_) =>
        var js := Lookup(members, fields[0].key);
    }
  }

  lemma {:induction false} ItemsYield(e: Type, items: seq<Json>, target: seq<Value>, result: seq<Value>)
    ensures DecodeItems(e, items, target) == Ok(VSeq(result)) <==> YieldsItems(e, items, target, result)
    decreases e, 1, |items|
  {
    if items == [] {
      assert |result| == |target| ==> result[..|target|] == result;
    } else {
      var n, rest := |target|, items[1..];
      if |result| == n + |items| { DecodeExactly(e, items[0], Empty(e), result[n]); }
      match Decode(e, items[0], Empty(e))
      case Ok(x) =>
        ItemsYield(e, rest, target + [x], result);
        if |result| == n + |items| { NextItem(e, items, target, result, x); }
      case _ =>
    }
  }

  lemma NextItem(e: Type, items: seq<Json>, target: seq<Value>, result: seq<Value>, x: Value)
    requires items != [] && |result| == |target| + |items|
    requires Yields(e, items[0], Empty(e), result[|target|]) <==> result[|target|] == x
    ensures YieldsItems(e, items, target, result) <==> YieldsItems(e, items[1..], target + [x], result)
  {
    var n, rest := |target|, items[1..];
    var vs, more := result[n..], result[n + 1..];
    assert vs[0] == result[n] && vs[1..] == more;
    assert result[..n + 1] == result[..n] + [result[n]];
    if result[..n + 1] == target + [x] {
      assert result[..n] == (target + [x])[..n] && result[n] == (target + [x])[n];
    }
    assert forall i :: 0 <= i < |rest| ==> rest[i] == items[i + 1] && more[i] == vs[i + 1];
    if YieldsEach(e, items, vs) {
      assert Yields(e, items[0], Empty(e), vs[0]);
      forall i | 0 <= i < |rest| ensures Yields(e, rest[i], Empty(e), more[i]) {
        assert Yields(e, items[i + 1], Empty(e), vs[i + 1]);
      }
    }
    if x == result[n] && YieldsEach(e, rest, more) {
      forall i | 0 <= i < |items| ensures Yields(e, items[i], Empty(e), vs[i]) {
        if i > 0 { assert Yields(e, rest[i - 1], Empty(e), more[i - 1]); }
      }
    }
  }

  // ----- maps, from the last member on

  lemma {:induction false} EntriesSnoc(e: Type, members: seq<Member>, m: Member, done: seq<Entry>)
    ensures DecodeEntries(e, members + [m], done) ==
            match DecodeEntries(e, members, done)
            case Ok(d) => if d.VMap? then DecodeEntries(e, [m], d.entries) else Ok(d)
            case bad => bad
    decreases |members|
  {
    var all := members + [m];
    OkEntries(e, members, done);
    if members == [] {
      assert all == [m];
    } else {
      assert all[0] == members[0] && all[1..] == members[1..] + [m];
      match Decode(e, members[0].value, Empty(e))
      case Ok(v) => EntriesSnoc(e, members[1..], m, EmplaceEntry(done, Entry(members[0].key, v)));
      case _ =>
    }
  }

  lemma EntryAlone(e: Type, m: Member, d: seq<Entry>)
    ensures DecodeEntries(e, [m], d) ==
            var o := Decode(e, m.value, Empty(e));
            if !o.Ok? then o else Ok(VMap(if HasEntry(d, m.key) then d else d + [Entry(m.key, o.value)]))
  {
    assert [m][1..] == [];
  }

  lemma {:induction false} KeysKept(e: Type, members: seq<Member>, done: seq<Entry>, key: string)
    requires DecodeEntries(e, members, done).Ok? && DecodeEntries(e, members, done).value.VMap?
    ensures HasEntry(DecodeEntries(e, members, done).value.entries, key) <==>
            HasEntry(done, key) || exists k :: 0 <= k < |members| && members[k].key == key
    decreases |members|
  {
    if members == [] {
    } else {
      var v := Decode(e, members[0].value, Empty(e)).value;
      var more := EmplaceEntry(done, Entry(members[0].key, v));
      EmplacedKey(done, Entry(members[0].key, v), key);
      KeysKept(e, members[1..], more, key);
      assert forall k :: 1 <= k < |members| ==> members[k] == members[1..][k - 1];
      if k :| 0 <= k < |members[1..]| && members[1..][k].key == key { assert members[k + 1].key == key; }
    }
  }

  lemma EmplacedKey(done: seq<Entry>, x: Entry, key: string)
    ensures HasEntry(EmplaceEntry(done, x), key) <==> HasEntry(done, key) || x.key == key
  {
    var more := EmplaceEntry(done, x);
    if more == done + [x] { assert more[|done|] == x; }
    if HasEntry(done, key) {
      var i :| 0 <= i < |done| && done[i].key == key;
      assert more[i] == done[i];
    }
  }

  lemma {:induction false} EntriesYield(e: Type, members: seq<Member>, target: seq<Entry>, result: seq<Entry>)
    ensures DecodeEntries(e, members, target) == Ok(VMap(result)) <==> YieldsEntries(e, members, target, result)
    decreases e, 1, |members|
  {
    if members == [] {
    } else {
      var n := |members| - 1;
      var m, front := members[n], members[..n];
      assert members == front + [m];
      EntriesSnoc(e, front, m, target);
      OkEntries(e, front, target);
      EntriesYield(e, front, target, result);
      if result != [] {
        EntriesYield(e, front, target, result[..|result| - 1]);
        DecodeExactly(e, m.value, Empty(e), result[|result| - 1].value);
      }
      match DecodeEntries(e, front, target)
      case Ok(d) => LastEntry(e, members, target, d.entries, result);
      case _ =>
    }
  }

  lemma SeenBefore(e: Type, members: seq<Member>, target: seq<Entry>, d: seq<Entry>)
    requires members != [] && DecodeEntries(e, members[..|members| - 1], target) == Ok(VMap(d))
    ensures var n := |members| - 1;
            var key := members[n].key;
            HasEntry(d, key) <==> HasEntry(target, key) || exists k :: 0 <= k < n && members[k].key == key
  {
    var n := |members| - 1;
    var key := members[n].key;
    KeysKept(e, members[..n], target, key);
    assert forall k :: 0 <= k < n ==> members[..n][k] == members[k];
    if k :| 0 <= k < n && members[k].key == key { assert members[..n][k].key == key; }
  }

  lemma LastEntry(e: Type, members: seq<Member>, target: seq<Entry>, d: seq<Entry>, result: seq<Entry>)
    requires members != []
    requires DecodeEntries(e, members[..|members| - 1], target) == Ok(VMap(d))
    requires YieldsEntries(e, members[..|members| - 1], target, result) <==> d == result
    requires result != [] ==>
               (YieldsEntries(e, members[..|members| - 1], target, result[..|result| - 1])
                <==> d == result[..|result| - 1])
    requires result != [] ==>
               var m, x := members[|members| - 1], result[|result| - 1];
               Decode(e, m.value, Empty(e)) == Ok(x.value) <==> Yields(e, m.value, Empty(e), x.value)
    ensures DecodeEntries(e, [members[|members| - 1]], d) == Ok(VMap(result)) <==>
            YieldsEntries(e, members, target, result)
  {
    var n := |members| - 1;
    var m := members[n];
    EntryAlone(e, m, d);
    SeenBefore(e, members, target, d);
    EmptyHasType(e);
    DecodeVerdict(e, m.value, Empty(e));
    if !HasEntry(d, m.key) && result != [] {
      var x := result[|result| - 1];
      assert result == result[..|result| - 1] + [x];
      assert x == Entry(x.key, x.value);
    }
  }

  // ----- structs

  lemma MemberYields(f: Field, members: seq<Member>, target: Option<Value>, result: Option<Value>)
    ensures DecodeMember(f, members, target) == Got(result) <==> YieldsMember(f, members, target, result)
    decreases f, 0
  {
    var j := LookupFirst(members, f.key);
    var js := Lookup(members, f.key);
    if js.Some? {
      forall i | First(members, f.key, i) ensures i == j { FirstOnce(members, f.key, i, j); }
      if result.Some? {
        var into := if f.optional || target.None? then Empty(f.kind) else target.value;
        DecodeExactly(f.kind, js.value, into, result.value);
      }
    }
  }

  lemma {:induction false} FieldsYield(fields: seq<Field>, members: seq<Member>, target: seq<Option<Value>>,
                                       done: seq<Option<Value>>, result: seq<Option<Value>>)
    requires |target| == |fields|
    ensures DecodeFields(fields, members, target, done) == Ok(VStruct(result)) <==>
            && |result| == |done| + |fields| && result[..|done|] == done
            && YieldsMembers(fields, members, target, result[|done|..])
    decreases fields, 1
  {
    var n := |done|;
    if fields == [] {
      assert |result| == n ==> result[..n] == result;
    } else {
      OkFields(fields, members, target, done);
      if |result| == n + |fields| {
        MemberYields(fields[0], members, target[0], result[n]);
        match DecodeMember(fields[0], members, target[0])
        case Got(x) =>
          FieldsYield(fields[1..], members, target[1..], done + [x], result);
          NextMember(fields, members, target, done, result, x);
        case Bad(why) =>
          assert result[n..][0] == result[n];
      }
    }
  }

  lemma NextMember(fields: seq<Field>, members: seq<Member>, target: seq<Option<Value>>,
                   done: seq<Option<Value>>, result: seq<Option<Value>>, x: Option<Value>)
    requires |target| == |fields| > 0 && |result| == |done| + |fields|
    requires YieldsMember(fields[0], members, target[0], result[|done|]) <==> x == result[|done|]
    ensures var n := |done|;
            (result[..n] == done && YieldsMembers(fields, members, target, result[n..])) <==>
            (result[..n + 1] == done + [x] && YieldsMembers(fields[1..], members, target[1..], result[n + 1..]))
  {
    var n := |done|;
    var r, s := result[n..], result[n + 1..];
    assert r[0] == result[n] && r[1..] == s;
    assert result[..n + 1] == result[..n] + [result[n]];
    if result[..n + 1] == done + [x] {
      assert result[..n] == (done + [x])[..n] && result[n] == (done + [x])[n];
    }
    var more, into := fields[1..], target[1..];
    assert forall i :: 0 <= i < |more| ==> more[i] == fields[i + 1] && into[i] == target[i + 1] && s[i] == r[i + 1];
    if YieldsMembers(fields, members, target, r) {
      forall i | 0 <= i < |more| ensures YieldsMember(more[i], members, into[i], s[i]) {
        assert YieldsMember(fields[i + 1], members, target[i + 1], r[i + 1]);
      }
      assert YieldsMember(fields[0], members, target[0], r[0]);
    }
    if x == result[n] && YieldsMembers(more, members, into, s) {
      forall i | 0 <= i < |fields| ensures YieldsMember(fields[i], members, target[i], r[i]) {
        if i > 0 { assert YieldsMember(more[i - 1], members, into[i - 1], s[i - 1]); }
      }
    }
  }
}
