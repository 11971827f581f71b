/** Type-directed conversion between values and JSON trees. */
module Json {
  import opened Options

  // ----- trees, types, values

  datatype Member = Member(key: string, value: Json)

  /** A JSON tree; an object is a list of members in document order, possibly with repeated keys. */
  datatype Json =
    | JNull
    | JBool(b: bool)
    | JInt(n: int)
    | JReal(r: real)
    | JString(s: string)
    | JArray(items: seq<Json>)
    | JObject(members: seq<Member>)

  datatype Field = Field(key: string, optional: bool, kind: Type)

  /** `TSeq` stands for std::vector and std::list, `TMap` for the two string-keyed maps. */
  datatype Type =
    | TBool
    | TReal
    | TInt(bits: nat, signed: bool)
    | TString
    | TSeq(elem: Type)
    | TMap(elem: Type)
    | TStruct(fields: seq<Field>)

  datatype Entry = Entry(key: string, value: Value)

  /** A map is the list of its entries in iteration order; an absent optional member is `None`. */
  datatype Value =
    | VBool(b: bool)
    | VReal(r: real)
    | VInt(n: int)
    | VString(s: string)
    | VSeq(items: seq<Value>)
    | VMap(entries: seq<Entry>)
    | VStruct(members: seq<Option<Value>>)

  /**
   `Thrown`: the value has the wrong kind. `Aborted`: a required member is missing, a null behind a non-null
   pointer.
   */
  datatype Outcome = Ok(value: Value) | Thrown | Aborted

  function Pow2(n: nat): (p: nat)
    ensures p > 0
  {
    if n == 0 then 1 else 2 * Pow2(n - 1)
  }

  predicate Fits(n: int, bits: nat, signed: bool) {
    if signed && bits > 0 then 0 - Pow2(bits - 1) <= n < Pow2(bits - 1) else 0 <= n < Pow2(bits)
  }

  /** Conversion to a narrower two's complement type. */
  function Wrap(n: int, bits: nat, signed: bool): int {
    var m := n % Pow2(bits);
    if signed && bits > 0 && m >= Pow2(bits - 1) then m - Pow2(bits) else m
  }

  predicate DistinctKeys(fields: seq<Field>) {
    forall i, j :: 0 <= i < j < |fields| ==> fields[i].key != fields[j].key
  }

  /** The member names of a struct are distinct, at every depth. */
  predicate WellFormed(t: Type) {
    match t
    case TSeq(e) => WellFormed(e)
    case TMap(e) => WellFormed(e)
    case TStruct(fields) => DistinctKeys(fields) && forall i :: 0 <= i < |fields| ==> WellFormed(fields[i].kind)
    case _ => true
  }

  predicate HasType(t: Type, v: Value)
    decreases t
  {
    match t
    case TBool => v.VBool?
    case TReal => v.VReal?
    case TInt(bits, signed) => v.VInt? && Fits(v.n, bits, signed)
    case TString => v.VString?
    case TSeq(e) => v.VSeq? && forall i :: 0 <= i < |v.items| ==> HasType(e, v.items[i])
    case TMap(e) =>
      && v.VMap?
      && (forall i, j :: 0 <= i < j < |v.entries| ==> v.entries[i].key != v.entries[j].key)
      && forall i :: 0 <= i < |v.entries| ==> HasType(e, v.entries[i].value)
    case TStruct(fields) =>
      && v.VStruct? && |v.members| == |fields|
      && forall i :: 0 <= i < |fields| ==> HasMember(fields[i], v.members[i])
  }

  predicate HasMember(f: Field, m: Option<Value>)
    decreases f
  {
    match m
    case None => f.optional
    case Some(v) => HasType(f.kind, v)
  }

  /** A default-constructed target. */
  function Empty(t: Type): Value
    decreases t
  {
    match t
    case TBool => VBool(false)
    case TReal => VReal(0.0)
    case TInt(_, _) => VInt(0)
    case TString => VString("")
    case TSeq(_) => VSeq([])
    case TMap(_) => VMap([])
    case TStruct(fields) => VStruct(seq(|fields|, i requires 0 <= i < |fields| =>
      if fields[i].optional then None else Some(Empty(fields[i].kind))))
  }

  // ----- encoding

  function Encode(t: Type, v: Value): Json
    requires HasType(t, v)
    decreases t, 0
  {
    match t
    case TBool => JBool(v.b)
    case TReal => JReal(v.r)
    case TInt(_, _) => JInt(v.n)
    case TString => JString(v.s)
    case TSeq(e) => JArray(seq(|v.items|, i requires 0 <= i < |v.items| => Encode(e, v.items[i])))
    case TMap(e) => JObject(seq(|v.entries|, i requires 0 <= i < |v.entries| =>
      Member(v.entries[i].key, Encode(e, v.entries[i].value))))
    case TStruct(fields) => JObject(EncodeFields(fields, v.members))
  }

  /** Present members in declaration order. */
  function EncodeFields(fields: seq<Field>, members: seq<Option<Value>>): seq<Member>
    requires |members| == |fields| && forall i :: 0 <= i < |fields| ==> HasMember(fields[i], members[i])
    decreases fields, 1
  {
    if fields == [] then []
    else
      var rest := EncodeFields(fields[1..], members[1..]);
      assert HasMember(fields[0], members[0]);
      match members[0]
      case None => rest
      case Some(v) => [Member(fields[0].key, Encode(fields[0].kind, v))] + rest
  }

  // ----- decoding into a target

  /** The first value under a key. */
  function Lookup(members: seq<Member>, key: string): Option<Json> {
    if members == [] then None
    else if members[0].key == key then Some(members[0].value)
    else Lookup(members[1..], key)
  }

  function EmplaceEntry(entries: seq<Entry>, e: Entry): seq<Entry> {
    if exists i :: 0 <= i < |entries| && entries[i].key == e.key then entries else entries + [e]
  }

  /** Containers add to what the target holds; everything else replaces it. */
  function Decode(t: Type, js: Json, target: Value): Outcome
    decreases t, 0
  {
    match t
    case TBool => if js.JBool? then Ok(VBool(js.b)) else Thrown
    case TReal => if js.JReal? then Ok(VReal(js.r)) else Thrown
    case TInt(bits, signed) =>
      if js.JInt? then Ok(VInt(Wrap(js.n, bits, signed))) else if js.JReal? then Ok(VInt(0)) else Thrown
    case TString => if js.JString? then Ok(VString(js.s)) else Thrown
    case TSeq(e) => if js.JArray? && target.VSeq? then DecodeItems(e, js.items, target.items) else Thrown
    case TMap(e) => if js.JObject? && target.VMap? then DecodeEntries(e, js.members, target.entries) else Thrown
    case TStruct(fields) =>
      if js.JObject? && target.VStruct? && |target.members| == |fields| then
        DecodeFields(fields, js.members, target.members, [])
      else Thrown
  }

  function DecodeItems(e: Type, items: seq<Json>, done: seq<Value>): Outcome
    decreases e, 1, |items|
  {
    if items == [] then Ok(VSeq(done))
    else
      match Decode(e, items[0], Empty(e))
      case Ok(v) => DecodeItems(e, items[1..], done + [v])
      case bad => bad
  }

  function DecodeEntries(e: Type, members: seq<Member>, done: seq<Entry>): Outcome
    decreases e, 1, |members|
  {
    if members == [] then Ok(VMap(done))
    else
      match Decode(e, members[0].value, Empty(e))
      case Ok(v) => DecodeEntries(e, members[1..], EmplaceEntry(done, Entry(members[0].key, v)))
      case bad => bad
  }

  datatype MemberOutcome = Got(m: Option<Value>) | Bad(why: Outcome)

  function DecodeMember(f: Field, members: seq<Member>, target: Option<Value>): MemberOutcome
    decreases f, 0
  {
    var js := Lookup(members, f.key);
    if f.optional && (js.None? || js.value.JNull?) then Got(None)
    else if js.None? then Bad(Aborted)
    else
      match Decode(f.kind, js.value, if f.optional || target.None? then Empty(f.kind) else target.value)
      case Ok(v) => Got(Some(v))
      case bad => Bad(bad)
  }

  /** The declared members in order, each into its place in the target. */
  function DecodeFields(fields: seq<Field>, members: seq<Member>,
                        target: seq<Option<Value>>, done: seq<Option<Value>>): Outcome
    requires |target| == |fields|
    decreases fields, 1
  {
    if fields == [] then Ok(VStruct(done))
    else
      match DecodeMember(fields[0], members, target[0])
      case Got(m) => DecodeFields(fields[1..], members, target[1..], done + [m])
      case Bad(why) => why
  }

  // ----- the loops

  method ToJson(t: Type, v: Value) returns (js: Json)
    requires HasType(t, v)
    ensures js == Encode(t, v)
    decreases t
  {
    match t
    case TBool => js := JBool(v.b);
    case TReal => js := JReal(v.r);
    case TInt(_, _) => js := JInt(v.n);
    case TString => js := JString(v.s);
    case TSeq(e) =>
      var arr: seq<Json> := [];
      for i := 0 to |v.items|
        invariant arr == seq(i, k requires 0 <= k < i => Encode(e, v.items[k]))
      {
        var item := ToJson(e, v.items[i]);
        arr := arr + [item];
      }
      js := JArray(arr);
    case TMap(e) =>
      var obj: seq<Member> := [];
      for i := 0 to |v.entries|
        invariant obj == seq(i, k requires 0 <= k < i => Member(v.entries[k].key, Encode(e, v.entries[k].value)))
      {
        var val := ToJson(e, v.entries[i].value);
        obj := obj + [Member(v.entries[i].key, val)];
      }
      js := JObject(obj);
    case TStruct(fields) =>
      var obj: seq<Member> := [];
      for i := 0 to |fields|
        invariant obj + EncodeFields(fields[i..], v.members[i..]) == EncodeFields(fields, v.members)
      {
        assert HasMember(fields[i], v.members[i]);
        assert fields[i..][1..] == fields[i + 1..] && v.members[i..][1..] == v.members[i + 1..];
        match v.members[i] {
          case None =>
          case Some(x) =>
            var val := ToJson(fields[i].kind, x);
            obj := obj + [Member(fields[i].key, val)];
        }
      }
      js := JObject(obj);
  }

  method ObjGet(members: seq<Member>, key: string) returns (val: Option<Json>)
    ensures val == Lookup(members, key)
  {
    for i := 0 to |members|
      invariant Lookup(members[i..], key) == Lookup(members, key)
    {
      if members[i].key == key {
        return Some(members[i].value);
      }
      assert members[i..][1..] == members[i + 1..];
    }
    return None;
  }

  method FromJson(t: Type, js: Json, target: Value) returns (r: Outcome)
    ensures r == Decode(t, js, target)
    decreases t, 0
  {
    match t
    case TBool => r := if js.JBool? then Ok(VBool(js.b)) else Thrown;
    case TReal => r := if js.JReal? then Ok(VReal(js.r)) else Thrown;
    case TInt(bits, signed) =>
      if js.JInt? {
        r := Ok(VInt(Wrap(js.n, bits, signed)));
      } else {
        r := if js.JReal? then Ok(VInt(0)) else Thrown;
      }
    case TString => r := if js.JString? then Ok(VString(js.s)) else Thrown;
    case TSeq(e) =>
      if !js.JArray? || !target.VSeq? {
        return Thrown;
      }
      r := ItemsFromJson(e, js.items, target.items);
    case TMap(e) =>
      if !js.JObject? || !target.VMap? {
        return Thrown;
      }
      r := EntriesFromJson(e, js.members, target.entries);
    case TStruct(fields) =>
      if !js.JObject? || !target.VStruct? || |target.members| != |fields| {
        return Thrown;
      }
      r := FieldsFromJson(fields, js.members, target.members);
  }

  method ItemsFromJson(e: Type, items: seq<Json>, into: seq<Value>) returns (r: Outcome)
    ensures r == DecodeItems(e, items, into)
    decreases e, 1
  {
    var rhs := into;
    for i := 0 to |items|
      invariant DecodeItems(e, items[i..], rhs) == DecodeItems(e, items, into)
    {
      assert items[i..][1..] == items[i + 1..];
      var v := FromJson(e, items[i], Empty(e));
      match v {
        case Ok(x) => rhs := rhs + [x];
        case bad => return bad;
      }
    }
    return Ok(VSeq(rhs));
  }

  method EntriesFromJson(e: Type, members: seq<Member>, into: seq<Entry>) returns (r: Outcome)
    ensures r == DecodeEntries(e, members, into)
    decreases e, 1
  {
    var rhs := into;
    for i := 0 to |members|
      invariant DecodeEntries(e, members[i..], rhs) == DecodeEntries(e, members, into)
    {
      assert members[i..][1..] == members[i + 1..];
      var v := FromJson(e, members[i].value, Empty(e));
      match v {
        case Ok(x) => rhs := EmplaceEntry(rhs, Entry(members[i].key, x));
        case bad => return bad;
      }
    }
    return Ok(VMap(rhs));
  }

  method FieldsFromJson(fields: seq<Field>, members: seq<Member>, target: seq<Option<Value>>) returns (r: Outcome)
    requires |target| == |fields|
    ensures r == DecodeFields(fields, members, target, [])
    decreases fields, 1
  {
    var rhs: seq<Option<Value>> := [];
    for i := 0 to |fields|
      invariant DecodeFields(fields[i..], members, target[i..], rhs) == DecodeFields(fields, members, target, [])
    {
      assert fields[i..][1..] == fields[i + 1..] && target[i..][1..] == target[i + 1..];
      var f := fields[i];
      var val := ObjGet(members, f.key);
      if f.optional && (val.None? || val.value.JNull?) {
        rhs := rhs + [None];
      } else if val.None? {
        return Aborted;
      } else {
        var v := FromJson(f.kind, val.value, if f.optional || target[i].None? then Empty(f.kind) else target[i].value);
        match v {
          case Ok(x) => rhs := rhs + [Some(x)];
          case bad => return bad;
        }
      }
    }
    return Ok(VStruct(rhs));
  }
}
