/** Decoding undoes encoding, and looks at nothing but the first value under each declared key. */
module JsonRoundTrip {
  import opened Options
  import opened Json

  // ----- integers

  lemma PowSplit(bits: nat)
    requires bits > 0
    ensures Pow2(bits) == 2 * Pow2(bits - 1)
  {
  }

  lemma WrapFits(n: int, bits: nat, signed: bool)
    requires Fits(n, bits, signed)
    ensures Wrap(n, bits, signed) == n
  {
    if signed && bits > 0 { PowSplit(bits); }
    if n < 0 { ModNegative(n, Pow2(bits)); } else { ModSmall(n, Pow2(bits)); }
  }

  lemma ModSmall(n: nat, p: nat)
    requires n < p
    ensures n % p == n
  {
  }

  lemma ModNegative(n: int, p: nat)
    requires p > 0 && 0 - p <= n < 0
    ensures n % p == n + p
  {
    var q := n / p;
    assert n == q * p + n % p;
    MulMono(q, 0, p);
    MulMono(-2, q, p);
  }

  lemma MulMono(a: int, b: int, p: nat)
    ensures a >= b ==> a * p >= b * p
  {
    if a >= b { assert (a - b) * p >= 0; }
  }

  lemma FitsWrap(n: int, bits: nat, signed: bool)
    ensures Fits(Wrap(n, bits, signed), bits, signed)
  {
    if signed && bits > 0 { PowSplit(bits); }
  }

  // ----- round trip

  lemma {:induction false} LookupEncoded(fields: seq<Field>, members: seq<Option<Value>>, i: nat)
    requires |members| == |fields| && DistinctKeys(fields) && i < |fields|
    requires forall k :: 0 <= k < |fields| ==> HasMember(fields[k], members[k])
    ensures Lookup(EncodeFields(fields, members), fields[i].key) ==
            match members[i]
            case None => None
            case Some(v) => assert HasMember(fields[i], members[i]); Some(Encode(fields[i].kind, v))
    decreases |fields|
  {
    var rest := EncodeFields(fields[1..], members[1..]);
    assert HasMember(fields[0], members[0]);
    if i > 0 {
      LookupEncoded(fields[1..], members[1..], i - 1);
      assert fields[0].key != fields[i].key;
      if members[0].Some? {
        assert EncodeFields(fields, members)[1..] == rest;
      }
    } else {
      LookupOther(fields[1..], members[1..], fields[0].key);
    }
  }

  lemma {:induction false} LookupOther(fields: seq<Field>, members: seq<Option<Value>>, key: string)
    requires |members| == |fields| && forall k :: 0 <= k < |fields| ==> HasMember(fields[k], members[k])
    requires forall k :: 0 <= k < |fields| ==> fields[k].key != key
    ensures Lookup(EncodeFields(fields, members), key) == None
    decreases |fields|
  {
    if fields == [] {
    } else {
      assert HasMember(fields[0], members[0]);
      LookupOther(fields[1..], members[1..], key);
      if members[0].Some? {
        assert EncodeFields(fields, members)[1..] == EncodeFields(fields[1..], members[1..]);
      }
    }
  }

  lemma EncodedNotNull(t: Type, v: Value)
    requires HasType(t, v)
    ensures !Encode(t, v).JNull?
  {
  }

  /** Round trip: decoding an encoded value into an empty target gives the value back. */
  lemma {:induction false} RoundTrip(t: Type, v: Value)
    requires WellFormed(t) && HasType(t, v)
    ensures Decode(t, Encode(t, v), Empty(t)) == Ok(v)
    decreases t, 0
  {
    match t
    case TInt(bits, signed) => WrapFits(v.n, bits, signed);
    case TSeq(e) =>
      assert v.items[..0] == [];
      ItemsRound(e, v.items, 0);
    case TMap(e) =>
      assert v.entries[..0] == [];
      EntriesRound(e, v.entries, 0);
    case TStruct(fields) =>
      assert v.members[..0] == [] && fields[0..] == fields;
      FieldsRound(fields, fields, v.members, Empty(t).members, 0);
    case _ =>
  }

  function EncodeItems(e: Type, items: seq<Value>): seq<Json>
    requires forall i :: 0 <= i < |items| ==> HasType(e, items[i])
  {
    seq(|items|, i requires 0 <= i < |items| => Encode(e, items[i]))
  }

  lemma {:induction false} ItemsRound(e: Type, items: seq<Value>, n: nat)
    requires WellFormed(e) && n <= |items| && forall i :: 0 <= i < |items| ==> HasType(e, items[i])
    ensures DecodeItems(e, EncodeItems(e, items)[n..], items[..n]) == Ok(VSeq(items))
    decreases e, 1, |items| - n
  {
    var js := EncodeItems(e, items)[n..];
    if n < |items| {
      RoundTrip(e, items[n]);
      assert js[0] == Encode(e, items[n]) && js[1..] == EncodeItems(e, items)[n + 1..];
      assert items[..n] + [items[n]] == items[..n + 1];
      ItemsRound(e, items, n + 1);
    } else {
      assert items[..n] == items;
    }
  }

  function EncodeEntries(e: Type, entries: seq<Entry>): seq<Member>
    requires forall i :: 0 <= i < |entries| ==> HasType(e, entries[i].value)
  {
    seq(|entries|, i requires 0 <= i < |entries| => Member(entries[i].key, Encode(e, entries[i].value)))
  }

  lemma EmplaceNext(entries: seq<Entry>, n: nat)
    requires n < |entries| && forall i, j :: 0 <= i < j < |entries| ==> entries[i].key != entries[j].key
    ensures EmplaceEntry(entries[..n], entries[n]) == entries[..n + 1]
  {
  }

  lemma {:induction false} EntriesRound(e: Type, entries: seq<Entry>, n: nat)
    requires WellFormed(e) && n <= |entries| && forall i :: 0 <= i < |entries| ==> HasType(e, entries[i].value)
    requires forall i, j :: 0 <= i < j < |entries| ==> entries[i].key != entries[j].key
    ensures DecodeEntries(e, EncodeEntries(e, entries)[n..], entries[..n]) == Ok(VMap(entries))
    decreases e, 1, |entries| - n
  {
    var js := EncodeEntries(e, entries)[n..];
    if n < |entries| {
      RoundTrip(e, entries[n].value);
      assert js[0] == Member(entries[n].key, Encode(e, entries[n].value));
      assert js[1..] == EncodeEntries(e, entries)[n + 1..];
      assert Entry(entries[n].key, entries[n].value) == entries[n];
      EmplaceNext(entries, n);
      EntriesRound(e, entries, n + 1);
    } else {
      assert entries[..n] == entries;
    }
  }

  /** `rest` is what is left of the fields from `n` on. */
  lemma {:induction false} FieldsRound(fields: seq<Field>, rest: seq<Field>, members: seq<Option<Value>>,
                                       target: seq<Option<Value>>, n: nat)
    requires n <= |fields| && rest == fields[n..] && |members| == |target| == |fields|
    requires DistinctKeys(fields) && forall i :: 0 <= i < |fields| ==> WellFormed(fields[i].kind)
    requires forall i :: 0 <= i < |fields| ==> HasMember(fields[i], members[i])
    requires forall i :: 0 <= i < |fields| ==>
               target[i] == if fields[i].optional then None else Some(Empty(fields[i].kind))
    ensures DecodeFields(rest, EncodeFields(fields, members), target[n..], members[..n]) == Ok(VStruct(members))
    decreases rest, 1
  {
    if n < |fields| {
      var f := rest[0];
      assert HasMember(fields[n], members[n]);
      LookupEncoded(fields, members, n);
      if members[n].Some? {
        var v := members[n].value;
        RoundTrip(f.kind, v);
        EncodedNotNull(f.kind, v);
      }
      assert rest[1..] == fields[n + 1..] && target[n..][1..] == target[n + 1..];
      assert members[..n] + [members[n]] == members[..n + 1];
      FieldsRound(fields, rest[1..], members, target, n + 1);
    } else {
      assert members[..n] == members;
    }
  }

  // ----- what decoding produces

  /** Decoding into an empty target produces a value of the type. */
  lemma {:induction false} DecodedHasType(t: Type, js: Json, target: Value)
    requires WellFormed(t) && HasType(t, target) && Decode(t, js, target).Ok?
    ensures HasType(t, Decode(t, js, target).value)
    decreases t, 0
  {
    match t
    case TInt(bits, signed) =>
      if js.JInt? { FitsWrap(js.n, bits, signed); } else { assert Pow2(bits) > 0; }
    case TSeq(e) => DecodedItems(e, js.items, target.items);
    case TMap(e) => DecodedEntries(e, js.members, target.entries);
    case TStruct(fields) =>
      DecodedFields(fields, fields, js.members, target.members, [], 0);
    case _ =>
  }

  lemma {:induction false} EmptyHasType(t: Type)
    ensures HasType(t, Empty(t))
    decreases t
  {
    match t
    case TStruct(fields) =>
      forall i | 0 <= i < |fields| ensures HasMember(fields[i], Empty(t).members[i]) {
        EmptyHasType(fields[i].kind);
      }
    case _ =>
  }

  lemma {:induction false} DecodedItems(e: Type, items: seq<Json>, done: seq<Value>)
    requires WellFormed(e) && (forall i :: 0 <= i < |done| ==> HasType(e, done[i])) && DecodeItems(e, items, done).Ok?
    ensures HasType(TSeq(e), DecodeItems(e, items, done).value)
    decreases e, 1, |items|
  {
    if items == [] {
    } else {
      EmptyHasType(e);
      DecodedHasType(e, items[0], Empty(e));
      DecodedItems(e, items[1..], done + [Decode(e, items[0], Empty(e)).value]);
    }
  }

  lemma {:induction false} DecodedEntries(e: Type, members: seq<Member>, done: seq<Entry>)
    requires WellFormed(e) && HasType(TMap(e), VMap(done)) && DecodeEntries(e, members, done).Ok?
    ensures HasType(TMap(e), DecodeEntries(e, members, done).value)
    decreases e, 1, |members|
  {
    if members == [] {
    } else {
      EmptyHasType(e);
      DecodedHasType(e, members[0].value, Empty(e));
      var v := Decode(e, members[0].value, Empty(e)).value;
      DecodedEntries(e, members[1..], EmplaceEntry(done, Entry(members[0].key, v)));
    }
  }

  lemma {:induction false} DecodedFields(fields: seq<Field>, rest: seq<Field>, members: seq<Member>,
                                         target: seq<Option<Value>>, done: seq<Option<Value>>, n: nat)
    requires n <= |fields| && rest == fields[n..] && |target| == |rest| && |done| == n
    requires forall i :: 0 <= i < |fields| ==> WellFormed(fields[i].kind)
    requires forall i :: 0 <= i < |rest| ==> HasMember(rest[i], target[i])
    requires forall i :: 0 <= i < n ==> HasMember(fields[i], done[i])
    requires DecodeFields(rest, members, target, done).Ok?
    ensures HasType(TStruct(fields), DecodeFields(rest, members, target, done).value)
    decreases rest, 1
  {
    if n == |fields| {
    } else {
      var f := rest[0];
      var js := Lookup(members, f.key);
      assert HasMember(rest[0], target[0]);
      EmptyHasType(f.kind);
      if !(f.optional && (js.None? || js.value.JNull?)) {
        var into := if f.optional || target[0].None? then Empty(f.kind) else target[0].value;
        DecodedHasType(f.kind, js.value, into);
      }
      var m := DecodeMember(f, members, target[0]).m;
      assert rest[1..] == fields[n + 1..];
      DecodedFields(fields, rest[1..], members, target[1..], done + [m], n + 1);
    }
  }

  /** Decoding, encoding and decoding again is decoding. */
  lemma DecodeEncodeDecode(t: Type, js: Json)
    requires WellFormed(t) && Decode(t, js, Empty(t)).Ok?
    ensures var v := Decode(t, js, Empty(t)).value;
            HasType(t, v) && Decode(t, Encode(t, v), Empty(t)) == Decode(t, js, Empty(t))
  {
    EmptyHasType(t);
    DecodedHasType(t, js, Empty(t));
    RoundTrip(t, Decode(t, js, Empty(t)).value);
  }

  // ----- what decoding looks at

  /** Both values count as absent, or both are there and look the same to the field's type. */
  predicate SameMember(f: Field, a: Option<Json>, b: Option<Json>)
    decreases f
  {
    if f.optional && (a.None? || a.value.JNull?) then b.None? || b.value.JNull?
    else if a.None? then b.None?
    else b.Some? && !(f.optional && b.value.JNull?) && Alike(f.kind, a.value, b.value)
  }

  /** Trees that differ at most in what no struct of the type declares: order, later duplicates, undeclared members. */
  predicate Alike(t: Type, a: Json, b: Json)
    decreases t
  {
    match t
    case TSeq(e) =>
      if a.JArray? then
        b.JArray? && |a.items| == |b.items| && forall i :: 0 <= i < |a.items| ==> Alike(e, a.items[i], b.items[i])
      else !b.JArray?
    case TMap(e) =>
      if a.JObject? then
        && b.JObject? && |a.members| == |b.members|
        && forall i :: 0 <= i < |a.members| ==>
             a.members[i].key == b.members[i].key && Alike(e, a.members[i].value, b.members[i].value)
      else !b.JObject?
    case TStruct(fields) =>
      if a.JObject? then
        && b.JObject?
        && forall i :: 0 <= i < |fields| ==>
             SameMember(fields[i], Lookup(a.members, fields[i].key), Lookup(b.members, fields[i].key))
      else !b.JObject?
    case _ => a == b
  }

  /** Decoding cannot tell alike trees apart: same value, same failure. */
  lemma {:induction false} AlikeDecode(t: Type, a: Json, b: Json, target: Value)
    requires Alike(t, a, b)
    ensures Decode(t, a, target) == Decode(t, b, target)
    decreases t, 0
  {
    match t
    case TSeq(e) => if a.JArray? && target.VSeq? { AlikeItems(e, a.items, b.items, target.items); }
    case TMap(e) => if a.JObject? && target.VMap? { AlikeEntries(e, a.members, b.members, target.entries); }
    case TStruct(fields) =>
      if a.JObject? && target.VStruct? && |target.members| == |fields| {
        AlikeFields(fields, a.members, b.members, target.members, []);
      }
    case _ =>
  }

  lemma {:induction false} AlikeItems(e: Type, a: seq<Json>, b: seq<Json>, done: seq<Value>)
    requires |a| == |b| && forall i :: 0 <= i < |a| ==> Alike(e, a[i], b[i])
    ensures DecodeItems(e, a, done) == DecodeItems(e, b, done)
    decreases e, 1, |a|
  {
    if a == [] {
    } else {
      AlikeDecode(e, a[0], b[0], Empty(e));
      match Decode(e, a[0], Empty(e))
      case Ok(v) => AlikeItems(e, a[1..], b[1..], done + [v]);
      case _ =>
    }
  }

  lemma {:induction false} AlikeEntries(e: Type, a: seq<Member>, b: seq<Member>, done: seq<Entry>)
    requires |a| == |b| && forall i :: 0 <= i < |a| ==> a[i].key == b[i].key && Alike(e, a[i].value, b[i].value)
    ensures DecodeEntries(e, a, done) == DecodeEntries(e, b, done)
    decreases e, 1, |a|
  {
    if a == [] {
    } else {
      AlikeDecode(e, a[0].value, b[0].value, Empty(e));
      match Decode(e, a[0].value, Empty(e))
      case Ok(v) => AlikeEntries(e, a[1..], b[1..], EmplaceEntry(done, Entry(a[0].key, v)));
      case _ =>
    }
  }

  lemma {:induction false} AlikeFields(fields: seq<Field>, a: seq<Member>, b: seq<Member>,
                                       target: seq<Option<Value>>, done: seq<Option<Value>>)
    requires |target| == |fields|
    requires forall i :: 0 <= i < |fields| ==>
               SameMember(fields[i], Lookup(a, fields[i].key), Lookup(b, fields[i].key))
    ensures DecodeFields(fields, a, target, done) == DecodeFields(fields, b, target, done)
    decreases fields, 1
  {
    if fields == [] {
    } else {
      var f := fields[0];
      var x, y := Lookup(a, f.key), Lookup(b, f.key);
      assert SameMember(f, x, y);
      if x.Some? && y.Some? && !(f.optional && x.value.JNull?) {
        AlikeDecode(f.kind, x.value, y.value, if f.optional || target[0].None? then Empty(f.kind) else target[0].value);
      }
      assert DecodeMember(f, a, target[0]) == DecodeMember(f, b, target[0]);
      match DecodeMember(f, a, target[0])
      case Got(m) => AlikeFields(fields[1..], a, b, target[1..], done + [m]);
      case Bad(_) =>
    }
  }

  lemma {:induction false} AlikeSelf(t: Type, a: Json)
    ensures Alike(t, a, a)
    decreases t
  {
    match t
    case TSeq(e) =>
      if a.JArray? {
        forall i | 0 <= i < |a.items| ensures Alike(e, a.items[i], a.items[i]) { AlikeSelf(e, a.items[i]); }
      }
    case TMap(e) =>
      if a.JObject? {
        forall i | 0 <= i < |a.members| ensures Alike(e, a.members[i].value, a.members[i].value) {
          AlikeSelf(e, a.members[i].value);
        }
      }
    case TStruct(fields) =>
      if a.JObject? {
        forall i | 0 <= i < |fields|
          ensures SameMember(fields[i], Lookup(a.members, fields[i].key), Lookup(a.members, fields[i].key))
        {
          var x := Lookup(a.members, fields[i].key);
          if x.Some? { AlikeSelf(fields[i].kind, x.value); }
        }
      }
    case _ =>
  }

  // ----- two ways of making alike trees

  predicate DistinctMembers(members: seq<Member>) {
    forall i, j :: 0 <= i < j < |members| ==> members[i].key != members[j].key
  }

  lemma {:induction false} LookupIs(members: seq<Member>, i: nat)
    requires DistinctMembers(members) && i < |members|
    ensures Lookup(members, members[i].key) == Some(members[i].value)
    decreases i
  {
    if i == 0 {
    } else {
      assert members[1..][i - 1] == members[i];
      LookupIs(members[1..], i - 1);
    }
  }

  lemma {:induction false} LookupIn(members: seq<Member>, key: string)
    ensures Lookup(members, key).Some? ==>
              exists i :: 0 <= i < |members| && members[i] == Member(key, Lookup(members, key).value)
    ensures Lookup(members, key).None? ==> forall i :: 0 <= i < |members| ==> members[i].key != key
    decreases |members|
  {
    if members == [] {
    } else {
      LookupIn(members[1..], key);
      assert forall i :: 1 <= i < |members| ==> members[i] == members[1..][i - 1];
      if members[0].key == key { assert members[0] == Member(key, Lookup(members, key).value); }
      else if Lookup(members, key).Some? {
        var i :| 0 <= i < |members[1..]| && members[1..][i] == Member(key, Lookup(members, key).value);
        assert members[i + 1] == Member(key, Lookup(members, key).value);
      }
    }
  }

  /** The order of members with distinct keys does not matter. */
  lemma Permuted(fields: seq<Field>, a: seq<Member>, b: seq<Member>)
    requires multiset(a) == multiset(b) && DistinctMembers(a) && DistinctMembers(b)
    ensures Alike(TStruct(fields), JObject(a), JObject(b))
  {
    forall key ensures Lookup(a, key) == Lookup(b, key) {
      FoundInBoth(a, b, key);
      FoundInBoth(b, a, key);
    }
    AlikeSelf(TStruct(fields), JObject(a));
  }

  lemma FoundInBoth(a: seq<Member>, b: seq<Member>, key: string)
    requires multiset(a) == multiset(b) && DistinctMembers(b)
    ensures Lookup(a, key).Some? ==> Lookup(b, key) == Lookup(a, key)
  {
    LookupIn(a, key);
    if Lookup(a, key).Some? {
      var m := Member(key, Lookup(a, key).value);
      assert m in multiset(a) && m in multiset(b) && m in b;
      var i :| 0 <= i < |b| && b[i] == m;
      LookupIs(b, i);
    }
  }

  /** A member nobody declares, or one behind an earlier member of the same key, may be put in anywhere. */
  lemma Inserted(fields: seq<Field>, a: seq<Member>, b: seq<Member>, m: Member)
    requires (forall i :: 0 <= i < |fields| ==> fields[i].key != m.key) || Lookup(a, m.key).Some?
    ensures Alike(TStruct(fields), JObject(a + b), JObject(a + [m] + b))
  {
    forall i | 0 <= i < |fields|
      ensures Lookup(a + [m] + b, fields[i].key) == Lookup(a + b, fields[i].key)
    {
      LookupConcat(a, b, fields[i].key);
      LookupConcat(a + [m], b, fields[i].key);
      LookupConcat(a, [m], fields[i].key);
    }
    AlikeSelf(TStruct(fields), JObject(a + b));
  }

  lemma {:induction false} LookupConcat(a: seq<Member>, b: seq<Member>, key: string)
    ensures Lookup(a + b, key) == if Lookup(a, key).Some? then Lookup(a, key) else Lookup(b, key)
    decreases |a|
  {
    if a == [] {
      assert a + b == b;
    } else {
      assert (a + b)[1..] == a[1..] + b;
      LookupConcat(a[1..], b, key);
    }
  }
}
