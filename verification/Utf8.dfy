/** The canonicaliser's UTF-8 check, the table of RFC 3629 it is meant to enforce, and how the two differ. */
module Utf8 {
  import opened Substring

  // ----- NUL-terminated text in a buffer

  predicate NulFree(s: string) {
    forall k :: 0 <= k < |s| ==> s[k] != '\0'
  }

  /** The buffer holds `s`, its terminating NUL, and anything behind it. */
  ghost predicate Holds(buf: array<char>, s: string)
    reads buf
  {
    NulFree(s) && |s| < buf.Length && buf[..|s|] == s && buf[|s|] == '\0'
  }

  /** The text up to the first NUL, as a NUL-terminated reader sees it. */
  function CString(s: string): (t: string)
    ensures NulFree(t) && |t| <= |s|
  {
    if s == "" || s[0] == '\0' then "" else [s[0]] + CString(s[1..])
  }

  lemma {:induction false} CStringWhole(s: string)
    requires NulFree(s)
    ensures CString(s) == s
    decreases |s|
  {
    if s == "" {
    } else {
      CStringWhole(s[1..]);
    }
  }

  /** A reader stops at the first NUL. */
  lemma {:induction false} CStringCut(a: string, b: string)
    requires NulFree(a)
    ensures CString(a + ("\0" + b)) == a
    decreases |a|
  {
    var s := a + ("\0" + b);
    if a == "" {
    } else {
      assert s[1..] == a[1..] + ("\0" + b);
      CStringCut(a[1..], b);
    }
  }

  // ----- units

  predicate Continuation(c: char) { 0x80 <= c as int < 0xC0 }

  /** The length a lead byte announces, or 0 when the byte leads nothing. */
  function UnitLength(c: char): nat {
    var v := c as int;
    if v < 0x80 then 1
    else if 0xC0 <= v < 0xE0 then 2
    else if 0xE0 <= v < 0xF0 then 3
    else if 0xF0 <= v < 0xF8 then 4
    else 0
  }

  /** A lead byte with exactly the continuation bytes it announces. */
  predicate Unit(u: string) {
    u != "" && |u| == UnitLength(u[0]) && forall i :: 1 <= i < |u| ==> Continuation(u[i])
  }

  /** The byte that excludes overlong forms, surrogates and values above 10FFFF, for a lead that needs it. */
  predicate InRange(lead: char, b: char) {
    var v, w := lead as int, b as int;
    && (v == 0xE0 ==> w >= 0xA0) && (v == 0xED ==> w < 0xA0)
    && (v == 0xF0 ==> w >= 0x90) && (v == 0xF4 ==> w < 0x90)
  }

  predicate LeadInUse(c: char) {
    var v := c as int;
    v < 0x80 || 0xC2 <= v <= 0xF4
  }

  /** Section 4 of RFC 3629: the second byte is in the range its lead byte allows. */
  predicate Rfc3629(u: string) {
    Unit(u) && LeadInUse(u[0]) && (|u| >= 3 ==> InRange(u[0], u[1]))
  }

  /** The check as coded: the same table, applied to the third byte. */
  predicate Coded(u: string) {
    Unit(u) && LeadInUse(u[0]) && (|u| >= 3 ==> InRange(u[0], u[2]))
  }

  predicate AllUnits(s: string, test: string -> bool)
    decreases |s|
  {
    s == "" || (0 < UnitLength(s[0]) <= |s| && test(s[..UnitLength(s[0])]) && AllUnits(s[UnitLength(s[0])..], test))
  }

  predicate WellFormed(s: string) { AllUnits(s, Rfc3629) }

  predicate Accepted(s: string) { AllUnits(s, Coded) }

  // ----- the loop

  /** The accumulated value: the lead's payload, then six bits from each byte behind the ones checked. */
  function Value(payload: nat, low: seq<nat>): nat {
    if low == [] then payload else Value(payload, low[..|low| - 1]) * 64 + low[|low| - 1]
  }

  /** The smallest value a unit of each length may have. */
  function MinValue(n: nat): nat {
    if n == 2 then 0x80 else if n == 3 then 0x800 else 0x10000
  }

  function Payload(c: char): nat {
    var v := c as int;
    if v < 0xE0 then v % 0x20 else if v < 0xF0 then v % 0x10 else v % 0x08
  }

  lemma ValueOf(payload: nat, low: seq<nat>)
    requires 1 <= |low| <= 3 && payload < 0x20 && forall x :: x in low ==> x < 64
    requires |low| == 2 ==> payload < 0x10
    requires |low| == 3 ==> payload < 0x08
    ensures |low| == 1 ==> Value(payload, low) == payload * 64 + low[0]
    ensures |low| == 2 ==> Value(payload, low) == payload * 0x1000 + low[0] * 64 + low[1]
    ensures |low| == 3 ==> Value(payload, low) == payload * 0x4_0000 + low[0] * 0x1000 + low[1] * 64 + low[2]
    ensures Value(payload, low) < 0x20_0000
  {
    var n := |low|;
    assert forall i :: 0 <= i < n ==> low[i] in low;
    assert low[..1][..0] == [];
    if n == 2 {
      assert low[..n - 1] == low[..1];
    } else if n == 3 {
      assert low[..2][..1] == low[..1];
    }
    assert low[..n] == low;
  }

  /** The three range tests on the value come to one test of the third byte; the byte behind the unit plays no part. */
  lemma RangeTests(u: string, low: seq<nat>)
    requires Unit(u) && |u| >= 2 && |low| == |u| - 1 && forall x :: x in low ==> x < 64
    requires forall i :: 0 <= i < |low| - 1 ==> low[i] == u[i + 2] as int - 0x80
    ensures var v := Value(Payload(u[0]), low);
            !(v < MinValue(|u|)) && !(0xD800 <= v <= 0xDFFF) && !(v > 0x10FFFF) <==> Coded(u)
  {
    ValueOf(Payload(u[0]), low);
    assert forall i :: 0 <= i < |low| ==> low[i] in low;
  }

  /** The continuation bytes behind the lead at `pos`, while the value grows by the byte behind each. */
  method ReadTail(buf: array<char>, pos: nat, nb: nat, payload: nat, ghost s: string)
    returns (ok: bool, next: nat, v: nat, ghost low: seq<nat>)
    requires Holds(buf, s) && pos < |s|
    ensures ok <==> pos + nb < |s| && forall k :: pos < k <= pos + nb ==> Continuation(s[k])
    ensures ok ==> next == pos + 1 + nb && |low| == nb && v == Value(payload, low)
    ensures ok ==> forall k :: 0 <= k < nb ==> low[k] < 64
    ensures ok ==> forall k :: 0 <= k < nb - 1 ==> low[k] == s[pos + 2 + k] as int % 64
  {
    v, low := payload, [];
    next := pos + 1;
    for i := 0 to nb
      invariant next == pos + 1 + i <= |s|
      invariant forall k :: pos < k < next ==> Continuation(s[k])
      invariant |low| == i && v == Value(payload, low)
      invariant forall k :: 0 <= k < i ==> low[k] == buf[pos + 2 + k] as int % 64
    {
      if !Continuation(buf[next]) {
        assert next < |s| ==> buf[next] == s[next];
        return false, next, v, low;
      }
      next := next + 1;
      v := v * 64 + buf[next] as int % 64;
      ValueNext(payload, low, buf[next] as int % 64);
      low := low + [buf[next] as int % 64];
    }
    ok := true;
    assert forall k :: pos <= k < |s| ==> buf[k] == s[k];
  }

  /** The bits of the continuation bytes that were checked. */
  lemma LowBits(s: string, pos: nat, nb: nat, low: seq<nat>)
    requires pos + nb < |s| && |low| == nb
    requires forall k :: pos < k <= pos + nb ==> Continuation(s[k])
    requires forall k :: 0 <= k < nb ==> low[k] < 64
    requires forall k :: 0 <= k < nb - 1 ==> low[k] == s[pos + 2 + k] as int % 64
    ensures var u := s[pos..pos + 1 + nb];
            (forall i :: 0 <= i < nb - 1 ==> low[i] == u[i + 2] as int - 0x80) && forall x :: x in low ==> x < 64
  {
    var u := s[pos..pos + 1 + nb];
    forall i | 0 <= i < nb - 1 ensures low[i] == u[i + 2] as int - 0x80 {
      assert u[i + 2] == s[pos + 2 + i] && Continuation(s[pos + 2 + i]);
    }
  }

  lemma ValueNext(payload: nat, low: seq<nat>, b: nat)
    ensures Value(payload, low + [b]) == Value(payload, low) * 64 + b
  {
    assert (low + [b])[..|low|] == low;
  }

  /** One multi-byte unit at `pos`; `next` is where the following one starts. */
  method ValidateUnit(buf: array<char>, pos: nat, ghost s: string) returns (ok: bool, next: nat)
    requires Holds(buf, s) && pos < |s| && buf[pos] as int >= 0x80
    ensures ok <==> 0 < UnitLength(s[pos]) <= |s| - pos && Coded(s[pos..pos + UnitLength(s[pos])])
    ensures ok ==> next == pos + UnitLength(s[pos])
  {
    var lead := buf[pos] as int;
    var v, minv, nb: nat;
    if 0xC0 <= lead < 0xE0 {
      v, minv, nb := lead % 0x20, 0x80, 1;
    } else if 0xE0 <= lead < 0xF0 {
      v, minv, nb := lead % 0x10, 0x800, 2;
    } else if 0xF0 <= lead < 0xF8 {
      v, minv, nb := lead % 0x08, 0x10000, 3;
    } else {
      return false, pos;
    }
    ghost var low;
    ok, next, v, low := ReadTail(buf, pos, nb, v, s);
    UnitAt(s, pos, nb + 1);
    if !ok {
      return;
    }
    LowBits(s, pos, nb, low);
    RangeTests(s[pos..next], low);
    ok := !(v < minv) && !(0xD800 <= v <= 0xDFFF) && !(v > 0x10FFFF);
  }

  lemma UnitAt(s: string, pos: nat, n: nat)
    requires pos < |s| && n == UnitLength(s[pos]) > 0
    ensures pos + n <= |s| ==>
              (Unit(s[pos..pos + n]) <==> forall k :: pos < k < pos + n ==> Continuation(s[k]))
  {
    if pos + n <= |s| {
      var u := s[pos..pos + n];
      assert forall k :: pos <= k < pos + n ==> u[k - pos] == s[k];
      assert forall i :: 0 <= i < n ==> u[i] == s[pos + i];
    }
  }

  method UrlUtf8Validate(buf: array<char>, ghost s: string) returns (rv: int)
    requires Holds(buf, s)
    ensures rv == 0 <==> Accepted(s)
  {
    var pos := 0;
    while buf[pos] != '\0'
      invariant pos <= |s|
      invariant Accepted(s) <==> Accepted(s[pos..])
      decreases |s| - pos
    {
      assert pos < |s| && s[pos..][0] == s[pos];
      ghost var n := UnitLength(s[pos]);
      assert pos + n <= |s| ==> s[pos..][..n] == s[pos..pos + n] && s[pos..][n..] == s[pos + n..];
      if buf[pos] as int < 0x80 {
        pos := pos + 1;
        continue;
      }
      var ok, next := ValidateUnit(buf, pos, s);
      if !ok {
        return -1;
      }
      pos := next;
    }
    return 0;
  }

  // ----- units of an accepted text

  lemma ConcatEmpty(vs: seq<string>)
    requires forall v :: v in vs ==> Unit(v)
    ensures Concat(vs) == "" ==> vs == []
  {
    if vs != [] { assert vs[0] in vs; }
  }

  /** A text falls into units in at most one way; it is accepted exactly when each of them passes the check. */
  lemma {:induction false} UnitsUnique(s: string, us: seq<string>, vs: seq<string>)
    requires Concat(us) == s == Concat(vs)
    requires (forall u :: u in us ==> Unit(u)) && (forall v :: v in vs ==> Unit(v))
    ensures us == vs
    ensures Accepted(s) <==> forall u :: u in us ==> Coded(u)
    decreases |us|
  {
    if us == [] {
      ConcatEmpty(vs);
    } else {
      var u, n := us[0], |us[0]|;
      assert u in us && s[0] == u[0];
      assert vs[0] in vs && s[0] == vs[0][0];
      UnitFirst(u, Concat(us[1..]));
      UnitFirst(vs[0], Concat(vs[1..]));
      UnitsUnique(s[n..], us[1..], vs[1..]);
      assert us == [u] + us[1..] && vs == [u] + vs[1..];
      assert Accepted(s) <==> Coded(u) && Accepted(s[n..]);
    }
  }

  lemma {:induction false} SplitAccepted(s: string) returns (us: seq<string>)
    requires Accepted(s)
    ensures Concat(us) == s && forall u :: u in us ==> Coded(u)
    decreases |s|
  {
    if s == "" {
      us := [];
    } else {
      var n := UnitLength(s[0]);
      var rest := SplitAccepted(s[n..]);
      us := [s[..n]] + rest;
      assert us[1..] == rest && s == s[..n] + s[n..];
    }
  }

  /** Accepted are exactly the texts that can be put together from units that pass the check. */
  lemma AcceptedUnits(s: string)
    ensures Accepted(s) <==> exists us :: Concat(us) == s && forall u :: u in us ==> Coded(u)
  {
    if Accepted(s) {
      var us := SplitAccepted(s);
    }
    forall us | Concat(us) == s && (forall u :: u in us ==> Coded(u)) ensures Accepted(s) {
      UnitsUnique(s, us, us);
    }
  }

  // ----- against RFC 3629

  function SwapUnit(u: string): string {
    if |u| >= 3 then [u[0], u[2], u[1]] + u[3..] else u
  }

  /** The second and third byte of every longer unit exchanged, up to the first place where no unit stands. */
  function Swap(s: string): string
    decreases |s|
  {
    if s == "" then ""
    else
      var n := UnitLength(s[0]);
      if 0 < n <= |s| && Unit(s[..n]) then SwapUnit(s[..n]) + Swap(s[n..]) else s
  }

  lemma SwapUnitFacts(u: string)
    requires Unit(u)
    ensures Unit(SwapUnit(u)) && SwapUnit(SwapUnit(u)) == u && |SwapUnit(u)| == |u| && SwapUnit(u)[0] == u[0]
    ensures Coded(u) <==> Rfc3629(SwapUnit(u))
  {
  }

  lemma UnitFirst(u: string, rest: string)
    requires Unit(u)
    ensures var t := u + rest;
            t[0] == u[0] && UnitLength(t[0]) == |u| <= |t| && t[..|u|] == u && t[|u|..] == rest
  {
  }

  /** What the check accepts is what RFC 3629 allows once the second and third bytes have changed places. */
  lemma {:induction false} AcceptsSwapped(s: string)
    ensures Accepted(s) <==> WellFormed(Swap(s))
    ensures Swap(Swap(s)) == s
    decreases |s|
  {
    if s == "" {
    } else {
      var n := UnitLength(s[0]);
      if 0 < n <= |s| && Unit(s[..n]) {
        var u, rest := s[..n], s[n..];
        SwapUnitFacts(u);
        AcceptsSwapped(rest);
        UnitFirst(SwapUnit(u), Swap(rest));
        assert s == u + rest;
      }
    }
  }

  /** The leads for which one continuation byte has a narrower range than the others. */
  predicate Narrowing(c: char) { c as int in {0xE0, 0xED, 0xF0, 0xF4} }

  /** The unit holds a byte in range where the other of the two tests looks at one out of range. */
  predicate Parts(u: string)
    requires Unit(u)
  {
    |u| >= 3 && InRange(u[0], u[1]) != InRange(u[0], u[2])
  }

  /** On one unit the check and RFC 3629 part exactly when a narrowing lead has just one of the two bytes in range. */
  lemma UnitAgreement(u: string)
    requires Unit(u)
    ensures (Coded(u) <==> Rfc3629(u)) <==> !Parts(u)
    ensures Parts(u) ==> Narrowing(u[0])
  {
  }

  lemma {:induction false} AllUnitsOf(us: seq<string>, test: string -> bool)
    requires forall u :: u in us ==> Unit(u)
    ensures AllUnits(Concat(us), test) <==> forall u :: u in us ==> test(u)
    decreases |us|
  {
    if us == [] {
    } else {
      var u := us[0];
      assert u in us && us == [u] + us[1..];
      UnitFirst(u, Concat(us[1..]));
      AllUnitsOf(us[1..], test);
    }
  }

  /** A text that one of the two accepts is accepted by the other if and only if none of its units is such a one. */
  lemma TextAgreement(us: seq<string>)
    requires forall u :: u in us ==> Unit(u)
    ensures var s := Concat(us);
            Accepted(s) || WellFormed(s) ==> (Accepted(s) && WellFormed(s) <==> forall u :: u in us ==> !Parts(u))
  {
    AllUnitsOf(us, Coded);
    AllUnitsOf(us, Rfc3629);
    forall u | u in us ensures (Coded(u) <==> Rfc3629(u)) <==> !Parts(u) {
      UnitAgreement(u);
    }
  }

  /** Without a narrowing lead the check accepts exactly the well-formed texts. */
  lemma {:induction false} AgreesWithRfc(s: string)
    requires forall k :: 0 <= k < |s| ==> !Narrowing(s[k])
    ensures Accepted(s) <==> WellFormed(s)
    decreases |s|
  {
    if s == "" {
    } else {
      var n := UnitLength(s[0]);
      if 0 < n <= |s| {
        if Unit(s[..n]) { UnitAgreement(s[..n]); }
        AgreesWithRfc(s[n..]);
      }
    }
  }

  /** U+0800 is refused and an overlong form of U+0020 is let through. */
  lemma Disagreement()
    ensures var legal, overlong := "\U{E0}\U{A0}\U{80}", "\U{E0}\U{80}\U{A0}";
            && WellFormed(legal) && !Accepted(legal)
            && !WellFormed(overlong) && Accepted(overlong)
  {
    var legal, overlong := "\U{E0}\U{A0}\U{80}", "\U{E0}\U{80}\U{A0}";
    assert legal[..3] == legal && legal[3..] == "";
    assert overlong[..3] == overlong && overlong[3..] == "";
  }

  // ----- code points

  /** Code points that are no surrogates. */
  predicate Scalar(v: nat) { v < 0xD800 || 0xE000 <= v < 0x11_0000 }

  function Tail(v: nat): char { (0x80 + v % 64) as char }

  /** Section 3 of RFC 3629: the bits of a code point in the shortest unit that holds them. */
  function UnitOf(v: nat): string
    requires Scalar(v)
  {
    if v < 0x80 then [v as char]
    else if v < 0x800 then [(0xC0 + v / 64) as char, Tail(v)]
    else if v < 0x1_0000 then [(0xE0 + v / 64 / 64) as char, Tail(v / 64), Tail(v)]
    else [(0xF0 + v / 64 / 64 / 64) as char, Tail(v / 64 / 64), Tail(v / 64), Tail(v)]
  }

  lemma Low(hi: nat, lo: nat)
    requires lo < 64
    ensures (hi * 64 + lo) / 64 == hi && (hi * 64 + lo) % 64 == lo
  {
  }

  lemma UnitLegal(v: nat)
    requires Scalar(v)
    ensures Rfc3629(UnitOf(v))
  {
    var u := UnitOf(v);
    if v >= 0x80 {
      assert Continuation(Tail(v)) && Continuation(Tail(v / 64)) && Continuation(Tail(v / 64 / 64));
    }
  }

  lemma LegalUnit(u: string) returns (v: nat)
    requires Rfc3629(u)
    ensures Scalar(v) && UnitOf(v) == u
  {
    var a := u[0] as int;
    if |u| == 1 {
      v := a;
    } else if |u| == 2 {
      assert Continuation(u[1]);
      v := (a - 0xC0) * 64 + (u[1] as int - 0x80);
      Low(a - 0xC0, u[1] as int - 0x80);
    } else if |u| == 3 {
      assert Continuation(u[1]) && Continuation(u[2]);
      var m := (a - 0xE0) * 64 + (u[1] as int - 0x80);
      v := m * 64 + (u[2] as int - 0x80);
      Low(a - 0xE0, u[1] as int - 0x80);
      Low(m, u[2] as int - 0x80);
    } else {
      assert Continuation(u[1]) && Continuation(u[2]) && Continuation(u[3]);
      var k := (a - 0xF0) * 64 + (u[1] as int - 0x80);
      var m := k * 64 + (u[2] as int - 0x80);
      v := m * 64 + (u[3] as int - 0x80);
      Low(a - 0xF0, u[1] as int - 0x80);
      Low(k, u[2] as int - 0x80);
      Low(m, u[3] as int - 0x80);
    }
  }

  /** The table of section 4 allows exactly the units of section 3. */
  lemma LegalExactly(u: string)
    ensures Rfc3629(u) <==> exists v :: Scalar(v) && UnitOf(v) == u
  {
    if Rfc3629(u) {
      var v := LegalUnit(u);
    }
    forall v | Scalar(v) && UnitOf(v) == u ensures Rfc3629(u) {
      UnitLegal(v);
    }
  }
}
