/** First occurrences of one text inside another, and how they move when the text grows or loses a prefix. */
module Substring {

  predicate OccursAt(t: string, s: string, i: nat) {
    i + |s| <= |t| && t[i..i + |s|] == s
  }

  /** The first index from `i` on at which `s` occurs in `t`, or `|t|` when there is none. */
  function FindFrom(t: string, s: string, i: nat): (p: nat)
    requires s != "" && i <= |t|
    ensures i <= p <= |t| && (p < |t| ==> p + |s| <= |t|)
    decreases |t| - i
  {
    if i == |t| || OccursAt(t, s, i) then i else FindFrom(t, s, i + 1)
  }

  function Find(t: string, s: string): (p: nat)
    requires s != ""
    ensures p <= |t| && (p < |t| ==> p + |s| <= |t|)
  {
    FindFrom(t, s, 0)
  }

  ghost predicate NoneBefore(t: string, s: string, p: nat) {
    forall k :: 0 <= k < p ==> !OccursAt(t, s, k)
  }

  lemma {:induction false} FindFromFirst(t: string, s: string, i: nat)
    requires s != "" && i <= |t|
    ensures var p := FindFrom(t, s, i);
            && (p < |t| ==> OccursAt(t, s, p))
            && forall k :: i <= k < p ==> !OccursAt(t, s, k)
    decreases |t| - i
  {
    if i == |t| || OccursAt(t, s, i) {
    } else {
      FindFromFirst(t, s, i + 1);
    }
  }

  /** `Find` returns the first occurrence, and the length of the text exactly when there is none. */
  lemma FindFirst(t: string, s: string)
    requires s != ""
    ensures NoneBefore(t, s, Find(t, s))
    ensures Find(t, s) < |t| ==> OccursAt(t, s, Find(t, s))
  {
    FindFromFirst(t, s, 0);
  }

  /** Being the first occurrence, or the length when there is none, determines the result. */
  lemma FindUnique(t: string, s: string, p: nat)
    requires s != "" && p <= |t| && NoneBefore(t, s, p)
    requires p < |t| ==> OccursAt(t, s, p)
    ensures Find(t, s) == p
  {
    FindFirst(t, s);
  }

  lemma OccursInPrefix(t: string, y: string, s: string, i: nat)
    requires i + |s| <= |t|
    ensures OccursAt(t + y, s, i) <==> OccursAt(t, s, i)
  {
    assert (t + y)[i..i + |s|] == t[i..i + |s|];
  }

  lemma OccursInSuffix(t: string, n: nat, s: string, i: nat)
    requires n <= |t|
    ensures OccursAt(t, s, n + i) <==> OccursAt(t[n..], s, i)
  {
    if n + i + |s| <= |t| {
      assert t[n + i..n + i + |s|] == t[n..][i..i + |s|];
    }
  }

  /** The text at its first occurrence. */
  lemma FindCut(t: string, s: string)
    requires s != "" && Find(t, s) < |t|
    ensures var p := Find(t, s);
            t == t[..p] + (s + t[p + |s|..]) && Find(t[..p] + s, s) == p
  {
    var p := Find(t, s);
    FindFirst(t, s);
    var u := t[..p] + s;
    assert t[p..p + |s|] == s;
    assert t == u + t[p + |s|..];
    forall k | 0 <= k < p ensures !OccursAt(u, s, k) {
      if k + |s| <= |u| { OccursInPrefix(u, t[p + |s|..], s, k); }
    }
    assert u[p..p + |s|] == s;
    FindUnique(u, s, p);
  }

  /** An occurrence that is already there stays the first one when text is appended. */
  lemma FindStable(t: string, y: string, s: string)
    requires s != "" && Find(t, s) < |t|
    ensures Find(t + y, s) == Find(t, s)
  {
    var p := Find(t, s);
    FindFirst(t, s);
    OccursInPrefix(t, y, s, p);
    forall k | 0 <= k < p ensures !OccursAt(t + y, s, k) {
      OccursInPrefix(t, y, s, k);
    }
    FindUnique(t + y, s, p);
  }

  /** Dropping a prefix in which no occurrence starts moves the first occurrence by its length. */
  lemma FindShift(t: string, n: nat, s: string)
    requires s != "" && n <= |t| && NoneBefore(t, s, n)
    ensures Find(t, s) == n + Find(t[n..], s)
  {
    var q := Find(t[n..], s);
    FindFirst(t[n..], s);
    OccursInSuffix(t, n, s, q);
    forall k | n <= k < n + q ensures !OccursAt(t, s, k) {
      OccursInSuffix(t, n, s, k - n);
    }
    FindUnique(t, s, n + q);
  }

  /** What comes before does not matter when no occurrence starts in it. */
  lemma FindBehind(x: string, y: string, s: string)
    requires s != "" && Find(x + y, s) >= |x|
    ensures var k, m := Find(x + y, s), Find(y, s);
            k == |x| + m && (m < |y| ==> (x + y)[k + |s|..] == y[m + |s|..])
  {
    FindFirst(x + y, s);
    FindShift(x + y, |x|, s);
    Joined(x, y);
    if Find(y, s) < |y| { CutTwice(x + y, |x|, Find(y, s) + |s|); }
  }

  /** When the text holds no occurrence, one that appending creates reaches into the new text. */
  lemma FindLate(t: string, y: string, s: string)
    requires s != "" && Find(t, s) == |t|
    ensures Find(t + y, s) + |s| > |t|
  {
    var p := Find(t + y, s);
    FindFirst(t, s);
    FindFirst(t + y, s);
    if p + |s| <= |t| {
      OccursInPrefix(t, y, s, p);
    }
  }

  /**
   A delimiter whose first character does not come back inside it cannot straddle the place where it
   was planted: it is found exactly there when the text before it does not contain it.
   */
  lemma FindPlanted(a: string, s: string, rest: string)
    requires s != "" && Find(a, s) == |a|
    requires forall k :: 1 <= k < |s| ==> s[k] != s[0]
    ensures Find(a + s + rest, s) == |a|
  {
    var t := a + s + rest;
    FindFirst(a, s);
    assert OccursAt(t, s, |a|) by { assert t[|a|..|a| + |s|] == s; }
    forall k | 0 <= k < |a| ensures !OccursAt(t, s, k) {
      if k + |s| <= |a| {
        assert t == a + (s + rest);
        OccursInPrefix(a, s + rest, s, k);
      } else {
        assert t[|a|] == s[0] != s[|a| - k];
        assert k + |s| <= |t| ==> t[k..k + |s|][|a| - k] == t[|a|];
      }
    }
    FindUnique(t, s, |a|);
  }

  lemma CutTwice<T>(t: seq<T>, n: nat, k: nat)
    requires n + k <= |t|
    ensures t[n..][k..] == t[n + k..] && t[..n + k] == t[..n] + t[n..][..k]
  {
  }

  lemma Joined<T>(a: seq<T>, b: seq<T>)
    ensures (a + b)[..|a|] == a && (a + b)[|a|..] == b
  {
  }

  lemma Extended<T>(t: seq<T>, y: seq<T>, n: nat)
    requires n <= |t|
    ensures (t + y)[..n] == t[..n] && (t + y)[n..] == t[n..] + y
  {
  }

  lemma NoneAround<T>(x: seq<T>)
    ensures [] + x == x && x + [] == x
  {
  }

  lemma Assoc<T>(x: seq<T>, y: seq<T>, z: seq<T>)
    ensures x + (y + z) == (x + y) + z
  {
  }

  /** A list of texts joined without anything between them. */
  function Concat(parts: seq<string>): string {
    if parts == [] then "" else parts[0] + Concat(parts[1..])
  }

  // ----- single characters

  /** What isspace holds of, and \s matches. */
  predicate Space(c: char) { c == ' ' || '\t' <= c <= '\r' }

  /** The first place of `c` from `i` on, or the length. */
  function IndexFrom(s: string, c: char, i: nat): (n: nat)
    requires i <= |s|
    ensures i <= n <= |s| && (n < |s| ==> s[n] == c)
    decreases |s| - i
  {
    if i == |s| || s[i] == c then i else IndexFrom(s, c, i + 1)
  }

  function IndexOf(s: string, c: char): (n: nat)
    ensures n <= |s| && (n < |s| ==> s[n] == c)
  {
    IndexFrom(s, c, 0)
  }

  lemma {:induction false} IndexIs(s: string, c: char, i: nat, n: nat)
    requires i <= n <= |s| && (n < |s| ==> s[n] == c)
    requires forall k :: i <= k < n ==> s[k] != c
    ensures IndexFrom(s, c, i) == n
    decreases n - i
  {
    if i == n {
    } else {
      IndexIs(s, c, i + 1, n);
    }
  }

  lemma {:induction false} NoneBeforeIndex(s: string, c: char, i: nat)
    requires i <= |s|
    ensures forall k :: i <= k < IndexFrom(s, c, i) ==> s[k] != c
    decreases |s| - i
  {
    if i == |s| || s[i] == c {
    } else {
      NoneBeforeIndex(s, c, i + 1);
    }
  }

  lemma {:induction false} IndexSkip(s: string, c: char, i: nat, j: nat)
    requires i <= j <= |s| && forall k :: i <= k < j ==> s[k] != c
    ensures IndexFrom(s, c, i) == IndexFrom(s, c, j)
    decreases j - i
  {
    if i == j {
    } else {
      IndexSkip(s, c, i + 1, j);
    }
  }

  lemma {:induction false} IndexBehind(a: string, s: string, c: char, i: nat)
    requires i <= |s|
    ensures IndexFrom(a + s, c, |a| + i) == |a| + IndexFrom(s, c, i)
    decreases |s| - i
  {
    if i == |s| {
    } else {
      assert (a + s)[|a| + i] == s[i];
      if s[i] != c { IndexBehind(a, s, c, i + 1); }
    }
  }
}
