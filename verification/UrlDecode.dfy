/** The plain percent decoder, writing into a caller's buffer of limited size. */
module UrlDecode {
  import opened Options
  import opened UrlText
  import opened UrlCanonify
  import opened Utf8

  lemma DecodeFrom(s: string, src: nat, done: string)
    requires src < |s|
    ensures var t := s[src..];
            Prefixed(done, Decode(t)) ==
            if t[0] != '%' then Prefixed(done + [t[0]], Decode(s[src + 1..]))
            else if Escape(t) then Prefixed(done + [HexByte(t[1], t[2]) as char], Decode(s[src + 3..]))
            else None
  {
    var t := s[src..];
    assert t[1..] == s[src + 1..];
    if t[0] != '%' {
      PrefixedTwice(done, [t[0]], Decode(t[1..]));
    } else if Escape(t) {
      assert t[3..] == s[src + 3..];
      PrefixedTwice(done, [HexByte(t[1], t[2]) as char], Decode(t[3..]));
    }
  }

  /** -1 stands for the largest value of the return type, which reports failure. */
  method NniUrlDecode(out: array<char>, input: array<char>, maxLen: nat, ghost s: string) returns (len: int)
    requires Holds(input, s) && out != input && maxLen <= out.Length
    modifies out
    ensures len == -1 || 0 <= len <= maxLen
    ensures len >= 0 <==> Decode(s).Some? && |Decode(s).value| <= maxLen
    ensures len >= 0 ==> Decode(s) == Some(out[..len])
  {
    len := 0;
    var src := 0;
    ghost var done := "";
    assert s[0..] == s;
    PrefixedNone(Decode(s));
    while input[src] != '\0'
      invariant src <= |s| && Holds(input, s)
      invariant 0 <= len <= maxLen && out[..len] == done
      invariant Prefixed(done, Decode(s[src..])) == Decode(s)
      decreases |s| - src
    {
      DecodeFrom(s, src, done);
      if len >= maxLen {
        return -1;
      }
      assert forall k :: 0 <= k < |s| ==> input[k] == s[k];
      if input[src] == '%' {
        src := src + 1;
        if !IsHex(input[src]) || !IsHex(input[src + 1]) {
          return -1;
        }
        var c := HexByte(input[src], input[src + 1]);
        out[len] := c as char;
        src := src + 2;
      } else {
        out[len] := input[src];
        src := src + 1;
      }
      done := done + [out[len]];
      len := len + 1;
    }
    assert s[src..] == "" && done + "" == done;
  }
}
