/** What an escape stands for: percent-encoding any text, in any way, and decoding it again. */
module UrlEscapes {
  import opened Options
  import opened UrlText

  const UPPER_DIGITS: string := "0123456789ABCDEF"
  const LOWER_DIGITS: string := "0123456789abcdef"

  /** The unreserved characters of section 2.3 of RFC 3986. */
  predicate Unreserved(c: char) {
    'A' <= c <= 'Z' || 'a' <= c <= 'z' || '0' <= c <= '9' || c in "-._~"
  }

  /** One byte as it is written: as it is, or as an escape with either digit in upper or lower case. */
  datatype Written = Plain(c: char) | Escaped(c: char, high: bool, low: bool)

  predicate Good(w: Written) {
    match w
    case Plain(c) => c != '%'
    case Escaped(c, _, _) => c as int < 256
  }

  predicate AllGood(ws: seq<Written>) {
    forall w :: w in ws ==> Good(w)
  }

  function Digit(n: nat, upper: bool): char
    requires n < 16
  {
    if upper then UPPER_DIGITS[n] else LOWER_DIGITS[n]
  }

  function One(w: Written): string
    requires Good(w)
  {
    match w
    case Plain(c) => [c]
    case Escaped(c, high, low) => ['%', Digit(c as int / 16, high), Digit(c as int % 16, low)]
  }

  function PercentText(ws: seq<Written>): string
    requires AllGood(ws)
  {
    if ws == [] then "" else
      assert ws[0] in ws;
      One(ws[0]) + PercentText(ws[1..])
  }

  function Chars(ws: seq<Written>): string {
    if ws == [] then "" else [ws[0].c] + Chars(ws[1..])
  }

  /** What pass 1 makes of each: an escape stays, in upper case, where the byte is ASCII and not unreserved. */
  function Kept(w: Written): Written {
    match w
    case Plain(_) => w
    case Escaped(c, _, _) => if Unreserved(c) || c as int >= 0x80 then Plain(c) else Escaped(c, true, true)
  }

  function AllKept(ws: seq<Written>): (ks: seq<Written>)
    requires AllGood(ws)
    ensures AllGood(ks)
  {
    if ws == [] then [] else
      assert ws[0] in ws;
      assert Good(Kept(ws[0]));
      [Kept(ws[0])] + AllKept(ws[1..])
  }

  // ----- digits

  lemma DigitValue(n: nat, upper: bool)
    requires n < 16
    ensures IsHex(Digit(n, upper)) && HexVal(Digit(n, upper)) == n && Upper(Digit(n, upper)) == UPPER_DIGITS[n]
  {
    DigitRange(n);
  }

  lemma DigitRange(n: nat)
    requires n < 16
    ensures n < 10 ==> UPPER_DIGITS[n] == LOWER_DIGITS[n] == ('0' as int + n) as char
    ensures n >= 10 ==> UPPER_DIGITS[n] == ('A' as int + n - 10) as char
    ensures n >= 10 ==> LOWER_DIGITS[n] == ('a' as int + n - 10) as char
  {
  }

  lemma DigitFound(c: char) returns (n: nat, upper: bool)
    requires IsHex(c)
    ensures n < 16 && Digit(n, upper) == c
  {
    n := HexVal(c);
    upper := !('a' <= c <= 'f');
    DigitRange(n);
  }

  /** The escape of a byte, in whatever case, is an escape, and stands for that byte. */
  lemma EscapeRead(c: char, high: bool, low: bool)
    requires c as int < 256
    ensures var t := One(Escaped(c, high, low));
            Escape(t) && HexByte(t[1], t[2]) == c as int && Image(t[1], t[2]) == One(Kept(Escaped(c, high, low)))
  {
    DigitValue(c as int / 16, high);
    DigitValue(c as int % 16, low);
    UnreservedLiteral(c);
  }

  lemma UnreservedLiteral(c: char)
    requires c as int < 256
    ensures Literal(c as int) <==> Unreserved(c) || c as int >= 0x80
  {
  }

  // ----- the decoders

  lemma EscapeFirst(t: string, rest: string)
    requires |t| == 3
    ensures var s := t + rest;
            s[0] == t[0] && s[1] == t[1] && s[2] == t[2] && s[3..] == rest && s[..3] == t
  {
  }

  /** Decoding any percent-encoding of a text gives the text back. */
  lemma {:induction false} DecodeEncoded(ws: seq<Written>)
    requires AllGood(ws)
    ensures Decode(PercentText(ws)) == Some(Chars(ws))
    decreases |ws|
  {
    if ws == [] {
    } else {
      var w, rest := ws[0], PercentText(ws[1..]);
      assert w in ws;
      DecodeEncoded(ws[1..]);
      match w
      case Plain(c) => assert ([c] + rest)[1..] == rest;
      case Escaped(c, high, low) =>
        EscapeRead(c, high, low);
        EscapeFirst(One(w), rest);
    }
  }

  /** Pass 1 replaces exactly the escapes that are not needed, and writes the others in upper case. */
  lemma {:induction false} SafeDecodeEncoded(ws: seq<Written>)
    requires AllGood(ws)
    ensures SafeDecode(PercentText(ws)) == Some(PercentText(AllKept(ws)))
    decreases |ws|
  {
    if ws == [] {
    } else {
      var w, rest := ws[0], PercentText(ws[1..]);
      assert w in ws;
      SafeDecodeEncoded(ws[1..]);
      assert AllKept(ws)[1..] == AllKept(ws[1..]);
      match w
      case Plain(c) => assert ([c] + rest)[1..] == rest;
      case Escaped(c, high, low) =>
        EscapeRead(c, high, low);
        EscapeFirst(One(w), rest);
    }
  }

  lemma {:induction false} EncodingFound(s: string) returns (ws: seq<Written>)
    requires Decode(s).Some?
    ensures AllGood(ws) && PercentText(ws) == s
    decreases |s|
  {
    if s == "" {
      ws := [];
    } else if s[0] == '%' {
      var rest := EncodingFound(s[3..]);
      var w := EscapeFound(s[1], s[2]);
      ws := [w] + rest;
      assert ws[1..] == rest && s == One(w) + s[3..];
    } else {
      var rest := EncodingFound(s[1..]);
      ws := [Plain(s[0])] + rest;
      assert ws[1..] == rest && s == [s[0]] + s[1..];
    }
  }

  lemma EscapeFound(a: char, b: char) returns (w: Written)
    requires IsHex(a) && IsHex(b)
    ensures Good(w) && One(w) == ['%', a, b]
  {
    var m, high := DigitFound(a);
    var n, low := DigitFound(b);
    w := Escaped((m * 16 + n) as char, high, low);
    assert (m * 16 + n) / 16 == m && (m * 16 + n) % 16 == n;
  }

  /** The texts the decoder accepts are exactly the percent-encodings, and it gives what they encode. */
  lemma DecodeExactly(s: string, t: string)
    ensures Decode(s) == Some(t) <==> exists ws :: AllGood(ws) && PercentText(ws) == s && Chars(ws) == t
  {
    if Decode(s) == Some(t) {
      var ws := EncodingFound(s);
      DecodeEncoded(ws);
    }
    forall ws | AllGood(ws) && PercentText(ws) == s && Chars(ws) == t ensures Decode(s) == Some(t) {
      DecodeEncoded(ws);
    }
  }
}
