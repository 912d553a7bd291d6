/** `decodeURIComponent` as the request handler applies it to the `continue`
    parameter: percent-decoding (section 2.1 of RFC 3986), restricted to escapes
    of ASCII octets. A malformed escape is the `URIError` the real function throws. */
module PercentDecoding {
  import opened Wrappers

  predicate IsHexDigit(c: char)
  {
    '0' <= c <= '9' || 'A' <= c <= 'F' || 'a' <= c <= 'f'
  }

  /** The value of a hexadecimal digit, in either case. */
  function HexValue(c: char): (v: nat)
    requires IsHexDigit(c)
    ensures v < 16
  {
    if '0' <= c <= '9' then c as int - '0' as int
    else if 'A' <= c <= 'F' then c as int - 'A' as int + 10
    else c as int - 'a' as int + 10
  }

  /** The upper-case hexadecimal digit for a value below 16. */
  function HexDigit(v: nat): (c: char)
    requires v < 16
    ensures IsHexDigit(c) && HexValue(c) == v
  {
    if v < 10 then ('0' as int + v) as char else ('A' as int + v - 10) as char
  }

  /** Decodes every "%XY" escape to the character with code 0xXY; any other
      character stands for itself. None for a '%' not followed by two hex digits
      and for an escape of an octet at or above 0x80. */
  function PercentDecode(s: string): Option<string>
    decreases |s|
  {
    if s == [] then Some([])
    else if s[0] != '%' then Prepend(s[0], PercentDecode(s[1..]))
    else if |s| < 3 || !IsHexDigit(s[1]) || !IsHexDigit(s[2]) then None
    else
      var octet := HexValue(s[1]) * 16 + HexValue(s[2]);
      if octet >= 0x80 then None
      else Prepend(octet as char, PercentDecode(s[3..]))
  }

  /** A decoded character in front of the decoding of the rest, if that succeeds. */
  function Prepend(c: char, rest: Option<string>): Option<string>
  {
    if rest.Some? then Some([c] + rest.value) else None
  }

  /** The characters `encodeURIComponent` leaves as they are. */
  predicate IsUnreserved(c: char)
  {
    'A' <= c <= 'Z' || 'a' <= c <= 'z' || '0' <= c <= '9' ||
    c == '-' || c == '_' || c == '.' || c == '!' || c == '~' || c == '*' || c == '\'' || c == '(' || c == ')'
  }

  predicate IsAscii(s: string)
  {
    forall i :: 0 <= i < |s| ==> s[i] as int < 0x80
  }

  /** `encodeURIComponent` on ASCII text: every character but the unreserved ones
      becomes a "%XY" escape with upper-case digits. */
  function PercentEncode(s: string): string
    requires IsAscii(s)
    decreases |s|
  {
    if s == [] then []
    else
      var rest := PercentEncode(s[1..]);
      if IsUnreserved(s[0]) then [s[0]] + rest
      else ['%', HexDigit(s[0] as int / 16), HexDigit(s[0] as int % 16)] + rest
  }

  /** Decoding undoes encoding. */
  lemma {:induction false} DecodeEncode(s: string)
    requires IsAscii(s)
    ensures PercentDecode(PercentEncode(s)) == Some(s)
    decreases |s|
  {
    if s != [] {
      assert IsAscii(s[1..]) by {
        forall i | 0 <= i < |s| - 1 ensures s[1..][i] as int < 0x80 {
          assert s[1..][i] == s[i + 1];
        }
      }
      DecodeEncode(s[1..]);
      var e := PercentEncode(s);
      var rest := PercentEncode(s[1..]);
      if IsUnreserved(s[0]) {
        assert e[0] == s[0] && e[1..] == rest;
      } else {
        var c := s[0] as int;
        assert e[0] == '%' && e[3..] == rest;
        assert HexValue(e[1]) * 16 + HexValue(e[2]) == c;
        assert (c as char) == s[0];
      }
      assert s == [s[0]] + s[1..];
    }
  }

  /** Text without '%' decodes to itself. */
  lemma {:induction false} DecodeWithoutPercent(s: string)
    requires '%' !in s
    ensures PercentDecode(s) == Some(s)
    decreases |s|
  {
    if s != [] {
      DecodeWithoutPercent(s[1..]);
      assert s == [s[0]] + s[1..];
    }
  }

  /** Decoding never lengthens the text, and gives the empty string only for the
      empty string: a non-empty parameter never decodes to a falsy value. */
  lemma {:induction false} DecodeLength(s: string)
    requires PercentDecode(s).Some?
    ensures |PercentDecode(s).value| <= |s|
    ensures PercentDecode(s).value == [] <==> s == []
    decreases |s|
  {
    if s != [] {
      if s[0] != '%' {
        DecodeLength(s[1..]);
      } else {
        DecodeLength(s[3..]);
      }
    }
  }

  /** One escape of an ASCII octet decodes to the character with that code. */
  lemma DecodeEscape(x: char, y: char, rest: string)
    requires IsHexDigit(x) && IsHexDigit(y) && HexValue(x) * 16 + HexValue(y) < 0x80
    ensures PercentDecode(['%', x, y] + rest) ==
      Prepend((HexValue(x) * 16 + HexValue(y)) as char, PercentDecode(rest))
  {
    var s := ['%', x, y] + rest;
    assert s[0] == '%' && s[1] == x && s[2] == y && s[3..] == rest;
  }

  /** A character other than '%' decodes to itself. */
  lemma DecodePlain(c: char, rest: string)
    requires c != '%'
    ensures PercentDecode([c] + rest) == Prepend(c, PercentDecode(rest))
  {
    var s := [c] + rest;
    assert s[0] == c && s[1..] == rest;
  }

  /** Text without '%' decodes to itself in front of any continuation. */
  lemma {:induction false} DecodePlainPrefix(p: string, rest: string)
    requires '%' !in p
    ensures PercentDecode(p + rest) == AppendDecoded(p, PercentDecode(rest))
    decreases |p|
  {
    var decoded := PercentDecode(rest);
    if p == [] {
      assert p + rest == rest;
      PrependNothing(decoded);
    } else {
      assert p + rest == [p[0]] + (p[1..] + rest);
      DecodePlain(p[0], p[1..] + rest);
      DecodePlainPrefix(p[1..], rest);
      PrependAppended(p[0], p[1..], decoded);
      assert [p[0]] + p[1..] == p;
    }
  }

  /** Every '%' starts an escape: two hex digits follow it, and they encode an
      octet below 0x80. */
  predicate WellFormedEscapes(s: string)
  {
    forall i :: 0 <= i < |s| && s[i] == '%' ==> EscapeAt(s, i)
  }

  /** Position i starts "%XY" with hex digits X and Y and an ASCII octet 0xXY. */
  predicate EscapeAt(s: string, i: nat)
  {
    i + 2 < |s| && IsHexDigit(s[i + 1]) && IsHexDigit(s[i + 2]) &&
    HexValue(s[i + 1]) * 16 + HexValue(s[i + 2]) < 0x80
  }

  /** Decoding fails exactly when some '%' does not start a well-formed escape
      of an ASCII octet. */
  lemma {:induction false} DecodeDefined(s: string)
    ensures PercentDecode(s).Some? <==> WellFormedEscapes(s)
    decreases |s|
  {
    if s == [] {
    } else if s[0] != '%' {
      DecodeDefined(s[1..]);
      WellFormedAfter(s, 1);
    } else if !EscapeAt(s, 0) {
      assert !WellFormedEscapes(s);
    } else {
      DecodeDefined(s[3..]);
      WellFormedAfter(s, 3);
    }
  }

  /** Dropping a prefix that is '%'-free apart from one well-formed escape at its
      head keeps exactly the escapes that matter. */
  lemma WellFormedAfter(s: string, k: nat)
    requires 0 < k <= |s|
    requires k == 1 ==> s[0] != '%'
    requires k == 3 ==> s[0] == '%' && EscapeAt(s, 0)
    requires k == 1 || k == 3
    ensures WellFormedEscapes(s) <==> WellFormedEscapes(s[k..])
  {
    var t := s[k..];
    if WellFormedEscapes(t) {
      forall i | 0 <= i < |s| && s[i] == '%' ensures EscapeAt(s, i) {
        if i >= k {
          assert t[i - k] == s[i];
          assert EscapeAt(t, i - k);
          assert t[i - k + 1] == s[i + 1] && t[i - k + 2] == s[i + 2];
        }
      }
    }
    if WellFormedEscapes(s) {
      forall j | 0 <= j < |t| && t[j] == '%' ensures EscapeAt(t, j) {
        assert s[j + k] == t[j];
        assert EscapeAt(s, j + k);
        assert t[j + 1] == s[j + k + 1] && t[j + 2] == s[j + k + 2];
      }
    }
  }

  /** The value of a hex digit does not depend on its case. */
  lemma HexValueIgnoresCase(c: char)
    requires 'a' <= c <= 'f'
    ensures IsHexDigit((c as int - 32) as char)
    ensures HexValue(c) == HexValue((c as int - 32) as char)
  {
  }

  /** Decoded text in front of the decoding of the rest, if that succeeds. */
  function AppendDecoded(x: string, rest: Option<string>): Option<string>
  {
    if rest.Some? then Some(x + rest.value) else None
  }

  /** Nothing in front leaves the decoding as it is. */
  lemma PrependNothing(rest: Option<string>)
    ensures AppendDecoded([], rest) == rest
  {
    if rest.Some? {
      assert [] + rest.value == rest.value;
    }
  }

  /** One character in front of the text in front. */
  lemma PrependAppended(c: char, x: string, rest: Option<string>)
    ensures Prepend(c, AppendDecoded(x, rest)) == AppendDecoded([c] + x, rest)
  {
    if rest.Some? {
      assert [c] + (x + rest.value) == ([c] + x) + rest.value;
    }
  }
}
