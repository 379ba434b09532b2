/**
  Percent-encoding of URI components (section 2.1 of RFC 3986).

  `PercentDecode` is the decoder the delegate relies on (Ruby's `URI.decode`,
  which replaces every `%HH` triplet, scanned left to right, by the octet HH
  and copies everything else, a stray `%` included). `PercentEncode` is the
  matching encoder for unreserved characters (section 2.3 of RFC 3986); the
  decoder is proved to be its left inverse (`DecodeEncode`).
*/
module UriEscape {

  predicate IsHexDigit(c: char) {
    '0' <= c <= '9' || 'a' <= c <= 'f' || 'A' <= c <= 'F'
  }

  function HexValue(c: char): (v: nat)
    requires IsHexDigit(c)
    ensures v < 16
  {
    if '0' <= c <= '9' then c as int - '0' as int
    else if 'a' <= c <= 'f' then c as int - 'a' as int + 10
    else c as int - 'A' as int + 10
  }

  /** The upper-case hexadecimal digit for `n`, as section 2.1 of RFC 3986 recommends. */
  function HexDigit(n: nat): (c: char)
    requires n < 16
    ensures IsHexDigit(c) && HexValue(c) == n
    ensures !('a' <= c <= 'f')
  {
    if n < 10 then ('0' as int + n) as char else ('A' as int + n - 10) as char
  }

  /** A well-formed `%HH` triplet starts at position `i` of `s`. */
  predicate IsEscapeAt(s: string, i: nat) {
    i + 2 < |s| && s[i] == '%' && IsHexDigit(s[i + 1]) && IsHexDigit(s[i + 2])
  }

  /** The octet a well-formed triplet starting at position `i` stands for. */
  function EscapedOctet(s: string, i: nat): (c: char)
    requires IsEscapeAt(s, i)
    ensures c as int < 256
  {
    (16 * HexValue(s[i + 1]) + HexValue(s[i + 2])) as char
  }

  /** Single left-to-right pass that decodes every well-formed `%HH` and keeps malformed ones. */
  function PercentDecode(s: string): (r: string)
    ensures |r| <= |s|
    ensures (forall i :: 0 <= i < |s| ==> !IsEscapeAt(s, i)) ==> r == s
    ensures (exists i :: 0 <= i < |s| && IsEscapeAt(s, i)) ==> |r| < |s|
    decreases |s|
  {
    if s == [] then []
    else if IsEscapeAt(s, 0) then [EscapedOctet(s, 0)] + PercentDecode(s[3..])
    else
      var t := s[1..];
      assert forall i :: 0 <= i < |t| ==> (IsEscapeAt(t, i) <==> IsEscapeAt(s, i + 1));
      assert forall i :: 1 <= i < |s| && IsEscapeAt(s, i) ==> IsEscapeAt(t, i - 1);
      assert [s[0]] + t == s;
      [s[0]] + PercentDecode(t)
  }

  /** Characters left as they are by the encoder (section 2.3 of RFC 3986). */
  predicate IsUnreserved(c: char) {
    'A' <= c <= 'Z' || 'a' <= c <= 'z' || '0' <= c <= '9' || c == '-' || c == '.' || c == '_' || c == '~'
  }

  /**
    The encoding of one character: unreserved characters stand for themselves,
    other single-octet characters become `%HH`; characters beyond one octet are
    copied (character encodings are not modelled).
  */
  function EncodeChar(c: char): (e: string)
    ensures e == [c] || (|e| == 3 && e[0] == '%')
    ensures '$' !in e
  {
    if IsUnreserved(c) || c as int >= 256 then [c]
    else ['%', HexDigit(c as int / 16), HexDigit(c as int % 16)]
  }

  function PercentEncode(s: string): (r: string)
    ensures '$' !in r
    ensures forall i :: 0 <= i < |s| ==> IsUnreserved(s[i]) ==> s[i] in r
    decreases |s|
  {
    if s == [] then [] else EncodeChar(s[0]) + PercentEncode(s[1..])
  }

  /** Decoding the encoding of one character, followed by anything, gives that character back first. */
  lemma DecodeEncodedChar(c: char, t: string)
    ensures PercentDecode(EncodeChar(c) + t) == [c] + PercentDecode(t)
  {
    var s := EncodeChar(c) + t;
    if IsUnreserved(c) || c as int >= 256 {
      assert s[0] == c && c != '%';
      assert s[1..] == t;
    } else {
      var n := c as int;
      assert s[1] == HexDigit(n / 16) && s[2] == HexDigit(n % 16);
      assert IsEscapeAt(s, 0);
      assert EscapedOctet(s, 0) as int == 16 * (n / 16) + n % 16 == n;
      assert s[3..] == t;
    }
  }

  /** Round trip: decoding what the encoder produced restores the original string. */
  lemma {:induction false} DecodeEncode(s: string)
    ensures PercentDecode(PercentEncode(s)) == s
    decreases |s|
  {
    if s != [] {
      DecodeEncodedChar(s[0], PercentEncode(s[1..]));
      DecodeEncode(s[1..]);
      assert [s[0]] + s[1..] == s;
    }
  }

  /** The decoder makes exactly one pass: an escaped `%` is not decoded again. */
  lemma DecodeIsSinglePass()
    ensures PercentDecode("%2541") == "%41"
    ensures PercentDecode(PercentDecode("%2541")) == "A"
  {
    assert IsEscapeAt("%2541", 0);
    assert "%2541"[3..] == "41";
    assert IsEscapeAt("%41", 0);
  }

}
