/**
 * The "Q" branch of the encoded-word decoder (RFC 2047 section 4.2): first every `_`
 * becomes a space, then every `=XX` with two hexadecimal digits (either case) becomes
 * the character whose code is 0xXX.  The escape scan moves past each escape it
 * decodes, so decoded characters are never scanned again, and an `=` not followed by
 * two hexadecimal digits stays as it is.  `Encode` is an RFC 2047 "Q" encoder, written
 * here only as the inverse against which `Decode` is proved.
 */
module QEncoding {
  import opened Text

  predicate IsHexDigit(c: char) {
    '0' <= c <= '9' || 'A' <= c <= 'F' || 'a' <= c <= 'f'
  }

  /** `parseInt` of one hexadecimal digit. */
  function HexValue(c: char): (v: nat)
    requires IsHexDigit(c)
    ensures v < 16
  {
    if '0' <= c <= '9' then c as int - '0' as int
    else if 'A' <= c <= 'F' then c as int - 'A' as int + 10
    else c as int - 'a' as int + 10
  }

  /** The upper-case digit for a value below 16; `HexValue` undoes it. */
  function HexDigit(v: nat): (c: char)
    requires v < 16
    ensures IsHexDigit(c) && HexValue(c) == v
  {
    if v < 10 then ('0' as int + v) as char else ('A' as int + v - 10) as char
  }

  /** `replace(/_/g, ' ')` */
  function Underscores(s: string): (r: string)
    ensures |r| == |s| && '_' !in r
    ensures forall i :: 0 <= i < |s| && r[i] != s[i] ==> s[i] == '_' && r[i] == ' '
  {
    seq(|s|, i requires 0 <= i < |s| => if s[i] == '_' then ' ' else s[i])
  }

  lemma UnderscoresAppend(a: string, b: string)
    ensures Underscores(a + b) == Underscores(a) + Underscores(b)
  {
  }

  lemma NoUnderscores(s: string)
    requires '_' !in s
    ensures Underscores(s) == s
  {
  }

  /** `replace(/=([0-9A-F]{2})/gi, ...)` with `String.fromCharCode(parseInt(hex, 16))`:
      a left-to-right scan that resumes after each escape it replaces. */
  function Unescape(s: string): (r: string)
    ensures |r| <= |s|
    ensures '=' !in s ==> r == s
    decreases |s|
  {
    if s == [] then []
    else if |s| >= 3 && s[0] == '=' && IsHexDigit(s[1]) && IsHexDigit(s[2]) then
      [(16 * HexValue(s[1]) + HexValue(s[2])) as char] + Unescape(s[3..])
    else
      assert '=' !in s ==> '=' !in s[1..];
      [s[0]] + Unescape(s[1..])
  }

  /** The decoded text of a "Q" payload. */
  function Decode(payload: string): (r: string)
    ensures |r| <= |payload|
    ensures IsLatin1(payload) ==> IsLatin1(r)
  {
    var u := Underscores(payload);
    UnescapeLatin1(u);
    Unescape(u)
  }

  lemma {:induction false} UnescapeLatin1(s: string)
    ensures IsLatin1(s) ==> IsLatin1(Unescape(s))
    decreases |s|
  {
    if s != [] {
      if |s| >= 3 && s[0] == '=' && IsHexDigit(s[1]) && IsHexDigit(s[2]) {
        UnescapeLatin1(s[3..]);
      } else {
        UnescapeLatin1(s[1..]);
      }
    }
  }

  /** One escape decodes to its single character, and the scan goes on with what
      follows it: the character produced is never rescanned. */
  lemma {:induction false} UnescapeEscape(h1: char, h2: char, rest: string)
    requires IsHexDigit(h1) && IsHexDigit(h2)
    ensures Unescape(['=', h1, h2] + rest) == [(16 * HexValue(h1) + HexValue(h2)) as char] + Unescape(rest)
  {
    assert (['=', h1, h2] + rest)[3..] == rest;
  }

  /** A character other than `=` is copied and the scan goes on with what follows. */
  lemma {:induction false} UnescapePlain(c: char, rest: string)
    requires c != '='
    ensures Unescape([c] + rest) == [c] + Unescape(rest)
  {
    assert ([c] + rest)[1..] == rest;
  }

  /** An `=` not followed by two hexadecimal digits is copied as it is, and the scan
      goes on right after it. */
  lemma {:induction false} UnescapeNonHex(rest: string)
    requires !(|rest| >= 2 && IsHexDigit(rest[0]) && IsHexDigit(rest[1]))
    ensures Unescape(['='] + rest) == ['='] + Unescape(rest)
  {
    assert (['='] + rest)[1..] == rest;
  }

  /** A payload that is `=` followed by a non-hexadecimal character decodes to itself. */
  lemma DecodeNonHexEscape(x1: char, x2: char)
    requires !IsHexDigit(x1) && x1 != '_' && x2 != '_'
    ensures Decode(['=', x1, x2]) == ['=', x1, x2]
  {
    var xs := [x1, x2];
    assert ['=', x1, x2] == ['='] + xs;
    NoUnderscores(['='] + xs);
    UnescapeNonHex(xs);
    assert Unescape(xs) == [x1] + Unescape([x2]) by {
      assert xs[1..] == [x2];
    }
    assert Unescape([x2]) == [x2] by {
      assert [x2][1..] == [];
    }
  }

  /** `_` becomes a space, but the escape `=5F` gives a literal `_`: underscores are
      replaced before escapes are decoded. */
  lemma {:induction false} UnderscoreOrder(rest: string)
    ensures Decode(['_'] + rest) == [' '] + Decode(rest)
    ensures Decode(['=', '5', 'F'] + rest) == ['_'] + Decode(rest)
  {
    var u := Underscores(rest);
    UnderscoresAppend(['_'], rest);
    assert Underscores(['_']) == [' '];
    UnescapePlain(' ', u);
    UnderscoresAppend(['=', '5', 'F'], rest);
    assert Underscores(['=', '5', 'F']) == ['=', '5', 'F'];
    UnescapeEscape('5', 'F', u);
    assert (16 * HexValue('5') + HexValue('F')) as char == '_';
  }

  /** An escape at position `i` of `s` that stands for a whitespace character. */
  predicate WhitespaceEscapeAt(s: string, i: int) {
    0 <= i && i + 2 < |s| && s[i] == '=' && IsHexDigit(s[i + 1]) && IsHexDigit(s[i + 2]) &&
    IsWhitespace((16 * HexValue(s[i + 1]) + HexValue(s[i + 2])) as char)
  }

  /** The escape scan brings in whitespace only through an escape that stands for it. */
  lemma {:induction false} UnescapeNoWhitespace(s: string)
    requires NoWhitespace(s) && forall i :: !WhitespaceEscapeAt(s, i)
    ensures NoWhitespace(Unescape(s))
    decreases |s|
  {
    if s != [] {
      var k := if |s| >= 3 && s[0] == '=' && IsHexDigit(s[1]) && IsHexDigit(s[2]) then 3 else 1;
      var t := s[k..];
      forall i ensures !WhitespaceEscapeAt(t, i) {
        assert !WhitespaceEscapeAt(s, i + k);
      }
      UnescapeNoWhitespace(t);
      if k == 3 {
        assert !WhitespaceEscapeAt(s, 0);
      }
    }
  }

  /** The only whitespace in a decoded "Q" payload comes from whitespace in the payload,
      from `_`, or from an escape that stands for whitespace: no other character of the
      payload turns into a space. */
  lemma DecodeNoWhitespace(payload: string)
    requires NoWhitespace(payload) && '_' !in payload
    requires forall i :: !WhitespaceEscapeAt(payload, i)
    ensures NoWhitespace(Decode(payload))
  {
    NoUnderscores(payload);
    UnescapeNoWhitespace(payload);
  }

  lemma {:induction false} UnescapePlainPrefix(p: string, rest: string)
    requires '=' !in p
    ensures Unescape(p + rest) == p + Unescape(rest)
    decreases |p|
  {
    if p != [] {
      var t := p[1..];
      assert p + rest == [p[0]] + (t + rest);
      UnescapePlain(p[0], t + rest);
      UnescapePlainPrefix(t, rest);
      AppendAssoc([p[0]], t, Unescape(rest));
    } else {
      assert p + rest == rest;
    }
  }

  /** Text without `=` and `_` goes through "Q" decoding unchanged, whatever follows
      it. In particular URL percent-escapes such as `%24` are not decoded. */
  lemma DecodePlainPrefix(p: string, rest: string)
    requires '=' !in p && '_' !in p
    ensures Decode(p + rest) == p + Decode(rest)
  {
    UnderscoresAppend(p, rest);
    NoUnderscores(p);
    UnescapePlainPrefix(p, Underscores(rest));
  }

  /** A payload without `=` holds no escape: its decoding only turns `_` into spaces. */
  lemma PlainPayload(payload: string)
    requires '=' !in payload
    ensures Decode(payload) == Underscores(payload)
    ensures '_' !in Decode(payload)
  {
    assert '=' !in Underscores(payload);
  }

  /** Each `=XX` gives the character with code 0xXX, for every byte and both cases of
      the hexadecimal digits. */
  lemma DecodeEscapedByte(b: nat, lowerCase: bool)
    requires b < 256
    ensures var h1 := HexDigit(b / 16);
            var h2 := HexDigit(b % 16);
            var payload := if lowerCase then ['=', AsciiLower(h1), AsciiLower(h2)] else ['=', h1, h2];
            Decode(payload) == [b as char]
  {
    var h1, h2 := HexDigit(b / 16), HexDigit(b % 16);
    var l1, l2 := AsciiLower(h1), AsciiLower(h2);
    assert IsHexDigit(l1) && HexValue(l1) == b / 16;
    assert IsHexDigit(l2) && HexValue(l2) == b % 16;
    var payload := if lowerCase then ['=', l1, l2] else ['=', h1, h2];
    assert Underscores(payload) == payload;
    UnescapeEscape(payload[1], payload[2], []);
    assert payload + [] == payload;
  }

  /** The characters a "Q" encoder may leave unescaped (RFC 2047 section 5 (3)). */
  predicate IsPlainChar(c: char) {
    'A' <= c <= 'Z' || 'a' <= c <= 'z' || '0' <= c <= '9' ||
    c == '!' || c == '*' || c == '+' || c == '-' || c == '/'
  }

  function EncodeChar(c: char): (r: string)
    requires c as int < 256
    ensures '?' !in r && NoWhitespace(r)
  {
    if c == ' ' then "_"
    else if IsPlainChar(c) then [c]
    else ['=', HexDigit(c as int / 16), HexDigit(c as int % 16)]
  }

  /** An RFC 2047 "Q" encoder: spaces become `_`, plain characters stay, every other
      byte becomes `=XX`. */
  function Encode(s: string): (r: string)
    requires IsLatin1(s)
    ensures '?' !in r && NoWhitespace(r)
    decreases |s|
  {
    if s == [] then [] else EncodeChar(s[0]) + Encode(s[1..])
  }

  lemma DecodeEncodeChar(c: char, rest: string)
    requires c as int < 256
    ensures Unescape(Underscores(EncodeChar(c)) + rest) == [c] + Unescape(rest)
  {
    var e := EncodeChar(c);
    if c == ' ' {
      assert Underscores(e) == " ";
      UnescapePlain(' ', rest);
    } else if IsPlainChar(c) {
      assert Underscores(e) == [c];
      UnescapePlain(c, rest);
    } else {
      assert Underscores(e) == e;
      UnescapeEscape(e[1], e[2], rest);
      assert 16 * (c as int / 16) + c as int % 16 == c as int;
    }
  }

  /** Decoding a "Q" encoding gives the original text back. */
  lemma {:induction false} DecodeEncode(s: string)
    requires IsLatin1(s)
    ensures Decode(Encode(s)) == s
    decreases |s|
  {
    if s != [] {
      var head, tail := EncodeChar(s[0]), Encode(s[1..]);
      UnderscoresAppend(head, tail);
      DecodeEncodeChar(s[0], Underscores(tail));
      DecodeEncode(s[1..]);
      assert s == [s[0]] + s[1..];
    }
  }
}
