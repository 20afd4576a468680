/**
 * `atob`, which the "B" branch of the encoded-word decoder calls, as the
 * forgiving-base64 decode of the WHATWG Infra Standard (the alphabet of RFC 4648
 * section 4): ASCII whitespace is ignored, one or two trailing `=` are dropped when
 * the length is a multiple of four, a length of 1 modulo 4 or a character outside the
 * alphabet is a failure, and the leftover bits of a final partial group are discarded.
 * The result is a string of byte-valued characters.  `Encode` is the standard padded
 * encoder, written here only as the inverse against which `Decode` is proved.
 */
module Base64 {
  import opened Options
  import opened Text

  type Byte = b: int | 0 <= b < 256
  type Sextet = v: int | 0 <= v < 64

  predicate IsAlphabetChar(c: char) {
    'A' <= c <= 'Z' || 'a' <= c <= 'z' || '0' <= c <= '9' || c == '+' || c == '/'
  }

  predicate AllAlphabet(s: string) {
    forall i :: 0 <= i < |s| ==> IsAlphabetChar(s[i])
  }

  function SextetOf(c: char): Sextet
    requires IsAlphabetChar(c)
  {
    if 'A' <= c <= 'Z' then c as int - 'A' as int
    else if 'a' <= c <= 'z' then c as int - 'a' as int + 26
    else if '0' <= c <= '9' then c as int - '0' as int + 52
    else if c == '+' then 62
    else 63
  }

  /** The alphabet character for a six-bit value; `SextetOf` undoes it. */
  function CharOf(v: Sextet): (c: char)
    ensures IsAlphabetChar(c) && SextetOf(c) == v
  {
    if v < 26 then ('A' as int + v) as char
    else if v < 52 then ('a' as int + v - 26) as char
    else if v < 62 then ('0' as int + v - 52) as char
    else if v == 62 then '+'
    else '/'
  }

  /** TAB, LF, FF, CR and SPACE, the whitespace `atob` skips. */
  predicate IsAsciiWhitespace(c: char) {
    c == '\t' || c == '\n' || c as int == 12 || c == '\r' || c == ' '
  }

  function RemoveAsciiWhitespace(s: string): (r: string)
    ensures |r| <= |s|
    ensures forall i :: 0 <= i < |r| ==> !IsAsciiWhitespace(r[i])
    ensures (forall i :: 0 <= i < |s| ==> !IsAsciiWhitespace(s[i])) ==> r == s
    ensures (forall i :: 0 <= i < |s| ==> IsAsciiWhitespace(s[i])) ==> r == []
    decreases |s|
  {
    if s == [] then []
    else if IsAsciiWhitespace(s[0]) then RemoveAsciiWhitespace(s[1..])
    else [s[0]] + RemoveAsciiWhitespace(s[1..])
  }

  /** Whitespace removal works piece by piece: with `Append` and the one-character cases
      of the contract above, it keeps exactly the other characters, in order. */
  lemma {:induction false} RemoveAsciiWhitespaceAppend(a: string, b: string)
    ensures RemoveAsciiWhitespace(a + b) == RemoveAsciiWhitespace(a) + RemoveAsciiWhitespace(b)
    decreases |a|
  {
    if a == [] {
      assert a + b == b;
    } else {
      assert (a + b)[0] == a[0] && (a + b)[1..] == a[1..] + b;
      RemoveAsciiWhitespaceAppend(a[1..], b);
    }
  }

  /** When the length is a multiple of four, one or two trailing `=` are removed. */
  function StripPadding(d: string): (r: string)
    ensures r <= d && |d| - 2 <= |r|
    ensures forall i :: |r| <= i < |d| ==> d[i] == '='
    ensures |d| % 4 != 0 ==> r == d
    ensures |d| % 4 == 0 && |d| >= 1 && d[|d| - 1] == '=' ==> |r| < |d|
    ensures |d| % 4 == 0 && |d| >= 2 && d[|d| - 2] == '=' && d[|d| - 1] == '=' ==> |r| == |d| - 2
  {
    if |d| % 4 == 0 && |d| >= 2 && d[|d| - 2] == '=' && d[|d| - 1] == '=' then d[..|d| - 2]
    else if |d| % 4 == 0 && |d| >= 1 && d[|d| - 1] == '=' then d[..|d| - 1]
    else d
  }

  function Sextets(d: string): (xs: seq<Sextet>)
    requires AllAlphabet(d)
    ensures |xs| == |d|
  {
    seq(|d|, i requires 0 <= i < |d| => SextetOf(d[i]))
  }

  /** The three bytes carried by the 24 bits of four sextets. */
  function JoinGroup(x0: Sextet, x1: Sextet, x2: Sextet, x3: Sextet): (bytes: seq<Byte>)
    ensures |bytes| == 3
  {
    var b0: Byte := x0 as int * 4 + x1 as int / 16;
    var b1: Byte := (x1 as int % 16) * 16 + x2 as int / 4;
    var b2: Byte := (x2 as int % 4) * 64 + x3 as int;
    [b0, b1, b2]
  }

  /** The four sextets of the 24 bits of three bytes. */
  function SplitGroup(b0: Byte, b1: Byte, b2: Byte): (xs: seq<Sextet>)
    ensures |xs| == 4
  {
    var x0: Sextet := b0 as int / 4;
    var x1: Sextet := (b0 as int % 4) * 16 + b1 as int / 16;
    var x2: Sextet := (b1 as int % 16) * 4 + b2 as int / 64;
    var x3: Sextet := b2 as int % 64;
    [x0, x1, x2, x3]
  }

  /** Groups of four sextets become three bytes; a final group of two or three sextets
      becomes one or two bytes, its leftover low bits dropped. */
  function DecodeSextets(xs: seq<Sextet>): (bytes: seq<Byte>)
    requires |xs| % 4 != 1
    ensures |bytes| == 3 * |xs| / 4
    ensures 4 * |bytes| <= 3 * |xs|
    decreases |xs|
  {
    if |xs| == 0 then []
    else if |xs| == 2 then JoinGroup(xs[0], xs[1], 0, 0)[..1]
    else if |xs| == 3 then JoinGroup(xs[0], xs[1], xs[2], 0)[..2]
    else JoinGroup(xs[0], xs[1], xs[2], xs[3]) + DecodeSextets(xs[4..])
  }

  /** The characters whose codes are the given bytes. */
  function Latin1(bytes: seq<Byte>): (s: string)
    ensures |s| == |bytes| && IsLatin1(s)
    ensures forall i :: 0 <= i < |s| ==> s[i] as int == bytes[i]
  {
    seq(|bytes|, i requires 0 <= i < |bytes| => bytes[i] as char)
  }

  /** `atob(s)`: `None` stands for the exception it throws. */
  function Decode(s: string): (r: Option<string>)
    ensures r.None? <==>
              var d := StripPadding(RemoveAsciiWhitespace(s));
              |d| % 4 == 1 || !AllAlphabet(d)
    ensures r.Some? ==> IsLatin1(r.value) && |r.value| <= |s|
  {
    var d := StripPadding(RemoveAsciiWhitespace(s));
    if |d| % 4 == 1 || !AllAlphabet(d) then None
    else Some(Latin1(DecodeSextets(Sextets(d))))
  }

  function Chars(xs: seq<Sextet>): (s: string)
    ensures |s| == |xs| && AllAlphabet(s)
    ensures forall i :: 0 <= i < |xs| ==> SextetOf(s[i]) == xs[i]
  {
    seq(|xs|, i requires 0 <= i < |xs| => CharOf(xs[i]))
  }

  /** Standard encoding without the trailing `=` padding: a final byte or pair of
      bytes is padded with zero bits to two or three sextets. */
  function EncodeUnpadded(bytes: seq<Byte>): (s: string)
    ensures AllAlphabet(s)
    ensures |bytes| % 3 == 0 ==> |s| % 4 == 0
    ensures |bytes| % 3 == 1 ==> |s| % 4 == 2
    ensures |bytes| % 3 == 2 ==> |s| % 4 == 3
    decreases |bytes|
  {
    if |bytes| == 0 then []
    else if |bytes| == 1 then Chars(SplitGroup(bytes[0], 0, 0)[..2])
    else if |bytes| == 2 then Chars(SplitGroup(bytes[0], bytes[1], 0)[..3])
    else Chars(SplitGroup(bytes[0], bytes[1], bytes[2])) + EncodeUnpadded(bytes[3..])
  }

  /** Standard padded Base64 encoding (RFC 4648 section 4). */
  function Encode(bytes: seq<Byte>): (s: string)
    ensures |s| % 4 == 0
  {
    EncodeUnpadded(bytes) + (if |bytes| % 3 == 1 then "==" else if |bytes| % 3 == 2 then "=" else "")
  }

  /** An encoding is made of alphabet characters and `=`: no `?` and no whitespace. */
  lemma EncodeAlphabet(bytes: seq<Byte>)
    ensures '?' !in Encode(bytes) && NoWhitespace(Encode(bytes))
  {
    var e := Encode(bytes);
    assert forall i :: 0 <= i < |e| ==> IsAlphabetChar(e[i]) || e[i] == '=';
  }

  lemma SextetsAppend(a: string, b: string)
    requires AllAlphabet(a) && AllAlphabet(b)
    ensures AllAlphabet(a + b) && Sextets(a + b) == Sextets(a) + Sextets(b)
  {
  }

  lemma SextetsChars(xs: seq<Sextet>)
    ensures Sextets(Chars(xs)) == xs
  {
  }

  /** The bit arithmetic of one group: splitting three bytes into four sextets and
      joining them again gives the bytes back; each byte depends only on the sextets
      that carry its bits. */
  lemma JoinSplit(b0: Byte, b1: Byte, b2: Byte, y2: Sextet, y3: Sextet)
    ensures var xs := SplitGroup(b0, b1, b2);
            && JoinGroup(xs[0], xs[1], xs[2], xs[3]) == [b0, b1, b2]
            && JoinGroup(xs[0], xs[1], y2, y3)[0] == b0
            && JoinGroup(xs[0], xs[1], xs[2], y3)[1] == b1
  {
    var x1 := (b0 % 4) * 16 + b1 / 16;
    assert x1 / 16 == b0 % 4 && x1 % 16 == b1 / 16;
    var x2 := (b1 % 16) * 4 + b2 / 64;
    assert x2 / 4 == b1 % 16 && x2 % 4 == b2 / 64;
  }

  /** A final single byte: two sextets carry its eight bits. */
  lemma DecodeOneByteTail(b0: Byte)
    ensures var s := Chars(SplitGroup(b0, 0, 0)[..2]);
            |s| == 2 && DecodeSextets(Sextets(s)) == [b0]
  {
    var xs := SplitGroup(b0, 0, 0);
    SextetsChars(xs[..2]);
    JoinSplit(b0, 0, 0, 0, 0);
  }

  /** A final pair of bytes: three sextets carry their sixteen bits. */
  lemma DecodeTwoByteTail(b0: Byte, b1: Byte)
    ensures var s := Chars(SplitGroup(b0, b1, 0)[..3]);
            |s| == 3 && DecodeSextets(Sextets(s)) == [b0, b1]
  {
    var xs := SplitGroup(b0, b1, 0);
    SextetsChars(xs[..3]);
    JoinSplit(b0, b1, 0, xs[2], 0);
  }

  /** Four sextets in front of more decode to their three bytes in front of more. */
  lemma DecodeSextetsGroup(xs: seq<Sextet>, ys: seq<Sextet>)
    requires |xs| == 4 && |ys| % 4 != 1
    ensures |xs + ys| % 4 != 1
    ensures DecodeSextets(xs + ys) == JoinGroup(xs[0], xs[1], xs[2], xs[3]) + DecodeSextets(ys)
  {
    assert (xs + ys)[4..] == ys;
  }

  /** A whole group of three bytes in front of an encoding that decodes correctly. */
  lemma DecodeGroupStep(b0: Byte, b1: Byte, b2: Byte, tail: string, rest: seq<Byte>)
    requires AllAlphabet(tail) && |tail| % 4 != 1 && DecodeSextets(Sextets(tail)) == rest
    ensures var s := Chars(SplitGroup(b0, b1, b2)) + tail;
            AllAlphabet(s) && |s| % 4 != 1 && DecodeSextets(Sextets(s)) == [b0, b1, b2] + rest
  {
    var xs := SplitGroup(b0, b1, b2);
    var s := Chars(xs) + tail;
    assert AllAlphabet(s) && Sextets(s) == xs + Sextets(tail) by {
      SextetsAppend(Chars(xs), tail);
      SextetsChars(xs);
    }
    DecodeSextetsGroup(xs, Sextets(tail));
    JoinSplit(b0, b1, b2, 0, 0);
  }

  lemma {:induction false} DecodeEncodeUnpadded(bytes: seq<Byte>)
    ensures |EncodeUnpadded(bytes)| % 4 != 1
    ensures DecodeSextets(Sextets(EncodeUnpadded(bytes))) == bytes
    decreases |bytes|
  {
    if |bytes| < 3 {
      DecodeEncodeShort(bytes);
    } else {
      DecodeEncodeUnpadded(bytes[3..]);
      DecodeEncodeGroup(bytes);
    }
  }

  /** Fewer than three bytes: one partial group, or nothing. */
  lemma DecodeEncodeShort(bytes: seq<Byte>)
    requires |bytes| < 3
    ensures |EncodeUnpadded(bytes)| % 4 != 1
    ensures DecodeSextets(Sextets(EncodeUnpadded(bytes))) == bytes
  {
    if |bytes| == 1 {
      DecodeOneByteTail(bytes[0]);
      assert bytes == [bytes[0]];
    } else if |bytes| == 2 {
      DecodeTwoByteTail(bytes[0], bytes[1]);
      assert bytes == [bytes[0], bytes[1]];
    }
  }

  /** A whole first group, given that the rest already decodes back. */
  lemma DecodeEncodeGroup(bytes: seq<Byte>)
    requires |bytes| >= 3
    requires |EncodeUnpadded(bytes[3..])| % 4 != 1
    requires DecodeSextets(Sextets(EncodeUnpadded(bytes[3..]))) == bytes[3..]
    ensures |EncodeUnpadded(bytes)| % 4 != 1
    ensures DecodeSextets(Sextets(EncodeUnpadded(bytes))) == bytes
  {
    var tail := EncodeUnpadded(bytes[3..]);
    assert EncodeUnpadded(bytes) == Chars(SplitGroup(bytes[0], bytes[1], bytes[2])) + tail;
    DecodeGroupStep(bytes[0], bytes[1], bytes[2], tail, bytes[3..]);
    assert bytes == [bytes[0], bytes[1], bytes[2]] + bytes[3..];
  }

  /** `atob` inverts standard Base64 encoding. */
  lemma DecodeEncode(bytes: seq<Byte>)
    ensures Decode(Encode(bytes)) == Some(Latin1(bytes))
  {
    var u := EncodeUnpadded(bytes);
    var e := Encode(bytes);
    assert forall i :: 0 <= i < |e| ==> !IsAsciiWhitespace(e[i]);
    assert RemoveAsciiWhitespace(e) == e;
    assert StripPadding(e) == u by {
      if |bytes| % 3 == 1 {
        assert e == u + "==";
      } else if |bytes| % 3 == 2 {
        assert e == u + "=" && u[|u| - 1] != '=';
      } else {
        assert e == u;
        assert u == [] || u[|u| - 1] != '=';
      }
    }
    DecodeEncodeUnpadded(bytes);
  }

  /** A payload holding a character outside the alphabet (other than ASCII whitespace
      and the final padding) makes `atob` throw. */
  lemma DecodeRejectsForeignChar(s: string, k: nat)
    requires k < |s| && !IsAlphabetChar(s[k]) && s[k] != '=' && !IsAsciiWhitespace(s[k])
    ensures Decode(s).None?
  {
    var w := RemoveAsciiWhitespace(s);
    ForeignCharSurvives(s, k);
    var j :| 0 <= j < |w| && w[j] == s[k];
    var d := StripPadding(w);
    if |d| % 4 != 1 {
      assert j < |d|;
      assert !AllAlphabet(d);
    }
  }

  lemma {:induction false} ForeignCharSurvives(s: string, k: nat)
    requires k < |s| && !IsAsciiWhitespace(s[k])
    ensures exists j :: 0 <= j < |RemoveAsciiWhitespace(s)| && RemoveAsciiWhitespace(s)[j] == s[k]
    decreases |s|
  {
    var w := RemoveAsciiWhitespace(s);
    if k == 0 {
      assert w[0] == s[0];
    } else {
      ForeignCharSurvives(s[1..], k - 1);
      var j :| 0 <= j < |RemoveAsciiWhitespace(s[1..])| && RemoveAsciiWhitespace(s[1..])[j] == s[k];
      if IsAsciiWhitespace(s[0]) {
        assert w[j] == s[k];
      } else {
        assert w[j + 1] == s[k];
      }
    }
  }
}
