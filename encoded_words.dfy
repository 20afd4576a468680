/**
 * `decodeQuotedPrintable`: the RFC 2047 encoded-word decoder of the userscript.
 * It deletes all whitespace, replaces every `=?charset?Q|B?payload?=` envelope found
 * by a left-to-right scan with the decoding of its payload, and trims the result.
 * The charset is ignored.  The envelope pattern is deterministic (the charset and the
 * payload end at the next `?`), so the regular-expression replace is modelled as a
 * scanner that tries an envelope at the current position and otherwise copies one
 * character.
 */
module EncodedWords {
  import opened Options
  import opened Text
  import Base64
  import QEncoding

  /** Only these letters can match `[QB]` under the `i` flag. */
  predicate IsEncodingLetter(c: char) {
    c == 'Q' || c == 'q' || c == 'B' || c == 'b'
  }

  /** One `=?charset?encoding?payload?=` envelope. */
  datatype EncodedWord = EncodedWord(charset: string, encoding: char, payload: string)
  {
    /** What `=\?([^?]+)\?([QB])\?([^?]*)\?=` (with the `i` flag) accepts. */
    predicate WellFormed() {
      |charset| > 0 && '?' !in charset && IsEncodingLetter(encoding) && '?' !in payload
    }

    /** The envelope as it is written in a header. */
    function Envelope(): string {
      "=?" + charset + ['?', encoding, '?'] + payload + "?="
    }
  }

  /** Length of the longest prefix without `?`: how far `[^?]*` reaches. */
  function FieldLength(s: string): (n: nat)
    ensures n <= |s| && '?' !in s[..n]
    ensures n == |s| || s[n] == '?'
    decreases |s|
  {
    if s == [] || s[0] == '?' then 0
    else
      var n := 1 + FieldLength(s[1..]);
      assert s[..n] == [s[0]] + s[1..][..n - 1];
      n
  }

  lemma {:induction false} FieldLengthOf(field: string, rest: string)
    requires '?' !in field
    ensures FieldLength(field + ['?'] + rest) == |field|
    decreases |field|
  {
    var s := field + ['?'] + rest;
    if field != [] {
      assert s[0] == field[0] && s[1..] == field[1..] + ['?'] + rest;
      FieldLengthOf(field[1..], rest);
    }
  }

  /** The envelope that begins exactly at the start of `s`, with its length. */
  function MatchAt(s: string): (m: Option<(EncodedWord, nat)>)
    ensures m.Some? ==> var (w, n) := m.value;
                        w.WellFormed() && n == |w.charset| + |w.payload| + 7 <= |s|
  {
    if |s| < 2 || s[0] != '=' || s[1] != '?' then None
    else
      var c := FieldLength(s[2..]);
      var e := c + 3;
      if c == 0 || e + 1 >= |s| || !IsEncodingLetter(s[e]) || s[e + 1] != '?' then None
      else
        var p := FieldLength(s[e + 2..]);
        var end := e + 2 + p;
        if end + 1 >= |s| || s[end + 1] != '=' then None
        else Some((EncodedWord(s[2..2 + c], s[e], s[e + 2..end]), end + 2))
  }

  /** What is recognised is a well-formed envelope, written out at the start of `s`. */
  lemma MatchAtSound(s: string)
    ensures MatchAt(s).Some? ==> var (w, n) := MatchAt(s).value;
                                 n == |w.Envelope()| && s[..n] == w.Envelope()
  {
    if MatchAt(s).Some? {
      var (w, n) := MatchAt(s).value;
      var c := |w.charset|;
      var p := |w.payload|;
      assert s[2..][c] == '?' && s[c + 5..][p] == '?';
      assert s[..n] == w.Envelope();
    }
  }

  lemma EnvelopeAfterOpening(w: EncodedWord, rest: string)
    ensures (w.Envelope() + rest)[2..] == w.charset + ['?'] + ([w.encoding, '?'] + w.payload + "?=" + rest)
  {
  }

  lemma EnvelopeAfterEncoding(w: EncodedWord, rest: string)
    ensures (w.Envelope() + rest)[|w.charset| + 5..] == w.payload + ['?'] + ("=" + rest)
  {
    var a := "=?" + w.charset + ['?', w.encoding, '?'];
    assert w.Envelope() + rest == a + (w.payload + ['?'] + ("=" + rest));
  }

  lemma MatchAtLayout(s: string, c: nat, p: nat)
    requires |s| >= c + p + 7 && s[0] == '=' && s[1] == '?'
    requires c > 0 && FieldLength(s[2..]) == c && IsEncodingLetter(s[c + 3]) && s[c + 4] == '?'
    requires FieldLength(s[c + 5..]) == p && s[c + p + 6] == '='
    ensures MatchAt(s) == Some((EncodedWord(s[2..2 + c], s[c + 3], s[c + 5..c + 5 + p]), c + p + 7))
  {
  }

  /** Every well-formed envelope at the start of a string is recognised, whatever follows. */
  lemma MatchAtEnvelope(w: EncodedWord, rest: string)
    requires w.WellFormed()
    ensures MatchAt(w.Envelope() + rest) == Some((w, |w.Envelope()|))
  {
    var s := w.Envelope() + rest;
    var c := |w.charset|;
    var p := |w.payload|;
    assert FieldLength(s[2..]) == c && s[c + 3] == w.encoding && s[c + 4] == '?' && s[2..2 + c] == w.charset by {
      EnvelopeAfterOpening(w, rest);
      FieldLengthOf(w.charset, [w.encoding, '?'] + w.payload + "?=" + rest);
      assert s[c + 3] == s[2..][c + 1];
      assert s[c + 4] == s[2..][c + 2];
      assert s[2..2 + c] == s[2..][..c];
    }
    assert FieldLength(s[c + 5..]) == p && s[c + p + 6] == '=' && s[c + 5..c + 5 + p] == w.payload by {
      EnvelopeAfterEncoding(w, rest);
      FieldLengthOf(w.payload, "=" + rest);
      assert s[c + p + 6] == s[c + 5..][p + 1];
      assert s[c + 5..c + 5 + p] == s[c + 5..][..p];
    }
    MatchAtLayout(s, c, p);
  }

  /** The text an encoded word stands for. `None` from `atob` is its exception, caught
      by returning the payload as it is. */
  function DecodeWord(w: EncodedWord): (r: string)
    ensures |r| <= |w.payload|
  {
    if w.encoding == 'Q' || w.encoding == 'q' then QEncoding.Decode(w.payload)
    else if w.encoding == 'B' || w.encoding == 'b' then
      match Base64.Decode(w.payload)
      case Some(text) => text
      case None => w.payload
    else w.payload
  }

  /** The global `replace` of the envelope pattern, applied to whitespace-free text. */
  function ReplaceEncodedWords(s: string): (r: string)
    ensures |r| <= |s|
    decreases |s|
  {
    if s == [] then []
    else match MatchAt(s)
      case Some((w, n)) => DecodeWord(w) + ReplaceEncodedWords(s[n..])
      case None => [s[0]] + ReplaceEncodedWords(s[1..])
  }

  /** `decodeQuotedPrintable(str)` */
  function DecodeQuotedPrintable(str: string): (r: string)
    ensures |r| <= |str|
    ensures r == [] || (!IsWhitespace(r[0]) && !IsWhitespace(r[|r| - 1]))
  {
    Trim(ReplaceEncodedWords(StripWhitespace(str)))
  }

  lemma ReplaceEnvelope(w: EncodedWord, rest: string)
    requires w.WellFormed()
    ensures ReplaceEncodedWords(w.Envelope() + rest) == DecodeWord(w) + ReplaceEncodedWords(rest)
  {
    var s := w.Envelope() + rest;
    MatchAtEnvelope(w, rest);
    assert s[|w.Envelope()|..] == rest;
  }

  /** A character where no envelope begins is copied, and the scan moves on by one. */
  lemma ReplaceLiteral(c: char, rest: string)
    requires MatchAt([c] + rest).None?
    ensures ReplaceEncodedWords([c] + rest) == [c] + ReplaceEncodedWords(rest)
  {
    assert ([c] + rest)[1..] == rest;
  }

  /** Text at none of whose positions an envelope begins is copied as it is, whatever
      follows it. */
  lemma {:induction false} ReplaceLiteralPrefix(p: string, rest: string)
    requires forall j :: 0 <= j < |p| ==> MatchAt((p + rest)[j..]).None?
    ensures ReplaceEncodedWords(p + rest) == p + ReplaceEncodedWords(rest)
    decreases |p|
  {
    if p == [] {
      assert p + rest == rest;
    } else {
      var t := p[1..] + rest;
      assert p + rest == [p[0]] + t;
      forall j | 0 <= j < |p[1..]| ensures MatchAt(t[j..]).None? {
        assert t[j..] == (p + rest)[j + 1..];
      }
      ReplaceLiteralPrefix(p[1..], rest);
      assert (p + rest)[0..] == [p[0]] + t;
      ReplaceLiteral(p[0], t);
      AppendAssoc([p[0]], p[1..], ReplaceEncodedWords(rest));
      assert [p[0]] + p[1..] == p;
    }
  }

  /** Two envelopes with `=`-free text between them: that text is kept between the two
      decodings, as a comma between two encoded addresses is. */
  lemma ReplaceSeparated(w: EncodedWord, sep: string, v: EncodedWord)
    requires w.WellFormed() && v.WellFormed() && '=' !in sep
    ensures ReplaceEncodedWords(w.Envelope() + sep + v.Envelope()) == DecodeWord(w) + sep + DecodeWord(v)
  {
    var e := v.Envelope();
    forall j | 0 <= j < |sep| ensures MatchAt((sep + e)[j..]).None? {
      assert (sep + e)[j..][0] == sep[j];
    }
    ReplaceLiteralPrefix(sep, e);
    ReplaceEnvelope(v, []);
    assert e + [] == e;
    assert ReplaceEncodedWords([]) == [];
    AppendAssoc(w.Envelope(), sep, e);
    ReplaceEnvelope(w, sep + e);
    AppendAssoc(DecodeWord(w), sep, DecodeWord(v));
  }

  /** The envelopes of a list of words, written one after another. */
  function Envelopes(ws: seq<EncodedWord>): string {
    if ws == [] then [] else ws[0].Envelope() + Envelopes(ws[1..])
  }

  /** The decodings of a list of words, one after another. */
  function Decodings(ws: seq<EncodedWord>): string {
    if ws == [] then [] else DecodeWord(ws[0]) + Decodings(ws[1..])
  }

  /** Adjacent envelopes decode to the concatenation of their decodings. */
  lemma {:induction false} ReplaceEnvelopes(ws: seq<EncodedWord>)
    requires forall i :: 0 <= i < |ws| ==> ws[i].WellFormed()
    ensures ReplaceEncodedWords(Envelopes(ws)) == Decodings(ws)
    decreases |ws|
  {
    if ws != [] {
      ReplaceEnvelope(ws[0], Envelopes(ws[1..]));
      ReplaceEnvelopes(ws[1..]);
    }
  }

  /** A header folded over several lines: each envelope preceded by folding whitespace. */
  function Folded(ws: seq<EncodedWord>, gaps: seq<string>): string
    requires |gaps| == |ws|
  {
    if ws == [] then [] else gaps[0] + ws[0].Envelope() + Folded(ws[1..], gaps[1..])
  }

  predicate WhitespaceFree(w: EncodedWord) {
    NoWhitespace(w.charset) && NoWhitespace(w.payload) && !IsWhitespace(w.encoding)
  }

  lemma EnvelopeWhitespaceFree(w: EncodedWord)
    requires WhitespaceFree(w)
    ensures StripWhitespace(w.Envelope()) == w.Envelope()
  {
    StripIdentity(w.Envelope());
  }

  /** Deleting the whitespace of a gap and a whitespace-free envelope leaves the envelope. */
  lemma StripGapEnvelope(gap: string, w: EncodedWord, rest: string)
    requires AllWhitespace(gap) && WhitespaceFree(w)
    ensures StripWhitespace(gap + w.Envelope() + rest) == w.Envelope() + StripWhitespace(rest)
  {
    var e := w.Envelope();
    assert StripWhitespace(gap + e) == e by {
      StripAppend(gap, e);
      StripAllWhitespace(gap);
      EnvelopeWhitespaceFree(w);
    }
    StripAppend(gap + e, rest);
  }

  lemma {:induction false} StripFolded(ws: seq<EncodedWord>, gaps: seq<string>)
    requires |gaps| == |ws|
    requires forall i :: 0 <= i < |ws| ==> WhitespaceFree(ws[i])
    requires forall i :: 0 <= i < |gaps| ==> AllWhitespace(gaps[i])
    ensures StripWhitespace(Folded(ws, gaps)) == Envelopes(ws)
    decreases |ws|
  {
    if ws != [] {
      var rest := Folded(ws[1..], gaps[1..]);
      assert Folded(ws, gaps) == gaps[0] + ws[0].Envelope() + rest;
      StripGapEnvelope(gaps[0], ws[0], rest);
      StripFolded(ws[1..], gaps[1..]);
    }
  }

  /** Folding: encoded words separated by folding whitespace decode to the plain
      concatenation of their decodings, trimmed; no space is put between them. */
  lemma DecodeFolded(ws: seq<EncodedWord>, gaps: seq<string>)
    requires |gaps| == |ws|
    requires forall i :: 0 <= i < |ws| ==> ws[i].WellFormed() && WhitespaceFree(ws[i])
    requires forall i :: 0 <= i < |gaps| ==> AllWhitespace(gaps[i])
    ensures DecodeQuotedPrintable(Folded(ws, gaps)) == Trim(Decodings(ws))
  {
    StripFolded(ws, gaps);
    ReplaceEnvelopes(ws);
  }

  /** The two-word case of `DecodeFolded`. */
  lemma DecodeTwoFolded(w1: EncodedWord, gap: string, w2: EncodedWord)
    requires w1.WellFormed() && WhitespaceFree(w1) && w2.WellFormed() && WhitespaceFree(w2)
    requires AllWhitespace(gap)
    ensures DecodeQuotedPrintable(w1.Envelope() + gap + w2.Envelope()) == Trim(DecodeWord(w1) + DecodeWord(w2))
  {
    StripTwoFolded(w1, gap, w2);
    ReplaceTwoEnvelopes(w1, w2);
  }

  lemma StripTwoFolded(w1: EncodedWord, gap: string, w2: EncodedWord)
    requires WhitespaceFree(w1) && WhitespaceFree(w2) && AllWhitespace(gap)
    ensures StripWhitespace(w1.Envelope() + gap + w2.Envelope()) == w1.Envelope() + w2.Envelope()
  {
    var e1, e2 := w1.Envelope(), w2.Envelope();
    StripGapEnvelope([], w1, gap + e2);
    assert [] + e1 + (gap + e2) == e1 + gap + e2;
    StripGapEnvelope(gap, w2, []);
    assert gap + e2 + [] == gap + e2;
  }

  lemma ReplaceTwoEnvelopes(w1: EncodedWord, w2: EncodedWord)
    requires w1.WellFormed() && WhitespaceFree(w1) && w2.WellFormed() && WhitespaceFree(w2)
    ensures ReplaceEncodedWords(w1.Envelope() + w2.Envelope()) == DecodeWord(w1) + DecodeWord(w2)
  {
    var e2 := w2.Envelope();
    assert ReplaceEncodedWords(e2) == DecodeWord(w2) by {
      ReplaceSingleEnvelope(w2);
    }
    ReplaceEnvelope(w1, e2);
  }

  lemma ReplaceSingleEnvelope(w: EncodedWord)
    requires w.WellFormed()
    ensures ReplaceEncodedWords(w.Envelope()) == DecodeWord(w)
  {
    var e := w.Envelope();
    assert e + [] == e;
    ReplaceEnvelope(w, []);
  }

  /** Some envelope is recognised somewhere in `t`. */
  predicate HasEncodedWord(t: string) {
    exists i {:trigger MatchAt(t[i..])} :: 0 <= i < |t| && MatchAt(t[i..]).Some?
  }

  /** Text without envelopes passes through the replacement unchanged, and text with
      one always changes, because a decoding is shorter than its envelope. */
  lemma {:induction false} ReplaceIdentity(t: string)
    ensures ReplaceEncodedWords(t) == t <==> !HasEncodedWord(t)
    decreases |t|
  {
    if t != [] {
      ReplaceIdentity(t[1..]);
      match MatchAt(t)
      case Some((w, n)) =>
        assert t[0..] == t;
        assert |ReplaceEncodedWords(t)| < |t|;
      case None =>
        if HasEncodedWord(t) {
          var i :| 0 <= i < |t| && MatchAt(t[i..]).Some?;
          assert i != 0 by { assert t[0..] == t; }
          assert t[1..][i - 1..] == t[i..];
        }
        if HasEncodedWord(t[1..]) {
          var i :| 0 <= i < |t[1..]| && MatchAt(t[1..][i..]).Some?;
          assert t[1..][i..] == t[i + 1..];
        }
        assert ReplaceEncodedWords(t) == [t[0]] + ReplaceEncodedWords(t[1..]);
        if ReplaceEncodedWords(t) == t {
          assert ReplaceEncodedWords(t[1..]) == ReplaceEncodedWords(t)[1..];
        }
    }
  }

  /** Passthrough: a header with no envelope (once whitespace is deleted) decodes to
      itself without whitespace, and only such headers do. */
  lemma DecodePassthrough(raw: string)
    ensures DecodeQuotedPrintable(raw) == StripWhitespace(raw) <==> !HasEncodedWord(StripWhitespace(raw))
  {
    var s := StripWhitespace(raw);
    var r := ReplaceEncodedWords(s);
    ReplaceIdentity(s);
    if r == s {
      TrimNoWhitespace(s);
    }
    if Trim(r) == s {
      assert r == s by {
        TrimShortens(r);
        assert |Trim(r)| == |r|;
      }
    }
  }

  /** Plain headers are a fixed point of decoding. */
  lemma DecodeIdempotentOnPlain(raw: string)
    requires !HasEncodedWord(StripWhitespace(raw))
    ensures DecodeQuotedPrintable(DecodeQuotedPrintable(raw)) == DecodeQuotedPrintable(raw)
  {
    DecodePassthrough(raw);
    var s := StripWhitespace(raw);
    StripIdentity(s);
    DecodePassthrough(s);
  }

  /** `?=` occurs nowhere in `t`. */
  predicate NoTerminator(t: string) {
    forall i :: 0 <= i < |t| - 1 ==> t[i] != '?' || t[i + 1] != '='
  }

  /** An envelope needs its closing `?=`: text in which `?=` never occurs, such as a
      dangling `=?utf-8?Q?...` without terminator, holds no envelope. */
  lemma NoTerminatorNoEnvelope(t: string)
    requires NoTerminator(t)
    ensures !HasEncodedWord(t)
  {
    forall i | 0 <= i < |t| ensures MatchAt(t[i..]).None? {
      MatchAtSound(t[i..]);
    }
  }

  /** An empty payload decodes to nothing, whatever the encoding. */
  lemma EmptyPayload(charset: string, encoding: char)
    ensures DecodeWord(EncodedWord(charset, encoding, [])) == []
  {
  }

  /** An escape whose digits are not hexadecimal stays literal: `=?utf-8?Q?=XX?=`
      decodes to `=XX`. */
  lemma InvalidHexEnvelope(charset: string, x1: char, x2: char)
    requires |charset| > 0 && '?' !in charset && NoWhitespace(charset)
    requires !QEncoding.IsHexDigit(x1) && x1 != '?' && x1 != '_' && !IsWhitespace(x1)
    requires x2 != '?' && x2 != '_' && !IsWhitespace(x2)
    ensures DecodeQuotedPrintable(EncodedWord(charset, 'Q', ['=', x1, x2]).Envelope()) == ['=', x1, x2]
  {
    var w := EncodedWord(charset, 'Q', ['=', x1, x2]);
    assert w.WellFormed() && WhitespaceFree(w);
    DecodeSingleEnvelope(w);
    QEncoding.DecodeNonHexEscape(x1, x2);
    TrimNoWhitespace(['=', x1, x2]);
  }

  /** An empty payload gives an empty header: `=?utf-8?Q??=` decodes to the empty
      string. */
  lemma EmptyEnvelope(charset: string, encoding: char)
    requires |charset| > 0 && '?' !in charset && NoWhitespace(charset) && IsEncodingLetter(encoding)
    ensures DecodeQuotedPrintable(EncodedWord(charset, encoding, []).Envelope()) == []
  {
    DecodeSingleEnvelope(EncodedWord(charset, encoding, []));
  }

  /** A header in which `?=` never occurs once its whitespace is deleted, such as the
      unterminated `=?utf-8?Q?incomplete encoded word`, only loses its whitespace. */
  lemma UnterminatedPassthrough(raw: string)
    requires NoTerminator(StripWhitespace(raw))
    ensures DecodeQuotedPrintable(raw) == StripWhitespace(raw)
  {
    NoTerminatorNoEnvelope(StripWhitespace(raw));
    DecodePassthrough(raw);
  }

  /** A header that is one whitespace-free envelope decodes to its decoding, trimmed. */
  lemma DecodeSingleEnvelope(w: EncodedWord)
    requires w.WellFormed() && WhitespaceFree(w)
    ensures DecodeQuotedPrintable(w.Envelope()) == Trim(DecodeWord(w))
  {
    var e := w.Envelope();
    assert StripWhitespace(e) == e by {
      EnvelopeWhitespaceFree(w);
    }
    assert ReplaceEncodedWords(e) == DecodeWord(w) by {
      ReplaceEnvelope(w, []);
      assert e + [] == e;
      assert ReplaceEncodedWords([]) == [];
    }
  }

  /** "Q" round trip through a whole header: an encoded word holding the "Q" encoding
      of a text decodes to that text, trimmed. */
  lemma DecodeQWord(charset: string, text: string)
    requires |charset| > 0 && '?' !in charset && NoWhitespace(charset) && IsLatin1(text)
    ensures DecodeQuotedPrintable(EncodedWord(charset, 'Q', QEncoding.Encode(text)).Envelope()) == Trim(text)
  {
    var w := EncodedWord(charset, 'Q', QEncoding.Encode(text));
    DecodeSingleEnvelope(w);
    QEncoding.DecodeEncode(text);
  }

  /** A header that is one "B" envelope whose payload `atob` accepts decodes to what
      `atob` returns, trimmed. */
  lemma DecodeBEnvelope(charset: string, payload: string, text: string)
    requires |charset| > 0 && '?' !in charset && NoWhitespace(charset)
    requires '?' !in payload && NoWhitespace(payload) && Base64.Decode(payload) == Some(text)
    ensures DecodeQuotedPrintable(EncodedWord(charset, 'B', payload).Envelope()) == Trim(text)
  {
    var w := EncodedWord(charset, 'B', payload);
    DecodeSingleEnvelope(w);
  }

  /** "B" round trip through a whole header: an encoded word holding the Base64
      encoding of some bytes decodes to the characters of those bytes, trimmed. */
  lemma DecodeBWord(charset: string, bytes: seq<Base64.Byte>)
    requires |charset| > 0 && '?' !in charset && NoWhitespace(charset)
    ensures DecodeQuotedPrintable(EncodedWord(charset, 'B', Base64.Encode(bytes)).Envelope())
            == Trim(Base64.Latin1(bytes))
  {
    Base64.EncodeAlphabet(bytes);
    Base64.DecodeEncode(bytes);
    DecodeBEnvelope(charset, Base64.Encode(bytes), Base64.Latin1(bytes));
  }

  /** Failure containment: a "B" payload that `atob` rejects comes back unchanged. */
  lemma DecodeBadBase64(charset: string, payload: string)
    requires Base64.Decode(payload).None?
    ensures DecodeWord(EncodedWord(charset, 'B', payload)) == payload
    ensures DecodeWord(EncodedWord(charset, 'b', payload)) == payload
  {
  }

  /** In particular a payload holding a character that `atob` refuses comes back as it is. */
  lemma DecodeForeignBase64(charset: string, payload: string, k: nat)
    requires k < |payload| && !Base64.IsAlphabetChar(payload[k]) && payload[k] != '='
    requires !Base64.IsAsciiWhitespace(payload[k])
    ensures DecodeWord(EncodedWord(charset, 'B', payload)) == payload
    ensures DecodeWord(EncodedWord(charset, 'b', payload)) == payload
  {
    Base64.DecodeRejectsForeignChar(payload, k);
    DecodeBadBase64(charset, payload);
  }
}
