# Fastmail unsubscribe: header decoding and link extraction

This project models the string-processing core of the Fastmail unsubscribe
userscript. That core turns the text shown beside a message's
`List-Unsubscribe:` detail title (RFC 2369, section 3.2) into an ordered
list of `{type, url}` links, and from those picks the targets of the two
unsubscribe buttons.

- **`EncodedWords`** models `decodeQuotedPrintable`, the RFC 2047 encoded-word
  decoder. It deletes every whitespace character, then replaces each
  `=?charset?Q|B?payload?=` envelope found in a left-to-right scan with its
  decoding, then trims. The charset is ignored.
  - `QEncoding` models the "Q" branch: `_` becomes a space, then each `=XX`
    escape is decoded.
  - `Base64` models `atob` as the forgiving-base64 decode of the WHATWG
    Infra Standard, which yields one Latin-1 character per byte. Its error is the
    `None` case, and the caller catches it by returning the payload as it is.
  - The replace callback's final `return encodedText` can never run.
    `MatchAt` only recognises the letters `Q`, `q`, `B` and `b`
    (`EncodedWord.WellFormed`), and `DecodeWord` handles all four.
- **`UnsubscribeLinks`** models `parseUnsubscribeLinks` in its own imperative
  form:
  - the `forEach` over the titles, in which the last labelled title wins
    (`FindUnsubscribeTitle`);
  - the two reassignments of the header text: decoding when it starts with
    `=?`, then collapsing whitespace;
  - the two `while (regex.exec(...))` loops that push links (`CollectLinks`).

  Each method is proved equal to a specification function (`Parse`,
  `LinksOf`, `ClassifyAll` of `Matches`). `LinkProperties` proves what those
  functions promise.
  - The page is abstracted as an optional sequence of detail titles. Each
    title holds its text and the text of its next sibling, if there is one.
    `None` stands for a missing details section. A title's index stands for
    the title node and its sibling node.
  - The bracket and bare-URL regular expressions are deterministic, so each
    is modelled as a matcher anchored at one position (`MatchAt`) and a scan
    that resumes where the last match ended (`Exec`, `Matches`). The
    envelope pattern of the decoder is modelled the same way, in
    `EncodedWords.MatchAt`.
  - In the bare-URL pattern the parenthesised group can never match. The
    character class before it already takes `(` and `)` and stops only at
    whitespace, `,`, `<`, `>`, `"` or `'`. A bare token is therefore a scheme
    (`https://`, `http://` or `mailto:`, in any letter case) followed by a
    maximal non-empty run of such characters.
- **`Buttons`** models which links `createUnsubscribeButtons` turns into
  buttons:
  - nothing for an empty list;
  - otherwise the first `http` link and the first `email` link.
- **`Text`** holds the JavaScript string primitives these use:
  - the `\s` class;
  - `trim()`;
  - deleting all whitespace;
  - collapsing runs of whitespace;
  - ASCII-only case folding under the `i` flag.

**Where the tests and the code disagree, the model follows the code.**
- `fastmail-unsubscribe.test.js:8` imports `decodeEncodedWord`, but the code
  defines `decodeQuotedPrintable`.
- The test at `fastmail-unsubscribe.test.js:43-44` expects the unterminated
  `=?utf-8?Q?incomplete encoded word` back unchanged. The code deletes its
  spaces (line 69), as `EncodedWords.UnterminatedPassthrough` states.
- The test at `fastmail-unsubscribe.test.js:15-16` expects the URL
  percent-escapes in its payload (`%241%24kYdlZ%2FMtZKhQo1fCiaeJUA%3D`) to be
  decoded to `$1$kYdlZ/MtZKhQo1fCiaeJUA=`. The code decodes only the `=XX`
  escapes of the "Q" encoding, so the `%XX` sequences stay as they are
  (`QEncoding.DecodePlainPrefix`).
- The test at `fastmail-unsubscribe.test.js:116-120` expects no links for
  `<not-a-valid-url>, <mailto:invalid@`. An HTML parser reads part of that
  markup as a tag. On the text itself, the code's fallback pass returns one
  email link, `mailto:invalid@` (`LinkProperties.MalformedList`).

## Model

| member | source | states |
|---|---|---|
| Text.AsciiLower | fastmail-unsubscribe.js:72 | case folding under the `i` flag maps exactly the ASCII capitals to their lower-case letters and leaves every other character alone |
| Text.StripWhitespace | fastmail-unsubscribe.js:69 | the result contains no whitespace and is no longer than the input |
| Text.StripIdentity | fastmail-unsubscribe.js:69 | deleting whitespace leaves a string unchanged exactly when it contains no whitespace |
| Text.StripAppend | fastmail-unsubscribe.js:69 | deleting whitespace distributes over concatenation |
| Text.StripAllWhitespace | fastmail-unsubscribe.js:69 | a string made only of whitespace disappears entirely |
| Text.TrimStart | fastmail-unsubscribe.js:91 | the result is a suffix of the input that starts with a non-whitespace character, and everything removed is whitespace |
| Text.TrimEnd | fastmail-unsubscribe.js:91 | the result is a prefix of the input that ends with a non-whitespace character, and everything removed is whitespace |
| Text.Trim | fastmail-unsubscribe.js:91 | the result is no longer than the input and is empty or has non-whitespace at both ends |
| Text.TrimIdentity | fastmail-unsubscribe.js:108 | `trim()` leaves a string unchanged exactly when it is empty or has non-whitespace at both ends |
| Text.TrimAllWhitespace | fastmail-unsubscribe.js:108-109 | `trim()` yields the empty string exactly for all-whitespace input, the case that returns `{links: []}` |
| Text.TrimShortens | fastmail-unsubscribe.js:91 | `trim()` either leaves a string unchanged or makes it strictly shorter |
| Text.TrimStrip | fastmail-unsubscribe.js:91 | trimming removes only whitespace: the non-whitespace characters stay, in order |
| Text.TrimNoWhitespace | fastmail-unsubscribe.js:91 | a string without whitespace is its own trim |
| Text.TrimPadded | fastmail-unsubscribe.js:102 | `trim()` removes exactly the whitespace padding around a text whose ends are not whitespace |
| Text.AsciiWhitespace | fastmail-unsubscribe.js:69 | among ASCII characters `\s` is exactly the space and the controls from tab to carriage return |
| Text.Latin1Whitespace | fastmail-unsubscribe.js:69 | the only Latin-1 character above ASCII in `\s` is the no-break space U+00A0 |
| Text.SingleSpacedMeans | fastmail-unsubscribe.js:117 | the single-spacing invariant holds exactly when every whitespace character is a plain space and no two spaces are adjacent |
| Text.CollapseRuns | fastmail-unsubscribe.js:117 | `replace(/\s+/g, ' ')` yields single-spaced text, is no longer than its input, and begins with a space when the input begins with whitespace and with the input's first character otherwise |
| Text.CollapseRunsStrip | fastmail-unsubscribe.js:117 | collapsing runs keeps every non-whitespace character in order |
| Text.CollapseRunsAppend | fastmail-unsubscribe.js:117 | no whitespace run crosses the end of a text ending in a non-whitespace character, so what follows it is collapsed independently |
| Text.CollapseRunsJoin | fastmail-unsubscribe.js:117 | a whitespace run between a non-whitespace character and a non-whitespace character (or the end) becomes exactly one space, and both sides are collapsed independently |
| Text.CollapseRunsNoWhitespace | fastmail-unsubscribe.js:117 | text without whitespace is left unchanged |
| Text.CollapseRunsLast | fastmail-unsubscribe.js:117 | a non-whitespace last character is still the last character after collapsing |
| Text.CollapseWhitespace | fastmail-unsubscribe.js:117 | the normalised text is single-spaced and empty or has non-whitespace at both ends |
| Text.CollapseWhitespaceStrip | fastmail-unsubscribe.js:117 | normalisation keeps every non-whitespace character in order |
| Text.CollapseWhitespaceJoin | fastmail-unsubscribe.js:117 | two words with any whitespace run between them normalise to the two normalised words with exactly one space between them |
| Text.CollapseWhitespaceIdentity | fastmail-unsubscribe.js:117 | single-spaced text with non-whitespace at both ends is left unchanged |
| Text.CollapseWhitespaceIdempotent | fastmail-unsubscribe.js:117 | normalising twice is the same as normalising once |
| Base64.RemoveAsciiWhitespace | fastmail-unsubscribe.js:85 | `atob` ignores ASCII whitespace: the result has none, equals the input when the input had none, and is empty when the input is all ASCII whitespace |
| Base64.RemoveAsciiWhitespaceAppend | fastmail-unsubscribe.js:85 | whitespace removal distributes over concatenation, so with the one-character cases it keeps exactly the other characters, in order |
| Base64.StripPadding | fastmail-unsubscribe.js:85 | at most two trailing `=` are removed, and only `=`; nothing is removed unless the length is a multiple of four; then a final `=` is always removed, and `==` both |
| Base64.DecodeSextets | fastmail-unsubscribe.js:85 | groups of four sextets give three bytes and a final group of two or three gives one or two, so there are exactly `3n/4` bytes for `n` sextets |
| Base64.CharOf | fastmail-unsubscribe.js:85 | every 6-bit value has an alphabet character that decodes back to it |
| Base64.Latin1 | fastmail-unsubscribe.js:85 | `atob` returns one character per byte, with that byte's code |
| Base64.Decode | fastmail-unsubscribe.js:85 | `atob` fails exactly when the unpadded data has length 1 modulo 4 or holds a character outside the alphabet; on success it returns Latin-1 text no longer than its input |
| Base64.Encode | fastmail-unsubscribe.js:85 | the encoder used as the partner of `atob` yields a multiple of four characters |
| Base64.DecodeEncode | fastmail-unsubscribe.js:85 | `atob` inverts Base64 encoding: decoding the encoding of any bytes gives their Latin-1 characters |
| Base64.SextetsChars | fastmail-unsubscribe.js:85 | reading back the characters written for a list of 6-bit values gives those values |
| Base64.DecodeRejectsForeignChar | fastmail-unsubscribe.js:84-88 | a character outside the alphabet, `=` and ASCII whitespace makes `atob` throw |
| QEncoding.HexValue | fastmail-unsubscribe.js:80 | `parseInt` of one hexadecimal digit is below 16 |
| QEncoding.HexDigit | fastmail-unsubscribe.js:80 | every value below 16 has a digit that `parseInt` reads back as that value |
| QEncoding.Underscores | fastmail-unsubscribe.js:78 | replacing `_` keeps the length, leaves no `_`, and changes a character only from `_` to a space |
| QEncoding.UnderscoresAppend | fastmail-unsubscribe.js:78 | replacing `_` works character by character, across concatenation |
| QEncoding.Unescape | fastmail-unsubscribe.js:79-81 | decoding escapes never lengthens the text, and text without `=` is unchanged |
| QEncoding.UnescapeEscape | fastmail-unsubscribe.js:79-81 | `=XX` with two hexadecimal digits becomes the single character with code 0xXX, and the scan resumes after it, so that character is never rescanned |
| QEncoding.UnescapePlain | fastmail-unsubscribe.js:79-81 | a character other than `=` is copied and the scan resumes after it |
| QEncoding.UnescapeNonHex | fastmail-unsubscribe.js:79 | an `=` not followed by two hexadecimal digits stays literal and the scan resumes right after it |
| QEncoding.DecodeNonHexEscape | fastmail-unsubscribe.js:79 | a payload `=` followed by a non-hexadecimal character decodes to itself, as for `=XX` |
| QEncoding.UnderscoreOrder | fastmail-unsubscribe.js:77-81 | `_` becomes a space, but the escape `=5F` becomes a literal `_`, because underscores are replaced before escapes are decoded |
| QEncoding.Decode | fastmail-unsubscribe.js:77-81 | a "Q" decoding is no longer than its payload and keeps Latin-1 text Latin-1 |
| QEncoding.UnescapeLatin1 | fastmail-unsubscribe.js:79-81 | decoding escapes never produces a character above 255 from Latin-1 text |
| QEncoding.UnescapeNoWhitespace | fastmail-unsubscribe.js:79-81 | the escape scan brings in whitespace only through an escape that stands for whitespace |
| QEncoding.DecodeNoWhitespace | fastmail-unsubscribe.js:77-81 | a payload without whitespace, without `_` and without an escape standing for whitespace decodes to text without whitespace: spaces come only from `_` or escapes |
| QEncoding.UnescapePlainPrefix | fastmail-unsubscribe.js:79-81 | text without `=` is copied by the escape scan, whatever follows it |
| QEncoding.DecodePlainPrefix | fastmail-unsubscribe.js:77-81 | text without `=` and `_`, such as the percent-escape `%24`, is unchanged by "Q" decoding, whatever follows it |
| QEncoding.PlainPayload | fastmail-unsubscribe.js:77-78 | a payload without `=` only has its underscores turned into spaces, and the result has no `_` left |
| QEncoding.DecodeEscapedByte | fastmail-unsubscribe.js:79-81 | every byte written as `=XX`, with digits in upper or lower case, decodes to the character with that code |
| QEncoding.Encode | fastmail-unsubscribe.js:75-81 | the "Q" encoder used as the decoder's partner yields text with no `?` and no whitespace, so it fits in an envelope |
| QEncoding.DecodeEncode | fastmail-unsubscribe.js:75-81 | "Q" decoding inverts "Q" encoding for every Latin-1 text |
| EncodedWords.FieldLength | fastmail-unsubscribe.js:72 | `[^?]*` reaches up to the first `?` or to the end |
| EncodedWords.FieldLengthOf | fastmail-unsubscribe.js:72 | a field without `?` followed by `?` is matched exactly |
| EncodedWords.MatchAt | fastmail-unsubscribe.js:72 | a recognised envelope is well formed (non-empty charset without `?`, letter Q or B in either case, payload without `?`) and its length is that of its parts plus seven |
| EncodedWords.MatchAtSound | fastmail-unsubscribe.js:72 | what is recognised is exactly the envelope written at the start of the text |
| EncodedWords.MatchAtEnvelope | fastmail-unsubscribe.js:72 | every well-formed envelope at the start of a text is recognised, whatever follows it |
| EncodedWords.DecodeWord | fastmail-unsubscribe.js:74-90 | the decoding of an encoded word is never longer than its payload |
| EncodedWords.ReplaceEncodedWords | fastmail-unsubscribe.js:74-90 | the replacement never lengthens the text |
| EncodedWords.DecodeQuotedPrintable | fastmail-unsubscribe.js:68-92 | the result is no longer than the input and is empty or has non-whitespace at both ends |
| EncodedWords.ReplaceEnvelope | fastmail-unsubscribe.js:74 | an envelope at the front is replaced by its decoding and the scan goes on after it |
| EncodedWords.ReplaceLiteral | fastmail-unsubscribe.js:74 | a character at which no envelope begins is copied to the output and the scan goes on at the next character |
| EncodedWords.ReplaceLiteralPrefix | fastmail-unsubscribe.js:74 | text at none of whose positions an envelope begins is copied unchanged, whatever follows it |
| EncodedWords.ReplaceSeparated | fastmail-unsubscribe.js:74 | two envelopes with `=`-free text (such as a comma) between them decode to the two decodings with that text kept between them |
| EncodedWords.ReplaceEnvelopes | fastmail-unsubscribe.js:74 | adjacent envelopes become the concatenation of their decodings |
| EncodedWords.StripFolded | fastmail-unsubscribe.js:69 | deleting whitespace from envelopes separated by folding whitespace leaves the envelopes back to back |
| EncodedWords.DecodeFolded | fastmail-unsubscribe.js:68-92 | encoded words separated by folding whitespace decode to the plain concatenation of their decodings, trimmed, with no space inserted |
| EncodedWords.DecodeTwoFolded | fastmail-unsubscribe.js:68-92 | two encoded words split across a fold decode to their joined decodings, trimmed |
| EncodedWords.ReplaceIdentity | fastmail-unsubscribe.js:72-74 | the replacement leaves a text unchanged exactly when no envelope occurs in it |
| EncodedWords.DecodePassthrough | fastmail-unsubscribe.js:68-92 | decoding yields the input with its whitespace deleted exactly when no envelope occurs in that text |
| EncodedWords.DecodeIdempotentOnPlain | fastmail-unsubscribe.js:68-92 | text without envelopes is a fixed point of decoding |
| EncodedWords.NoTerminatorNoEnvelope | fastmail-unsubscribe.js:72 | text in which `?=` never occurs holds no envelope |
| EncodedWords.UnterminatedPassthrough | fastmail-unsubscribe.js:69-72 | a header without a closing `?=`, such as `=?utf-8?Q?incomplete encoded word`, only loses its whitespace |
| EncodedWords.EmptyPayload | fastmail-unsubscribe.js:74-90 | an empty payload decodes to the empty string, whatever the encoding |
| EncodedWords.EmptyEnvelope | fastmail-unsubscribe.js:68-92 | a header that is one envelope with an empty payload, such as `=?utf-8?Q??=`, decodes to the empty string |
| EncodedWords.InvalidHexEnvelope | fastmail-unsubscribe.js:79 | an envelope whose payload is `=` and two characters that are not a hexadecimal escape, such as `=?utf-8?Q?=XX?=`, decodes to that payload |
| EncodedWords.DecodeSingleEnvelope | fastmail-unsubscribe.js:68-92 | a header that is one envelope decodes to that envelope's decoding, trimmed |
| EncodedWords.DecodeQWord | fastmail-unsubscribe.js:75-81 | a "Q" envelope holding the encoding of a text decodes to that text, trimmed |
| EncodedWords.DecodeBEnvelope | fastmail-unsubscribe.js:82-85 | a "B" envelope whose payload `atob` accepts decodes to what `atob` returns, trimmed |
| EncodedWords.DecodeBWord | fastmail-unsubscribe.js:82-85 | a "B" envelope holding the Base64 encoding of some bytes decodes to their characters, trimmed |
| EncodedWords.DecodeBadBase64 | fastmail-unsubscribe.js:84-88 | whenever `atob` throws, the payload is returned unchanged, for `B` and `b` alike |
| EncodedWords.DecodeForeignBase64 | fastmail-unsubscribe.js:84-88 | in particular a payload with a character outside the alphabet, `=` and ASCII whitespace is returned unchanged |
| UnsubscribeLinks.Run | fastmail-unsubscribe.js:120 | a greedy run of the character class stops at the first character outside it or at the end |
| UnsubscribeLinks.RunOf | fastmail-unsubscribe.js:134 | a run over a body without stop characters, followed by a stop character or the end, covers exactly that body |
| UnsubscribeLinks.SchemeLength | fastmail-unsubscribe.js:134 | the scheme `https?:\/\/` or `mailto:` takes 0, 7 or 8 characters of the text, starts with `h` or `m` in either case and ends with `:` or `/` |
| UnsubscribeLinks.SchemeLengthOf | fastmail-unsubscribe.js:134 | the scheme takes 8 characters exactly when the text starts with `https://`, 7 exactly when it starts with `http://` or `mailto:` (each in any case), and none otherwise |
| UnsubscribeLinks.SchemeLengthZero | fastmail-unsubscribe.js:134 | no scheme matches text whose first letter is not `h` or `m` in either case |
| UnsubscribeLinks.MatchAt | fastmail-unsubscribe.js:120 | a match consumes at least one character and no more than the text |
| UnsubscribeLinks.BracketMatchSound | fastmail-unsubscribe.js:120 | a bracket match is `<`, a non-empty capture without `>` or whitespace, and `>` |
| UnsubscribeLinks.BareMatchSound | fastmail-unsubscribe.js:134 | a bare match is a scheme plus a maximal run, ending at a stop character or the end of the text |
| UnsubscribeLinks.MatchAtText | fastmail-unsubscribe.js:120-137 | the text a link is taken from is never empty and never contains whitespace |
| UnsubscribeLinks.BracketMatch | fastmail-unsubscribe.js:120 | every `<content>` with content free of `>` and whitespace is matched, capturing the content |
| UnsubscribeLinks.SchemeLengthAppend | fastmail-unsubscribe.js:134 | the scheme of a token of at least eight characters does not depend on what follows it |
| UnsubscribeLinks.BareMatch | fastmail-unsubscribe.js:134 | every bare token followed by a stop character or the end is matched whole |
| UnsubscribeLinks.PatternMatcherWellBehaved | fastmail-unsubscribe.js:120-137 | both patterns consume at least one character per match and yield non-empty, whitespace-free text |
| UnsubscribeLinks.MatchesLength | fastmail-unsubscribe.js:122 | a global scan yields no more texts than the text has characters, because every match consumes at least one |
| UnsubscribeLinks.MatchesText | fastmail-unsubscribe.js:122-137 | every text a global scan yields is non-empty and free of whitespace |
| UnsubscribeLinks.Exec | fastmail-unsubscribe.js:122 | `exec` from `lastIndex` returns the first position at or after it where the pattern matches, with no match before it; null means no match anywhere after `lastIndex` |
| UnsubscribeLinks.ExecMatches | fastmail-unsubscribe.js:122-129 | the scan's texts are the text of the first `exec` match followed by the texts found after its end |
| UnsubscribeLinks.Classify | fastmail-unsubscribe.js:123-128 | a trimmed text gives a link exactly when it starts with `http` or `mailto`, case-sensitively; the link keeps the trimmed text and is `http` exactly when it starts with `http` |
| UnsubscribeLinks.ClassifyAll | fastmail-unsubscribe.js:122-129 | there are never more links than candidates, and every link's type agrees with its url's prefix |
| UnsubscribeLinks.ClassifyAllCons | fastmail-unsubscribe.js:122-129 | the first candidate contributes its own link, if any, before the rest |
| UnsubscribeLinks.ClassifyAllAppend | fastmail-unsubscribe.js:122-129 | links keep the order of their candidates |
| UnsubscribeLinks.ClassifyAllEmpty | fastmail-unsubscribe.js:132 | a pass pushes nothing exactly when none of its candidates classifies |
| UnsubscribeLinks.LinksIn | fastmail-unsubscribe.js:120-129 | one pass yields no more links than the text has characters, each typed by its url's prefix |
| UnsubscribeLinks.LinksOf | fastmail-unsubscribe.js:119-144 | the extractor yields nothing exactly when neither pass yields a link; at most one link per character, each typed by its prefix |
| UnsubscribeLinks.Normalised | fastmail-unsubscribe.js:112-117 | the text both passes scan is single-spaced and has no whitespace at either end |
| UnsubscribeLinks.LabelPadded | fastmail-unsubscribe.js:102 | a title is labelled whatever whitespace surrounds `List-Unsubscribe:`, since its text is trimmed |
| UnsubscribeLinks.Labels | fastmail-unsubscribe.js:101-102 | there is one label test per title |
| UnsubscribeLinks.LastTrue | fastmail-unsubscribe.js:101-106 | the position found is within the sequence |
| UnsubscribeLinks.LastTrueSpec | fastmail-unsubscribe.js:101-106 | the position found holds `true` and every later one `false`; nothing is found only when all are `false` |
| UnsubscribeLinks.LastLabelled | fastmail-unsubscribe.js:101-106 | the title found is one of the titles |
| UnsubscribeLinks.LastLabelledSpec | fastmail-unsubscribe.js:101-106 | the title found is labelled `List-Unsubscribe:` after trimming and no later title is; none is found only when no title is labelled |
| UnsubscribeLinks.LastLabelledSnoc | fastmail-unsubscribe.js:101-106 | one more title takes over exactly when it is labelled |
| UnsubscribeLinks.ResultFor | fastmail-unsubscribe.js:108-145 | the result has no title handles exactly when the value is all whitespace, and then no links; otherwise it carries the found title |
| UnsubscribeLinks.Parse | fastmail-unsubscribe.js:95-146 | a result exists only for a page with details and a labelled title, and the title it reports is the last labelled one |
| UnsubscribeLinks.FindUnsubscribeTitle | fastmail-unsubscribe.js:99-106 | the `forEach` leaves the last labelled title and its sibling, or nothing when no title is labelled |
| UnsubscribeLinks.PushLink | fastmail-unsubscribe.js:123-128 | the loop body appends the classified link, if any, and keeps all earlier links |
| UnsubscribeLinks.CollectLinks | fastmail-unsubscribe.js:120-129 | an `exec` loop appends the classified links of all the pattern's matches, in order |
| UnsubscribeLinks.ExtractLinks | fastmail-unsubscribe.js:119-144 | the two loops yield the bracket pass's links, or the bare pass's when the bracket pass pushed nothing |
| UnsubscribeLinks.ParseUnsubscribeLinks | fastmail-unsubscribe.js:95-146 | the method returns exactly what the specification `Parse` gives for the page |
| LinkProperties.FallbackRule | fastmail-unsubscribe.js:132 | the bare-URL pass decides the result exactly when no bracket candidate classifies; once one does, bare URLs are never extracted and the result is non-empty |
| LinkProperties.LastLabelWins | fastmail-unsubscribe.js:101-107 | with several labelled titles the last one decides: its missing sibling gives null, otherwise its sibling's text is parsed |
| LinkProperties.LastLabelledAt | fastmail-unsubscribe.js:101-106 | a labelled title with no labelled title after it is the one found |
| LinkProperties.ParseNull | fastmail-unsubscribe.js:96-107 | the result is null exactly when the details section is missing, no title is labelled, or the last labelled title has no sibling |
| LinkProperties.LinksInWellFormed | fastmail-unsubscribe.js:120-143 | every link of a pass is correctly typed, with a non-empty url free of whitespace |
| LinkProperties.LinksOfWellFormed | fastmail-unsubscribe.js:119-144 | every extracted link is correctly typed, with a non-empty url free of whitespace |
| LinkProperties.ResultWellFormed | fastmail-unsubscribe.js:108-145 | every link returned for a header value is correctly typed, with a non-empty url free of whitespace |
| LinkProperties.ParseLinksWellFormed | fastmail-unsubscribe.js:95-146 | every link the parser returns is correctly typed, with a non-empty url free of whitespace |
| LinkProperties.ClassifyAllUrls | fastmail-unsubscribe.js:123-142 | every url pushed is one of the candidate texts, non-empty and free of whitespace |
| LinkProperties.ClassifyPlain | fastmail-unsubscribe.js:123-128 | a whitespace-free text starting with `http` or `mailto` becomes a link with that text |
| LinkProperties.ClassifyAllPlain | fastmail-unsubscribe.js:122-129 | candidates that all classify become their links in the same order, with none dropped or repeated |
| LinkProperties.MatchesItem | fastmail-unsubscribe.js:122 | a matched item followed by `, ` contributes its capture, then the scan goes on with the rest |
| LinkProperties.MatchesJoined | fastmail-unsubscribe.js:122-136 | a `, `-separated list of matching items yields their captures in order |
| LinkProperties.BracketListMatches | fastmail-unsubscribe.js:120-122 | a `<a>, <b>, ...` list yields its contents as bracket candidates, in order |
| LinkProperties.BareListMatches | fastmail-unsubscribe.js:134-136 | an `a, b, ...` list of bare tokens yields those tokens as bare candidates, in order |
| LinkProperties.Separators | fastmail-unsubscribe.js:120-134 | neither pattern matches at a `,` or a space |
| LinkProperties.MatchesNone | fastmail-unsubscribe.js:122 | a scan over a text where the pattern matches nowhere yields nothing |
| LinkProperties.NoAngleNoBracketMatches | fastmail-unsubscribe.js:120 | text without `<` yields no bracket candidates |
| LinkProperties.NoCloseNoBracketMatches | fastmail-unsubscribe.js:120 | text without `>` yields no bracket candidates |
| LinkProperties.BracketNeedsClose | fastmail-unsubscribe.js:120 | a bracket match needs a `>` in the text |
| LinkProperties.BareTokenNoAngle | fastmail-unsubscribe.js:134 | a bare token contains no `<` |
| LinkProperties.JoinedShape | fastmail-unsubscribe.js:117 | a `, `-separated list of whitespace-free items is single-spaced and has no whitespace at either end |
| LinkProperties.JoinedNoAngle | fastmail-unsubscribe.js:134 | joining items without `<` gives text without `<` |
| LinkProperties.BracketListNormal | fastmail-unsubscribe.js:108-117 | a `<a>, <b>` list is unchanged by trimming and by whitespace normalisation |
| LinkProperties.BracketListLinks | fastmail-unsubscribe.js:120-132 | a `<a>, <b>` list of `http`/`mailto` urls gives exactly those links in order, and the bare pass does not run |
| LinkProperties.BareTokenFacts | fastmail-unsubscribe.js:134 | a bare token is non-empty, free of whitespace and `<`, and starts with `h` or `m` in either case |
| LinkProperties.BareListShape | fastmail-unsubscribe.js:134 | a list of bare tokens is single-spaced, has no `<` and no whitespace at either end, and does not start with `=` |
| LinkProperties.BareListNormal | fastmail-unsubscribe.js:108-117 | a list of bare tokens is unchanged by trimming and normalisation and has no `<` |
| LinkProperties.BareListLinks | fastmail-unsubscribe.js:132-143 | with no brackets, a list of `http`/`mailto` tokens gives exactly those links in order; tokens stop at `,` |
| LinkProperties.UpperCaseSchemesDropped | fastmail-unsubscribe.js:134-142 | tokens such as `HTTP://...` are matched by the case-insensitive pattern but dropped by the case-sensitive classification |
| LinkProperties.ParseHeader | fastmail-unsubscribe.js:108-145 | a found, already trimmed value gives the links of its normalised text and the title's handles |
| LinkProperties.ParseBracketHeader | fastmail-unsubscribe.js:95-146 | a plain `<a>, <b>` header of `http`/`mailto` urls parses to exactly those links in order |
| LinkProperties.QEnvelopeTrimmed | fastmail-unsubscribe.js:108-112 | a "Q" envelope is non-empty, its own trim, and starts with `=?`, so the decoder runs on it |
| LinkProperties.QEncodedHeader | fastmail-unsubscribe.js:112-117 | a "Q" envelope of already normalised text normalises back to that text |
| LinkProperties.ParseEncodedHeader | fastmail-unsubscribe.js:112-145 | a header that is one "Q" envelope is decoded before its links are extracted |
| LinkProperties.ParseEncodedBracketHeader | fastmail-unsubscribe.js:95-146 | a "Q"-encoded `<a>, <b>` header of `http`/`mailto` urls parses to exactly those links in order |
| LinkProperties.MatchesSkip | fastmail-unsubscribe.js:122 | a prefix where the pattern matches nowhere is skipped by the scan |
| LinkProperties.BracketThenUnclosed | fastmail-unsubscribe.js:120 | after a closed `<c>`, an unclosed `<...` yields no further candidate |
| LinkProperties.BareNoMatch | fastmail-unsubscribe.js:134 | the bare pattern cannot match at a character other than `h` or `m` in either case |
| LinkProperties.BareSkip | fastmail-unsubscribe.js:134-136 | a prefix with no `h` or `m` in either case is skipped by the bare scan |
| LinkProperties.BareSingle | fastmail-unsubscribe.js:134-136 | a lone bare token is matched whole, once |
| LinkProperties.BareAfterNoScheme | fastmail-unsubscribe.js:134-136 | a bare token after a prefix without `h` or `m` is the only bare candidate |
| LinkProperties.MailtoToken | fastmail-unsubscribe.js:134 | `mailto:` followed by a non-empty run is a bare token |
| LinkProperties.SchemeToken | fastmail-unsubscribe.js:134 | any of the three schemes, written in any case, followed by a non-empty run free of whitespace, `,`, `<`, `>`, `"` and `'` is a bare token |
| LinkProperties.HttpToken | fastmail-unsubscribe.js:134 | `https://` and `http://`, in lower or upper case, followed by such a run are bare tokens |
| LinkProperties.BareFallbackPair | fastmail-unsubscribe.js:120-143 | a header `https://<r>, mailto:<e>` gives no bracket link and, from the fallback pass, the `http` link `https://<r>` followed by the `email` link `mailto:<e>` |
| LinkProperties.NoSchemeLetterFramed | fastmail-unsubscribe.js:134 | framing text without `h` or `m` as `<c>, <` adds no such letter |
| LinkProperties.NonLinkThenBare | fastmail-unsubscribe.js:120-143 | `<c>, <mailto:...` with a non-link `c` pushes nothing in the bracket pass, so the fallback returns the unclosed `mailto` token as an email link |
| LinkProperties.MalformedList | fastmail-unsubscribe.js:120-143 | on the text `<not-a-valid-url>, <mailto:invalid@`, the bracket pass pushes nothing and the fallback returns one email link `mailto:invalid@` |
| Buttons.FirstIndex | fastmail-unsubscribe.js:162-163 | the position found holds a link of the type and no earlier link has it; nothing is found only when no link has it |
| Buttons.Find | fastmail-unsubscribe.js:162-163 | `find` yields one of the links, of the requested type, and nothing exactly when no link has that type |
| Buttons.ButtonTargets | fastmail-unsubscribe.js:150 | there are no buttons, the early `false`, exactly when the list is empty |
| Buttons.FindFirst | fastmail-unsubscribe.js:162-163 | `find` yields the earliest link of the requested type, and nothing exactly when no link has that type |
| Buttons.FindPrefix | fastmail-unsubscribe.js:162-163 | links appended after one of the requested type do not change which one `find` picks |
| Buttons.SomeButton | fastmail-unsubscribe.js:161-179 | a non-empty list always gives at least one button |
| Buttons.ButtonUrls | fastmail-unsubscribe.js:165-179 | for well-typed links, the web button's url starts with `http` and the email button's with `mailto` |

## Left out

- The page itself is not modelled. `querySelector`, `querySelectorAll`,
  `textContent` and `nextElementSibling` become the optional sequence of
  titles and sibling texts described above. The node handles
  `unsubscribeTitle` and `unsubscribeValue` in the result become the
  title's index.
- An HTML parser's reading of a header's markup (as in the test at
  `fastmail-unsubscribe.test.js:116-120`) is not modelled. The model works
  on the text the page shows.
- The optional chaining and `|| ''` on `textContent` (line 108) are not
  modelled: a sibling's text is always a string.
- `createUnsubscribeButtons` builds and inserts DOM elements (lines 152-159,
  165-192). Only the choice of links is modelled. The `Array.isArray` test
  is dropped because the argument is always a sequence, and the final
  `false` when no insertion target exists is left out.
- The style sheet, the `MutationObserver` and its flags, the click handler
  and `log` are user-interface and I/O code. They are not modelled.
- The charset of an encoded word is ignored by the code, and no transcoding
  is modelled. A Dafny `char` is a Unicode scalar value, not a UTF-16 code
  unit: a lone surrogate cannot occur in the model, and a character outside
  the Basic Multilingual Plane is one `char` where JavaScript sees two code
  units. The operations modelled never split such a pair, because `\s`,
  `trim()` and the patterns only test characters inside the Basic
  Multilingual Plane.
- `atob` is modelled by the forgiving-base64 decode algorithm of the WHATWG
  Infra Standard. The browser's implementation is not part of this model.
- All three regular expressions (the envelope pattern at line 72, the
  bracket pattern at line 120 and the bare-URL pattern at line 134) are
  modelled by hand-written deterministic matchers. The equivalence to the JavaScript regular-expression engine is
  argued in `UnsubscribeLinks`, not proved.
- The four decoding tests at `fastmail-unsubscribe.test.js:13-32` and the
  split header at `fastmail-unsubscribe.test.js:85` are not restated as
  concrete lemmas. Their payloads are not what the encoder `QEncoding.Encode`
  produces: they escape `/` and `+`, which it keeps plain, and keep `%`,
  which it escapes. The headers at lines 15 and 85 are two envelopes each. Their
  decoding follows from `EncodedWords.DecodeTwoFolded` (two envelopes across
  a fold), `QEncoding.UnescapeEscape` (each `=XX`), `QEncoding.UnescapePlain`
  (each plain character) and `QEncoding.DecodePlainPrefix` (the kept `%XX`).
  The fallback test at `fastmail-unsubscribe.test.js:94-103` is covered in
  its link extraction: once decoded, its header reads
  `https://example.com/unsubscribe, mailto:unsubscribe@example.com`, and
  `LinkProperties.BareFallbackPair` gives its two links in order.
