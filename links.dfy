/**
 * `parseUnsubscribeLinks`: finds the `List-Unsubscribe:` entry among the message
 * detail titles, takes the text of the element after it, decodes it when it begins
 * with an encoded word, normalises its whitespace, and collects `{type, url}` links:
 * first from `<...>` brackets, and only when those give no classified link, from bare
 * `http(s)://` and `mailto:` tokens.
 *
 * The page is abstracted as the texts of the detail titles, each with the text of its
 * next sibling element, if it has one; `None` stands for a missing details section.
 * A title's index in that sequence stands for the title node and its sibling node.
 *
 * Both regular expressions are deterministic: a greedy run of the character class
 * always stops at a character the following part of the pattern cannot use, so the
 * first attempt at a position is the only one that can succeed.  In the bare-URL
 * pattern the parenthesised group can never match, because the run before it already
 * takes every `(` and `)` and stops only at whitespace, `,`, `<`, `>`, `"` or `'`.
 */
module UnsubscribeLinks {
  import opened Options
  import opened Text
  import EncodedWords
  import QEncoding

  /** The two patterns of the link extractor. */
  datatype Pattern = AngleBracket | BareUrl

  datatype LinkKind = Http | Email

  /** `{ type: 'http' | 'email', url }` */
  datatype Link = Link(kind: LinkKind, url: string)

  /** A detail title with the text of its next sibling element, if there is one. */
  datatype Title = Title(text: string, sibling: Option<string>)

  /** The returned object: its links and, except for an empty value, the index of the
      title whose sibling held the header. */
  datatype ParseResult = ParseResult(links: seq<Link>, title: Option<nat>)

  /** One `exec` match: where it starts, where `lastIndex` goes next, and the text the
      link is taken from (the capture group, or the whole match for bare URLs). */
  datatype Match = Match(start: nat, end: nat, capture: string)

  /** The characters that end a run: `[^>\s]` for brackets, `[^\s,<>"']` for bare URLs. */
  predicate Stops(p: Pattern, c: char) {
    match p
    case AngleBracket => c == '>' || IsWhitespace(c)
    case BareUrl => IsWhitespace(c) || c == ',' || c == '<' || c == '>' || c == '"' || c == '\''
  }

  predicate NoStops(p: Pattern, s: string) {
    forall i :: 0 <= i < |s| ==> !Stops(p, s[i])
  }

  /** How far the greedy run of the pattern's character class reaches. */
  function Run(p: Pattern, t: string): (n: nat)
    ensures n <= |t| && NoStops(p, t[..n])
    ensures n == |t| || Stops(p, t[n])
    decreases |t|
  {
    if t == [] || Stops(p, t[0]) then 0
    else
      var n := 1 + Run(p, t[1..]);
      assert t[..n] == [t[0]] + t[1..][..n - 1];
      n
  }

  lemma {:induction false} RunOf(p: Pattern, body: string, rest: string)
    requires NoStops(p, body)
    requires rest == [] || Stops(p, rest[0])
    ensures Run(p, body + rest) == |body|
    decreases |body|
  {
    if body == [] {
      assert body + rest == rest;
    } else {
      assert (body + rest)[0] == body[0] && (body + rest)[1..] == body[1..] + rest;
      RunOf(p, body[1..], rest);
    }
  }

  /** Length of the scheme that `https?:\/\/` or `mailto:` (case-insensitively) matches
      at the start of `t`, or 0. */
  function SchemeLength(t: string): (n: nat)
    ensures n == 0 || n == 7 || n == 8
    ensures n <= |t|
    ensures n > 0 ==> AsciiLower(t[0]) == 'h' || AsciiLower(t[0]) == 'm'
    ensures n > 0 ==> t[n - 1] == ':' || t[n - 1] == '/'
  {
    if StartsWithIgnoringCase(t, "https://") then 8
    else if StartsWithIgnoringCase(t, "http://") then 7
    else if StartsWithIgnoringCase(t, "mailto:") then 7
    else 0
  }

  /** Which scheme is recognised: `https://` gives 8, `http://` and `mailto:` give 7
      (each in any case), and any other text gives no scheme. */
  lemma SchemeLengthOf(t: string)
    ensures SchemeLength(t) == 8 <==> StartsWithIgnoringCase(t, "https://")
    ensures SchemeLength(t) == 7 <==> StartsWithIgnoringCase(t, "http://") || StartsWithIgnoringCase(t, "mailto:")
    ensures SchemeLength(t) == 0 <==>
              !StartsWithIgnoringCase(t, "https://") && !StartsWithIgnoringCase(t, "http://") && !StartsWithIgnoringCase(t, "mailto:")
  {
    if StartsWithIgnoringCase(t, "https://") {
      assert AsciiLower(t[4]) == 's' && "http://"[4] == ':' && "mailto:"[0] == 'm' && AsciiLower(t[0]) == 'h';
    }
  }

  /** No scheme begins with a character other than `h` or `m` in either case. */
  lemma SchemeLengthZero(t: string)
    requires t != [] && AsciiLower(t[0]) != 'h' && AsciiLower(t[0]) != 'm'
    ensures SchemeLength(t) == 0
  {
    assert "https://"[0] == 'h' && "http://"[0] == 'h' && "mailto:"[0] == 'm';
  }

  /** The match of the pattern that begins exactly at the start of `t`, as its length
      and the text the link is taken from. */
  function MatchAt(p: Pattern, t: string): (m: Option<(nat, string)>)
    ensures m.Some? ==> 0 < m.value.0 <= |t|
  {
    match p
    case AngleBracket =>
      if t == [] || t[0] != '<' then None
      else
        var n := Run(p, t[1..]);
        if n == 0 || n + 1 >= |t| || t[n + 1] != '>' then None
        else Some((n + 2, t[1..n + 1]))
    case BareUrl =>
      var k := SchemeLength(t);
      if k == 0 then None
      else
        var n := Run(p, t[k..]);
        if n == 0 then None else Some((k + n, t[..k + n]))
  }

  /** A bracket match is `<`, a non-empty content free of `>` and whitespace, and `>`. */
  lemma BracketMatchSound(t: string)
    ensures MatchAt(AngleBracket, t).Some? ==>
              var (n, c) := MatchAt(AngleBracket, t).value;
              n == |c| + 2 && t[..n] == ['<'] + c + ['>'] && c != [] && NoStops(AngleBracket, c)
  {
    if MatchAt(AngleBracket, t).Some? {
      var n := Run(AngleBracket, t[1..]);
      assert t[1..n + 1] == t[1..][..n];
      assert t[..n + 2] == ['<'] + t[1..n + 1] + ['>'];
    }
  }

  /** A bare match is a whole bare token that nothing after it could extend. */
  lemma BareMatchSound(t: string)
    ensures MatchAt(BareUrl, t).Some? ==>
              var (n, c) := MatchAt(BareUrl, t).value;
              c == t[..n] && IsBareToken(c) && (n == |t| || Stops(BareUrl, t[n]))
  {
    if MatchAt(BareUrl, t).Some? {
      var k := SchemeLength(t);
      var n := Run(BareUrl, t[k..]);
      var c := t[..k + n];
      SchemeLengthAppend(c, t[k + n..]);
      assert c + t[k + n..] == t;
      assert c[k..] == t[k..][..n];
    }
  }

  /** A match's text is never empty and holds no whitespace. */
  lemma MatchAtText(p: Pattern, t: string)
    ensures MatchAt(p, t).Some? ==> MatchAt(p, t).value.1 != [] && NoWhitespace(MatchAt(p, t).value.1)
  {
    match p
    case AngleBracket =>
      BracketMatchSound(t);
    case BareUrl =>
      BareMatchSound(t);
      if MatchAt(p, t).Some? {
        var c := MatchAt(p, t).value.1;
        var k := SchemeLength(c);
        forall i | 0 <= i < |c| ensures !IsWhitespace(c[i]) {
          if i >= k {
            assert c[i] == c[k..][i - k];
          } else {
            assert AsciiLower(c[i]) != c[i] || !IsWhitespace(c[i]);
          }
        }
      }
  }

  /** Every `<content>` with a non-empty content free of `>` and whitespace is matched,
      whatever follows it. */
  lemma BracketMatch(c: string, rest: string)
    requires c != [] && NoStops(AngleBracket, c)
    ensures MatchAt(AngleBracket, ['<'] + c + ['>'] + rest) == Some((|c| + 2, c))
  {
    var t := ['<'] + c + ['>'] + rest;
    assert t[1..] == c + (['>'] + rest);
    RunOf(AngleBracket, c, ['>'] + rest);
    assert t[|c| + 1] == '>';
    assert t[1..|c| + 1] == c;
  }

  /** A bare token: a scheme (any case) followed by a non-empty run free of whitespace,
      `,`, `<`, `>`, `"` and `'`. */
  predicate IsBareToken(u: string) {
    SchemeLength(u) > 0 && |u| > SchemeLength(u) && NoStops(BareUrl, u[SchemeLength(u)..])
  }

  lemma SchemeLengthAppend(u: string, rest: string)
    requires |u| >= 8
    ensures SchemeLength(u + rest) == SchemeLength(u)
  {
    assert forall i :: 0 <= i < 8 ==> (u + rest)[i] == u[i];
  }

  /** Every bare token is matched in full when what follows cannot extend it. */
  lemma BareMatch(u: string, rest: string)
    requires IsBareToken(u)
    requires rest == [] || Stops(BareUrl, rest[0])
    ensures MatchAt(BareUrl, u + rest) == Some((|u|, u))
  {
    var k, t := SchemeLength(u), u + rest;
    assert SchemeLength(t) == k by {
      SchemeLengthAppend(u, rest);
    }
    assert Run(BareUrl, t[k..]) == |u| - k by {
      assert t[k..] == u[k..] + rest;
      RunOf(BareUrl, u[k..], rest);
    }
    assert t[..|u|] == u;
  }

  /** A sticky matcher: the match, if any, that begins exactly at the start of a string,
      as its length and the text the link is taken from. */
  type Matcher = string -> Option<(nat, string)>

  /** What both patterns guarantee of their matches: they consume something, and their
      text is non-empty and free of whitespace. */
  ghost predicate WellBehaved(f: Matcher) {
    forall t :: f(t).Some? ==> 0 < f(t).value.0 <= |t| && f(t).value.1 != [] && NoWhitespace(f(t).value.1)
  }

  /** The sticky matcher of a pattern. */
  function PatternMatcher(p: Pattern): Matcher {
    t => MatchAt(p, t)
  }

  lemma PatternMatcherWellBehaved(p: Pattern)
    ensures WellBehaved(PatternMatcher(p))
  {
    forall t ensures PatternMatcher(p)(t).Some? ==>
                       0 < PatternMatcher(p)(t).value.0 <= |t| && PatternMatcher(p)(t).value.1 != [] &&
                       NoWhitespace(PatternMatcher(p)(t).value.1) {
      MatchAtText(p, t);
    }
  }

  /** The texts of the successive matches of a global `exec` scan from the start of `t`:
      each scan resumes where the previous match ended. */
  function Matches(f: Matcher, t: string): (cs: seq<string>)
    requires WellBehaved(f)
    decreases |t|
  {
    if t == [] then []
    else
      var m := f(t);
      if m.Some? then [m.value.1] + Matches(f, t[m.value.0..]) else Matches(f, t[1..])
  }

  /** A global scan yields at most one text per character, because every match
      consumes at least one. */
  lemma {:induction false} MatchesLength(f: Matcher, t: string)
    requires WellBehaved(f)
    ensures |Matches(f, t)| <= |t|
    decreases |t|
  {
    if t != [] {
      var m := f(t);
      if m.Some? {
        MatchesLength(f, t[m.value.0..]);
      } else {
        MatchesLength(f, t[1..]);
      }
    }
  }

  /** Every match text is non-empty and free of whitespace. */
  lemma {:induction false} MatchesText(f: Matcher, t: string)
    requires WellBehaved(f)
    ensures forall i :: 0 <= i < |Matches(f, t)| ==> Matches(f, t)[i] != [] && NoWhitespace(Matches(f, t)[i])
    decreases |t|
  {
    if t != [] {
      var m := f(t);
      if m.Some? {
        MatchesText(f, t[m.value.0..]);
        var cs := Matches(f, t[m.value.0..]);
        assert Matches(f, t) == [m.value.1] + cs;
        assert forall i :: 1 <= i < 1 + |cs| ==> ([m.value.1] + cs)[i] == cs[i - 1];
      } else {
        MatchesText(f, t[1..]);
      }
    }
  }

  /** `regex.exec(s)` with `regex.lastIndex == from`: the leftmost match at or after
      `from`. */
  function Exec(f: Matcher, s: string, from: nat): (r: Option<Match>)
    requires WellBehaved(f)
    ensures r.Some? ==> from <= r.value.start < r.value.end <= |s| &&
                        f(s[r.value.start..]) == Some((r.value.end - r.value.start, r.value.capture))
    ensures r.Some? ==> forall i {:trigger f(s[i..])} :: from <= i < r.value.start ==> f(s[i..]).None?
    ensures r.None? ==> forall i {:trigger f(s[i..])} :: from <= i < |s| ==> f(s[i..]).None?
    decreases |s| - from
  {
    if from >= |s| then None
    else
      var m := f(s[from..]);
      if m.Some? then Some(Match(from, from + m.value.0, m.value.1)) else Exec(f, s, from + 1)
  }

  /** `exec` from `from` finds the first of the remaining matches, and the scan goes on
      from its end. */
  lemma {:induction false} ExecMatches(f: Matcher, s: string, from: nat)
    requires WellBehaved(f) && from <= |s|
    ensures Exec(f, s, from).None? ==> Matches(f, s[from..]) == []
    ensures Exec(f, s, from).Some? ==>
              Matches(f, s[from..]) == [Exec(f, s, from).value.capture] + Matches(f, s[Exec(f, s, from).value.end..])
    decreases |s| - from
  {
    if from < |s| {
      var t := s[from..];
      var m := f(t);
      if m.Some? {
        assert t[m.value.0..] == s[from + m.value.0..];
      } else {
        assert t[1..] == s[from + 1..];
        ExecMatches(f, s, from + 1);
      }
    }
  }

  /** `url.trim()` followed by the case-sensitive `startsWith('http')` and
      `startsWith('mailto')` tests. */
  function Classify(candidate: string): (l: Option<Link>)
    ensures l.Some? <==> StartsWith(Trim(candidate), "http") || StartsWith(Trim(candidate), "mailto")
    ensures l.Some? ==> l.value.url == Trim(candidate) && (l.value.kind == Http <==> StartsWith(l.value.url, "http"))
  {
    var url := Trim(candidate);
    if StartsWith(url, "http") then Some(Link(Http, url))
    else if StartsWith(url, "mailto") then Some(Link(Email, url))
    else None
  }

  /** A link whose type agrees with the prefix of its url. */
  predicate WellTyped(l: Link) {
    (l.kind == Http ==> StartsWith(l.url, "http")) && (l.kind == Email ==> StartsWith(l.url, "mailto"))
  }

  /** The links pushed for a sequence of candidates, in order, unclassified ones dropped. */
  function ClassifyAll(cs: seq<string>): (links: seq<Link>)
    ensures |links| <= |cs|
    ensures forall i :: 0 <= i < |links| ==> WellTyped(links[i])
    decreases |cs|
  {
    if cs == [] then []
    else match Classify(cs[0])
      case Some(l) => [l] + ClassifyAll(cs[1..])
      case None => ClassifyAll(cs[1..])
  }

  /** One candidate at the front contributes its own link, if any. */
  lemma ClassifyAllCons(c: string, rest: seq<string>)
    ensures ClassifyAll([c] + rest) == (if Classify(c).Some? then [Classify(c).value] else []) + ClassifyAll(rest)
  {
    assert ([c] + rest)[0] == c && ([c] + rest)[1..] == rest;
  }

  lemma {:induction false} ClassifyAllAppend(a: seq<string>, b: seq<string>)
    ensures ClassifyAll(a + b) == ClassifyAll(a) + ClassifyAll(b)
    decreases |a|
  {
    if a == [] {
      assert a + b == b;
    } else {
      assert (a + b)[0] == a[0] && (a + b)[1..] == a[1..] + b;
      ClassifyAllAppend(a[1..], b);
    }
  }

  /** Nothing is pushed exactly when no candidate is classified. */
  lemma {:induction false} ClassifyAllEmpty(cs: seq<string>)
    ensures ClassifyAll(cs) == [] <==> forall i :: 0 <= i < |cs| ==> Classify(cs[i]).None?
    decreases |cs|
  {
    if cs != [] {
      var rest := cs[1..];
      ClassifyAllEmpty(rest);
      ClassifyAllHead(cs);
      assert forall i :: 1 <= i < |cs| ==> cs[i] == rest[i - 1];
    }
  }

  lemma ClassifyAllHead(cs: seq<string>)
    requires cs != []
    ensures ClassifyAll(cs) == [] <==> Classify(cs[0]).None? && ClassifyAll(cs[1..]) == []
  {
  }

  /** The texts one pass of the extractor takes links from. */
  function Candidates(p: Pattern, t: string): (cs: seq<string>)
    ensures |cs| <= |t|
  {
    PatternMatcherWellBehaved(p);
    MatchesLength(PatternMatcher(p), t);
    Matches(PatternMatcher(p), t)
  }

  /** The links one pass of the extractor collects from the normalised text. */
  function LinksIn(p: Pattern, t: string): (links: seq<Link>)
    ensures |links| <= |t|
    ensures forall k :: 0 <= k < |links| ==> WellTyped(links[k])
  {
    ClassifyAll(Candidates(p, t))
  }

  /** The bracket pass, and the bare-URL pass only when the bracket pass classified
      nothing. */
  function LinksOf(t: string): (links: seq<Link>)
    ensures links == [] <==> LinksIn(AngleBracket, t) == [] && LinksIn(BareUrl, t) == []
    ensures |links| <= |t|
    ensures forall k :: 0 <= k < |links| ==> WellTyped(links[k])
  {
    var bracketed := LinksIn(AngleBracket, t);
    if bracketed != [] then bracketed else LinksIn(BareUrl, t)
  }

  /** The header text as the passes see it: decoded when it begins with `=?`, then with
      every whitespace run turned into one space and trimmed. */
  function Normalised(h: string): (t: string)
    ensures SingleSpaced(t) && (t == [] || (!IsWhitespace(t[0]) && !IsWhitespace(t[|t| - 1])))
  {
    CollapseWhitespace(if StartsWith(h, "=?") then EncodedWords.DecodeQuotedPrintable(h) else h)
  }

  /** What the title text is compared with. */
  predicate IsLabel(t: Title) {
    Trim(t.text) == "List-Unsubscribe:"
  }

  /** Whitespace around the label does not matter, since the title text is trimmed. */
  lemma LabelPadded(pre: string, post: string, sibling: Option<string>)
    requires AllWhitespace(pre) && AllWhitespace(post)
    ensures IsLabel(Title(pre + "List-Unsubscribe:" + post, sibling))
  {
    TrimPadded(pre, "List-Unsubscribe:", post);
  }

  /** Which titles carry the label, in order. */
  function Labels(titles: seq<Title>): (bs: seq<bool>)
    ensures |bs| == |titles|
  {
    seq(|titles|, i requires 0 <= i < |titles| => IsLabel(titles[i]))
  }

  /** Position of the last `true`, if any. */
  function LastTrue(bs: seq<bool>): (r: Option<nat>)
    ensures r.Some? ==> r.value < |bs|
    decreases |bs|
  {
    if bs == [] then None
    else if bs[|bs| - 1] then Some(|bs| - 1)
    else LastTrue(bs[..|bs| - 1])
  }

  lemma {:induction false} LastTrueSpec(bs: seq<bool>)
    ensures var r := LastTrue(bs);
            (r.Some? ==> bs[r.value] && forall j :: r.value < j < |bs| ==> !bs[j]) &&
            (r.None? ==> forall j :: 0 <= j < |bs| ==> !bs[j])
    decreases |bs|
  {
    if bs != [] && !bs[|bs| - 1] {
      var front := bs[..|bs| - 1];
      LastTrueSpec(front);
      assert forall j :: 0 <= j < |front| ==> front[j] == bs[j];
    }
  }

  /** The title the `forEach` leaves in `unsubscribeTitle`: the last labelled one. */
  function LastLabelled(titles: seq<Title>): (r: Option<nat>)
    ensures r.Some? ==> r.value < |titles|
  {
    LastTrue(Labels(titles))
  }

  /** The title found is labelled, no later title is, and none is found only when no
      title is labelled. */
  lemma LastLabelledSpec(titles: seq<Title>)
    ensures var r := LastLabelled(titles);
            (r.Some? ==> IsLabel(titles[r.value]) && forall j :: r.value < j < |titles| ==> !IsLabel(titles[j])) &&
            (r.None? ==> forall j :: 0 <= j < |titles| ==> !IsLabel(titles[j]))
  {
    var bs := Labels(titles);
    LastTrueSpec(bs);
    forall j | 0 <= j < |titles| ensures IsLabel(titles[j]) == bs[j] {}
  }

  /** One more title: it is the one found if it is labelled. */
  lemma LastLabelledSnoc(titles: seq<Title>, i: nat)
    requires i < |titles|
    ensures LastLabelled(titles[..i + 1]) == if IsLabel(titles[i]) then Some(i) else LastLabelled(titles[..i])
  {
    var bs := Labels(titles[..i + 1]);
    assert bs[..i] == Labels(titles[..i]);
    assert bs[i] == IsLabel(titles[i]);
  }

  /** The result for the header text found beside the title at index `i`. */
  function ResultFor(value: string, i: nat): (r: ParseResult)
    ensures r.title.None? <==> AllWhitespace(value)
    ensures r.title.None? ==> r.links == []
    ensures r.title.Some? ==> r.title == Some(i)
  {
    TrimAllWhitespace(value);
    var h := Trim(value);
    if h == [] then ParseResult([], None) else ParseResult(LinksOf(Normalised(h)), Some(i))
  }

  /** `parseUnsubscribeLinks()` as a value: `None` is its `null`. */
  function Parse(details: Option<seq<Title>>): (r: Option<ParseResult>)
    ensures r.Some? ==> details.Some? && LastLabelled(details.value).Some?
    ensures r.Some? && r.value.title.Some? ==> r.value.title == LastLabelled(details.value)
  {
    match details
    case None => None
    case Some(titles) =>
      match LastLabelled(titles)
      case None => None
      case Some(i) =>
        match titles[i].sibling
        case None => None
        case Some(value) => Some(ResultFor(value, i))
  }

  /** The `forEach` over the titles: each labelled title overwrites the found title
      and its sibling. */
  method FindUnsubscribeTitle(titles: seq<Title>) returns (unsubscribeTitle: Option<nat>, unsubscribeValue: Option<string>)
    ensures unsubscribeTitle == LastLabelled(titles)
    ensures unsubscribeValue == if unsubscribeTitle.Some? then titles[unsubscribeTitle.value].sibling else None
  {
    unsubscribeTitle, unsubscribeValue := None, None;
    var i := 0;
    while i < |titles|
      invariant i <= |titles|
      invariant unsubscribeTitle == LastLabelled(titles[..i])
      invariant unsubscribeValue == if unsubscribeTitle.Some? then titles[unsubscribeTitle.value].sibling else None
    {
      LastLabelledSnoc(titles, i);
      if Trim(titles[i].text) == "List-Unsubscribe:" {
        unsubscribeTitle := Some(i);
        unsubscribeValue := titles[i].sibling;
      }
      i := i + 1;
    }
    assert titles[..i] == titles;
  }

  /** The body of the `exec` loop: the match text is trimmed and pushed as an http link
      or an email link according to its prefix, or dropped. */
  method PushLink(links0: seq<Link>, candidate: string) returns (links: seq<Link>)
    ensures links == links0 + (if Classify(candidate).Some? then [Classify(candidate).value] else [])
  {
    links := links0;
    var url := Trim(candidate);
    if StartsWith(url, "http") {
      links := links + [Link(Http, url)];
    } else if StartsWith(url, "mailto") {
      links := links + [Link(Email, url)];
    }
  }

  /** One `while ((match = regex.exec(headerText)) !== null)` loop: each match's text is
      trimmed, classified and pushed onto `links`. */
  method CollectLinks(regex: Matcher, headerText: string, links0: seq<Link>) returns (links: seq<Link>)
    requires WellBehaved(regex)
    ensures links == links0 + ClassifyAll(Matches(regex, headerText))
  {
    links := links0;
    var lastIndex := 0;
    var found := Exec(regex, headerText, lastIndex);
    while found.Some?
      invariant lastIndex <= |headerText|
      invariant found == Exec(regex, headerText, lastIndex)
      invariant links + ClassifyAll(Matches(regex, headerText[lastIndex..])) == links0 + ClassifyAll(Matches(regex, headerText))
      decreases |headerText| - lastIndex
    {
      ghost var before := links;
      ghost var after := ClassifyAll(Matches(regex, headerText[found.value.end..]));
      ghost var pushed := if Classify(found.value.capture).Some? then [Classify(found.value.capture).value] else [];
      assert ClassifyAll(Matches(regex, headerText[lastIndex..])) == pushed + after by {
        ExecMatches(regex, headerText, lastIndex);
        ClassifyAllCons(found.value.capture, Matches(regex, headerText[found.value.end..]));
      }
      links := PushLink(links, found.value.capture);
      assert links + after == before + (pushed + after) by {
        AppendAssoc(before, pushed, after);
      }
      lastIndex := found.value.end;
      found := Exec(regex, headerText, lastIndex);
    }
    ExecMatches(regex, headerText, lastIndex);
  }

  /** `parseUnsubscribeLinks()`: the lookup, the two reassignments of the header text, the
      bracket pass and, when it pushed nothing, the bare-URL pass. */
  method ParseUnsubscribeLinks(details: Option<seq<Title>>) returns (r: Option<ParseResult>)
    ensures r == Parse(details)
  {
    if details.None? {
      return None;
    }
    var unsubscribeTitle, unsubscribeValue := FindUnsubscribeTitle(details.value);
    if unsubscribeValue.None? {
      return None;
    }
    ParseFound(details.value, unsubscribeTitle.value, unsubscribeValue.value);
    var headerText := Trim(unsubscribeValue.value);
    if headerText == [] {
      return Some(ParseResult([], None));
    }
    ghost var trimmed := headerText;
    if StartsWith(headerText, "=?") {
      headerText := EncodedWords.DecodeQuotedPrintable(headerText);
    }
    headerText := CollapseWhitespace(headerText);
    assert headerText == Normalised(trimmed);
    var links := ExtractLinks(headerText);
    return Some(ParseResult(links, unsubscribeTitle));
  }

  /** Once the last labelled title and its sibling are known, the result is the one for
      the sibling's text. */
  lemma ParseFound(titles: seq<Title>, i: nat, value: string)
    requires LastLabelled(titles) == Some(i) && titles[i].sibling == Some(value)
    ensures Parse(Some(titles)) == Some(ResultFor(value, i))
  {
  }

  /** The two passes over the normalised header text: the bracket loop, then the
      bare-URL loop only when the first pushed nothing. */
  method ExtractLinks(headerText: string) returns (links: seq<Link>)
    ensures links == LinksOf(headerText)
  {
    links := [];
    PatternMatcherWellBehaved(AngleBracket);
    links := CollectLinks(PatternMatcher(AngleBracket), headerText, links);
    if |links| == 0 {
      PatternMatcherWellBehaved(BareUrl);
      links := CollectLinks(PatternMatcher(BareUrl), headerText, links);
    }
  }
}
