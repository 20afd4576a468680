/**
 * What `parseUnsubscribeLinks` does with the headers senders actually write: a
 * `, `-separated list of `<url>` items is read back item by item, a list of bare urls
 * is read by the fallback pass only, an encoded header is decoded first, and the last
 * `List-Unsubscribe:` title is the one used.
 */
module LinkProperties {
  import opened Options
  import opened Text
  import opened UnsubscribeLinks
  import EncodedWords
  import QEncoding

  /** Header items separated by `, `. */
  function Joined(parts: seq<string>): string
    decreases |parts|
  {
    if parts == [] then []
    else if |parts| == 1 then parts[0]
    else parts[0] + ", " + Joined(parts[1..])
  }

  /** `<u>` */
  function Angle(u: string): string {
    ['<'] + u + ['>']
  }

  function Angles(us: seq<string>): seq<string> {
    seq(|us|, i requires 0 <= i < |us| => Angle(us[i]))
  }

  /** `<u1>, <u2>, ...` */
  function BracketList(us: seq<string>): string {
    Joined(Angles(us))
  }

  /** What the bracket pattern captures whole: non-empty, no `>`, no whitespace. */
  predicate Bracketable(u: string) {
    u != [] && NoStops(AngleBracket, u)
  }

  /** A list of whitespace-free items is already in the normal form of the header. */
  lemma {:induction false} JoinedShape(parts: seq<string>)
    requires forall i :: 0 <= i < |parts| ==> parts[i] != [] && NoWhitespace(parts[i])
    ensures SingleSpaced(Joined(parts))
    ensures parts != [] ==> Joined(parts) != [] && Joined(parts)[0] == parts[0][0] &&
                            !IsWhitespace(Joined(parts)[|Joined(parts)| - 1])
    decreases |parts|
  {
    if |parts| == 1 {
      NoWhitespaceSingleSpaced(parts[0]);
    } else if |parts| > 1 {
      var l := Joined(parts[1..]);
      JoinedShape(parts[1..]);
      assert parts[1..][0] == parts[1];
      JoinedStep(parts[0], l);
      assert Joined(parts) == parts[0] + ([','] + ([' '] + l));
    }
  }

  /** One whitespace-free item, `, ` and a single-spaced rest that begins and ends
      with something other than whitespace. */
  lemma JoinedStep(a: string, l: string)
    requires a != [] && NoWhitespace(a)
    requires SingleSpaced(l) && l != [] && !IsWhitespace(l[0]) && !IsWhitespace(l[|l| - 1])
    ensures var s := a + ([','] + ([' '] + l));
            SingleSpaced(s) && s[0] == a[0] && !IsWhitespace(s[|s| - 1])
  {
    var sep := [','] + ([' '] + l);
    NoWhitespaceSingleSpaced(a);
    SingleSpacedCons(' ', l);
    SingleSpacedCons(',', [' '] + l);
    SingleSpacedAppend(a, sep);
    assert (a + sep)[|a + sep| - 1] == l[|l| - 1];
  }

  lemma MatchesHit(f: Matcher, t: string)
    requires WellBehaved(f) && f(t).Some?
    ensures Matches(f, t) == [f(t).value.1] + Matches(f, t[f(t).value.0..])
  {
  }

  /** A text matched whole gives that one capture. */
  lemma MatchesWhole(f: Matcher, t: string, cap: string)
    requires WellBehaved(f) && f(t) == Some((|t|, cap))
    ensures Matches(f, t) == [cap]
  {
    MatchesHit(f, t);
    assert t[|t|..] == [];
  }

  lemma MatchesMiss(f: Matcher, c: char, t: string)
    requires WellBehaved(f) && f([c] + t).None?
    ensures Matches(f, [c] + t) == Matches(f, t)
  {
    assert ([c] + t)[1..] == t;
  }

  /** One item followed by `, ` and the rest of the list: its capture, then whatever
      the rest gives. */
  lemma MatchesItem(f: Matcher, p: string, cap: string, l: string)
    requires WellBehaved(f) && f(p + (", " + l)) == Some((|p|, cap))
    requires f([','] + ([' '] + l)).None? && f([' '] + l).None?
    ensures Matches(f, p + (", " + l)) == [cap] + Matches(f, l)
  {
    var s := p + (", " + l);
    var r := [','] + ([' '] + l);
    assert s[|p|..] == r by {
      assert ", " + l == r;
    }
    assert Matches(f, s) == [cap] + Matches(f, r) by {
      MatchesHit(f, s);
    }
    assert Matches(f, r) == Matches(f, l) by {
      MatchesMiss(f, ',', [' '] + l);
      MatchesMiss(f, ' ', l);
    }
  }

  /** Each item is matched whole when a `,` or the end follows it. */
  ghost predicate ItemsMatch(f: Matcher, parts: seq<string>, caps: seq<string>)
    requires |parts| == |caps|
  {
    forall i, rest {:trigger f(parts[i] + rest)} :: 0 <= i < |parts| && (rest == [] || rest[0] == ',') ==>
      f(parts[i] + rest) == Some((|parts[i]|, caps[i]))
  }

  lemma ItemsMatchTail(f: Matcher, parts: seq<string>, caps: seq<string>)
    requires |parts| == |caps| && parts != [] && ItemsMatch(f, parts, caps)
    ensures ItemsMatch(f, parts[1..], caps[1..])
  {
    forall i, r {:trigger f(parts[1..][i] + r)} | 0 <= i < |parts[1..]| && (r == [] || r[0] == ',')
      ensures f(parts[1..][i] + r) == Some((|parts[1..][i]|, caps[1..][i]))
    {
      assert parts[1..][i] == parts[i + 1] && caps[1..][i] == caps[i + 1];
      assert f(parts[i + 1] + r) == Some((|parts[i + 1]|, caps[i + 1]));
    }
  }

  /** A scan over a `, `-separated list reads back one capture per item, provided each
      item is matched whole when a `,` or the end follows it, and nothing matches at a
      `,` or a space. */
  lemma {:induction false} MatchesJoined(f: Matcher, parts: seq<string>, caps: seq<string>)
    requires WellBehaved(f) && |parts| == |caps| && ItemsMatch(f, parts, caps)
    requires forall t :: f([','] + t).None? && f([' '] + t).None?
    ensures Matches(f, Joined(parts)) == caps
    decreases |parts|
  {
    if parts != [] {
      var p := parts[0];
      if |parts| == 1 {
        assert f(p) == Some((|p|, caps[0])) by {
          assert f(p + []) == Some((|p|, caps[0]));
          assert p + [] == p;
        }
        MatchesWhole(f, p, caps[0]);
      } else {
        MatchesJoinedHead(f, parts, caps);
        ItemsMatchTail(f, parts, caps);
        MatchesJoined(f, parts[1..], caps[1..]);
        assert caps == [caps[0]] + caps[1..];
      }
    }
  }

  /** The first of several items gives its capture, then the scan goes on after the
      `, ` that follows it. */
  lemma MatchesJoinedHead(f: Matcher, parts: seq<string>, caps: seq<string>)
    requires WellBehaved(f) && |parts| == |caps| && |parts| > 1 && ItemsMatch(f, parts, caps)
    requires forall t :: f([','] + t).None? && f([' '] + t).None?
    ensures Matches(f, Joined(parts)) == [caps[0]] + Matches(f, Joined(parts[1..]))
  {
    var p := parts[0];
    var l := Joined(parts[1..]);
    assert Joined(parts) == p + (", " + l) by {
      AppendAssoc(p, ", ", l);
    }
    assert f(p + (", " + l)) == Some((|p|, caps[0])) by {
      assert (", " + l)[0] == ',';
    }
    MatchesItem(f, p, caps[0], l);
  }

  /** The bracket pass reads a `<u1>, <u2>, ...` list back as `u1, u2, ...`. */
  lemma BracketListMatches(us: seq<string>)
    requires forall i :: 0 <= i < |us| ==> Bracketable(us[i])
    ensures Candidates(AngleBracket, BracketList(us)) == us
  {
    PatternMatcherWellBehaved(AngleBracket);
    BracketItems(us);
    Separators(AngleBracket);
    MatchesJoined(PatternMatcher(AngleBracket), Angles(us), us);
  }

  lemma BracketItems(us: seq<string>)
    requires forall i :: 0 <= i < |us| ==> Bracketable(us[i])
    ensures ItemsMatch(PatternMatcher(AngleBracket), Angles(us), us)
  {
    forall i, rest {:trigger PatternMatcher(AngleBracket)(Angles(us)[i] + rest)} | 0 <= i < |us| && (rest == [] || rest[0] == ',')
      ensures PatternMatcher(AngleBracket)(Angles(us)[i] + rest) == Some((|Angles(us)[i]|, us[i]))
    {
      assert Angles(us)[i] == ['<'] + us[i] + ['>'];
      BracketMatch(us[i], rest);
    }
  }

  /** Neither pattern matches at a `,` or a space. */
  lemma Separators(p: Pattern)
    ensures forall t :: PatternMatcher(p)([','] + t).None? && PatternMatcher(p)([' '] + t).None?
  {
    forall t ensures PatternMatcher(p)([','] + t).None? && PatternMatcher(p)([' '] + t).None? {
      assert ([','] + t)[0] == ',' && ([' '] + t)[0] == ' ';
      if p == BareUrl {
        SchemeLengthZero([','] + t);
        SchemeLengthZero([' '] + t);
      }
    }
  }

  /** The bare-URL pass reads a `u1, u2, ...` list of bare tokens back as `u1, u2, ...`. */
  lemma BareListMatches(us: seq<string>)
    requires forall i :: 0 <= i < |us| ==> IsBareToken(us[i])
    ensures Candidates(BareUrl, Joined(us)) == us
  {
    PatternMatcherWellBehaved(BareUrl);
    BareItems(us);
    Separators(BareUrl);
    MatchesJoined(PatternMatcher(BareUrl), us, us);
  }

  lemma BareItems(us: seq<string>)
    requires forall i :: 0 <= i < |us| ==> IsBareToken(us[i])
    ensures ItemsMatch(PatternMatcher(BareUrl), us, us)
  {
    forall i, rest {:trigger PatternMatcher(BareUrl)(us[i] + rest)} | 0 <= i < |us| && (rest == [] || rest[0] == ',')
      ensures PatternMatcher(BareUrl)(us[i] + rest) == Some((|us[i]|, us[i]))
    {
      BareMatch(us[i], rest);
    }
  }

  /** A scan finds nothing when nothing matches at any position. */
  lemma {:induction false} MatchesNone(f: Matcher, t: string)
    requires WellBehaved(f)
    requires forall j {:trigger f(t[j..])} :: 0 <= j < |t| ==> f(t[j..]).None?
    ensures Matches(f, t) == []
    decreases |t|
  {
    if t != [] {
      assert f(t[0..]).None?;
      assert t[0..] == t;
      forall j | 0 <= j < |t[1..]| ensures f(t[1..][j..]).None? {
        assert t[1..][j..] == t[j + 1..];
        assert f(t[j + 1..]).None?;
      }
      MatchesNone(f, t[1..]);
    }
  }

  /** Without a `<` the bracket pass finds nothing. */
  lemma NoAngleNoBracketMatches(t: string)
    requires '<' !in t
    ensures Candidates(AngleBracket, t) == []
  {
    var f := PatternMatcher(AngleBracket);
    forall j | 0 <= j < |t| ensures f(t[j..]).None? {
      assert t[j..][0] == t[j];
    }
    PatternMatcherWellBehaved(AngleBracket);
    MatchesNone(f, t);
  }

  /** A bare token holds no `<`: its scheme is made of letters, `:` and `/`, and its
      remainder stops at `<`. */
  lemma BareTokenNoAngle(u: string)
    requires IsBareToken(u)
    ensures '<' !in u
  {
    var k := SchemeLength(u);
    forall i | 0 <= i < |u| ensures u[i] != '<' {
      if i >= k {
        assert u[i] == u[k..][i - k];
      } else {
        SchemePrefixNoAngle(u, i);
      }
    }
  }

  /** No character of a scheme is `<`, in either case. */
  lemma SchemePrefixNoAngle(u: string, i: nat)
    requires i < SchemeLength(u)
    ensures i < |u| && u[i] != '<'
  {
    if StartsWithIgnoringCase(u, "https://") {
      assert AsciiLower(u[i]) == "https://"[i];
    } else if StartsWithIgnoringCase(u, "http://") {
      assert AsciiLower(u[i]) == "http://"[i];
    } else {
      assert AsciiLower(u[i]) == "mailto:"[i];
    }
  }

  lemma {:induction false} JoinedNoAngle(parts: seq<string>)
    requires forall i :: 0 <= i < |parts| ==> '<' !in parts[i]
    ensures '<' !in Joined(parts)
    decreases |parts|
  {
    if |parts| > 1 {
      JoinedNoAngle(parts[1..]);
    }
  }

  /** The link a candidate `http...` or `mailto...` url gives, typed by its prefix. */
  function PlainLink(u: string): Link {
    Link(if StartsWith(u, "http") then Http else Email, u)
  }

  function PlainLinks(us: seq<string>): seq<Link> {
    seq(|us|, k requires 0 <= k < |us| => PlainLink(us[k]))
  }

  lemma ClassifyPlain(u: string)
    requires NoWhitespace(u) && (StartsWith(u, "http") || StartsWith(u, "mailto"))
    ensures Classify(u) == Some(PlainLink(u))
  {
    TrimNoWhitespace(u);
  }

  /** When every candidate is a whitespace-free `http...` or `mailto...` string, each
      becomes one link with that url, in order. */
  lemma {:induction false} ClassifyAllPlain(cs: seq<string>)
    requires forall i :: 0 <= i < |cs| ==> NoWhitespace(cs[i]) && (StartsWith(cs[i], "http") || StartsWith(cs[i], "mailto"))
    ensures ClassifyAll(cs) == PlainLinks(cs)
    decreases |cs|
  {
    if cs != [] {
      assert ClassifyAll(cs) == [PlainLink(cs[0])] + ClassifyAll(cs[1..]) by {
        ClassifyPlain(cs[0]);
      }
      ClassifyAllPlain(cs[1..]);
      PlainLinksCons(cs);
    }
  }

  lemma PlainLinksCons(cs: seq<string>)
    requires cs != []
    ensures PlainLinks(cs) == [PlainLink(cs[0])] + PlainLinks(cs[1..])
  {
    assert forall k :: 1 <= k < |cs| ==> PlainLinks(cs[1..])[k - 1] == PlainLinks(cs)[k];
  }

  /** Every link taken from whitespace-free candidates has a non-empty, whitespace-free
      url that is one of the candidates. */
  lemma {:induction false} ClassifyAllUrls(cs: seq<string>)
    requires forall i :: 0 <= i < |cs| ==> cs[i] != [] && NoWhitespace(cs[i])
    ensures forall k :: 0 <= k < |ClassifyAll(cs)| ==>
              ClassifyAll(cs)[k].url in cs && ClassifyAll(cs)[k].url != [] && NoWhitespace(ClassifyAll(cs)[k].url)
    decreases |cs|
  {
    if cs != [] {
      ClassifyAllUrls(cs[1..]);
      TrimNoWhitespace(cs[0]);
      var tail := ClassifyAll(cs[1..]);
      forall k | 0 <= k < |tail| ensures tail[k].url in cs {
        assert tail[k].url in cs[1..];
      }
      match Classify(cs[0])
      case Some(l) =>
        assert ClassifyAll(cs) == [l] + tail;
        forall k | 1 <= k < |ClassifyAll(cs)| ensures ClassifyAll(cs)[k] == tail[k - 1] {}
      case None =>
    }
  }

  /** The bare-URL pass runs exactly when no bracket candidate is an `http` or `mailto`
      url; otherwise the bracket links are the result, and there is at least one. */
  lemma FallbackRule(t: string)
    ensures (forall k :: 0 <= k < |Candidates(AngleBracket, t)| ==>
               Classify(Candidates(AngleBracket, t)[k]).None?)
            ==> LinksOf(t) == LinksIn(BareUrl, t)
    ensures (exists k :: 0 <= k < |Candidates(AngleBracket, t)| &&
               Classify(Candidates(AngleBracket, t)[k]).Some?)
            ==> LinksOf(t) == LinksIn(AngleBracket, t) && LinksOf(t) != []
  {
    PatternMatcherWellBehaved(AngleBracket);
    ClassifyAllEmpty(Candidates(AngleBracket, t));
  }

  /** The title found is the last one labelled `List-Unsubscribe:`, whatever comes
      before it. */
  lemma LastLabelledAt(titles: seq<Title>, i: nat)
    requires i < |titles| && IsLabel(titles[i])
    requires forall j :: i < j < |titles| ==> !IsLabel(titles[j])
    ensures LastLabelled(titles) == Some(i)
  {
    LastLabelledSpec(titles);
    var r := LastLabelled(titles);
    var found := titles[i];
    assert r.None? ==> !IsLabel(found);
    assert r.Some? && r.value < i ==> !IsLabel(found);
  }

  /** The lookup uses the last labelled title and its sibling only. */
  lemma LastLabelWins(titles: seq<Title>, i: nat)
    requires i < |titles| && IsLabel(titles[i])
    requires forall j :: i < j < |titles| ==> !IsLabel(titles[j])
    ensures Parse(Some(titles)) == match titles[i].sibling
                                   case None => None
                                   case Some(value) => Some(ResultFor(value, i))
  {
    LastLabelledAt(titles, i);
  }

  /** `null` comes back exactly when there is no details section, no labelled title, or
      the last labelled title has no next sibling. */
  lemma ParseNull(details: Option<seq<Title>>)
    ensures Parse(details).None? <==>
              details.None? || LastLabelled(details.value).None? ||
              details.value[LastLabelled(details.value).value].sibling.None?
  {
  }

  /** Every link is typed by its prefix and has a non-empty url free of whitespace. */
  predicate WellFormedLinks(links: seq<Link>) {
    forall k :: 0 <= k < |links| ==> WellTyped(links[k]) && links[k].url != [] && NoWhitespace(links[k].url)
  }

  /** The links of one pass are well formed. */
  lemma LinksInWellFormed(p: Pattern, t: string)
    ensures WellFormedLinks(LinksIn(p, t))
  {
    PatternMatcherWellBehaved(p);
    MatchesText(PatternMatcher(p), t);
    ClassifyAllUrls(Candidates(p, t));
  }

  lemma LinksOfWellFormed(t: string)
    ensures WellFormedLinks(LinksOf(t))
  {
    LinksInWellFormed(AngleBracket, t);
    LinksInWellFormed(BareUrl, t);
  }

  lemma ResultWellFormed(value: string, i: nat)
    ensures WellFormedLinks(ResultFor(value, i).links)
  {
    LinksOfWellFormed(Normalised(Trim(value)));
  }

  /** Every link `parseUnsubscribeLinks()` returns is typed by its prefix and has a
      non-empty url free of whitespace. */
  lemma ParseLinksWellFormed(details: Option<seq<Title>>)
    ensures Parse(details).Some? ==> WellFormedLinks(Parse(details).value.links)
  {
    if Parse(details).Some? {
      var titles := details.value;
      var i := LastLabelled(titles).value;
      var value := titles[i].sibling.value;
      assert Parse(details) == Some(ResultFor(value, i));
      ResultWellFormed(value, i);
    }
  }

  /** A `<u1>, <u2>, ...` header is already trimmed and in its normal form. */
  lemma BracketListNormal(us: seq<string>)
    requires us != [] && forall i :: 0 <= i < |us| ==> Bracketable(us[i])
    ensures BracketList(us) != [] && Trim(BracketList(us)) == BracketList(us)
    ensures CollapseWhitespace(BracketList(us)) == BracketList(us)
    ensures Normalised(BracketList(us)) == BracketList(us)
  {
    var parts := Angles(us);
    var h := BracketList(us);
    forall i | 0 <= i < |parts| ensures parts[i] != [] && NoWhitespace(parts[i]) {
      assert parts[i] == ['<'] + us[i] + ['>'];
      assert forall k :: 0 <= k < |us[i]| ==> parts[i][k + 1] == us[i][k];
    }
    JoinedShape(parts);
    assert h[0] == '<';
    assert !StartsWith(h, "=?");
    CollapseWhitespaceIdentity(h);
    TrimIdentity(h);
  }

  /** A `<u1>, <u2>, ...` header of `http`/`mailto` urls yields one link per item, by
      the bracket pass alone. */
  lemma BracketListLinks(us: seq<string>)
    requires us != []
    requires forall i :: 0 <= i < |us| ==> Bracketable(us[i]) && (StartsWith(us[i], "http") || StartsWith(us[i], "mailto"))
    ensures LinksIn(AngleBracket, BracketList(us)) == PlainLinks(us)
    ensures LinksOf(BracketList(us)) == PlainLinks(us)
  {
    BracketListMatches(us);
    ClassifyAllPlain(us);
    assert PlainLinks(us)[0] == PlainLink(us[0]);
  }

  /** A bare token is non-empty, free of whitespace and of `<`, and starts with a letter
      of its scheme. */
  lemma BareTokenFacts(u: string)
    requires IsBareToken(u)
    ensures u != [] && NoWhitespace(u) && '<' !in u
    ensures AsciiLower(u[0]) == 'h' || AsciiLower(u[0]) == 'm'
  {
    BareMatch(u, []);
    assert u + [] == u;
    MatchAtText(BareUrl, u);
    BareTokenNoAngle(u);
  }

  lemma BareListShape(us: seq<string>)
    requires us != [] && forall i :: 0 <= i < |us| ==> IsBareToken(us[i])
    ensures SingleSpaced(Joined(us)) && '<' !in Joined(us)
    ensures Joined(us) != [] && Joined(us)[0] != '=' && !IsWhitespace(Joined(us)[0]) &&
            !IsWhitespace(Joined(us)[|Joined(us)| - 1])
  {
    forall i | 0 <= i < |us| ensures us[i] != [] && NoWhitespace(us[i]) && '<' !in us[i] {
      BareTokenFacts(us[i]);
    }
    BareTokenFacts(us[0]);
    JoinedShape(us);
    JoinedNoAngle(us);
  }

  /** A bare-token list is already trimmed and in its normal form, and holds no `<`. */
  lemma BareListNormal(us: seq<string>)
    requires us != [] && forall i :: 0 <= i < |us| ==> IsBareToken(us[i])
    ensures Joined(us) != [] && Trim(Joined(us)) == Joined(us)
    ensures Normalised(Joined(us)) == Joined(us)
    ensures '<' !in Joined(us)
  {
    var h := Joined(us);
    BareListShape(us);
    assert !StartsWith(h, "=?");
    CollapseWhitespaceIdentity(h);
    TrimIdentity(h);
  }

  /** A header of bare `http`/`mailto` tokens separated by `, ` has no bracket matches,
      so the fallback pass reads it, one link per token. */
  lemma BareListLinks(us: seq<string>)
    requires us != []
    requires forall i :: 0 <= i < |us| ==> IsBareToken(us[i]) && (StartsWith(us[i], "http") || StartsWith(us[i], "mailto"))
    ensures LinksIn(AngleBracket, Joined(us)) == []
    ensures LinksOf(Joined(us)) == PlainLinks(us)
  {
    BareListShape(us);
    NoAngleNoBracketMatches(Joined(us));
    BareListMatches(us);
    forall i | 0 <= i < |us| ensures NoWhitespace(us[i]) {
      BareTokenFacts(us[i]);
    }
    ClassifyAllPlain(us);
  }

  /** The regular expressions ignore case but the classification does not: tokens whose
      scheme is not written in lower case are matched and then dropped. */
  lemma UpperCaseSchemesDropped(us: seq<string>)
    requires us != []
    requires forall i :: 0 <= i < |us| ==> IsBareToken(us[i]) && !StartsWith(us[i], "http") && !StartsWith(us[i], "mailto")
    ensures Candidates(BareUrl, Joined(us)) == us
    ensures LinksOf(Joined(us)) == []
  {
    BareListShape(us);
    NoAngleNoBracketMatches(Joined(us));
    BareListMatches(us);
    forall i | 0 <= i < |us| ensures Classify(us[i]).None? {
      BareTokenFacts(us[i]);
      TrimNoWhitespace(us[i]);
    }
    ClassifyAllEmpty(us);
  }

  /** The whole function on a page whose last `List-Unsubscribe:` title is followed by
      a non-blank, trimmed header value: the passes run on its normal form. */
  lemma ParseHeader(titles: seq<Title>, i: nat, value: string)
    requires i < |titles| && IsLabel(titles[i]) && titles[i].sibling == Some(value)
    requires forall j :: i < j < |titles| ==> !IsLabel(titles[j])
    requires value != [] && Trim(value) == value
    ensures Parse(Some(titles)) == Some(ParseResult(LinksOf(Normalised(value)), Some(i)))
  {
    LastLabelWins(titles, i);
  }

  /** The whole function on a page whose last `List-Unsubscribe:` title is followed by
      a `<u1>, <u2>, ...` header. */
  lemma ParseBracketHeader(titles: seq<Title>, i: nat, us: seq<string>)
    requires i < |titles| && IsLabel(titles[i]) && titles[i].sibling == Some(BracketList(us))
    requires forall j :: i < j < |titles| ==> !IsLabel(titles[j])
    requires us != []
    requires forall k :: 0 <= k < |us| ==> Bracketable(us[k]) && (StartsWith(us[k], "http") || StartsWith(us[k], "mailto"))
    ensures Parse(Some(titles)) == Some(ParseResult(PlainLinks(us), Some(i)))
  {
    var h := BracketList(us);
    BracketListNormal(us);
    BracketListLinks(us);
    ParseHeader(titles, i, h);
  }

  /** A header sent as one Q-encoded word is trimmed as it stands and starts with `=?`. */
  lemma QEnvelopeTrimmed(charset: string, h: string)
    requires |charset| > 0 && '?' !in charset && NoWhitespace(charset) && IsLatin1(h)
    ensures var e := EncodedWords.EncodedWord(charset, 'Q', QEncoding.Encode(h)).Envelope();
            e != [] && Trim(e) == e && StartsWith(e, "=?")
  {
    var w := EncodedWords.EncodedWord(charset, 'Q', QEncoding.Encode(h));
    var e := w.Envelope();
    EncodedWords.EnvelopeWhitespaceFree(w);
    StripIdentity(e);
    TrimNoWhitespace(e);
    assert e[0] == '=' && e[1] == '?';
  }

  /** A header in normal form sent as one Q-encoded word normalises back to itself. */
  lemma QEncodedHeader(charset: string, h: string)
    requires |charset| > 0 && '?' !in charset && NoWhitespace(charset) && IsLatin1(h)
    requires CollapseWhitespace(h) == h
    ensures var e := EncodedWords.EncodedWord(charset, 'Q', QEncoding.Encode(h)).Envelope();
            e != [] && Trim(e) == e && Normalised(e) == h
  {
    var e := EncodedWords.EncodedWord(charset, 'Q', QEncoding.Encode(h)).Envelope();
    QEnvelopeTrimmed(charset, h);
    assert EncodedWords.DecodeQuotedPrintable(e) == h by {
      EncodedWords.DecodeQWord(charset, h);
    }
    TrimIdentity(h);
  }

  /** A header in normal form sent as one Q-encoded word: it is decoded, then read as
      it stands. */
  lemma ParseEncodedHeader(titles: seq<Title>, i: nat, charset: string, h: string)
    requires |charset| > 0 && '?' !in charset && NoWhitespace(charset) && IsLatin1(h)
    requires CollapseWhitespace(h) == h
    requires i < |titles| && IsLabel(titles[i])
    requires titles[i].sibling == Some(EncodedWords.EncodedWord(charset, 'Q', QEncoding.Encode(h)).Envelope())
    requires forall j :: i < j < |titles| ==> !IsLabel(titles[j])
    ensures Parse(Some(titles)) == Some(ParseResult(LinksOf(h), Some(i)))
  {
    var e := EncodedWords.EncodedWord(charset, 'Q', QEncoding.Encode(h)).Envelope();
    QEncodedHeader(charset, h);
    ParseHeader(titles, i, e);
  }

  /** The same `<u1>, <u2>, ...` header sent as one Q-encoded word. */
  lemma ParseEncodedBracketHeader(titles: seq<Title>, i: nat, charset: string, us: seq<string>)
    requires |charset| > 0 && '?' !in charset && NoWhitespace(charset) && IsLatin1(BracketList(us))
    requires i < |titles| && IsLabel(titles[i])
    requires titles[i].sibling == Some(EncodedWords.EncodedWord(charset, 'Q', QEncoding.Encode(BracketList(us))).Envelope())
    requires forall j :: i < j < |titles| ==> !IsLabel(titles[j])
    requires us != []
    requires forall k :: 0 <= k < |us| ==> Bracketable(us[k]) && (StartsWith(us[k], "http") || StartsWith(us[k], "mailto"))
    ensures Parse(Some(titles)) == Some(ParseResult(PlainLinks(us), Some(i)))
  {
    BracketListNormal(us);
    BracketListLinks(us);
    ParseEncodedHeader(titles, i, charset, BracketList(us));
  }

  /** A bracket match needs a `>`. */
  lemma BracketNeedsClose(t: string)
    ensures PatternMatcher(AngleBracket)(t).Some? ==> '>' in t
  {
    if MatchAt(AngleBracket, t).Some? {
      var n := Run(AngleBracket, t[1..]);
      assert t[n + 1] == '>';
    }
  }

  /** Without a `>` the bracket pass finds nothing. */
  lemma NoCloseNoBracketMatches(t: string)
    requires '>' !in t
    ensures Candidates(AngleBracket, t) == []
  {
    var f := PatternMatcher(AngleBracket);
    forall j | 0 <= j < |t| ensures f(t[j..]).None? {
      NotInSuffix(t, j);
      BracketNeedsClose(t[j..]);
    }
    PatternMatcherWellBehaved(AngleBracket);
    MatchesNone(f, t);
  }

  lemma NotInSuffix(t: string, j: nat)
    requires '>' !in t && j <= |t|
    ensures '>' !in t[j..]
  {
    forall k | 0 <= k < |t| - j ensures t[j..][k] != '>' {
      assert t[j..][k] == t[j + k];
    }
  }

  /** A scan skips a prefix at none of whose positions a match begins. */
  lemma {:induction false} MatchesSkip(f: Matcher, a: string, b: string)
    requires WellBehaved(f)
    requires forall j {:trigger f((a + b)[j..])} :: 0 <= j < |a| ==> f((a + b)[j..]).None?
    ensures Matches(f, a + b) == Matches(f, b)
    decreases |a|
  {
    if a != [] {
      assert (a + b)[0..] == [a[0]] + (a[1..] + b);
      MatchesMiss(f, a[0], a[1..] + b);
      forall j | 0 <= j < |a[1..]| ensures f((a[1..] + b)[j..]).None? {
        assert (a[1..] + b)[j..] == (a + b)[j + 1..];
      }
      MatchesSkip(f, a[1..], b);
    }
  }

  /** A bracketed item followed by text without `>`: the bracket pass captures the
      item and nothing after it. */
  lemma BracketThenUnclosed(c: string, rest: string)
    requires Bracketable(c) && '>' !in rest
    ensures Candidates(AngleBracket, ['<'] + c + ['>'] + rest) == [c]
  {
    var t := ['<'] + c + ['>'] + rest;
    PatternMatcherWellBehaved(AngleBracket);
    BracketMatch(c, rest);
    MatchesHit(PatternMatcher(AngleBracket), t);
    assert t[|c| + 2..] == rest;
    NoCloseNoBracketMatches(rest);
  }

  /** No character of `a` can begin a scheme. */
  predicate NoSchemeLetter(a: string) {
    forall j :: 0 <= j < |a| ==> AsciiLower(a[j]) != 'h' && AsciiLower(a[j]) != 'm'
  }

  /** No bare url begins at a character other than `h` or `m` in either case. */
  lemma BareNoMatch(t: string)
    requires t != [] && AsciiLower(t[0]) != 'h' && AsciiLower(t[0]) != 'm'
    ensures PatternMatcher(BareUrl)(t).None?
  {
    SchemeLengthZero(t);
  }

  /** The bare-URL pass skips text in which no scheme can begin. */
  lemma BareSkip(a: string, b: string)
    requires NoSchemeLetter(a)
    ensures WellBehaved(PatternMatcher(BareUrl))
    ensures Matches(PatternMatcher(BareUrl), a + b) == Matches(PatternMatcher(BareUrl), b)
  {
    var f := PatternMatcher(BareUrl);
    PatternMatcherWellBehaved(BareUrl);
    forall j | 0 <= j < |a| ensures f((a + b)[j..]).None? {
      var t := (a + b)[j..];
      assert t != [] && t[0] == a[j];
      BareNoMatch(t);
    }
    MatchesSkip(f, a, b);
  }

  /** A bare token on its own is read back whole. */
  lemma BareSingle(u: string)
    requires IsBareToken(u)
    ensures WellBehaved(PatternMatcher(BareUrl))
    ensures Matches(PatternMatcher(BareUrl), u) == [u]
  {
    var f := PatternMatcher(BareUrl);
    PatternMatcherWellBehaved(BareUrl);
    assert f(u) == Some((|u|, u)) by {
      BareMatch(u, []);
      assert u + [] == u;
    }
    MatchesWhole(f, u, u);
  }

  /** A bare token after text in which no scheme can begin: the bare-URL pass finds
      that token alone. */
  lemma BareAfterNoScheme(a: string, u: string)
    requires NoSchemeLetter(a) && IsBareToken(u)
    ensures Candidates(BareUrl, a + u) == [u]
  {
    BareSkip(a, u);
    BareSingle(u);
  }

  /** `mailto:` followed by a non-empty run the bare pattern accepts is a bare token. */
  lemma MailtoToken(r: string)
    requires r != [] && NoStops(BareUrl, r)
    ensures IsBareToken("mailto:" + r)
  {
    SchemeToken("mailto:", "mailto:", r);
  }


  /** `https://` or `http://` followed by a non-empty run the bare pattern accepts is a
      bare token, and so is the same text with its scheme in upper case. */
  lemma HttpToken(r: string)
    requires r != [] && NoStops(BareUrl, r)
    ensures IsBareToken("https://" + r) && IsBareToken("http://" + r)
    ensures IsBareToken("HTTPS://" + r) && IsBareToken("HTTP://" + r)
  {
    SchemeToken("https://", "https://", r);
    SchemeToken("http://", "http://", r);
    SchemeToken("HTTPS://", "https://", r);
    SchemeToken("HTTP://", "http://", r);
  }

  /** A scheme written in any case, followed by a non-empty run, is a bare token. */
  lemma SchemeToken(s: string, lower: string, r: string)
    requires lower == "https://" || lower == "http://" || lower == "mailto:"
    requires |s| == |lower| && forall i :: 0 <= i < |s| ==> AsciiLower(s[i]) == lower[i]
    requires r != [] && NoStops(BareUrl, r)
    ensures IsBareToken(s + r)
  {
    var u := s + r;
    assert StartsWithIgnoringCase(u, lower) by {
      assert forall i :: 0 <= i < |s| ==> u[i] == s[i];
    }
    SchemeLengthOf(u);
    if lower == "http://" {
      assert !StartsWithIgnoringCase(u, "https://") by {
        assert AsciiLower(u[4]) == ':';
      }
    }
    assert u[|s|..] == r;
  }

  /** Brackets, commas and spaces cannot begin a scheme either. */
  lemma NoSchemeLetterFramed(c: string)
    requires NoSchemeLetter(c)
    ensures NoSchemeLetter("<" + c + ">, <")
  {
    var a := "<" + c + ">, <";
    forall j | 0 <= j < |a| ensures AsciiLower(a[j]) != 'h' && AsciiLower(a[j]) != 'm' {
      if j == 0 {
        assert a[j] == '<';
      } else if j <= |c| {
        assert a[j] == c[j - 1];
      } else {
        assert a[j] == ">, <"[j - 1 - |c|];
      }
    }
  }

  /** The test's malformed header, `<c>, <u>` with the second `>` missing, where `c`
      is no link and `u` is a bare `mailto:` token: the bracket pass classifies
      nothing, so the fallback pass runs and finds `u`. */
  lemma NonLinkThenBare(c: string, u: string)
    requires Bracketable(c) && NoSchemeLetter(c)
    requires IsBareToken(u) && StartsWith(u, "mailto") && '>' !in u
    ensures LinksIn(AngleBracket, "<" + c + ">, <" + u) == []
    ensures LinksOf("<" + c + ">, <" + u) == [Link(Email, u)]
  {
    var t := "<" + c + ">, <" + u;
    var rest := ", <" + u;
    var a := "<" + c + ">, <";
    assert t == ['<'] + c + ['>'] + rest;
    assert '>' !in rest by {
      assert forall i :: 3 <= i < |rest| ==> rest[i] == u[i - 3];
    }
    BracketThenUnclosed(c, rest);
    assert Classify(c).None? by {
      TrimNoWhitespace(c);
      assert AsciiLower(c[0]) != 'h' && AsciiLower(c[0]) != 'm';
      assert "http"[0] == 'h' && "mailto"[0] == 'm';
    }
    NoSchemeLetterFramed(c);
    assert t == a + u;
    BareAfterNoScheme(a, u);
    BareTokenFacts(u);
    ClassifyPlain(u);
  }

  /** The facts about the literal pieces of the malformed list that `NonLinkThenBare`
      asks for, each checked on the concrete text. */
  lemma MalformedPieces()
    ensures Bracketable("not-a-valid-url") && NoSchemeLetter("not-a-valid-url")
    ensures "invalid@" != [] && NoStops(BareUrl, "invalid@")
    ensures "mailto:" + "invalid@" == "mailto:invalid@"
    ensures StartsWith("mailto:invalid@", "mailto") && '>' !in "mailto:invalid@"
  {
  }

  /** The raw text `<not-a-valid-url>, <mailto:invalid@`: the bracket pass captures
      only `not-a-valid-url`, which is no link, so the fallback pass runs and reads the
      unterminated `mailto:invalid@` as an email link. */
  lemma MalformedList()
    ensures LinksIn(AngleBracket, "<" + "not-a-valid-url" + ">, <" + "mailto:invalid@") == []
    ensures LinksOf("<" + "not-a-valid-url" + ">, <" + "mailto:invalid@") == [Link(Email, "mailto:invalid@")]
  {
    MalformedPieces();
    MailtoToken("invalid@");
    NonLinkThenBare("not-a-valid-url", "mailto:invalid@");
  }

  /** Two items joined by `, `. */
  lemma JoinedPair(a: string, b: string)
    ensures Joined([a, b]) == a + ", " + b
  {
    assert [a, b][1..] == [b];
  }

  /** A decoded header `https://<r>, mailto:<e>` (such as
      `https://example.com/unsubscribe, mailto:unsubscribe@example.com`) has no bracket,
      so the fallback pass yields one `http` and one `email` link, in that order. */
  lemma BareFallbackPair(r: string, e: string)
    requires r != [] && NoStops(BareUrl, r) && e != [] && NoStops(BareUrl, e)
    ensures LinksIn(AngleBracket, ("https://" + r) + ", " + ("mailto:" + e)) == []
    ensures LinksOf(("https://" + r) + ", " + ("mailto:" + e)) == [Link(Http, "https://" + r), Link(Email, "mailto:" + e)]
  {
    var u, v := "https://" + r, "mailto:" + e;
    var us := [u, v];
    HttpToken(r);
    MailtoToken(e);
    assert StartsWith(u, "http") by {
      assert u[..4] == "http";
    }
    assert StartsWith(v, "mailto") && !StartsWith(v, "http") by {
      assert v[..6] == "mailto" && v[0] != 'h';
    }
    assert LinksIn(AngleBracket, Joined(us)) == [] && LinksOf(Joined(us)) == PlainLinks(us) by {
      BareListLinks(us);
    }
    assert PlainLinks(us) == [Link(Http, u), Link(Email, v)] by {
      assert PlainLinks(us)[0] == PlainLink(u) && PlainLinks(us)[1] == PlainLink(v);
    }
    JoinedPair(u, v);
  }
}
