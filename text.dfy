/**
 * The string primitives the userscript relies on: JavaScript's `\s` class,
 * `replace(/\s/g, '')`, `trim()`, `replace(/\s+/g, ' ')`, `startsWith` and the
 * ASCII case folding of a regular expression with the `i` flag.
 */
module Text {

  /** JavaScript's `\s` class (the WhiteSpace and LineTerminator code points of
      ECMA-262), which is also exactly the set that `String.prototype.trim` removes. */
  predicate IsWhitespace(c: char) {
    var n := c as int;
    (9 <= n <= 13) || n == 0x20 || n == 0xA0 || n == 0x1680 || (0x2000 <= n <= 0x200A) ||
    n == 0x2028 || n == 0x2029 || n == 0x202F || n == 0x205F || n == 0x3000 || n == 0xFEFF
  }

  /** Among ASCII characters, `\s` is the space and the five controls from tab to
      carriage return; every printable character other than the space is not
      whitespace. */
  lemma AsciiWhitespace(c: char)
    requires c as int < 128
    ensures IsWhitespace(c) <==> c == ' ' || '\t' <= c <= '\r'
  {
  }

  /** Above ASCII, the only Latin-1 character in `\s` is the no-break space U+00A0, so
      a decoded byte 0xA0 is trimmed and collapsed like a space, and 0x85 is not. */
  lemma Latin1Whitespace(c: char)
    requires 128 <= c as int < 256
    ensures IsWhitespace(c) <==> c as int == 0xA0
  {
  }

  predicate NoWhitespace(s: string) {
    forall i :: 0 <= i < |s| ==> !IsWhitespace(s[i])
  }

  predicate AllWhitespace(s: string) {
    forall i :: 0 <= i < |s| ==> IsWhitespace(s[i])
  }

  /** Every character is a single byte, as `String.fromCharCode` of a byte and `atob` produce. */
  predicate IsLatin1(s: string) {
    forall i :: 0 <= i < |s| ==> s[i] as int < 256
  }

  predicate StartsWith(s: string, prefix: string) {
    prefix <= s
  }

  /** Case folding under a non-Unicode `i` regular expression: only ASCII letters fold. */
  function AsciiLower(c: char): (d: char)
    ensures ('A' <= c <= 'Z') ==> d as int == c as int + 32
    ensures !('A' <= c <= 'Z') ==> d == c
  {
    if 'A' <= c <= 'Z' then (c as int + 32) as char else c
  }

  /** `s` begins with `prefix` when both are compared as a case-insensitive regular
      expression compares them; `prefix` is written in lower case. */
  predicate StartsWithIgnoringCase(s: string, prefix: string) {
    |prefix| <= |s| && forall i :: 0 <= i < |prefix| ==> AsciiLower(s[i]) == prefix[i]
  }

  /** `s.replace(/\s/g, '')`: deletes every whitespace character. */
  function StripWhitespace(s: string): (r: string)
    ensures NoWhitespace(r)
    ensures |r| <= |s|
    decreases |s|
  {
    if s == [] then []
    else if IsWhitespace(s[0]) then StripWhitespace(s[1..])
    else [s[0]] + StripWhitespace(s[1..])
  }

  lemma {:induction false} StripAppend(a: string, b: string)
    ensures StripWhitespace(a + b) == StripWhitespace(a) + StripWhitespace(b)
    decreases |a|
  {
    if a == [] {
      assert a + b == b;
    } else {
      assert (a + b)[1..] == a[1..] + b;
      StripAppend(a[1..], b);
    }
  }

  /** Stripping leaves a string alone exactly when it holds no whitespace. */
  lemma {:induction false} StripIdentity(s: string)
    ensures StripWhitespace(s) == s <==> NoWhitespace(s)
    decreases |s|
  {
    if s != [] {
      StripIdentity(s[1..]);
      if IsWhitespace(s[0]) {
        assert |StripWhitespace(s)| < |s|;
      }
    }
  }

  lemma {:induction false} StripAllWhitespace(g: string)
    requires AllWhitespace(g)
    ensures StripWhitespace(g) == []
    decreases |g|
  {
    if g != [] {
      StripAllWhitespace(g[1..]);
    }
  }

  /** Leading-whitespace removal: the first half of `trim()`. */
  function TrimStart(s: string): (r: string)
    ensures |r| <= |s| && r == s[|s| - |r|..]
    ensures r == [] || !IsWhitespace(r[0])
    ensures forall i :: 0 <= i < |s| - |r| ==> IsWhitespace(s[i])
    decreases |s|
  {
    if s != [] && IsWhitespace(s[0]) then TrimStart(s[1..]) else s
  }

  /** Trailing-whitespace removal: the second half of `trim()`. */
  function TrimEnd(s: string): (r: string)
    ensures |r| <= |s| && r == s[..|r|]
    ensures r == [] || !IsWhitespace(r[|r| - 1])
    ensures forall i :: |r| <= i < |s| ==> IsWhitespace(s[i])
    decreases |s|
  {
    if s != [] && IsWhitespace(s[|s| - 1]) then TrimEnd(s[..|s| - 1]) else s
  }

  /** `s.trim()`: what is left of `s` after its leading and trailing whitespace. */
  function Trim(s: string): (r: string)
    ensures |r| <= |s|
    ensures r == [] || (!IsWhitespace(r[0]) && !IsWhitespace(r[|r| - 1]))
  {
    var t := TrimStart(s);
    var r := TrimEnd(t);
    assert r != [] ==> r[0] == t[0];
    r
  }

  /** `trim()` either leaves a string alone or makes it shorter. */
  lemma TrimShortens(s: string)
    ensures Trim(s) == s || |Trim(s)| < |s|
  {
    var t := TrimStart(s);
    var r := TrimEnd(t);
    assert Trim(s) == r;
    if |r| == |s| {
      assert t == s[0..] == s;
      assert r == t[..|t|] == t;
    }
  }

  lemma {:induction false} TrimStartStrip(s: string)
    ensures StripWhitespace(TrimStart(s)) == StripWhitespace(s)
    decreases |s|
  {
    if s != [] && IsWhitespace(s[0]) {
      TrimStartStrip(s[1..]);
    }
  }

  lemma {:induction false} TrimEndStrip(s: string)
    ensures StripWhitespace(TrimEnd(s)) == StripWhitespace(s)
    decreases |s|
  {
    if s != [] && IsWhitespace(s[|s| - 1]) {
      var init := s[..|s| - 1];
      TrimEndStrip(init);
      assert s == init + [s[|s| - 1]];
      StripAppend(init, [s[|s| - 1]]);
    }
  }

  /** Trimming deletes only whitespace. */
  lemma TrimStrip(s: string)
    ensures StripWhitespace(Trim(s)) == StripWhitespace(s)
  {
    TrimStartStrip(s);
    TrimEndStrip(TrimStart(s));
  }

  /** `trim()` leaves a string alone exactly when neither end is whitespace. */
  lemma TrimIdentity(s: string)
    ensures Trim(s) == s <==> (s == [] || (!IsWhitespace(s[0]) && !IsWhitespace(s[|s| - 1])))
  {
    if s != [] && !IsWhitespace(s[0]) && !IsWhitespace(s[|s| - 1]) {
      assert TrimStart(s) == s;
      assert TrimEnd(s) == s;
    }
  }

  lemma TrimNoWhitespace(s: string)
    requires NoWhitespace(s)
    ensures Trim(s) == s
  {
    TrimIdentity(s);
  }

  /** `trim()` yields the empty string exactly for all-whitespace input. */
  lemma TrimAllWhitespace(s: string)
    ensures Trim(s) == [] <==> AllWhitespace(s)
  {
    var t := TrimStart(s);
    var r := TrimEnd(t);
    assert Trim(s) == r;
    assert t != [] ==> t[0] == s[|s| - |t|];
  }

  /** What `TrimEnd` removes after a non-whitespace character is exactly the whitespace
      after it. */
  lemma {:induction false} TrimEndRun(a: string, g: string)
    requires AllWhitespace(g) && (a == [] || !IsWhitespace(a[|a| - 1]))
    ensures TrimEnd(a + g) == a
    decreases |g|
  {
    if g == [] {
      assert a + g == a;
    } else {
      var s := a + g;
      var g' := g[..|g| - 1];
      assert s[..|s| - 1] == a + g' && s[|s| - 1] == g[|g| - 1];
      TrimEndRun(a, g');
    }
  }

  /** `trim()` removes exactly the whitespace padding around a text whose ends are not
      whitespace. */
  lemma TrimPadded(pre: string, x: string, post: string)
    requires AllWhitespace(pre) && AllWhitespace(post)
    requires x != [] && !IsWhitespace(x[0]) && !IsWhitespace(x[|x| - 1])
    ensures Trim(pre + x + post) == x
  {
    AppendAssoc(pre, x, post);
    assert (x + post)[0] == x[0];
    TrimStartRun(pre, x + post);
    TrimEndRun(x, post);
  }

  /** What `replace(/\s+/g, ' ')` promises, one character at a time: whitespace is
      a plain space, and a space is not followed by another. */
  ghost predicate SingleSpaced(s: string)
    decreases |s|
  {
    s == [] ||
    ((IsWhitespace(s[0]) ==> s[0] == ' ') &&
     (s[0] == ' ' && |s| > 1 ==> s[1] != ' ') &&
     SingleSpaced(s[1..]))
  }

  /** Two spaces in a row begin at position `i`. */
  ghost predicate DoubleSpaceAt(s: string, i: int) {
    0 <= i && i + 1 < |s| && s[i] == ' ' && s[i + 1] == ' '
  }

  /** Read position by position: every whitespace character left is a plain space and
      no two spaces are adjacent. */
  lemma {:induction false} SingleSpacedMeans(s: string)
    ensures SingleSpaced(s) <==>
      (forall i :: 0 <= i < |s| && IsWhitespace(s[i]) ==> s[i] == ' ') &&
      (forall i :: !DoubleSpaceAt(s, i))
    decreases |s|
  {
    if s != [] {
      var t := s[1..];
      SingleSpacedMeans(t);
      assert forall i :: 1 <= i < |s| ==> s[i] == t[i - 1];
      assert forall i :: 1 <= i ==> (DoubleSpaceAt(s, i) <==> DoubleSpaceAt(t, i - 1));
      if SingleSpaced(s) {
        forall i ensures !DoubleSpaceAt(s, i) {
          if i >= 1 {
            assert !DoubleSpaceAt(t, i - 1);
          }
        }
      } else if (forall i :: 0 <= i < |s| && IsWhitespace(s[i]) ==> s[i] == ' ') &&
                (forall i :: !DoubleSpaceAt(s, i)) {
        assert !DoubleSpaceAt(s, 0);
        forall i ensures !DoubleSpaceAt(t, i) {
          assert !DoubleSpaceAt(s, i + 1);
        }
        assert false;
      }
    }
  }

  /** A character in front of a single-spaced string keeps it single-spaced, unless
      it is a space before a space or whitespace other than a space. */
  lemma SingleSpacedCons(c: char, r: string)
    requires SingleSpaced(r) && (IsWhitespace(c) ==> c == ' ') && (c == ' ' && r != [] ==> r[0] != ' ')
    ensures SingleSpaced([c] + r)
  {
    assert ([c] + r)[1..] == r;
  }

  /** Text without whitespace is single-spaced. */
  lemma {:induction false} NoWhitespaceSingleSpaced(s: string)
    requires NoWhitespace(s)
    ensures SingleSpaced(s)
    decreases |s|
  {
    if s != [] {
      NoWhitespaceSingleSpaced(s[1..]);
    }
  }

  /** Two single-spaced strings joined without a space on both sides of the seam. */
  lemma {:induction false} SingleSpacedAppend(a: string, b: string)
    requires SingleSpaced(a) && SingleSpaced(b)
    requires a == [] || b == [] || a[|a| - 1] != ' ' || b[0] != ' '
    ensures SingleSpaced(a + b)
    decreases |a|
  {
    if a != [] {
      var c := a + b;
      if |a| > 1 {
        assert a[1..][|a| - 2] == a[|a| - 1];
        assert c[1] == a[1];
      } else if b != [] {
        assert c[1] == b[0];
      }
      SingleSpacedAppend(a[1..], b);
      assert c[0] == a[0] && c[1..] == a[1..] + b;
      assert (IsWhitespace(c[0]) ==> c[0] == ' ') && (c[0] == ' ' && |c| > 1 ==> c[1] != ' ');
    } else {
      assert a + b == b;
    }
  }

  /** A prefix of a single-spaced string is single-spaced. */
  lemma {:induction false} SingleSpacedTake(s: string, n: nat)
    requires n <= |s| && SingleSpaced(s)
    ensures SingleSpaced(s[..n])
    decreases n
  {
    if n > 0 {
      SingleSpacedTake(s[1..], n - 1);
      assert s[..n][1..] == s[1..][..n - 1];
    }
  }

  /** `s.replace(/\s+/g, ' ')`: each maximal run of whitespace becomes one space. */
  function CollapseRuns(s: string): (r: string)
    ensures SingleSpaced(r)
    ensures s != [] ==> r != [] && (IsWhitespace(s[0]) ==> r[0] == ' ') && (!IsWhitespace(s[0]) ==> r[0] == s[0])
    ensures |r| <= |s|
    decreases |s|
  {
    if s == [] then []
    else if IsWhitespace(s[0]) then
      var rest := TrimStart(s);
      assert |rest| < |s|;
      SingleSpacedCons(' ', CollapseRuns(rest));
      [' '] + CollapseRuns(rest)
    else
      SingleSpacedCons(s[0], CollapseRuns(s[1..]));
      [s[0]] + CollapseRuns(s[1..])
  }

  /** What `TrimStart` removes in front of a non-whitespace character is exactly the
      whitespace before it. */
  lemma {:induction false} TrimStartRun(g: string, b: string)
    requires AllWhitespace(g) && (b == [] || !IsWhitespace(b[0]))
    ensures TrimStart(g + b) == b
    decreases |g|
  {
    if g == [] {
      assert g + b == b;
    } else {
      assert (g + b)[1..] == g[1..] + b;
      TrimStartRun(g[1..], b);
    }
  }

  /** Leading whitespace of a string that ends in a non-whitespace character lies
      inside that string, whatever follows it. */
  lemma {:induction false} TrimStartAppend(a: string, t: string)
    requires a != [] && !IsWhitespace(a[|a| - 1])
    ensures TrimStart(a + t) == TrimStart(a) + t
    decreases |a|
  {
    if IsWhitespace(a[0]) {
      assert (a + t)[1..] == a[1..] + t;
      TrimStartAppend(a[1..], t);
    }
  }

  /** A leading whitespace run becomes one space. */
  lemma CollapseRunsRun(g: string, b: string)
    requires g != [] && AllWhitespace(g) && (b == [] || !IsWhitespace(b[0]))
    ensures CollapseRuns(g + b) == [' '] + CollapseRuns(b)
  {
    TrimStartRun(g, b);
    assert (g + b)[0] == g[0];
  }

  /** Regrouping a concatenation, proved apart from any context that would slow it. */
  lemma AppendAssoc<T>(p: seq<T>, q: seq<T>, r: seq<T>)
    ensures p + (q + r) == (p + q) + r
  {
  }

  lemma CollapseRunsLeadingSpace(s: string, t: string)
    requires s != [] && IsWhitespace(s[0]) && TrimStart(s) == t
    ensures CollapseRuns(s) == [' '] + CollapseRuns(t)
  {
  }

  lemma CollapseRunsCons(c: char, t: string)
    requires !IsWhitespace(c)
    ensures CollapseRuns([c] + t) == [c] + CollapseRuns(t)
  {
    assert ([c] + t)[1..] == t;
  }

  /** The step of `CollapseRunsAppend` for leading whitespace. */
  lemma CollapseRunsAppendSpace(a: string, x: string, tail: string)
    requires a != [] && IsWhitespace(a[0]) && !IsWhitespace(a[|a| - 1])
    requires CollapseRuns(TrimStart(a) + x) == CollapseRuns(TrimStart(a)) + tail
    ensures CollapseRuns(a + x) == CollapseRuns(a) + tail
  {
    var a' := TrimStart(a);
    var ca' := CollapseRuns(a');
    assert CollapseRuns(a + x) == [' '] + CollapseRuns(a' + x) by {
      TrimStartAppend(a, x);
      assert (a + x)[0] == a[0];
      CollapseRunsLeadingSpace(a + x, a' + x);
    }
    assert CollapseRuns(a) == [' '] + ca' by {
      CollapseRunsLeadingSpace(a, a');
    }
    AppendAssoc([' '], ca', tail);
  }

  /** The step of `CollapseRunsAppend` for a non-whitespace character. */
  lemma CollapseRunsAppendWord(c: char, t: string, x: string, tail: string)
    requires !IsWhitespace(c)
    requires CollapseRuns(t + x) == CollapseRuns(t) + tail
    ensures CollapseRuns([c] + t + x) == CollapseRuns([c] + t) + tail
  {
    var u, ct := t + x, CollapseRuns(t);
    AppendAssoc([c], t, x);
    assert CollapseRuns([c] + u) == [c] + CollapseRuns(u) by {
      CollapseRunsCons(c, u);
    }
    assert CollapseRuns([c] + t) == [c] + ct by {
      CollapseRunsCons(c, t);
    }
    AppendAssoc([c], ct, tail);
  }

  /** No run of whitespace crosses the end of text that ends in a non-whitespace
      character, so what follows it is collapsed on its own. */
  lemma {:induction false} CollapseRunsAppend(a: string, y: string)
    requires a == [] || !IsWhitespace(a[|a| - 1])
    ensures CollapseRuns(a + y) == CollapseRuns(a) + CollapseRuns(y)
    decreases |a|
  {
    if a == [] {
      assert a + y == y;
    } else if IsWhitespace(a[0]) {
      var a' := TrimStart(a);
      assert a' != [] && a'[|a'| - 1] == a[|a| - 1] && |a'| < |a|;
      CollapseRunsAppend(a', y);
      CollapseRunsAppendSpace(a, y, CollapseRuns(y));
    } else {
      var t := a[1..];
      if t != [] {
        assert t[|t| - 1] == a[|a| - 1];
      }
      CollapseRunsAppend(t, y);
      assert a == [a[0]] + t;
      CollapseRunsAppendWord(a[0], t, y, CollapseRuns(y));
    }
  }

  /** `replace(/\s+/g, ' ')` turns a run of whitespace that follows a non-whitespace
      character and precedes one (or the end) into exactly one space, and works on
      either side of it independently. */
  lemma CollapseRunsJoin(a: string, g: string, b: string)
    requires a != [] && !IsWhitespace(a[|a| - 1])
    requires g != [] && AllWhitespace(g)
    requires b == [] || !IsWhitespace(b[0])
    ensures CollapseRuns(a + g + b) == CollapseRuns(a) + [' '] + CollapseRuns(b)
  {
    AppendAssoc(a, g, b);
    CollapseRunsAppend(a, g + b);
    CollapseRunsRun(g, b);
    AppendAssoc(CollapseRuns(a), [' '], CollapseRuns(b));
  }

  /** Text without whitespace is left alone. */
  lemma {:induction false} CollapseRunsNoWhitespace(s: string)
    requires NoWhitespace(s)
    ensures CollapseRuns(s) == s
    decreases |s|
  {
    if s != [] {
      CollapseRunsNoWhitespace(s[1..]);
      assert s == [s[0]] + s[1..];
    }
  }

  /** A non-whitespace last character survives collapsing. */
  lemma {:induction false} CollapseRunsLast(s: string)
    requires s != [] && !IsWhitespace(s[|s| - 1])
    ensures CollapseRuns(s) != [] && CollapseRuns(s)[|CollapseRuns(s)| - 1] == s[|s| - 1]
    decreases |s|
  {
    if IsWhitespace(s[0]) {
      var t := TrimStart(s);
      assert t != [] && t[|t| - 1] == s[|s| - 1] && |t| < |s|;
      CollapseRunsLast(t);
    } else if |s| > 1 {
      assert s[1..][|s| - 2] == s[|s| - 1];
      CollapseRunsLast(s[1..]);
    }
  }

  /** The header normalisation puts exactly one space between two words separated by
      any run of whitespace. */
  lemma CollapseWhitespaceJoin(a: string, g: string, b: string)
    requires a != [] && !IsWhitespace(a[0]) && !IsWhitespace(a[|a| - 1])
    requires g != [] && AllWhitespace(g)
    requires b != [] && !IsWhitespace(b[0]) && !IsWhitespace(b[|b| - 1])
    ensures CollapseWhitespace(a + g + b) == CollapseWhitespace(a) + [' '] + CollapseWhitespace(b)
  {
    var ca, cb := CollapseRuns(a), CollapseRuns(b);
    CollapseRunsJoin(a, g, b);
    CollapseRunsLast(a);
    CollapseRunsLast(b);
    TrimIdentity(ca);
    TrimIdentity(cb);
    var r := ca + [' '] + cb;
    assert r[0] == ca[0] && r[|r| - 1] == cb[|cb| - 1];
    TrimIdentity(r);
  }

  /** Collapsing runs deletes and inserts only whitespace. */
  lemma {:induction false} CollapseRunsStrip(s: string)
    ensures StripWhitespace(CollapseRuns(s)) == StripWhitespace(s)
    decreases |s|
  {
    if s != [] {
      var r := CollapseRuns(s);
      if IsWhitespace(s[0]) {
        var rest := TrimStart(s);
        CollapseRunsStrip(rest);
        TrimStartStrip(s);
        StripAppend([' '], CollapseRuns(rest));
      } else {
        CollapseRunsStrip(s[1..]);
        StripAppend([s[0]], CollapseRuns(s[1..]));
        StripAppend([s[0]], s[1..]);
        assert s == [s[0]] + s[1..];
      }
    }
  }

  lemma {:induction false} TrimStartSingleSpaced(s: string)
    requires SingleSpaced(s)
    ensures SingleSpaced(TrimStart(s))
    decreases |s|
  {
    if s != [] && IsWhitespace(s[0]) {
      TrimStartSingleSpaced(s[1..]);
    }
  }

  lemma {:induction false} TrimEndSingleSpaced(s: string)
    requires SingleSpaced(s)
    ensures SingleSpaced(TrimEnd(s))
    decreases |s|
  {
    if s != [] && IsWhitespace(s[|s| - 1]) {
      SingleSpacedTake(s, |s| - 1);
      TrimEndSingleSpaced(s[..|s| - 1]);
    }
  }

  /** Trimming keeps a string single-spaced. */
  lemma TrimSingleSpaced(c: string)
    requires SingleSpaced(c)
    ensures SingleSpaced(Trim(c))
  {
    TrimStartSingleSpaced(c);
    TrimEndSingleSpaced(TrimStart(c));
  }

  /** The whitespace normalisation of the header text: `replace(/\s+/g, ' ').trim()`. */
  function CollapseWhitespace(s: string): (r: string)
    ensures SingleSpaced(r)
    ensures r == [] || (!IsWhitespace(r[0]) && !IsWhitespace(r[|r| - 1]))
  {
    TrimSingleSpaced(CollapseRuns(s));
    Trim(CollapseRuns(s))
  }

  /** Normalising deletes, and turns into spaces, only whitespace. */
  lemma CollapseWhitespaceStrip(s: string)
    ensures StripWhitespace(CollapseWhitespace(s)) == StripWhitespace(s)
  {
    CollapseRunsStrip(s);
    TrimStrip(CollapseRuns(s));
  }

  lemma {:induction false} CollapseRunsIdentity(s: string)
    requires SingleSpaced(s) && (s == [] || !IsWhitespace(s[0]))
    ensures CollapseRuns(s) == s
    decreases |s|
  {
    if s != [] {
      var t := s[1..];
      if t != [] && IsWhitespace(t[0]) {
        var u := t[1..];
        SpaceThenWord(t);
        CollapseRunsIdentity(u);
        assert CollapseRuns(t) == t by {
          assert t == [' '] + u;
        }
      } else {
        CollapseRunsIdentity(t);
      }
      assert s == [s[0]] + t;
    }
  }

  /** In a single-spaced string, a leading space is the whole leading run. */
  lemma SpaceThenWord(t: string)
    requires SingleSpaced(t) && t != [] && IsWhitespace(t[0])
    ensures t[0] == ' ' && TrimStart(t) == t[1..] && SingleSpaced(t[1..])
    ensures t[1..] == [] || !IsWhitespace(t[1..][0])
  {
    var u := t[1..];
    assert u != [] ==> u[0] == t[1] && t[1] != ' ';
    assert TrimStart(u) == u;
  }

  /** Normalising a header that is already single-spaced and trimmed changes nothing;
      in particular the normalisation is idempotent. */
  lemma CollapseWhitespaceIdentity(s: string)
    requires SingleSpaced(s) && (s == [] || (!IsWhitespace(s[0]) && !IsWhitespace(s[|s| - 1])))
    ensures CollapseWhitespace(s) == s
  {
    CollapseRunsIdentity(s);
    TrimIdentity(s);
  }

  lemma CollapseWhitespaceIdempotent(s: string)
    ensures CollapseWhitespace(CollapseWhitespace(s)) == CollapseWhitespace(s)
  {
    CollapseWhitespaceIdentity(CollapseWhitespace(s));
  }
}
