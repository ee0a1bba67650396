/**
 `URLMatcherModel` (src/options/URLMatcherModel.ts): turning a URL into a
 stored glob pattern under one of four modes, classifying a pattern by its
 shape, stripping its wildcard, and testing a URL against a pattern.

 `isMatch` is modelled step by step as the source builds its regular
 expression: every regex syntax character except `*` is escaped, then only
 the FIRST `*` is replaced by `.*`, and the result is compiled and matched
 against the whole URL. Later `*`s therefore stay regex quantifiers that
 repeat the character before them, and a `**` makes the compile fail.

 URL parsing (the WHATWG URL Standard, section 4.4) is not modelled: it is a
 parameter that returns the parts the source reads, or `None` when
 `new URL(url)` would throw.
 */
module UrlMatcher {
  import opened Wrappers
  import opened Text
  import opened JsRegex
  import opened Seqs

  /** The parts of a parsed URL that the extension reads. `protocol` carries
      its trailing `:`, `pathname` its leading `/`, `search` its leading `?`
      (or is empty), and `origin` is `protocol//host[:port]`. */
  datatype UrlParts = UrlParts(
    protocol: string,
    hostname: string,
    pathname: string,
    search: string,
    origin: string)

  type UrlParser = string -> Option<UrlParts>

  datatype MatchOptions = MatchOptions(
    matchDomain: bool,
    matchPath: bool,
    matchExact: bool,
    matchQuery: bool)

  datatype PatternType = MatchDomain | MatchPath | MatchExact | MatchQuery

  // ---------------------------------------------------------------------------
  // isMatch

  /** The characters of the class `[|\\{}()[\]^$+?.]` that the source escapes. */
  predicate IsEscaped(c: char) {
    || c == '|' || c == '\\' || c == '{' || c == '}' || c == '(' || c == ')'
    || c == '[' || c == ']' || c == '^' || c == '$' || c == '+' || c == '?' || c == '.'
  }

  /** The escaped characters are exactly the regex syntax characters other than `*`. */
  lemma EscapedAreSyntaxCharacters(c: char)
    ensures IsEscaped(c) <==> IsSyntaxCharacter(c) && c != '*'
  {
  }

  /** `pattern.replace(/[|\\{}()[\]^$+?.]/g, "\\$&")`: a backslash before each
      escaped character. */
  function Escape(p: string): (r: string)
    ensures |r| >= |p|
  {
    if p == [] then [] else EscapeChar(p[0]) + Escape(p[1..])
  }

  /** One character, with a backslash before it when it is escaped. */
  function EscapeChar(c: char): string {
    if IsEscaped(c) then ['\\', c] else [c]
  }

  /** The body of the source's regular expression, between `^` and `$`. */
  function RegexSource(pattern: string): string {
    ReplaceFirst(Escape(pattern), '*', ".*")
  }

  /** `URLMatcherModel.isMatch(url, pattern)`; `Err` is the SyntaxError that
      `new RegExp` throws. */
  function IsMatch(url: string, pattern: string): Result<bool, SyntaxError> {
    var terms :- Compile(RegexSource(pattern));
    Ok(FullMatch(terms, url))
  }

  // ---------------------------------------------------------------------------
  // getURLFromPattern

  /** `URLMatcherModel.getURLFromPattern`: removes the first `*` only. */
  function GetUrlFromPattern(pattern: string): (r: string)
    ensures '*' !in pattern ==> r == pattern
    ensures '*' in pattern ==>
      var i := FirstIndexOf(pattern, '*');
      r == pattern[..i] + pattern[i + 1..]
    ensures '*' in pattern ==> multiset(r)['*'] == multiset(pattern)['*'] - 1
  {
    if '*' in pattern then
      RemoveFirstStar(pattern);
      ReplaceFirst(pattern, '*', "")
    else
      ReplaceFirst(pattern, '*', "")
  }

  lemma RemoveFirstStar(pattern: string)
    requires '*' in pattern
    ensures var i := FirstIndexOf(pattern, '*');
      && ReplaceFirst(pattern, '*', "") == pattern[..i] + pattern[i + 1..]
      && multiset(pattern[..i] + pattern[i + 1..])['*'] == multiset(pattern)['*'] - 1
  {
    var i := FirstIndexOf(pattern, '*');
    var a, b := pattern[..i], pattern[i + 1..];
    SplitAtFirst(pattern, '*');
    ReplaceFirstAt(a, '*', b, "");
    assert a + "" + b == a + b;
    assert multiset(pattern) == multiset(a) + multiset{'*'} + multiset(b);
    assert multiset(a + b) == multiset(a) + multiset(b);
  }

  // ---------------------------------------------------------------------------
  // getPatternType

  /** `URLMatcherModel.getPatternType`, with its first-match-wins order written
      out as one condition per result. */
  function GetPatternType(pattern: string): (t: PatternType)
    ensures t == MatchDomain <==> EndsWith(pattern, "/*")
    ensures t == MatchPath <==>
      EndsWith(pattern, "*") && !EndsWith(pattern, "/*") && '?' !in pattern
    ensures t == MatchQuery <==>
      !EndsWith(pattern, "/*") && '*' in pattern && '?' in pattern
    ensures t == MatchExact <==>
      !EndsWith(pattern, "*") && ('*' !in pattern || '?' !in pattern)
  {
    if EndsWith(pattern, "/*") then
      MatchDomain
    else if EndsWith(pattern, "*") && '?' !in pattern then
      MatchPath
    else if '*' !in pattern then
      SuffixIsContained(pattern, '*');
      MatchExact
    else if '?' in pattern then
      MatchQuery
    else
      MatchExact
  }

  // ---------------------------------------------------------------------------
  // generateUrlPattern

  function DomainPattern(u: UrlParts): string {
    u.protocol + "//" + u.hostname + "/*"
  }

  function PathPattern(u: UrlParts): string {
    u.protocol + "//" + u.hostname + u.pathname + "*"
  }

  function QueryPattern(u: UrlParts): string {
    u.protocol + "//" + u.hostname + u.pathname + u.search
  }

  /** The mode `generateUrlPattern` follows when several flags are set:
      exact, then query, then domain, then path; `None` when no flag is set. */
  function SelectedMode(options: MatchOptions): (m: Option<PatternType>)
    ensures m.None? <==>
      !options.matchExact && !options.matchQuery && !options.matchDomain && !options.matchPath
    ensures m == Some(MatchExact) <==> options.matchExact
    ensures m == Some(MatchQuery) <==> options.matchQuery && !options.matchExact
    ensures m == Some(MatchDomain) <==>
      options.matchDomain && !options.matchQuery && !options.matchExact
    ensures m == Some(MatchPath) <==>
      options.matchPath && !options.matchDomain && !options.matchQuery && !options.matchExact
  {
    if options.matchExact then Some(MatchExact)
    else if options.matchQuery then Some(MatchQuery)
    else if options.matchDomain then Some(MatchDomain)
    else if options.matchPath then Some(MatchPath)
    else None
  }

  /** `URLMatcherModel.generateUrlPattern`; `None` is its `null`, returned both
      for a URL that does not parse and for options with no flag set. */
  function GenerateUrlPattern(url: string, options: MatchOptions, parse: UrlParser): (r: Option<string>)
    ensures r.None? <==> parse(url).None? || SelectedMode(options).None?
    ensures parse(url).Some? && options.matchExact ==> r == Some(url)
    ensures parse(url).Some? && SelectedMode(options) == Some(MatchQuery) ==>
      r == Some(QueryPattern(parse(url).value))
    ensures parse(url).Some? && SelectedMode(options) == Some(MatchDomain) ==>
      r == Some(DomainPattern(parse(url).value))
    ensures parse(url).Some? && SelectedMode(options) == Some(MatchPath) ==>
      r == Some(PathPattern(parse(url).value))
  {
    match parse(url)
    case None => None
    case Some(u) =>
      if options.matchExact then Some(url)
      else if options.matchQuery then Some(QueryPattern(u))
      else if options.matchDomain then Some(DomainPattern(u))
      else if options.matchPath then Some(PathPattern(u))
      else None
  }

  // ---------------------------------------------------------------------------
  // What isMatch decides

  lemma {:induction false} EscapeConcat(a: string, b: string)
    ensures Escape(a + b) == Escape(a) + Escape(b)
    decreases |a|
  {
    if a == [] {
      assert a + b == b;
    } else {
      assert (a + b)[1..] == a[1..] + b;
      EscapeConcat(a[1..], b);
    }
  }

  lemma {:induction false} EscapeStarFree(a: string)
    requires '*' !in a
    ensures '*' !in Escape(a)
    decreases |a|
  {
    if a != [] {
      assert a[0] in a;
      assert forall i :: 0 <= i < |a[1..]| ==> a[1..][i] == a[i + 1];
      EscapeStarFree(a[1..]);
    }
  }

  /** The token each pattern character becomes once escaped: a `*` stays a
      star, every other character a literal. */
  function CharTokens(p: string): (r: seq<Token>)
    ensures |r| == |p|
    ensures forall i :: 0 <= i < |p| ==>
      r[i] == if p[i] == '*' then StarToken else AtomToken(Literal(p[i]))
  {
    if p == [] then []
    else [if p[0] == '*' then StarToken else AtomToken(Literal(p[0]))] + CharTokens(p[1..])
  }

  lemma {:induction false} TokenizeEscaped(a: string, rest: string)
    requires Tokenize(rest).Ok?
    ensures Tokenize(Escape(a) + rest) == Ok(CharTokens(a) + Tokenize(rest).value)
    decreases |a|
  {
    if a == [] {
      assert Escape(a) + rest == rest;
      assert CharTokens(a) + Tokenize(rest).value == Tokenize(rest).value;
    } else {
      var t := Tokenize(rest).value;
      var tail := Escape(a[1..]) + rest;
      assert Escape(a) + rest == EscapeChar(a[0]) + tail by {
        ConcatAssoc(EscapeChar(a[0]), Escape(a[1..]), rest);
      }
      assert Tokenize(tail).Ok? && Tokenize(tail).value == CharTokens(a[1..]) + t by {
        TokenizeEscaped(a[1..], rest);
      }
      TokenizeEscapedChar(a[0], tail);
      assert CharTokens([a[0]]) + (CharTokens(a[1..]) + t) == CharTokens(a) + t by {
        assert CharTokens(a) == CharTokens([a[0]]) + CharTokens(a[1..]);
        ConcatAssoc(CharTokens([a[0]]), CharTokens(a[1..]), t);
      }
    }
  }

  /** One escaped character in front of a text becomes its one token. */
  lemma TokenizeEscapedChar(c: char, tail: string)
    requires Tokenize(tail).Ok?
    ensures Tokenize(EscapeChar(c) + tail) == Ok(CharTokens([c]) + Tokenize(tail).value)
  {
    EscapedAreSyntaxCharacters(c);
    var src := EscapeChar(c) + tail;
    var t := Tokenize(tail).value;
    if IsEscaped(c) {
      assert src[0] == '\\' && src[1] == c && src[2..] == tail;
      assert CharTokens([c]) == [AtomToken(Literal(c))];
      assert Tokenize(src) == Ok([AtomToken(Literal(c))] + t);
    } else if c == '*' {
      assert src[0] == c && src[1..] == tail;
      assert CharTokens([c]) == [StarToken];
      assert Tokenize(src) == Ok([StarToken] + t);
    } else {
      assert src[0] == c && src[1..] == tail;
      assert !IsSyntaxCharacter(c);
      assert CharTokens([c]) == [AtomToken(Literal(c))];
      assert Tokenize(src) == Ok([AtomToken(Literal(c))] + t);
    }
  }

  /** The tokens of the regular expression the source builds: those of the
      pattern, with a `.` inserted before its first star. */
  function SourceTokens(p: string): seq<Token> {
    if '*' in p then
      var i := FirstIndexOf(p, '*');
      CharTokens(p[..i]) + [AtomToken(AnyChar), StarToken] + CharTokens(p[i + 1..])
    else
      CharTokens(p)
  }

  /** Only the first star is rewritten to `.*`. */
  lemma RegexSourceOneStar(a: string, b: string)
    requires '*' !in a
    ensures RegexSource(a + "*" + b) == Escape(a) + ".*" + Escape(b)
  {
    EscapeConcat(a + "*", b);
    EscapeConcat(a, "*");
    assert Escape("*") == "*";
    EscapeStarFree(a);
    ReplaceFirstAt(Escape(a), '*', Escape(b), ".*");
  }

  /** One character that is neither a backslash nor a syntax character
      other than `.` and `*` becomes one token. */
  lemma TokenizeCons(c: char, rest: string)
    requires c != '\\' && (IsSyntaxCharacter(c) ==> c == '.' || c == '*')
    requires Tokenize(rest).Ok?
    ensures Tokenize([c] + rest) == Ok(
      [if c == '.' then AtomToken(AnyChar) else if c == '*' then StarToken else AtomToken(Literal(c))]
      + Tokenize(rest).value)
  {
    var src := [c] + rest;
    assert src[0] == c && src[1..] == rest;
  }

  lemma TokenizeDotStar(b: string)
    ensures Tokenize(".*" + Escape(b)) == Ok([AtomToken(AnyChar), StarToken] + CharTokens(b))
  {
    var e := Escape(b);
    TokenizeEscaped(b, []);
    assert e + [] == e;
    var t := Tokenize(e).value;
    assert t == CharTokens(b) + [];
    var starred := ['*'] + e;
    TokenizeCons('*', e);
    TokenizeCons('.', starred);
    assert ".*" + e == ['.'] + starred;
    assert [AtomToken(AnyChar)] + ([StarToken] + t) == [AtomToken(AnyChar), StarToken] + CharTokens(b);
  }

  lemma TokenizeOneStar(a: string, b: string)
    requires '*' !in a
    ensures Tokenize(RegexSource(a + "*" + b))
         == Ok(CharTokens(a) + [AtomToken(AnyChar), StarToken] + CharTokens(b))
  {
    RegexSourceOneStar(a, b);
    ConcatAssoc(Escape(a), ".*", Escape(b));
    TokenizeDotStar(b);
    TokenizeEscaped(a, ".*" + Escape(b));
    ConcatAssoc(CharTokens(a), [AtomToken(AnyChar), StarToken], CharTokens(b));
  }

  lemma TokenizeStarFree(p: string)
    requires '*' !in p
    ensures Tokenize(RegexSource(p)) == Ok(CharTokens(p))
  {
    EscapeStarFree(p);
    assert RegexSource(p) == Escape(p);
    assert Tokenize([]) == Ok([]);
    TokenizeEscaped(p, []);
    assert Escape(p) + [] == Escape(p);
    assert CharTokens(p) + [] == CharTokens(p);
  }

  /** Escaping guarantees that the source always tokenizes. */
  lemma TokenizeRegexSource(p: string)
    ensures Tokenize(RegexSource(p)) == Ok(SourceTokens(p))
  {
    if '*' in p {
      var i := FirstIndexOf(p, '*');
      SplitAtFirst(p, '*');
      TokenizeOneStar(p[..i], p[i + 1..]);
      assert p[..i] + "*" + p[i + 1..] == p;
    } else {
      TokenizeStarFree(p);
    }
  }

  function Prefixed(pre: seq<Term>, r: Result<seq<Term>, SyntaxError>): Result<seq<Term>, SyntaxError> {
    if r.Ok? then Ok(pre + r.value) else r
  }

  lemma {:induction false} GroupLiteralsThen(a: string, rest: seq<Token>)
    requires '*' !in a
    requires rest == [] || rest[0].AtomToken?
    ensures Group(CharTokens(a) + rest) == Prefixed(Literals(a), Group(rest))
    decreases |a|
  {
    if a == [] {
      assert CharTokens(a) + rest == rest;
      assert Literals(a) == [];
      if Group(rest).Ok? {
        assert Literals(a) + Group(rest).value == Group(rest).value;
      }
    } else {
      var ts := CharTokens(a) + rest;
      var t0 := Term(Literal(a[0]), false);
      var g := Group(ts[1..]);
      assert Group(ts) == Prefixed([t0], g) by {
        assert a[0] in a;
        assert ts[0] == AtomToken(Literal(a[0]));
        if 2 <= |a| {
          assert a[1] in a;
        }
        assert |ts| < 2 || ts[1].AtomToken?;
      }
      assert '*' !in a[1..] by {
        assert forall i :: 0 <= i < |a[1..]| ==> a[1..][i] == a[i + 1];
      }
      assert g == Prefixed(Literals(a[1..]), Group(rest)) by {
        assert ts[1..] == CharTokens(a[1..]) + rest;
        GroupLiteralsThen(a[1..], rest);
      }
      if g.Ok? {
        assert [t0] + g.value == Literals(a) + Group(rest).value by {
          assert Literals(a) == [t0] + Literals(a[1..]);
          ConcatAssoc([t0], Literals(a[1..]), Group(rest).value);
        }
      }
    }
  }

  /** Without a star, the expression is the pattern's characters as literals. */
  lemma CompileStarFree(p: string)
    requires '*' !in p
    ensures Compile(RegexSource(p)) == Ok(Literals(p))
  {
    TokenizeStarFree(p);
    GroupLiteralsThen(p, []);
    assert CharTokens(p) + [] == CharTokens(p);
    assert Literals(p) + [] == Literals(p);
  }

  /** With one star, the expression is the literals before it, `.*`, and the
      literals after it. */
  lemma CompileOneStar(a: string, b: string)
    requires '*' !in a && '*' !in b
    ensures Compile(RegexSource(a + "*" + b)) == Ok(Literals(a) + [Term(AnyChar, true)] + Literals(b))
  {
    TokenizeOneStar(a, b);
    var tail := [AtomToken(AnyChar), StarToken] + CharTokens(b);
    ConcatAssoc(CharTokens(a), [AtomToken(AnyChar), StarToken], CharTokens(b));
    GroupDotStar(b);
    GroupLiteralsThen(a, tail);
    ConcatAssoc(Literals(a), [Term(AnyChar, true)], Literals(b));
  }

  /** `.*` then the literal tokens of `b` group into one repeated wildcard
      and the literals. */
  lemma GroupDotStar(b: string)
    requires '*' !in b
    ensures Group([AtomToken(AnyChar), StarToken] + CharTokens(b)) == Ok([Term(AnyChar, true)] + Literals(b))
  {
    var tail := [AtomToken(AnyChar), StarToken] + CharTokens(b);
    GroupLiteralsThen(b, []);
    assert CharTokens(b) + [] == CharTokens(b);
    assert Literals(b) + [] == Literals(b);
    assert tail[2..] == CharTokens(b);
  }

  /** A pattern without `*` matches exactly itself: every other regex
      character, `?` and `.` included, stands for itself. */
  lemma IsMatchStarFree(url: string, pattern: string)
    requires '*' !in pattern
    ensures IsMatch(url, pattern) == Ok(url == pattern)
  {
    CompileStarFree(pattern);
    LiteralsExactly(pattern, url);
  }

  /** A pattern with one star matches exactly the strings that start with
      the text before the star, end with the text after it, are long enough
      for both, and have no line terminator in between. */
  lemma IsMatchOneStar(url: string, before: string, after: string)
    requires '*' !in before && '*' !in after
    ensures IsMatch(url, before + "*" + after) == Ok(
      && before <= url
      && |before| + |after| <= |url|
      && url[|url| - |after|..] == after
      && NoLineTerminator(url[|before|..|url| - |after|]))
  {
    CompileOneStar(before, after);
    var anyThen := [Term(AnyChar, true)] + Literals(after);
    ConcatAssoc(Literals(before), [Term(AnyChar, true)], Literals(after));
    LiteralsThen(before, anyThen, url);
    if before <= url {
      var rest := url[|before|..];
      AnyThenLiterals(after, rest);
      if |after| <= |rest| {
        assert rest[|rest| - |after|..] == url[|url| - |after|..];
        assert rest[..|rest| - |after|] == url[|before|..|url| - |after|];
      }
    }
  }

  // ---------------------------------------------------------------------------
  // When isMatch throws

  /** Two stars side by side somewhere in the pattern. */
  predicate HasDoubleStar(p: string) {
    exists i :: 0 <= i < |p| - 1 && p[i] == '*' && p[i + 1] == '*'
  }

  /** A star token with nothing to repeat: first, or right after another star. */
  predicate HasStrayStar(ts: seq<Token>) {
    exists i :: 0 <= i < |ts| && ts[i] == StarToken && (i == 0 || ts[i - 1] == StarToken)
  }

  lemma {:induction false} GroupFailsIff(ts: seq<Token>)
    ensures Group(ts).Err? <==> HasStrayStar(ts)
    ensures Group(ts).Err? ==> Group(ts).error == NothingToRepeat
    decreases |ts|
  {
    if ts == [] {
    } else if ts[0].StarToken? {
      assert ts[0] == StarToken;
    } else if 2 <= |ts| && ts[1].StarToken? {
      var rest := ts[2..];
      GroupFailsIff(rest);
      if HasStrayStar(rest) {
        var j :| 0 <= j < |rest| && rest[j] == StarToken && (j == 0 || rest[j - 1] == StarToken);
        assert ts[j + 2] == StarToken && ts[j + 1] == StarToken;
      }
      if HasStrayStar(ts) {
        var i :| 0 <= i < |ts| && ts[i] == StarToken && (i == 0 || ts[i - 1] == StarToken);
        assert i >= 2;
        assert rest[i - 2] == StarToken && (i - 2 == 0 || rest[i - 3] == StarToken);
      }
    } else {
      var rest := ts[1..];
      GroupFailsIff(rest);
      if HasStrayStar(rest) {
        var j :| 0 <= j < |rest| && rest[j] == StarToken && (j == 0 || rest[j - 1] == StarToken);
        assert j > 0;
        assert ts[j + 1] == StarToken && ts[j] == StarToken;
      }
      if HasStrayStar(ts) {
        var i :| 0 <= i < |ts| && ts[i] == StarToken && (i == 0 || ts[i - 1] == StarToken);
        assert i >= 2;
        assert rest[i - 1] == StarToken && rest[i - 2] == StarToken;
      }
    }
  }

  lemma StrayStarFree(p: string)
    requires '*' !in p
    ensures !HasStrayStar(CharTokens(p))
  {
  }

  lemma StrayStarMeansDoubleStar(a: string, b: string)
    requires '*' !in a
    requires HasStrayStar(CharTokens(a) + [AtomToken(AnyChar), StarToken] + CharTokens(b))
    ensures HasDoubleStar(a + "*" + b)
  {
    var ta, tb := CharTokens(a), CharTokens(b);
    var ts := ta + [AtomToken(AnyChar), StarToken] + tb;
    var p := a + "*" + b;
    var n := |a|;
    var i :| 0 <= i < |ts| && ts[i] == StarToken && (i == 0 || ts[i - 1] == StarToken);
    assert i >= n + 2 by {
      assert ts[n] == AtomToken(AnyChar);
    }
    var j := i - n - 2;
    assert b[j] == '*' by {
      assert ts[i] == tb[j];
    }
    assert p[n + 1 + j] == '*';
    if j == 0 {
      assert p[n] == '*';
    } else {
      assert b[j - 1] == '*' by {
        assert ts[i - 1] == tb[j - 1];
      }
      assert p[n + j] == '*';
    }
  }

  lemma DoubleStarMeansStrayStar(a: string, b: string)
    requires '*' !in a
    requires HasDoubleStar(a + "*" + b)
    ensures HasStrayStar(CharTokens(a) + [AtomToken(AnyChar), StarToken] + CharTokens(b))
  {
    var ta, tb := CharTokens(a), CharTokens(b);
    var ts := ta + [AtomToken(AnyChar), StarToken] + tb;
    var p := a + "*" + b;
    var n := |a|;
    var i :| 0 <= i < |p| - 1 && p[i] == '*' && p[i + 1] == '*';
    var j := i - n;
    assert p[i + 1] == b[j];
    assert ts[n + 2 + j] == tb[j];
    if j > 0 {
      assert p[i] == b[j - 1];
      assert ts[n + 1 + j] == tb[j - 1];
    }
    assert ts[n + 2 + j] == StarToken && ts[n + 1 + j] == StarToken;
  }

  /** `isMatch` throws (the regex has a `*` with nothing to repeat) exactly
      when the pattern contains `**`; a single star, or stars apart, never
      make it throw. */
  lemma IsMatchFailsIff(url: string, pattern: string)
    ensures IsMatch(url, pattern).Err? <==> HasDoubleStar(pattern)
    ensures IsMatch(url, pattern).Err? ==> IsMatch(url, pattern).error == NothingToRepeat
  {
    if '*' in pattern {
      var i := FirstIndexOf(pattern, '*');
      var a, b := pattern[..i], pattern[i + 1..];
      SplitAtFirst(pattern, '*');
      assert a + "*" + b == pattern;
      TokenizeOneStar(a, b);
      var ts := CharTokens(a) + [AtomToken(AnyChar), StarToken] + CharTokens(b);
      GroupFailsIff(ts);
      if HasStrayStar(ts) {
        StrayStarMeansDoubleStar(a, b);
      }
      if HasDoubleStar(pattern) {
        DoubleStarMeansStrayStar(a, b);
      }
    } else {
      TokenizeStarFree(pattern);
      GroupFailsIff(CharTokens(pattern));
      StrayStarFree(pattern);
    }
  }

  // ---------------------------------------------------------------------------
  // The patterns generateUrlPattern produces

  /** A domain pattern is classified as such and matches every string that
      begins with `protocol//hostname/` and has no line terminator after it. */
  lemma DomainPatternMatches(u: UrlParts, url: string)
    requires '*' !in u.protocol && '*' !in u.hostname
    ensures GetPatternType(DomainPattern(u)) == MatchDomain
    ensures IsMatch(url, DomainPattern(u)) == Ok(
      var site := u.protocol + "//" + u.hostname + "/";
      site <= url && NoLineTerminator(url[|site|..]))
  {
    var site := u.protocol + "//" + u.hostname + "/";
    assert '*' !in site;
    assert DomainPattern(u) == site + "*" + "" == site + "*";
    var m := IsMatch(url, DomainPattern(u));
    assert m.Ok? && m.value == (site <= url && NoLineTerminator(url[|site|..])) by {
      IsMatchOneStar(url, site, "");
      assert url[|url|..] == "";
      if site <= url {
        assert url[|site|..|url| - 0] == url[|site|..];
      }
    }
    assert GetPatternType(DomainPattern(u)) == MatchDomain by {
      assert site[|site| - 1..] == "/";
      StarredType(site);
    }
  }

  /** A path pattern matches every line-terminator-free continuation of
      `protocol//hostname pathname`. It is classified by its last characters:
      a pathname ending in `/` makes it a domain pattern (and the root path
      gives exactly the domain pattern), a `?` makes it a query pattern. */
  lemma PathPatternMatches(u: UrlParts, url: string)
    requires '*' !in u.protocol && '*' !in u.hostname && '*' !in u.pathname
    ensures
      var prefix := u.protocol + "//" + u.hostname + u.pathname;
      && IsMatch(url, PathPattern(u)) == Ok(prefix <= url && NoLineTerminator(url[|prefix|..]))
      && GetPatternType(PathPattern(u)) ==
           if EndsWith(prefix, "/") then MatchDomain
           else if '?' in prefix then MatchQuery
           else MatchPath
    ensures u.pathname == "/" ==> PathPattern(u) == DomainPattern(u)
  {
    var prefix := u.protocol + "//" + u.hostname + u.pathname;
    assert '*' !in prefix;
    assert PathPattern(u) == prefix + "*" + "" == prefix + "*";
    var m := IsMatch(url, PathPattern(u));
    assert m.Ok? && m.value == (prefix <= url && NoLineTerminator(url[|prefix|..])) by {
      IsMatchOneStar(url, prefix, "");
      assert url[|url|..] == "";
      if prefix <= url {
        assert url[|prefix|..|url| - 0] == url[|prefix|..];
      }
    }
    StarredType(prefix);
  }

  /** How a star-free prefix followed by one star is classified. */
  lemma StarredType(prefix: string)
    requires '*' !in prefix
    ensures GetPatternType(prefix + "*") ==
      if EndsWith(prefix, "/") then MatchDomain
      else if '?' in prefix then MatchQuery
      else MatchPath
  {
    var p := prefix + "*";
    assert EndsWith(p, "*");
    assert EndsWith(p, "/*") <==> EndsWith(prefix, "/") by {
      if |prefix| >= 1 {
        assert p[|p| - 2..] == [prefix[|prefix| - 1], '*'];
        assert prefix[|prefix| - 1..] == [prefix[|prefix| - 1]];
      }
    }
    assert '?' in p <==> '?' in prefix;
    assert '*' in p;
  }

  /** A query pattern holds no star, so it is classified as an exact pattern
      and matches only its own text: its `?` is a literal, not a quantifier. */
  lemma QueryPatternIsExact(u: UrlParts, url: string)
    requires '*' !in u.protocol && '*' !in u.hostname && '*' !in u.pathname && '*' !in u.search
    ensures GetPatternType(QueryPattern(u)) == MatchExact
    ensures IsMatch(url, QueryPattern(u)) == Ok(url == QueryPattern(u))
  {
    assert '*' !in QueryPattern(u);
    SuffixIsContained(QueryPattern(u), '*');
    IsMatchStarFree(url, QueryPattern(u));
  }

  /** A `*` kept in the path or the query makes the query pattern a
      wildcard: with a `?` in the query it is classified as a query pattern
      (a domain pattern when it ends in a slash and a star), and its one `*` matches any
      run free of line terminators. */
  lemma QueryPatternOneStar(u: UrlParts, url: string)
    requires '?' in u.search
    requires multiset(QueryPattern(u))['*'] == 1
    ensures '*' in QueryPattern(u)
    ensures var p := QueryPattern(u);
      var i := FirstIndexOf(p, '*');
      && GetPatternType(p) == (if EndsWith(p, "/*") then MatchDomain else MatchQuery)
      && IsMatch(url, p) == Ok(AroundStar(url, p[..i], p[i + 1..]))
  {
    var p := QueryPattern(u);
    var prefix := u.protocol + "//" + u.hostname + u.pathname;
    assert p == prefix + u.search;
    var k :| 0 <= k < |u.search| && u.search[k] == '?';
    assert p[|prefix| + k] == '?';
    assert '*' in multiset(p);
    StarAndQueryType(p);
    SingleStarMatches(url, p);
  }

  /** `url` starts with `before`, ends with `after` without the two
      overlapping, and what lies between holds no line terminator: what
      `before*after` describes. */
  predicate AroundStar(url: string, before: string, after: string) {
    && before <= url
    && |before| + |after| <= |url|
    && url[|url| - |after|..] == after
    && NoLineTerminator(url[|before|..|url| - |after|])
  }

  /** A pattern with a `*` and a `?` is a query pattern unless it ends in a
      slash and a star. */
  lemma StarAndQueryType(p: string)
    requires '?' in p && '*' in p
    ensures GetPatternType(p) == (if EndsWith(p, "/*") then MatchDomain else MatchQuery)
  {
  }

  /** A pattern with exactly one `*` matches what lies around its star. */
  lemma SingleStarMatches(url: string, p: string)
    requires '*' in p && multiset(p)['*'] == 1
    ensures var i := FirstIndexOf(p, '*');
      IsMatch(url, p) == Ok(AroundStar(url, p[..i], p[i + 1..]))
  {
    var i := FirstIndexOf(p, '*');
    OnlyStar(p);
    MatchAtStar(url, p, p[..i], p[i + 1..]);
  }

  lemma MatchAtStar(url: string, p: string, before: string, after: string)
    requires p == before + "*" + after && '*' !in before && '*' !in after
    ensures IsMatch(url, p) == Ok(AroundStar(url, before, after))
  {
    IsMatchOneStar(url, before, after);
  }

  /** An exact pattern with at most one star matches the URL it was made from. */
  lemma ExactPatternMatchesItself(url: string, options: MatchOptions, parse: UrlParser)
    requires parse(url).Some? && options.matchExact
    requires multiset(url)['*'] <= 1
    ensures GenerateUrlPattern(url, options, parse) == Some(url)
    ensures IsMatch(url, url) == Ok(true)
  {
    if '*' in url {
      var i := FirstIndexOf(url, '*');
      var a, b := url[..i], url[i + 1..];
      OnlyStar(url);
      OneStarMatchesItself(a, b);
    } else {
      IsMatchStarFree(url, url);
    }
  }

  lemma OneStarMatchesItself(a: string, b: string)
    requires '*' !in a && '*' !in b
    ensures IsMatch(a + "*" + b, a + "*" + b) == Ok(true)
  {
    var p := a + "*" + b;
    IsMatchOneStar(p, a, b);
    assert p[|p| - |b|..] == b;
    assert p[|a|..|p| - |b|] == "*";
  }

  /** In text with one star, the text after the first star has none. */
  lemma OnlyStar(s: string)
    requires '*' in s && multiset(s)['*'] <= 1
    ensures var i := FirstIndexOf(s, '*');
      s[..i] + "*" + s[i + 1..] == s && '*' !in s[..i] && '*' !in s[i + 1..]
  {
    var i := FirstIndexOf(s, '*');
    var a, b := s[..i], s[i + 1..];
    SplitAtFirst(s, '*');
    assert a + "*" + b == s;
    assert multiset(s) == multiset(a) + multiset{'*'} + multiset(b);
    assert multiset(b)['*'] == 0;
  }
}
