/**
 The fragment of ECMAScript regular expressions (ECMA-262, section 22.2) that
 `URLMatcherModel.isMatch` can build: literal characters, identity escapes of
 syntax characters, `.` and the greedy `*` quantifier, anchored at both ends
 and compiled without flags.

 A source is first read into tokens, then each atom is grouped with the `*`
 that may follow it. Compiling fails, as `new RegExp` throws a SyntaxError,
 when a `*` has nothing to repeat. Anything outside the fragment is reported
 as `OutsideFragment`; the patterns the matcher builds never reach it.

 Matching is given by the language of the expression: `FullMatch(terms, s)`
 holds iff `s` as a whole is described by `terms`. For an expression without
 alternatives, captures or look-arounds, backtracking search (section 22.2.2)
 finds an anchored match exactly when such a decomposition exists.
 */
module JsRegex {
  import opened Wrappers

  /** SyntaxCharacter, section 22.2.1. */
  predicate IsSyntaxCharacter(c: char) {
    || c == '^' || c == '$' || c == '\\' || c == '.' || c == '*' || c == '+' || c == '?'
    || c == '(' || c == ')' || c == '[' || c == ']' || c == '{' || c == '}' || c == '|'
  }

  /** LineTerminator, section 12.3: what `.` does not match without the `s` flag. */
  predicate IsLineTerminator(c: char) {
    c == '\n' || c == '\r' || c == '\U{2028}' || c == '\U{2029}'
  }

  predicate NoLineTerminator(s: string) {
    forall i :: 0 <= i < |s| ==> !IsLineTerminator(s[i])
  }

  datatype Atom = Literal(c: char) | AnyChar

  datatype Token = AtomToken(atom: Atom) | StarToken

  /** An atom, repeated any number of times when `repeated` holds. */
  datatype Term = Term(atom: Atom, repeated: bool)

  datatype SyntaxError = NothingToRepeat | OutsideFragment

  /** Reads a source into atoms and stars. */
  function Tokenize(src: string): Result<seq<Token>, SyntaxError>
    decreases |src|
  {
    if src == [] then Ok([])
    else if src[0] == '\\' then
      if 2 <= |src| && IsSyntaxCharacter(src[1]) then
        var rest :- Tokenize(src[2..]);
        Ok([AtomToken(Literal(src[1]))] + rest)
      else Err(OutsideFragment)
    else if src[0] == '.' then
      var rest :- Tokenize(src[1..]);
      Ok([AtomToken(AnyChar)] + rest)
    else if src[0] == '*' then
      var rest :- Tokenize(src[1..]);
      Ok([StarToken] + rest)
    else if IsSyntaxCharacter(src[0]) then Err(OutsideFragment)
    else
      var rest :- Tokenize(src[1..]);
      Ok([AtomToken(Literal(src[0]))] + rest)
  }

  /** Attaches each `*` to the atom before it; a `*` at the start or right
      after another `*` has nothing to repeat. */
  function Group(tokens: seq<Token>): Result<seq<Term>, SyntaxError>
    decreases |tokens|
  {
    if tokens == [] then Ok([])
    else if tokens[0].StarToken? then Err(NothingToRepeat)
    else if 2 <= |tokens| && tokens[1].StarToken? then
      var rest :- Group(tokens[2..]);
      Ok([Term(tokens[0].atom, true)] + rest)
    else
      var rest :- Group(tokens[1..]);
      Ok([Term(tokens[0].atom, false)] + rest)
  }

  function Compile(src: string): Result<seq<Term>, SyntaxError> {
    var tokens :- Tokenize(src);
    Group(tokens)
  }

  predicate AtomMatches(a: Atom, c: char) {
    match a
    case Literal(l) => c == l
    case AnyChar => !IsLineTerminator(c)
  }

  /** `s` as a whole is described by `terms`. */
  predicate FullMatch(terms: seq<Term>, s: string)
    decreases |terms|, |s|
  {
    if terms == [] then s == []
    else if !terms[0].repeated then
      s != [] && AtomMatches(terms[0].atom, s[0]) && FullMatch(terms[1..], s[1..])
    else
      || FullMatch(terms[1..], s)
      || (s != [] && AtomMatches(terms[0].atom, s[0]) && FullMatch(terms, s[1..]))
  }

  /** One unrepeated literal term per character of `s`. */
  function Literals(s: string): (r: seq<Term>)
    ensures |r| == |s|
    ensures forall i :: 0 <= i < |s| ==> r[i] == Term(Literal(s[i]), false)
  {
    if s == [] then [] else [Term(Literal(s[0]), false)] + Literals(s[1..])
  }

  /** A run of literals consumes exactly its own text from the front. */
  lemma {:induction false} LiteralsThen(p: string, rest: seq<Term>, s: string)
    ensures FullMatch(Literals(p) + rest, s) <==> p <= s && FullMatch(rest, s[|p|..])
    decreases |p|
  {
    if p == [] {
      assert Literals(p) + rest == rest;
    } else {
      var ts := Literals(p) + rest;
      assert ts[0] == Term(Literal(p[0]), false);
      assert ts[1..] == Literals(p[1..]) + rest;
      if s != [] {
        LiteralsThen(p[1..], rest, s[1..]);
        assert p <= s <==> p[0] == s[0] && p[1..] <= s[1..];
        if |p| <= |s| {
          assert s[1..][|p| - 1..] == s[|p|..];
        }
      }
    }
  }

  /** A pattern of literals only matches exactly its own text. */
  lemma LiteralsExactly(p: string, s: string)
    ensures FullMatch(Literals(p), s) <==> s == p
  {
    LiteralsThen(p, [], s);
    assert Literals(p) + [] == Literals(p);
    if p <= s {
      assert FullMatch([], s[|p|..]) <==> |s| == |p|;
    }
  }

  /** `.*` followed by literals `tail`: the text ends with `tail` and what
      comes before it has no line terminator. */
  lemma {:induction false} AnyThenLiterals(tail: string, s: string)
    ensures FullMatch([Term(AnyChar, true)] + Literals(tail), s)
        <==> |tail| <= |s| && s[|s| - |tail|..] == tail && NoLineTerminator(s[..|s| - |tail|])
    decreases |s|
  {
    LiteralsExactly(tail, s);
    if s == [] {
      AnyThenNothing(tail);
    } else {
      AnyThenLiterals(tail, s[1..]);
      AnyStep(tail, s);
      RunThenTailStep(tail, s);
    }
  }

  /** The text a run free of line terminators followed by `tail` describes. */
  predicate RunThenTail(tail: string, s: string) {
    |tail| <= |s| && s[|s| - |tail|..] == tail && NoLineTerminator(s[..|s| - |tail|])
  }

  /** On the empty text, `.*` repeats nothing and the literals must match. */
  lemma AnyThenNothing(tail: string)
    ensures FullMatch([Term(AnyChar, true)] + Literals(tail), []) <==> FullMatch(Literals(tail), [])
  {
    var ts := [Term(AnyChar, true)] + Literals(tail);
    assert ts[1..] == Literals(tail);
  }

  /** One step of `.*`: stop and match the literals, or take one character
      that is not a line terminator. */
  lemma AnyStep(tail: string, s: string)
    requires s != []
    ensures FullMatch([Term(AnyChar, true)] + Literals(tail), s)
        <==> FullMatch(Literals(tail), s)
             || (!IsLineTerminator(s[0]) && FullMatch([Term(AnyChar, true)] + Literals(tail), s[1..]))
  {
    var ts := [Term(AnyChar, true)] + Literals(tail);
    assert ts[0] == Term(AnyChar, true);
    assert ts[1..] == Literals(tail);
  }

  /** The same step for the description: the whole text is `tail`, or its
      first character is in the run and the rest is described. */
  lemma RunThenTailStep(tail: string, s: string)
    requires s != []
    ensures (|tail| <= |s| && s[|s| - |tail|..] == tail && NoLineTerminator(s[..|s| - |tail|]))
        <==> s == tail
             || (!IsLineTerminator(s[0]) && RunThenTail(tail, s[1..]))
  {
    if |tail| < |s| {
      assert s[1..][|s| - 1 - |tail|..] == s[|s| - |tail|..];
      assert s[1..][..|s| - 1 - |tail|] == s[1..|s| - |tail|];
      assert s[..|s| - |tail|] == [s[0]] + s[1..|s| - |tail|];
      assert NoLineTerminator(s[..|s| - |tail|])
        <==> !IsLineTerminator(s[0]) && NoLineTerminator(s[1..|s| - |tail|]);
      assert s != tail;
    } else if |tail| == |s| {
      assert s[|s| - |tail|..] == s;
      assert s[..|s| - |tail|] == [];
      assert !RunThenTail(tail, s[1..]);
    } else {
      assert !RunThenTail(tail, s[1..]);
    }
  }
}
