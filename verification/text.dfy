/**
 String helpers shared by the model: prefix and suffix tests, decimal
 formatting, `padStart`, the decimal `parseInt` of ECMAScript, the first two
 pieces of `split`, and `replace` with a one-character search string
 (which replaces only the first occurrence).
 */
module Text {
  import opened Wrappers

  predicate StartsWith(s: string, prefix: string) {
    prefix <= s
  }

  predicate EndsWith(s: string, suffix: string) {
    |suffix| <= |s| && s[|s| - |suffix|..] == suffix
  }

  lemma SuffixIsContained(s: string, c: char)
    ensures EndsWith(s, [c]) ==> c in s
  {
    if EndsWith(s, [c]) {
      assert s[|s| - 1] == c;
    }
  }

  // ---------------------------------------------------------------------------
  // Decimal digits

  predicate IsDigit(c: char) {
    '0' <= c <= '9'
  }

  predicate AllDigits(s: string) {
    forall i :: 0 <= i < |s| ==> IsDigit(s[i])
  }

  function DigitChar(d: nat): (c: char)
    requires d < 10
    ensures IsDigit(c) && c as int - '0' as int == d
  {
    ('0' as int + d) as char
  }

  function DigitValue(c: char): (d: nat)
    requires IsDigit(c)
    ensures d < 10 && DigitChar(d) == c
  {
    (c as int - '0' as int) as nat
  }

  /** The value of a run of decimal digits, most significant first. */
  function DigitsValue(s: string): nat
    requires AllDigits(s)
  {
    if s == [] then 0 else DigitsValue(s[..|s| - 1]) * 10 + DigitValue(s[|s| - 1])
  }

  /** `String(n)` for a non-negative integer: its shortest decimal form. */
  function NatToString(n: nat): (r: string)
    ensures 1 <= |r|
    ensures AllDigits(r) && DigitsValue(r) == n
    ensures r[0] == '0' ==> n == 0
    ensures n < 10 <==> |r| == 1
  {
    if n < 10 then [DigitChar(n)]
    else
      var init := NatToString(n / 10);
      var r := init + [DigitChar(n % 10)];
      assert r[..|r| - 1] == init;
      r
  }

  /** `String(i)` for an integer-valued number. */
  function IntToString(i: int): (r: string)
    ensures i < 0 ==> r == "-" + NatToString(-i)
    ensures 0 <= i ==> r == NatToString(i)
  {
    if i < 0 then "-" + NatToString(-i) else NatToString(i)
  }

  function Repeat(c: char, n: nat): (r: string)
    ensures |r| == n
    ensures forall i :: 0 <= i < n ==> r[i] == c
  {
    if n == 0 then [] else [c] + Repeat(c, n - 1)
  }

  /** `s.padStart(width, fill)` for a one-character fill string. */
  function PadStart(s: string, width: nat, fill: char): (r: string)
    ensures |r| == if |s| < width then width else |s|
    ensures EndsWith(r, s)
    ensures forall i :: 0 <= i < |r| - |s| ==> r[i] == fill
  {
    if width <= |s| then s else Repeat(fill, width - |s|) + s
  }

  // ---------------------------------------------------------------------------
  // parseInt(s, 10)

  /** The WhiteSpace and LineTerminator code points that `parseInt` skips
      (ECMA-262 sections 12.2 and 12.3; the space separators are the Zs category). */
  predicate IsJsWhiteSpace(c: char) {
    || c == '\t' || c == '\U{000B}' || c == '\U{000C}' || c == ' ' || c == '\U{00A0}'
    || c == '\U{FEFF}' || c == '\U{1680}' || ('\U{2000}' <= c <= '\U{200A}')
    || c == '\U{202F}' || c == '\U{205F}' || c == '\U{3000}'
    || c == '\n' || c == '\r' || c == '\U{2028}' || c == '\U{2029}'
  }

  function TrimStart(s: string): (r: string)
    ensures r <= s || EndsWith(s, r)
    ensures r == [] || !IsJsWhiteSpace(r[0])
  {
    if s != [] && IsJsWhiteSpace(s[0]) then TrimStart(s[1..]) else s
  }

  /** The longest prefix of `s` made of decimal digits. */
  function DigitPrefix(s: string): (r: string)
    ensures r <= s && AllDigits(r)
    ensures |r| < |s| ==> !IsDigit(s[|r|])
  {
    if s != [] && IsDigit(s[0]) then [s[0]] + DigitPrefix(s[1..]) else []
  }

  /** `parseInt(s, 10)`; `None` stands for `NaN`. A negative zero is read as 0,
      which no caller in the model can tell apart. */
  function ParseInt(s: string): Option<int> {
    var t := TrimStart(s);
    var negative := t != [] && t[0] == '-';
    var body := if t != [] && (t[0] == '-' || t[0] == '+') then t[1..] else t;
    var digits := DigitPrefix(body);
    var magnitude: int := if digits == [] then 0 else DigitsValue(digits);
    if digits == [] then None
    else if negative then Some(-magnitude)
    else Some(magnitude)
  }

  /** Text starting with neither a space, a sign nor a digit reads as `NaN`. */
  lemma ParseIntOfNonNumeric(s: string)
    requires s != [] && !IsJsWhiteSpace(s[0]) && !IsDigit(s[0]) && s[0] != '-' && s[0] != '+'
    ensures ParseInt(s) == None
  {
    assert TrimStart(s) == s;
    assert DigitPrefix(s) == [];
  }

  lemma {:induction false} DigitPrefixOfDigits(s: string, rest: string)
    requires AllDigits(s)
    requires rest == [] || !IsDigit(rest[0])
    ensures DigitPrefix(s + rest) == s
    decreases |s|
  {
    if s != [] {
      assert (s + rest)[1..] == s[1..] + rest;
      DigitPrefixOfDigits(s[1..], rest);
      assert [s[0]] + s[1..] == s;
    } else {
      assert s + rest == rest;
    }
  }

  /** A non-empty run of digits reads back as its value. */
  lemma ParseIntOfDigits(s: string)
    requires s != [] && AllDigits(s)
    ensures ParseInt(s) == Some(DigitsValue(s))
  {
    assert !IsJsWhiteSpace(s[0]) by { assert IsDigit(s[0]); }
    assert TrimStart(s) == s;
    assert s + [] == s;
    DigitPrefixOfDigits(s, []);
    assert DigitPrefix(s) == s;
  }

  /** Reading back what `NatToString` wrote gives the number. */
  lemma ParseIntOfNatToString(n: nat)
    ensures ParseInt(NatToString(n)) == Some(n)
  {
    ParseIntOfDigits(NatToString(n));
  }

  /** Two digits read as a number. */
  lemma TwoDigitsValue(s: string)
    requires |s| == 2 && AllDigits(s)
    ensures DigitsValue(s) == DigitValue(s[0]) * 10 + DigitValue(s[1])
  {
    var first := s[..1];
    assert first[..0] == [] && first[0] == s[0];
    assert DigitsValue(first) == DigitValue(s[0]);
    assert s[..|s| - 1] == first;
  }

  /** A number below 100, padded to two characters, is its two digits. */
  lemma TwoDigits(n: nat)
    requires n < 100
    ensures PadStart(NatToString(n), 2, '0') == [DigitChar(n / 10), DigitChar(n % 10)]
  {
    if n >= 10 {
      assert NatToString(n) == NatToString(n / 10) + [DigitChar(n % 10)];
    }
  }

  /** `String(n).padStart(2, "0")` for `n` below 100 is two digits worth `n`. */
  lemma PaddedTwoDigits(n: nat)
    requires n < 100
    ensures var s := PadStart(NatToString(n), 2, '0'); |s| == 2 && AllDigits(s) && DigitsValue(s) == n
  {
    TwoDigits(n);
    var s := PadStart(NatToString(n), 2, '0');
    TwoDigitsValue(s);
  }

  /** Two digits are the padded form of their own value. */
  lemma PaddedOfTwoDigits(s: string)
    requires |s| == 2 && AllDigits(s)
    ensures DigitsValue(s) < 100
    ensures PadStart(NatToString(DigitsValue(s)), 2, '0') == s
  {
    TwoDigitsValue(s);
    var a, b := DigitValue(s[0]), DigitValue(s[1]);
    var n := DigitsValue(s);
    DivModTen(a, b);
    TwoDigits(n);
    DigitsOfValues(s);
  }

  lemma DigitsOfValues(s: string)
    requires |s| == 2 && AllDigits(s)
    ensures [DigitChar(DigitValue(s[0])), DigitChar(DigitValue(s[1]))] == s
  {
  }

  lemma DivModTen(a: nat, b: nat)
    requires a < 10 && b < 10
    ensures (a * 10 + b) / 10 == a && (a * 10 + b) % 10 == b
  {
  }

  // ---------------------------------------------------------------------------
  // split and replace

  /** The first element of `s.split(sep)`: everything before the first `sep`. */
  function SplitFirst(s: string, sep: char): (r: string)
    ensures r <= s && sep !in r
    ensures |r| < |s| ==> s[|r|] == sep
  {
    if s == [] || s[0] == sep then [] else [s[0]] + SplitFirst(s[1..], sep)
  }

  /** The second element of `s.split(sep)`, or `None` (`undefined`) when `sep`
      does not occur. */
  function SplitSecond(s: string, sep: char): (r: Option<string>)
    ensures r.None? <==> sep !in s
  {
    var first := SplitFirst(s, sep);
    if |first| == |s| then
      assert s == first;
      None
    else
      assert s[|first|] in s;
      Some(SplitFirst(s[|first| + 1..], sep))
  }

  lemma SplitOfJoin(a: string, sep: char, b: string)
    requires sep !in a && sep !in b
    ensures SplitFirst(a + [sep] + b, sep) == a
    ensures SplitSecond(a + [sep] + b, sep) == Some(b)
  {
    SplitFirstStops(a, sep, [sep] + b);
    assert a + [sep] + b == a + ([sep] + b);
    var s := a + [sep] + b;
    assert s[|a| + 1..] == b;
    SplitFirstStops(b, sep, []);
    assert b + [] == b;
  }

  /** The pieces of `a + [sep] + b` sit where they were put. */
  lemma JoinFields(a: string, sep: char, b: string)
    ensures var r := a + [sep] + b;
      |r| == |a| + 1 + |b| && r[..|a|] == a && r[|a|] == sep && r[|a| + 1..] == b
  {
  }

  lemma {:induction false} SplitFirstStops(a: string, sep: char, rest: string)
    requires sep !in a
    requires rest == [] || rest[0] == sep
    ensures SplitFirst(a + rest, sep) == a
    decreases |a|
  {
    if a == [] {
      assert a + rest == rest;
    } else {
      assert (a + rest)[1..] == a[1..] + rest;
      SplitFirstStops(a[1..], sep, rest);
      assert [a[0]] + a[1..] == a;
    }
  }

  /** `s.replace(c, rep)` for a one-character search string: only the first
      occurrence is replaced (a replacement without `$` patterns is inserted
      as is). */
  function ReplaceFirst(s: string, c: char, rep: string): (r: string)
    ensures c !in s ==> r == s
  {
    if s == [] then []
    else if s[0] == c then rep + s[1..]
    else [s[0]] + ReplaceFirst(s[1..], c, rep)
  }

  /** Where the first occurrence of `c` is. */
  function FirstIndexOf(s: string, c: char): (i: nat)
    requires c in s
    ensures i < |s| && s[i] == c && c !in s[..i]
  {
    if s[0] == c then 0
    else
      assert c in s[1..] by { var k :| 0 <= k < |s| && s[k] == c; assert s[1..][k - 1] == c; }
      var j := FirstIndexOf(s[1..], c);
      assert s[..j + 1] == [s[0]] + s[1..][..j];
      j + 1
  }

  /** Replacing the first `c` in `a + [c] + b`, where `a` has none, touches
      exactly that one position. */
  lemma {:induction false} ReplaceFirstAt(a: string, c: char, b: string, rep: string)
    requires c !in a
    ensures ReplaceFirst(a + [c] + b, c, rep) == a + rep + b
    decreases |a|
  {
    if a == [] {
      assert a + [c] + b == [c] + b;
    } else {
      var s := a + [c] + b;
      assert s[0] == a[0] && a[0] != c;
      assert s[1..] == a[1..] + [c] + b;
      ReplaceFirstAt(a[1..], c, b, rep);
      assert ReplaceFirst(s, c, rep) == [a[0]] + ReplaceFirst(s[1..], c, rep);
      assert [a[0]] + (a[1..] + rep + b) == a + rep + b;
    }
  }

  /** Every string containing `c` splits at its first `c`. */
  lemma SplitAtFirst(s: string, c: char)
    requires c in s
    ensures var i := FirstIndexOf(s, c); s == s[..i] + [c] + s[i + 1..]
  {
  }
}
