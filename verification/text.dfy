/** Character classes and string operations shared by the JavaScript front
    end and the PHP export layer. */
module Text {

  /** An ASCII decimal digit, what `\d` matches without the `u` flag. */
  predicate IsDigit(c: char) {
    '0' <= c <= '9'
  }

  /** An ASCII letter. */
  predicate IsAsciiLetter(c: char) {
    'a' <= c <= 'z' || 'A' <= c <= 'Z'
  }

  /** Characters removed by JavaScript's `String.prototype.trim`:
      WhiteSpace and LineTerminator of ECMA-262 (section 12.2 and 12.3). */
  predicate IsJsWhitespace(c: char) {
    ('\U{0009}' <= c <= '\U{000D}') || c == '\U{0020}' || c == '\U{00A0}'
    || c == '\U{1680}' || ('\U{2000}' <= c <= '\U{200A}')
    || c == '\U{2028}' || c == '\U{2029}' || c == '\U{202F}' || c == '\U{205F}'
    || c == '\U{3000}' || c == '\U{FEFF}'
  }

  /** A string that JavaScript's `trim()` reduces to ''. */
  predicate IsBlank(s: string) {
    forall i :: 0 <= i < |s| ==> IsJsWhitespace(s[i])
  }

  /** Characters removed by PHP's `trim` with its default character list
      (space, tab, newline, carriage return, NUL, vertical tab). */
  predicate IsPhpTrimChar(c: char) {
    c == '\U{0020}' || c == '\U{0009}' || c == '\U{000A}' || c == '\U{000D}'
    || c == '\U{0000}' || c == '\U{000B}'
  }

  /** Characters matched by `\s` in a PCRE pattern with the `u` flag,
      where PHP also enables Unicode properties: \p{Z}, \h and \v. */
  predicate IsPcreSpace(c: char) {
    ('\U{0009}' <= c <= '\U{000D}') || c == '\U{0020}' || c == '\U{0085}' || c == '\U{00A0}'
    || c == '\U{1680}' || c == '\U{180E}' || ('\U{2000}' <= c <= '\U{200A}')
    || c == '\U{2028}' || c == '\U{2029}' || c == '\U{202F}' || c == '\U{205F}'
    || c == '\U{3000}'
  }

  /** Every PHP trim character is also a PCRE space, except NUL. */
  lemma PhpTrimCharIsSpace(c: char)
    requires IsPhpTrimChar(c) && c != '\U{0000}'
    ensures IsPcreSpace(c)
  {
  }

  /** PHP's `trim($s)`: drops the leading and trailing trim characters. */
  function PhpTrim(s: string): (r: string)
    ensures |r| <= |s|
    ensures |r| > 0 ==> !IsPhpTrimChar(r[0]) && !IsPhpTrimChar(r[|r| - 1])
    ensures (forall i :: 0 <= i < |s| ==> IsPhpTrimChar(s[i])) <==> r == []
    ensures exists a, b :: 0 <= a <= b <= |s| && r == s[a..b]
              && (forall i :: 0 <= i < a ==> IsPhpTrimChar(s[i]))
              && (forall i :: b <= i < |s| ==> IsPhpTrimChar(s[i]))
  {
    var a := TrimStart(s, 0);
    var b := TrimEnd(s, a, |s|);
    s[a..b]
  }

  /** The index of the first non-trim character at or after `i`. */
  function TrimStart(s: string, i: nat): (a: nat)
    requires i <= |s|
    requires forall j :: 0 <= j < i ==> IsPhpTrimChar(s[j])
    ensures i <= a <= |s|
    ensures forall j :: 0 <= j < a ==> IsPhpTrimChar(s[j])
    ensures a < |s| ==> !IsPhpTrimChar(s[a])
    decreases |s| - i
  {
    if i < |s| && IsPhpTrimChar(s[i]) then TrimStart(s, i + 1) else i
  }

  /** The end of the text before the trailing trim characters at or before `j`. */
  function TrimEnd(s: string, a: nat, j: nat): (b: nat)
    requires a <= j <= |s|
    requires a < |s| ==> !IsPhpTrimChar(s[a])
    requires forall k :: j <= k < |s| ==> IsPhpTrimChar(s[k])
    ensures a <= b <= j
    ensures forall k :: b <= k < |s| ==> IsPhpTrimChar(s[k])
    ensures b > a ==> !IsPhpTrimChar(s[b - 1])
    ensures b == a ==> a == |s| || j == a
    decreases j
  {
    if j > a && IsPhpTrimChar(s[j - 1]) then TrimEnd(s, a, j - 1) else j
  }

  /** The digit character for 0..9. */
  function DigitChar(d: nat): (c: char)
    requires d < 10
    ensures IsDigit(c)
  {
    ('0' as int + d) as char
  }

  /** The value of a digit character. */
  function DigitValue(c: char): (d: nat)
    requires IsDigit(c)
    ensures d < 10
    ensures DigitChar(d) == c
  {
    (c as int - '0' as int)
  }

  /** The decimal rendering of a natural number, as JavaScript's template
      literals and PHP's string conversion print integers. */
  function NatToString(n: nat): (s: string)
    ensures |s| >= 1
    ensures forall i :: 0 <= i < |s| ==> IsDigit(s[i])
    ensures n >= 10 <==> |s| >= 2
    decreases n
  {
    if n < 10 then [DigitChar(n)] else NatToString(n / 10) + [DigitChar(n % 10)]
  }

  /** The decimal rendering of an integer, with a leading '-' when negative. */
  function IntToString(i: int): (s: string)
    ensures |s| >= 1
    ensures i >= 0 ==> s == NatToString(i)
    ensures i < 0 ==> s == "-" + NatToString(-i)
  {
    if i < 0 then "-" + NatToString(-i) else NatToString(i)
  }

  /** The value of a string of digits read in base 10. */
  function DigitsValue(s: string): nat
    requires forall i :: 0 <= i < |s| ==> IsDigit(s[i])
  {
    if |s| == 0 then 0 else DigitsValue(s[..|s| - 1]) * 10 + DigitValue(s[|s| - 1])
  }

  /** Reading back a rendered number gives the number. */
  lemma {:induction false} NatToStringRoundTrip(n: nat)
    ensures DigitsValue(NatToString(n)) == n
    decreases n
  {
    var s := NatToString(n);
    if n >= 10 {
      NatToStringRoundTrip(n / 10);
      assert s[..|s| - 1] == NatToString(n / 10);
    }
  }

  /** Different numbers render differently. */
  lemma NatToStringInjective(a: nat, b: nat)
    requires NatToString(a) == NatToString(b)
    ensures a == b
  {
    NatToStringRoundTrip(a);
    NatToStringRoundTrip(b);
  }

  /** `pat` occurs in `s` starting at index `i`. */
  predicate OccursAt(s: string, pat: string, i: nat) {
    i + |pat| <= |s| && s[i..i + |pat|] == pat
  }

  /** PHP's `str_replace($pat, $rep, $s)` for one search string: every
      non-overlapping occurrence, scanning left to right, is replaced; an
      empty search string leaves the subject unchanged. */
  function ReplaceAll(s: string, pat: string, rep: string): (r: string)
    ensures |pat| == |rep| ==> |r| == |s|
    decreases |s|
  {
    if |pat| == 0 || |s| < |pat| then s
    else if s[..|pat|] == pat then rep + ReplaceAll(s[|pat|..], pat, rep)
    else [s[0]] + ReplaceAll(s[1..], pat, rep)
  }

  /** A prefix without the first character of the search string is copied. */
  lemma {:induction false} ReplaceAllSkipsPrefix(a: string, b: string, pat: string, rep: string)
    requires |pat| > 0
    requires forall i :: 0 <= i < |a| ==> a[i] != pat[0]
    ensures ReplaceAll(a + b, pat, rep) == a + ReplaceAll(b, pat, rep)
    decreases |a|
  {
    if |a| == 0 {
      assert a + b == b;
    } else if |a + b| < |pat| {
      assert ReplaceAll(b, pat, rep) == b;
    } else {
      assert (a + b)[..|pat|] != pat by {
        assert (a + b)[..|pat|][0] == a[0];
      }
      assert (a + b)[1..] == a[1..] + b;
      ReplaceAllSkipsPrefix(a[1..], b, pat, rep);
      assert [a[0]] + (a[1..] + ReplaceAll(b, pat, rep)) == a + ReplaceAll(b, pat, rep);
    }
  }

  /** A string without the first character of the search string is left
      unchanged. */
  lemma ReplaceAllAbsent(s: string, pat: string, rep: string)
    requires |pat| > 0
    requires forall i :: 0 <= i < |s| ==> s[i] != pat[0]
    ensures ReplaceAll(s, pat, rep) == s
  {
    ReplaceAllSkipsPrefix(s, [], pat, rep);
    assert s + [] == s;
  }

  /** An occurrence at the front is replaced. */
  lemma ReplaceAllAtFront(pat: string, b: string, rep: string)
    requires |pat| > 0
    ensures ReplaceAll(pat + b, pat, rep) == rep + ReplaceAll(b, pat, rep)
  {
    assert (pat + b)[..|pat|] == pat;
    assert (pat + b)[|pat|..] == b;
  }

  /** A first character that does not start an occurrence is copied. */
  lemma ReplaceAllCopiesHead(s: string, pat: string, rep: string)
    requires |pat| > 0 && |s| > 0 && !OccursAt(s, pat, 0)
    ensures ReplaceAll(s, pat, rep) == [s[0]] + ReplaceAll(s[1..], pat, rep)
  {
    if |s| < |pat| {
      assert ReplaceAll(s[1..], pat, rep) == s[1..];
      assert [s[0]] + s[1..] == s;
    }
  }

  /** Occurrences in `s[1..]` are the occurrences in `s` shifted by one. */
  lemma NoOccurrenceInTail(s: string, pat: string, i: nat)
    requires 0 < i <= |s|
    requires forall j :: 0 <= j < i ==> !OccursAt(s, pat, j)
    ensures forall j :: 0 <= j < i - 1 ==> !OccursAt(s[1..], pat, j)
  {
    forall j | 0 <= j < i - 1 ensures !OccursAt(s[1..], pat, j) {
      assert !OccursAt(s, pat, j + 1);
      if j + |pat| <= |s[1..]| {
        assert s[1..][j..j + |pat|] == s[j + 1..j + 1 + |pat|];
      }
    }
  }

  /** A string made of the search string and a rest is replaced at the
      front. */
  lemma ReplaceAllAtFrontOf(s: string, pat: string, rest: string, rep: string)
    requires |pat| > 0 && s == pat + rest
    ensures ReplaceAll(s, pat, rep) == rep + ReplaceAll(rest, pat, rep)
  {
    ReplaceAllAtFront(pat, rest, rep);
  }

  /** Replacement leaves a prefix without an occurrence untouched. */
  lemma {:induction false} ReplaceAllKeepsPrefix(s: string, pat: string, rep: string, i: nat)
    requires |pat| > 0 && i <= |s|
    requires forall j :: 0 <= j < i ==> !OccursAt(s, pat, j)
    ensures ReplaceAll(s, pat, rep) == s[..i] + ReplaceAll(s[i..], pat, rep)
    decreases i
  {
    if i > 0 {
      NoOccurrenceInTail(s, pat, i);
      assert s[1..][i - 1..] == s[i..];
      assert [s[0]] + s[1..][..i - 1] == s[..i];
      calc {
        ReplaceAll(s, pat, rep);
        == { ReplaceAllCopiesHead(s, pat, rep); }
        [s[0]] + ReplaceAll(s[1..], pat, rep);
        == { ReplaceAllKeepsPrefix(s[1..], pat, rep, i - 1); }
        [s[0]] + (s[1..][..i - 1] + ReplaceAll(s[i..], pat, rep));
        s[..i] + ReplaceAll(s[i..], pat, rep);
      }
    } else {
      assert s[..0] + s[0..] == s;
    }
  }
}
