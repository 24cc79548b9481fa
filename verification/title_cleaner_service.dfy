/** Report-title cleaning (`TitleCleanerService::clean`): trim, collapse
    every run of characters outside the kept class into one separator,
    turn whitespace runs into '_', then rewrite a "_от_DD_MM_YYYY" date
    as "_от_DD-MM-YYYY". The kept class is a parameter: the service keeps
    Unicode letters and numbers (\p{L}\p{N}), the report exporter a
    narrower explicit class. */
module TitleCleanerService {
  import opened Wrappers
  import opened Text

  /** What every kept class satisfies: a kept character is not whitespace,
      not removed by `trim`, and neither '_' nor '-' (true of \p{L}\p{N}
      and of [А-яa-zA-Z0-9]). */
  predicate KeepClass(keep: char -> bool) {
    forall c :: keep(c) ==> !IsPcreSpace(c) && !IsPhpTrimChar(c) && c != '_' && c != '-'
  }

  /** The characters one replacement pass collapses. */
  datatype Run =
    | Others   // neither kept nor whitespace: `[^…\s]+`
    | Spaces   // whitespace: `\s+`
    | Unkept   // not kept at all

  predicate InRun(run: Run, keep: char -> bool, c: char) {
    match run
    case Others => !keep(c) && !IsPcreSpace(c)
    case Spaces => IsPcreSpace(c)
    case Unkept => !keep(c)
  }

  /** `preg_replace('/[…]+/u', rep, s)`: each maximal run of `run`
      characters becomes one `rep`. `inRun` says that the text before `s`
      ended inside a run whose replacement is already written. */
  function Collapse(s: string, run: Run, keep: char -> bool, rep: char, inRun: bool): (r: string)
    ensures |r| <= |s| + 1
    decreases |s|
  {
    if |s| == 0 then []
    else if InRun(run, keep, s[0]) then (if inRun then [] else [rep]) + Collapse(s[1..], run, keep, rep, true)
    else [s[0]] + Collapse(s[1..], run, keep, rep, false)
  }

  /** The length of the "_от_DD_MM_YYYY" pattern. */
  const DateMatchLength: nat := 14

  /** The literal start of the date pattern. */
  const DateMarker: string := "_от_"

  /** "_от_" followed by two digits, '_', two digits, '_', four digits
      starts at index i (`/_от_(\d{2}_\d{2}_\d{4})/`). */
  predicate DateAt(s: string, i: nat) {
    && i + DateMatchLength <= |s|
    && s[i..i + 4] == DateMarker
    && IsDigit(s[i + 4]) && IsDigit(s[i + 5]) && s[i + 6] == '_'
    && IsDigit(s[i + 7]) && IsDigit(s[i + 8]) && s[i + 9] == '_'
    && IsDigit(s[i + 10]) && IsDigit(s[i + 11]) && IsDigit(s[i + 12]) && IsDigit(s[i + 13])
  }

  /** The leftmost date match at or after `from`, as `preg_match` finds. */
  function FirstDate(s: string, from: nat): (r: Option<nat>)
    requires from <= |s|
    ensures r.Some? ==> from <= r.value && DateAt(s, r.value)
    ensures r.Some? ==> forall j :: from <= j < r.value ==> !DateAt(s, j)
    ensures r.None? ==> forall j :: from <= j <= |s| ==> !DateAt(s, j)
    decreases |s| - from
  {
    if DateAt(s, from) then Some(from)
    else if from == |s| then None
    else FirstDate(s, from + 1)
  }

  /** The replacement for a date match: the marker, then the date with
      its '_' turned into '-'. */
  function DateReplacement(m: string): string
    requires |m| >= 4
  {
    DateMarker + ReplaceAll(m[4..], "_", "-")
  }

  /** The date step: with a match m, every occurrence of m is replaced. */
  function RewriteDate(s: string): string {
    match FirstDate(s, 0)
    case None => s
    case Some(i) =>
      var m := s[i..i + DateMatchLength];
      ReplaceAll(s, m, DateReplacement(m))
  }

  /** The two replacement passes of the cleaner on an already trimmed
      title. */
  function Separate(t: string, keep: char -> bool): string {
    Collapse(Collapse(t, Others, keep, ' ', false), Spaces, keep, '_', false)
  }

  /** `clean($title)` with kept class `keep`. For a class of non-space,
      non-trim characters other than '_' and '-', the result holds only
      kept characters, '_' and '-' (so no whitespace), never two '_' in a
      row, and dropping '_' and '-' from it gives the title's kept
      characters in order. Where the separators go: the result is the
      trimmed title with each maximal run of unkept characters replaced by
      one '_', except that some of those '_' (inside a date) became '-'. */
  function Clean(keep: char -> bool, title: string): (r: string)
    ensures KeepClass(keep) ==> forall k :: 0 <= k < |r| ==> keep(r[k]) || r[k] == '_' || r[k] == '-'
    ensures KeepClass(keep) ==> forall k :: 0 <= k < |r| ==> !IsPcreSpace(r[k])
    ensures KeepClass(keep) ==> forall k :: 0 <= k < |r| - 1 ==> !(r[k] == '_' && r[k + 1] == '_')
    ensures KeepClass(keep) ==> Strip(r) == KeptChars(keep, title)
    ensures KeepClass(keep) ==> DashedFrom(Collapse(PhpTrim(title), Unkept, keep, '_', false), r)
  {
    if KeepClass(keep) then
      CleanedShape(keep, title);
      CleanedContent(keep, title);
      CleanedSeparators(keep, title);
      RewriteDate(Separate(PhpTrim(title), keep))
    else RewriteDate(Separate(PhpTrim(title), keep))
  }

  /** The two passes together collapse each maximal run of characters
      outside the kept class into exactly one '_'. */
  lemma {:induction false} CollapseTwice(t: string, keep: char -> bool, in1: bool, inS: bool)
    requires KeepClass(keep)
    requires in1 ==> inS
    ensures Collapse(Collapse(t, Others, keep, ' ', in1), Spaces, keep, '_', inS)
         == Collapse(t, Unkept, keep, '_', inS)
    decreases |t|
  {
    if |t| > 0 {
      var c := t[0];
      var rest := t[1..];
      if keep(c) {
        CollapseTwice(rest, keep, false, false);
        assert ([c] + Collapse(rest, Others, keep, ' ', false))[1..] == Collapse(rest, Others, keep, ' ', false);
      } else if IsPcreSpace(c) {
        CollapseTwice(rest, keep, false, true);
        assert ([c] + Collapse(rest, Others, keep, ' ', false))[1..] == Collapse(rest, Others, keep, ' ', false);
      } else {
        CollapseTwice(rest, keep, true, true);
        if !in1 {
          assert IsPcreSpace(' ');
          assert ([' '] + Collapse(rest, Others, keep, ' ', true))[1..] == Collapse(rest, Others, keep, ' ', true);
        } else {
          assert [] + Collapse(rest, Others, keep, ' ', true) == Collapse(rest, Others, keep, ' ', true);
        }
      }
    }
  }

  /** The two passes are the single collapse of unkept runs. */
  lemma SeparateCollapsesUnkept(t: string, keep: char -> bool)
    requires KeepClass(keep)
    ensures Separate(t, keep) == Collapse(t, Unkept, keep, '_', false)
  {
    CollapseTwice(t, keep, false, false);
  }

  /** A collapse of unkept runs holds only kept characters and '_', never
      two '_' in a row, and does not start with '_' after a run. */
  lemma {:induction false} CollapseUnkeptShape(t: string, keep: char -> bool, inRun: bool)
    requires KeepClass(keep)
    ensures var r := Collapse(t, Unkept, keep, '_', inRun);
      && (forall k :: 0 <= k < |r| ==> keep(r[k]) || r[k] == '_')
      && (forall k :: 0 <= k < |r| - 1 ==> !(r[k] == '_' && r[k + 1] == '_'))
      && (inRun && |r| > 0 ==> r[0] != '_')
    decreases |t|
  {
    if |t| > 0 {
      var c := t[0];
      if keep(c) {
        CollapseUnkeptShape(t[1..], keep, false);
        var rest := Collapse(t[1..], Unkept, keep, '_', false);
        assert var r0 := Collapse(t[1..], Unkept, keep, '_', false); forall k :: 0 <= k < |r0| ==> keep(r0[k]) || r0[k] == '_';
        assert forall k :: 0 <= k < |rest| ==> keep(rest[k]) || rest[k] == '_';
        assert forall k :: 0 <= k < |rest| - 1 ==> !(rest[k] == '_' && rest[k + 1] == '_');
        var r := [c] + rest;
        assert Collapse(t, Unkept, keep, '_', inRun) == r;
        forall k | 0 <= k < |r| ensures keep(r[k]) || r[k] == '_' {
          if k > 0 {
            assert r[k] == rest[k - 1];
          }
        }
        forall k | 0 <= k < |r| - 1 ensures !(r[k] == '_' && r[k + 1] == '_') {
          if k > 0 {
            assert r[k] == rest[k - 1] && r[k + 1] == rest[k];
          }
        }
      } else {
        CollapseUnkeptShape(t[1..], keep, true);
        var rest := Collapse(t[1..], Unkept, keep, '_', true);
        if !inRun {
          var r := ['_'] + rest;
          assert forall k :: 1 <= k < |r| ==> r[k] == rest[k - 1];
        }
      }
    }
  }

  /** `s` and `r` have the same length and differ only where a '_' of `s`
      became '-' in `r`. */
  predicate DashedFrom(s: string, r: string) {
    |s| == |r| && forall k :: 0 <= k < |s| ==> r[k] == s[k] || (s[k] == '_' && r[k] == '-')
  }

  /** Replacing a pattern by a dashed copy of it gives a dashed copy. */
  lemma {:induction false} ReplaceAllDashed(s: string, pat: string, rep: string)
    requires DashedFrom(pat, rep)
    ensures DashedFrom(s, ReplaceAll(s, pat, rep))
    decreases |s|
  {
    if |pat| > 0 && |s| >= |pat| {
      if s[..|pat|] == pat {
        ReplaceAllDashed(s[|pat|..], pat, rep);
        DashedConcat(pat, s[|pat|..], rep, ReplaceAll(s[|pat|..], pat, rep));
        assert pat + s[|pat|..] == s;
      } else {
        ReplaceAllDashed(s[1..], pat, rep);
        DashedConcat([s[0]], s[1..], [s[0]], ReplaceAll(s[1..], pat, rep));
        assert [s[0]] + s[1..] == s;
      }
    }
  }

  /** Dashed copies concatenate. */
  lemma DashedConcat(a: string, b: string, a': string, b': string)
    requires DashedFrom(a, a') && DashedFrom(b, b')
    ensures DashedFrom(a + b, a' + b')
  {
    forall k | 0 <= k < |a + b| ensures (a' + b')[k] == (a + b)[k] || ((a + b)[k] == '_' && (a' + b')[k] == '-') {
      if k >= |a| {
        assert (a + b)[k] == b[k - |a|] && (a' + b')[k] == b'[k - |a|];
      }
    }
  }

  /** The replacement for a date match is a dashed copy of it. */
  lemma DateReplacementDashed(s: string, i: nat)
    requires DateAt(s, i)
    ensures DashedFrom(s[i..i + DateMatchLength], DateReplacement(s[i..i + DateMatchLength]))
  {
    var m := s[i..i + DateMatchLength];
    ReplaceAllDashed(m[4..], "_", "-");
    assert m[..4] == DateMarker;
    DashedConcat(m[..4], m[4..], DateMarker, ReplaceAll(m[4..], "_", "-"));
    assert m[..4] + m[4..] == m;
  }

  /** The date step only turns some '_' into '-'. */
  lemma RewriteDateDashed(s: string)
    ensures DashedFrom(s, RewriteDate(s))
  {
    match FirstDate(s, 0)
    case None =>
    case Some(i) =>
      DateReplacementDashed(s, i);
      ReplaceAllDashed(s, s[i..i + DateMatchLength], DateReplacement(s[i..i + DateMatchLength]));
  }

  /** The text without its '_' and '-' characters. */
  function Strip(s: string): (r: string)
    ensures |r| <= |s|
    decreases |s|
  {
    if |s| == 0 then []
    else if s[0] == '_' || s[0] == '-' then Strip(s[1..])
    else [s[0]] + Strip(s[1..])
  }

  /** The kept characters of `s`, in order. */
  function KeptChars(keep: char -> bool, s: string): (r: string)
    ensures forall k :: 0 <= k < |r| ==> keep(r[k])
    decreases |s|
  {
    if |s| == 0 then []
    else if keep(s[0]) then [s[0]] + KeptChars(keep, s[1..])
    else KeptChars(keep, s[1..])
  }

  /** A dashed copy strips to the same text. */
  lemma {:induction false} StripDashed(s: string, r: string)
    requires DashedFrom(s, r)
    ensures Strip(r) == Strip(s)
    decreases |s|
  {
    if |s| > 0 {
      StripDashed(s[1..], r[1..]);
    }
  }

  /** Collapsing unkept runs and then dropping the separators leaves the
      kept characters. */
  lemma {:induction false} StripCollapse(t: string, keep: char -> bool, inRun: bool)
    requires KeepClass(keep)
    ensures Strip(Collapse(t, Unkept, keep, '_', inRun)) == KeptChars(keep, t)
    decreases |t|
  {
    if |t| > 0 {
      var c := t[0];
      if keep(c) {
        StripCollapse(t[1..], keep, false);
        var rest := Collapse(t[1..], Unkept, keep, '_', false);
        assert ([c] + rest)[1..] == rest;
      } else {
        StripCollapse(t[1..], keep, true);
        var rest := Collapse(t[1..], Unkept, keep, '_', true);
        if !inRun {
          assert (['_'] + rest)[1..] == rest;
        } else {
          assert [] + rest == rest;
        }
      }
    }
  }

  /** The kept characters of a concatenation. */
  lemma {:induction false} KeptCharsConcat(keep: char -> bool, a: string, b: string)
    ensures KeptChars(keep, a + b) == KeptChars(keep, a) + KeptChars(keep, b)
    decreases |a|
  {
    if |a| > 0 {
      KeptCharsConcat(keep, a[1..], b);
      assert (a + b)[1..] == a[1..] + b;
    } else {
      assert a + b == b;
    }
  }

  /** Text made only of trim characters has no kept characters. */
  lemma {:induction false} KeptCharsOfTrimmed(keep: char -> bool, s: string)
    requires KeepClass(keep)
    requires forall k :: 0 <= k < |s| ==> IsPhpTrimChar(s[k])
    ensures KeptChars(keep, s) == []
    decreases |s|
  {
    if |s| > 0 {
      KeptCharsOfTrimmed(keep, s[1..]);
    }
  }

  /** Trimming drops no kept character. */
  lemma TrimKeepsKeptChars(keep: char -> bool, s: string)
    requires KeepClass(keep)
    ensures KeptChars(keep, PhpTrim(s)) == KeptChars(keep, s)
  {
    var a, b :| 0 <= a <= b <= |s| && PhpTrim(s) == s[a..b]
              && (forall i :: 0 <= i < a ==> IsPhpTrimChar(s[i]))
              && (forall i :: b <= i < |s| ==> IsPhpTrimChar(s[i]));
    assert s == s[..a] + (s[a..b] + s[b..]);
    KeptCharsConcat(keep, s[..a], s[a..b] + s[b..]);
    KeptCharsConcat(keep, s[a..b], s[b..]);
    KeptCharsOfTrimmed(keep, s[..a]);
    KeptCharsOfTrimmed(keep, s[b..]);
  }

  /** An empty title, or one made only of trim characters, cleans to "". */
  lemma CleanBlank(keep: char -> bool, title: string)
    requires forall k :: 0 <= k < |title| ==> IsPhpTrimChar(title[k])
    ensures Clean(keep, title) == ""
  {
    assert PhpTrim(title) == [];
    assert !DateAt([], 0);
  }

  /** The shape half of `Clean`'s contract, on the passes themselves. */
  lemma CleanedShape(keep: char -> bool, title: string)
    requires KeepClass(keep)
    ensures var r := RewriteDate(Separate(PhpTrim(title), keep));
      && (forall k :: 0 <= k < |r| ==> keep(r[k]) || r[k] == '_' || r[k] == '-')
      && (forall k :: 0 <= k < |r| ==> !IsPcreSpace(r[k]))
      && (forall k :: 0 <= k < |r| - 1 ==> !(r[k] == '_' && r[k + 1] == '_'))
  {
    var t := PhpTrim(title);
    var s := Separate(t, keep);
    SeparateCollapsesUnkept(t, keep);
    CollapseUnkeptShape(t, keep, false);
    RewriteDateDashed(s);
    var r := RewriteDate(s);
    forall k | 0 <= k < |r| - 1 ensures !(r[k] == '_' && r[k + 1] == '_') {
      assert r[k] == '_' ==> s[k] == '_';
      assert r[k + 1] == '_' ==> s[k + 1] == '_';
    }
  }

  /** The content half of `Clean`'s contract, on the passes themselves. */
  lemma CleanedContent(keep: char -> bool, title: string)
    requires KeepClass(keep)
    ensures Strip(RewriteDate(Separate(PhpTrim(title), keep))) == KeptChars(keep, title)
  {
    var t := PhpTrim(title);
    var s := Separate(t, keep);
    SeparateCollapsesUnkept(t, keep);
    RewriteDateDashed(s);
    StripDashed(s, RewriteDate(s));
    StripCollapse(t, keep, false);
    TrimKeepsKeptChars(keep, title);
  }

  /** The separator half of `Clean`'s contract: the passes are one
      collapse of unkept runs into '_', followed by the dashing of a date. */
  lemma CleanedSeparators(keep: char -> bool, title: string)
    requires KeepClass(keep)
    ensures DashedFrom(Collapse(PhpTrim(title), Unkept, keep, '_', false), RewriteDate(Separate(PhpTrim(title), keep)))
  {
    SeparateCollapsesUnkept(PhpTrim(title), keep);
    RewriteDateDashed(Separate(PhpTrim(title), keep));
  }

  /** Every occurrence of a date match is itself a date match. */
  lemma OccurrenceIsDate(s: string, i: nat, j: nat)
    requires DateAt(s, i) && OccursAt(s, s[i..i + DateMatchLength], j)
    ensures DateAt(s, j)
  {
    var m := s[i..i + DateMatchLength];
    assert s[j..j + DateMatchLength] == m;
    assert forall k :: 0 <= k < DateMatchLength ==> s[j + k] == m[k] == s[i + k];
    assert s[j..j + 4] == m[..4];
  }

  /** With a date match at i: everything before i is kept, the match is
      rewritten with dashes, and later occurrences of the same text are
      rewritten too. Without a match the text is unchanged. */
  lemma RewriteDateEffect(s: string)
    ensures FirstDate(s, 0).None? ==> RewriteDate(s) == s
    ensures FirstDate(s, 0).Some? ==>
      var i := FirstDate(s, 0).value;
      var m := s[i..i + DateMatchLength];
      && RewriteDate(s) == s[..i] + DateReplacement(m) + ReplaceAll(s[i + DateMatchLength..], m, DateReplacement(m))
      && DateReplacement(m) == DateMarker + m[4..6] + "-" + m[7..9] + "-" + m[10..]
  {
    if FirstDate(s, 0).Some? {
      var i := FirstDate(s, 0).value;
      RewriteFirstDate(s, i);
      DateDashes(s[i..i + DateMatchLength]);
    }
  }

  /** The date step at the first match i, before the shape of the
      replacement is spelled out. */
  lemma RewriteFirstDate(s: string, i: nat)
    requires FirstDate(s, 0) == Some(i)
    ensures var m := s[i..i + DateMatchLength];
      RewriteDate(s) == s[..i] + DateReplacement(m) + ReplaceAll(s[i + DateMatchLength..], m, DateReplacement(m))
  {
    var m := s[i..i + DateMatchLength];
    NoEarlierOccurrence(s, i, m);
    ReplaceFromFirst(s, m, DateReplacement(m), i);
  }

  /** The first date match does not occur anywhere before itself. */
  lemma NoEarlierOccurrence(s: string, i: nat, m: string)
    requires FirstDate(s, 0) == Some(i) && m == s[i..i + DateMatchLength]
    ensures forall j :: 0 <= j < i ==> !OccursAt(s, m, j)
  {
    forall j | 0 <= j < i ensures !OccursAt(s, m, j) {
      if OccursAt(s, m, j) {
        OccurrenceIsDate(s, i, j);
      }
    }
  }

  /** Replacing every occurrence when the first one is at i. */
  lemma ReplaceFromFirst(s: string, pat: string, rep: string, i: nat)
    requires |pat| > 0 && i + |pat| <= |s| && s[i..i + |pat|] == pat
    requires forall j :: 0 <= j < i ==> !OccursAt(s, pat, j)
    ensures ReplaceAll(s, pat, rep) == s[..i] + rep + ReplaceAll(s[i + |pat|..], pat, rep)
  {
    var head, tail := s[..i], s[i + |pat|..];
    assert s[i..] == pat + tail;
    calc {
      ReplaceAll(s, pat, rep);
    == { ReplaceAllKeepsPrefix(s, pat, rep, i); }
      head + ReplaceAll(s[i..], pat, rep);
    == { ReplaceAllAtFront(pat, tail, rep); }
      head + (rep + ReplaceAll(tail, pat, rep));
    }
  }

  /** The date part with its two '_' turned into '-'. */
  lemma DateDashes(m: string)
    requires |m| == DateMatchLength
    requires IsDigit(m[4]) && IsDigit(m[5]) && m[6] == '_' && IsDigit(m[7]) && IsDigit(m[8]) && m[9] == '_'
    requires IsDigit(m[10]) && IsDigit(m[11]) && IsDigit(m[12]) && IsDigit(m[13])
    ensures ReplaceAll(m[4..], "_", "-") == m[4..6] + "-" + m[7..9] + "-" + m[10..]
  {
    var u, d := "_", "-";
    var x, y, z := m[4..6], m[7..9], m[10..];
    assert m[4..] == x + (u + (y + (u + z)));
    JoinedReplaced(x, y, z, u, d);
    assert x + (d + (y + (d + z))) == x + "-" + y + "-" + z;
  }

  /** Three pieces without the search string's first character, joined
      by the search string, come back joined by the replacement. */
  lemma JoinedReplaced(a: string, b: string, c: string, pat: string, rep: string)
    requires |pat| > 0
    requires forall i :: 0 <= i < |a| ==> a[i] != pat[0]
    requires forall i :: 0 <= i < |b| ==> b[i] != pat[0]
    requires forall i :: 0 <= i < |c| ==> c[i] != pat[0]
    ensures ReplaceAll(a + (pat + (b + (pat + c))), pat, rep) == a + (rep + (b + (rep + c)))
  {
    calc {
      ReplaceAll(a + (pat + (b + (pat + c))), pat, rep);
    == { ReplaceAfterPrefix(a, pat, b + (pat + c), rep); }
      a + (rep + ReplaceAll(b + (pat + c), pat, rep));
    == { ReplaceAfterPrefix(b, pat, c, rep); }
      a + (rep + (b + (rep + ReplaceAll(c, pat, rep))));
    == { ReplaceAllAbsent(c, pat, rep); }
      a + (rep + (b + (rep + c)));
    }
  }

  /** A prefix without the search string's first character, then the
      search string: the prefix is copied and the occurrence replaced. */
  lemma ReplaceAfterPrefix(a: string, pat: string, rest: string, rep: string)
    requires |pat| > 0
    requires forall i :: 0 <= i < |a| ==> a[i] != pat[0]
    ensures ReplaceAll(a + (pat + rest), pat, rep) == a + (rep + ReplaceAll(rest, pat, rep))
  {
    ReplaceAllSkipsPrefix(a, pat + rest, pat, rep);
    ReplaceAllAtFront(pat, rest, rep);
  }
}
