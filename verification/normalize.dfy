/** The OCR line normaliser: a fixed pipeline of character rewrites that
    turns one OCR'd line into lower-case words separated by single spaces,
    followed by plain substring fix-ups for common misreadings. */
module Normalize {
  import opened Text

  // ---------------------------------------------------------------------------
  // The pipeline

  /** The typographic apostrophe U+2019. */
  const FancyApostrophe: char := '\U{2019}'

  /** A fix-up table: pairs of misreading and correction, no misreading
      empty. */
  type FixTable = fixes: seq<(string, string)> | forall i :: 0 <= i < |fixes| ==> |fixes[i].0| > 0 witness []

  /** The fix-up table in its iteration order, misreading then correction,
      in three groups: the "imperator" misreadings, the "kyrsedge" ones and
      the "darksteel" one. */
  const ImperatorFixes: FixTable := [
    ("impecator", "imperator"),
    ("impecatar", "imperator"),
    ("imperat0r", "imperator")
  ]
  const KyrsedgeFixes: FixTable := [
    ("kyrsieger", "kyrsedge"),
    ("kyrstrez", "kyrsedge"),
    ("yrsedge", "kyrsedge")
  ]
  const DarksteelFixes: FixTable := [("darkstee", "darksteel")]
  const Fixes: FixTable := ImperatorFixes + KyrsedgeFixes + DarksteelFixes
  /** The "imperator" group without its last, digit-spelled entry. */
  const ImperatorTypos: FixTable := ImperatorFixes[..2]

  /** The symbols blanked as junk: `[ ] | ! ? = % _ -`. */
  predicate IsJunk(c: char) {
    c == '[' || c == ']' || c == '|' || c == '!' || c == '?' || c == '=' || c == '%' || c == '_' || c == '-'
  }

  function BlankJunk(s: string): (r: string)
    ensures |r| == |s|
    ensures forall i :: 0 <= i < |s| ==> r[i] == (if IsJunk(s[i]) then ' ' else s[i])
  {
    seq(|s|, i requires 0 <= i < |s| => if IsJunk(s[i]) then ' ' else s[i])
  }

  /** The two character classes whose maximal runs become one space: the
      digits (`\d+`) and whitespace (`\s+`). */
  datatype RunClass = Digits | Whitespace

  predicate InClass(k: RunClass, c: char) {
    match k
    case Digits => IsDigit(c)
    case Whitespace => IsSpace(c)
  }

  /** The length of the longest prefix of `s` inside class `k`. */
  function ClassRun(s: string, k: RunClass): (n: nat)
    ensures n <= |s|
    ensures forall j :: 0 <= j < n ==> InClass(k, s[j])
    ensures n == |s| || !InClass(k, s[n])
    ensures |s| > 0 && InClass(k, s[0]) ==> n > 0
  {
    if |s| == 0 || !InClass(k, s[0]) then 0 else 1 + ClassRun(s[1..], k)
  }

  /** Every maximal run of class `k` replaced by a single space, as
      `re.sub(r"\d+", " ", s)` and `re.sub(r"\s+", " ", s)` do. */
  function ReplaceRuns(s: string, k: RunClass): string
    decreases |s|
  {
    if |s| == 0 then ""
    else if InClass(k, s[0]) then [' '] + ReplaceRuns(s[ClassRun(s, k)..], k)
    else [s[0]] + ReplaceRuns(s[1..], k)
  }

  /** The number of leading copies of the first character. */
  function RunLength(s: string): (n: nat)
    requires |s| > 0
    ensures 1 <= n <= |s|
    ensures forall j :: 0 <= j < n ==> s[j] == s[0]
    ensures n == |s| || s[n] != s[0]
  {
    if |s| == 1 || s[1] != s[0] then 1 else 1 + RunLength(s[1..])
  }

  /** `re.sub(r"(.)\1{2,}", r"\1", s)`: scanning left to right, a run of
      three or more copies of one character other than a line feed (which
      `.` does not match) becomes one copy; the match is greedy, so it takes
      the whole run. Shorter runs are kept. */
  function CollapseRuns(s: string): (r: string)
    ensures |r| <= |s|
    decreases |s|
  {
    if |s| == 0 then ""
    else
      var n := RunLength(s);
      if s[0] != '\n' && n >= 3 then [s[0]] + CollapseRuns(s[n..])
      else [s[0]] + CollapseRuns(s[1..])
  }

  /** What `[^a-z'\s]` does not match. */
  predicate Allowed(c: char) {
    IsLowerLetter(c) || c == '\'' || IsSpace(c)
  }

  /** Every character outside a-z, the apostrophe and whitespace blanked. */
  function KeepAllowed(s: string): (r: string)
    ensures |r| == |s|
    ensures forall i :: 0 <= i < |s| ==> r[i] == (if Allowed(s[i]) then s[i] else ' ')
  {
    seq(|s|, i requires 0 <= i < |s| => if Allowed(s[i]) then s[i] else ' ')
  }

  /** The fix-ups applied one after the other, each to the result of the
      one before. */
  function ApplyFixes(s: string, fixes: FixTable): string
    decreases |fixes|
  {
    if |fixes| == 0 then s
    else ApplyFixes(Replace(s, fixes[0].0, fixes[0].1), fixes[1..])
  }

  /** The pipeline before the fix-ups: lower-case, straighten apostrophes,
      blank junk, blank digit runs, collapse long runs, blank disallowed
      characters, squash whitespace and strip. */
  function Clean(line: string): string {
    var a := ReplaceChar(Lower(line), FancyApostrophe, '\'');
    var b := ReplaceRuns(BlankJunk(a), Digits);
    var c := KeepAllowed(CollapseRuns(b));
    Strip(ReplaceRuns(c, Whitespace))
  }

  function NormalizeLine(line: string): string {
    ApplyFixes(Clean(line), Fixes)
  }

  // ---------------------------------------------------------------------------
  // The output alphabet and spacing

  /** A character the normaliser may emit. */
  predicate OutputChar(c: char) {
    IsLowerLetter(c) || c == '\'' || c == ' '
  }

  predicate Letters(s: string) {
    forall i :: 0 <= i < |s| ==> IsLowerLetter(s[i])
  }

  predicate NoDoubleSpace(s: string) {
    forall i :: 0 <= i < |s| - 1 ==> !(s[i] == ' ' && s[i + 1] == ' ')
  }

  /** Single spaces between words and none at either end. */
  predicate WellSpaced(s: string) {
    (|s| == 0 || (s[0] != ' ' && s[|s| - 1] != ' ')) && NoDoubleSpace(s)
  }

  /** Every fix-up replaces a non-empty pattern by a non-empty run of
      letters, and no pattern holds an apostrophe. */
  lemma FixesAreLetters()
    ensures forall i :: 0 <= i < |Fixes| ==>
      |Fixes[i].0| > 0 && |Fixes[i].1| > 0 && Letters(Fixes[i].1) && '\'' !in Fixes[i].0
  {
  }

  // ---------------------------------------------------------------------------
  // Run replacement

  lemma RunsHead(s: string, k: RunClass)
    requires |s| > 0
    ensures |ReplaceRuns(s, k)| > 0
    ensures ReplaceRuns(s, k)[0] == if InClass(k, s[0]) then ' ' else s[0]
  {
  }

  /** Run replacement emits spaces and the characters of `s` outside the
      class. */
  lemma {:induction false} RunsChars(s: string, k: RunClass)
    ensures forall c :: c in ReplaceRuns(s, k) ==> c == ' ' || (c in s && !InClass(k, c))
    decreases |s|
  {
    if |s| > 0 {
      var n := if InClass(k, s[0]) then ClassRun(s, k) else 1;
      RunsChars(s[n..], k);
      assert forall c :: c in s[n..] ==> c in s;
    }
  }

  /** ... and it keeps every character of `s` outside the class. */
  lemma {:induction false} RunsKeep(s: string, k: RunClass, c: char)
    requires c in s && !InClass(k, c)
    ensures c in ReplaceRuns(s, k)
    decreases |s|
  {
    if s[0] != c {
      var n := if InClass(k, s[0]) then ClassRun(s, k) else 1;
      var i :| 0 <= i < |s| && s[i] == c;
      assert s[n..][i - n] == c;
      RunsKeep(s[n..], k, c);
    }
  }

  lemma NoDoubleSpaceCons(x: char, s: string)
    requires NoDoubleSpace(s) && !(x == ' ' && |s| > 0 && s[0] == ' ')
    ensures NoDoubleSpace([x] + s)
  {
    var t := [x] + s;
    forall i | 0 <= i < |t| - 1
      ensures !(t[i] == ' ' && t[i + 1] == ' ')
    {
      if i > 0 {
        assert t[i] == s[i - 1] && t[i + 1] == s[i];
      }
    }
  }

  /** Squashing whitespace runs leaves no two spaces in a row: a run is
      maximal, so what follows its space is not whitespace. */
  lemma {:induction false} SquashedHasNoDoubleSpace(s: string)
    ensures NoDoubleSpace(ReplaceRuns(s, Whitespace))
    decreases |s|
  {
    if |s| > 0 {
      var n := if IsSpace(s[0]) then ClassRun(s, Whitespace) else 1;
      var t := s[n..];
      SquashedHasNoDoubleSpace(t);
      if |t| > 0 {
        RunsHead(t, Whitespace);
      }
      NoDoubleSpaceCons(if IsSpace(s[0]) then ' ' else s[0], ReplaceRuns(t, Whitespace));
    }
  }

  // ---------------------------------------------------------------------------
  // The shape of the cleaned line

  /** A slice of a string without double spaces has none either. */
  lemma NoDoubleSpaceSlice(s: string, i: nat, j: nat)
    requires i <= j <= |s| && NoDoubleSpace(s)
    ensures NoDoubleSpace(s[i..j])
  {
    var t := s[i..j];
    assert forall m :: 0 <= m < |t| ==> t[m] == s[i + m];
  }

  /** Stripping a string without double spaces leaves it well spaced, and
      takes no character in. */
  lemma StripSpacing(d: string)
    requires NoDoubleSpace(d)
    ensures WellSpaced(Strip(d)) && forall x :: x in Strip(d) ==> x in d
  {
    StripIsSlice(d);
    var i := |d| - |TrimStart(d)|;
    var r := Strip(d);
    NoDoubleSpaceSlice(d, i, i + |r|);
  }

  /** Squashing and stripping a string of allowed characters leaves a well
      spaced string of output characters. */
  lemma SquashShape(c: string)
    requires forall x :: x in c ==> Allowed(x)
    ensures var r := Strip(ReplaceRuns(c, Whitespace));
      WellSpaced(r) && forall x :: x in r ==> OutputChar(x)
  {
    var d := ReplaceRuns(c, Whitespace);
    RunsChars(c, Whitespace);
    SquashedHasNoDoubleSpace(c);
    StripSpacing(d);
  }

  /** The cleaned line holds only lower-case letters, apostrophes and
      spaces, with single spaces between words and none at the ends. */
  lemma CleanShape(line: string)
    ensures forall c :: c in Clean(line) ==> OutputChar(c)
    ensures WellSpaced(Clean(line))
  {
    var a := ReplaceChar(Lower(line), FancyApostrophe, '\'');
    var c := KeepAllowed(CollapseRuns(ReplaceRuns(BlankJunk(a), Digits)));
    assert forall x :: x in c ==> Allowed(x);
    SquashShape(c);
  }

  // ---------------------------------------------------------------------------
  // Fix-ups

  /** Replacing a pattern by a non-empty run of letters brings in no space:
      a space at either end of the result was at that end already, and no
      two spaces become adjacent. */
  lemma ReplaceSpacing(s: string, p: string, r: string)
    requires |p| > 0 && |r| > 0 && Letters(r)
    ensures var t := Replace(s, p, r);
      && (|s| > 0 ==> |t| > 0)
      && (|t| > 0 && t[0] == ' ' ==> |s| > 0 && s[0] == ' ')
      && (|t| > 0 && t[|t| - 1] == ' ' ==> |s| > 0 && s[|s| - 1] == ' ')
      && (NoDoubleSpace(s) ==> NoDoubleSpace(t))
  {
    ReplaceEnds(s, p, r);
    if NoDoubleSpace(s) {
      ReplaceNoDoubleSpace(s, p, r);
    }
  }

  /** The ends of a replacement: a space at either end of the result was at
      that end of the text. */
  lemma {:induction false} ReplaceEnds(s: string, p: string, r: string)
    requires |p| > 0 && |r| > 0 && Letters(r)
    ensures var t := Replace(s, p, r);
      && (|s| > 0 ==> |t| > 0)
      && (|t| > 0 && t[0] == ' ' ==> |s| > 0 && s[0] == ' ')
      && (|t| > 0 && t[|t| - 1] == ' ' ==> |s| > 0 && s[|s| - 1] == ' ')
    decreases |s|
  {
    if |s| >= |p| {
      var t := Replace(s, p, r);
      if s[..|p|] == p {
        var rest := s[|p|..];
        ReplaceEnds(rest, p, r);
        var t' := Replace(rest, p, r);
        assert t == r + t';
        assert t[0] == r[0] && IsLowerLetter(r[0]);
        if |t'| > 0 {
          assert rest[|rest| - 1] == s[|s| - 1];
        } else {
          assert t[|t| - 1] == r[|r| - 1] && IsLowerLetter(r[|r| - 1]);
        }
      } else {
        var rest := s[1..];
        ReplaceEnds(rest, p, r);
        var t' := Replace(rest, p, r);
        assert t == [s[0]] + t';
        if |t'| > 0 {
          assert rest[|rest| - 1] == s[|s| - 1];
        }
      }
    }
  }

  /** A replacement by letters keeps a text free of double spaces. */
  lemma {:induction false} ReplaceNoDoubleSpace(s: string, p: string, r: string)
    requires |p| > 0 && |r| > 0 && Letters(r) && NoDoubleSpace(s)
    ensures NoDoubleSpace(Replace(s, p, r))
    decreases |s|
  {
    if |s| >= |p| {
      var n := if s[..|p|] == p then |p| else 1;
      var x := if s[..|p|] == p then r else [s[0]];
      var rest := s[n..];
      NoDoubleSpaceSlice(s, n, |s|);
      ReplaceNoDoubleSpace(rest, p, r);
      ReplaceEnds(rest, p, r);
      var t' := Replace(rest, p, r);
      assert Replace(s, p, r) == x + t';
      if n == 1 && |t'| > 0 && t'[0] == ' ' {
        assert rest[0] == s[1];
      }
      NoDoubleSpaceAppend(x, t');
    }
  }

  lemma NoDoubleSpaceAppend(x: string, t: string)
    requires NoDoubleSpace(x) && NoDoubleSpace(t)
    requires !(|x| > 0 && |t| > 0 && x[|x| - 1] == ' ' && t[0] == ' ')
    ensures NoDoubleSpace(x + t)
  {
    var u := x + t;
    forall i | 0 <= i < |u| - 1
      ensures !(u[i] == ' ' && u[i + 1] == ' ')
    {
      if i + 1 < |x| {
        assert u[i] == x[i] && u[i + 1] == x[i + 1];
      } else if i >= |x| {
        assert u[i] == t[i - |x|] && u[i + 1] == t[i + 1 - |x|];
      }
    }
  }

  /** A replacement emits characters of the text and of the replacement only. */
  lemma {:induction false} ReplaceChars(s: string, p: string, r: string)
    requires |p| > 0
    ensures forall c :: c in Replace(s, p, r) ==> c in s || c in r
    decreases |s|
  {
    if |s| >= |p| {
      var n := if s[..|p|] == p then |p| else 1;
      ReplaceChars(s[n..], p, r);
      assert forall c :: c in s[n..] ==> c in s;
    }
  }

  /** A character the pattern does not hold survives the replacement. */
  lemma {:induction false} ReplaceKeeps(s: string, p: string, r: string, c: char)
    requires |p| > 0 && c in s && c !in p
    ensures c in Replace(s, p, r)
    decreases |s|
  {
    if |s| >= |p| && s[0] != c {
      var n := if s[..|p|] == p then |p| else 1;
      var i :| 0 <= i < |s| && s[i] == c;
      assert forall j :: 0 <= j < |p| ==> s[..|p|][j] == s[j];
      assert i >= n;
      assert s[n..][i - n] == c;
      ReplaceKeeps(s[n..], p, r, c);
    }
  }

  /** A fix-up table of letter replacements keeps the output alphabet and
      the spacing. */
  lemma {:induction false} FixesKeepShape(s: string, fixes: FixTable)
    requires forall i :: 0 <= i < |fixes| ==> |fixes[i].1| > 0 && Letters(fixes[i].1)
    requires WellSpaced(s) && forall c :: c in s ==> OutputChar(c)
    ensures WellSpaced(ApplyFixes(s, fixes)) && forall c :: c in ApplyFixes(s, fixes) ==> OutputChar(c)
    decreases |fixes|
  {
    if |fixes| > 0 {
      var (p, r) := fixes[0];
      ReplaceSpacing(s, p, r);
      ReplaceChars(s, p, r);
      FixesKeepShape(Replace(s, p, r), fixes[1..]);
    }
  }

  /** A character no pattern holds survives all the fix-ups. */
  lemma {:induction false} FixesKeep(s: string, fixes: FixTable, c: char)
    requires forall i :: 0 <= i < |fixes| ==> c !in fixes[i].0
    requires c in s
    ensures c in ApplyFixes(s, fixes)
    decreases |fixes|
  {
    if |fixes| > 0 {
      ReplaceKeeps(s, fixes[0].0, fixes[0].1, c);
      FixesKeep(Replace(s, fixes[0].0, fixes[0].1), fixes[1..], c);
    }
  }

  /** The normalised line holds only lower-case ASCII letters, apostrophes
      and spaces, has no space at either end and never two in a row. */
  lemma NormalizeShape(line: string)
    ensures forall c :: c in NormalizeLine(line) ==> OutputChar(c)
    ensures WellSpaced(NormalizeLine(line))
  {
    CleanShape(line);
    FixesAreLetters();
    FixesKeepShape(Clean(line), Fixes);
  }

  /** Digits, junk symbols and whitespace other than the space never reach
      the output; `SeparatorSplitsWords` shows what they turn into. */
  lemma SeparatorsVanish(line: string)
    ensures forall c :: c in NormalizeLine(line) ==> !IsDigit(c) && !IsJunk(c) && (c == ' ' || !IsSpace(c))
  {
    NormalizeShape(line);
    OutputHasNoSeparator(NormalizeLine(line));
  }

  lemma OutputHasNoSeparator(r: string)
    requires forall c :: c in r ==> OutputChar(c)
    ensures forall c :: c in r ==> !IsDigit(c) && !IsJunk(c) && (c == ' ' || !IsSpace(c))
  {
  }

  // ---------------------------------------------------------------------------
  // Long runs

  /** No three copies of one character other than a line feed in a row. */
  predicate NoTripleRun(s: string) {
    forall i :: 0 <= i < |s| - 2 ==> !(s[i] != '\n' && s[i] == s[i + 1] && s[i + 1] == s[i + 2])
  }

  lemma CollapseHead(s: string)
    requires |s| > 0
    ensures |CollapseRuns(s)| > 0 && CollapseRuns(s)[0] == s[0]
  {
  }

  lemma NoTripleCons(x: char, r: string)
    requires NoTripleRun(r)
    requires !(x != '\n' && |r| >= 2 && x == r[0] && r[0] == r[1])
    ensures NoTripleRun([x] + r)
  {
    var t := [x] + r;
    forall i | 0 <= i < |t| - 2
      ensures !(t[i] != '\n' && t[i] == t[i + 1] && t[i + 1] == t[i + 2])
    {
      if i > 0 {
        assert t[i] == r[i - 1] && t[i + 1] == r[i] && t[i + 2] == r[i + 1];
      }
    }
  }

  /** Collapsing leaves no run of three: a collapsed run is maximal, so the
      character after it differs, and a kept pair is followed by another
      character. */
  lemma {:induction false} CollapseLeavesNoTriple(s: string)
    ensures NoTripleRun(CollapseRuns(s))
    decreases |s|
  {
    if |s| > 0 {
      var n := RunLength(s);
      if s[0] != '\n' && n >= 3 {
        var t := s[n..];
        CollapseLeavesNoTriple(t);
        if |t| > 0 {
          CollapseHead(t);
        }
        NoTripleCons(s[0], CollapseRuns(t));
      } else {
        var t := s[1..];
        CollapseLeavesNoTriple(t);
        var r := CollapseRuns(t);
        if |t| > 0 {
          CollapseHead(t);
        }
        if s[0] != '\n' && |t| >= 2 && s[1] == s[0] {
          assert n == 2 && s[2] != s[0];
          assert RunLength(t) == 1;
          assert r == [t[0]] + CollapseRuns(t[1..]);
          CollapseHead(t[1..]);
        }
        NoTripleCons(s[0], r);
      }
    }
  }

  /** A string without runs of three is left as it is. */
  lemma {:induction false} CollapseFixed(s: string)
    requires NoTripleRun(s)
    ensures CollapseRuns(s) == s
    decreases |s|
  {
    if |s| > 0 {
      assert RunLength(s) >= 3 ==> s[1] == s[0] && s[2] == s[0];
      var t := s[1..];
      assert forall i :: 0 <= i < |t| ==> t[i] == s[i + 1];
      CollapseFixed(t);
      assert s == [s[0]] + t;
    }
  }

  /** Collapsing twice is collapsing once. */
  lemma CollapseIdempotent(s: string)
    ensures CollapseRuns(CollapseRuns(s)) == CollapseRuns(s)
  {
    CollapseLeavesNoTriple(s);
    CollapseFixed(CollapseRuns(s));
  }

  /** Collapsing keeps the set of characters. */
  lemma {:induction false} CollapseKeeps(s: string, c: char)
    ensures c in CollapseRuns(s) <==> c in s
    decreases |s|
  {
    if |s| > 0 {
      var n := if s[0] != '\n' && RunLength(s) >= 3 then RunLength(s) else 1;
      CollapseKeeps(s[n..], c);
      assert forall x :: x in s <==> x == s[0] || x in s[n..] by {
        forall x | x in s
          ensures x == s[0] || x in s[n..]
        {
          var i :| 0 <= i < |s| && s[i] == x;
          if i >= n {
            assert s[n..][i - n] == x;
          }
        }
      }
    }
  }

  function Repeat(c: char, n: nat): (r: string)
    ensures |r| == n && forall i :: 0 <= i < n ==> r[i] == c
  {
    seq(n, _ => c)
  }

  /** Three or more copies of a character other than a line feed collapse
      to one copy; one or two copies stay. */
  lemma CollapseRepeat(c: char, n: nat)
    requires c != '\n'
    ensures n >= 3 ==> CollapseRuns(Repeat(c, n)) == [c]
    ensures n <= 2 ==> CollapseRuns(Repeat(c, n)) == Repeat(c, n)
  {
    var s := Repeat(c, n);
    if n >= 3 {
      assert RunLength(s) == n;
      assert s[n..] == [];
    } else {
      CollapseFixed(s);
    }
  }

  lemma CollapseExamples()
    ensures CollapseRuns("llll") == "l"
    ensures CollapseRuns("ll") == "ll"
  {
    CollapseRepeat('l', 4);
    CollapseRepeat('l', 2);
    assert Repeat('l', 4) == "llll";
    assert Repeat('l', 2) == "ll";
  }

  // ---------------------------------------------------------------------------
  // The apostrophe

  /** A straight or typographic apostrophe anywhere in the line comes out as
      a straight apostrophe. */
  lemma ApostropheSurvives(line: string)
    requires FancyApostrophe in line || '\'' in line
    ensures '\'' in NormalizeLine(line)
  {
    var i :| 0 <= i < |line| && (line[i] == FancyApostrophe || line[i] == '\'');
    var a := ReplaceChar(Lower(line), FancyApostrophe, '\'');
    assert a[i] == '\'';
    var j := BlankJunk(a);
    assert j[i] == '\'';
    var b := ReplaceRuns(j, Digits);
    RunsKeep(j, Digits, '\'');
    CollapseKeeps(b, '\'');
    var c := KeepAllowed(CollapseRuns(b));
    var k :| 0 <= k < |CollapseRuns(b)| && CollapseRuns(b)[k] == '\'';
    assert c[k] == '\'';
    var d := ReplaceRuns(c, Whitespace);
    RunsKeep(c, Whitespace, '\'');
    StripKeeps(d, '\'');
    FixesAreLetters();
    FixesKeep(Clean(line), Fixes, '\'');
  }

  // ---------------------------------------------------------------------------
  // Fix-up cascades

  /** Run replacement leaves a string without characters of the class as
      it is. */
  lemma {:induction false} RunsAbsent(s: string, k: RunClass)
    requires forall i :: 0 <= i < |s| ==> !InClass(k, s[i])
    ensures ReplaceRuns(s, k) == s
    decreases |s|
  {
    if |s| > 0 {
      RunsAbsent(s[1..], k);
      assert s == [s[0]] + s[1..];
    }
  }

  /** A word of lower-case letters without runs of three comes through the
      cleaning unchanged. */
  lemma CleanOfWord(w: string)
    requires Letters(w) && NoTripleRun(w)
    ensures Clean(w) == w
  {
    LowerOfLowercase(w);
    var a := ReplaceChar(Lower(w), FancyApostrophe, '\'');
    assert a == w;
    assert BlankJunk(a) == w;
    RunsAbsent(w, Digits);
    CollapseFixed(w);
    assert KeepAllowed(w) == w;
    RunsAbsent(w, Whitespace);
    StripUnchanged(w);
  }

  /** A separator between two words: digits and junk symbols, at least one. */
  predicate Separator(sep: string) {
    |sep| > 0 && forall i :: 0 <= i < |sep| ==> IsDigit(sep[i]) || IsJunk(sep[i])
  }

  /** A non-empty run of spaces. */
  predicate Gap(g: string) {
    |g| > 0 && forall i :: 0 <= i < |g| ==> g[i] == ' '
  }

  /** A prefix without characters of the class passes run replacement
      unchanged. */
  lemma {:induction false} RunsAfterPlain(x: string, y: string, k: RunClass)
    requires forall i :: 0 <= i < |x| ==> !InClass(k, x[i])
    ensures ReplaceRuns(x + y, k) == x + ReplaceRuns(y, k)
    decreases |x|
  {
    if |x| > 0 {
      var s := x + y;
      assert s[0] == x[0] && s[1..] == x[1..] + y;
      RunsAfterPlain(x[1..], y, k);
      assert ReplaceRuns(s, k) == [x[0]] + ReplaceRuns(x[1..] + y, k);
      var ry := ReplaceRuns(y, k);
      assert x == [x[0]] + x[1..];
      assert x + ry == [x[0]] + (x[1..] + ry);
    } else {
      assert x + y == y;
    }
  }

  /** A leading run of the class, followed by a character outside it,
      becomes one space. */
  lemma LeadingRun(m: string, y: string, k: RunClass)
    requires |m| > 0 && forall i :: 0 <= i < |m| ==> InClass(k, m[i])
    requires |y| == 0 || !InClass(k, y[0])
    ensures ReplaceRuns(m + y, k) == [' '] + ReplaceRuns(y, k)
  {
    var s := m + y;
    assert forall j :: 0 <= j < |m| ==> s[j] == m[j];
    assert |m| == |s| || !InClass(k, s[|m|]) by {
      if |m| < |s| {
        assert s[|m|] == y[0];
      }
    }
    assert ClassRun(s, k) == |m|;
    assert s[|m|..] == y;
  }

  /** After junk is blanked, the digit runs of a separator leave a gap of
      spaces before the next word. */
  lemma {:induction false} SeparatorDigits(m: string, b: string) returns (g: string)
    requires |m| > 0 && forall i :: 0 <= i < |m| ==> m[i] == ' ' || IsDigit(m[i])
    requires forall i :: 0 <= i < |b| ==> !IsDigit(b[i])
    ensures Gap(g) && ReplaceRuns(m + b, Digits) == g + b
    decreases |m|
  {
    var n := SeparatorDigitsHead(m, b);
    if n == |m| {
      assert m[n..] + b == b;
      RunsAbsent(b, Digits);
      g := [' '];
    } else {
      var g' := SeparatorDigits(m[n..], b);
      g := [' '] + g';
      ConsAssoc(' ', g', b);
    }
  }

  /** The first step over a separator: a digit run, or a single space,
      becomes one space, and the rest of the separator is handled next. */
  lemma SeparatorDigitsHead(m: string, b: string) returns (n: nat)
    requires |m| > 0 && forall i :: 0 <= i < |m| ==> m[i] == ' ' || IsDigit(m[i])
    requires forall i :: 0 <= i < |b| ==> !IsDigit(b[i])
    ensures 1 <= n <= |m|
    ensures ReplaceRuns(m + b, Digits) == [' '] + ReplaceRuns(m[n..] + b, Digits)
  {
    var s := m + b;
    assert forall j :: 0 <= j < |m| ==> s[j] == m[j];
    assert |m| == |s| || !IsDigit(s[|m|]) by {
      if |m| < |s| {
        assert s[|m|] == b[0];
      }
    }
    n := if IsDigit(m[0]) then ClassRun(s, Digits) else 1;
    assert s[n..] == m[n..] + b;
  }

  /** The number of leading copies of the first character is the same with
      a tail that starts differently from where the text ends. */
  lemma RunLengthAppend(x: string, y: string)
    requires |x| > 0 && |y| > 0 && x[|x| - 1] != y[0]
    ensures RunLength(x + y) == RunLength(x)
  {
    var s, r := x + y, RunLength(x);
    assert forall j :: 0 <= j < |x| ==> s[j] == x[j];
    assert s[r] != s[0] by {
      if r < |x| {
        assert s[r] == x[r];
      } else {
        assert s[r] == y[0];
        assert x[|x| - 1] == x[0];
      }
    }
  }

  /** How far one step of collapsing advances: past the whole run when it
      is collapsed, past one character otherwise. */
  function CollapseStep(s: string): (n: nat)
    requires |s| > 0
    ensures 1 <= n <= |s|
  {
    if s[0] != '\n' && RunLength(s) >= 3 then RunLength(s) else 1
  }

  lemma CollapseUnfold(s: string)
    requires |s| > 0
    ensures CollapseRuns(s) == [s[0]] + CollapseRuns(s[CollapseStep(s)..])
  {
  }

  /** Collapsing works on each side of a boundary between different
      characters separately. */
  lemma CollapseStepAppend(x: string, y: string)
    requires |x| > 0 && |y| > 0 && x[|x| - 1] != y[0]
    ensures CollapseStep(x + y) == CollapseStep(x)
  {
    RunLengthAppend(x, y);
    assert (x + y)[0] == x[0];
  }

  /** The first collapsing step on `x + y` is the one on `x`. */
  lemma CollapseAppendHead(x: string, y: string)
    requires |x| > 0 && |y| > 0 && x[|x| - 1] != y[0]
    ensures CollapseRuns(x + y) == [x[0]] + CollapseRuns(x[CollapseStep(x)..] + y)
  {
    var s, n := x + y, CollapseStep(x);
    CollapseStepAppend(x, y);
    CollapseUnfold(s);
    assert s[0] == x[0] && s[n..] == x[n..] + y;
  }

  lemma {:induction false} CollapseAppend(x: string, y: string)
    requires |x| > 0 && |y| > 0 && x[|x| - 1] != y[0]
    ensures CollapseRuns(x + y) == CollapseRuns(x) + CollapseRuns(y)
    decreases |x|
  {
    var x' := x[CollapseStep(x)..];
    CollapseAppendHead(x, y);
    CollapseUnfold(x);
    if |x'| > 0 {
      assert x'[|x'| - 1] == x[|x| - 1];
      CollapseAppend(x', y);
    } else {
      assert x' + y == y;
    }
    ConsAssoc(x[0], CollapseRuns(x'), CollapseRuns(y));
  }

  lemma ConsAssoc(c: char, a: string, b: string)
    ensures [c] + (a + b) == ([c] + a) + b
  {
  }

  /** Collapsing a gap leaves a gap. */
  lemma CollapseGap(g: string)
    requires Gap(g)
    ensures Gap(CollapseRuns(g))
  {
    CollapseHead(g);
    forall i | 0 <= i < |CollapseRuns(g)|
      ensures CollapseRuns(g)[i] == ' '
    {
      CollapseKeeps(g, CollapseRuns(g)[i]);
    }
  }

  /** The stages of cleaning on two words around a separator. */
  lemma JunkStage(a: string, sep: string, b: string)
    requires Letters(a) && Letters(b) && Separator(sep)
    ensures ReplaceChar(Lower(a + sep + b), FancyApostrophe, '\'') == a + sep + b
    ensures BlankJunk(a + sep + b) == a + BlankJunk(sep) + b
    ensures forall i :: 0 <= i < |BlankJunk(sep)| ==> BlankJunk(sep)[i] == ' ' || IsDigit(BlankJunk(sep)[i])
  {
    var line := a + sep + b;
    LowerOfLowercase(line);
    assert ReplaceChar(line, FancyApostrophe, '\'') == line;
  }

  lemma DigitStage(a: string, m: string, b: string) returns (g: string)
    requires Letters(a) && Letters(b)
    requires |m| > 0 && forall i :: 0 <= i < |m| ==> m[i] == ' ' || IsDigit(m[i])
    ensures Gap(g) && ReplaceRuns(a + m + b, Digits) == a + g + b
  {
    g := SeparatorDigits(m, b);
    AppendAssoc(a, m, b);
    RunsAfterPlain(a, m + b, Digits);
    AppendAssoc(a, g, b);
  }

  lemma CollapseStage(a: string, g: string, b: string) returns (h: string)
    requires |a| > 0 && |b| > 0 && Letters(a) && Letters(b) && NoTripleRun(a) && NoTripleRun(b)
    requires Gap(g)
    ensures Gap(h) && CollapseRuns(a + g + b) == a + h + b
  {
    h := CollapseRuns(g);
    CollapseFixed(a);
    CollapseFixed(b);
    CollapseGap(g);
    var gb := g + b;
    assert gb[0] == ' ';
    CollapseAppend(g, b);
    CollapseAppend(a, gb);
    AppendAssoc(a, g, b);
    AppendAssoc(a, h, b);
  }

  lemma AppendAssoc(x: string, y: string, z: string)
    ensures x + (y + z) == x + y + z
  {
  }

  lemma SquashStage(a: string, h: string, b: string)
    requires |a| > 0 && |b| > 0 && Letters(a) && Letters(b) && Gap(h)
    ensures KeepAllowed(a + h + b) == a + h + b
    ensures ReplaceRuns(a + h + b, Whitespace) == a + " " + b
    ensures Strip(a + " " + b) == a + " " + b
  {
    var t := a + h + b;
    assert forall i :: 0 <= i < |t| ==> Allowed(t[i]);
    AppendAssoc(a, h, b);
    RunsAfterPlain(a, h + b, Whitespace);
    LeadingRun(h, b, Whitespace);
    RunsAbsent(b, Whitespace);
    AppendAssoc(a, " ", b);
    StripUnchanged(a + " " + b);
  }

  /** Digits and junk symbols between two words become one word separator:
      the cleaned line holds the two words with a single space between. */
  lemma SeparatorSplitsWords(a: string, sep: string, b: string)
    requires |a| > 0 && |b| > 0 && Letters(a) && Letters(b) && NoTripleRun(a) && NoTripleRun(b)
    requires Separator(sep)
    ensures Clean(a + sep + b) == a + " " + b
    ensures NormalizeLine(a + sep + b) == ApplyFixes(a + " " + b, Fixes)
  {
    JunkStage(a, sep, b);
    var g := DigitStage(a, BlankJunk(sep), b);
    var h := CollapseStage(a, g, b);
    SquashStage(a, h, b);
  }


  /** No occurrence starts at the first character when the text differs
      from the pattern at position `k` counted from there. */
  lemma ReplaceSkip(c: char, s: string, p: string, r: string, k: nat)
    requires k < |p| && (if k == 0 then c != p[0] else k - 1 < |s| && s[k - 1] != p[k])
    ensures Replace([c] + s, p, r) == [c] + Replace(s, p, r)
  {
    var t := [c] + s;
    if |t| >= |p| {
      assert t[..|p|][k] == t[k];
      assert t[1..] == s;
    } else {
      ReplaceShort(s, p, r);
    }
  }

  /** An occurrence at the start with too little after it for another. */
  lemma ReplaceAtStart(p: string, rest: string, r: string)
    requires |p| > 0 && |rest| < |p|
    ensures Replace(p + rest, p, r) == r + rest
  {
    var t := p + rest;
    assert t[..|p|] == p && t[|p|..] == rest;
    ReplaceShort(rest, p, r);
  }

  lemma ReplaceShort(s: string, p: string, r: string)
    requires |p| > 0 && |s| < |p|
    ensures Replace(s, p, r) == s
  {
  }

  /** A text as long as the pattern and equal to it is replaced whole. */
  lemma ReplaceWhole(p: string, r: string)
    requires |p| > 0
    ensures Replace(p, p, r) == r
  {
    assert p[..|p|] == p && p[|p|..] == [];
  }

  /** A text as long as the pattern that differs from it at position `k`
      is left as it is. */
  lemma ReplaceMismatch(s: string, p: string, r: string, k: nat)
    requires |s| == |p| && k < |p| && s[k] != p[k]
    ensures Replace(s, p, r) == s
  {
    assert s[..|p|][k] == s[k];
    assert s == [s[0]] + s[1..];
  }

  /** An occurrence right after the first character, with nothing after it
      and no occurrence at the start. */
  lemma ReplaceAfterFirst(c: char, p: string, r: string)
    requires |p| > 0 && c != p[0]
    ensures Replace([c] + p, p, r) == [c] + r
  {
    ReplaceSkip(c, p, p, r, 0);
    ReplaceWhole(p, r);
  }

  /** Applying a table is applying its first part, then its second. */
  lemma {:induction false} ApplyFixesAppend(s: string, a: FixTable, b: FixTable)
    ensures forall i :: 0 <= i < |a + b| ==> |(a + b)[i].0| > 0
    ensures ApplyFixes(s, a + b) == ApplyFixes(ApplyFixes(s, a), b)
    decreases |a|
  {
    if |a| == 0 {
      assert a + b == b;
    } else {
      assert (a + b)[1..] == a[1..] + b;
      ApplyFixesAppend(Replace(s, a[0].0, a[0].1), a[1..], b);
    }
  }

  /** The whole table is its three groups one after the other. */
  lemma FixesInGroups(s: string)
    ensures ApplyFixes(s, Fixes) ==
      ApplyFixes(ApplyFixes(ApplyFixes(s, ImperatorFixes), KyrsedgeFixes), DarksteelFixes)
  {
    ApplyFixesAppend(s, ImperatorFixes + KyrsedgeFixes, DarksteelFixes);
    ApplyFixesAppend(s, ImperatorFixes, KyrsedgeFixes);
  }

  /** No occurrence of `p` can start where the text holds a character other
      than its first, so a text without `p[0]` at any possible start is left
      as it is. */
  lemma {:induction false} ReplaceNoStart(s: string, p: string, r: string)
    requires |p| > 0
    requires forall j :: 0 <= j && j + |p| <= |s| ==> s[j] != p[0]
    ensures Replace(s, p, r) == s
    decreases |s|
  {
    if |s| >= |p| {
      assert s[..|p|][0] == s[0];
      var t := s[1..];
      assert forall j :: 0 <= j && j + |p| <= |t| ==> t[j] == s[j + 1];
      ReplaceNoStart(t, p, r);
      assert s == [s[0]] + t;
    }
  }

  /** The "imperator" group leaves a text with no 'i' where a nine-letter
      pattern could start. */
  lemma ImperatorFixesSkip(s: string)
    requires forall j :: 0 <= j && j + 9 <= |s| ==> s[j] != 'i'
    ensures ApplyFixes(s, ImperatorFixes) == s
  {
    ReplaceNoStart(s, "impecator", "imperator");
    ReplaceNoStart(s, "impecatar", "imperator");
    ReplaceNoStart(s, "imperat0r", "imperator");
  }

  /** The "kyrsedge" group leaves a text with no 'k' or 'y' where a
      seven-letter pattern could start. */
  lemma KyrsedgeFixesSkip(s: string)
    requires forall j :: 0 <= j && j + 7 <= |s| ==> s[j] != 'k' && s[j] != 'y'
    ensures ApplyFixes(s, KyrsedgeFixes) == s
  {
    ReplaceNoStart(s, "kyrsieger", "kyrsedge");
    ReplaceNoStart(s, "kyrstrez", "kyrsedge");
    ReplaceNoStart(s, "yrsedge", "kyrsedge");
  }

  /** The "darksteel" group leaves a text with no 'd' where its pattern
      could start. */
  lemma DarksteelFixesSkip(s: string)
    requires forall j :: 0 <= j && j + 8 <= |s| ==> s[j] != 'd'
    ensures ApplyFixes(s, DarksteelFixes) == s
  {
    ReplaceNoStart(s, "darkstee", "darksteel");
  }

  /** The "imperator" group on "impecator": the first fix corrects it and the
      other two no longer match. */
  lemma ImperatorFixesOnImpecator(s: string)
    requires s == "impecator"
    ensures ApplyFixes(s, ImperatorFixes) == "imperator"
  {
    var m := "imperator";
    ReplaceWhole(s, m);
    ReplaceMismatch(m, "impecatar", m, 4);
    ReplaceMismatch(m, "imperat0r", m, 7);
  }

  lemma FixesOnImpecator(s: string)
    requires s == "impecator"
    ensures ApplyFixes(s, Fixes) == "imperator"
  {
    FixesInGroups(s);
    ImperatorFixesOnImpecator(s);
    var m := "imperator";
    forall j | 0 <= j && j + 7 <= |m| ensures m[j] != 'k' && m[j] != 'y' {
      assert j == 0 || j == 1 || j == 2;
    }
    KyrsedgeFixesSkip(m);
    forall j | 0 <= j && j + 8 <= |m| ensures m[j] != 'd' {
      assert j == 0 || j == 1;
    }
    DarksteelFixesSkip(m);
  }

  /** The "kyrsedge" group on "kyrsieger": the first fix gives "kyrsedge",
      in which the third then finds "yrsedge" and prefixes another 'k'. */
  lemma KyrsedgeFixesOnKyrsieger(s: string)
    requires s == "kyrsieger"
    ensures ApplyFixes(s, KyrsedgeFixes) == "kkyrsedge"
  {
    var t, y := "kyrsedge", "yrsedge";
    ReplaceWhole(s, t);
    ReplaceMismatch(t, "kyrstrez", t, 4);
    assert t == ['k'] + y;
    ReplaceAfterFirst('k', y, t);
  }

  lemma FixesOnKyrsieger(s: string)
    requires s == "kyrsieger"
    ensures ApplyFixes(s, Fixes) == "kkyrsedge"
  {
    FixesInGroups(s);
    ImperatorFixesSkip(s);
    KyrsedgeFixesOnKyrsieger(s);
    var v := "kkyrsedge";
    forall j | 0 <= j && j + 8 <= |v| ensures v[j] != 'd' {
      assert j == 0 || j == 1;
    }
    DarksteelFixesSkip(v);
  }

  /** The fix-ups on the correct "darksteel": only the last one matches, on
      "darkstee", and appends another 'l'. */
  lemma FixesOnDarksteel(s: string)
    requires s == "darksteel"
    ensures ApplyFixes(s, Fixes) == "darksteell"
  {
    FixesInGroups(s);
    ImperatorFixesSkip(s);
    DarksteelLacksKyrsedgeStart(s);
    KyrsedgeFixesSkip(s);
    DarksteelFixesOnDarksteel(s);
  }

  /** No "kyrsedge" pattern can start in "darksteel": no 'k' or 'y' sits
      early enough. */
  lemma DarksteelLacksKyrsedgeStart(s: string)
    requires s == "darksteel"
    ensures forall j :: 0 <= j && j + 7 <= |s| ==> s[j] != 'k' && s[j] != 'y'
  {
    assert s[0] == 'd' && s[1] == 'a' && s[2] == 'r';
  }

  lemma DarksteelFixesOnDarksteel(s: string)
    requires s == "darksteel"
    ensures ApplyFixes(s, DarksteelFixes) == "darksteell"
  {
    var p := "darkstee";
    assert s == p + "l";
    ReplaceAtStart(p, "l", "darksteel");
  }

  /** The "kyrsedge" group on the correct "kyrsedge": the third fix prefixes
      a 'k'. */
  lemma KyrsedgeFixesOnKyrsedge(s: string)
    requires s == "kyrsedge"
    ensures ApplyFixes(s, KyrsedgeFixes) == "kkyrsedge"
  {
    var y := "yrsedge";
    ReplaceShort(s, "kyrsieger", "kyrsedge");
    ReplaceMismatch(s, "kyrstrez", s, 4);
    assert s == ['k'] + y;
    ReplaceAfterFirst('k', y, s);
  }

  lemma FixesOnKyrsedge(s: string)
    requires s == "kyrsedge"
    ensures ApplyFixes(s, Fixes) == "kkyrsedge"
  {
    FixesInGroups(s);
    ImperatorFixesSkip(s);
    KyrsedgeFixesOnKyrsedge(s);
    var v := "kkyrsedge";
    forall j | 0 <= j && j + 8 <= |v| ensures v[j] != 'd' {
      assert j == 0 || j == 1;
    }
    DarksteelFixesSkip(v);
  }

  /** The "kyrsedge" group on "kkyrsedge": the third fix prefixes yet another
      'k'. */
  lemma KyrsedgeFixesOnKkyrsedge(u: string)
    requires u == "kkyrsedge"
    ensures ApplyFixes(u, KyrsedgeFixes) == "kkkyrsedge"
  {
    KkyrsedgeMissesFullSpellings();
    KkyrsedgeGainsK();
    ApplyFixesThree(u, KyrsedgeFixes);
  }

  /** Neither full misspelling of "kyrsedge" occurs in "kkyrsedge". */
  lemma KkyrsedgeMissesFullSpellings()
    ensures Replace("kkyrsedge", "kyrsieger", "kyrsedge") == "kkyrsedge"
    ensures Replace("kkyrsedge", "kyrstrez", "kyrsedge") == "kkyrsedge"
  {
    var t := "kyrsedge";
    assert "kkyrsedge" == ['k'] + t;
    ReplaceMismatch("kkyrsedge", "kyrsieger", t, 1);
    ReplaceSkip('k', t, "kyrstrez", t, 1);
    ReplaceMismatch(t, "kyrstrez", t, 4);
  }

  /** The "yrsedge" entry rewrites the tail of "kkyrsedge", adding a 'k'. */
  lemma KkyrsedgeGainsK()
    ensures Replace("kkyrsedge", "yrsedge", "kyrsedge") == "kkkyrsedge"
  {
    var y := "yrsedge";
    var r := "kyrsedge";
    var t := ['k'] + y;
    assert "kkyrsedge" == ['k'] + t;
    ReplaceSkip('k', t, y, r, 0);
    ReplaceAfterFirst('k', y, r);
    assert ['k'] + r == "kkyrsedge";
    assert ['k'] + "kkyrsedge" == "kkkyrsedge";
  }

  /** A three-entry table applies its entries in order. */
  lemma ApplyFixesThree(s: string, fixes: FixTable)
    requires |fixes| == 3
    ensures ApplyFixes(s, fixes) ==
      Replace(Replace(Replace(s, fixes[0].0, fixes[0].1), fixes[1].0, fixes[1].1), fixes[2].0, fixes[2].1)
  {
    var s1 := Replace(s, fixes[0].0, fixes[0].1);
    var s2 := Replace(s1, fixes[1].0, fixes[1].1);
    assert ApplyFixes(s, fixes) == ApplyFixes(s1, fixes[1..]);
    assert ApplyFixes(s1, fixes[1..]) == ApplyFixes(s2, fixes[2..]);
  }

  lemma FixesOnKkyrsedge(u: string)
    requires u == "kkyrsedge"
    ensures ApplyFixes(u, Fixes) == "kkkyrsedge"
  {
    FixesInGroups(u);
    ImperatorFixesSkip(u);
    KyrsedgeFixesOnKkyrsedge(u);
    var v := "kkkyrsedge";
    forall j | 0 <= j && j + 8 <= |v| ensures v[j] != 'd' {
      assert j == 0 || j == 1 || j == 2;
    }
    DarksteelFixesSkip(v);
  }

  /** Every character of an occurrence is a character of the text. */
  lemma {:induction false} ContainsChars(s: string, t: string, c: char)
    requires Contains(s, t) && c in t
    ensures c in s
    decreases |s|
  {
    if IsPrefix(t, s) {
      var k :| 0 <= k < |t| && t[k] == c;
      assert s[..|t|][k] == s[k];
    } else {
      ContainsChars(s[1..], t, c);
      assert forall x :: x in s[1..] ==> x in s;
    }
  }

  /** On a text without a zero the "imperat0r" fix finds nothing: the two
      fixes before it write no digit. */
  lemma DigitFixIdle(s: string)
    requires '0' !in s
    ensures ApplyFixes(s, ImperatorFixes) == ApplyFixes(s, ImperatorTypos)
  {
    var first, last: FixTable := ImperatorTypos, ImperatorFixes[2..];
    assert ImperatorFixes == first + last;
    ApplyFixesAppend(s, first, last);
    var s1 := Replace(s, "impecator", "imperator");
    var s2 := Replace(s1, "impecatar", "imperator");
    assert ApplyFixes(s, first) == s2 by {
      assert ApplyFixes(s, first) == ApplyFixes(s1, first[1..]);
      assert ApplyFixes(s1, first[1..]) == ApplyFixes(s2, first[2..]);
    }
    assert '0' !in s2 by {
      ReplaceChars(s, "impecator", "imperator");
      ReplaceChars(s1, "impecatar", "imperator");
    }
    assert !Contains(s2, "imperat0r") by {
      if Contains(s2, "imperat0r") {
        ContainsChars(s2, "imperat0r", '0');
      }
    }
    ReplaceAbsent(s2, "imperat0r", "imperator");
    assert ApplyFixes(s2, last) == ApplyFixes(Replace(s2, "imperat0r", "imperator"), last[1..]);
  }

  /** The "imperat0r" fix never fires: the cleaned line holds no digit. */
  lemma DigitFixNeverFires(line: string)
    ensures ApplyFixes(Clean(line), ImperatorFixes) == ApplyFixes(Clean(line), ImperatorTypos)
  {
    CleanShape(line);
    DigitFixIdle(Clean(line));
  }

  // ---------------------------------------------------------------------------
  // Whole lines

  /** A word of lower-case letters without runs of three reaches the fix-ups
      unchanged. */
  lemma NormalizeWord(w: string)
    requires Letters(w) && NoTripleRun(w)
    ensures NormalizeLine(w) == ApplyFixes(w, Fixes)
  {
    CleanOfWord(w);
  }

  lemma NormalizeImpecator(line: string)
    requires line == "impecator"
    ensures NormalizeLine(line) == "imperator"
  {
    NormalizeWord(line);
    FixesOnImpecator(line);
  }

  /** The correct "darksteel" is not left alone: it gains an 'l'. */
  lemma NormalizeDarksteel(line: string)
    requires line == "darksteel"
    ensures NormalizeLine(line) == "darksteell"
  {
    NormalizeWord(line);
    FixesOnDarksteel(line);
  }

  /** The correct "kyrsedge" is not left alone: it gains a 'k'. */
  lemma NormalizeKyrsedge(line: string)
    requires line == "kyrsedge"
    ensures NormalizeLine(line) == "kkyrsedge"
  {
    NormalizeWord(line);
    FixesOnKyrsedge(line);
  }

  lemma NormalizeKyrsieger(line: string)
    requires line == "kyrsieger"
    ensures NormalizeLine(line) == "kkyrsedge"
  {
    NormalizeWord(line);
    FixesOnKyrsieger(line);
  }

  lemma NormalizeKkyrsedge(line: string)
    requires line == "kkyrsedge"
    ensures NormalizeLine(line) == "kkkyrsedge"
  {
    NormalizeWord(line);
    FixesOnKkyrsedge(line);
  }

  /** Normalisation is not idempotent: "kyrsieger" becomes "kkyrsedge", and
      normalising that again adds a third 'k'. */
  lemma NormalizeTwice(line: string)
    requires line == "kyrsieger"
    ensures NormalizeLine(NormalizeLine(line)) == "kkkyrsedge"
    ensures NormalizeLine(NormalizeLine(line)) != NormalizeLine(line)
  {
    NormalizeKyrsieger(line);
    NormalizeKkyrsedge(NormalizeLine(line));
  }
}
