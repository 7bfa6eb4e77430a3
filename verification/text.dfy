/** Text primitives with the meaning Python's `str` methods and SQLite's text
    functions give them. Case mapping and the whitespace class are the ASCII
    ones: Python's `str.lower()` and `str.isspace()` agree with them on every
    ASCII character and on U+2019, the only other character this model uses. */
module Text {

  /** `str.isspace()` on ASCII: space, tab, line feed, vertical tab, form
      feed, carriage return and the separators U+001C..U+001F. Python's
      `str.split()`, `str.strip()` and the regular-expression class `\s` all
      use this class. */
  predicate IsSpace(c: char) {
    c == ' ' || ('\t' <= c <= '\r') || ('\U{001C}' <= c <= '\U{001F}')
  }

  predicate IsUpper(c: char) { 'A' <= c <= 'Z' }

  predicate IsLowerLetter(c: char) { 'a' <= c <= 'z' }

  predicate IsDigit(c: char) { '0' <= c <= '9' }

  predicate NoSpace(s: string) {
    forall k :: 0 <= k < |s| ==> !IsSpace(s[k])
  }

  /** ASCII case folding: what SQLite's LOWER() and LIKE apply, and what
      Python's `str.lower()` does on ASCII. */
  function LowerChar(c: char): char {
    if IsUpper(c) then (c as int + 32) as char else c
  }

  function Lower(s: string): (r: string)
    ensures |r| == |s|
    ensures forall i :: 0 <= i < |s| ==> r[i] == LowerChar(s[i])
  {
    seq(|s|, i requires 0 <= i < |s| => LowerChar(s[i]))
  }

  lemma LowerConcat(a: string, b: string)
    ensures Lower(a + b) == Lower(a) + Lower(b)
  {
  }

  lemma LowerOfLowercase(s: string)
    requires forall i :: 0 <= i < |s| ==> !IsUpper(s[i])
    ensures Lower(s) == s
  {
  }

  lemma LowerIdempotent(s: string)
    ensures Lower(Lower(s)) == Lower(s)
  {
  }

  /** The first `n` characters of `s` form the longest prefix without whitespace. */
  function WordLength(s: string): (n: nat)
    ensures n <= |s|
    ensures forall k :: 0 <= k < n ==> !IsSpace(s[k])
    ensures n == |s| || IsSpace(s[n])
  {
    if |s| == 0 || IsSpace(s[0]) then 0 else 1 + WordLength(s[1..])
  }

  /** The index of the first character at or after `i` that is not
      whitespace, or `|s|`. */
  function SkipSpaces(s: string, i: nat): (n: nat)
    requires i <= |s|
    ensures i <= n <= |s|
    ensures forall k :: i <= k < n ==> IsSpace(s[k])
    ensures n == |s| || !IsSpace(s[n])
    decreases |s| - i
  {
    if i == |s| || !IsSpace(s[i]) then i else SkipSpaces(s, i + 1)
  }

  /** The index just after the last character before `j` that is not
      whitespace, or 0. */
  function SkipSpacesBack(s: string, j: nat): (n: nat)
    requires j <= |s|
    ensures n <= j
    ensures forall k :: n <= k < j ==> IsSpace(s[k])
    ensures n == 0 || !IsSpace(s[n - 1])
  {
    if j == 0 || !IsSpace(s[j - 1]) then j else SkipSpacesBack(s, j - 1)
  }

  /** `s` without its leading whitespace (Python's `lstrip()`). */
  function TrimStart(s: string): (r: string)
    ensures |r| <= |s| && r == s[|s| - |r|..]
    ensures forall k :: 0 <= k < |s| - |r| ==> IsSpace(s[k])
    ensures |r| == 0 || !IsSpace(r[0])
  {
    s[SkipSpaces(s, 0)..]
  }

  /** `s` without its trailing whitespace (Python's `rstrip()`). */
  function TrimEnd(s: string): (r: string)
    ensures |r| <= |s| && r == s[..|r|]
    ensures forall k :: |r| <= k < |s| ==> IsSpace(s[k])
    ensures |r| == 0 || !IsSpace(r[|r| - 1])
  {
    s[..SkipSpacesBack(s, |s|)]
  }

  /** Python's `str.strip()` with no argument: the slice of `s` left after
      removing whitespace from both ends. */
  function Strip(s: string): (r: string)
    ensures |r| <= |s|
    ensures Trimmed(r)
  {
    TrimEnd(TrimStart(s))
  }

  /** The stripped string is the slice of `s` starting after its leading whitespace. */
  lemma StripIsSlice(s: string)
    ensures var i := |s| - |TrimStart(s)|; i + |Strip(s)| <= |s| && Strip(s) == s[i..i + |Strip(s)|]
  {
    var t := TrimStart(s);
    var r := TrimEnd(t);
    var i := |s| - |t|;
    assert Strip(s) == r;
    SliceOfSuffix(s, i, |r|);
  }

  /** Stripping removes whitespace at the two ends and nothing else: the
      result is a slice of `s` with only whitespace before and after it,
      and neither of its own ends is whitespace. */
  lemma StripMeaning(s: string)
    ensures exists i :: WhitespaceAround(s, Strip(s), i)
    ensures Trimmed(Strip(s))
  {
    var t := TrimStart(s);
    var r := TrimEnd(t);
    var i := |s| - |t|;
    StripIsSlice(s);
    assert Strip(s) == r;
    forall k | i + |r| <= k < |s|
      ensures IsSpace(s[k])
    {
      assert t[k - i] == s[k];
    }
    assert WhitespaceAround(s, r, i);
  }

  /** `r` sits in `s` at index `i` with only whitespace before and after it. */
  predicate WhitespaceAround(s: string, r: string, i: nat) {
    && i + |r| <= |s| && r == s[i..i + |r|]
    && (forall k :: 0 <= k < i ==> IsSpace(s[k]))
    && (forall k :: i + |r| <= k < |s| ==> IsSpace(s[k]))
  }

  /** A prefix of a suffix is a middle slice. */
  lemma SliceOfSuffix(s: string, i: nat, n: nat)
    requires i + n <= |s|
    ensures s[i..][..n] == s[i..i + n]
  {
  }

  /** Neither end of `s` is whitespace. */
  predicate Trimmed(s: string) {
    |s| == 0 || (!IsSpace(s[0]) && !IsSpace(s[|s| - 1]))
  }

  /** Stripping changes exactly the strings with whitespace at an end. */
  lemma StripUnchanged(s: string)
    ensures Strip(s) == s <==> Trimmed(s)
  {
  }

  /** Whitespace alone strips to nothing. */
  lemma StripBlank(s: string)
    requires forall k :: 0 <= k < |s| ==> IsSpace(s[k])
    ensures Strip(s) == ""
  {
    StripIsSlice(s);
  }

  /** Stripping keeps every character that is not whitespace. */
  lemma StripKeeps(s: string, c: char)
    requires c in s && !IsSpace(c)
    ensures c in Strip(s)
  {
    var k :| 0 <= k < |s| && s[k] == c;
    var t := TrimStart(s);
    var i := |s| - |t|;
    assert k >= i;
    assert t[k - i] == c;
    var r := TrimEnd(t);
    assert k - i < |r|;
    assert r[k - i] == c;
  }

  lemma StripWord(s: string)
    requires NoSpace(s)
    ensures Strip(s) == s
  {
    StripUnchanged(s);
  }

  /** Whitespace in front does not change the left-trimmed string. */
  lemma TrimStartSpace(c: char, rest: string)
    requires IsSpace(c)
    ensures TrimStart([c] + rest) == TrimStart(rest)
  {
    var s := [c] + rest;
    var n, m := SkipSpaces(s, 0), SkipSpaces(rest, 0);
    assert forall k :: 0 <= k < |rest| ==> s[k + 1] == rest[k];
    assert n == m + 1;
    assert s[n..] == rest[m..];
  }

  /** Whitespace at the end does not change the right-trimmed string. */
  lemma TrimEndSpace(rest: string, c: char)
    requires IsSpace(c)
    ensures TrimEnd(rest + [c]) == TrimEnd(rest)
  {
    var s := rest + [c];
    var n, m := SkipSpacesBack(s, |s|), SkipSpacesBack(rest, |rest|);
    assert forall k :: 0 <= k < |rest| ==> s[k] == rest[k];
    assert n == m;
    assert s[..n] == rest[..m];
  }

  /** Strip drops one whitespace character on each side of a word. */
  lemma StripPadded(w: string)
    requires NoSpace(w) && |w| > 0
    ensures Strip([' '] + w + [' ']) == w
  {
    var u := w + [' '];
    assert [' '] + w + [' '] == [' '] + u;
    TrimStartSpace(' ', u);
    assert !IsSpace(u[0]);
    assert TrimStart(u) == u;
    TrimEndSpace(w, ' ');
    StripWord(w);
  }

  /** Python's `s.split(sep)`: the pieces between consecutive occurrences of
      `sep`, empty pieces included. */
  function Split(s: string, sep: char): (parts: seq<string>)
    ensures |parts| >= 1
    ensures forall i :: 0 <= i < |parts| ==> sep !in parts[i]
  {
    if |s| == 0 then [""]
    else
      var rest := Split(s[1..], sep);
      if s[0] == sep then [""] + rest
      else [[s[0]] + rest[0]] + rest[1..]
  }

  /** Python's `sep.join(parts)`. */
  function Join(parts: seq<string>, sep: char): string {
    if |parts| == 0 then ""
    else if |parts| == 1 then parts[0]
    else parts[0] + [sep] + Join(parts[1..], sep)
  }

  /** Joining the pieces of a split with the same separator gives the string back. */
  lemma {:induction false} JoinSplit(s: string, sep: char)
    ensures Join(Split(s, sep), sep) == s
  {
    if |s| > 0 {
      var rest := Split(s[1..], sep);
      JoinSplit(s[1..], sep);
      if s[0] == sep {
        assert Join([""] + rest, sep) == "" + [sep] + Join(rest, sep);
        assert s == [s[0]] + s[1..];
      } else if |rest| == 1 {
        assert s == [s[0]] + s[1..];
      } else {
        var parts := [[s[0]] + rest[0]] + rest[1..];
        assert parts[1..] == rest[1..];
        assert Join(rest, sep) == rest[0] + [sep] + Join(rest[1..], sep);
        assert s == [s[0]] + s[1..];
      }
    }
  }

  lemma {:induction false} SplitWithoutSeparator(s: string, sep: char)
    requires sep !in s
    ensures Split(s, sep) == [s]
  {
    if |s| > 0 {
      SplitWithoutSeparator(s[1..], sep);
      assert s == [s[0]] + s[1..];
    }
  }

  /** A separator occurrence ends the first piece. */
  lemma {:induction false} SplitAtSeparator(a: string, b: string, sep: char)
    requires sep !in a
    ensures Split(a + [sep] + b, sep) == [a] + Split(b, sep)
  {
    if |a| == 0 {
      assert a + [sep] + b == [sep] + b;
      assert ([sep] + b)[1..] == b;
    } else {
      SplitAtSeparator(a[1..], b, sep);
      assert (a + [sep] + b)[1..] == a[1..] + [sep] + b;
      assert a == [a[0]] + a[1..];
    }
  }

  /** Splitting a join of separator-free pieces gives the pieces back. */
  lemma {:induction false} SplitJoin(parts: seq<string>, sep: char)
    requires |parts| >= 1
    requires forall i :: 0 <= i < |parts| ==> sep !in parts[i]
    ensures Split(Join(parts, sep), sep) == parts
  {
    if |parts| == 1 {
      SplitWithoutSeparator(parts[0], sep);
    } else {
      SplitJoin(parts[1..], sep);
      SplitAtSeparator(parts[0], Join(parts[1..], sep), sep);
      assert parts == [parts[0]] + parts[1..];
    }
  }

  /** A join of two or more pieces holds its separator. */
  lemma JoinHasSeparator(parts: seq<string>, sep: char)
    requires |parts| >= 2
    ensures sep in Join(parts, sep)
  {
    assert Join(parts, sep)[|parts[0]|] == sep;
  }

  /** Replacing the separator of a join of pieces that lack it gives the
      join with the new separator. */
  lemma {:induction false} ReplaceCharJoin(parts: seq<string>, from: char, to: char)
    requires forall i :: 0 <= i < |parts| ==> from !in parts[i]
    ensures ReplaceChar(Join(parts, from), from, to) == Join(parts, to)
    decreases |parts|
  {
    if |parts| == 1 {
      ReplaceCharAbsent(parts[0], from, to);
    } else if |parts| >= 2 {
      ReplaceCharJoin(parts[1..], from, to);
      ReplaceCharAbsent(parts[0], from, to);
      ReplaceCharAppend(parts[0] + [from], Join(parts[1..], from), from, to);
      ReplaceCharAppend(parts[0], [from], from, to);
    }
  }

  /** A character found in no piece, and other than the separator, is not
      in their join. */
  lemma {:induction false} JoinWithout(parts: seq<string>, sep: char, c: char)
    requires c != sep
    requires forall i :: 0 <= i < |parts| ==> c !in parts[i]
    ensures c !in Join(parts, sep)
    decreases |parts|
  {
    if |parts| >= 2 {
      JoinWithout(parts[1..], sep, c);
    }
  }

  lemma ReplaceCharAbsent(s: string, from: char, to: char)
    requires from !in s
    ensures ReplaceChar(s, from, to) == s
  {
  }

  lemma ReplaceCharAppend(a: string, b: string, from: char, to: char)
    ensures ReplaceChar(a + b, from, to) == ReplaceChar(a, from, to) + ReplaceChar(b, from, to)
  {
  }

  /** Python's `str.split()` with no argument: the maximal runs of
      non-whitespace characters, in order. */
  function Words(s: string): seq<string>
    decreases |s|
  {
    var t := TrimStart(s);
    if |t| == 0 then []
    else
      WordStep(s);
      var n := WordLength(t);
      [t[..n]] + Words(t[n..])
  }

  /** Every word is non-empty and holds no whitespace. */
  lemma {:induction false} WordsShape(s: string)
    ensures forall i :: 0 <= i < |Words(s)| ==> |Words(s)[i]| > 0 && NoSpace(Words(s)[i])
    decreases |s|
  {
    var t := TrimStart(s);
    if |t| > 0 {
      var n := WordLength(t);
      var w, rest := t[..n], Words(t[n..]);
      assert Words(s) == [w] + rest;
      WordsShape(t[n..]);
      forall i | 0 <= i < |Words(s)|
        ensures |Words(s)[i]| > 0 && NoSpace(Words(s)[i])
      {
        if i == 0 {
          WordStep(s);
        } else {
          assert Words(s)[i] == rest[i - 1];
        }
      }
    }
  }

  /** After the leading whitespace comes a non-empty word. */
  lemma WordStep(s: string)
    requires |TrimStart(s)| > 0
    ensures var t := TrimStart(s); var n := WordLength(t);
      0 < n <= |t| <= |s| && |t[..n]| > 0 && NoSpace(t[..n]) && |t[n..]| < |s|
  {
    var t := TrimStart(s);
    var n := WordLength(t);
    assert forall k :: 0 <= k < n ==> t[..n][k] == t[k];
  }

  function Concat(parts: seq<string>): string {
    if |parts| == 0 then "" else parts[0] + Concat(parts[1..])
  }

  lemma {:induction false} ConcatAppend(parts: seq<string>, last: string)
    ensures Concat(parts + [last]) == Concat(parts) + last
  {
    if |parts| > 0 {
      assert (parts + [last])[1..] == parts[1..] + [last];
      ConcatAppend(parts[1..], last);
    }
  }

  lemma {:induction false} ConcatJoin(a: seq<string>, b: seq<string>)
    ensures Concat(a + b) == Concat(a) + Concat(b)
  {
    if |a| > 0 {
      assert (a + b)[1..] == a[1..] + b;
      ConcatJoin(a[1..], b);
    } else {
      assert a + b == b;
    }
  }

  /** The characters of `s` that are not whitespace, in order. */
  function RemoveSpaces(s: string): string {
    if |s| == 0 then ""
    else if IsSpace(s[0]) then RemoveSpaces(s[1..])
    else [s[0]] + RemoveSpaces(s[1..])
  }

  lemma {:induction false} RemoveSpacesConcat(a: string, b: string)
    ensures RemoveSpaces(a + b) == RemoveSpaces(a) + RemoveSpaces(b)
  {
    if |a| > 0 {
      assert (a + b)[1..] == a[1..] + b;
      RemoveSpacesConcat(a[1..], b);
    } else {
      assert a + b == b;
    }
  }

  lemma {:induction false} RemoveSpacesOfWord(s: string)
    requires NoSpace(s)
    ensures RemoveSpaces(s) == s
  {
    if |s| > 0 {
      RemoveSpacesOfWord(s[1..]);
      assert s == [s[0]] + s[1..];
    }
  }

  lemma {:induction false} RemoveSpacesOfBlank(s: string)
    requires forall k :: 0 <= k < |s| ==> IsSpace(s[k])
    ensures RemoveSpaces(s) == ""
  {
    if |s| > 0 {
      RemoveSpacesOfBlank(s[1..]);
    }
  }

  lemma RemoveSpacesTrimStart(s: string)
    ensures RemoveSpaces(TrimStart(s)) == RemoveSpaces(s)
  {
    var t := TrimStart(s);
    var blank := s[..|s| - |t|];
    assert s == blank + t;
    RemoveSpacesConcat(blank, t);
    RemoveSpacesOfBlank(blank);
  }

  /** The words of a string, run together, are exactly its non-whitespace
      characters: `split()` loses only whitespace and never reorders. */
  lemma {:induction false} WordsCoverText(s: string)
    ensures Concat(Words(s)) == RemoveSpaces(s)
    decreases |s|
  {
    RemoveSpacesTrimStart(s);
    if |TrimStart(s)| > 0 {
      var w, rest := WordsUnfold(s);
      calc {
        Concat(Words(s));
        w + Concat(Words(rest));
        { WordsCoverText(rest); }
        w + RemoveSpaces(rest);
        { RemoveSpacesOfWord(w); }
        RemoveSpaces(w) + RemoveSpaces(rest);
        { RemoveSpacesConcat(w, rest); }
        RemoveSpaces(TrimStart(s));
      }
    } else {
      assert Words(s) == [];
    }
  }

  /** One step of `Words`: the first word, and the text after it. */
  lemma WordsUnfold(s: string) returns (w: string, rest: string)
    requires |TrimStart(s)| > 0
    ensures Words(s) == [w] + Words(rest)
    ensures TrimStart(s) == w + rest && NoSpace(w) && |rest| < |s|
  {
    var t := TrimStart(s);
    WordStep(s);
    var n := WordLength(t);
    w, rest := t[..n], t[n..];
    SliceJoin(t, n);
  }

  lemma SliceJoin(s: string, n: nat)
    requires n <= |s|
    ensures s == s[..n] + s[n..]
  {
  }

  lemma {:induction false} WordLengthOfWord(w: string, rest: string)
    requires NoSpace(w) && (|rest| == 0 || IsSpace(rest[0]))
    ensures WordLength(w + rest) == |w|
    decreases |w|
  {
    if |w| > 0 {
      assert (w + rest)[1..] == w[1..] + rest;
      WordLengthOfWord(w[1..], rest);
    } else {
      assert w + rest == rest;
    }
  }

  /** A word followed by whitespace or the end is the first word. */
  lemma WordsAfterWord(w: string, rest: string)
    requires |w| > 0 && NoSpace(w) && (|rest| == 0 || IsSpace(rest[0]))
    ensures Words(w + rest) == [w] + Words(rest)
  {
    var s := w + rest;
    assert s[0] == w[0];
    assert TrimStart(s) == s;
    WordLengthOfWord(w, rest);
    assert s[..|w|] == w && s[|w|..] == rest;
  }

  /** Leading whitespace does not change the words. */
  lemma WordsAfterSpace(c: char, rest: string)
    requires IsSpace(c)
    ensures Words([c] + rest) == Words(rest)
  {
    assert ([c] + rest)[1..] == rest;
    TrimStartSpace(c, rest);
  }

  /** Two words separated by one space. */
  lemma WordsOfPair(w1: string, w2: string)
    requires |w1| > 0 && |w2| > 0 && NoSpace(w1) && NoSpace(w2)
    ensures Words(w1 + " " + w2) == [w1] + [w2]
  {
    var q := w1 + " " + w2;
    var tail := [' '] + w2;
    assert q == w1 + tail;
    assert tail[0] == ' ';
    WordsAfterWord(w1, tail);
    WordsAfterSpace(' ', w2);
    WordsAfterWord(w2, "");
    assert w2 + "" == w2;
    assert Words("") == [];
    assert Words(w2) == [w2];
    assert Words(q) == [w1] + [w2];
  }

  /** A character that is not whitespace lies inside one of the words. */
  lemma WordHolding(s: string, c: char) returns (i: nat)
    requires c in s && !IsSpace(c)
    ensures i < |Words(s)| && c in Words(s)[i]
  {
    RemoveSpacesKeeps(s, c);
    WordsCoverText(s);
    i := ConcatMember(Words(s), c);
  }

  lemma {:induction false} RemoveSpacesKeeps(s: string, c: char)
    requires c in s && !IsSpace(c)
    ensures c in RemoveSpaces(s)
    decreases |s|
  {
    if s[0] != c {
      RemoveSpacesKeeps(s[1..], c);
    }
  }

  lemma {:induction false} ConcatMember(parts: seq<string>, c: char) returns (i: nat)
    requires c in Concat(parts)
    ensures i < |parts| && c in parts[i]
    decreases |parts|
  {
    if c in parts[0] {
      i := 0;
    } else {
      var j := ConcatMember(parts[1..], c);
      i := j + 1;
    }
  }

  /** The non-empty strings of `parts`, in order (a Python `if p` filter). */
  function NonEmpty(parts: seq<string>): (r: seq<string>)
    ensures forall i :: 0 <= i < |r| ==> |r[i]| > 0
    ensures forall p :: p in r <==> p in parts && |p| > 0
  {
    if |parts| == 0 then []
    else if |parts[0]| == 0 then NonEmpty(parts[1..])
    else [parts[0]] + NonEmpty(parts[1..])
  }

  lemma {:induction false} NonEmptyConcat(a: seq<string>, b: seq<string>)
    ensures NonEmpty(a + b) == NonEmpty(a) + NonEmpty(b)
  {
    if |a| > 0 {
      var ab := a + b;
      assert ab[0] == a[0] && ab[1..] == a[1..] + b;
      NonEmptyConcat(a[1..], b);
      var h: seq<string> := if |a[0]| == 0 then [] else [a[0]];
      assert NonEmpty(a) == h + NonEmpty(a[1..]);
      assert NonEmpty(ab) == h + NonEmpty(ab[1..]);
    } else {
      assert a + b == b;
    }
  }

  predicate IsPrefix(p: string, s: string) {
    |p| <= |s| && s[..|p|] == p
  }

  /** `t` occurs in `s` as a contiguous substring (Python's `t in s`). */
  predicate Contains(s: string, t: string)
    decreases |s|
  {
    IsPrefix(t, s) || (|s| > 0 && Contains(s[1..], t))
  }

  /** `t` occurs in `s` once ASCII case is ignored on both sides. */
  predicate ContainsIgnoringCase(s: string, t: string) {
    Contains(Lower(s), Lower(t))
  }

  /** Code-point lexicographic order, a proper prefix first. This is both
      Python's `<=` on `str` and SQLite's BINARY collation, because UTF-8
      byte order agrees with code-point order. */
  predicate LexLe(a: string, b: string)
    decreases |a|
  {
    |a| == 0 || (|b| > 0 && (a[0] < b[0] || (a[0] == b[0] && LexLe(a[1..], b[1..]))))
  }

  lemma {:induction false} LexLeReflexive(a: string)
    ensures LexLe(a, a)
  {
    if |a| > 0 {
      LexLeReflexive(a[1..]);
    }
  }

  lemma {:induction false} LexLeTotal(a: string, b: string)
    ensures LexLe(a, b) || LexLe(b, a)
  {
    if |a| > 0 && |b| > 0 && a[0] == b[0] {
      LexLeTotal(a[1..], b[1..]);
    }
  }

  lemma {:induction false} LexLeAntisymmetric(a: string, b: string)
    requires LexLe(a, b) && LexLe(b, a)
    ensures a == b
  {
    if |a| > 0 {
      LexLeAntisymmetric(a[1..], b[1..]);
      assert a == [a[0]] + a[1..] && b == [b[0]] + b[1..];
    }
  }

  lemma {:induction false} LexLeTransitive(a: string, b: string, c: string)
    requires LexLe(a, b) && LexLe(b, c)
    ensures LexLe(a, c)
  {
    if |a| > 0 && a[0] == b[0] && b[0] == c[0] {
      LexLeTransitive(a[1..], b[1..], c[1..]);
    }
  }

  /** Every occurrence of the character `from` replaced by `to`. */
  function ReplaceChar(s: string, from: char, to: char): (r: string)
    ensures |r| == |s|
    ensures forall i :: 0 <= i < |s| ==> r[i] == (if s[i] == from then to else s[i])
  {
    seq(|s|, i requires 0 <= i < |s| => if s[i] == from then to else s[i])
  }

  /** Python's `s.replace(pattern, replacement)` for a non-empty `pattern`: occurrences are
      found left to right and replaced without overlapping. */
  function Replace(s: string, pattern: string, replacement: string): string
    requires |pattern| > 0
    decreases |s|
  {
    if |s| < |pattern| then s
    else if s[..|pattern|] == pattern then replacement + Replace(s[|pattern|..], pattern, replacement)
    else [s[0]] + Replace(s[1..], pattern, replacement)
  }

  /** Without an occurrence of `pattern`, replacing it changes nothing. */
  lemma {:induction false} ReplaceAbsent(s: string, pattern: string, replacement: string)
    requires |pattern| > 0 && !Contains(s, pattern)
    ensures Replace(s, pattern, replacement) == s
    decreases |s|
  {
    if |s| >= |pattern| {
      ReplaceAbsent(s[1..], pattern, replacement);
      assert s == [s[0]] + s[1..];
    }
  }
}
