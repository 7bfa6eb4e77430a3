/** The filter-aware search behind the item command: a quote-aware
    tokenizer, a classifier that turns `key:value` tokens into filters and
    everything else into name terms, and the WHERE clause built from them. */
module SmartSearch {
  import opened Text
  import opened Optional
  import opened Sql

  // ---------------------------------------------------------------------------
  // Tokenizer

  /** The accumulated token, emitted only when it is not empty. */
  function Flush(current: string): seq<string> {
    if |current| > 0 then [current] else []
  }

  /** The tokenizer's character loop from state `inQuotes`, with `current`
      accumulated so far: a quote character flips the state and is dropped, a
      space outside quotes ends the current token, and every other character
      (a space inside quotes included) is appended to it. Whatever is
      accumulated at the end becomes the last token, so an unterminated quote
      simply runs to the end of the string. */
  function Scan(s: string, inQuotes: bool, current: string): (parts: seq<string>)
    requires '"' !in current
    ensures forall i :: 0 <= i < |parts| ==> |parts[i]| > 0 && '"' !in parts[i]
    decreases |s|
  {
    if |s| == 0 then Flush(current)
    else if s[0] == '"' then Scan(s[1..], !inQuotes, current)
    else if s[0] == ' ' && !inQuotes then Flush(current) + Scan(s[1..], inQuotes, "")
    else Scan(s[1..], inQuotes, current + [s[0]])
  }

  function Tokenize(query: string): seq<string> {
    Scan(query, false, "")
  }

  /** Every token is non-empty and free of quote characters. */
  lemma TokenizeShape(query: string)
    ensures forall i :: 0 <= i < |Tokenize(query)| ==>
      |Tokenize(query)[i]| > 0 && '"' !in Tokenize(query)[i]
  {
  }

  /** The characters that the tokenizer keeps: all but the quote characters
      and the spaces that lie outside quotes, in their original order. */
  function Kept(s: string, inQuotes: bool): string {
    if |s| == 0 then ""
    else if s[0] == '"' then Kept(s[1..], !inQuotes)
    else if s[0] == ' ' && !inQuotes then Kept(s[1..], inQuotes)
    else [s[0]] + Kept(s[1..], inQuotes)
  }

  lemma {:induction false} ScanKeeps(s: string, inQuotes: bool, current: string)
    requires '"' !in current
    ensures Concat(Scan(s, inQuotes, current)) == current + Kept(s, inQuotes)
    decreases |s|
  {
    if |s| == 0 {
      assert Concat(Flush(current)) == current;
    } else if s[0] == '"' {
      ScanKeeps(s[1..], !inQuotes, current);
    } else if s[0] == ' ' && !inQuotes {
      ScanKeeps(s[1..], inQuotes, "");
      ConcatJoin(Flush(current), Scan(s[1..], inQuotes, ""));
      assert Concat(Flush(current)) == current;
    } else {
      ScanKeeps(s[1..], inQuotes, current + [s[0]]);
      assert current + [s[0]] + Kept(s[1..], inQuotes) == current + ([s[0]] + Kept(s[1..], inQuotes));
    }
  }

  /** The tokens, run together, are the query with its quote characters and
      its unquoted spaces removed: tokenizing loses nothing else and never
      reorders. */
  lemma TokensCoverQuery(query: string)
    ensures Concat(Tokenize(query)) == Kept(query, false)
  {
    ScanKeeps(query, false, "");
  }

  lemma {:induction false} ScanWithoutQuotes(s: string, current: string)
    requires '"' !in s && '"' !in current && ' ' !in current
    ensures Scan(s, false, current) == NonEmpty(Split(current + s, ' '))
    decreases |s|
  {
    if |s| == 0 {
      assert current + s == current;
      SplitWithoutSeparator(current, ' ');
      assert NonEmpty([current]) == Flush(current);
    } else if s[0] == ' ' {
      var rest := s[1..];
      calc {
        Scan(s, false, current);
        Flush(current) + Scan(rest, false, "");
        { assert "" + rest == rest; ScanWithoutQuotes(rest, ""); }
        Flush(current) + NonEmpty(Split(rest, ' '));
        { assert NonEmpty([current]) == Flush(current); NonEmptyConcat([current], Split(rest, ' ')); }
        NonEmpty([current] + Split(rest, ' '));
        { SplitAtSeparator(current, rest, ' '); }
        NonEmpty(Split(current + [' '] + rest, ' '));
        { assert current + s == current + [' '] + rest; }
        NonEmpty(Split(current + s, ' '));
      }
    } else {
      assert s[0] != '"' && s[0] in s;
      var next := current + [s[0]];
      assert '"' !in next && ' ' !in next;
      calc {
        Scan(s, false, current);
        Scan(s[1..], false, next);
        { ScanWithoutQuotes(s[1..], next); }
        NonEmpty(Split(next + s[1..], ' '));
        { assert next + s[1..] == current + s; }
        NonEmpty(Split(current + s, ' '));
      }
    }
  }

  /** Without quote characters the tokenizer is Python's
      `[p for p in query.split(' ') if p]`: it splits on the space character
      only, and tabs or newlines stay inside tokens. */
  lemma TokenizeWithoutQuotes(query: string)
    requires '"' !in query
    ensures Tokenize(query) == NonEmpty(Split(query, ' '))
  {
    var none: string := [];
    assert none + query == query;
    ScanWithoutQuotes(query, none);
  }

  lemma {:induction false} ScanInsideQuotes(s: string, current: string)
    requires '"' !in s && '"' !in current
    ensures Scan(s, true, current) == Flush(current + s)
    decreases |s|
  {
    if |s| == 0 {
      assert current + s == current;
    } else {
      ScanInsideQuotes(s[1..], current + [s[0]]);
      assert current + s == (current + [s[0]]) + s[1..];
    }
  }

  /** A quote that is never closed makes the rest of the query one token,
      spaces included. */
  lemma UnterminatedQuote(rest: string)
    requires '"' !in rest
    ensures Tokenize("\"" + rest) == Flush(rest)
  {
    assert ("\"" + rest)[1..] == rest;
    assert "" + rest == rest;
    ScanInsideQuotes(rest, "");
  }

  /** Inside quotes, everything up to the closing quote joins the current
      token, spaces included, and scanning resumes outside quotes. */
  lemma {:induction false} ScanQuotedRun(phrase: string, rest: string, current: string)
    requires '"' !in phrase && '"' !in current
    ensures Scan(phrase + "\"" + rest, true, current) == Scan(rest, false, current + phrase)
    decreases |phrase|
  {
    if |phrase| == 0 {
      assert phrase + "\"" + rest == "\"" + rest;
      assert ("\"" + rest)[1..] == rest;
      assert current + phrase == current;
    } else {
      assert phrase[0] in phrase;
      ScanQuotedRun(phrase[1..], rest, current + [phrase[0]]);
      assert (phrase + "\"" + rest)[1..] == phrase[1..] + "\"" + rest;
      assert current + phrase == current + [phrase[0]] + phrase[1..];
    }
  }

  /** A quoted phrase becomes one plain token: the quote characters are gone
      and the space inside is kept. */
  lemma QuotedPhraseToken()
    ensures Tokenize("\"light dagger\"") == ["light dagger"]
  {
    var q := "\"light dagger\"";
    assert q == "\"" + ("light dagger" + "\"" + "");
    assert q[1..] == "light dagger" + "\"" + "";
    ScanQuotedRun("light dagger", "", "");
    assert "" + "light dagger" == "light dagger";
  }

  // ---------------------------------------------------------------------------
  // Classifier

  /** The parsed query. `exactPhrases` is filled only from tokens that both
      start and end with a quote character. */
  datatype Filters = Filters(
    nameTerms: seq<string>,
    rarity: Option<string>,
    category: Option<string>,
    voi: Option<bool>,
    subcategory: Option<string>,
    exactPhrases: seq<string>)

  const NoFilters: Filters := Filters([], None, None, None, None, [])

  /** The index of the first colon. */
  function ColonIndex(s: string): (i: nat)
    requires ':' in s
    ensures i < |s| && s[i] == ':' && ':' !in s[..i]
  {
    if s[0] == ':' then 0
    else
      assert s == [s[0]] + s[1..];
      var i := 1 + ColonIndex(s[1..]);
      assert s[..i] == [s[0]] + s[1..][..i - 1];
      i
  }

  /** The key of `part.split(':', 1)`, trimmed and lower-cased. */
  function KeyOf(part: string): string
    requires ':' in part
  {
    Lower(Strip(part[..ColonIndex(part)]))
  }

  /** The value of `part.split(':', 1)`, trimmed and lower-cased. */
  function ValueOf(part: string): string
    requires ':' in part
  {
    Lower(Strip(part[ColonIndex(part) + 1..]))
  }

  /** The voi values read as "yes". */
  predicate IsTruthy(value: string) {
    value == "yes" || value == "true" || value == "1"
  }

  datatype FilterKey = RarityKey | CategoryKey | VoiKey | SubcategoryKey

  /** The recognised keys and their aliases; any other key is dropped. */
  function KeyKind(key: string): Option<FilterKey> {
    if key == "rarity" then Some(RarityKey)
    else if key == "type" || key == "category" then Some(CategoryKey)
    else if key == "voi" then Some(VoiKey)
    else if key == "sub" || key == "subcategory" then Some(SubcategoryKey)
    else None
  }

  predicate QuoteWrapped(part: string) {
    |part| > 0 && part[0] == '"' && part[|part| - 1] == '"'
  }

  /** What one token contributes to the filters. */
  datatype Token =
    | Setting(key: FilterKey, value: string)  // a recognised `key:value`
    | Unrecognised                            // a `key:value` with any other key
    | Phrase(text: string)                    // a quote-wrapped token, quotes cut off
    | Term(text: string)                      // anything else

  function ParsePart(part: string): Token {
    if ':' in part then
      match KeyKind(KeyOf(part))
      case Some(k) => Setting(k, ValueOf(part))
      case None => Unrecognised
    else if QuoteWrapped(part) then Phrase(if |part| >= 2 then part[1..|part| - 1] else "")
    else Term(part)
  }

  /** One step of the classification loop: a setting overwrites its filter
      (voi stores whether the value reads as "yes"), a phrase or a term is
      appended to its list. */
  function Apply(f: Filters, t: Token): Filters {
    match t
    case Setting(RarityKey, v) => f.(rarity := Some(v))
    case Setting(CategoryKey, v) => f.(category := Some(v))
    case Setting(VoiKey, v) => f.(voi := Some(IsTruthy(v)))
    case Setting(SubcategoryKey, v) => f.(subcategory := Some(v))
    case Unrecognised => f
    case Phrase(p) => f.(exactPhrases := f.exactPhrases + [p])
    case Term(p) => f.(nameTerms := f.nameTerms + [p])
  }

  /** Each token is read on its own... */
  function ParseAll(parts: seq<string>): (ts: seq<Token>)
    ensures |ts| == |parts|
    ensures forall i :: 0 <= i < |parts| ==> ts[i] == ParsePart(parts[i])
  {
    seq(|parts|, i requires 0 <= i < |parts| => ParsePart(parts[i]))
  }

  /** ... and the classification loop applies the tokens in order. */
  function Fold(ts: seq<Token>): Filters {
    if |ts| == 0 then NoFilters
    else Apply(Fold(ts[..|ts| - 1]), ts[|ts| - 1])
  }

  function Classify(parts: seq<string>): Filters {
    Fold(ParseAll(parts))
  }

  lemma FoldSnoc(ts: seq<Token>, t: Token)
    ensures Fold(ts + [t]) == Apply(Fold(ts), t)
  {
    assert (ts + [t])[..|ts|] == ts;
  }

  lemma ParseAllConcat(a: seq<string>, b: seq<string>)
    ensures ParseAll(a + b) == ParseAll(a) + ParseAll(b)
  {
  }

  /** The token is a `key:value` filter that sets `k`. */
  predicate Sets(part: string, k: FilterKey) {
    ':' in part && KeyKind(KeyOf(part)) == Some(k)
  }

  lemma ParseSetting(part: string, k: FilterKey)
    ensures Sets(part, k) <==> ParsePart(part).Setting? && ParsePart(part).key == k
    ensures Sets(part, k) ==> ParsePart(part) == Setting(k, ValueOf(part))
  {
  }

  /** Without quote characters a token is never a phrase, and it is a name
      term exactly when it has no colon. */
  lemma ParseQuoteFree(part: string)
    requires '"' !in part
    ensures !ParsePart(part).Phrase?
    ensures ParsePart(part).Term? <==> ':' !in part
    ensures ParsePart(part).Term? ==> ParsePart(part).text == part
  {
    if |part| > 0 {
      assert part[0] in part;
    }
  }

  predicate SetsKey(t: Token, k: FilterKey) {
    t.Setting? && t.key == k
  }

  lemma ApplyOtherToken(f: Filters, t: Token, k: FilterKey)
    requires !SetsKey(t, k)
    ensures k == RarityKey ==> Apply(f, t).rarity == f.rarity
    ensures k == CategoryKey ==> Apply(f, t).category == f.category
    ensures k == VoiKey ==> Apply(f, t).voi == f.voi
    ensures k == SubcategoryKey ==> Apply(f, t).subcategory == f.subcategory
  {
  }

  lemma {:induction false} FoldLastWriteWins(ts: seq<Token>, k: FilterKey, i: nat)
    requires i < |ts| && SetsKey(ts[i], k)
    requires forall j :: i < j < |ts| ==> !SetsKey(ts[j], k)
    ensures k == RarityKey ==> Fold(ts).rarity == Some(ts[i].value)
    ensures k == CategoryKey ==> Fold(ts).category == Some(ts[i].value)
    ensures k == VoiKey ==> Fold(ts).voi == Some(IsTruthy(ts[i].value))
    ensures k == SubcategoryKey ==> Fold(ts).subcategory == Some(ts[i].value)
    decreases |ts|
  {
    var init := ts[..|ts| - 1];
    if i < |ts| - 1 {
      FoldLastWriteWins(init, k, i);
      ApplyOtherToken(Fold(init), ts[|ts| - 1], k);
    }
  }

  lemma {:induction false} FoldUnset(ts: seq<Token>, k: FilterKey)
    requires forall j :: 0 <= j < |ts| ==> !SetsKey(ts[j], k)
    ensures k == RarityKey ==> Fold(ts).rarity.None?
    ensures k == CategoryKey ==> Fold(ts).category.None?
    ensures k == VoiKey ==> Fold(ts).voi.None?
    ensures k == SubcategoryKey ==> Fold(ts).subcategory.None?
    decreases |ts|
  {
    if |ts| > 0 {
      var init := ts[..|ts| - 1];
      FoldUnset(init, k);
      ApplyOtherToken(Fold(init), ts[|ts| - 1], k);
    }
  }

  /** Last write wins: the filter `k` holds the value of the last token that
      sets it, whatever earlier tokens set it to; voi holds whether that
      value reads as "yes" (yes, true or 1). */
  lemma ClassifyLastWriteWins(parts: seq<string>, k: FilterKey, i: nat)
    requires i < |parts| && Sets(parts[i], k)
    requires forall j :: i < j < |parts| ==> !Sets(parts[j], k)
    ensures k == RarityKey ==> Classify(parts).rarity == Some(ValueOf(parts[i]))
    ensures k == CategoryKey ==> Classify(parts).category == Some(ValueOf(parts[i]))
    ensures k == VoiKey ==> Classify(parts).voi == Some(IsTruthy(ValueOf(parts[i])))
    ensures k == SubcategoryKey ==> Classify(parts).subcategory == Some(ValueOf(parts[i]))
  {
    var ts := ParseAll(parts);
    ParseSetting(parts[i], k);
    forall j | i < j < |ts|
      ensures !SetsKey(ts[j], k)
    {
      ParseSetting(parts[j], k);
    }
    FoldLastWriteWins(ts, k, i);
  }

  /** A filter that no token sets stays unset. */
  lemma ClassifyUnset(parts: seq<string>, k: FilterKey)
    requires forall j :: 0 <= j < |parts| ==> !Sets(parts[j], k)
    ensures k == RarityKey ==> Classify(parts).rarity.None?
    ensures k == CategoryKey ==> Classify(parts).category.None?
    ensures k == VoiKey ==> Classify(parts).voi.None?
    ensures k == SubcategoryKey ==> Classify(parts).subcategory.None?
  {
    var ts := ParseAll(parts);
    forall j | 0 <= j < |ts|
      ensures !SetsKey(ts[j], k)
    {
      ParseSetting(parts[j], k);
    }
    FoldUnset(ts, k);
  }

  lemma {:induction false} FoldDropsUnrecognised(a: seq<Token>, b: seq<Token>)
    ensures Fold(a + [Unrecognised] + b) == Fold(a + b)
    decreases |b|
  {
    if |b| == 0 {
      assert a + [Unrecognised] + b == a + [Unrecognised];
      assert a + b == a;
      FoldSnoc(a, Unrecognised);
    } else {
      var b' := b[..|b| - 1];
      var last := b[|b| - 1];
      FoldDropsUnrecognised(a, b');
      assert a + [Unrecognised] + b == (a + [Unrecognised] + b') + [last];
      assert a + b == (a + b') + [last];
      FoldSnoc(a + [Unrecognised] + b', last);
      FoldSnoc(a + b', last);
    }
  }

  /** A token with an unrecognised key contributes nothing: dropping it from
      anywhere in the query gives the same filters. */
  lemma UnrecognisedDropped(a: seq<string>, p: string, b: seq<string>)
    requires ':' in p && KeyKind(KeyOf(p)).None?
    ensures Classify(a + [p] + b) == Classify(a + b)
  {
    ParseAllConcat(a + [p], b);
    ParseAllConcat(a, [p]);
    ParseAllConcat(a, b);
    assert ParseAll([p]) == [Unrecognised];
    FoldDropsUnrecognised(ParseAll(a), ParseAll(b));
  }

  /** The texts of the term tokens, in order. */
  function TermTexts(ts: seq<Token>): seq<string> {
    if |ts| == 0 then []
    else TermTexts(ts[..|ts| - 1]) + (if ts[|ts| - 1].Term? then [ts[|ts| - 1].text] else [])
  }

  lemma {:induction false} FoldTerms(ts: seq<Token>)
    requires forall i :: 0 <= i < |ts| ==> !ts[i].Phrase?
    ensures Fold(ts).nameTerms == TermTexts(ts)
    ensures Fold(ts).exactPhrases == []
    decreases |ts|
  {
    if |ts| > 0 {
      FoldTerms(ts[..|ts| - 1]);
    }
  }

  /** The tokens without a colon, in order. */
  function ColonFree(parts: seq<string>): (r: seq<string>)
    ensures forall t :: t in r <==> t in parts && ':' !in t
  {
    if |parts| == 0 then []
    else if ':' in parts[0] then ColonFree(parts[1..])
    else [parts[0]] + ColonFree(parts[1..])
  }

  lemma {:induction false} ColonFreeAppend(parts: seq<string>, last: string)
    ensures ColonFree(parts + [last]) == ColonFree(parts) + (if ':' in last then [] else [last])
  {
    if |parts| > 0 {
      assert (parts + [last])[1..] == parts[1..] + [last];
      ColonFreeAppend(parts[1..], last);
    } else {
      assert parts + [last] == [last];
    }
  }

  lemma {:induction false} TermTextsOfQuoteFree(parts: seq<string>)
    requires forall i :: 0 <= i < |parts| ==> '"' !in parts[i]
    ensures TermTexts(ParseAll(parts)) == ColonFree(parts)
    decreases |parts|
  {
    if |parts| > 0 {
      var init := parts[..|parts| - 1];
      var last := parts[|parts| - 1];
      assert parts == init + [last];
      assert forall i :: 0 <= i < |init| ==> init[i] == parts[i];
      assert '"' !in last;
      ParseQuoteFree(last);
      var t := ParsePart(last);
      calc {
        TermTexts(ParseAll(parts));
        { ParseAllConcat(init, [last]); assert ParseAll([last]) == [t]; }
        TermTexts(ParseAll(init) + [t]);
        { TermTextsSnoc(ParseAll(init), t); }
        TermTexts(ParseAll(init)) + (if t.Term? then [t.text] else []);
        { TermTextsOfQuoteFree(init); }
        ColonFree(init) + (if ':' in last then [] else [last]);
        { ColonFreeAppend(init, last); }
        ColonFree(parts);
      }
    }
  }

  lemma TermTextsSnoc(ts: seq<Token>, t: Token)
    ensures TermTexts(ts + [t]) == TermTexts(ts) + (if t.Term? then [t.text] else [])
  {
    assert (ts + [t])[..|ts|] == ts;
  }

  /** On tokens without quote characters (which is all the tokenizer emits)
      every colon-free token becomes a name term, in order, and the phrase
      list stays empty. */
  lemma ClassifyTerms(parts: seq<string>)
    requires forall i :: 0 <= i < |parts| ==> '"' !in parts[i]
    ensures Classify(parts).nameTerms == ColonFree(parts)
    ensures Classify(parts).exactPhrases == []
  {
    var ts := ParseAll(parts);
    forall i | 0 <= i < |ts|
      ensures !ts[i].Phrase?
    {
      ParseQuoteFree(parts[i]);
    }
    FoldTerms(ts);
    TermTextsOfQuoteFree(parts);
  }

  /** The exact-phrase branch is unreachable: the tokenizer has already
      removed every quote character, so no query produces a phrase. */
  lemma PhrasesNeverParsed(query: string)
    ensures Classify(Tokenize(query)).exactPhrases == []
    ensures Classify(Tokenize(query)).nameTerms == ColonFree(Tokenize(query))
  {
    TokenizeShape(query);
    ClassifyTerms(Tokenize(query));
  }

  // ---------------------------------------------------------------------------
  // WHERE clause

  /** Python truthiness of an optional string filter: set and non-empty. */
  predicate Truthy(o: Option<string>) {
    o.Some? && o.value != ""
  }

  /** `(name LIKE ? OR subcategories LIKE ?)` for one term or phrase. */
  function NameOrSubcategory(t: string): Expr {
    AnyOf([ColumnLike(Name, false, Surround(t)), ColumnLike(Subcategories, false, Surround(t))])
  }

  function NameOrSubcategoryAll(terms: seq<string>): (es: seq<Expr>)
    ensures |es| == |terms|
    ensures forall i :: 0 <= i < |terms| ==> es[i] == NameOrSubcategory(terms[i])
  {
    seq(|terms|, i requires 0 <= i < |terms| => NameOrSubcategory(terms[i]))
  }

  /** The term group: one parenthesised OR over all name terms. */
  function TermGroup(f: Filters): seq<Fragment> {
    if |f.nameTerms| > 0 then [Condition(AnyOf(NameOrSubcategoryAll(f.nameTerms)))] else []
  }

  /** The phrase group, preceded by the literal keyword AND when the term
      group is present. */
  function PhraseGroup(f: Filters): seq<Fragment> {
    if |f.exactPhrases| > 0 then
      (if |f.nameTerms| > 0 then [AndKeyword] else []) + [Condition(AnyOf(NameOrSubcategoryAll(f.exactPhrases)))]
    else []
  }

  function RarityGroup(f: Filters): seq<Fragment> {
    if Truthy(f.rarity) then [Condition(LowerEquals(Rarity, f.rarity.value))] else []
  }

  function CategoryGroup(f: Filters): seq<Fragment> {
    if Truthy(f.category) then [Condition(ColumnLike(Category, true, Surround(f.category.value)))] else []
  }

  function VoiGroup(f: Filters): seq<Fragment> {
    if f.voi.Some? then [Condition(VoiIs(f.voi.value))] else []
  }

  function SubcategoryGroup(f: Filters): seq<Fragment> {
    if Truthy(f.subcategory) then [Condition(ColumnLike(Subcategories, true, Surround(f.subcategory.value)))]
    else []
  }

  /** The WHERE fragments in the order the code appends them. */
  function SmartFragments(f: Filters): seq<Fragment> {
    TermGroup(f) + PhraseGroup(f) + RarityGroup(f) + CategoryGroup(f) + VoiGroup(f) + SubcategoryGroup(f)
  }

  /** The fragments joined with AND, or the always-true `1=1` when there
      are none. */
  function SmartWhere(f: Filters): Outcome<Expr> {
    var frags := SmartFragments(f);
    if |frags| == 0 then Ok(Always) else JoinConditions(frags, true)
  }

  /** What the filters mean, stated with substring tests: some name term
      occurs in the name or the subcategories (category is not searched), the
      lower-cased rarity equals the rarity filter, the category and
      subcategories contain their filters, and voi equals its filter. Unset
      and empty filters impose nothing. */
  predicate SmartMatches(f: Filters, it: Item) {
    && (|f.nameTerms| == 0
        || exists i :: 0 <= i < |f.nameTerms|
             && (ContainsIgnoringCase(it.name, f.nameTerms[i])
                 || ContainsIgnoringCase(it.subcategories, f.nameTerms[i])))
    && (!Truthy(f.rarity) || Lower(it.rarity) == f.rarity.value)
    && (!Truthy(f.category) || ContainsIgnoringCase(it.category, f.category.value))
    && (f.voi.None? || it.voi == f.voi.value)
    && (!Truthy(f.subcategory) || ContainsIgnoringCase(it.subcategories, f.subcategory.value))
  }

  /** No name term and no filter value carries a LIKE wildcard. */
  predicate WildcardFreeFilters(f: Filters) {
    && (forall i :: 0 <= i < |f.nameTerms| ==> WildcardFree(f.nameTerms[i]))
    && (f.category.Some? ==> WildcardFree(f.category.value))
    && (f.subcategory.Some? ==> WildcardFree(f.subcategory.value))
  }

  predicate AllHold(frags: seq<Fragment>, it: Item)
    requires AndKeyword !in frags
  {
    forall i :: 0 <= i < |frags| ==> Eval(frags[i].expr, it)
  }

  lemma AllHoldConcat(a: seq<Fragment>, b: seq<Fragment>, it: Item)
    requires AndKeyword !in a && AndKeyword !in b
    ensures AndKeyword !in a + b
    ensures AllHold(a + b, it) <==> AllHold(a, it) && AllHold(b, it)
  {
    var ab := a + b;
    assert forall i :: 0 <= i < |a| ==> ab[i] == a[i];
    assert forall i :: 0 <= i < |b| ==> ab[|a| + i] == b[i];
    if AllHold(a, it) && AllHold(b, it) {
      forall i | 0 <= i < |ab|
        ensures Eval(ab[i].expr, it)
      {
        if i >= |a| {
          assert ab[i] == b[i - |a|];
        }
      }
    }
  }

  /** One term group matches a row when the term occurs in its name or its
      subcategories, ignoring case. */
  lemma NameOrSubcategoryMeaning(t: string, it: Item)
    requires WildcardFree(t)
    ensures Eval(NameOrSubcategory(t), it) <==>
      ContainsIgnoringCase(it.name, t) || ContainsIgnoringCase(it.subcategories, t)
  {
    var ds := [ColumnLike(Name, false, Surround(t)), ColumnLike(Subcategories, false, Surround(t))];
    LikeSubstring(t, it.name);
    LikeSubstring(t, it.subcategories);
    assert Eval(AnyOf(ds), it) <==> Eval(ds[0], it) || Eval(ds[1], it);
  }

  lemma TermGroupMeaning(terms: seq<string>, it: Item)
    requires forall i :: 0 <= i < |terms| ==> WildcardFree(terms[i])
    ensures Eval(AnyOf(NameOrSubcategoryAll(terms)), it) <==>
      exists i :: 0 <= i < |terms|
        && (ContainsIgnoringCase(it.name, terms[i]) || ContainsIgnoringCase(it.subcategories, terms[i]))
  {
    var es := NameOrSubcategoryAll(terms);
    forall i | 0 <= i < |terms|
      ensures Eval(es[i], it) <==>
        ContainsIgnoringCase(it.name, terms[i]) || ContainsIgnoringCase(it.subcategories, terms[i])
    {
      NameOrSubcategoryMeaning(terms[i], it);
    }
  }

  lemma LoweredLikeMeaning(c: Column, v: string, it: Item)
    requires WildcardFree(v)
    ensures Eval(ColumnLike(c, true, Surround(v)), it) <==> ContainsIgnoringCase(Field(it, c), v)
  {
    LikeIgnoresTextCase(Surround(v), Field(it, c));
    LikeSubstring(v, Field(it, c));
  }

  lemma AllHoldSingle(e: Expr, it: Item)
    ensures AllHold([Condition(e)], it) <==> Eval(e, it)
  {
    assert [Condition(e)][0].expr == e;
  }

  /** The conditions of each group, one filter at a time. */
  lemma GroupsMeaning(f: Filters, it: Item)
    requires WildcardFreeFilters(f)
    ensures AllHold(TermGroup(f), it) <==>
      |f.nameTerms| == 0
      || exists i :: 0 <= i < |f.nameTerms|
           && (ContainsIgnoringCase(it.name, f.nameTerms[i])
               || ContainsIgnoringCase(it.subcategories, f.nameTerms[i]))
    ensures AllHold(RarityGroup(f), it) <==> !Truthy(f.rarity) || Lower(it.rarity) == f.rarity.value
    ensures AllHold(CategoryGroup(f), it) <==>
      !Truthy(f.category) || ContainsIgnoringCase(it.category, f.category.value)
    ensures AllHold(VoiGroup(f), it) <==> f.voi.None? || it.voi == f.voi.value
    ensures AllHold(SubcategoryGroup(f), it) <==>
      !Truthy(f.subcategory) || ContainsIgnoringCase(it.subcategories, f.subcategory.value)
  {
    TermGroupHolds(f, it);
    RarityGroupHolds(f, it);
    CategoryGroupHolds(f, it);
    VoiGroupHolds(f, it);
    SubcategoryGroupHolds(f, it);
  }

  lemma TermGroupHolds(f: Filters, it: Item)
    requires WildcardFreeFilters(f)
    ensures AllHold(TermGroup(f), it) <==>
      |f.nameTerms| == 0
      || exists i :: 0 <= i < |f.nameTerms|
           && (ContainsIgnoringCase(it.name, f.nameTerms[i])
               || ContainsIgnoringCase(it.subcategories, f.nameTerms[i]))
  {
    if |f.nameTerms| > 0 {
      AllHoldSingle(AnyOf(NameOrSubcategoryAll(f.nameTerms)), it);
      TermGroupMeaning(f.nameTerms, it);
    }
  }

  lemma RarityGroupHolds(f: Filters, it: Item)
    ensures AllHold(RarityGroup(f), it) <==> !Truthy(f.rarity) || Lower(it.rarity) == f.rarity.value
  {
    if Truthy(f.rarity) {
      AllHoldSingle(LowerEquals(Rarity, f.rarity.value), it);
    }
  }

  lemma CategoryGroupHolds(f: Filters, it: Item)
    requires WildcardFreeFilters(f)
    ensures AllHold(CategoryGroup(f), it) <==>
      !Truthy(f.category) || ContainsIgnoringCase(it.category, f.category.value)
  {
    if Truthy(f.category) {
      AllHoldSingle(ColumnLike(Category, true, Surround(f.category.value)), it);
      LoweredLikeMeaning(Category, f.category.value, it);
    }
  }

  lemma VoiGroupHolds(f: Filters, it: Item)
    ensures AllHold(VoiGroup(f), it) <==> f.voi.None? || it.voi == f.voi.value
  {
    if f.voi.Some? {
      AllHoldSingle(VoiIs(f.voi.value), it);
    }
  }

  lemma SubcategoryGroupHolds(f: Filters, it: Item)
    requires WildcardFreeFilters(f)
    ensures AllHold(SubcategoryGroup(f), it) <==>
      !Truthy(f.subcategory) || ContainsIgnoringCase(it.subcategories, f.subcategory.value)
  {
    if Truthy(f.subcategory) {
      AllHoldSingle(ColumnLike(Subcategories, true, Surround(f.subcategory.value)), it);
      LoweredLikeMeaning(Subcategories, f.subcategory.value, it);
    }
  }

  /** Without phrases no fragment is the bare keyword AND. */
  lemma NoPhrasesNoStrayAnd(f: Filters)
    requires f.exactPhrases == []
    ensures AndKeyword !in SmartFragments(f)
  {
    var terms, rarity, category, voi, sub :=
      TermGroup(f), RarityGroup(f), CategoryGroup(f), VoiGroup(f), SubcategoryGroup(f);
    assert PhraseGroup(f) == [];
    assert SmartFragments(f) == terms + rarity + category + voi + sub;
  }

  lemma SmartWhereMeaningAt(f: Filters, it: Item)
    requires f.exactPhrases == [] && WildcardFreeFilters(f)
    ensures AndKeyword !in SmartFragments(f)
    ensures AllHold(SmartFragments(f), it) <==> SmartMatches(f, it)
  {
    var terms, rarity, category, voi, sub :=
      TermGroup(f), RarityGroup(f), CategoryGroup(f), VoiGroup(f), SubcategoryGroup(f);
    assert PhraseGroup(f) == [];
    assert SmartFragments(f) == terms + rarity + category + voi + sub;
    AllHoldConcat(terms, rarity, it);
    AllHoldConcat(terms + rarity, category, it);
    AllHoldConcat(terms + rarity + category, voi, it);
    AllHoldConcat(terms + rarity + category + voi, sub, it);
    GroupsMeaning(f, it);
  }

  /** Without phrases, the WHERE clause is well formed and a row passes it
      exactly when it matches the filters; with no conditions at all this is
      every row (the `1=1` case). */
  lemma SmartWhereMeaning(f: Filters)
    requires f.exactPhrases == [] && WildcardFreeFilters(f)
    ensures SmartWhere(f).Ok?
    ensures forall it :: Eval(SmartWhere(f).value, it) <==> SmartMatches(f, it)
  {
    forall it
      ensures Eval(SmartWhere(f).value, it) <==> SmartMatches(f, it)
    {
      SmartWhereMeaningAt(f, it);
    }
  }

  /** As written, a query with both name terms and phrases would splice the
      string "AND" into the list joined with " AND ", which SQLite rejects. */
  lemma TermsWithPhrasesFail(f: Filters)
    requires |f.nameTerms| > 0 && |f.exactPhrases| > 0
    ensures SmartWhere(f) == Fails(StrayAnd)
  {
    assert SmartFragments(f)[1] == AndKeyword;
  }

  /** The result of `smart_search`: the rows, and the parsed filters the
      caller uses to describe the search. */
  datatype SmartResult = SmartResult(rows: Outcome<seq<Item>>, filters: Filters)

  function Search(catalog: seq<Item>, query: string): SmartResult {
    var f := Classify(Tokenize(query));
    match SmartWhere(f)
    case Ok(e) => SmartResult(Ok(SelectLimit(catalog, e, ByRankThenName, 30)), f)
    case Fails(err) => SmartResult(Fails(err), f)
  }

  /** Smart search never fails, returns at most 30 rows ordered by rarity
      rank then name, and (for wildcard-free terms and values) returns the
      first 30 of the rows that match the parsed filters, each once. */
  lemma SearchMeaning(catalog: seq<Item>, query: string)
    ensures Search(catalog, query).rows.Ok?
    ensures Search(catalog, query).filters == Classify(Tokenize(query))
    ensures |Search(catalog, query).rows.value| <= 30
    ensures SortedBy(ByRankThenName, Search(catalog, query).rows.value)
    ensures WildcardFreeFilters(Search(catalog, query).filters) ==>
      var f := Search(catalog, query).filters;
      FirstMatches(ByRankThenName, catalog, Search(catalog, query).rows.value, it => SmartMatches(f, it), 30)
  {
    var f := Classify(Tokenize(query));
    PhrasesNeverParsed(query);
    NoPhrasesNoStrayAnd(f);
    if WildcardFreeFilters(f) {
      SmartWhereMeaning(f);
      SelectLimitFirstMatches(catalog, SmartWhere(f).value, it => SmartMatches(f, it), ByRankThenName, 30);
    }
  }

  /** The worked example: the filters rarity legendary and category weapon
      match the legendary weapon and not the normal tool. */
  lemma LegendaryWeaponExample()
    ensures
      var f := NoFilters.(rarity := Some("legendary"), category := Some("weapon"));
      && SmartMatches(f, Item("Ember Blade", "weapon", "fire", "legendary", false, ""))
      && !SmartMatches(f, Item("Rusty Dagger", "tool", "", "normal", false, ""))
  {
    LowerOfLowercase("legendary");
    LowerOfLowercase("weapon");
    LowerOfLowercase("normal");
    assert IsPrefix("weapon", "weapon");
    assert "normal" != "legendary";
  }
}
