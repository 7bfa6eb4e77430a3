/** The item command: it picks a search mode from the shape of the query,
    runs the search, and lays the results out in one message or in pages of
    ten. Also the VOI listing. */
module ItemCommand {
  import opened Text
  import opened Optional
  import opened Sql
  import opened SmartSearch
  import opened TagSearch

  // ---------------------------------------------------------------------------
  // Mode dispatch

  datatype Mode =
    | Smart                        // filters or quotes present
    | AllTags(tags: seq<string>)   // '+' separated, every tag required
    | AnyTags(tags: seq<string>)   // ',' '/' or space separated, any tag suffices
    | Single(term: string)         // one term

  /** A whitespace chunk that calls for smart search: it has a colon, or it
      both starts and ends with a quote character (a lone quote does). */
  predicate IsFilterChunk(part: string) {
    ':' in part || (|part| > 0 && part[0] == '"' && part[|part| - 1] == '"')
  }

  /** Some whitespace chunk calls for smart search. */
  predicate AnyFilterChunk(words: seq<string>) {
    exists i :: 0 <= i < |words| && IsFilterChunk(words[i])
  }

  predicate HasFilters(query: string) {
    AnyFilterChunk(Words(query))
  }

  /** Each piece trimmed, and the pieces that trim to nothing dropped. */
  function NonEmptyStripped(parts: seq<string>): seq<string> {
    if |parts| == 0 then []
    else
      var t := Strip(parts[0]);
      if t == "" then NonEmptyStripped(parts[1..]) else [t] + NonEmptyStripped(parts[1..])
  }

  /** A tag is exactly a non-empty trimmed piece: every tag is trimmed and
      non-empty, and every piece that trims to something gives a tag. */
  lemma NonEmptyStrippedMeaning(parts: seq<string>)
    ensures forall t :: t in NonEmptyStripped(parts) ==> |t| > 0 && Trimmed(t)
    ensures forall i :: 0 <= i < |parts| && Strip(parts[i]) != "" ==> Strip(parts[i]) in NonEmptyStripped(parts)
  {
    NonEmptyStrippedShape(parts);
    forall i | 0 <= i < |parts| && Strip(parts[i]) != ""
      ensures Strip(parts[i]) in NonEmptyStripped(parts)
    {
      NonEmptyStrippedKeeps(parts, i);
    }
  }

  lemma {:induction false} NonEmptyStrippedShape(parts: seq<string>)
    ensures forall t :: t in NonEmptyStripped(parts) ==> |t| > 0 && Trimmed(t)
    decreases |parts|
  {
    if |parts| > 0 {
      var t := Strip(parts[0]);
      var rest := NonEmptyStripped(parts[1..]);
      NonEmptyStrippedShape(parts[1..]);
      assert NonEmptyStripped(parts) == (if t == "" then [] else [t]) + rest;
    }
  }

  lemma {:induction false} NonEmptyStrippedKeeps(parts: seq<string>, i: nat)
    requires i < |parts| && Strip(parts[i]) != ""
    ensures Strip(parts[i]) in NonEmptyStripped(parts)
    decreases |parts|
  {
    var t := Strip(parts[0]);
    var rest := NonEmptyStripped(parts[1..]);
    assert NonEmptyStripped(parts) == (if t == "" then [] else [t]) + rest;
    if i > 0 {
      assert parts[i] == parts[1..][i - 1];
      NonEmptyStrippedKeeps(parts[1..], i - 1);
    }
  }

  /** Every tag is the trimmed form of one of the pieces. */
  lemma {:induction false} TagSource(parts: seq<string>, t: string) returns (p: string)
    requires t in NonEmptyStripped(parts)
    ensures p in parts && Strip(p) == t
    decreases |parts|
  {
    if Strip(parts[0]) == t {
      p := parts[0];
    } else {
      p := TagSource(parts[1..], t);
    }
  }

  /** A tag holds only characters of the pieces it came from. */
  lemma TagLacks(parts: seq<string>, t: string, c: char)
    requires t in NonEmptyStripped(parts)
    requires forall p :: p in parts ==> c !in p
    ensures c !in t
  {
    var p := TagSource(parts, t);
    StripInside(p, t);
  }

  /** The mode for a query, or `None` when the trimmed query is shorter than
      two characters. The tests run on the trimmed query in this order:
      filters, '+', ',' or '/', a space, and otherwise a single term. */
  function ChooseMode(query: string): Option<Mode> {
    var q := Strip(query);
    if |q| < 2 then None
    else if HasFilters(q) then Some(Smart)
    else if '+' in q then Some(AllTags(NonEmptyStripped(Split(q, '+'))))
    else if ',' in q || '/' in q then Some(AnyTags(NonEmptyStripped(Split(ReplaceChar(q, '/', ','), ','))))
    else if ' ' in q then Some(AnyTags(NonEmptyStripped(Words(q))))
    else Some(Single(q))
  }

  /** Whitespace-separated words are already trimmed and non-empty, so the
      space mode's tags are exactly the words of the query. */
  lemma {:induction false} WordsAreStripped(words: seq<string>)
    requires forall i :: 0 <= i < |words| ==> |words[i]| > 0 && NoSpace(words[i])
    ensures NonEmptyStripped(words) == words
    decreases |words|
  {
    if |words| > 0 {
      StripWord(words[0]);
      WordsAreStripped(words[1..]);
    }
  }

  /** The AND tags: trimmed, non-empty, without '+'. */
  lemma PlusTags(q: string)
    ensures forall t :: t in NonEmptyStripped(Split(q, '+')) ==> |t| > 0 && Trimmed(t) && '+' !in t
  {
    var parts := Split(q, '+');
    NonEmptyStrippedMeaning(parts);
    forall t | t in NonEmptyStripped(parts)
      ensures '+' !in t
    {
      TagLacks(parts, t, '+');
    }
  }

  /** The comma/slash OR tags: trimmed, non-empty, without ',' or '/'. */
  lemma CommaTags(q: string)
    ensures var tags := NonEmptyStripped(Split(ReplaceChar(q, '/', ','), ','));
      forall t :: t in tags ==> |t| > 0 && Trimmed(t) && ',' !in t && '/' !in t
  {
    var r := ReplaceChar(q, '/', ',');
    var parts := Split(r, ',');
    NonEmptyStrippedMeaning(parts);
    forall t | t in NonEmptyStripped(parts)
      ensures ',' !in t && '/' !in t
    {
      TagLacks(parts, t, ',');
      forall p | p in parts
        ensures '/' !in p
      {
        SplitPieceOf(r, ',', p);
      }
      TagLacks(parts, t, '/');
    }
  }

  /** The space OR tags are the words, which hold none of the separators
      the earlier branches test for when the query does not. */
  lemma SpaceTags(q: string)
    requires '+' !in q && ',' !in q && '/' !in q
    ensures NonEmptyStripped(Words(q)) == Words(q)
    ensures forall t :: t in Words(q) ==> |t| > 0 && Trimmed(t) && NoSpace(t) && '+' !in t && ',' !in t && '/' !in t
  {
    WordsShape(q);
    WordsAreStripped(Words(q));
    NonEmptyStrippedMeaning(Words(q));
    forall t | t in Words(q)
      ensures '+' !in t && ',' !in t && '/' !in t
    {
      var i :| 0 <= i < |Words(q)| && Words(q)[i] == t;
      WordOf(q, i);
    }
  }

  /** Without filter chunks the trimmed query has no colon. */
  lemma NoFiltersNoColon(q: string)
    requires !HasFilters(q)
    ensures ':' !in q
  {
    if ':' in q {
      var i := WordHolding(q, ':');
      assert IsFilterChunk(Words(q)[i]);
    }
  }

  /** What the dispatch promises about each mode: which queries are too
      short, which go to smart search, to the AND search, to the OR search
      and to the single search; the tags are non-empty, trimmed
      and free of their separators; a single term is the trimmed query; and
      no tag-based mode sees a colon. */
  lemma ChooseModeShape(query: string)
    ensures ChooseMode(query).None? <==> |Strip(query)| < 2
    ensures ChooseMode(query) == Some(Smart) <==> |Strip(query)| >= 2 && HasFilters(Strip(query))
    ensures ChooseMode(query).Some? && !ChooseMode(query).value.Smart? ==> ':' !in Strip(query)
    ensures ChooseMode(query).Some? && ChooseMode(query).value.AllTags? ==>
      '+' in Strip(query) &&
      forall t :: t in ChooseMode(query).value.tags ==> |t| > 0 && Trimmed(t) && '+' !in t
    ensures ChooseMode(query).Some? && ChooseMode(query).value.AnyTags? ==>
      '+' !in Strip(query) &&
      forall t :: t in ChooseMode(query).value.tags ==> |t| > 0 && Trimmed(t) && ',' !in t && '/' !in t
    ensures ChooseMode(query).Some? && ChooseMode(query).value.AllTags? <==>
      |Strip(query)| >= 2 && !HasFilters(Strip(query)) && '+' in Strip(query)
    ensures ChooseMode(query).Some? && ChooseMode(query).value.AnyTags? <==>
      |Strip(query)| >= 2 && !HasFilters(Strip(query)) && '+' !in Strip(query) &&
      (',' in Strip(query) || '/' in Strip(query) || ' ' in Strip(query))
    ensures ChooseMode(query).Some? && ChooseMode(query).value.Single? <==>
      |Strip(query)| >= 2 && !HasFilters(Strip(query)) &&
      '+' !in Strip(query) && ',' !in Strip(query) && '/' !in Strip(query) && ' ' !in Strip(query)
    ensures ChooseMode(query).Some? && ChooseMode(query).value.Single? ==>
      var t := ChooseMode(query).value.term;
      t == Strip(query) && |t| >= 2 && ' ' !in t && '+' !in t && ',' !in t && '/' !in t
  {
    var q := Strip(query);
    if |q| >= 2 && !HasFilters(q) {
      NoFiltersNoColon(q);
      if '+' in q {
        PlusTags(q);
      } else if ',' in q || '/' in q {
        CommaTags(q);
      } else if ' ' in q {
        SpaceTags(q);
      }
    }
  }

  /** A query without '+', ',' and '/' but with inner whitespace, and
      without filter chunks, is an OR search whose tags are exactly its
      words. */
  lemma SpaceTagsAreWords(query: string)
    requires var q := Strip(query);
      |q| >= 2 && !HasFilters(q) && '+' !in q && ',' !in q && '/' !in q && ' ' in q
    ensures ChooseMode(query) == Some(AnyTags(Words(Strip(query))))
  {
    SpaceTags(Strip(query));
  }

  /** Every character of the trimmed text comes from the text. */
  lemma StripInside(p: string, t: string)
    requires Strip(p) == t
    ensures forall c :: c in t ==> c in p
  {
    StripIsSlice(p);
  }

  /** Every character of a split piece comes from the split text. */
  lemma {:induction false} SplitPieceOf(s: string, sep: char, p: string)
    requires p in Split(s, sep)
    ensures forall c :: c in p ==> c in s
    decreases |s|
  {
    if |s| > 0 {
      var rest := Split(s[1..], sep);
      if s[0] == sep {
        if p != "" {
          SplitPieceOf(s[1..], sep, p);
        }
      } else if p == [s[0]] + rest[0] {
        SplitPieceOf(s[1..], sep, rest[0]);
      } else {
        assert p in rest[1..];
        SplitPieceOf(s[1..], sep, p);
      }
    }
  }

  /** The characters of a word are characters of the text, and none of them
      is whitespace. */
  lemma WordOf(s: string, i: nat)
    requires i < |Words(s)|
    ensures NoSpace(Words(s)[i]) && forall c :: c in Words(s)[i] ==> c in s
  {
    WordsShape(s);
    WordsCoverText(s);
    ConcatHolds(Words(s), i);
    RemoveSpacesFrom(s);
  }

  lemma {:induction false} ConcatHolds(parts: seq<string>, i: nat)
    requires i < |parts|
    ensures forall c :: c in parts[i] ==> c in Concat(parts)
    decreases |parts|
  {
    if i > 0 {
      ConcatHolds(parts[1..], i - 1);
    }
  }

  lemma {:induction false} RemoveSpacesFrom(s: string)
    ensures forall c :: c in RemoveSpaces(s) ==> c in s
    decreases |s|
  {
    if |s| > 0 {
      RemoveSpacesFrom(s[1..]);
    }
  }

  /** A query whose trimmed text has a colon always goes to smart search. */
  lemma ColonMeansSmart(query: string)
    requires |Strip(query)| >= 2 && ':' in Strip(query)
    ensures ChooseMode(query) == Some(Smart)
  {
    ChooseModeShape(query);
  }

  /** A query of '+' signs and spaces only, with at least one '+', leaves the
      AND search no tag at all. */
  lemma SeparatorsOnlyGiveNoTags(query: string)
    requires |Strip(query)| >= 2 && '+' in Strip(query)
    requires forall i :: 0 <= i < |query| ==> query[i] == '+' || query[i] == ' '
    ensures ChooseMode(query) == Some(AllTags([]))
  {
    var q := Strip(query);
    StripInside(query, q);
    SeparatorsHaveNoChunks(q);
    SeparatorsHaveNoTags(q);
    PlusBranch(query);
  }

  /** The AND branch of the dispatch. */
  lemma PlusBranch(query: string)
    requires var q := Strip(query); |q| >= 2 && !HasFilters(q) && '+' in q
    ensures ChooseMode(query) == Some(AllTags(NonEmptyStripped(Split(Strip(query), '+'))))
  {
  }

  /** The OR branch for comma- and slash-separated queries: slashes count
      as commas. */
  lemma CommaBranch(query: string)
    requires var q := Strip(query);
      |q| >= 2 && !HasFilters(q) && '+' !in q && (',' in q || '/' in q)
    ensures ChooseMode(query) == Some(AnyTags(NonEmptyStripped(Split(ReplaceChar(Strip(query), '/', ','), ','))))
  {
  }

  /** A list of two or more pieces joined by ',' or by '/' is an OR search
      over exactly those pieces, trimmed, with the blank ones dropped. */
  lemma CommaListTags(query: string, parts: seq<string>, sep: char)
    requires sep == ',' || sep == '/'
    requires |parts| >= 2
    requires forall i :: 0 <= i < |parts| ==> ',' !in parts[i] && '/' !in parts[i] && '+' !in parts[i]
    requires Strip(query) == Join(parts, sep)
    requires |Strip(query)| >= 2 && !HasFilters(Strip(query))
    ensures ChooseMode(query) == Some(AnyTags(NonEmptyStripped(parts)))
  {
    var q := Strip(query);
    JoinHasSeparator(parts, sep);
    JoinWithout(parts, sep, '+');
    if sep == ',' {
      JoinWithout(parts, sep, '/');
      ReplaceCharAbsent(q, '/', ',');
    } else {
      ReplaceCharJoin(parts, '/', ',');
    }
    SplitJoin(parts, ',');
    CommaBranch(query);
  }

  /** Splitting a text of '+' and spaces on '+' leaves blank pieces only,
      and they give no tag. */
  lemma SeparatorsHaveNoTags(q: string)
    requires forall c :: c in q ==> c == '+' || c == ' '
    ensures NonEmptyStripped(Split(q, '+')) == []
  {
    var parts := Split(q, '+');
    forall i | 0 <= i < |parts|
      ensures Strip(parts[i]) == ""
    {
      var p := parts[i];
      SplitPieceOf(q, '+', p);
      assert forall k :: 0 <= k < |p| ==> p[k] in p && p[k] != '+';
      StripBlank(p);
    }
    BlankPiecesGiveNoTags(parts);
  }

  lemma {:induction false} BlankPiecesGiveNoTags(parts: seq<string>)
    requires forall i :: 0 <= i < |parts| ==> Strip(parts[i]) == ""
    ensures NonEmptyStripped(parts) == []
    decreases |parts|
  {
    if |parts| > 0 {
      BlankPiecesGiveNoTags(parts[1..]);
    }
  }

  /** The words of a text of '+' and spaces are runs of '+'. */
  lemma SeparatorsHaveNoChunks(q: string)
    requires forall c :: c in q ==> c == '+' || c == ' '
    ensures !HasFilters(q)
  {
    WordsShape(q);
    forall i | 0 <= i < |Words(q)|
      ensures !IsFilterChunk(Words(q)[i])
    {
      WordOf(q, i);
      assert Words(q)[i][0] in Words(q)[i];
    }
  }

  // ---------------------------------------------------------------------------
  // Running the search and laying out the answer

  /** The number of result fields per page. */
  const PageSize: nat := 10

  datatype Page = Page(number: nat, rows: seq<Item>)

  /** The pages: consecutive slices of ten rows numbered from 1. */
  function Pages(rows: seq<Item>): (pages: seq<Page>)
    ensures |pages| == (|rows| + PageSize - 1) / PageSize
    ensures forall k :: 0 <= k < |pages| ==> pages[k].number == k + 1
  {
    seq((|rows| + PageSize - 1) / PageSize,
      k requires 0 <= k < (|rows| + PageSize - 1) / PageSize =>
        Page(k + 1, rows[k * PageSize .. Min(k * PageSize + PageSize, |rows|)]))
  }

  function Flatten(pages: seq<Page>): seq<Item> {
    if |pages| == 0 then [] else pages[0].rows + Flatten(pages[1..])
  }

  /** Pagination loses nothing and reorders nothing: the pages, read in
      order, are the results; every page holds one to ten rows. */
  lemma PagesPartition(rows: seq<Item>)
    ensures Flatten(Pages(rows)) == rows
    ensures forall k :: 0 <= k < |Pages(rows)| ==> 1 <= |Pages(rows)[k].rows| <= PageSize
  {
    PagesFrom(rows, 0);
    var pages := Pages(rows);
    forall k | 0 <= k < |pages|
      ensures 1 <= |pages[k].rows| <= PageSize
    {
      assert k * PageSize < |rows|;
    }
  }

  lemma {:induction false} PagesFrom(rows: seq<Item>, k: nat)
    requires k <= |Pages(rows)|
    ensures Flatten(Pages(rows)[k..]) == rows[Min(k * PageSize, |rows|)..]
    decreases |Pages(rows)| - k
  {
    var pages := Pages(rows);
    if k == |pages| {
      assert pages[k..] == [];
      assert k * PageSize >= |rows|;
    } else {
      PagesFrom(rows, k + 1);
      assert pages[k..][1..] == pages[k + 1..];
      var lo, hi := k * PageSize, Min(k * PageSize + PageSize, |rows|);
      assert lo < |rows|;
      assert Min((k + 1) * PageSize, |rows|) == hi;
      assert rows[lo..] == rows[lo..hi] + rows[hi..];
    }
  }

  /** How the results are shown: one message whose fields are the rows plus,
      for a smart search with active filters, an "Active Filters" field; or,
      when that field count passes ten, the rows alone in pages of ten. */
  datatype Display =
    | OneMessage(rows: seq<Item>, activeFilters: bool)
    | Paged(pages: seq<Page>)

  datatype Response =
    | TooShort                            // fewer than two characters
    | QueryFailed(error: SqlError)        // SQLite rejects the generated WHERE: the command raises, no reply
    | NoResults(mode: Mode, filters: Filters)
    | Results(mode: Mode, filters: Filters, display: Display)

  /** A smart search lists its filters in an extra field when rarity,
      category or subcategory is non-empty or voi is given. */
  predicate ActiveFilters(mode: Mode, f: Filters) {
    mode.Smart? && (Truthy(f.rarity) || Truthy(f.category) || f.voi.Some? || Truthy(f.subcategory))
  }

  function Layout(rows: seq<Item>, active: bool): Display {
    var fields := |rows| + (if active then 1 else 0);
    if fields > PageSize then Paged(Pages(rows)) else OneMessage(rows, active)
  }

  /** The rows a mode asks for. */
  function RunMode(catalog: seq<Item>, query: string, mode: Mode): (Outcome<seq<Item>>, Filters) {
    match mode
    case Smart => var r := Search(catalog, query); (r.rows, r.filters)
    case AllTags(tags) => (SearchAll(catalog, tags), NoFilters)
    case AnyTags(tags) => (SearchAny(catalog, tags), NoFilters)
    case Single(term) => (Ok(SearchSingle(catalog, term)), NoFilters)
  }

  /** The answer to the trimmed query `q` once the mode is known. */
  function Answer(catalog: seq<Item>, q: string, mode: Mode): Response {
    var (outcome, f) := RunMode(catalog, q, mode);
    match outcome
    case Fails(err) => QueryFailed(err)
    case Ok(rows) =>
      if |rows| == 0 then NoResults(mode, f)
      else Results(mode, f, Layout(rows, ActiveFilters(mode, f)))
  }

  function ItemSearch(catalog: seq<Item>, query: string): Response {
    match ChooseMode(query)
    case None => TooShort
    case Some(mode) => Answer(catalog, Strip(query), mode)
  }

  /** The layout shows every row, in order, whichever form it takes, and
      pages exactly when the field count, rows plus the filter field, passes
      ten. */
  lemma LayoutShowsAll(rows: seq<Item>, active: bool)
    ensures Layout(rows, active).Paged? <==> |rows| + (if active then 1 else 0) > PageSize
    ensures Layout(rows, active).Paged? ==> Flatten(Layout(rows, active).pages) == rows
    ensures Layout(rows, active).OneMessage? ==>
      Layout(rows, active).rows == rows && |rows| <= PageSize
  {
    PagesPartition(rows);
  }

  /** Exactly ten rows with an active filter field make eleven fields, so
      they are paged: one page of all ten rows, and the filter field is not
      shown. Without the field they fit one message. */
  lemma TenRowsWithFiltersArePaged(rows: seq<Item>)
    requires |rows| == PageSize
    ensures Layout(rows, true) == Paged([Page(1, rows)])
    ensures Layout(rows, false) == OneMessage(rows, false)
  {
    assert rows[0..10] == rows;
  }

  /** The rows shown by an answer, whichever layout it takes. */
  function Shown(d: Display): seq<Item> {
    if d.Paged? then Flatten(d.pages) else d.rows
  }

  /** Whatever the mode, the command raises SQLite's error (and sends no
      reply) when the mode's search fails, says "no results" when it finds
      nothing, and otherwise shows
      exactly the rows the search returned: at most 30 rows of the catalog,
      at least one, in rarity-then-name order. */
  lemma AnswerShowsResults(catalog: seq<Item>, q: string, mode: Mode)
    ensures var outcome := RunMode(catalog, q, mode).0;
      && (Answer(catalog, q, mode).QueryFailed? <==> outcome.Fails?)
      && (Answer(catalog, q, mode).NoResults? <==> outcome.Ok? && |outcome.value| == 0)
      && (Answer(catalog, q, mode).Results? ==> outcome.Ok? && Shown(Answer(catalog, q, mode).display) == outcome.value)
    ensures Answer(catalog, q, mode).Results? ==>
      var rows := Shown(Answer(catalog, q, mode).display);
      0 < |rows| <= TagLimit && SortedBy(ByRankThenName, rows) && forall it :: it in rows ==> it in catalog
  {
    var (outcome, f) := RunMode(catalog, q, mode);
    ModeRows(catalog, q, mode);
    if outcome.Ok? && |outcome.value| > 0 {
      LayoutShowsAll(outcome.value, ActiveFilters(mode, f));
    }
  }

  /** Whatever the mode, a search that succeeds returns at most 30 catalog
      rows in rarity-then-name order. */
  lemma ModeRows(catalog: seq<Item>, q: string, mode: Mode)
    ensures RunMode(catalog, q, mode).0.Ok? ==>
      var rows := RunMode(catalog, q, mode).0.value;
      |rows| <= TagLimit && SortedBy(ByRankThenName, rows) && forall it :: it in rows ==> it in catalog
  {
    if mode.Smart? {
      SearchMeaning(catalog, q);
    }
  }

  /** Every successful item search shows exactly the rows of the search
      its dispatch chose, run on the trimmed query: at most 30 rows of the
      catalog, at least one, in rarity-then-name order. */
  lemma ItemSearchShowsResults(catalog: seq<Item>, query: string)
    ensures ItemSearch(catalog, query).Results? ==>
      && ChooseMode(query).Some?
      && ItemSearch(catalog, query).mode == ChooseMode(query).value
      && Shown(ItemSearch(catalog, query).display) == RunMode(catalog, Strip(query), ChooseMode(query).value).0.value
    ensures ItemSearch(catalog, query).Results? ==>
      var rows := Shown(ItemSearch(catalog, query).display);
      0 < |rows| <= TagLimit && SortedBy(ByRankThenName, rows) && forall it :: it in rows ==> it in catalog
  {
    if ChooseMode(query).Some? {
      AnswerShowsResults(catalog, Strip(query), ChooseMode(query).value);
    }
  }

  /** A query of '+' signs and spaces makes SQLite reject an empty WHERE
      clause: the command raises that error and sends no reply. */
  lemma SeparatorsOnlyFail(catalog: seq<Item>, query: string)
    requires |Strip(query)| >= 2 && '+' in Strip(query)
    requires forall i :: 0 <= i < |query| ==> query[i] == '+' || query[i] == ' '
    ensures ItemSearch(catalog, query) == QueryFailed(EmptyCondition)
  {
    SeparatorsOnlyGiveNoTags(query);
    SearchAllMeaning(catalog, []);
  }

  lemma PairHasNoChunk(w1: string, w2: string)
    requires !IsFilterChunk(w1) && !IsFilterChunk(w2)
    ensures !AnyFilterChunk([w1] + [w2])
  {
    var words := [w1] + [w2];
    assert forall i :: 0 <= i < |words| ==> words[i] == w1 || words[i] == w2;
  }

  /** The text of two plain words joined by one space is already trimmed
      and its words are the two words. */
  lemma PairText(w1: string, w2: string)
    requires |w1| > 0 && |w2| > 0 && NoSpace(w1) && NoSpace(w2)
    ensures Strip(w1 + " " + w2) == w1 + " " + w2 && Words(w1 + " " + w2) == [w1] + [w2]
  {
    var q := w1 + " " + w2;
    assert q[0] == w1[0] && q[|q| - 1] == w2[|w2| - 1];
    StripUnchanged(q);
    WordsOfPair(w1, w2);
  }

  /** Two words without '+', ',' or '/' joined by a space hold no
      separator but the space. */
  lemma PairSeparators(w1: string, w2: string)
    requires |w1| > 0 && |w2| > 0
    requires '+' !in w1 && '+' !in w2 && ',' !in w1 && ',' !in w2 && '/' !in w1 && '/' !in w2
    ensures var q := w1 + " " + w2; |q| >= 2 && ' ' in q && '+' !in q && ',' !in q && '/' !in q
  {
    var q := w1 + " " + w2;
    assert q[|w1|] == ' ';
  }

  /** A trimmed query whose words are two plain words, with no separator
      but whitespace, is an OR search for those two words. */
  lemma TwoWordQuery(q: string, w1: string, w2: string)
    requires Strip(q) == q && |q| >= 2 && Words(q) == [w1] + [w2]
    requires ' ' in q && '+' !in q && ',' !in q && '/' !in q
    requires !IsFilterChunk(w1) && !IsFilterChunk(w2)
    ensures ChooseMode(q) == Some(AnyTags([w1] + [w2]))
  {
    PairHasNoChunk(w1, w2);
    SpaceTagsAreWords(q);
  }

  /** Two plain words separated by one space make an OR search for the two
      words. */
  lemma SpacedPair(w1: string, w2: string)
    requires |w1| > 0 && |w2| > 0 && NoSpace(w1) && NoSpace(w2)
    requires !IsFilterChunk(w1) && !IsFilterChunk(w2)
    requires '+' !in w1 && '+' !in w2 && ',' !in w1 && ',' !in w2 && '/' !in w1 && '/' !in w2
    ensures ChooseMode(w1 + " " + w2) == Some(AnyTags([w1] + [w2]))
  {
    PairText(w1, w2);
    PairSeparators(w1, w2);
    TwoWordQuery(w1 + " " + w2, w1, w2);
  }

  /** The quoted phrase `"light dagger"` is not an exact-phrase search: the
      whitespace split sees `"light` and `dagger"`, neither of which both
      starts and ends with a quote, so the query becomes an OR search for
      those two tags, quote characters included. */
  lemma QuotedPhraseIsAnyTags(first: string, second: string)
    requires first == "\"light" && second == "dagger\""
    ensures ChooseMode(first + " " + second) == Some(AnyTags([first] + [second]))
  {
    assert first[0] == '"' && second[0] == 'd' && second[|second| - 1] == '"';
    SpacedPair(first, second);
  }

  // ---------------------------------------------------------------------------
  // VOI listing

  /** The number of rows the VOI listing shows. */
  const VoiShown: nat := 20

  datatype VoiResponse =
    | NoVoiItems
    | VoiItems(shown: seq<Item>, total: nat, footer: bool)  // footer: "Showing 20 of N"

  function VoiListing(catalog: seq<Item>): VoiResponse {
    var rows := Select(catalog, VoiIs(true), ByRankThenName);
    if |rows| == 0 then NoVoiItems
    else VoiItems(rows[..Min(VoiShown, |rows|)], |rows|, |rows| > VoiShown)
  }

  /** The VOI listing counts every VOI row, shows the first twenty of them in
      rarity-then-name order, and adds the footer exactly when some are not
      shown. Together with the non-VOI rows they make up the whole catalog. */
  lemma VoiListingMeaning(catalog: seq<Item>)
    ensures VoiListing(catalog).NoVoiItems? <==> forall it :: it in catalog ==> !it.voi
    ensures VoiListing(catalog).VoiItems? ==>
      var v := VoiListing(catalog);
      && v.total + |Where(catalog, VoiIs(false))| == |catalog|
      && v.total == |Matching(catalog, (it: Item) => it.voi)|
      && v.footer == (v.total > |v.shown|)
      && FirstMatches(ByRankThenName, catalog, v.shown, (it: Item) => it.voi, VoiShown)
  {
    var rows := Select(catalog, VoiIs(true), ByRankThenName);
    WhereSplitsTable(catalog, VoiIs(true), VoiIs(false));
    WhereMatching(catalog, VoiIs(true), (it: Item) => it.voi);
    if |rows| == 0 {
      forall it | it in catalog
        ensures !it.voi
      {
        assert it !in rows;
      }
    } else {
      assert rows[0] in rows;
      assert VoiListing(catalog).shown == SelectLimit(catalog, VoiIs(true), ByRankThenName, VoiShown);
      SelectLimitFirstMatches(catalog, VoiIs(true), (it: Item) => it.voi, ByRankThenName, VoiShown);
    }
  }
}
