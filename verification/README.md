# DeepBot item search, modelled in Dafny

DeepBot is a Discord bot that answers item lookups against an SQLite table of
game items (name, category, subcategories, rarity, a "VOI" flag, notes). This
project models the logic behind those answers over an in-memory catalog
(`seq<Item>`): every SQL statement becomes its meaning — a row predicate, a
sort, a take — and the SQL text itself is not modelled. The model covers:

- **`Sql`** (`sql.dfy`): SQLite's `LIKE` with `%`/`_` wildcards and ASCII case
  folding, the WHERE-clause expressions the bot builds, the shared
  `ORDER BY CASE rarity … END, name` ranking (relic 1, legendary 2, named 3,
  hallowtide 4, normal 5, anything else 6, then code-point name order), and
  `LIMIT`. An empty or malformed WHERE clause is an SQL error
  (`Outcome.Fails`), not a precondition.
- **`SmartSearch`** (`smart_search.dfy`): the two-state quote-aware
  tokenizer, the `key:value` classifier with last-write-wins filters, the
  WHERE groups, and the 30-row search.
- **`TagSearch`** (`tag_search.dfy`): the single-term, all-tags (AND) and
  any-tag (OR) searches over name, subcategories and category.
- **`ItemCommand`** (`item_command.dfy`): the `item` command's mode
  dispatch, its result layout with pages of ten, and the VOI listing.
- **`Normalize`** (`normalize.dfy`): the OCR line normaliser and its fix-up
  table.
- **`Import`** (`import.dfy`): the spreadsheet import. Headers and fields are
  normalised per row, and the rows fold into a name-unique table by
  `INSERT OR IGNORE`.
- **`Lookup`** (`lookup.dfy`): the command-line name lookup (name contains
  the query, by name, 15 rows).
- **`Text`** and **`Optional`**: Python `str` and SQLite text primitives
  (ASCII `lower`, `strip`, `split`, `replace`, substring search, code-point
  order) and an option type.

Several behaviours are modelled as the code has them, not as the help text
describes them:

- **Quotes never reach the classifier.** The tokenizer drops every `"`, so no
  exact phrase is ever recorded and the phrase branch is dead code.
- **A quoted query is not a phrase search.** `item "light dagger"` splits on
  whitespace into `"light` and `dagger"`, so it is an any-tag search, and the
  quotes stay in the tags.
- **A query of only `+` and spaces fails.** It gives an empty tag list, and
  the generated WHERE clause is empty, which SQLite rejects.
- **The fix-ups cascade.** They are plain substring replacements applied in
  order, so the correct "darksteel" becomes "darksteell". "kyrsieger" becomes
  "kkyrsedge", and normalising that again gives "kkkyrsedge".
- **The lookup does not escape its query.** A lone `_` is a wildcard and
  matches every non-empty name.

## Model

| member | source | states |
|---|---|---|
| Text.StripMeaning | main.py:282 | `str.strip()` removes whitespace at the two ends and nothing else: the result is a slice of the input with only whitespace before and after it, and neither of its ends is whitespace |
| Text.StripUnchanged | main.py:282 | stripping leaves a string unchanged exactly when neither of its ends is whitespace |
| Text.JoinSplit | main.py:295 | re-joining the pieces of `str.split(sep)` with the same separator gives the original string back |
| Text.SplitJoin | main.py:295 | splitting a join of separator-free pieces gives exactly those pieces |
| Text.WordsCoverText | main.py:305 | the words of `str.split()`, run together, are exactly the string's non-whitespace characters in order |
| Text.WordsShape | main.py:305 | every word of `str.split()` is non-empty and holds no whitespace |
| Text.LexLeTotal | main.py:43 | name order (SQLite BINARY collation) is total |
| Text.LexLeTransitive | main.py:43 | name order is transitive |
| Text.LexLeAntisymmetric | main.py:43 | two names that each sort no later than the other are equal |
| Text.ReplaceAbsent | scripts/normalize.py:36 | `str.replace` changes nothing when the pattern does not occur |
| Sql.LikeSubstring | main.py:45 | `LIKE '%t%'` with a wildcard-free `t` holds exactly when `t` occurs in the text ignoring ASCII case |
| Sql.LikePrefix | main.py:45 | `LIKE 't%'` with a wildcard-free `t` holds exactly when `t` is a case-insensitive prefix of the text |
| Sql.LikeIgnoresPatternCase | main.py:31-33 | lower-casing the pattern does not change whether LIKE matches |
| Sql.LikeIgnoresTextCase | main.py:213 | lower-casing the text does not change whether LIKE matches, so `LOWER(col) LIKE` is the same as `col LIKE` |
| Sql.JoinConditions | main.py:64 | joining conditions with AND or OR fails exactly when there is no condition or a stray `AND` keyword; otherwise a row satisfies the result iff all (AND) or some (OR) of the conditions hold |
| Sql.Where | main.py:31-33 | a row is selected iff it is in the table and satisfies the condition |
| Sql.WhereSplitsTable | main.py:540 | a condition and its negation split the table between them |
| Sql.RarityRankOrder | main.py:35-42 | the five known rarities rank 1 to 5 in the order relic, legendary, … and every other rarity ranks 6, after all of them |
| Sql.PrecedesTotal | main.py:34-43 | any two rows are ordered one way or the other by rank then name |
| Sql.PrecedesTransitive | main.py:34-43 | rank-then-name order is transitive |
| Sql.PrecedesAntisymmetric | main.py:34-43 | rows that each precede the other share a name |
| Sql.Sort | main.py:34-43 | ORDER BY yields a sorted permutation of its input |
| Sql.Select | main.py:28-43 | a query without a limit returns a sorted permutation of exactly the matching rows |
| Sql.SelectLimit | main.py:44 | with LIMIT n, exactly min(n, matches) matching rows are returned, sorted, each at most as often as it occurs in the table; a matching row is left out only when n rows that sort no later fill the result |
| Sql.SelectLimitFirstMatches | main.py:24-48 | a limited selection whose condition means P returns the first matches of P: min(limit, matches) of them, each at most as often as it occurs in the table, sorted, a match left out only when the limit is reached by rows that sort before it |
| Sql.LimitKeepsLeast | main.py:44 | a take of a sorted list keeps rows that precede every row it drops |
| Sql.SelectLimitEquivalent | main.py:28-44 | two conditions that hold for the same rows give the same limited result |
| SmartSearch.Scan | main.py:143-154 | the tokenizer never emits an empty token or one holding a `"` |
| SmartSearch.TokensCoverQuery | main.py:143-154 | the tokens, run together, are exactly the query without its quotes and without the spaces outside quotes |
| SmartSearch.TokenizeWithoutQuotes | main.py:143-154 | on a query without quotes, tokenizing is splitting on the space character and dropping empty pieces |
| SmartSearch.UnterminatedQuote | main.py:143-154 | an unterminated quote runs to the end of the query, spaces included, as one token |
| SmartSearch.ScanQuotedRun | main.py:144-151 | a closed quoted run joins the current token and scanning resumes outside quotes |
| SmartSearch.QuotedPhraseToken | main.py:143-154 | `"light dagger"` is one token, `light dagger`, without its quotes |
| SmartSearch.ColonIndex | main.py:162 | the split point is the first colon of the part |
| SmartSearch.ParseSetting | main.py:160-173 | a part sets a filter exactly when its trimmed, lower-cased key names it (rarity; type or category; voi; sub or subcategory), and the value set is the trimmed, lower-cased text after the first colon |
| SmartSearch.ParseQuoteFree | main.py:160-179 | a part without quotes is never a phrase, and it is a name term, kept as written, exactly when it has no colon |
| SmartSearch.ClassifyLastWriteWins | main.py:157-173 | the last part that sets a filter decides its value; voi becomes true iff that value is yes, true or 1 |
| SmartSearch.ClassifyUnset | main.py:128-135 | a filter no part sets stays unset |
| SmartSearch.UnrecognisedDropped | main.py:160-173 | a `key:value` part with an unknown key has no effect on the filters |
| SmartSearch.ClassifyTerms | main.py:174-179 | for quote-free parts, the name terms are exactly the colon-free parts in order and no phrase is recorded |
| SmartSearch.PhrasesNeverParsed | main.py:174-176 | for every query, the phrase list is empty and the name terms are the colon-free tokens |
| SmartSearch.GroupsMeaning | main.py:188-222 | the term group holds iff some term occurs in name or subcategories; the rarity group iff the rarity filter is empty or equals the lower-cased rarity; the category and subcategory groups iff empty or contained; the voi group iff unset or equal |
| SmartSearch.SmartWhereMeaning | main.py:185-225 | without phrases the WHERE clause is valid, and a row satisfies it iff it passes every given filter; with no conditions every row passes (`1=1`) |
| SmartSearch.TermsWithPhrasesFail | main.py:196-205 | were terms and phrases both present, the spliced `AND` would make the WHERE clause invalid |
| SmartSearch.SearchMeaning | main.py:125-247 | smart search never fails; it returns the classified filters and min(30, matches) matching catalog rows, each at most as often as it occurs in the table, in rank-then-name order, leaving a match out only when 30 rows that sort no later fill the result |
| SmartSearch.LegendaryWeaponExample | main.py:208-214 | `rarity:legendary type:weapon` admits a legendary weapon and rejects a normal tool |
| TagSearch.TagConditionMeaning | main.py:31-33 | a tag matches a row iff it occurs, ignoring case, in its name, subcategories or category |
| TagSearch.TagConditionIgnoresCase | main.py:31-33 | tags that differ only in case match the same rows |
| TagSearch.EmptyTagMatchesEverything | main.py:45 | the empty tag matches every row |
| TagSearch.SearchSingleMeaning | main.py:24-49 | the single search returns min(30, matches) matching catalog rows, each at most as often as it occurs in the table, sorted, and leaves a match out only when 30 earlier rows fill the result |
| TagSearch.SearchAllMeaning | main.py:51-86 | the AND search fails exactly on an empty tag list; otherwise it returns min(30, matches) rows matching every tag, each at most as often as it occurs in the table, sorted, a match left out only when 30 earlier rows fill the result |
| TagSearch.SearchAnyMeaning | main.py:88-123 | the OR search fails exactly on an empty tag list; otherwise it returns min(30, matches) rows matching some tag, each at most as often as it occurs in the table, sorted, a match left out only when 30 earlier rows fill the result |
| TagSearch.OneTagSearches | main.py:51-123 | with one tag, the AND and OR searches return the single search's rows |
| TagSearch.AllWithinAny | main.py:58-64 | every AND result matches some tag, and when the OR search is not capped every AND result is in it |
| TagSearch.SearchSingleIgnoresCase | main.py:24-49 | single searches for terms that differ only in case return the same rows |
| ItemCommand.NonEmptyStrippedMeaning | main.py:295 | the tag list holds only non-empty trimmed tags, and it holds every piece that is not blank once stripped |
| ItemCommand.ChooseModeShape | main.py:278-312 | fewer than two characters after stripping is rejected; smart mode is chosen exactly when a chunk has a colon or is quote-wrapped; otherwise the AND search exactly when the query has a `+`, the OR search exactly when it has no `+` but a `,`, `/` or space, and the single search exactly when it has none of these; AND tags hold no `+`, OR tags no `,` or `/`; a single term is the whole stripped query |
| ItemCommand.ColonMeansSmart | main.py:285-290 | any colon in a long enough query routes it to smart search |
| ItemCommand.PlusBranch | main.py:293-297 | a query with `+` and no filter chunk is an AND search over its stripped, non-empty `+`-pieces |
| ItemCommand.CommaBranch | main.py:298-302 | a query with `,` or `/`, no `+` and no filter chunk is an OR search over its stripped, non-empty pieces, with `/` splitting like `,` |
| ItemCommand.CommaListTags | main.py:298-302 | two or more pieces without `,`, `/` or `+`, joined by `,` or by `/`, give an OR search over exactly those pieces, stripped, with the blank ones dropped |
| Text.ReplaceCharJoin | main.py:300 | replacing the separator of a join of pieces that lack it gives the join with the new separator |
| ItemCommand.SpaceTagsAreWords | main.py:303-307 | a space-separated query without other separators is an OR search over its words |
| ItemCommand.SeparatorsOnlyGiveNoTags | main.py:293-295 | a query of only `+` and spaces is an AND search with no tags |
| ItemCommand.SeparatorsOnlyFail | main.py:64 | such a query builds an empty WHERE clause, so SQLite raises its error and the command sends no reply |
| ItemCommand.TwoWordQuery | main.py:303-307 | a two-word query without filter chunks or separators is an OR search over both words |
| ItemCommand.SpacedPair | main.py:285-307 | two separator-free words that are not filter chunks, joined by a space, give an OR search over both |
| ItemCommand.QuotedPhraseIsAnyTags | main.py:285-307 | `"light dagger"` is an OR search over `"light` and `dagger"`, not a smart search |
| ItemCommand.PagesPartition | main.py:418-423 | the pages, run together, are the result list, and each holds one to ten rows |
| ItemCommand.PagesFrom | main.py:418-423 | the pages from the k-th on hold exactly the rows from index 10k on |
| ItemCommand.LayoutShowsAll | main.py:375-435 | results are paged exactly when the rows plus the Active Filters field make more than ten fields, and either layout shows every row in order |
| ItemCommand.TenRowsWithFiltersArePaged | main.py:416 | ten rows with an Active Filters field are paged as one page; without the field they fit one message |
| ItemCommand.ItemSearchShowsResults | main.py:278-435 | every successful item search shows exactly the rows of the search its dispatch chose, run on the trimmed query: between 1 and 30 catalog rows in rank-then-name order |
| ItemCommand.AnswerShowsResults | main.py:314-435 | whatever the mode, the command raises SQLite's error and sends no reply iff the search fails, "no results" iff it finds nothing, and otherwise shows exactly the rows the search returned, between 1 and 30 catalog rows in rank-then-name order |
| ItemCommand.VoiListingMeaning | main.py:537-585 | the VOI listing is empty iff no row is VOI; otherwise it counts every VOI row, shows min(20, VOI rows) of them, each at most as often as it occurs in the table, in rank-then-name order, leaving one out only when 20 rows that sort no later are shown, and has the footer exactly when some are not shown |
| Normalize.ClassRun | scripts/normalize.py:23-32 | the run measured is the longest prefix in the class |
| Normalize.SquashedHasNoDoubleSpace | scripts/normalize.py:32 | after whitespace runs are squashed no two spaces are adjacent |
| Normalize.CollapseLeavesNoTriple | scripts/normalize.py:26 | after collapsing, no character other than a line feed appears three times in a row |
| Normalize.CollapseFixed | scripts/normalize.py:26 | a text without such a triple run is left as it is |
| Normalize.CollapseIdempotent | scripts/normalize.py:26 | collapsing twice is collapsing once |
| Normalize.CollapseKeeps | scripts/normalize.py:26 | collapsing keeps exactly the set of characters present |
| Normalize.CollapseRepeat | scripts/normalize.py:26 | three or more copies of a character become one; one or two copies are kept |
| Normalize.CollapseExamples | scripts/normalize.py:25-26 | "llll" becomes "l" and "ll" stays "ll" |
| Normalize.FixesAreLetters | scripts/normalize.py:3-11 | every fix-up has a non-empty pattern and a non-empty correction made of lower-case letters |
| Normalize.CleanShape | scripts/normalize.py:13-32 | before the fix-ups the line holds only a-z, apostrophes and spaces, with no space at either end and no two in a row |
| Normalize.FixesKeepShape | scripts/normalize.py:35-36 | fix-ups whose corrections are letters keep that alphabet and that spacing |
| Normalize.NormalizeShape | scripts/normalize.py:13-38 | the normalised line holds only a-z, apostrophes and spaces, with no space at either end and no two in a row |
| Normalize.SeparatorsVanish | scripts/normalize.py:20-32 | no digit, junk symbol or whitespace other than the space survives |
| Normalize.SeparatorSplitsWords | scripts/normalize.py:13-32 | a run of digits and junk symbols (square brackets, vertical bar, `! ? = % _ -`) between two lower-case words cleans to exactly one space between them, so "iron-sword" and "iron2sword" both become "iron sword" |
| Normalize.ApostropheSurvives | scripts/normalize.py:17-29 | a line with a straight or U+2019 apostrophe still has a straight apostrophe after normalising |
| Normalize.CleanOfWord | scripts/normalize.py:13-32 | a lower-case word without triple runs passes the cleaning steps unchanged |
| Normalize.ApplyFixesAppend | scripts/normalize.py:35-36 | applying a table is applying its first part and then the rest to the result |
| Normalize.ReplaceNoStart | scripts/normalize.py:36 | a pattern cannot match where the text lacks its first character |
| Normalize.DigitFixNeverFires | scripts/normalize.py:6-23 | the "imperat0r" fix never fires, since the cleaned line holds no digit |
| Normalize.NormalizeWord | scripts/normalize.py:13-38 | a clean lower-case word only goes through the fix-ups |
| Normalize.NormalizeImpecator | scripts/normalize.py:4-36 | "impecator" normalises to "imperator" |
| Normalize.NormalizeKyrsieger | scripts/normalize.py:7-36 | "kyrsieger" normalises to "kkyrsedge": the "yrsedge" fix fires on the first fix's output |
| Normalize.NormalizeKyrsedge | scripts/normalize.py:9-36 | the correct "kyrsedge" normalises to "kkyrsedge" |
| Normalize.NormalizeDarksteel | scripts/normalize.py:10-36 | the correct "darksteel" normalises to "darksteell" |
| Normalize.NormalizeKkyrsedge | scripts/normalize.py:9-36 | "kkyrsedge" normalises to "kkkyrsedge" |
| Normalize.NormalizeTwice | scripts/normalize.py:13-38 | normalisation is not idempotent: normalising "kyrsieger" twice differs from normalising it once |
| Import.HeadersCompareNormalised | scripts/import_items.py:12 | headers that agree once trimmed and lower-cased read the same item from a row |
| Import.PaddedHeader | scripts/import_items.py:12 | a padded header such as " Item_Name " reads as its lower-cased word |
| Import.ReadMeaning | scripts/import_items.py:20-38 | a field read gives nothing iff no header names it, and otherwise gives the first named column's cell |
| Import.RowItem | scripts/import_items.py:20-23 | a row is skipped exactly when its item_name is missing or blank |
| Import.RowItemShape | scripts/import_items.py:25-38 | each field comes from the cell under its own column: the name is the item_name text trimmed with its case kept; category, subcategories and rarity are their cells trimmed and lower-cased, notes its cell trimmed, a missing column giving "" and a blank cell "nan"; voi iff the voi text trimmed and lower-cased is yes, true or 1 |
| Import.MissingVoiIsUnset | scripts/import_items.py:25-26 | a missing or blank voi cell stores 0 |
| Import.VoiFlagOfPaddedYes | scripts/import_items.py:25-26 | " Yes " counts as VOI |
| Import.VoiFlagOfFloatOne | scripts/import_items.py:25-26 | "1.0" does not count as VOI |
| Import.InsertOrIgnore | scripts/import_items.py:28-31 | an insert appends the row iff its name is new and otherwise leaves the table as it was |
| Import.InsertNames | scripts/import_items.py:28-31 | after an insert the names present are the old ones plus the row's |
| Import.InsertKeepsUnique | scripts/init_db.py:16 | inserting keeps names unique |
| Import.NamedMembers | scripts/import_items.py:19-23 | the rows reaching the insert are exactly the items of the rows that are not skipped |
| Import.LoadExtends | scripts/import_items.py:19-39 | loading only appends, at most one row per item, and keeps names unique |
| Import.LoadNames | scripts/import_items.py:19-39 | after loading, the names present are the old ones plus those of the items |
| Import.LoadMembers | scripts/import_items.py:28-39 | every loaded row was already there or is the first item of its name, a name not already present |
| Import.FirstRowWins | scripts/import_items.py:28-39 | the first item of each new name is loaded |
| Import.DuplicateIgnored | scripts/import_items.py:28-31 | an item whose name is already present leaves the table unchanged |
| Import.ImportItems | scripts/import_items.py:17-42 | the import loads the named rows by insert-or-ignore, keeps names unique, only appends, and counts in `inserted` exactly the rows added, never more than the named rows |
| Lookup.SearchItems | scripts/lookup.py:7-21 | the lookup returns min(15, matches) catalog rows, each at most as often as it occurs in the table, in name order |
| Lookup.SearchItemsMeaning | scripts/lookup.py:14-17 | the lookup returns min(15, matches) rows whose name holds the query ignoring case, each at most as often as it occurs in the table, in name order, and a matching row is left out only when 15 rows that sort no later by name fill the result |
| Lookup.LookupIgnoresOtherColumns | scripts/lookup.py:14 | only the name decides whether a row matches |
| Lookup.LookupIgnoresCase | scripts/lookup.py:14-17 | queries that differ only in case give the same rows |
| Lookup.EmptyQueryListsAll | scripts/lookup.py:17 | the empty query lists the first 15 rows of the whole table by name |
| Lookup.UnderscoreMatchesAnyName | scripts/lookup.py:17 | the unescaped query `_` matches every row with a non-empty name |

## Left out

- Discord plumbing is not modelled: bot setup, message sending, embeds and their titles (including the `[:256]` and `[:240]` truncation), highlighting, emoji and colour maps, the help text and `on_ready`. The model returns which rows each message shows, not how they are drawn.
- The other bot commands, such as `random` (`ORDER BY RANDOM()`), are nondeterministic or presentation only.
- SQLite connections and the generated SQL strings are replaced by their meaning over an in-memory `seq<Item>`. The autoincrement `id` column plays no part in any answer and is absent.
- Case folding, `strip`, `split()`, `\d` and `\s` are modelled on ASCII plus U+2019. Python's full Unicode `lower()` and whitespace classes are not modelled.
- `%` and `_` inside user terms are LIKE wildcards in the model too. The substring meaning is proved only for wildcard-free terms, so `SmartSearch.SearchMeaning`, `TagSearch.SearchSingleMeaning`, `TagSearch.SearchAllMeaning`, `TagSearch.SearchAnyMeaning` and `Lookup.SearchItemsMeaning` state it under that condition. `Lookup.UnderscoreMatchesAnyName` shows what happens without it.
- `QueryFailed` stands for the `sqlite3.OperationalError` that escapes `item_search` uncaught: the command sends no reply. What the Discord library then does with the exception is not modelled.
- SmartSearch.TermsWithPhrasesFail: the phrase branch and its `AND` splice are modelled but unreachable, since no query yields a phrase. The lemma states what the splice would do if it were reached.
- pandas is reduced to cells that are text or blank. A blank cell reads as "nan", as `str(NaN)` does. A missing column reads as the default.
- Numeric cells are taken to arrive as their text; `Import.VoiFlagOfFloatOne` shows that a float 1 rendered as "1.0" is not VOI. A non-text item name, on which `.strip()` would raise, is not modelled.
- With duplicate normalised headers the model reads the first such column. pandas would hand back several values at once.
- The Excel file reading, the database commit and the final message of `scripts/import_items.py` are not modelled. The import starts from a given table whose names are unique, as the UNIQUE constraint guarantees.
- The `input()` loop and printing in `scripts/lookup.py` are not modelled; only `search_items` is.
- `scripts/ocr_inventory.py` (image processing and file output) is not part of this model. `scripts/init_db.py` contributes only the uniqueness of names.
- The cascade lemmas of `Normalize` are stated for the concrete inputs that show them, not for every line containing those words.
