/** The three tag searches: one term, all of several tags, any of several
    tags. Each tag is looked for as a substring of the name, the
    subcategories or the category, and results come back ordered by rarity
    rank then name, at most 30 of them. */
module TagSearch {
  import opened Text
  import opened Sql

  /** The row cap of every tag search. */
  const TagLimit: nat := 30

  /** `(name LIKE ? OR subcategories LIKE ? OR category LIKE ?)` with the tag
      wrapped in `%` on both sides. */
  function TagCondition(tag: string): Expr {
    AnyOf([
      ColumnLike(Name, false, Surround(tag)),
      ColumnLike(Subcategories, false, Surround(tag)),
      ColumnLike(Category, false, Surround(tag))])
  }

  /** What a tag means: it occurs, ignoring ASCII case, in the name, the
      subcategories or the category. */
  predicate TagMatches(tag: string, it: Item) {
    || ContainsIgnoringCase(it.name, tag)
    || ContainsIgnoringCase(it.subcategories, tag)
    || ContainsIgnoringCase(it.category, tag)
  }

  lemma TagConditionMeaning(tag: string, it: Item)
    requires WildcardFree(tag)
    ensures Eval(TagCondition(tag), it) <==> TagMatches(tag, it)
  {
    var ds := TagCondition(tag).disjuncts;
    LikeSubstring(tag, it.name);
    LikeSubstring(tag, it.subcategories);
    LikeSubstring(tag, it.category);
    assert Eval(TagCondition(tag), it) <==> Eval(ds[0], it) || Eval(ds[1], it) || Eval(ds[2], it);
  }

  /** A tag that differs only in ASCII case selects the same rows. */
  lemma TagConditionIgnoresCase(a: string, b: string, it: Item)
    requires Lower(a) == Lower(b)
    ensures Eval(TagCondition(a), it) <==> Eval(TagCondition(b), it)
  {
    SurroundLower(a);
    SurroundLower(b);
    forall s | s in [it.name, it.subcategories, it.category]
      ensures Like(Surround(a), s) == Like(Surround(b), s)
    {
      LikeIgnoresPatternCase(Surround(a), s);
      LikeIgnoresPatternCase(Surround(b), s);
    }
    var da, db := TagCondition(a).disjuncts, TagCondition(b).disjuncts;
    assert Eval(TagCondition(a), it) <==> Eval(da[0], it) || Eval(da[1], it) || Eval(da[2], it);
    assert Eval(TagCondition(b), it) <==> Eval(db[0], it) || Eval(db[1], it) || Eval(db[2], it);
  }

  lemma SurroundLower(t: string)
    ensures Lower(Surround(t)) == Surround(Lower(t))
  {
    LowerConcat("%" + t, "%");
    LowerConcat("%", t);
    assert Lower("%") == "%";
  }

  /** The empty tag becomes the pattern `%%`, which every row satisfies. */
  lemma EmptyTagMatchesEverything(it: Item)
    ensures Eval(TagCondition(""), it)
  {
    assert Surround("") == "%%";
    assert Like("%%", it.name) by {
      LikeTrailingPercent(it.name);
    }
    assert Eval(TagCondition("").disjuncts[0], it);
  }

  /** One group per tag, in order. */
  function TagFragments(tags: seq<string>): (frags: seq<Fragment>)
    ensures |frags| == |tags| && AndKeyword !in frags
    ensures forall i :: 0 <= i < |tags| ==> frags[i] == Condition(TagCondition(tags[i]))
  {
    seq(|tags|, i requires 0 <= i < |tags| => Condition(TagCondition(tags[i])))
  }

  /** The single-term search. */
  function SearchSingle(catalog: seq<Item>, query: string): seq<Item> {
    SelectLimit(catalog, TagCondition(query), ByRankThenName, TagLimit)
  }

  /** The search for rows matching every tag: the groups joined with AND.
      An empty tag list leaves the WHERE clause empty, which does not parse. */
  function SearchAll(catalog: seq<Item>, tags: seq<string>): Outcome<seq<Item>> {
    match JoinConditions(TagFragments(tags), true)
    case Ok(e) => Ok(SelectLimit(catalog, e, ByRankThenName, TagLimit))
    case Fails(err) => Fails(err)
  }

  /** The search for rows matching at least one tag: the groups joined with
      OR. */
  function SearchAny(catalog: seq<Item>, tags: seq<string>): Outcome<seq<Item>> {
    match JoinConditions(TagFragments(tags), false)
    case Ok(e) => Ok(SelectLimit(catalog, e, ByRankThenName, TagLimit))
    case Fails(err) => Fails(err)
  }

  /** A single-term search returns the first 30 rows, by rarity rank then
      name, whose name, subcategories or category contain the term. */
  lemma SearchSingleMeaning(catalog: seq<Item>, query: string)
    requires WildcardFree(query)
    ensures FirstMatches(ByRankThenName, catalog, SearchSingle(catalog, query), it => TagMatches(query, it), TagLimit)
  {
    forall it
      ensures Eval(TagCondition(query), it) <==> TagMatches(query, it)
    {
      TagConditionMeaning(query, it);
    }
    SelectLimitFirstMatches(catalog, TagCondition(query), it => TagMatches(query, it), ByRankThenName, TagLimit);
  }

  predicate MatchesAll(tags: seq<string>, it: Item) {
    forall i :: 0 <= i < |tags| ==> TagMatches(tags[i], it)
  }

  predicate MatchesAny(tags: seq<string>, it: Item) {
    exists i :: 0 <= i < |tags| && TagMatches(tags[i], it)
  }

  predicate AllWildcardFree(tags: seq<string>) {
    forall i :: 0 <= i < |tags| ==> WildcardFree(tags[i])
  }

  /** The AND search fails exactly on an empty tag list; otherwise it returns
      the first 30 rows matching every tag. */
  lemma SearchAllMeaning(catalog: seq<Item>, tags: seq<string>)
    ensures SearchAll(catalog, tags).Fails? <==> |tags| == 0
    ensures |tags| == 0 ==> SearchAll(catalog, tags) == Fails(EmptyCondition)
    ensures |tags| > 0 && AllWildcardFree(tags) ==>
      FirstMatches(ByRankThenName, catalog, SearchAll(catalog, tags).value, it => MatchesAll(tags, it), TagLimit)
  {
    if |tags| > 0 && AllWildcardFree(tags) {
      var e := JoinConditions(TagFragments(tags), true).value;
      forall it
        ensures Eval(e, it) <==> MatchesAll(tags, it)
      {
        forall i | 0 <= i < |tags|
          ensures Eval(TagCondition(tags[i]), it) <==> TagMatches(tags[i], it)
        {
          TagConditionMeaning(tags[i], it);
        }
      }
      SelectLimitFirstMatches(catalog, e, it => MatchesAll(tags, it), ByRankThenName, TagLimit);
    }
  }

  /** The OR search fails exactly on an empty tag list; otherwise it returns
      the first 30 rows matching at least one tag. */
  lemma SearchAnyMeaning(catalog: seq<Item>, tags: seq<string>)
    ensures SearchAny(catalog, tags).Fails? <==> |tags| == 0
    ensures |tags| == 0 ==> SearchAny(catalog, tags) == Fails(EmptyCondition)
    ensures |tags| > 0 && AllWildcardFree(tags) ==>
      FirstMatches(ByRankThenName, catalog, SearchAny(catalog, tags).value, it => MatchesAny(tags, it), TagLimit)
  {
    if |tags| > 0 && AllWildcardFree(tags) {
      var e := JoinConditions(TagFragments(tags), false).value;
      forall it
        ensures Eval(e, it) <==> MatchesAny(tags, it)
      {
        forall i | 0 <= i < |tags|
          ensures Eval(TagCondition(tags[i]), it) <==> TagMatches(tags[i], it)
        {
          TagConditionMeaning(tags[i], it);
        }
      }
      SelectLimitFirstMatches(catalog, e, it => MatchesAny(tags, it), ByRankThenName, TagLimit);
    }
  }

  /** With one tag, the AND and OR searches are the single-term search. */
  lemma OneTagSearches(catalog: seq<Item>, query: string)
    ensures SearchAll(catalog, [query]) == Ok(SearchSingle(catalog, query))
    ensures SearchAny(catalog, [query]) == Ok(SearchSingle(catalog, query))
  {
    var c := TagCondition(query);
    var conj := JoinConditions(TagFragments([query]), true).value;
    var disj := JoinConditions(TagFragments([query]), false).value;
    assert TagFragments([query])[0].expr == c;
    forall it
      ensures Eval(conj, it) <==> Eval(c, it)
      ensures Eval(disj, it) <==> Eval(c, it)
    {
    }
    SelectLimitEquivalent(catalog, conj, c, ByRankThenName, TagLimit);
    SelectLimitEquivalent(catalog, disj, c, ByRankThenName, TagLimit);
  }

  /** Every row the AND search returns satisfies the OR search too, and when
      the OR search is not cut off at 30 rows, the AND rows are among its
      rows. */
  lemma AllWithinAny(catalog: seq<Item>, tags: seq<string>)
    requires |tags| > 0
    ensures var all, any := SearchAll(catalog, tags).value, SearchAny(catalog, tags).value;
      && (forall it :: it in all ==> Eval(JoinConditions(TagFragments(tags), false).value, it))
      && (|any| < TagLimit ==> forall it :: it in all ==> it in any)
  {
    var frags := TagFragments(tags);
    var conj := JoinConditions(frags, true).value;
    var disj := JoinConditions(frags, false).value;
    forall it | Eval(conj, it)
      ensures Eval(disj, it)
    {
      assert Eval(frags[0].expr, it);
    }
  }

  /** The single-term search ignores the case of the term. */
  lemma SearchSingleIgnoresCase(catalog: seq<Item>, a: string, b: string)
    requires Lower(a) == Lower(b)
    ensures SearchSingle(catalog, a) == SearchSingle(catalog, b)
  {
    forall it
      ensures Eval(TagCondition(a), it) <==> Eval(TagCondition(b), it)
    {
      TagConditionIgnoresCase(a, b, it);
    }
    SelectLimitEquivalent(catalog, TagCondition(a), TagCondition(b), ByRankThenName, TagLimit);
  }
}
