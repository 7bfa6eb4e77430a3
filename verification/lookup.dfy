/** The command-line lookup: the rows whose name contains the query, in name
    order, at most fifteen of them. */
module Lookup {
  import opened Text
  import opened Sql
  import TagSearch

  /** The row cap of a lookup. */
  const LookupLimit: nat := 15

  /** `name LIKE ?` with the query wrapped in `%` on both sides. */
  function LookupCondition(query: string): Expr {
    ColumnLike(Name, false, Surround(query))
  }

  /** `search_items`: the matching rows ordered by name, the first fifteen. */
  function SearchItems(catalog: seq<Item>, query: string): (r: seq<Item>)
    ensures |r| == Min(LookupLimit, |Where(catalog, LookupCondition(query))|)
    ensures multiset(r) <= multiset(Where(catalog, LookupCondition(query)))
    ensures SortedBy(ByName, r)
    ensures forall it :: it in r ==> it in catalog
  {
    SelectLimit(catalog, LookupCondition(query), ByName, LookupLimit)
  }

  /** For a query without wildcards, the lookup returns rows whose name holds
      the query ignoring ASCII case, and leaves a matching row out only when
      fifteen rows that sort no later by name fill the result. Each row
      appears at most as often as in the table. */
  lemma SearchItemsMeaning(catalog: seq<Item>, query: string)
    requires WildcardFree(query)
    ensures FirstMatches(ByName, catalog, SearchItems(catalog, query), (it: Item) => ContainsIgnoringCase(it.name, query), LookupLimit)
  {
    forall it
      ensures Eval(LookupCondition(query), it) <==> ContainsIgnoringCase(it.name, query)
    {
      LikeSubstring(query, it.name);
    }
    SelectLimitFirstMatches(catalog, LookupCondition(query), (it: Item) => ContainsIgnoringCase(it.name, query), ByName, LookupLimit);
  }

  /** Only the name decides whether a row matches. */
  lemma LookupIgnoresOtherColumns(query: string, it: Item, other: Item)
    requires it.name == other.name
    ensures Eval(LookupCondition(query), it) == Eval(LookupCondition(query), other)
  {
  }

  /** Queries that differ only in ASCII case select the same rows. */
  lemma LookupIgnoresCase(a: string, b: string, catalog: seq<Item>)
    requires Lower(a) == Lower(b)
    ensures SearchItems(catalog, a) == SearchItems(catalog, b)
  {
    TagSearch.SurroundLower(a);
    TagSearch.SurroundLower(b);
    forall it
      ensures Eval(LookupCondition(a), it) <==> Eval(LookupCondition(b), it)
    {
      LikeIgnoresPatternCase(Surround(a), it.name);
      LikeIgnoresPatternCase(Surround(b), it.name);
    }
    SelectLimitEquivalent(catalog, LookupCondition(a), LookupCondition(b), ByName, LookupLimit);
  }

  /** The empty query becomes `%%`, so the lookup lists the first fifteen
      rows of the whole table by name. */
  lemma EmptyQueryListsAll(catalog: seq<Item>)
    ensures SearchItems(catalog, "") == SelectLimit(catalog, Always, ByName, LookupLimit)
  {
    forall it
      ensures Eval(LookupCondition(""), it)
    {
      assert Surround("") == "%%";
      LikeTrailingPercent(it.name);
    }
    SelectLimitEquivalent(catalog, LookupCondition(""), Always, ByName, LookupLimit);
  }

  /** The query is not escaped: a lone `_` is a LIKE wildcard and matches
      every row with a non-empty name. */
  lemma UnderscoreMatchesAnyName(it: Item)
    ensures Eval(LookupCondition("_"), it) <==> |it.name| > 0
  {
    var s, p, q := it.name, Surround("_"), "_%";
    assert p == "%_%" && p[1..] == q && q[1..] == "%";
    if |s| > 0 {
      LikeTrailingPercent(s[1..]);
      assert Like(q, s);
      assert Like(p, s);
    } else {
      assert !Like(q, s);
      assert !Like(p, s);
    }
  }
}
