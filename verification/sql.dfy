/** The SQLite behaviour the bot and the scripts rely on, over the items table
    held in memory: the LIKE operator, the WHERE conditions the code
    assembles, ORDER BY and LIMIT. The SQL text itself is not modelled; each
    statement is given by its meaning. */
module Sql {
  import opened Text

  /** One row of the items table; the autoincrement id is not modelled and the
      0/1 voi column is a boolean, the only values the importer writes. */
  datatype Item = Item(
    name: string,
    category: string,
    subcategories: string,
    rarity: string,
    voi: bool,
    notes: string)

  function Min(a: nat, b: nat): nat {
    if a <= b then a else b
  }

  // ---------------------------------------------------------------------------
  // LIKE

  /** SQLite's `s LIKE pattern` with no ESCAPE clause: `%` matches any run of
      characters, `_` exactly one, and other characters compare with ASCII
      case folded. */
  predicate Like(pattern: string, s: string)
    decreases |pattern|, |s|
  {
    if |pattern| == 0 then |s| == 0
    else if pattern[0] == '%' then Like(pattern[1..], s) || (|s| > 0 && Like(pattern, s[1..]))
    else |s| > 0 && (pattern[0] == '_' || LowerChar(pattern[0]) == LowerChar(s[0]))
         && Like(pattern[1..], s[1..])
  }

  /** A term in which LIKE sees no wildcard. */
  predicate WildcardFree(t: string) {
    '%' !in t && '_' !in t
  }

  /** The bound parameter `f"%{t}%"`. */
  function Surround(t: string): string {
    "%" + t + "%"
  }

  lemma {:induction false} LikeTrailingPercent(s: string)
    ensures Like("%", s)
    decreases |s|
  {
    if |s| > 0 {
      LikeTrailingPercent(s[1..]);
    }
  }

  lemma {:induction false} LikePrefix(t: string, s: string)
    requires WildcardFree(t)
    ensures Like(t + "%", s) <==> IsPrefix(Lower(t), Lower(s))
    decreases |t|
  {
    if |t| == 0 {
      assert t + "%" == "%";
      LikeTrailingPercent(s);
    } else {
      assert (t + "%")[1..] == t[1..] + "%";
      if |s| > 0 {
        LikePrefix(t[1..], s[1..]);
        assert Lower(t) == [LowerChar(t[0])] + Lower(t[1..]);
        assert Lower(s) == [LowerChar(s[0])] + Lower(s[1..]);
      }
    }
  }

  /** For a term without wildcards, `col LIKE '%t%'` is a case-insensitive
      substring test. */
  lemma {:induction false} LikeSubstring(t: string, s: string)
    requires WildcardFree(t)
    ensures Like(Surround(t), s) <==> ContainsIgnoringCase(s, t)
    decreases |s|
  {
    var p := Surround(t);
    assert p[1..] == t + "%";
    LikePrefix(t, s);
    if |s| > 0 {
      LikeSubstring(t, s[1..]);
      assert Lower(s)[1..] == Lower(s[1..]);
    }
  }

  /** LIKE ignores the ASCII case of its pattern. */
  lemma {:induction false} LikeIgnoresPatternCase(pattern: string, s: string)
    ensures Like(Lower(pattern), s) == Like(pattern, s)
    decreases |pattern|, |s|
  {
    var lp := Lower(pattern);
    if |pattern| > 0 {
      assert lp[1..] == Lower(pattern[1..]);
      if pattern[0] == '%' {
        LikeIgnoresPatternCase(pattern[1..], s);
        if |s| > 0 {
          LikeIgnoresPatternCase(pattern, s[1..]);
        }
      } else if |s| > 0 {
        LikeIgnoresPatternCase(pattern[1..], s[1..]);
      }
    }
  }

  /** LIKE ignores the ASCII case of the text it tests. */
  lemma {:induction false} LikeIgnoresTextCase(pattern: string, s: string)
    ensures Like(pattern, Lower(s)) == Like(pattern, s)
    decreases |pattern|, |s|
  {
    var ls := Lower(s);
    if |pattern| > 0 && |s| > 0 {
      assert ls[1..] == Lower(s[1..]);
      if pattern[0] == '%' {
        LikeIgnoresTextCase(pattern[1..], s);
        LikeIgnoresTextCase(pattern, s[1..]);
      } else {
        LikeIgnoresTextCase(pattern[1..], s[1..]);
      }
    } else if |pattern| > 0 && pattern[0] == '%' {
      LikeIgnoresTextCase(pattern[1..], s);
    }
  }

  // ---------------------------------------------------------------------------
  // WHERE conditions

  datatype Column = Name | Category | Subcategories | Rarity

  function Field(it: Item, c: Column): string {
    match c
    case Name => it.name
    case Category => it.category
    case Subcategories => it.subcategories
    case Rarity => it.rarity
  }

  /** The conditions the code places in a WHERE clause. */
  datatype Expr =
    | Always                                              // 1=1
    | ColumnLike(column: Column, lowered: bool, pattern: string)  // col LIKE ?, LOWER(col) LIKE ?
    | LowerEquals(column: Column, value: string)          // LOWER(col) = ?
    | VoiIs(flag: bool)                                   // voi = ?
    | AllOf(conjuncts: seq<Expr>)                         // c1 AND c2 AND ...
    | AnyOf(disjuncts: seq<Expr>)                         // c1 OR c2 OR ...

  predicate Eval(e: Expr, it: Item)
    decreases e
  {
    match e
    case Always => true
    case ColumnLike(c, lowered, p) => Like(p, if lowered then Lower(Field(it, c)) else Field(it, c))
    case LowerEquals(c, v) => Lower(Field(it, c)) == v
    case VoiIs(b) => it.voi == b
    case AllOf(es) => forall i :: 0 <= i < |es| ==> Eval(es[i], it)
    case AnyOf(es) => exists i :: 0 <= i < |es| && Eval(es[i], it)
  }

  /** Why SQLite rejects a statement: a WHERE with nothing after it, or a
      stray `AND` keyword spliced between two conditions. */
  datatype SqlError = EmptyCondition | StrayAnd

  datatype Outcome<+T> = Ok(value: T) | Fails(error: SqlError)

  /** One element of the Python list that is joined into the WHERE text: a
      condition, or the literal string "AND". */
  datatype Fragment = Condition(expr: Expr) | AndKeyword

  function Conditions(frags: seq<Fragment>): (es: seq<Expr>)
    requires AndKeyword !in frags
    ensures |es| == |frags|
    ensures forall i :: 0 <= i < |frags| ==> frags[i] == Condition(es[i])
  {
    assert forall i :: 0 <= i < |frags| ==> frags[i] in frags && frags[i].Condition?;
    seq(|frags|, i requires 0 <= i < |frags| => frags[i].expr)
  }

  /** The WHERE clause `" AND ".join(frags)` (conjunctive) or
      `" OR ".join(frags)`: empty text and a doubled keyword do not parse, and
      otherwise a row passes when all (any) of the conditions hold. */
  function JoinConditions(frags: seq<Fragment>, conjunctive: bool): (r: Outcome<Expr>)
    ensures r.Fails? <==> |frags| == 0 || AndKeyword in frags
    ensures r.Fails? && |frags| == 0 ==> r.error == EmptyCondition
    ensures r.Ok? && conjunctive ==>
      forall it :: Eval(r.value, it) <==> forall i :: 0 <= i < |frags| ==> Eval(frags[i].expr, it)
    ensures r.Ok? && !conjunctive ==>
      forall it :: Eval(r.value, it) <==> exists i :: 0 <= i < |frags| && Eval(frags[i].expr, it)
  {
    if |frags| == 0 then Fails(EmptyCondition)
    else if AndKeyword in frags then Fails(StrayAnd)
    else if conjunctive then Ok(AllOf(Conditions(frags)))
    else Ok(AnyOf(Conditions(frags)))
  }

  /** The rows that satisfy `e`, in table order. */
  function Where(rows: seq<Item>, e: Expr): (r: seq<Item>)
    ensures |r| <= |rows|
    ensures forall it :: it in r <==> it in rows && Eval(e, it)
  {
    if |rows| == 0 then []
    else if Eval(e, rows[0]) then [rows[0]] + Where(rows[1..], e)
    else Where(rows[1..], e)
  }

  /** Every row either satisfies a condition or fails it: the two selections
      partition the table. */
  lemma {:induction false} WhereSplitsTable(rows: seq<Item>, e: Expr, f: Expr)
    requires forall it :: Eval(f, it) <==> !Eval(e, it)
    ensures |Where(rows, e)| + |Where(rows, f)| == |rows|
  {
    if |rows| > 0 {
      WhereSplitsTable(rows[1..], e, f);
    }
  }

  /** Equivalent conditions select the same rows. */
  lemma {:induction false} WhereEquivalent(rows: seq<Item>, e: Expr, f: Expr)
    requires forall it :: Eval(e, it) <==> Eval(f, it)
    ensures Where(rows, e) == Where(rows, f)
  {
    if |rows| > 0 {
      WhereEquivalent(rows[1..], e, f);
    }
  }

  // ---------------------------------------------------------------------------
  // ORDER BY

  /** The `CASE rarity WHEN ... END` sort key: relic 1, legendary 2, named 3,
      hallowtide 4, normal 5, anything else 6. The comparison is exact, so
      case matters. */
  function RarityRank(rarity: string): nat {
    if rarity == "relic" then 1
    else if rarity == "legendary" then 2
    else if rarity == "named" then 3
    else if rarity == "hallowtide" then 4
    else if rarity == "normal" then 5
    else 6
  }

  predicate KnownRarity(rarity: string) {
    rarity in ["relic", "legendary", "named", "hallowtide", "normal"]
  }

  /** Known rarities are ranked in table order, and every other string ranks
      after all of them. */
  lemma RarityRankOrder(a: string, b: string)
    ensures KnownRarity(a) ==> 1 <= RarityRank(a) <= 5
    ensures !KnownRarity(a) ==> RarityRank(a) == 6
    ensures KnownRarity(a) && !KnownRarity(b) ==> RarityRank(a) < RarityRank(b)
    ensures RarityRank("relic") < RarityRank("legendary") < RarityRank("named")
            < RarityRank("hallowtide") < RarityRank("normal")
  {
  }

  /** The two sort orders in use: `ORDER BY <rank>, name` and `ORDER BY name`. */
  datatype Ordering = ByRankThenName | ByName

  /** `a` may come before `b` under the ordering. */
  predicate Precedes(o: Ordering, a: Item, b: Item) {
    match o
    case ByName => LexLe(a.name, b.name)
    case ByRankThenName =>
      RarityRank(a.rarity) < RarityRank(b.rarity)
      || (RarityRank(a.rarity) == RarityRank(b.rarity) && LexLe(a.name, b.name))
  }

  lemma PrecedesTotal(o: Ordering, a: Item, b: Item)
    ensures Precedes(o, a, b) || Precedes(o, b, a)
  {
    LexLeTotal(a.name, b.name);
  }

  lemma PrecedesTransitive(o: Ordering, a: Item, b: Item, c: Item)
    requires Precedes(o, a, b) && Precedes(o, b, c)
    ensures Precedes(o, a, c)
  {
    if LexLe(a.name, b.name) && LexLe(b.name, c.name) {
      LexLeTransitive(a.name, b.name, c.name);
    }
  }

  /** Rows with distinct names never tie: the order between them is strict. */
  lemma PrecedesAntisymmetric(o: Ordering, a: Item, b: Item)
    requires Precedes(o, a, b) && Precedes(o, b, a)
    ensures a.name == b.name
  {
    LexLeAntisymmetric(a.name, b.name);
  }

  predicate SortedBy(o: Ordering, s: seq<Item>) {
    forall i, j :: 0 <= i < j < |s| ==> Precedes(o, s[i], s[j])
  }

  lemma SortedCons(o: Ordering, h: Item, t: seq<Item>)
    requires SortedBy(o, t)
    requires forall y :: y in t ==> Precedes(o, h, y)
    ensures SortedBy(o, [h] + t)
  {
    var s := [h] + t;
    forall i, j | 0 <= i < j < |s|
      ensures Precedes(o, s[i], s[j])
    {
      if i > 0 {
        assert s[i] == t[i - 1] && s[j] == t[j - 1];
      } else {
        assert s[j] == t[j - 1] && t[j - 1] in t;
      }
    }
  }

  /** Insertion of one row into a sorted list. */
  function Insert(o: Ordering, x: Item, s: seq<Item>): (r: seq<Item>)
    requires SortedBy(o, s)
    ensures SortedBy(o, r)
    ensures multiset(r) == multiset(s) + multiset{x}
  {
    if |s| == 0 then [x]
    else if Precedes(o, x, s[0]) then
      InsertFirst(o, x, s);
      [x] + s
    else
      var rest := Insert(o, x, s[1..]);
      InsertAfter(o, x, s, rest);
      assert s == [s[0]] + s[1..];
      [s[0]] + rest
  }

  lemma InsertFirst(o: Ordering, x: Item, s: seq<Item>)
    requires SortedBy(o, s) && |s| > 0 && Precedes(o, x, s[0])
    ensures SortedBy(o, [x] + s)
  {
    forall y | y in s
      ensures Precedes(o, x, y)
    {
      var j :| 0 <= j < |s| && s[j] == y;
      if j > 0 {
        PrecedesTransitive(o, x, s[0], y);
      }
    }
    SortedCons(o, x, s);
  }

  lemma InsertAfter(o: Ordering, x: Item, s: seq<Item>, rest: seq<Item>)
    requires SortedBy(o, s) && |s| > 0 && !Precedes(o, x, s[0])
    requires SortedBy(o, rest) && multiset(rest) == multiset(s[1..]) + multiset{x}
    ensures SortedBy(o, [s[0]] + rest)
  {
    PrecedesTotal(o, x, s[0]);
    forall y | y in rest
      ensures Precedes(o, s[0], y)
    {
      assert y in multiset(rest);
      if y != x {
        assert y in multiset(s[1..]);
        var j :| 0 <= j < |s[1..]| && s[1..][j] == y;
        assert s[j + 1] == y;
      }
    }
    SortedCons(o, s[0], rest);
  }

  /** A sorted permutation of the rows (insertion sort). */
  function Sort(o: Ordering, s: seq<Item>): (r: seq<Item>)
    ensures SortedBy(o, r)
    ensures multiset(r) == multiset(s)
    ensures |r| == |s|
  {
    if |s| == 0 then []
    else
      assert s == [s[0]] + s[1..];
      Insert(o, s[0], Sort(o, s[1..]))
  }

  // ---------------------------------------------------------------------------
  // SELECT

  /** `SELECT ... WHERE e ORDER BY o` with no limit: every matching row, sorted. */
  function Select(rows: seq<Item>, e: Expr, o: Ordering): (r: seq<Item>)
    ensures SortedBy(o, r)
    ensures multiset(r) == multiset(Where(rows, e))
    ensures |r| == |Where(rows, e)|
    ensures forall it :: it in r <==> it in rows && Eval(e, it)
  {
    var r := Sort(o, Where(rows, e));
    assert forall it :: it in r <==> it in multiset(r);
    r
  }

  /** `SELECT ... WHERE e ORDER BY o LIMIT limit`: the first `limit` rows of the
      sorted selection. A matching row is left out only when the limit is
      reached, and then every returned row sorts no later than it. */
  function SelectLimit(rows: seq<Item>, e: Expr, o: Ordering, limit: nat): (r: seq<Item>)
    ensures |r| == Min(limit, |Where(rows, e)|)
    ensures multiset(r) <= multiset(Where(rows, e))
    ensures forall it :: it in r ==> it in rows && Eval(e, it)
    ensures SortedBy(o, r)
    ensures forall x :: x in rows && Eval(e, x) && x !in r ==>
      |r| == limit && forall y :: y in r ==> Precedes(o, y, x)
  {
    var all := Select(rows, e, o);
    LimitKeepsLeast(o, all, limit);
    PrefixMultiset(all, Min(limit, |all|));
    all[..Min(limit, |all|)]
  }

  /** A prefix holds each element at most as often as the whole sequence. */
  lemma PrefixMultiset(s: seq<Item>, n: nat)
    requires n <= |s|
    ensures multiset(s[..n]) <= multiset(s)
  {
    assert s == s[..n] + s[n..];
  }

  /** The rows satisfying `P`, in table order: `Where` for a condition given
      by its meaning rather than its SQL form. */
  ghost function Matching(rows: seq<Item>, P: Item -> bool): (r: seq<Item>)
    ensures forall it :: it in r <==> it in rows && P(it)
  {
    if |rows| == 0 then []
    else if P(rows[0]) then [rows[0]] + Matching(rows[1..], P)
    else Matching(rows[1..], P)
  }

  lemma {:induction false} WhereMatching(rows: seq<Item>, e: Expr, P: Item -> bool)
    requires forall it :: Eval(e, it) <==> P(it)
    ensures Where(rows, e) == Matching(rows, P)
  {
    if |rows| > 0 {
      WhereMatching(rows[1..], e, P);
    }
  }

  /** `rows` is what `ORDER BY o LIMIT limit` returns from the rows of
      `catalog` satisfying `P`: as many of them as the limit allows, each
      at most as often as in the catalog, sorted, and a satisfying row is
      missing only when the limit is reached by rows that sort before it. */
  ghost predicate FirstMatches(o: Ordering, catalog: seq<Item>, rows: seq<Item>, P: Item -> bool, limit: nat) {
    && |rows| == Min(limit, |Matching(catalog, P)|)
    && multiset(rows) <= multiset(Matching(catalog, P))
    && SortedBy(o, rows)
    && (forall it :: it in rows ==> it in catalog && P(it))
    && (forall it :: it in catalog && P(it) && it !in rows ==>
          |rows| == limit && forall y :: y in rows ==> Precedes(o, y, it))
  }

  /** A limited selection whose condition means `P` returns the first
      matches of `P`. */
  lemma SelectLimitFirstMatches(catalog: seq<Item>, e: Expr, P: Item -> bool, o: Ordering, limit: nat)
    requires forall it :: Eval(e, it) <==> P(it)
    ensures FirstMatches(o, catalog, SelectLimit(catalog, e, o, limit), P, limit)
  {
    WhereMatching(catalog, e, P);
  }

  /** The result depends on the condition only through the rows it selects. */
  lemma SelectLimitEquivalent(rows: seq<Item>, e: Expr, f: Expr, o: Ordering, limit: nat)
    requires forall it :: Eval(e, it) <==> Eval(f, it)
    ensures SelectLimit(rows, e, o, limit) == SelectLimit(rows, f, o, limit)
  {
    WhereEquivalent(rows, e, f);
  }

  lemma LimitKeepsLeast(o: Ordering, all: seq<Item>, limit: nat)
    requires SortedBy(o, all)
    ensures var r := all[..Min(limit, |all|)];
      forall x :: x in all && x !in r ==> |r| == limit && forall y :: y in r ==> Precedes(o, y, x)
  {
    var r := all[..Min(limit, |all|)];
    forall x | x in all && x !in r
      ensures |r| == limit && forall y :: y in r ==> Precedes(o, y, x)
    {
      var k :| 0 <= k < |all| && all[k] == x;
      assert forall j :: 0 <= j < |r| ==> r[j] == all[j] && r[j] in r;
      forall y | y in r
        ensures Precedes(o, y, x)
      {
        var j :| 0 <= j < |r| && r[j] == y;
        assert all[j] == y;
      }
    }
  }
}
