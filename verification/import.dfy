/** The spreadsheet importer: every row with an item name becomes one catalog
    row with trimmed and lower-cased fields, inserted unless a row with the
    same name is already there. */
module Import {
  import opened Text
  import opened Optional
  import opened Sql

  // ---------------------------------------------------------------------------
  // Sheet cells

  /** One spreadsheet cell as pandas hands it over: its text (a number
      already rendered as Python's `str` would) or a missing value. */
  datatype Cell = Filled(text: string) | Blank

  /** A column header as the importer compares it: trimmed, then
      lower-cased. */
  function HeaderKey(header: string): string {
    Lower(Strip(header))
  }

  /** The headers after `df.columns = [c.strip().lower() ...]`. */
  function HeaderKeys(headers: seq<string>): (keys: seq<string>)
    ensures |keys| == |headers|
    ensures forall i :: 0 <= i < |headers| ==> keys[i] == HeaderKey(headers[i])
  {
    seq(|headers|, i requires 0 <= i < |headers| => HeaderKey(headers[i]))
  }

  /** `row.get(key)` on a row under normalised headers `keys`: the cell under
      the first column named `key`, or nothing when no column has that name. */
  function Read(keys: seq<string>, cells: seq<Cell>, key: string): Option<Cell>
    decreases |keys|
  {
    if |keys| == 0 || |cells| == 0 then None
    else if keys[0] == key then Some(cells[0])
    else Read(keys[1..], cells[1..], key)
  }

  /** Reading finds the first column with the key, and finds nothing only
      when no column has it. */
  lemma {:induction false} ReadMeaning(keys: seq<string>, cells: seq<Cell>, key: string)
    ensures Read(keys, cells, key).None? <==> forall i :: 0 <= i < |keys| && i < |cells| ==> keys[i] != key
    ensures Read(keys, cells, key).Some? ==>
      exists i :: 0 <= i < |keys| && i < |cells| && keys[i] == key && cells[i] == Read(keys, cells, key).value && forall j :: 0 <= j < i ==> keys[j] != key
    decreases |keys|
  {
    if |keys| > 0 && |cells| > 0 && keys[0] != key {
      ReadMeaning(keys[1..], cells[1..], key);
      assert forall i :: 1 <= i < |keys| && i < |cells| ==> keys[1..][i - 1] == keys[i] && cells[1..][i - 1] == cells[i];
      if Read(keys, cells, key).Some? {
        var i :| 0 <= i < |keys[1..]| && i < |cells[1..]| && keys[1..][i] == key && cells[1..][i] == Read(keys, cells, key).value
          && forall j :: 0 <= j < i ==> keys[1..][j] != key;
        assert keys[i + 1] == key && cells[i + 1] == Read(keys, cells, key).value;
        assert forall j :: 0 <= j < i + 1 ==> keys[j] != key by {
          forall j | 0 <= j < i + 1 ensures keys[j] != key {
            if j > 0 {
              assert keys[1..][j - 1] == keys[j];
            }
          }
        }
      }
    }
  }

  /** `str(row.get(key, ""))`: the empty text for a missing column and
      "nan" for a missing value. */
  function CellString(c: Option<Cell>): string {
    match c
    case None => ""
    case Some(Blank) => "nan"
    case Some(Filled(t)) => t
  }

  /** The spellings the importer takes for a set voi flag. */
  predicate VoiTruthText(t: string) {
    t == "yes" || t == "true" || t == "1"
  }

  /** The stored voi flag: set exactly when the trimmed, lower-cased text is
      one of the three truth spellings. */
  predicate VoiFlag(c: Option<Cell>) {
    VoiTruthText(Lower(Strip(CellString(c))))
  }

  // ---------------------------------------------------------------------------
  // One row

  /** The catalog row a spreadsheet row becomes, or nothing for a row whose
      item name is missing. */
  function RowItem(headers: seq<string>, cells: seq<Cell>): (r: Option<Item>)
    ensures r.None? <==> Read(HeaderKeys(headers), cells, "item_name") in {None, Some(Blank)}
  {
    var keys := HeaderKeys(headers);
    match Read(keys, cells, "item_name")
    case None => None
    case Some(Blank) => None
    case Some(Filled(n)) =>
      Some(Item(
        Strip(n),
        Lower(Strip(CellString(Read(keys, cells, "category")))),
        Lower(Strip(CellString(Read(keys, cells, "subcategories")))),
        Lower(Strip(CellString(Read(keys, cells, "rarity")))),
        VoiFlag(Read(keys, cells, "voi")),
        Strip(CellString(Read(keys, cells, "notes")))))
  }

  /** How a stored text field relates to its cell: empty when the column is
      missing, "nan" for a blank cell, and otherwise the cell's text
      trimmed, and lower-cased as well when `lower` holds. */
  predicate StoredFrom(v: string, c: Option<Cell>, lower: bool) {
    match c
    case None => v == ""
    case Some(Blank) => v == "nan"
    case Some(Filled(t)) => v == if lower then Lower(Strip(t)) else Strip(t)
  }

  /** An imported row takes each field from the cell under its own column:
      the name is the item_name text trimmed with its case kept; category,
      subcategories and rarity are their cells trimmed and lower-cased; the
      notes their cell trimmed; the voi flag reflects the voi cell. Every
      text field is trimmed and the three lower-cased ones are lower-case. */
  lemma RowItemShape(headers: seq<string>, cells: seq<Cell>)
    requires RowItem(headers, cells).Some?
    ensures var keys, it := HeaderKeys(headers), RowItem(headers, cells).value;
      && Read(keys, cells, "item_name").Some? && Read(keys, cells, "item_name").value.Filled?
      && it.name == Strip(Read(keys, cells, "item_name").value.text)
      && StoredFrom(it.category, Read(keys, cells, "category"), true)
      && StoredFrom(it.subcategories, Read(keys, cells, "subcategories"), true)
      && StoredFrom(it.rarity, Read(keys, cells, "rarity"), true)
      && StoredFrom(it.notes, Read(keys, cells, "notes"), false)
      && (it.voi <==> VoiFlag(Read(keys, cells, "voi")))
      && Trimmed(it.name) && Trimmed(it.category) && Trimmed(it.subcategories)
      && Trimmed(it.rarity) && Trimmed(it.notes)
      && Lower(it.category) == it.category && Lower(it.subcategories) == it.subcategories
      && Lower(it.rarity) == it.rarity
  {
    var keys := HeaderKeys(headers);
    NanStored();
    var c := Strip(CellString(Read(keys, cells, "category")));
    var s := Strip(CellString(Read(keys, cells, "subcategories")));
    var r := Strip(CellString(Read(keys, cells, "rarity")));
    LowerKeepsTrimmed(c);
    LowerKeepsTrimmed(s);
    LowerKeepsTrimmed(r);
    LowerIdempotent(c);
    LowerIdempotent(s);
    LowerIdempotent(r);
  }

  /** A blank cell's text "nan" is already trimmed and lower-case. */
  lemma NanStored()
    ensures Lower(Strip("nan")) == "nan" && Strip("nan") == "nan"
  {
    StripWord("nan");
    LowerOfLowercase("nan");
  }

  /** Lower-casing a trimmed text leaves it trimmed. */
  lemma LowerKeepsTrimmed(s: string)
    requires Trimmed(s)
    ensures Trimmed(Lower(s))
  {
    if |s| > 0 {
      LowerCharKeepsSpace(s[0]);
      LowerCharKeepsSpace(s[|s| - 1]);
    }
  }

  lemma LowerCharKeepsSpace(c: char)
    ensures IsSpace(LowerChar(c)) <==> IsSpace(c)
  {
  }

  /** A missing voi cell and a blank one (read as "nan") both give an unset
      flag. */
  lemma MissingVoiIsUnset()
    ensures !VoiFlag(None) && !VoiFlag(Some(Blank))
  {
    var e, n := CellString(None), CellString(Some(Blank));
    assert |Strip(e)| == 0;
    StripWord(n);
    LowerOfLowercase(n);
    assert Lower(Strip(n)) == n;
  }

  /** The flag ignores surrounding whitespace and ASCII case. */
  lemma VoiFlagOfPaddedYes(t: string)
    requires t == " Yes "
    ensures VoiFlag(Some(Filled(t)))
  {
    StripPaddedYes(t);
    LowerYes();
    assert CellString(Some(Filled(t))) == t;
  }

  lemma StripPaddedYes(t: string)
    requires t == " Yes "
    ensures Strip(t) == "Yes"
  {
    assert t == [' '] + "Yes" + [' '];
    StripPadded("Yes");
  }

  lemma LowerYes()
    ensures Lower("Yes") == "yes"
  {
  }

  /** A number cell rendered with a fraction, as pandas renders a numeric
      column holding blanks, is not a truth spelling. */
  lemma VoiFlagOfFloatOne(t: string)
    requires t == "1.0"
    ensures !VoiFlag(Some(Filled(t)))
  {
    StripWord(t);
    assert Lower(t) == t;
  }

  // ---------------------------------------------------------------------------
  // The catalog

  /** Some row of the catalog has name `n`. */
  predicate HasName(catalog: seq<Item>, n: string) {
    exists i :: 0 <= i < |catalog| && catalog[i].name == n
  }

  /** The UNIQUE constraint on the name column. */
  predicate UniqueNames(catalog: seq<Item>) {
    forall i, j :: 0 <= i < j < |catalog| ==> catalog[i].name != catalog[j].name
  }

  /** `INSERT OR IGNORE`: the row is appended unless its name is taken, in
      which case the table is left as it is. */
  function InsertOrIgnore(catalog: seq<Item>, it: Item): (r: seq<Item>)
    ensures |catalog| <= |r| <= |catalog| + 1 && r[..|catalog|] == catalog
    ensures |r| > |catalog| <==> !HasName(catalog, it.name)
    ensures |r| > |catalog| ==> r[|catalog|] == it
  {
    if HasName(catalog, it.name) then catalog else catalog + [it]
  }

  /** After an insert-or-ignore the table holds the names it held and the
      new row's name, and no others. */
  lemma InsertNames(catalog: seq<Item>, it: Item)
    ensures forall n :: HasName(InsertOrIgnore(catalog, it), n) <==> HasName(catalog, n) || n == it.name
  {
    var r := InsertOrIgnore(catalog, it);
    assert forall i :: 0 <= i < |catalog| ==> r[i] == catalog[i];
    if |r| > |catalog| {
      assert r[|catalog|].name == it.name;
    }
  }

  /** Insert-or-ignore never admits a second row with a taken name. */
  lemma InsertKeepsUnique(catalog: seq<Item>, it: Item)
    requires UniqueNames(catalog)
    ensures UniqueNames(InsertOrIgnore(catalog, it))
  {
    var r := InsertOrIgnore(catalog, it);
    assert forall i :: 0 <= i < |catalog| ==> r[i] == catalog[i];
  }

  /** The insert-or-ignore fold over the named rows, in sheet order. */
  function Load(catalog: seq<Item>, items: seq<Item>): seq<Item>
    decreases |items|
  {
    if |items| == 0 then catalog
    else InsertOrIgnore(Load(catalog, items[..|items| - 1]), items[|items| - 1])
  }

  /** The items of the named rows, in sheet order: the `continue` on a
      missing name. */
  function Named(headers: seq<string>, rows: seq<seq<Cell>>): (r: seq<Item>)
    ensures |r| <= |rows|
    decreases |rows|
  {
    if |rows| == 0 then []
    else
      var prefix := Named(headers, rows[..|rows| - 1]);
      match RowItem(headers, rows[|rows| - 1])
      case None => prefix
      case Some(it) => prefix + [it]
  }

  /** The named rows are exactly the items of the rows whose item name is
      present. */
  lemma NamedMembers(headers: seq<string>, rows: seq<seq<Cell>>)
    ensures forall it :: it in Named(headers, rows) <==> exists i :: 0 <= i < |rows| && RowItem(headers, rows[i]) == Some(it)
  {
    forall it
      ensures it in Named(headers, rows) <==> exists i :: 0 <= i < |rows| && RowItem(headers, rows[i]) == Some(it)
    {
      NamedHolds(headers, rows, it);
    }
  }

  lemma {:induction false} NamedHolds(headers: seq<string>, rows: seq<seq<Cell>>, it: Item)
    ensures it in Named(headers, rows) <==> exists i :: 0 <= i < |rows| && RowItem(headers, rows[i]) == Some(it)
    decreases |rows|
  {
    if |rows| > 0 {
      NamedHolds(headers, rows[..|rows| - 1], it);
      NamedSnoc(headers, rows, it);
      SomeRowSnoc(headers, rows, it);
    }
  }

  /** The last row adds its item, if any, to the named rows before it. */
  lemma NamedSnoc(headers: seq<string>, rows: seq<seq<Cell>>, it: Item)
    requires |rows| > 0
    ensures it in Named(headers, rows) <==>
      it in Named(headers, rows[..|rows| - 1]) || RowItem(headers, rows[|rows| - 1]) == Some(it)
  {
  }

  /** Some element of `xs` is mapped to `y`. */
  predicate SomeMaps<X, Y(==)>(xs: seq<X>, f: X -> Y, y: Y) {
    exists i :: 0 <= i < |xs| && f(xs[i]) == y
  }

  /** An element mapped to `y` is among the first elements or is the last. */
  lemma SomeMapsSnoc<X, Y>(xs: seq<X>, f: X -> Y, y: Y)
    requires |xs| > 0
    ensures SomeMaps(xs, f, y) <==> SomeMaps(xs[..|xs| - 1], f, y) || f(xs[|xs| - 1]) == y
  {
    var init := xs[..|xs| - 1];
    if SomeMaps(xs, f, y) {
      var i :| 0 <= i < |xs| && f(xs[i]) == y;
      if i < |init| {
        assert init[i] == xs[i];
      }
    }
    if SomeMaps(init, f, y) {
      var i :| 0 <= i < |init| && f(init[i]) == y;
      assert init[i] == xs[i];
    }
  }

  /** A row yielding `it` is among the first rows or is the last one. */
  lemma SomeRowSnoc(headers: seq<string>, rows: seq<seq<Cell>>, it: Item)
    requires |rows| > 0
    ensures (exists i :: 0 <= i < |rows| && RowItem(headers, rows[i]) == Some(it)) <==>
      SomeMaps(rows[..|rows| - 1], (row: seq<Cell>) => RowItem(headers, row), Some(it))
      || RowItem(headers, rows[|rows| - 1]) == Some(it)
  {
    SomeMapsSnoc(rows, (row: seq<Cell>) => RowItem(headers, row), Some(it));
  }

  /** Headers that agree once trimmed and lower-cased read the same row. */
  lemma HeadersCompareNormalised(h1: seq<string>, h2: seq<string>, cells: seq<Cell>)
    requires |h1| == |h2| && forall i :: 0 <= i < |h1| ==> HeaderKey(h1[i]) == HeaderKey(h2[i])
    ensures RowItem(h1, cells) == RowItem(h2, cells)
  {
    assert HeaderKeys(h1) == HeaderKeys(h2);
  }

  /** A header padded with spaces and written in capitals still names its
      column. */
  lemma PaddedHeader(w: string)
    requires NoSpace(w) && |w| > 0
    ensures HeaderKey([' '] + w + [' ']) == Lower(w)
  {
    StripPadded(w);
  }

  /** An item that comes first among the items with its name. */
  predicate FirstOfName(items: seq<Item>, k: int)
    requires 0 <= k < |items|
  {
    forall j :: 0 <= j < k ==> items[j].name != items[k].name
  }

  /** The import keeps every row already in the table, in place, and keeps
      the names unique. */
  lemma {:induction false} LoadExtends(catalog: seq<Item>, items: seq<Item>)
    ensures |catalog| <= |Load(catalog, items)| <= |catalog| + |items|
    ensures Load(catalog, items)[..|catalog|] == catalog
    ensures UniqueNames(catalog) ==> UniqueNames(Load(catalog, items))
    decreases |items|
  {
    if |items| > 0 {
      var init := items[..|items| - 1];
      var prev := Load(catalog, init);
      LoadExtends(catalog, init);
      if UniqueNames(catalog) {
        InsertKeepsUnique(prev, items[|items| - 1]);
      }
      var r := Load(catalog, items);
      assert r[..|prev|] == prev;
      assert r[..|catalog|] == prev[..|catalog|];
    }
  }

  /** After the import the table holds exactly the names it held before and
      the names of the imported rows. */
  lemma {:induction false} LoadNames(catalog: seq<Item>, items: seq<Item>)
    ensures forall n :: HasName(Load(catalog, items), n) <==>
      HasName(catalog, n) || exists k :: 0 <= k < |items| && items[k].name == n
    decreases |items|
  {
    if |items| > 0 {
      var init := items[..|items| - 1];
      LoadNames(catalog, init);
      InsertNames(Load(catalog, init), items[|items| - 1]);
      assert forall k :: 0 <= k < |init| ==> init[k] == items[k];
    }
  }

  /** A row of the result is either a row that was already there, or the
      first imported row with its name, whose name the table did not hold. */
  lemma {:induction false} LoadMembers(catalog: seq<Item>, items: seq<Item>)
    ensures forall x :: x in Load(catalog, items) ==>
      x in catalog || exists k :: 0 <= k < |items| && items[k] == x && !HasName(catalog, x.name) && FirstOfName(items, k)
    decreases |items|
  {
    if |items| > 0 {
      var init := items[..|items| - 1];
      var last := items[|items| - 1];
      var prev := Load(catalog, init);
      LoadMembers(catalog, init);
      LoadNames(catalog, init);
      assert forall k :: 0 <= k < |init| ==> init[k] == items[k];
      assert forall k :: 0 <= k < |init| ==> FirstOfName(init, k) == FirstOfName(items, k);
      var r := Load(catalog, items);
      assert r[..|prev|] == prev;
      forall x | x in r
        ensures x in catalog || exists k :: 0 <= k < |items| && items[k] == x && !HasName(catalog, x.name) && FirstOfName(items, k)
      {
        var i :| 0 <= i < |r| && r[i] == x;
        if i < |prev| {
          assert x == prev[i] && x in prev;
        } else {
          assert x == last && !HasName(prev, last.name);
          assert FirstOfName(items, |items| - 1);
        }
      }
    }
  }

  /** First row wins: the first imported row with a name the table did not
      hold is in the result. */
  lemma {:induction false} FirstRowWins(catalog: seq<Item>, items: seq<Item>)
    ensures forall k :: 0 <= k < |items| && !HasName(catalog, items[k].name) && FirstOfName(items, k) ==>
      items[k] in Load(catalog, items)
    decreases |items|
  {
    if |items| > 0 {
      var init := items[..|items| - 1];
      var last := items[|items| - 1];
      var prev := Load(catalog, init);
      FirstRowWins(catalog, init);
      LoadNames(catalog, init);
      assert forall k :: 0 <= k < |init| ==> init[k] == items[k];
      assert forall k :: 0 <= k < |init| ==> FirstOfName(init, k) == FirstOfName(items, k);
      var r := Load(catalog, items);
      assert r[..|prev|] == prev;
      forall k | 0 <= k < |items| && !HasName(catalog, items[k].name) && FirstOfName(items, k)
        ensures items[k] in r
      {
        if k < |init| {
          assert items[k] in prev;
          var i :| 0 <= i < |prev| && prev[i] == items[k];
          assert r[i] == items[k];
        } else {
          assert !HasName(prev, last.name);
          assert r[|prev|] == last;
        }
      }
    }
  }

  /** A row whose name the table already holds leaves the table as it is. */
  lemma DuplicateIgnored(catalog: seq<Item>, items: seq<Item>, x: Item)
    requires HasName(Load(catalog, items), x.name)
    ensures Load(catalog, items + [x]) == Load(catalog, items)
  {
    assert (items + [x])[..|items|] == items;
  }

  // ---------------------------------------------------------------------------
  // The import loop

  /** One more sheet row: a named row is inserted or ignored, an unnamed
      one is skipped. */
  lemma LoadStep(catalog: seq<Item>, headers: seq<string>, rows: seq<seq<Cell>>, i: nat, row: Option<Item>)
    requires i < |rows| && row == RowItem(headers, rows[i])
    ensures row.None? ==> Load(catalog, Named(headers, rows[..i + 1])) == Load(catalog, Named(headers, rows[..i]))
    ensures row.Some? ==>
      Load(catalog, Named(headers, rows[..i + 1])) == InsertOrIgnore(Load(catalog, Named(headers, rows[..i])), row.value)
  {
    var prefix := Named(headers, rows[..i]);
    assert rows[..i + 1][..i] == rows[..i];
    if row.Some? {
      assert (prefix + [row.value])[..|prefix|] == prefix;
    }
  }

  /** The import run: fold the rows into the table and count the rows that
      added a name. */
  method ImportItems(catalog: seq<Item>, headers: seq<string>, rows: seq<seq<Cell>>)
    returns (table: seq<Item>, inserted: nat)
    requires UniqueNames(catalog)
    ensures table == Load(catalog, Named(headers, rows))
    ensures UniqueNames(table)
    ensures |catalog| <= |table| && table[..|catalog|] == catalog
    ensures inserted == |table| - |catalog|
    ensures inserted <= |Named(headers, rows)| <= |rows|
    ensures forall n :: HasName(table, n) <==>
      HasName(catalog, n) || exists k :: 0 <= k < |Named(headers, rows)| && Named(headers, rows)[k].name == n
  {
    table, inserted := catalog, 0;
    var i := 0;
    assert rows[..i] == [];
    while i < |rows|
      invariant 0 <= i <= |rows|
      invariant table == Load(catalog, Named(headers, rows[..i]))
      invariant |table| >= |catalog| && inserted == |table| - |catalog|
      decreases |rows| - i
    {
      var row := RowItem(headers, rows[i]);
      LoadStep(catalog, headers, rows, i, row);
      if row.Some? {
        var before := |table|;
        table := InsertOrIgnore(table, row.value);
        if |table| > before {
          inserted := inserted + 1;
        }
      }
      i := i + 1;
    }
    assert rows[..|rows|] == rows;
    var named := Named(headers, rows);
    LoadExtends(catalog, named);
    LoadNames(catalog, named);
  }
}
