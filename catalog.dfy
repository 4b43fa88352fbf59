/**
 * The catalog built by loadRecipes (recipe.js:2-8, 20-47), with the download left out: the
 * text is given. The text is trimmed and split into lines, the header line is skipped, every
 * other line is parsed, rows with fewer than six fields are dropped, the first six fields
 * become a recipe, and only recipes whose name is on the allow-list are kept. The catalog is
 * then sorted by the position of each name on the allow-list, with a stable sort.
 */
module Catalog {
  import opened Wrappers
  import Text
  import Numbers
  import CsvLine
  import Sorting

  datatype Recipe = Recipe(
    soupName: string,
    difficulty: string,
    ingredients: string,
    cookTimeMinutes: Option<int>,
    instructions: string,
    source: string)

  /** SUPPORTED_SOUPS: the soups shown, in the order they are shown. */
  const SupportedSoups: seq<string> := [
    "Lotus Root with Peanut Soup",
    "ABC Soup",
    "Watercress Soup",
    "Old Cucumber Soup",
    "Herbal Chicken Soup"
  ]

  /** Array.prototype.indexOf: the first position of name, or -1. */
  function IndexOf(names: seq<string>, name: string): (i: int)
    ensures -1 <= i < |names|
    ensures i == -1 <==> name !in names
    ensures 0 <= i ==> names[i] == name && forall j :: 0 <= j < i ==> names[j] != name
  {
    if names == [] then -1
    else if names[0] == name then 0
    else
      var j := IndexOf(names[1..], name);
      assert names == [names[0]] + names[1..];
      if j < 0 then -1 else j + 1
  }

  /** The sort key: the position of the recipe's name on the allow-list, -1 when absent. */
  function Rank(r: Recipe): int {
    IndexOf(SupportedSoups, r.soupName)
  }

  /** The recipe a data line describes, if it has at least six fields and a supported name. */
  function RecipeOfRow(line: string): Option<Recipe> {
    var values := CsvLine.ParseLine(line);
    if |values| >= 6 && values[0] in SupportedSoups then
      Some(Recipe(values[0], values[1], values[2], Numbers.ParseInt(values[3]), values[4], values[5]))
    else None
  }

  /** The lines after the header: csvText.trim().split('\n') without line 0. */
  function DataLines(text: string): seq<string> {
    Text.SplitOn(Text.Trim(text), '\n')[1..]
  }

  /** The values that are present, in order. */
  function Present<T>(os: seq<Option<T>>): seq<T> {
    if os == [] then []
    else Present(os[..|os| - 1]) + (if os[|os| - 1].Some? then [os[|os| - 1].value] else [])
  }

  /** Array.prototype.map. */
  function Map<A, B>(f: A -> B, xs: seq<A>): seq<B> {
    seq(|xs|, i requires 0 <= i < |xs| => f(xs[i]))
  }

  function RowResults(lines: seq<string>): seq<Option<Recipe>> {
    Map(RecipeOfRow, lines)
  }

  /** The recipes the loop pushes, in line order. */
  function KeptRecipes(lines: seq<string>): seq<Recipe> {
    Present(RowResults(lines))
  }

  /** The catalog after loadRecipes: the recipes already loaded, then the kept rows, sorted. */
  function LoadedCatalog(existing: seq<Recipe>, text: string): seq<Recipe> {
    Sorting.SortedByKey(existing + KeptRecipes(DataLines(text)), Rank)
  }

  // Rows to recipes.

  lemma RankRange(r: Recipe)
    ensures -1 <= Rank(r) < |SupportedSoups|
    ensures Rank(r) == -1 <==> r.soupName !in SupportedSoups
  {
  }

  /**
   * A recipe comes exactly from a line with six fields or more and an allow-listed first
   * field; it holds the first six fields, the fourth read by parseInt, and the rest is ignored.
   */
  lemma RecipeOfRowFields(line: string)
    ensures RecipeOfRow(line).Some? <==>
      |CsvLine.ParseLine(line)| >= 6 && CsvLine.ParseLine(line)[0] in SupportedSoups
    ensures RecipeOfRow(line).Some? ==>
      var v, r := CsvLine.ParseLine(line), RecipeOfRow(line).value;
      [r.soupName, r.difficulty, r.ingredients, v[3], r.instructions, r.source] == v[..6]
      && r.cookTimeMinutes == Numbers.ParseInt(v[3])
  {
  }

  /** A field written in double quotes, so that commas in it stay in it. */
  function Quoted(f: string): string {
    "\"" + f + "\""
  }

  function QuotedRow(fields: seq<string>): string {
    Text.Join(Map(Quoted, fields), ',')
  }

  lemma MapSnoc<A, B>(f: A -> B, xs: seq<A>, x: A)
    ensures Map(f, xs + [x]) == Map(f, xs) + [f(x)]
  {
  }

  lemma MapTail<A, B>(f: A -> B, xs: seq<A>)
    requires xs != []
    ensures Map(f, xs) == [f(xs[0])] + Map(f, xs[1..])
  {
  }

  lemma QuotedRowCons(fields: seq<string>)
    requires |fields| > 1
    ensures QuotedRow(fields) == Quoted(fields[0]) + [','] + QuotedRow(fields[1..])
  {
    MapTail(Quoted, fields);
  }

  /** A row of quoted fields reads back as those fields, trimmed. */
  lemma {:induction false} QuotedRowReadsBack(fields: seq<string>)
    requires fields != []
    requires forall i :: 0 <= i < |fields| ==> '"' !in fields[i]
    ensures CsvLine.ParseLine(QuotedRow(fields)) == Text.TrimAll(fields)
  {
    var q := Quoted(fields[0]);
    assert q == ['"'] + fields[0] + ['"'];
    if |fields| == 1 {
      CsvLine.QuotedField(fields[0]);
    } else {
      var rest := fields[1..];
      QuotedRowReadsBack(rest);
      QuotedRowCons(fields);
      QuotedFieldThenMore(fields[0], QuotedRow(rest));
      assert Text.TrimAll(fields) == [Text.Trim(fields[0])] + Text.TrimAll(rest);
    }
  }

  lemma QuotedFieldThenMore(f: string, more: string)
    requires '"' !in f
    ensures CsvLine.ParseLine(Quoted(f) + [','] + more) == [Text.Trim(f)] + CsvLine.ParseLine(more)
  {
    var q := Quoted(f);
    assert q == ['"'] + f + ['"'];
    CsvLine.QuotedField(f);
    assert CsvLine.QuoteCount(q) == 2 by {
      assert multiset(q) == multiset{'"'} + multiset(f) + multiset{'"'};
    }
    CsvLine.SplitAtSeparator(q, more);
  }

  /** The cook time as a field: its decimal form, or NaN, which parseInt reads as NaN. */
  function CookTimeField(minutes: Option<int>): string {
    match minutes
    case Some(m) => Numbers.IntToString(m)
    case None => "NaN"
  }

  /** The six fields a recipe is written as, in the order the loader reads them. */
  function RecipeFields(r: Recipe): seq<string> {
    [r.soupName, r.difficulty, r.ingredients, CookTimeField(r.cookTimeMinutes), r.instructions, r.source]
  }

  /** Text that survives a round trip through a quoted field on a line of its own. */
  predicate WritableText(f: string) {
    Text.IsTrimmed(f) && '"' !in f && '\n' !in f
  }

  predicate Writable(r: Recipe) {
    && r.soupName in SupportedSoups
    && WritableText(r.soupName) && WritableText(r.difficulty) && WritableText(r.ingredients)
    && WritableText(r.instructions) && WritableText(r.source)
  }

  /** A recipe written as one row of quoted fields. */
  function RecipeRow(r: Recipe): string {
    QuotedRow(RecipeFields(r))
  }

  lemma CookTimeFieldReadsBack(minutes: Option<int>)
    ensures WritableText(CookTimeField(minutes))
    ensures Numbers.ParseInt(CookTimeField(minutes)) == minutes
  {
    match minutes
    case Some(m) =>
      var n := Numbers.IntToString(m);
      Numbers.IntToStringIsNumeral(m);
      Numbers.ParseIntOfIntToString(m, []);
      assert n + [] == n;
    case None =>
      Numbers.ParseIntOfNaNIsNaN();
  }

  lemma RecipeFieldsWritable(r: Recipe)
    requires Writable(r)
    ensures forall i :: 0 <= i < |RecipeFields(r)| ==> WritableText(RecipeFields(r)[i])
  {
    CookTimeFieldReadsBack(r.cookTimeMinutes);
  }

  /** The row of a writable recipe parses back into exactly the fields it was written from. */
  lemma RecipeRowParses(r: Recipe)
    requires Writable(r)
    ensures CsvLine.ParseLine(RecipeRow(r)) == RecipeFields(r)
  {
    var fields := RecipeFields(r);
    RecipeFieldsWritable(r);
    QuotedRowReadsBack(fields);
    Text.TrimAllOfTrimmed(fields);
  }

  /** Writing a recipe as a row and reading the row gives the recipe back. */
  lemma RecipeRowRoundTrip(r: Recipe)
    requires Writable(r)
    ensures RecipeOfRow(RecipeRow(r)) == Some(r)
  {
    RecipeRowParses(r);
    CookTimeFieldReadsBack(r.cookTimeMinutes);
  }

  /** A character that is neither a quote nor a comma is in a row only if it is in a field. */
  lemma QuotedRowAvoids(fields: seq<string>, c: char)
    requires c != '"' && c != ','
    requires forall i :: 0 <= i < |fields| ==> c !in fields[i]
    ensures c !in QuotedRow(fields)
  {
    var quoted := Map(Quoted, fields);
    forall i | 0 <= i < |quoted|
      ensures c !in quoted[i]
    {
      assert quoted[i] == Quoted(fields[i]);
    }
    Text.JoinAvoids(quoted, ',', c);
  }

  lemma QuotedRowEndsInQuote(fields: seq<string>)
    requires fields != []
    ensures QuotedRow(fields) != [] && QuotedRow(fields)[|QuotedRow(fields)| - 1] == '"'
  {
    var quoted := Map(Quoted, fields);
    assert quoted[|quoted| - 1] == Quoted(fields[|fields| - 1]);
    Text.JoinLast(quoted, ',');
  }

  /** A row is one line: it ends in a quote and holds no line break. */
  lemma RecipeRowIsOneLine(r: Recipe)
    requires Writable(r)
    ensures '\n' !in RecipeRow(r)
    ensures RecipeRow(r) != [] && RecipeRow(r)[|RecipeRow(r)| - 1] == '"'
  {
    var fields := RecipeFields(r);
    RecipeFieldsWritable(r);
    QuotedRowAvoids(fields, '\n');
    QuotedRowEndsInQuote(fields);
  }

  // The kept rows.

  lemma {:induction false} PresentAppend<T>(a: seq<Option<T>>, b: seq<Option<T>>)
    ensures Present(a + b) == Present(a) + Present(b)
    decreases |b|
  {
    if b == [] {
      assert a + b == a;
    } else {
      var init := b[..|b| - 1];
      assert (a + b)[..|a + b| - 1] == a + init;
      PresentAppend(a, init);
    }
  }

  lemma {:induction false} PresentMembers<T>(os: seq<Option<T>>)
    ensures forall x :: x in Present(os) <==> Some(x) in os
  {
    if os != [] {
      var init := os[..|os| - 1];
      PresentMembers(init);
      assert os == init + [os[|os| - 1]];
    }
  }

  lemma MapAppend<A, B>(f: A -> B, a: seq<A>, b: seq<A>)
    ensures Map(f, a + b) == Map(f, a) + Map(f, b)
  {
  }

  /** Rows are kept one by one: the recipes of two runs of lines, one after the other. */
  lemma KeptRecipesAppend(a: seq<string>, b: seq<string>)
    ensures KeptRecipes(a + b) == KeptRecipes(a) + KeptRecipes(b)
  {
    MapAppend(RecipeOfRow, a, b);
    PresentAppend(RowResults(a), RowResults(b));
  }

  /** One more line adds its recipe, if it has one, at the end. */
  lemma KeptRecipesSnoc(lines: seq<string>, line: string)
    ensures KeptRecipes(lines + [line]) ==
      KeptRecipes(lines) + (if RecipeOfRow(line).Some? then [RecipeOfRow(line).value] else [])
  {
    KeptRecipesAppend(lines, [line]);
    var one := RowResults([line]);
    assert one == [RecipeOfRow(line)];
    assert one[..|one| - 1] == [];
    assert Present(one) == Present<Recipe>([]) + (if one[0].Some? then [one[0].value] else []);
  }

  /** A recipe is kept exactly when some line produces it, and its name is allow-listed. */
  lemma PresentOfMap<A, T>(f: A -> Option<T>, xs: seq<A>)
    ensures forall r :: r in Present(Map(f, xs)) <==> exists i :: 0 <= i < |xs| && f(xs[i]) == Some(r)
  {
    var os := Map(f, xs);
    PresentMembers(os);
    forall r
      ensures Some(r) in os <==> exists i :: 0 <= i < |xs| && f(xs[i]) == Some(r)
    {
      if Some(r) in os {
        var i :| 0 <= i < |os| && os[i] == Some(r);
        assert f(xs[i]) == Some(r);
      }
      if exists i :: 0 <= i < |xs| && f(xs[i]) == Some(r) {
        var i :| 0 <= i < |xs| && f(xs[i]) == Some(r);
        assert os[i] == Some(r);
      }
    }
  }

  lemma KeptRecipesMembers(lines: seq<string>)
    ensures forall r :: r in KeptRecipes(lines) <==>
      exists i :: 0 <= i < |lines| && RecipeOfRow(lines[i]) == Some(r)
    ensures forall r :: r in KeptRecipes(lines) ==> r.soupName in SupportedSoups
  {
    PresentOfMap(RecipeOfRow, lines);
    forall r | r in KeptRecipes(lines)
      ensures r.soupName in SupportedSoups
    {
      var i :| 0 <= i < |lines| && RecipeOfRow(lines[i]) == Some(r);
      RecipeOfRowFields(lines[i]);
    }
  }

  /** Repeated rows are kept as often as they appear: nothing is de-duplicated. */
  lemma DuplicatesAreKept(lines: seq<string>)
    ensures KeptRecipes(lines + lines) == KeptRecipes(lines) + KeptRecipes(lines)
  {
    KeptRecipesAppend(lines, lines);
  }

  // Whole files.

  /** A file: a header line, then one row per recipe. */
  function CatalogText(header: string, rs: seq<Recipe>): string {
    Text.Join([header] + Map(RecipeRow, rs), '\n')
  }

  lemma KeptAfterRow(lines: seq<string>, r: Recipe)
    requires Writable(r)
    ensures KeptRecipes(lines + [RecipeRow(r)]) == KeptRecipes(lines) + [r]
  {
    KeptRecipesSnoc(lines, RecipeRow(r));
    RecipeRowRoundTrip(r);
  }

  /** Reading back the rows of writable recipes gives the recipes, in order. */
  lemma {:induction false} WrittenRowsReadBack(rs: seq<Recipe>)
    requires forall i :: 0 <= i < |rs| ==> Writable(rs[i])
    ensures KeptRecipes(Map(RecipeRow, rs)) == rs
  {
    if rs != [] {
      var init, x := rs[..|rs| - 1], rs[|rs| - 1];
      WrittenRowsReadBack(init);
      assert rs == init + [x];
      MapSnoc(RecipeRow, init, x);
      KeptAfterRow(Map(RecipeRow, init), x);
    }
  }

  lemma RowsAreLines(rs: seq<Recipe>)
    requires forall i :: 0 <= i < |rs| ==> Writable(rs[i])
    ensures forall i :: 0 <= i < |rs| ==> '\n' !in Map(RecipeRow, rs)[i]
    ensures rs != [] ==> var last := Map(RecipeRow, rs)[|rs| - 1];
      last != [] && last[|last| - 1] == '"'
  {
    forall i | 0 <= i < |rs|
      ensures '\n' !in RecipeRow(rs[i]) && RecipeRow(rs[i]) != []
      ensures RecipeRow(rs[i])[|RecipeRow(rs[i])| - 1] == '"'
    {
      RecipeRowIsOneLine(rs[i]);
    }
  }

  /** A file starts with its header and ends with a quote or the header, so trim keeps it. */
  lemma CatalogTextIsTrimmed(header: string, rs: seq<Recipe>)
    requires header != [] && Text.IsTrimmed(header) && '\n' !in header
    requires forall i :: 0 <= i < |rs| ==> Writable(rs[i])
    ensures Text.IsTrimmed(CatalogText(header, rs))
  {
    var ps := [header] + Map(RecipeRow, rs);
    RowsAreLines(rs);
    Text.JoinStart(ps, '\n');
    Text.JoinLast(ps, '\n');
  }

  /** The data lines of a file are its rows: the header is skipped and nothing else is. */
  lemma DataLinesOfCatalogText(header: string, rs: seq<Recipe>)
    requires header != [] && Text.IsTrimmed(header) && '\n' !in header
    requires forall i :: 0 <= i < |rs| ==> Writable(rs[i])
    ensures DataLines(CatalogText(header, rs)) == Map(RecipeRow, rs)
  {
    var rows := Map(RecipeRow, rs);
    var ps := [header] + rows;
    RowsAreLines(rs);
    assert forall p :: p in ps ==> '\n' !in p;
    CatalogTextIsTrimmed(header, rs);
    Text.TrimOfTrimmed(CatalogText(header, rs));
    Text.SplitOnJoin(ps, '\n');
    assert ps[1..] == rows;
  }

  /**
   * Loading a file written from writable recipes gives those recipes back, sorted: the
   * partner of the loader, a writer whose output it reads without loss.
   */
  lemma LoadWrittenCatalog(header: string, rs: seq<Recipe>)
    requires header != [] && Text.IsTrimmed(header) && '\n' !in header
    requires forall i :: 0 <= i < |rs| ==> Writable(rs[i])
    ensures LoadedCatalog([], CatalogText(header, rs)) == Sorting.SortedByKey(rs, Rank)
  {
    DataLinesOfCatalogText(header, rs);
    WrittenRowsReadBack(rs);
    assert [] + rs == rs;
  }

  // The loaded catalog.

  predicate AllSupported(rs: seq<Recipe>) {
    forall i :: 0 <= i < |rs| ==> rs[i].soupName in SupportedSoups
  }

  /**
   * After loading, the catalog is ordered by allow-list position and holds exactly the
   * recipes that were there and those kept from the text, as often as they occur; every name
   * is allow-listed when the earlier ones were.
   */
  lemma LoadedCatalogFacts(existing: seq<Recipe>, text: string)
    ensures Sorting.Ordered(LoadedCatalog(existing, text), Rank)
    ensures multiset(LoadedCatalog(existing, text)) ==
      multiset(existing) + multiset(KeptRecipes(DataLines(text)))
    ensures AllSupported(existing) ==> AllSupported(LoadedCatalog(existing, text))
  {
    var all := existing + KeptRecipes(DataLines(text));
    var t := LoadedCatalog(existing, text);
    Sorting.SortIsOrdered(all, Rank);
    Sorting.SortPermutes(all, Rank);
    KeptRecipesMembers(DataLines(text));
    if AllSupported(existing) {
      forall i | 0 <= i < |t|
        ensures t[i].soupName in SupportedSoups
      {
        assert t[i] in multiset(all);
        var j :| 0 <= j < |all| && all[j] == t[i];
        if j >= |existing| {
          assert all[j] in KeptRecipes(DataLines(text));
        }
      }
    }
  }

  /**
   * The loaded catalog, described without sorting: the Lotus Root recipes, then the ABC Soup
   * ones, and so on down the allow-list, each group in the order the recipes arrived.
   */
  lemma LoadedCatalogIsGrouped(existing: seq<Recipe>, text: string)
    requires AllSupported(existing)
    ensures LoadedCatalog(existing, text) ==
      Sorting.GroupedFrom(existing + KeptRecipes(DataLines(text)), Rank, 0, |SupportedSoups|)
  {
    var all := existing + KeptRecipes(DataLines(text));
    KeptRecipesMembers(DataLines(text));
    forall i | 0 <= i < |all|
      ensures 0 <= Rank(all[i]) < |SupportedSoups|
    {
      RankRange(all[i]);
      if i >= |existing| {
        assert all[i] in KeptRecipes(DataLines(text));
      }
    }
    Sorting.SortIsGrouping(all, Rank, 0, |SupportedSoups|);
  }
}
