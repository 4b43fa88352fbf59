/**
 * The state of the page (recipe.js:11, 20-47, 145-205): the global recipes array that
 * loadRecipes fills, and the recipe modal, either closed or showing the detail of one recipe.
 * The DOM writes are abstracted to the values they display.
 */
module Page {
  import opened Wrappers
  import Text
  import Numbers
  import CsvLine
  import Sorting
  import Catalog
  import CookTime
  import Segments
  import Lookups

  /** What the modal displays for a recipe (recipe.js:155-186). */
  datatype RecipeDetail = RecipeDetail(
    image: string,
    title: string,
    cookTime: string,
    difficulty: string,
    ingredients: seq<string>,
    instructions: seq<string>)

  function DetailView(r: Catalog.Recipe): RecipeDetail {
    RecipeDetail(
      Lookups.Image(r.soupName),
      r.soupName,
      CookTime.FormatCookTimeValue(r.cookTimeMinutes),
      r.difficulty,
      Segments.Ingredients(r.ingredients),
      Segments.RenderedSteps(r.instructions))
  }

  datatype Modal = Closed | Showing(detail: RecipeDetail)

  /** Array.prototype.find on the name: the first recipe with that name, if any. */
  function FindRecipe(rs: seq<Catalog.Recipe>, name: string): (o: Option<Catalog.Recipe>)
    ensures o.None? <==> forall i :: 0 <= i < |rs| ==> rs[i].soupName != name
    ensures o.Some? ==> o.value.soupName == name && exists i ::
      (0 <= i < |rs| && rs[i] == o.value && forall j :: 0 <= j < i ==> rs[j].soupName != name)
  {
    if rs == [] then None
    else if rs[0].soupName == name then Some(rs[0])
    else
      var o := FindRecipe(rs[1..], name);
      assert forall i :: 1 <= i < |rs| ==> rs[i] == rs[1..][i - 1];
      if o.Some? then
        var i :| 0 <= i < |rs[1..]| && rs[1..][i] == o.value && o.value.soupName == name
          && forall j :: 0 <= j < i ==> rs[1..][j].soupName != name;
        assert rs[i + 1] == o.value;
        o
      else o
  }

  /** The body of loadRecipes' loop for one line: the recipe it pushes, if any. */
  method RowRecipe(line: string) returns (kept: Option<Catalog.Recipe>)
    ensures kept == Catalog.RecipeOfRow(line)
  {
    kept := None;
    var values := CsvLine.ParseCsvLine(line);
    if |values| >= 6 {
      var recipe := Catalog.Recipe(values[0], values[1], values[2],
        Numbers.ParseInt(values[3]), values[4], values[5]);
      if recipe.soupName in Catalog.SupportedSoups {
        kept := Some(recipe);
      }
    }
  }

  /** find on one more recipe: the earlier match if there is one, else the new recipe if it matches. */
  lemma {:induction false} FindSnoc(rs: seq<Catalog.Recipe>, x: Catalog.Recipe, name: string)
    ensures FindRecipe(rs + [x], name) ==
      if FindRecipe(rs, name).Some? then FindRecipe(rs, name)
      else if x.soupName == name then Some(x) else None
  {
    if rs == [] {
      assert [x][1..] == [];
    } else {
      assert (rs + [x])[1..] == rs[1..] + [x];
      FindSnoc(rs[1..], x, name);
    }
  }

  /** Recipes of other keys have other names, so leaving them out does not change find. */
  lemma {:induction false} FindInGroup(rs: seq<Catalog.Recipe>, name: string,
    key: Catalog.Recipe -> int, k: int)
    requires forall i :: 0 <= i < |rs| && rs[i].soupName == name ==> key(rs[i]) == k
    ensures FindRecipe(Sorting.WithKey(rs, key, k), name) == FindRecipe(rs, name)
  {
    if rs != [] {
      var init, x := rs[..|rs| - 1], rs[|rs| - 1];
      var w := Sorting.WithKey(init, key, k);
      FindInGroup(init, name, key, k);
      assert rs == init + [x];
      FindSnoc(init, x, name);
      if key(x) == k {
        FindSnoc(w, x, name);
      } else {
        assert w + [] == w;
      }
    }
  }

  /**
   * The stable sort keeps the first recipe of each name first, so opening a soup after
   * loading shows the first of its recipes in arrival order: the earlier ones, then the rows.
   */
  lemma OpenShowsFirstArrived(existing: seq<Catalog.Recipe>, text: string, name: string)
    ensures FindRecipe(Catalog.LoadedCatalog(existing, text), name) ==
      FindRecipe(existing + Catalog.KeptRecipes(Catalog.DataLines(text)), name)
  {
    var all := existing + Catalog.KeptRecipes(Catalog.DataLines(text));
    var k := Catalog.IndexOf(Catalog.SupportedSoups, name);
    var sorted := Sorting.SortedByKey(all, Catalog.Rank);
    FindInGroup(sorted, name, Catalog.Rank, k);
    FindInGroup(all, name, Catalog.Rank, k);
    Sorting.SortIsStable(all, Catalog.Rank, k);
  }

  lemma SliceSnoc<T>(s: seq<T>, i: nat, j: nat)
    requires i <= j < |s|
    ensures s[i..j + 1] == s[i..j] + [s[j]]
  {
  }

  class RecipeBook {
    var recipes: seq<Catalog.Recipe>
    var modal: Modal

    /** Every recipe shown is allow-listed, and the list is in allow-list order. */
    predicate Valid()
      reads this
    {
      Catalog.AllSupported(recipes) && Sorting.Ordered(recipes, Catalog.Rank)
    }

    constructor()
      ensures recipes == [] && modal == Closed
      ensures Valid()
    {
      recipes := [];
      modal := Closed;
    }

    /**
     * loadRecipes after the download: the kept rows are pushed onto the recipes already
     * there, then the whole array is sorted by allow-list position.
     */
    method LoadRecipes(csvText: string)
      requires Valid()
      modifies this
      ensures recipes == Catalog.LoadedCatalog(old(recipes), csvText)
      ensures modal == old(modal)
      ensures Valid()
    {
      var lines := Text.SplitOn(Text.Trim(csvText), '\n');
      PushKeptRows(lines);
      recipes := Sorting.SortByKey(recipes, Catalog.Rank);
      Catalog.LoadedCatalogFacts(old(recipes), csvText);
    }

    /** The loop of loadRecipes: each line after the header pushes its recipe, if it has one. */
    method PushKeptRows(lines: seq<string>)
      requires lines != []
      modifies this
      ensures recipes == old(recipes) + Catalog.KeptRecipes(lines[1..])
      ensures modal == old(modal)
    {
      for i := 1 to |lines|
        invariant recipes == old(recipes) + Catalog.KeptRecipes(lines[1..i])
        invariant modal == old(modal)
      {
        var kept := RowRecipe(lines[i]);
        if kept.Some? {
          recipes := recipes + [kept.value];
        }
        Catalog.KeptRecipesSnoc(lines[1..i], lines[i]);
        SliceSnoc(lines, 1, i);
      }
      assert lines[1..|lines|] == lines[1..];
    }

    /**
     * openRecipeModal: the first recipe with the name is shown; when there is none, nothing
     * changes.
     */
    method OpenRecipeModal(soupName: string)
      requires Valid()
      modifies this
      ensures Valid()
      ensures recipes == old(recipes)
      ensures FindRecipe(recipes, soupName).Some? ==>
        modal == Showing(DetailView(FindRecipe(recipes, soupName).value))
      ensures FindRecipe(recipes, soupName).None? ==> modal == old(modal)
    {
      var recipe := FindRecipe(recipes, soupName);
      if recipe.Some? {
        modal := Showing(DetailView(recipe.value));
      }
    }

    /** closeRecipeModal: always closed afterwards, whatever the state before, so twice is once. */
    method CloseRecipeModal()
      requires Valid()
      modifies this
      ensures Valid()
      ensures recipes == old(recipes)
      ensures modal == Closed
    {
      modal := Closed;
    }
  }
}
