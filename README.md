# EhCookWhat soup recipes: a verified model of the recipe page's core

`recipe.js` drives a small recipe page. It loads a comma-separated recipe file, keeps the five
supported soups, sorts them into the page's order and, when a card is opened, shows the
recipe's picture, title, cook time, ingredient list and numbered steps. This project models
the text-processing core of that script in Dafny and proves what it does:

- `CsvLine`: `parseCSVLine`, the quote-aware field splitter. It is a loop method proved equal
  to a left-to-right scan function, which the quote-parity lemmas `SingleField` and
  `SplitAtSeparator` characterise.
- `Numbers`: `parseInt` with an optional sign, an optional `0x` prefix and a leading digit
  prefix. NaN is `None`. Also the decimal printing of integers.
- `Catalog`: the parse, filter and sort part of `loadRecipes`. This covers the allow-list
  `SUPPORTED_SOUPS`, the row-to-recipe mapping, and the kept rows. It also has a writer for
  recipe files, used to state that loading loses nothing.
- `Sorting`: `Array.prototype.sort` with a key-difference comparator. It is stable (ECMAScript
  2019 and later) and modelled as insertion sort. It is proved to order, to permute, to keep
  equal keys in input order, and to equal the grouping by key.
- `CookTime`: `formatCookTime`, with a reader that recovers the minutes from the text.
- `Segments`: the ingredient split and the instruction segmentation. The regular expression
  `/\d+\)\s*/` is written out as an explicit scanner that follows the ECMAScript split
  algorithm. Blank pieces are dropped, pieces are trimmed, and the final-dot rendering follows.
- `Lookups`: `getRecipeDescription` and `getRecipeImage`, tables with `||` fallbacks.
- `Page`: the global `recipes` array and the modal as a class. `LoadRecipes` pushes rows in a
  loop and then sorts. `OpenRecipeModal` finds a recipe or leaves the state unchanged, and
  `CloseRecipeModal` closes the modal.

White space, for `trim` and for the regular expression's `\s`, is the ECMAScript set: TAB, LF,
VT, FF, CR, SPACE, NO-BREAK SPACE, the Unicode space separators, LINE SEPARATOR, PARAGRAPH
SEPARATOR and the byte order mark. Characters are Dafny `char`s, one per UTF-16 unit of the
strings involved, all of which are in the Basic Multilingual Plane.

The model keeps these behaviours of the code, which a reader may not expect:

- `loadRecipes` pushes onto the existing global array and never clears it. Loading twice keeps
  the first load's recipes, so `LoadedCatalog` takes the earlier recipes as an argument.
- Repeated rows are all kept; nothing is de-duplicated.
- An unreadable cook time is not rejected. `parseInt` gives NaN, and the page prints
  "NaN hour NaN minutes".
- The ingredient list keeps empty pieces. Only the instruction path filters blanks.
- A `)` anywhere in the instructions selects the numbered format, even when no step number is
  present. In that case the whole text is one step.

## Operations

Each function of `recipe.js` in the model is the Dafny member below. Their properties are stated
by the members in the "Model" table.

- `parseCSVLine` (recipe.js:57-77): `CsvLine.ParseCsvLine`, a loop method, specified by the scan
  function `CsvLine.ParseLine`.
- `parseInt` (recipe.js:32): `Numbers.ParseInt`.
- `loadRecipes`, parse and filter (recipe.js:20-42): `Catalog.DataLines` (trim, split on line
  breaks, skip the header), `Catalog.RecipeOfRow` (one row to a recipe or nothing) and
  `Catalog.KeptRecipes` (the recipes of all rows, in order).
- `loadRecipes`, sort (recipe.js:44-47): `Catalog.Rank` (the `indexOf` key) and
  `Sorting.SortedByKey`, computed by the loop method `Sorting.SortByKey`. `Catalog.LoadedCatalog` is
  the whole load, and `Page.RecipeBook.LoadRecipes` performs it on the page's array.
- `getRecipeDescription` and `getRecipeImage` (recipe.js:80-101): `Lookups.Description` and
  `Lookups.Image`.
- `formatCookTime` (recipe.js:131-143): `CookTime.FormatCookTime`. `CookTime.FormatCookTimeValue`
  adds the NaN case that `parseInt` can produce.
- The ingredient list (recipe.js:162): `Segments.Ingredients`.
- The instruction steps (recipe.js:169-181): `Segments.Pieces` chooses the format. It uses
  `Segments.SplitNumbered` for the regular-expression split and `Text.SplitOn` for the split on
  `.`. `Segments.KeepNonBlank` is the filter, and `Segments.Steps` gives the trimmed steps.
- The steps as shown (recipe.js:183-186): `Segments.StripFinalDot`, `Segments.Render` and
  `Segments.RenderedSteps`.
- The values `openRecipeModal` fills in (recipe.js:155-186): `Page.DetailView`.
- The find-or-fail step of `openRecipeModal` (recipe.js:146-153): `Page.FindRecipe` and
  `Page.RecipeBook.OpenRecipeModal`. `closeRecipeModal` (recipe.js:198-205) is
  `Page.RecipeBook.CloseRecipeModal`.

## Model

| member | source | states |
|---|---|---|
| CsvLine.ParseCsvLine | recipe.js:57-77 | the loop's result is the scan function's result, has one field per unquoted comma plus one, and every field is trimmed and quote-free |
| CsvLine.QuoteStateIsParity | recipe.js:65-66 | after any prefix, the scanner is inside quotes exactly when the prefix holds an odd number of `"` |
| CsvLine.FieldCount | recipe.js:62-76 | a line has one more field than it has commas outside quotes, so it is never empty |
| CsvLine.FieldsAreClean | recipe.js:65-75 | every field is trimmed and holds no `"` |
| CsvLine.SingleField | recipe.js:62-76 | a line without a separating comma is one field: the text with quotes removed, trimmed |
| CsvLine.SplitAtSeparator | recipe.js:67-69 | a comma after an even number of quotes splits the line into the fields of each side |
| CsvLine.QuotedField | recipe.js:65-71 | a quoted field keeps its commas, and an opening quote that is never closed runs to the end of the line without error |
| CsvLine.EmptyLineIsOneEmptyField | recipe.js:75-76 | the empty line gives one empty field |
| CsvLine.PlainQuotedPlain | recipe.js:62-76 | a plain field, a quoted field with commas and a plain field give exactly three fields |
| CsvLine.QuotedCommaExample | recipe.js:62-76 | `a,"b,c",d` gives `a`, `b,c`, `d` |
| CsvLine.PlainThenUnmatchedQuote | recipe.js:65-76 | a plain field followed by an unclosed quote gives two fields, the second holding the rest of the line |
| CsvLine.UnmatchedQuoteExample | recipe.js:65-76 | `a,"b,c` gives `a` and `b,c` |
| Numbers.ParseIntOfIntToString | recipe.js:32 | parseInt reads back any printed integer, whatever text follows it that does not continue the number (a digit, or an `x` or `X` after a lone 0) |
| Numbers.ParseIntSkipsLeadingWhitespace | recipe.js:32 | parseInt ignores leading white space |
| Numbers.ParseIntReadsLeadingNumber | recipe.js:32 | parseInt reads the leading number of `90 mins` as 90 |
| Numbers.ParseIntStopsAtLetterX | recipe.js:32 | `12x` reads as 12: an `x` ends a number other than 0 |
| Numbers.ParseIntOfHexNumber | recipe.js:32 | parseInt without a radix reads `0x1F` as 31 |
| Numbers.ParseIntOfWordIsNaN | recipe.js:32 | a field that starts with a letter is NaN |
| Numbers.ParseIntOfEmptyIsNaN | recipe.js:32 | an empty field is NaN |
| Numbers.ParseIntOfNaNIsNaN | recipe.js:32 | the text NaN reads as NaN |
| Numbers.IntToStringIsNumeral | recipe.js:133-140 | a printed integer has no space, quote or line break, and no blank at either end |
| Catalog.IndexOf | recipe.js:46 | indexOf gives -1 exactly for an absent name, otherwise the first position holding it |
| Catalog.RankRange | recipe.js:46 | the sort key lies between -1 and 4, and is -1 exactly for names off the allow-list |
| Catalog.RecipeOfRowFields | recipe.js:24-40 | a line yields a recipe exactly when it has six fields or more and an allow-listed first field; the recipe holds fields 0 to 5 in order, field 3 read by parseInt |
| Catalog.KeptRecipesMembers | recipe.js:24-40 | a recipe is kept exactly when some data line yields it, and every kept name is allow-listed |
| Catalog.KeptRecipesAppend | recipe.js:24-42 | rows are handled one at a time: two runs of lines keep their two lists of recipes, one after the other |
| Catalog.KeptRecipesSnoc | recipe.js:24-42 | one more line pushes its recipe, if it yields one, at the end |
| Catalog.DuplicatesAreKept | recipe.js:38-40 | repeated lines give repeated recipes; nothing is de-duplicated |
| Catalog.QuotedRowReadsBack | recipe.js:57-77 | a row of quoted, quote-free fields parses into those fields, trimmed |
| Catalog.CookTimeFieldReadsBack | recipe.js:32 | a written cook time, NaN included, reads back through parseInt as the same value |
| Catalog.RecipeRowParses | recipe.js:25 | a writable recipe's row parses into exactly its six fields |
| Catalog.RecipeRowRoundTrip | recipe.js:25-40 | writing a writable recipe as a row and reading the row gives the recipe back |
| Catalog.RecipeRowIsOneLine | recipe.js:20 | a written row holds no line break and ends in a quote |
| Catalog.WrittenRowsReadBack | recipe.js:24-42 | the rows written from writable recipes are kept as exactly those recipes, in order |
| Catalog.CatalogTextIsTrimmed | recipe.js:20 | a written file starts and ends with a non-blank character, so trim keeps it whole |
| Catalog.DataLinesOfCatalogText | recipe.js:20-24 | the data lines of a written file are its rows: the header and nothing else is skipped |
| Catalog.LoadWrittenCatalog | recipe.js:20-47 | loading a written file into an empty page gives its recipes back, stably sorted by allow-list position |
| Catalog.LoadedCatalogFacts | recipe.js:38-47 | after loading, the catalog is ordered by allow-list position and is a permutation of the earlier recipes plus the kept rows; names stay allow-listed |
| Catalog.LoadedCatalogIsGrouped | recipe.js:44-47 | the loaded catalog is the Lotus Root recipes, then ABC Soup, Watercress, Old Cucumber and Herbal Chicken, each group in arrival order |
| Sorting.SortByKey | recipe.js:45-47 | the sort loop computes the stable insertion sort, whose result is ordered by key and a permutation of the input |
| Sorting.Insert | recipe.js:45-47 | one insertion puts the element after every element whose key is not larger |
| Sorting.InsertPosition | recipe.js:45-47 | the inserted element goes after a key not larger than its own and before keys that are larger |
| Sorting.SortPermutes | recipe.js:45-47 | sorting keeps every element, as often as it occurs |
| Sorting.SortIsOrdered | recipe.js:45-47 | the sorted sequence has non-decreasing keys |
| Sorting.SortIsStable | recipe.js:45-47 | elements with equal keys keep their input order |
| Sorting.SortIsGrouping | recipe.js:45-47 | for keys within a range, the sorted sequence equals the elements grouped by key, smallest key first, each group in input order |
| CookTime.FormatCookTimeReadsBack | recipe.js:131-143 | every formatted duration reads back as the same number of minutes, so formatting loses nothing |
| CookTime.FormatCookTimeValueReadsBack | recipe.js:131-143 | the displayed cook time, NaN included, reads back as the parsed value |
| CookTime.CookTimeWordsSplitBack | recipe.js:133-140 | the text's space-separated words are exactly the words of the chosen case |
| CookTime.ReadCookTimeWords | recipe.js:132-141 | each of the three word shapes reads back as the minutes it was made from |
| CookTime.NaNText | recipe.js:131-143 | an unreadable cook time prints as `NaN hour NaN minutes` |
| CookTime.UnderAnHourExample | recipe.js:132-133 | 45 prints as `45 minutes` |
| CookTime.WholeHoursExample | recipe.js:137-138 | 120 prints as `2 hours` |
| CookTime.HourAndMinutesExample | recipe.js:139-140 | 90 prints as `1 hour 30 minutes` |
| Segments.IngredientCount | recipe.js:162 | there is one ingredient per comma plus one, each trimmed and comma-free |
| Segments.IngredientsOfList | recipe.js:162 | a list of comma-free items joined by commas reads back as the items trimmed, in order, blank ones included |
| Segments.EmptyIngredientIsKept | recipe.js:162 | `pork, ,corn` gives `pork`, an empty ingredient, and `corn` |
| Segments.PiecesHaveNoStepNumber | recipe.js:172-173 | no piece of the numbered split contains a step number |
| Segments.WithoutStepNumber | recipe.js:173 | text without a step number is one piece |
| Segments.SplitAtStepNumber | recipe.js:173 | text, then digits, a `)` and white space, then more text, splits at that delimiter, and the white space is consumed |
| Segments.RunEndIs | recipe.js:173 | the scanner's digit run and white-space run end exactly where the run stops |
| Segments.DelimiterAtStepNumber | recipe.js:173 | a digit followed by `)` starts a delimiter |
| Segments.StepNumberAtDelimiter | recipe.js:173 | a delimiter found at a position starts a step number there: digits from that position up to a `)`, so the text holds a digit directly followed by `)` |
| Segments.KeepNonBlank | recipe.js:174 | the filter keeps exactly the pieces that are not blank after trimming |
| Segments.KeepNonBlankOfOne | recipe.js:174 | one piece is kept exactly when it is not blank |
| Segments.KeepNonBlankAppend | recipe.js:174 | filtering two runs of pieces gives their filtered runs one after the other, so every non-blank piece is kept, as often as it occurs and in order |
| Segments.StepsAreNonEmptyAndTrimmed | recipe.js:170-181 | in either format every step is non-empty and trimmed |
| Segments.ParenWithoutStepNumber | recipe.js:170-175 | a `)` that is not part of a step number still selects the numbered format, so the text is a single step |
| Segments.TwoNumberedSteps | recipe.js:170-175 | `1) a2) b` gives steps a and b, trimmed |
| Segments.TwoSentences | recipe.js:176-181 | `a.b.` with no `)` and non-blank a and b gives steps a and b, trimmed |
| Segments.BoilThenSimmer | recipe.js:176-181 | `Boil. Simmer.` gives the steps `Boil` and `Simmer` |
| Segments.Render | recipe.js:185 | a shown step is non-empty and ends in `.` |
| Segments.RenderAddsDotOnlyWhenMissing | recipe.js:185 | a step already ending in `.` is shown unchanged; any other gets one `.` appended |
| Segments.RenderIsIdempotent | recipe.js:185 | rendering a rendered step changes nothing |
| Segments.ShownStepsKeepTheirText | recipe.js:183-186 | there is one shown step per step; each ends in `.`, equals its step once a final `.` is taken off both, and is shown unchanged if shown again |
| Lookups.LookupOrOfNonEmpty | recipe.js:88 | with no empty entry, the logical-or fallback is taken exactly for missing names |
| Lookups.TablesCoverSupportedSoups | recipe.js:81-86 | both tables have entries for exactly the allow-listed soups |
| Lookups.LookupsByName | recipe.js:80-101 | a supported soup gets its own description and picture; any other name gets the fallback text and picture |
| Lookups.ImageIsAPicture | recipe.js:92-100 | every name shows one of the five pictures, and an unknown name shows ABC Soup's |
| Page.FindRecipe | recipe.js:147 | find gives nothing exactly when no recipe has the name; otherwise it gives the first recipe with it |
| Page.FindSnoc | recipe.js:147 | find over one more recipe keeps an earlier match, else takes the new recipe if it matches |
| Page.OpenShowsFirstArrived | recipe.js:45-47 | because the sort is stable, opening a soup after loading shows the first of its recipes in arrival order |
| Page.RowRecipe | recipe.js:25-40 | one pass of the load loop's body pushes exactly the recipe the line yields |
| Page.RecipeBook.constructor | recipe.js:11 | the page starts with no recipes and the modal closed |
| Page.RecipeBook.PushKeptRows | recipe.js:24-42 | the loop pushes the kept recipes of every line after the header onto the array, in line order |
| Page.RecipeBook.LoadRecipes | recipe.js:20-47 | the array becomes the loaded catalog of its old contents and the text; the page stays valid (allow-listed and in order) |
| Page.RecipeBook.OpenRecipeModal | recipe.js:146-186 | a known name shows the first matching recipe's detail; an unknown name changes nothing |
| Page.RecipeBook.CloseRecipeModal | recipe.js:198-205 | afterwards the modal is closed whatever it was, so closing twice is closing once |

## Left out

- The download with `fetch`, the `async` wrapper, the `try`/`catch` error message, `console.error` and `displayRecipes` are left out. They are network I/O and DOM output. The text is a parameter.
- The HTML the modal and the cards are built from is left out, as are `style` and `classList`. The model keeps the values shown (`RecipeDetail`) and an open/closed state.
- The event listeners for clicks outside the modal and for the Escape key are left out. They are UI wiring that only calls `closeRecipeModal`.
- `toUpperCase` on the difficulty badge of the cards is left out. It is a Unicode case mapping used only for display.
- The unused `headers` variable is left out.
- JavaScript numbers are modelled as unbounded integers. Precision beyond 2^53, `Infinity`, and exponent forms in printing are not modelled.
- Keys inherited from `Object.prototype` (such as `toString`) are not modelled for the lookup tables. Only allow-listed names reach them from the page.
- Characters outside the Basic Multilingual Plane are not modelled. JavaScript strings are UTF-16 units, while the model has one `char` per character.
- Page.RecipeBook.LoadRecipes: the sort is specified by its stable result, not by the comparator calls an engine makes. The array is a `seq` field that is reassigned rather than updated in place.
- Page.RecipeBook.OpenRecipeModal: the modal records the values shown, not the DOM nodes that hold them.
