# Recipe catalog: verified model of its collection rules

This project models a small client-side recipe catalog page script. The script
keeps two collections of recipe records. The catalog ("all recipes") is loaded
once from a static resource. The personal collection ("my recipes") lives in
memory and is written whole to one local-storage slot after every change. The
model covers the rules the script applies to these collections:

- saving a catalog recipe into the personal collection, without duplicates;
- deleting by id;
- appending a recipe authored in a form, whose multi-line fields are split on
  line breaks and whose image falls back to a placeholder;
- the case-insensitive search over name and ingredients;
- the summary line of a grid card;
- the detail lookup, catalog first, then the personal collection;
- loading the personal collection back from the storage slot.

Files:

- `strings.dfy` (module `Strings`): ASCII lower-casing, substring test,
  `join`, and `split` on one character, with the split/join round trips.
- `seqs.dfy` (module `Seqs`): an order-preserving `Filter` and the
  subsequence relation.
- `recipes.dfy` (module `Recipes`): the `Recipe` record and the pure rules:
  lookup, search, card text, the authored record, and the effect of save and
  delete as functions, with their lemmas.
- `app.dfy` (module `App`): class `RecipeBook`. It holds `allRecipes`,
  `myRecipes` and `stored`, which stands for the local-storage slot. Its
  methods update that state in place, as the script's handlers do. Every
  method that writes the slot (a successful save, a delete, an add) ends with
  `stored == Some(myRecipes)` (`Persisted()`). A save that adds nothing
  writes nothing, so afterwards the slot may differ from the collection.
  `OpenPage` is the per-page load step. `OpenPageLoaded` is the corrected
  load step described under "## Findings".

Modelling choices:

- Ids are `int`.
- An empty `image` string stands for a missing image, which JavaScript's `||`
  treats as falsy.
- The storage slot is an `Option`. `None` means nothing was ever stored, and then
  loading keeps the collection already in memory.
- The result of the catalog fetch is a parameter, with `None` for a failed
  fetch.
- The fresh id of an authored recipe (a timestamp in the script) is passed in by
  the caller.
- The page the script runs on is the `Page` datatype.

## Model

| member | source | states |
|---|---|---|
| App.RecipeBook.constructor | index.js:1-3 | a page starts with both collections empty; the storage slot is as the browser kept it |
| App.RecipeBook.FetchAllRecipes | index.js:8-16 | a successful fetch replaces the catalog; a failed one leaves it unchanged |
| App.RecipeBook.FetchMyRecipes | index.js:21-27 | a present slot replaces the personal collection, an absent one keeps it; reloading right after a write changes nothing |
| App.RecipeBook.SaveRecipeToMyRecipes | index.js:82-89 | the result says whether the id is in the catalog and not yet saved; the new collection is `SaveById` of the old one; on success the slot equals the collection, otherwise neither changes |
| App.RecipeBook.DeleteRecipe | index.js:95-99 | the new collection is exactly the old one without the id; the slot equals it |
| App.RecipeBook.AddRecipe | index.js:177-188 | the record built from the form fields is appended as the one new last element; the slot equals the collection |
| App.RecipeBook.LoadRecipeDetail | index.js:112-131 | an empty catalog is fetched and an empty personal collection is loaded; the result is the first record with the id in the catalog followed by the personal collection |
| App.RecipeBook.SearchRecipes | index.js:163-170 | the result comes from the personal collection on the my-recipes page and from the catalog elsewhere; it is an ordered subsequence holding exactly the matching recipes, each as often as in the collection; an empty term shows everything |
| App.RecipeBook.ActiveCollection | index.js:165 | the personal collection on the my-recipes page, the catalog on every other page |
| App.RecipeBook.Persisted | index.js:86 | the slot holds exactly the in-memory personal collection (the whole-list write of index.js:86, :97 and :188) |
| App.RecipeBook.OpenPage | index.js:203-210 | the home page fetches the catalog; the my-recipes page loads the slot; the detail page fills what is empty and looks the id up; the authoring page loads nothing; nothing else changes |
| App.RecipeBook.OpenPageLoaded | index.js:203-210 | corrected load step: the slot is read on every page first, so afterwards the collection equals a present slot and is unchanged when the slot is absent; the catalog is fetched on the home page, filled if empty on the detail page (with the lookup as result) and unchanged on the my-recipes and authoring pages |
| App.SaveOnHomeOverwritesSlot | index.js:204-205 | as written: with [earlier] stored, opening the home page and saving `chosen` leaves the slot as [chosen] |
| App.AddOnCreateOverwritesSlot | index.js:187-188 | as written: with [earlier] stored, adding a recipe on the authoring page leaves the slot as just the new record |
| App.SaveAfterLoadedOpenKeepsSlot | index.js:85-86 | corrected: after the loaded open and a save, the earlier slot contents stay, in order, at its front |
| App.AddAfterLoadedOpenKeepsSlot | index.js:187-188 | corrected: after the loaded open and an add, the slot is the earlier contents plus the new record |
| App.SaveTwiceScenario | index.js:82-89 | saving recipe 1 from a one-recipe catalog succeeds, saving it again reports failure; the collection and the slot both end as just that recipe |
| App.PersistenceScenario | index.js:21-89 | a save succeeds exactly when the id is in the catalog; a later page that loads the slot then sees exactly the saved collection, one record with the id; after a failed save it sees nothing |
| Recipes.FindById | index.js:130 | returns `None` exactly when no record has the id; otherwise the returned record has the id and is the first such record |
| Recipes.FindByIdAppend | index.js:130 | finding in `a + b` returns the match in `a` if there is one, else the match in `b` |
| Recipes.LookupDetail | index.js:130 | a found record has the id and comes from the catalog or the personal collection |
| Recipes.LookupDetailPrecedence | index.js:130 | a catalog record takes precedence over a personal one; not found exactly when neither collection has the id |
| Recipes.DetailImage | index.js:138 | the detail image is the recipe's own image when it has one and "/api/placeholder/400/300" when it has none |
| Recipes.HasId | index.js:84 | true exactly when some record of the collection has the id |
| Recipes.Matches | index.js:167-168 | every recipe matches the empty term; a match needs a name or an ingredient at least as long as the term |
| Recipes.Matcher | index.js:166-168 | the filter predicate holds of a recipe exactly when the recipe matches the term |
| Recipes.IdIsNot | index.js:96 | the filter predicate of the delete holds of a recipe exactly when its id differs from the deleted id |
| Recipes.Search | index.js:164-169 | the result is an ordered subsequence; a recipe is in it exactly when its lower-cased name or some lower-cased ingredient contains the lower-cased term; each kept recipe occurs as often as in the input |
| Recipes.SearchEmpty | index.js:164-169 | an empty term returns the whole collection in order |
| Recipes.SearchNoMatch | index.js:166-169 | a term no recipe matches returns the empty sequence |
| Recipes.SearchCaseInsensitive | index.js:164-168 | two search texts that differ only in ASCII case give the same result |
| Recipes.SearchIdempotent | index.js:166-169 | searching a search result again with the same term changes nothing |
| Recipes.CardText | index.js:47 | more than three ingredients: the text ends in "..."; no ingredients: the text is empty |
| Recipes.CardTextShowsFirstThree | index.js:47 | each of the first three ingredients (all, when there are fewer) occurs in the card text |
| Recipes.CardTextShort | index.js:47 | up to three ingredients are all shown, joined by ", ", with no ellipsis |
| Recipes.CardTextLong | index.js:47 | more than three: the first three, then "..."; later ingredients do not affect the text |
| Recipes.CardTextExample | index.js:47 | ["tomato","basil","pasta","salt"] gives "tomato, basil, pasta..." |
| Recipes.CardImage | index.js:44 | the card image is the recipe's own image when it has one and "/api/placeholder/250/200" when it has none |
| Recipes.NewRecipe | index.js:180-186 | the authored record keeps id and name, and its ingredients and instructions joined by a newline give back the two text fields |
| Recipes.NewRecipeFields | index.js:183-185 | one ingredient and one instruction per line, blank lines included, so there is one more element than newlines; no element holds a newline; a blank image becomes "/api/placeholder/250/200", any other is kept |
| Recipes.NewRecipeExample | index.js:183 | the ingredients text "egg\nflour" gives ["egg","flour"] |
| Recipes.SaveById | index.js:83-85 | the saved collection keeps the old one as its prefix and grows by at most one record, which is a catalog record with the id |
| Recipes.SaveByIdEffect | index.js:83-85 | an id missing from the catalog, or already saved, changes nothing; otherwise exactly the first catalog record with the id is appended at the end |
| Recipes.SaveByIdIdempotent | index.js:83-84 | saving the same id twice equals saving it once |
| Recipes.SaveByIdPreservesUnique | index.js:84-85 | earlier records keep their positions; unique ids stay unique |
| Recipes.Without | index.js:96 | every remaining record is from the collection and has another id; each record with another id remains as often as before, each with the id not at all |
| Recipes.WithoutEffect | index.js:96 | exactly the records with another id remain, in order; none with the id remains; deleting an absent id changes nothing |
| Recipes.WithoutIdempotent | index.js:96 | deleting the same id twice equals deleting it once |
| Recipes.WithoutPreservesUnique | index.js:96 | deleting keeps ids unique |
| Recipes.FilterPreservesUnique | index.js:96 | any filter of a collection with unique ids has unique ids |
| Recipes.AppendFreshPreservesUnique | index.js:181-187 | appending an authored record with an id not yet used keeps ids unique |
| Seqs.Filter | index.js:166 | the result is no longer than the input; every kept element is from the input and satisfies the predicate |
| Seqs.FilterKeeps | index.js:166 | every input element that satisfies the predicate is kept |
| Seqs.FilterMembership | index.js:96 | an element is in the result exactly when it is in the input and satisfies the predicate |
| Seqs.FilterIsSubsequence | index.js:96 | the result keeps the input's order |
| Seqs.FilterAll | index.js:166-169 | when every element satisfies the predicate, the input comes back unchanged |
| Seqs.FilterNone | index.js:166-169 | when no element satisfies the predicate, the result is empty |
| Seqs.FilterIdempotent | index.js:166 | filtering twice equals filtering once |
| Strings.LowerChar | index.js:164 | the result is never an upper-case ASCII letter; it is a lower-case letter exactly when the input is a letter |
| Strings.Lower | index.js:164 | the result has no upper-case ASCII letter and differs from the input only in ASCII case |
| Strings.LowerEqualIff | index.js:164-168 | two strings lower-case to the same string exactly when they differ only in ASCII case |
| Strings.LowerIdempotent | index.js:164-168 | lower-casing twice equals lower-casing once |
| Strings.Contains | index.js:167-168 | a string contains only strings no longer than itself (`includes`) |
| Strings.Join | index.js:47 | the joined text begins with the first part |
| Strings.JoinShowsParts | index.js:47 | every part occurs in the joined text |
| Strings.Split | index.js:183-184 | a split always has at least one piece |
| Strings.ContainsEmpty | index.js:167 | every string includes the empty string |
| Strings.SplitLength | index.js:183-184 | a split has one more piece than the text has separators |
| Strings.SplitPiecesFree | index.js:183-184 | no piece contains the separator |
| Strings.JoinSplit | index.js:183-184 | joining the pieces with the separator gives back the text |
| Strings.SplitJoin | index.js:183-184 | splitting a join of separator-free pieces gives back the pieces |

## Findings

| source | as written | input that shows it | evidently intended | confidence | as-written member | corrected member |
|---|---|---|---|---|---|---|
| index.js:204-205, index.js:85-86 | the home page never reads the slot, so a save writes that page's own list, starting from empty, over it | the slot holds [y]; open the home page and save x: the slot becomes [x] and y is lost | the stored collection is loaded when a page opens, so a save extends it | not executed; high | App.SaveOnHomeOverwritesSlot | App.SaveAfterLoadedOpenKeepsSlot |
| index.js:204-210, index.js:187-188 | the authoring page loads nothing, so an add writes only the new record over the slot | the slot holds [y]; author r on the authoring page: the slot becomes [r] | the stored collection is loaded when a page opens, so an add extends it | not executed; high | App.AddOnCreateOverwritesSlot | App.AddAfterLoadedOpenKeepsSlot |

`RecipeBook.OpenPage` keeps the load step as written. `RecipeBook.OpenPageLoaded`
reads the slot first on every page. The save and add methods themselves are
unchanged. What the corrected load step promises is proved by the two corrected
members.

## Left out

- Rendering: grid markup, detail markup, buttons, event wiring and the success notices are not modelled. Only the card's summary text and image, the detail image, and the not-found outcome (`None`) are modelled.
- The network fetch and its `async`/`await` suspension are not modelled. The fetch result is a parameter, and a failed fetch is only logged by the script.
- JSON serialisation of the storage slot is not modelled. The slot holds the sequence itself, so malformed stored data is not modelled.
- Reading the page's path, the `id` query parameter and `parseInt` of string ids are not modelled. Ids are `int` arguments and the page is a `Page` value.
- `Date.now()` as the id source is not modelled. The id is a parameter, so the model does not ensure it is fresh. `AppendFreshPreservesUnique` states what follows when it is fresh.
- Strings.Lower: maps only the ASCII letters A-Z, not full Unicode lower-casing as `toLowerCase` does.
- `alert`, `console.log` and `form.reset()` are side effects without content to model.
- Sharing of the slot between several open pages (last write wins) is not modelled. The model covers one page at a time.
