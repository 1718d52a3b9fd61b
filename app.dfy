/** The page state of the recipe catalog: the catalog, the personal
    collection and the local-storage slot it is persisted to, with the
    operations that the pages' event handlers run on them. */
module App {
  import opened Seqs
  import opened Recipes

  /** The page that is loaded, resolved from its path. */
  datatype Page = HomePage | MyRecipesPage | DetailPage | CreatePage

  class RecipeBook {
    /** The catalog, filled by the one fetch of the static data. */
    var allRecipes: seq<Recipe>
    /** The personal collection. */
    var myRecipes: seq<Recipe>
    /** The local-storage slot "myRecipes"; `None` when nothing was ever stored. */
    var stored: Option<seq<Recipe>>

    /** The slot holds exactly the personal collection. */
    ghost predicate Persisted()
      reads this
    {
      stored == Some(myRecipes)
    }

    /** A freshly loaded page: both collections empty, the slot as the browser kept it. */
    constructor (slot: Option<seq<Recipe>>)
      ensures allRecipes == [] && myRecipes == [] && stored == slot
    {
      allRecipes := [];
      myRecipes := [];
      stored := slot;
    }

    /** Takes in the catalog when the fetch succeeded (`Some`); a failed
        fetch (`None`) leaves the catalog as it was. */
    method FetchAllRecipes(response: Option<seq<Recipe>>)
      modifies this`allRecipes
      ensures allRecipes == if response.Some? then response.value else old(allRecipes)
    {
      if response.Some? {
        allRecipes := response.value;
      }
    }

    /** Loads the personal collection from the slot; an empty slot keeps the
        collection in memory. Reloading right after a write changes nothing. */
    method FetchMyRecipes()
      modifies this`myRecipes
      ensures myRecipes == if stored.Some? then stored.value else old(myRecipes)
      ensures stored.Some? ==> Persisted()
      ensures old(Persisted()) ==> myRecipes == old(myRecipes)
    {
      if stored.Some? {
        myRecipes := stored.value;
      }
    }

    /** Saves catalog recipe `id` to the personal collection. Returns whether
        it was added (the success notice); a missing or already saved id
        changes neither the collection nor the slot. */
    method SaveRecipeToMyRecipes(id: int) returns (saved: bool)
      modifies this`myRecipes, this`stored
      ensures saved <==> HasId(allRecipes, id) && !HasId(old(myRecipes), id)
      ensures myRecipes == SaveById(allRecipes, old(myRecipes), id)
      ensures saved ==> Persisted()
      ensures !saved ==> myRecipes == old(myRecipes) && stored == old(stored)
    {
      var recipe := FindById(allRecipes, id);
      if recipe.Some? && !HasId(myRecipes, recipe.value.id) {
        myRecipes := myRecipes + [recipe.value];
        stored := Some(myRecipes);
        saved := true;
      } else {
        saved := false;
      }
    }

    /** Deletes every record with `id` from the personal collection, writes
        the collection to the slot and reloads it for display. */
    method DeleteRecipe(id: int)
      modifies this`myRecipes, this`stored
      ensures myRecipes == Without(old(myRecipes), id)
      ensures Persisted()
    {
      myRecipes := Without(myRecipes, id);
      stored := Some(myRecipes);
      FetchMyRecipes();
    }

    /** Appends the recipe authored in the form, with the fresh id `id`
        supplied by the caller, and writes the collection to the slot. */
    method AddRecipe(id: int, name: string, ingredientsText: string,
                     instructionsText: string, imageText: string) returns (added: Recipe)
      modifies this`myRecipes, this`stored
      ensures added == NewRecipe(id, name, ingredientsText, instructionsText, imageText)
      ensures myRecipes == old(myRecipes) + [added]
      ensures Persisted()
    {
      added := NewRecipe(id, name, ingredientsText, instructionsText, imageText);
      myRecipes := myRecipes + [added];
      stored := Some(myRecipes);
    }

    /** The detail page: fills an empty catalog from `response` and an empty
        personal collection from the slot, then looks `id` up in both,
        catalog first. `None` is the not-found notice. */
    method LoadRecipeDetail(id: int, response: Option<seq<Recipe>>) returns (found: Option<Recipe>)
      modifies this`allRecipes, this`myRecipes
      ensures allRecipes == if old(allRecipes) == [] && response.Some? then response.value else old(allRecipes)
      ensures myRecipes == if old(myRecipes) == [] && stored.Some? then stored.value else old(myRecipes)
      ensures found == LookupDetail(allRecipes, myRecipes, id)
    {
      if |allRecipes| == 0 {
        FetchAllRecipes(response);
      }
      if |myRecipes| == 0 {
        FetchMyRecipes();
      }
      found := FindById(allRecipes + myRecipes, id);
    }

    /** The collection a search on `page` runs over: the personal collection
        on the my-recipes page, the catalog on every other page. */
    function ActiveCollection(page: Page): (active: seq<Recipe>)
      reads this
      ensures page == MyRecipesPage ==> active == myRecipes
      ensures page != MyRecipesPage ==> active == allRecipes
    {
      if page == MyRecipesPage then myRecipes else allRecipes
    }

    /** The recipes a search for `text` displays on `page`: those of the
        active collection matching the text, in order. */
    function SearchRecipes(text: string, page: Page): (shown: seq<Recipe>)
      reads this
      ensures IsSubsequence(shown, ActiveCollection(page))
      ensures forall r :: r in shown <==> r in ActiveCollection(page) && Matches(r, Strings.Lower(text))
      ensures forall r :: r in ActiveCollection(page) ==>
        multiset(shown)[r] == if Matches(r, Strings.Lower(text)) then multiset(ActiveCollection(page))[r] else 0
      ensures text == "" ==> shown == ActiveCollection(page)
    {
      SearchEmpty(ActiveCollection(page));
      Search(ActiveCollection(page), text)
    }

    /** The load step run when `page` is opened, as written: the home page
        fetches the catalog, the my-recipes page loads the slot, the detail
        page runs the detail lookup for `detailId`, and the authoring page
        loads nothing. In particular only the my-recipes and detail pages read
        the slot before a later save or add writes it. */
    method OpenPage(page: Page, response: Option<seq<Recipe>>, detailId: int) returns (detail: Option<Recipe>)
      modifies this`allRecipes, this`myRecipes
      ensures page == HomePage ==>
        allRecipes == (if response.Some? then response.value else old(allRecipes)) && myRecipes == old(myRecipes)
      ensures page == MyRecipesPage ==>
        allRecipes == old(allRecipes) && myRecipes == (if stored.Some? then stored.value else old(myRecipes))
      ensures page == DetailPage ==>
        allRecipes == (if old(allRecipes) == [] && response.Some? then response.value else old(allRecipes))
        && myRecipes == (if old(myRecipes) == [] && stored.Some? then stored.value else old(myRecipes))
        && detail == LookupDetail(allRecipes, myRecipes, detailId)
      ensures page == CreatePage ==> allRecipes == old(allRecipes) && myRecipes == old(myRecipes)
      ensures page != DetailPage ==> detail == None
    {
      detail := None;
      match page
      case HomePage => FetchAllRecipes(response);
      case MyRecipesPage => FetchMyRecipes();
      case DetailPage => detail := LoadRecipeDetail(detailId, response);
      case CreatePage =>
    }

    /** The load step with the slot read on every page first, so that a later
        save or add extends what was stored instead of replacing it. Apart
        from that first read it runs the same per-page step. */
    method OpenPageLoaded(page: Page, response: Option<seq<Recipe>>, detailId: int) returns (detail: Option<Recipe>)
      modifies this`allRecipes, this`myRecipes
      ensures stored.Some? ==> Persisted()
      ensures myRecipes == if stored.Some? then stored.value else old(myRecipes)
      ensures page == HomePage ==> allRecipes == (if response.Some? then response.value else old(allRecipes))
      ensures page == MyRecipesPage || page == CreatePage ==> allRecipes == old(allRecipes)
      ensures page == DetailPage ==>
        allRecipes == (if old(allRecipes) == [] && response.Some? then response.value else old(allRecipes))
      ensures page == DetailPage ==> detail == LookupDetail(allRecipes, myRecipes, detailId)
      ensures page != DetailPage ==> detail == None
    {
      FetchMyRecipes();
      detail := OpenPage(page, response, detailId);
    }
  }

  /** As written: a recipe stored in an earlier visit is lost when the home
      page is opened and another recipe is saved, because the home page never
      reads the slot before the save writes it. */
  method SaveOnHomeOverwritesSlot(earlier: Recipe, chosen: Recipe) returns (slot: Option<seq<Recipe>>)
    ensures slot == Some([chosen])
  {
    var book := new RecipeBook(Some([earlier]));
    var _ := book.OpenPage(HomePage, Some([chosen]), 0);
    var saved := book.SaveRecipeToMyRecipes(chosen.id);
    assert HasId([chosen], chosen.id) by { assert [chosen][0].id == chosen.id; }
    slot := book.stored;
  }

  /** As written: the same loss when a recipe is authored on the authoring page. */
  method AddOnCreateOverwritesSlot(earlier: Recipe, id: int, name: string, ingredientsText: string,
                                   instructionsText: string, imageText: string) returns (slot: Option<seq<Recipe>>)
    ensures slot == Some([NewRecipe(id, name, ingredientsText, instructionsText, imageText)])
  {
    var book := new RecipeBook(Some([earlier]));
    var _ := book.OpenPage(CreatePage, None, 0);
    var added := book.AddRecipe(id, name, ingredientsText, instructionsText, imageText);
    assert book.myRecipes == [] + [added] == [added];
    slot := book.stored;
  }

  /** With the slot read on opening, whatever was stored before stays, in
      order, at the front of the slot after a save on any page. */
  method SaveAfterLoadedOpenKeepsSlot(earlier: seq<Recipe>, page: Page, response: Option<seq<Recipe>>, id: int)
    returns (slot: seq<Recipe>)
    ensures |slot| >= |earlier| && slot[..|earlier|] == earlier
  {
    var book := new RecipeBook(Some(earlier));
    var _ := book.OpenPageLoaded(page, response, 0);
    var saved := book.SaveRecipeToMyRecipes(id);
    slot := book.stored.value;
  }

  /** With the slot read on opening, whatever was stored before stays, in
      order, at the front of the slot after an add. */
  method AddAfterLoadedOpenKeepsSlot(earlier: seq<Recipe>, page: Page, response: Option<seq<Recipe>>,
                                     id: int, name: string, ingredientsText: string,
                                     instructionsText: string, imageText: string)
    returns (slot: seq<Recipe>)
    ensures slot == earlier + [NewRecipe(id, name, ingredientsText, instructionsText, imageText)]
  {
    var book := new RecipeBook(Some(earlier));
    var _ := book.OpenPageLoaded(page, response, 0);
    var added := book.AddRecipe(id, name, ingredientsText, instructionsText, imageText);
    slot := book.stored.value;
  }

  /** Saving recipe 1 into an empty collection adds it once; saving it again
      changes nothing. */
  method SaveTwiceScenario(pasta: Recipe)
    returns (first: bool, second: bool, mine: seq<Recipe>, slot: Option<seq<Recipe>>)
    requires pasta.id == 1
    ensures first && !second
    ensures mine == [pasta] && slot == Some([pasta])
  {
    var book := new RecipeBook(None);
    book.FetchAllRecipes(Some([pasta]));
    first := book.SaveRecipeToMyRecipes(1);
    assert HasId([pasta], 1) by { assert [pasta][0].id == 1; }
    assert book.myRecipes == [pasta];
    second := book.SaveRecipeToMyRecipes(1);
    assert HasId([pasta], 1) by { assert [pasta][0].id == 1; }
    mine := book.myRecipes;
    slot := book.stored;
  }

  /** A successful save survives its write to the slot: a later page that
      loads the slot sees exactly the saved collection. */
  method PersistenceScenario(catalog: seq<Recipe>, id: int) returns (saved: bool, reloaded: seq<Recipe>)
    ensures saved <==> HasId(catalog, id)
    ensures saved ==> reloaded == SaveById(catalog, [], id) && |reloaded| == 1 && reloaded[0].id == id
    ensures !saved ==> reloaded == []
  {
    var book := new RecipeBook(None);
    book.FetchAllRecipes(Some(catalog));
    saved := book.SaveRecipeToMyRecipes(id);
    var later := new RecipeBook(book.stored);
    later.FetchMyRecipes();
    reloaded := later.myRecipes;
  }
}
