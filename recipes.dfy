/** Recipe records and the pure rules over collections of them: lookup by id,
    the search filter, the grid card summary, the authoring form's record and
    the effect of saving and deleting on the personal collection. */
module Recipes {
  import opened Strings
  import opened Seqs

  datatype Option<T> = None | Some(value: T)

  /** A recipe record. An empty `image` stands for a missing image URL. */
  datatype Recipe = Recipe(
    id: int,
    name: string,
    ingredients: seq<string>,
    instructions: seq<string>,
    image: string)

  /** Image shown on a grid card, and stored for an authored recipe, when none is given. */
  const CardPlaceholder: string := "/api/placeholder/250/200"
  /** Image shown on the detail view when the recipe has none. */
  const DetailPlaceholder: string := "/api/placeholder/400/300"

  // ---------------------------------------------------------------------------
  // Ids

  /** Some record of `rs` carries `id` (the `some` test on ids). */
  predicate HasId(rs: seq<Recipe>, id: int)
    ensures HasId(rs, id) <==> exists r :: r in rs && r.id == id
  {
    exists i :: 0 <= i < |rs| && rs[i].id == id
  }

  /** No two records of `rs` share an id. */
  ghost predicate UniqueIds(rs: seq<Recipe>) {
    forall i, j :: 0 <= i < j < |rs| ==> rs[i].id != rs[j].id
  }

  /** The first record of `rs` whose id is `id` (JavaScript's `find`). */
  function FindById(rs: seq<Recipe>, id: int): (r: Option<Recipe>)
    ensures r.None? <==> !HasId(rs, id)
    ensures r.Some? ==> r.value in rs && r.value.id == id
    ensures forall i :: 0 <= i < |rs| && rs[i].id == id && !HasId(rs[..i], id) ==> r == Some(rs[i])
  {
    if rs == [] then None
    else if rs[0].id == id then Some(rs[0])
    else
      var r := FindById(rs[1..], id);
      assert forall i :: 1 <= i < |rs| ==> rs[..i] == [rs[0]] + rs[1..][..i - 1];
      assert forall i :: 1 <= i < |rs| ==> rs[i] == rs[1..][i - 1];
      r
  }

  /** Looking up in a concatenation finds the match in the first part if there
      is one, and otherwise the match in the second part. */
  lemma {:induction false} FindByIdAppend(a: seq<Recipe>, b: seq<Recipe>, id: int)
    ensures FindById(a + b, id) == if HasId(a, id) then FindById(a, id) else FindById(b, id)
  {
    if a == [] {
      assert a + b == b;
    } else {
      assert (a + b)[1..] == a[1..] + b;
      FindByIdAppend(a[1..], b, id);
      if a[0].id != id {
        assert HasId(a, id) ==> HasId(a[1..], id) by {
          if HasId(a, id) {
            var i :| 0 <= i < |a| && a[i].id == id;
            assert a[1..][i - 1] == a[i];
          }
        }
      }
    }
  }

  // ---------------------------------------------------------------------------
  // Detail lookup

  /** The record the detail view shows for `id`: the first match in the
      catalog followed by the personal collection, or `None` for "Recipe not found". */
  function LookupDetail(all: seq<Recipe>, mine: seq<Recipe>, id: int): (r: Option<Recipe>)
    ensures r.Some? ==> r.value.id == id && (r.value in all || r.value in mine)
  {
    FindById(all + mine, id)
  }

  /** The catalog takes precedence; the personal collection is consulted only
      when the catalog has no record with the id; and the lookup fails exactly
      when neither has one. */
  lemma LookupDetailPrecedence(all: seq<Recipe>, mine: seq<Recipe>, id: int)
    ensures HasId(all, id) ==> LookupDetail(all, mine, id) == FindById(all, id)
    ensures !HasId(all, id) ==> LookupDetail(all, mine, id) == FindById(mine, id)
    ensures LookupDetail(all, mine, id).None? <==> !HasId(all, id) && !HasId(mine, id)
  {
    FindByIdAppend(all, mine, id);
  }

  /** Image URL the detail view displays. */
  function DetailImage(r: Recipe): (url: string)
    ensures url != []
    ensures r.image != [] ==> url == r.image
    ensures r.image == [] ==> url == DetailPlaceholder
  {
    ImageOr(r.image, DetailPlaceholder)
  }

  // ---------------------------------------------------------------------------
  // Search

  /** `term` (already lower-cased) occurs in the lower-cased name or in some
      lower-cased ingredient of `r`. */
  predicate Matches(r: Recipe, term: string)
    ensures term == [] ==> Matches(r, term)
    ensures Matches(r, term) ==> |term| <= |r.name| || exists k :: 0 <= k < |r.ingredients| && |term| <= |r.ingredients[k]|
  {
    ContainsEmpty(Lower(r.name));
    Contains(Lower(r.name), term)
    || exists k :: 0 <= k < |r.ingredients| && Contains(Lower(r.ingredients[k]), term)
  }

  /** The search predicate as a value, for filtering. */
  function Matcher(term: string): (m: Recipe -> bool)
    ensures forall r :: m(r) <==> Matches(r, term)
  {
    r => Matches(r, term)
  }

  /** The recipes of `rs` that match the search text, case-insensitively, in
      order; each kept recipe as often as it occurs in `rs`. */
  function Search(rs: seq<Recipe>, text: string): (found: seq<Recipe>)
    ensures IsSubsequence(found, rs)
    ensures forall r :: r in found <==> r in rs && Matches(r, Lower(text))
    ensures forall r :: r in rs ==> multiset(found)[r] == if Matches(r, Lower(text)) then multiset(rs)[r] else 0
  {
    FilterIsSubsequence(rs, Matcher(Lower(text)));
    FilterMembership(rs, Matcher(Lower(text)));
    Filter(rs, Matcher(Lower(text)))
  }

  /** An empty search text keeps the whole collection, in order. */
  lemma SearchEmpty(rs: seq<Recipe>)
    ensures Search(rs, "") == rs
  {
    forall r | r in rs
      ensures Matcher(Lower(""))(r)
    {
      ContainsEmpty(Lower(r.name));
    }
    FilterAll(rs, Matcher(Lower("")));
  }

  /** A text matching no recipe empties the result. */
  lemma SearchNoMatch(rs: seq<Recipe>, text: string)
    requires forall r :: r in rs ==> !Matches(r, Lower(text))
    ensures Search(rs, text) == []
  {
    FilterNone(rs, Matcher(Lower(text)));
  }

  /** Search texts that differ only in ASCII case give the same result. */
  lemma SearchCaseInsensitive(rs: seq<Recipe>, text: string, other: string)
    requires EqualIgnoringCase(text, other)
    ensures Search(rs, text) == Search(rs, other)
  {
    LowerEqualIff(text, other);
  }

  /** Searching the result of a search again with the same text changes nothing. */
  lemma SearchIdempotent(rs: seq<Recipe>, text: string)
    ensures Search(Search(rs, text), text) == Search(rs, text)
  {
    FilterIdempotent(rs, Matcher(Lower(text)));
  }

  // ---------------------------------------------------------------------------
  // Grid card

  function Min(a: int, b: int): int {
    if a <= b then a else b
  }

  /** Summary line of a grid card: the first three ingredients joined by
      ", ", followed by "..." when there are more. */
  function CardText(ingredients: seq<string>): (text: string)
    ensures |ingredients| > 3 ==> |text| >= 3 && text[|text| - 3..] == "..."
    ensures |ingredients| == 0 ==> text == ""
  {
    Join(ingredients[..Min(3, |ingredients|)], ", ")
      + (if |ingredients| > 3 then "..." else "")
  }

  /** Up to three ingredients are shown in full, without an ellipsis. */
  lemma CardTextShort(ingredients: seq<string>)
    requires |ingredients| <= 3
    ensures CardText(ingredients) == Join(ingredients, ", ")
  {
    assert ingredients[..|ingredients|] == ingredients;
  }

  /** With more than three, the card shows the first three and then "...", and
      what the later ingredients are does not matter. */
  lemma CardTextLong(ingredients: seq<string>, other: seq<string>)
    requires |ingredients| > 3 && |other| > 3
    requires ingredients[..3] == other[..3]
    ensures CardText(ingredients) == CardText(ingredients[..3]) + "..."
    ensures CardText(ingredients) == CardText(other)
  {
    assert ingredients[..3][..3] == ingredients[..3];
  }

  /** The card of a four-ingredient pasta recipe. */
  lemma CardTextExample()
    ensures CardText(["tomato", "basil", "pasta", "salt"]) == "tomato, basil, pasta..."
  {
    var ings := ["tomato", "basil", "pasta", "salt"];
    assert ings[..3] == ["tomato", "basil", "pasta"];
    assert Join(["pasta"], ", ") == "pasta";
    assert Join(["basil", "pasta"], ", ") == "basil, pasta";
    assert Join(["tomato", "basil", "pasta"], ", ") == "tomato, basil, pasta";
  }

  /** Each of the first three ingredients (all of them when there are fewer)
      appears in the card text. */
  lemma CardTextShowsFirstThree(ingredients: seq<string>)
    ensures forall k :: 0 <= k < Min(3, |ingredients|) ==> Contains(CardText(ingredients), ingredients[k])
  {
    var shown := ingredients[..Min(3, |ingredients|)];
    var suffix := if |ingredients| > 3 then "..." else "";
    forall k | 0 <= k < Min(3, |ingredients|)
      ensures Contains(CardText(ingredients), ingredients[k])
    {
      assert shown[k] == ingredients[k];
      JoinShowsParts(shown, ", ");
      var i :| 0 <= i <= |Join(shown, ", ")| && IsPrefix(ingredients[k], Join(shown, ", ")[i..]);
      assert (Join(shown, ", ") + suffix)[i..][..|ingredients[k]|] == Join(shown, ", ")[i..][..|ingredients[k]|];
    }
  }

  /** Image URL a grid card displays. */
  function CardImage(r: Recipe): (url: string)
    ensures url != []
    ensures r.image != [] ==> url == r.image
    ensures r.image == [] ==> url == CardPlaceholder
  {
    ImageOr(r.image, CardPlaceholder)
  }

  // ---------------------------------------------------------------------------
  // Authoring

  /** `image`, or `fallback` when `image` is empty (JavaScript's `||` on strings). */
  function ImageOr(image: string, fallback: string): (url: string)
    requires fallback != []
    ensures url != []
  {
    if image != [] then image else fallback
  }

  /** The record built from the authoring form's fields: it keeps the id
      and name, and its lines joined again give back the two text fields. */
  function NewRecipe(id: int, name: string, ingredientsText: string,
                     instructionsText: string, imageText: string): (r: Recipe)
    ensures r.id == id && r.name == name
    ensures Join(r.ingredients, "\n") == ingredientsText
    ensures Join(r.instructions, "\n") == instructionsText
  {
    JoinSplit(ingredientsText, '\n');
    JoinSplit(instructionsText, '\n');
    Recipe(id, name, Split(ingredientsText, '\n'), Split(instructionsText, '\n'),
           ImageOr(imageText, CardPlaceholder))
  }

  /** Each line of the ingredients and instructions fields becomes one element,
      blank lines included, none holding a line break; a blank image becomes
      the placeholder. */
  lemma NewRecipeFields(id: int, name: string, ingredientsText: string,
                        instructionsText: string, imageText: string)
    ensures var r := NewRecipe(id, name, ingredientsText, instructionsText, imageText);
      && |r.ingredients| == Count(ingredientsText, '\n') + 1
      && |r.instructions| == Count(instructionsText, '\n') + 1
      && (forall k :: 0 <= k < |r.ingredients| ==> '\n' !in r.ingredients[k])
      && (forall k :: 0 <= k < |r.instructions| ==> '\n' !in r.instructions[k])
      && (imageText == "" ==> r.image == CardPlaceholder)
      && (imageText != "" ==> r.image == imageText)
  {
    SplitLength(ingredientsText, '\n');
    SplitLength(instructionsText, '\n');
    SplitPiecesFree(ingredientsText, '\n');
    SplitPiecesFree(instructionsText, '\n');
  }

  /** The form text "egg\nflour" yields the ingredients ["egg", "flour"]. */
  lemma NewRecipeExample(id: int)
    ensures NewRecipe(id, "Cake", "egg\nflour", "mix", "").ingredients == ["egg", "flour"]
  {
    var parts := ["egg", "flour"];
    assert Join(parts, "\n") == "egg\nflour";
    SplitJoin(parts, '\n');
  }

  // ---------------------------------------------------------------------------
  // Saving and deleting in the personal collection

  /** The personal collection after saving catalog recipe `id`: the first
      catalog record with that id is appended unless the collection already
      holds that id; a missing id changes nothing. */
  function SaveById(all: seq<Recipe>, mine: seq<Recipe>, id: int): (r: seq<Recipe>)
    ensures |mine| <= |r| <= |mine| + 1 && r[..|mine|] == mine
    ensures |r| == |mine| + 1 ==> r[|mine|] in all && r[|mine|].id == id
  {
    match FindById(all, id)
    case None => mine
    case Some(rec) => if HasId(mine, rec.id) then mine else mine + [rec]
  }

  /** Saving an id the catalog lacks, or one already saved, changes nothing;
      otherwise exactly the first catalog record with that id is appended. */
  lemma SaveByIdEffect(all: seq<Recipe>, mine: seq<Recipe>, id: int)
    ensures !HasId(all, id) || HasId(mine, id) ==> SaveById(all, mine, id) == mine
    ensures HasId(all, id) && !HasId(mine, id) ==>
      exists i :: 0 <= i < |all| && all[i].id == id && !HasId(all[..i], id)
        && SaveById(all, mine, id) == mine + [all[i]]
  {
    if HasId(all, id) && !HasId(mine, id) {
      var i :| 0 <= i < |all| && all[i].id == id;
      while HasId(all[..i], id)
        invariant 0 <= i < |all| && all[i].id == id
        decreases i
      {
        var j :| 0 <= j < i && all[..i][j].id == id;
        i := j;
      }
    }
  }

  /** Saving is idempotent. */
  lemma SaveByIdIdempotent(all: seq<Recipe>, mine: seq<Recipe>, id: int)
    ensures SaveById(all, SaveById(all, mine, id), id) == SaveById(all, mine, id)
  {
    var once := SaveById(all, mine, id);
    if FindById(all, id).Some? && !HasId(mine, id) {
      assert once[|once| - 1].id == id;
      assert HasId(once, id);
    }
  }

  /** Saving keeps the earlier records in place and keeps ids unique. */
  lemma SaveByIdPreservesUnique(all: seq<Recipe>, mine: seq<Recipe>, id: int)
    ensures SaveById(all, mine, id)[..|mine|] == mine
    ensures UniqueIds(mine) ==> UniqueIds(SaveById(all, mine, id))
  {
    var r := SaveById(all, mine, id);
    assert r == mine || r == mine + [FindById(all, id).value];
    if UniqueIds(mine) && r != mine {
      forall i, j | 0 <= i < j < |r|
        ensures r[i].id != r[j].id
      {
        if j == |mine| {
          assert r[i] == mine[i];
        }
      }
    }
  }

  /** The test that keeps a record on deleting `id`. */
  function IdIsNot(id: int): (keep: Recipe -> bool)
    ensures forall r :: keep(r) <==> r.id != id
  {
    (r: Recipe) => r.id != id
  }

  /** The personal collection after deleting `id`: every record with another
      id, in order, each as often as before. */
  function Without(mine: seq<Recipe>, id: int): (r: seq<Recipe>)
    ensures forall x :: x in r ==> x in mine && x.id != id
    ensures forall x :: x in mine ==> multiset(r)[x] == if x.id != id then multiset(mine)[x] else 0
  {
    Filter(mine, IdIsNot(id))
  }

  /** Deleting keeps exactly the records with another id, in their order;
      afterwards no record has the id; deleting an absent id changes nothing. */
  lemma WithoutEffect(mine: seq<Recipe>, id: int)
    ensures forall r :: r in Without(mine, id) <==> r in mine && r.id != id
    ensures IsSubsequence(Without(mine, id), mine)
    ensures !HasId(Without(mine, id), id)
    ensures !HasId(mine, id) ==> Without(mine, id) == mine
  {
    var p := IdIsNot(id);
    FilterMembership(mine, p);
    FilterIsSubsequence(mine, p);
    var w := Without(mine, id);
    forall i | 0 <= i < |w| ensures w[i].id != id {
      assert w[i] in w;
    }
    if !HasId(mine, id) {
      forall r | r in mine ensures p(r) {
        var i :| 0 <= i < |mine| && mine[i] == r;
      }
      FilterAll(mine, p);
    }
  }

  /** Deleting twice is deleting once. */
  lemma WithoutIdempotent(mine: seq<Recipe>, id: int)
    ensures Without(Without(mine, id), id) == Without(mine, id)
  {
    FilterIdempotent(mine, IdIsNot(id));
  }

  /** In a collection with unique ids, the tail has unique ids and none of
      them is the head's. */
  lemma UniqueSplit(s: seq<Recipe>)
    requires s != [] && UniqueIds(s)
    ensures UniqueIds(s[1..])
    ensures forall x :: x in s[1..] ==> x.id != s[0].id
  {
    forall i, j | 0 <= i < j < |s[1..]| ensures s[1..][i].id != s[1..][j].id {
      assert s[1..][i] == s[i + 1] && s[1..][j] == s[j + 1];
    }
    forall x | x in s[1..] ensures x.id != s[0].id {
      var k :| 0 <= k < |s[1..]| && s[1..][k] == x;
      assert s[k + 1] == x;
    }
  }

  /** A record whose id the collection lacks, put in front of a collection
      with unique ids, gives unique ids. */
  lemma UniqueCons(x: Recipe, t: seq<Recipe>)
    requires UniqueIds(t)
    requires forall y :: y in t ==> y.id != x.id
    ensures UniqueIds([x] + t)
  {
    var r := [x] + t;
    forall i, j | 0 <= i < j < |r| ensures r[i].id != r[j].id {
      assert r[j] == t[j - 1];
      if i > 0 {
        assert r[i] == t[i - 1];
      }
    }
  }

  /** A filter of a collection with unique ids has unique ids. */
  lemma {:induction false} FilterPreservesUnique(s: seq<Recipe>, p: Recipe -> bool)
    requires UniqueIds(s)
    ensures UniqueIds(Filter(s, p))
  {
    if s != [] {
      UniqueSplit(s);
      FilterPreservesUnique(s[1..], p);
      if p(s[0]) {
        UniqueCons(s[0], Filter(s[1..], p));
      }
    }
  }

  /** Deleting keeps ids unique. */
  lemma WithoutPreservesUnique(mine: seq<Recipe>, id: int)
    requires UniqueIds(mine)
    ensures UniqueIds(Without(mine, id))
  {
    FilterPreservesUnique(mine, IdIsNot(id));
  }

  /** Appending an authored record whose id is new keeps ids unique. */
  lemma AppendFreshPreservesUnique(mine: seq<Recipe>, r: Recipe)
    requires UniqueIds(mine) && !HasId(mine, r.id)
    ensures UniqueIds(mine + [r])
  {
    var s := mine + [r];
    forall i, j | 0 <= i < j < |s| ensures s[i].id != s[j].id {
      if j == |mine| {
        assert s[i] == mine[i];
      }
    }
  }
}
