/**
 * The recipe routes of routes/api/recipes.js, each a pure function from the
 * store, the authenticated caller and the request to a `Step`.
 */
module RecipeRoutes {
  import opened Optional
  import opened Text
  import opened UserModel
  import opened RecipeModel
  import opened Http
  import opened Store

  /** The request body of `POST /api/recipes` and `PUT /api/recipes/:id`. */
  datatype RecipeBody = RecipeBody(
    name: Field,
    ingredients: Field,
    instructions: Field,
    prepTime: Field,
    cookTime: Field
  )

  const NameRequired := "Please enter a name for the Recipe"
  const IngredientsRequired := "Please enter some comma seperated Ingredients"
  const InstructionsRequired := "Please enter some comma seperated Instructions"

  /**
   * The validation chain of `POST /api/recipes`: one message for each
   * required field that is absent or empty, in the order the checks are listed.
   */
  function CreateErrors(b: RecipeBody): (errs: seq<string>)
    ensures errs == [] <==> Truthy(b.name) && Truthy(b.ingredients) && Truthy(b.instructions)
    ensures NameRequired in errs <==> !Truthy(b.name)
    ensures IngredientsRequired in errs <==> !Truthy(b.ingredients)
    ensures InstructionsRequired in errs <==> !Truthy(b.instructions)
    ensures |errs| == (if Truthy(b.name) then 0 else 1) + (if Truthy(b.ingredients) then 0 else 1)
                      + (if Truthy(b.instructions) then 0 else 1)
    ensures !Truthy(b.name) ==> errs[0] == NameRequired
    ensures !Truthy(b.instructions) ==> errs[|errs| - 1] == InstructionsRequired
  {
    (if Truthy(b.name) then [] else [NameRequired])
    + (if Truthy(b.ingredients) then [] else [IngredientsRequired])
    + (if Truthy(b.instructions) then [] else [InstructionsRequired])
  }

  /**
   * `s.split(",").map(x => x.trim())`: the comma-separated items of `s`, in
   * order, each with surrounding whitespace removed. Empty items are kept.
   */
  function CommaList(s: string): (items: seq<string>)
    ensures |items| == multiset(s)[','] + 1
    ensures forall k :: 0 <= k < |items| ==> Trimmed(items[k]) && ',' !in items[k]
    ensures |items| == |Split(s, ',')|
    ensures forall k :: 0 <= k < |items| ==> items[k] == Trim(Split(s, ',')[k])
  {
    var pieces := Split(s, ',');
    SplitCount(s, ',');
    seq(|pieces|, k requires 0 <= k < |pieces| => Trim(pieces[k]))
  }

  /** Whitespace never contains a comma. */
  lemma WhitespaceHasNoComma(w: string)
    requires AllWhitespace(w)
    ensures ',' !in w
  {
  }

  /**
   * `CommaList` recovers a list of trimmed, comma-free items however much
   * whitespace is written around each item.
   */
  lemma CommaListRecovers(items: seq<string>, pre: seq<string>, post: seq<string>)
    requires |items| >= 1 && |pre| == |items| && |post| == |items|
    requires forall k :: 0 <= k < |items| ==> Trimmed(items[k]) && ',' !in items[k]
    requires forall k :: 0 <= k < |items| ==> AllWhitespace(pre[k]) && AllWhitespace(post[k])
    ensures CommaList(Join(seq(|items|, k requires 0 <= k < |items| => pre[k] + items[k] + post[k]), ',')) == items
  {
    var written := seq(|items|, k requires 0 <= k < |items| => pre[k] + items[k] + post[k]);
    forall k | 0 <= k < |items|
      ensures ',' !in written[k] && Trim(written[k]) == items[k]
    {
      WhitespaceHasNoComma(pre[k]);
      WhitespaceHasNoComma(post[k]);
      TrimUnique(pre[k], items[k], post[k]);
    }
    SplitJoin(written, ',');
  }

  /** The stored value of an optional time: only a truthy field is written. */
  function Provided(f: Field): (t: Option<string>)
    ensures t.Some? <==> Truthy(f)
    ensures t.Some? ==> t == f
  {
    if Truthy(f) then f else None
  }

  /** The object `timesObj`: a key for each truthy time field. */
  function TimesObject(prepTime: Field, cookTime: Field): (times: map<string, string>)
    ensures times.Keys <= {"prepTime", "cookTime"}
    ensures "prepTime" in times <==> Truthy(prepTime)
    ensures "cookTime" in times <==> Truthy(cookTime)
    ensures "prepTime" in times ==> times["prepTime"] == prepTime.value
    ensures "cookTime" in times ==> times["cookTime"] == cookTime.value
  {
    (if Truthy(prepTime) then map["prepTime" := prepTime.value] else map[])
    + (if Truthy(cookTime) then map["cookTime" := cookTime.value] else map[])
  }

  /** Property access on a JavaScript object: `undefined` (`None`) for a missing key. */
  function Lookup(obj: map<string, string>, key: string): Option<string> {
    if key in obj then Some(obj[key]) else None
  }

  /**
   * The recipe the handler constructs, following its four branches on the
   * number of keys in `timesObj` and on which key is missing.
   */
  function BranchedRecipe(
    owner: UserId, name: string, ingredients: seq<string>, instructions: seq<string>,
    times: map<string, string>
  ): (r: Recipe)
    ensures r.owner == owner && r.name == name
    ensures r.ingredients == ingredients && r.instructions == instructions
    ensures times.Keys <= {"prepTime", "cookTime"} ==>
      r.prepTime == Lookup(times, "prepTime") && r.cookTime == Lookup(times, "cookTime")
  {
    if |times| == 0 then
      Recipe(owner, name, ingredients, instructions, None, None)
    else if |times| == 2 then
      Recipe(owner, name, ingredients, instructions, Lookup(times, "prepTime"), Lookup(times, "cookTime"))
    else if Lookup(times, "prepTime") == None then
      Recipe(owner, name, ingredients, instructions, None, Lookup(times, "cookTime"))
    else
      assert times.Keys <= {"prepTime", "cookTime"} && "prepTime" in times && "cookTime" in times ==>
        times.Keys == {"prepTime", "cookTime"} && |times| == |times.Keys| == 2;
      Recipe(owner, name, ingredients, instructions, Lookup(times, "prepTime"), None)
  }

  /**
   * The four branches build the same document as a single builder that sets
   * exactly the provided optional fields.
   */
  lemma TimeBranchesAgree(
    owner: UserId, name: string, ingredients: seq<string>, instructions: seq<string>,
    prepTime: Field, cookTime: Field
  )
    ensures BranchedRecipe(owner, name, ingredients, instructions, TimesObject(prepTime, cookTime))
         == Recipe(owner, name, ingredients, instructions, Provided(prepTime), Provided(cookTime))
  {
    var times := TimesObject(prepTime, cookTime);
    if Truthy(prepTime) && Truthy(cookTime) {
      assert times.Keys == {"prepTime", "cookTime"};
      assert |times| == 2;
    } else if Truthy(prepTime) {
      assert times.Keys == {"prepTime"};
    } else if Truthy(cookTime) {
      assert times.Keys == {"cookTime"};
    } else {
      assert times == map[];
    }
  }

  /**
   * `POST /api/recipes`. Invalid bodies are rejected with 400 before the
   * store is touched; a caller whose account no longer exists gets 500;
   * otherwise exactly one recipe, owned by the caller, is added under the
   * fresh id the store allocates.
   */
  function CreateRecipe(s: Store, caller: UserId, b: RecipeBody, newId: RecipeId): (step: Step)
    requires newId !in s.recipes
    ensures CreateErrors(b) != [] ==> step == Step(Reply(400, Errors(CreateErrors(b))), s)
    ensures CreateErrors(b) == [] && caller !in s.users ==> step == Step(ServerError, s)
    ensures step.response.Reply? && step.response.status == 200
        <==> CreateErrors(b) == [] && caller in s.users
    ensures step.response.Reply? && step.response.status == 200 ==>
      && step.store.users == s.users
      && newId in step.store.recipes
      && step.store.recipes == s.recipes[newId := step.store.recipes[newId]]
      && |step.store.recipes| == |s.recipes| + 1
      && step.response.body == RecipeDoc(newId, step.store.recipes[newId])
    ensures step.response.Reply? && step.response.status == 200 ==>
      var r := step.store.recipes[newId];
      && r.owner == caller
      && r.name == b.name.value
      && r.ingredients == CommaList(b.ingredients.value)
      && r.instructions == CommaList(b.instructions.value)
      && (r.prepTime.Some? <==> Truthy(b.prepTime)) && (r.prepTime.Some? ==> r.prepTime == b.prepTime)
      && (r.cookTime.Some? <==> Truthy(b.cookTime)) && (r.cookTime.Some? ==> r.cookTime == b.cookTime)
      && WellFormed(r)
  {
    var errs := CreateErrors(b);
    if errs != [] then
      Step(Reply(400, Errors(errs)), s)
    else if caller !in s.users then
      Step(ServerError, s)
    else
      var ingredients := CommaList(b.ingredients.value);
      var instructions := CommaList(b.instructions.value);
      var times := TimesObject(b.prepTime, b.cookTime);
      TimeBranchesAgree(caller, b.name.value, ingredients, instructions, b.prepTime, b.cookTime);
      var r := BranchedRecipe(caller, b.name.value, ingredients, instructions, times);
      Step(Reply(200, RecipeDoc(newId, r)), s.(recipes := s.recipes[newId := r]))
  }

  /**
   * `PUT /api/recipes/:id`. Each field present and non-empty in the body
   * replaces the stored one; list fields are stored as given, as a single
   * element, without splitting. No ownership check: any caller may update.
   * An unknown id makes the handler throw outside its `try`, so nothing is
   * sent and nothing changes.
   */
  function UpdateRecipe(s: Store, caller: UserId, id: RecipeId, b: RecipeBody): (step: Step)
    ensures id !in s.recipes ==> step == Step(NoReply, s)
    ensures id in s.recipes ==>
      && step.store.users == s.users
      && step.store.recipes.Keys == s.recipes.Keys
      && (forall other :: other in s.recipes && other != id ==> step.store.recipes[other] == s.recipes[other])
      && step.response == Reply(200, RecipeDoc(id, step.store.recipes[id]))
    ensures id in s.recipes ==>
      var before, after := s.recipes[id], step.store.recipes[id];
      && after.owner == before.owner
      && (Truthy(b.name) ==> after.name == b.name.value)
      && (!Truthy(b.name) ==> after.name == before.name)
      && (Truthy(b.ingredients) ==> after.ingredients == [b.ingredients.value])
      && (!Truthy(b.ingredients) ==> after.ingredients == before.ingredients)
      && (Truthy(b.instructions) ==> after.instructions == [b.instructions.value])
      && (!Truthy(b.instructions) ==> after.instructions == before.instructions)
      && (Truthy(b.prepTime) ==> after.prepTime == b.prepTime)
      && (!Truthy(b.prepTime) ==> after.prepTime == before.prepTime)
      && (Truthy(b.cookTime) ==> after.cookTime == b.cookTime)
      && (!Truthy(b.cookTime) ==> after.cookTime == before.cookTime)
  {
    if id !in s.recipes then
      Step(NoReply, s)
    else
      var r := s.recipes[id];
      var r' := r.(
        name := Overwrite(b.name, r.name),
        ingredients := if Truthy(b.ingredients) then [b.ingredients.value] else r.ingredients,
        instructions := if Truthy(b.instructions) then [b.instructions.value] else r.instructions,
        prepTime := if Truthy(b.prepTime) then b.prepTime else r.prepTime,
        cookTime := if Truthy(b.cookTime) then b.cookTime else r.cookTime
      );
      Step(Reply(200, RecipeDoc(id, r')), s.(recipes := s.recipes[id := r']))
  }

  /** The caller owns at least one recipe. */
  predicate HasRecipes(s: Store, caller: UserId) {
    exists id :: id in s.recipes && s.recipes[id].owner == caller
  }

  /**
   * `GET /api/recipes`: exactly the caller's recipes, or 404 naming the
   * caller when there are none. The name is read from the caller's account
   * only in that case, so a caller without an account and without recipes
   * gets 500. The store is never changed.
   */
  function ListRecipes(s: Store, caller: UserId): (step: Step)
    ensures step.store == s
    ensures step.response.Reply? && step.response.status == 200 <==> HasRecipes(s, caller)
    ensures HasRecipes(s, caller) ==>
      && step.response.Reply? && step.response.body.RecipeDocs?
      && (forall id :: id in step.response.body.recipes <==> id in s.recipes && s.recipes[id].owner == caller)
      && (forall id :: id in step.response.body.recipes ==> step.response.body.recipes[id] == s.recipes[id])
    ensures !HasRecipes(s, caller) && caller in s.users ==>
      step.response == Reply(404, Msg("No Recipes for " + s.users[caller].name))
    ensures !HasRecipes(s, caller) && caller !in s.users ==> step.response == ServerError
  {
    var owned := OwnedBy(s.recipes, caller);
    if |owned| == 0 then
      assert forall id :: id in s.recipes && s.recipes[id].owner == caller ==> id in owned;
      if caller in s.users then Step(Reply(404, Msg("No Recipes for " + s.users[caller].name)), s)
      else Step(ServerError, s)
    else
      assert HasRecipes(s, caller) by {
        var id :| id in owned;
      }
      Step(Reply(200, RecipeDocs(owned)), s)
  }

  /**
   * `DELETE /api/recipes/:id`: removes the recipe with that id, if any, and
   * nothing else. There is no ownership check, and the reply is the same
   * whether or not the id existed.
   */
  function DeleteRecipe(s: Store, caller: UserId, id: RecipeId): (step: Step)
    ensures step.response == Reply(200, PlainText("Recipe Deleted"))
    ensures step.store.users == s.users
    ensures step.store.recipes.Keys == s.recipes.Keys - {id}
    ensures forall other :: other in step.store.recipes ==> step.store.recipes[other] == s.recipes[other]
  {
    Step(Reply(200, PlainText("Recipe Deleted")), s.(recipes := s.recipes - {id}))
  }

  /** Update and delete by id behave identically whoever the caller is. */
  lemma NoOwnershipCheck(s: Store, c1: UserId, c2: UserId, id: RecipeId, b: RecipeBody)
    ensures UpdateRecipe(s, c1, id, b) == UpdateRecipe(s, c2, id, b)
    ensures DeleteRecipe(s, c1, id) == DeleteRecipe(s, c2, id)
  {
  }

  /**
   * A caller with an account and no recipes gets 404 from the list; after
   * creating one recipe, the list holds exactly that recipe.
   */
  lemma ListAfterCreate(s: Store, caller: UserId, b: RecipeBody, newId: RecipeId)
    requires newId !in s.recipes
    requires caller in s.users && !HasRecipes(s, caller)
    requires CreateErrors(b) == []
    ensures ListRecipes(s, caller).response.status == 404
    ensures var after := CreateRecipe(s, caller, b, newId).store;
      ListRecipes(after, caller).response == Reply(200, RecipeDocs(map[newId := after.recipes[newId]]))
  {
    var step := CreateRecipe(s, caller, b, newId);
    var r := step.store.recipes[newId];
    OwnedAfterInsert(s.recipes, newId, r, caller);
  }

  /** Inserting a recipe for an owner who had none leaves that owner with exactly it. */
  lemma OwnedAfterInsert(recipes: map<RecipeId, Recipe>, id: RecipeId, r: Recipe, caller: UserId)
    requires id !in recipes && r.owner == caller
    requires forall other :: other in recipes ==> recipes[other].owner != caller
    ensures OwnedBy(recipes[id := r], caller) == map[id := r]
  {
    var owned := OwnedBy(recipes[id := r], caller);
    assert owned.Keys == {id};
  }

  lemma CreatePreservesValid(s: Store, caller: UserId, b: RecipeBody, newId: RecipeId)
    requires Valid(s) && newId !in s.recipes
    ensures Valid(CreateRecipe(s, caller, b, newId).store)
  {
  }

  lemma UpdatePreservesValid(s: Store, caller: UserId, id: RecipeId, b: RecipeBody)
    requires Valid(s)
    ensures Valid(UpdateRecipe(s, caller, id, b).store)
  {
  }

  lemma DeletePreservesValid(s: Store, caller: UserId, id: RecipeId)
    requires Valid(s)
    ensures Valid(DeleteRecipe(s, caller, id).store)
  {
  }

  /** Every recipe handler preserves the store invariant. */
  lemma RecipeRoutesPreserveValid(s: Store, caller: UserId, id: RecipeId, b: RecipeBody, newId: RecipeId)
    requires Valid(s)
    requires newId !in s.recipes
    ensures Valid(CreateRecipe(s, caller, b, newId).store)
    ensures Valid(UpdateRecipe(s, caller, id, b).store)
    ensures Valid(ListRecipes(s, caller).store)
    ensures Valid(DeleteRecipe(s, caller, id).store)
  {
    CreatePreservesValid(s, caller, b, newId);
    UpdatePreservesValid(s, caller, id, b);
    DeletePreservesValid(s, caller, id);
  }

  /** The example of a comma-separated list with spaces after the commas. */
  lemma CommaListExample()
    ensures CommaList("a, b, c") == ["a", "b", "c"]
  {
    var items := ["a", "b", "c"];
    var pre := ["", " ", " "];
    var post := ["", "", ""];
    var written := seq(3, k requires 0 <= k < 3 => pre[k] + items[k] + post[k]);
    assert Join(written, ',') == "a, b, c" by {
      assert written[0] == "a" && written[1] == " b" && written[2] == " c";
      assert written == ["a", " b", " c"];
      assert Join(written[2..], ',') == " c";
      assert Join(written[1..], ',') == " b" + [','] + " c";
    }
    CommaListRecovers(items, pre, post);
  }

  /** Empty and blank items are kept, not filtered out. */
  lemma CommaListKeepsEmptyItems()
    ensures CommaList("a,, ,b") == ["a", "", "", "b"]
  {
    var items := ["a", "", "", "b"];
    var pre := ["", "", " ", ""];
    var post := ["", "", "", ""];
    var written := seq(4, k requires 0 <= k < 4 => pre[k] + items[k] + post[k]);
    assert Join(written, ',') == "a,, ,b" by {
      assert written[0] == "a" && written[1] == "" && written[2] == " " && written[3] == "b";
      assert written == ["a", "", " ", "b"];
      assert Join(written[3..], ',') == "b";
      assert Join(written[2..], ',') == " " + [','] + "b";
      assert Join(written[1..], ',') == "" + [','] + " ,b";
    }
    assert forall k :: 0 <= k < 4 ==> Trimmed(items[k]) && ',' !in items[k] by {
      assert items[0] == "a" && items[3] == "b";
    }
    assert forall k :: 0 <= k < 4 ==> AllWhitespace(pre[k]) && AllWhitespace(post[k]) by {
      assert AllWhitespace(" ");
    }
    CommaListRecovers(items, pre, post);
  }
}
