/**
 * What each write of tables.dfy guarantees: every one of them, successful or
 * stopped half way, leaves a database whose constraints and foreign keys all
 * hold; `create` and `update` succeed exactly when their payload allows it and
 * then leave the recipe with exactly the payload's ingredients and tags; the
 * cascades leave nothing that refers to the deleted row.
 */
module Integrity {
  import opened Wrappers
  import opened Errors
  import opened Users
  import opened Recipes
  import opened RecipeWrite
  import opened Tables

  // ---------------------------------------------------------------- inserting a recipe row

  lemma RecipeIdsCons(r: Recipe, recipes: seq<Recipe>)
    ensures RecipeIds([r] + recipes) == {r.id} + RecipeIds(recipes)
  {
    assert forall x :: x in [r] + recipes <==> x == r || x in recipes;
  }

  /** A valid database has no ingredient row and no tag link for the next id. */
  lemma NothingRefersToNextId(db: Db)
    requires Valid(db)
    ensures db.nextId !in RecipeIds(db.recipes)
    ensures RowsOf(db.recipeIngredients, db.nextId) == {}
    ensures forall x :: !HasPair(db.recipeIngredients, x, db.nextId)
    ensures WithoutTagsOf(db.recipeTags, db.nextId) == db.recipeTags
  {
    assert forall r :: r in db.recipeIngredients ==> r.recipe in RecipeIds(db.recipes);
    assert forall l :: l in db.recipeTags ==> l.recipe in RecipeIds(db.recipes);
  }

  /** The new row goes to the head of the table and keeps every invariant. */
  lemma InsertRecipeKeepsValid(db: Db, author: UserId, patch: RecipePatch)
    requires Valid(db) && Complete(patch) && FieldsChecked(patch)
    ensures InsertRecipe(db, author, patch).Success? ==>
              var after := InsertRecipe(db, author, patch).value;
              && Valid(after)
              && after.recipes == [NewRecipe(db, author, patch)] + db.recipes
              && RecipeIds(after.recipes) == RecipeIds(db.recipes) + {db.nextId}
              && after.recipeIngredients == db.recipeIngredients && after.recipeTags == db.recipeTags
  {
    if InsertRecipe(db, author, patch).Success? {
      var r := NewRecipe(db, author, patch);
      var after := InsertRecipe(db, author, patch).value;
      assert after.recipes == [r] + db.recipes;
      RecipeIdsCons(r, db.recipes);
      NothingRefersToNextId(db);
      forall i, j | 0 <= i < j < |after.recipes|
        ensures after.recipes[i].pubDate > after.recipes[j].pubDate
      {
        assert after.recipes[j] == db.recipes[j - 1];
        if i > 0 {
          assert after.recipes[i] == db.recipes[i - 1];
        } else {
          assert db.recipes[j - 1] in db.recipes;
        }
      }
      assert forall x :: x in after.recipes <==> x == r || x in db.recipes;
      assert RecipesValid(after.recipes, after.users.Keys, after.clock);
    }
  }

  // ---------------------------------------------------------------- create

  /** `create` never breaks a constraint, whether it succeeds or stops half way. */
  lemma CreateKeepsValid(db: Db, author: UserId, patch: RecipePatch)
    requires Valid(db) && Complete(patch) && FieldsChecked(patch)
    ensures Valid(Create(db, author, patch).state)
  {
    InsertRecipeKeepsValid(db, author, patch);
    if InsertRecipe(db, author, patch).Success? {
      var inserted := InsertRecipe(db, author, patch).value;
      var id := db.nextId;
      var entries := patch.ingredients.value;
      var added := AddIngredients(inserted.ingredients.Keys, inserted.recipeIngredients, id, entries);
      AddIngredientsKeepsValid(inserted.ingredients.Keys, RecipeIds(inserted.recipes), inserted.recipeIngredients, id, entries);
      var withRows := inserted.(recipeIngredients := added.state);
      assert Valid(withRows);
      if added.error.None? {
        AttachTagsOutcome(withRows.tags.Keys, withRows.recipeTags, id, patch.tags.value);
      }
    }
  }

  /** The payload conditions under which `create` completes. */
  ghost predicate CreateAllowed(db: Db, author: UserId, patch: RecipePatch)
    requires Complete(patch)
  {
    && author in db.users
    && !NameTaken(db.recipes, author, patch.name.value, None)
    && (forall e :: e in patch.ingredients.value ==> e.id in db.ingredients)
    && DistinctIds(patch.ingredients.value)
    && (forall t :: t in patch.tags.value ==> t in db.tags)
  }

  /**
   * `create` completes exactly when the author exists and has no recipe of that
   * name, every ingredient exists and none repeats, and every tag exists.
   */
  lemma {:induction false} CreateSucceedsIff(db: Db, author: UserId, patch: RecipePatch)
    requires Valid(db) && Complete(patch)
    ensures Create(db, author, patch).error.None? <==> CreateAllowed(db, author, patch)
  {
    if InsertRecipe(db, author, patch).Success? {
      var inserted := InsertRecipe(db, author, patch).value;
      var id := db.nextId;
      var entries := patch.ingredients.value;
      NothingRefersToNextId(db);
      AddIngredientsOutcome(inserted.ingredients.Keys, inserted.recipeIngredients, id, entries);
      var added := AddIngredients(inserted.ingredients.Keys, inserted.recipeIngredients, id, entries);
      AttachTagsOutcome(inserted.tags.Keys, inserted.recipeTags, id, patch.tags.value);
    }
  }

  /**
   * What `create` leaves. A rejected insert changes nothing; once the row is in,
   * it stays even when a later step fails. On success the new recipe is the
   * newest, has one ingredient row per entry and exactly the given tags, and
   * no other recipe's rows or links change.
   */
  lemma {:induction false} CreateResult(db: Db, author: UserId, patch: RecipePatch)
    requires Valid(db) && Complete(patch)
    ensures InsertRecipe(db, author, patch).Failure? ==> Create(db, author, patch).state == db
    ensures InsertRecipe(db, author, patch).Success? ==>
              Create(db, author, patch).state.recipes == [NewRecipe(db, author, patch)] + db.recipes
    ensures var after := Create(db, author, patch).state;
            && after.users == db.users && after.follows == db.follows && after.tags == db.tags
            && after.ingredients == db.ingredients && after.favorites == db.favorites && after.carts == db.carts
            && (forall other :: other != db.nextId ==>
                  RowsOf(after.recipeIngredients, other) == RowsOf(db.recipeIngredients, other)
                  && TagsOf(after.recipeTags, other) == TagsOf(db.recipeTags, other))
    ensures Create(db, author, patch).error.None? ==>
              var after := Create(db, author, patch).state;
              && RowsOf(after.recipeIngredients, db.nextId) == EntryRows(db.nextId, patch.ingredients.value)
              && TagsOf(after.recipeTags, db.nextId) == set t | t in patch.tags.value
  {
    if InsertRecipe(db, author, patch).Success? {
      var inserted := InsertRecipe(db, author, patch).value;
      var id := db.nextId;
      var entries := patch.ingredients.value;
      NothingRefersToNextId(db);
      AddIngredientsOutcome(inserted.ingredients.Keys, inserted.recipeIngredients, id, entries);
      AddIngredientsPrefix(inserted.ingredients.Keys, inserted.recipeIngredients, id, entries);
      var added := AddIngredients(inserted.ingredients.Keys, inserted.recipeIngredients, id, entries);
      if added.error.None? {
        var tags := patch.tags.value;
        AttachTagsOutcome(inserted.tags.Keys, db.recipeTags, id, tags);
        var attached := AttachTags(inserted.tags.Keys, db.recipeTags, id, tags);
        var after := Create(db, author, patch).state;
        assert after.recipeTags == attached.state;
        assert RowsOf(after.recipeIngredients, id) == EntryRows(id, entries) by {
          assert after.recipeIngredients == db.recipeIngredients + EntryRows(id, entries);
        }
        forall other | other != id
          ensures TagsOf(after.recipeTags, other) == TagsOf(db.recipeTags, other)
        {
          assert forall l :: l in after.recipeTags && l !in db.recipeTags ==> l.recipe == id;
        }
        if attached.error.None? {
          TagsOfAttached(db.recipeTags, id, tags);
        }
      }
    }
  }

  // ---------------------------------------------------------------- update

  /** Overwriting a row with its patched self keeps every recipe-table invariant and every key in place. */
  lemma ReplaceKeepsRecipesValid(db: Db, id: Id, patch: RecipePatch)
    requires Valid(db) && id in RecipeIds(db.recipes) && FieldsChecked(patch)
    requires !NameTaken(db.recipes, Patched(FindRecipe(db.recipes, id), patch).author,
                        Patched(FindRecipe(db.recipes, id), patch).name, Some(id))
    ensures var out := ReplaceRecipe(db.recipes, Patched(FindRecipe(db.recipes, id), patch));
            && RecipesValid(out, db.users.Keys, db.clock)
            && RecipeIds(out) == RecipeIds(db.recipes)
            && (forall i :: 0 <= i < |out| ==> out[i].id == db.recipes[i].id)
  {
    var old_ := FindRecipe(db.recipes, id);
    var updated := Patched(old_, patch);
    ReplaceRowKeepsRecipesValid(db.recipes, db.users.Keys, db.clock, old_, updated);
  }

  /** The same on the bare table: the row keeps its key, author and date, and its new name is free. */
  lemma ReplaceRowKeepsRecipesValid(recipes: seq<Recipe>, users: set<UserId>, clock: int, old_: Recipe, updated: Recipe)
    requires RecipesValid(recipes, users, clock) && old_ in recipes
    requires updated.id == old_.id && updated.author == old_.author && updated.pubDate == old_.pubDate
    requires |updated.name| <= NAME_MAX_LENGTH && updated.cookingTime >= MIN_COOKING_TIME
    requires !NameTaken(recipes, updated.author, updated.name, Some(updated.id))
    ensures var out := ReplaceRecipe(recipes, updated);
            && RecipesValid(out, users, clock)
            && RecipeIds(out) == RecipeIds(recipes)
            && (forall i :: 0 <= i < |out| ==> out[i].id == recipes[i].id)
  {
    var out := ReplaceRecipe(recipes, updated);
    ReplaceRowShape(recipes, old_, updated);
    assert NewestFirst(out);
    assert forall a, b :: a in out && b in out && a.id == b.id ==> a == b;
    assert forall a, b :: a in out && b in out && a.author == b.author && a.name == b.name ==> a == b;
  }

  /** Where the replaced row sits: every position keeps its key, author and date; every row is old or the new one. */
  lemma ReplaceRowShape(recipes: seq<Recipe>, old_: Recipe, updated: Recipe)
    requires old_ in recipes && updated.id == old_.id && updated.author == old_.author && updated.pubDate == old_.pubDate
    requires forall a, b :: a in recipes && b in recipes && a.id == b.id ==> a == b
    ensures var out := ReplaceRecipe(recipes, updated);
            && (forall i :: 0 <= i < |out| ==> out[i].id == recipes[i].id && out[i].pubDate == recipes[i].pubDate)
            && (forall x :: x in out ==> x == updated || (x in recipes && x.id != updated.id))
            && updated in out
            && RecipeIds(out) == RecipeIds(recipes)
  {
    var out := ReplaceRecipe(recipes, updated);
    forall i | 0 <= i < |out|
      ensures out[i].id == recipes[i].id && out[i].pubDate == recipes[i].pubDate
    {
      if recipes[i].id == updated.id {
        assert recipes[i] == old_;
      }
    }
    forall x | x in out
      ensures x == updated || (x in recipes && x.id != updated.id)
    {
      var i :| 0 <= i < |out| && out[i] == x;
    }
    assert updated in out by {
      var i :| 0 <= i < |recipes| && recipes[i] == old_;
      assert out[i] == updated;
    }
    forall x | x in recipes
      ensures x.id in RecipeIds(out)
    {
      var i :| 0 <= i < |recipes| && recipes[i] == x;
      assert out[i].id == x.id;
    }
  }

  /** Clearing a recipe's tags and ingredient rows keeps every invariant. */
  lemma ClearedKeepsValid(db: Db, id: Id)
    requires Valid(db)
    ensures Valid(Cleared(db, id))
  {
  }

  /** The tag loop over an existing recipe keeps every invariant, however far it gets. */
  lemma TagLoopKeepsValid(db: Db, id: Id, tags: seq<Id>)
    requires Valid(db) && id in RecipeIds(db.recipes)
    ensures Valid(db.(recipeTags := AttachTags(db.tags.Keys, db.recipeTags, id, tags).state))
  {
    AttachTagsOutcome(db.tags.Keys, db.recipeTags, id, tags);
  }

  /** `add_ingredients` on an existing recipe keeps every invariant, however far it gets. */
  lemma IngredientLoopKeepsValid(db: Db, id: Id, entries: seq<IngredientEntry>)
    requires Valid(db) && id in RecipeIds(db.recipes)
    ensures Valid(db.(recipeIngredients := AddIngredients(db.ingredients.Keys, db.recipeIngredients, id, entries).state))
  {
    AddIngredientsKeepsValid(db.ingredients.Keys, RecipeIds(db.recipes), db.recipeIngredients, id, entries);
  }

  /** Saving the patched row keeps every invariant when no other recipe of the author has the new name. */
  lemma SaveKeepsValid(db: Db, id: Id, patch: RecipePatch)
    requires Valid(db) && id in RecipeIds(db.recipes) && FieldsChecked(patch)
    requires !NameTaken(db.recipes, Patched(FindRecipe(db.recipes, id), patch).author,
                        Patched(FindRecipe(db.recipes, id), patch).name, Some(id))
    ensures Valid(db.(recipes := ReplaceRecipe(db.recipes, Patched(FindRecipe(db.recipes, id), patch))))
  {
    ReplaceKeepsRecipesValid(db, id, patch);
  }

  /** `update` never breaks a constraint, whether it succeeds or stops half way. */
  lemma UpdateKeepsValid(db: Db, id: Id, patch: RecipePatch)
    requires Valid(db) && id in RecipeIds(db.recipes) && FieldsChecked(patch)
    ensures Valid(Update(db, id, patch).state)
  {
    var cleared := Cleared(db, id);
    ClearedKeepsValid(db, id);
    if patch.ingredients.None? || patch.tags.None? {
      assert Update(db, id, patch).state == cleared;
    } else {
      TagLoopKeepsValid(cleared, id, patch.tags.value);
      var attached := AttachTags(cleared.tags.Keys, cleared.recipeTags, id, patch.tags.value);
      var withTags := cleared.(recipeTags := attached.state);
      if attached.error.Some? {
        assert Update(db, id, patch).state == withTags;
      } else {
        IngredientLoopKeepsValid(withTags, id, patch.ingredients.value);
        var added := AddIngredients(withTags.ingredients.Keys, withTags.recipeIngredients, id, patch.ingredients.value);
        var withRows := withTags.(recipeIngredients := added.state);
        var updated := Patched(FindRecipe(db.recipes, id), patch);
        if added.error.Some? || NameTaken(db.recipes, updated.author, updated.name, Some(id)) {
          assert Update(db, id, patch).state == withRows;
        } else {
          SaveKeepsValid(withRows, id, patch);
          assert Update(db, id, patch).state == withRows.(recipes := ReplaceRecipe(db.recipes, updated));
        }
      }
    }
  }

  /** The payload conditions under which `update` completes. */
  ghost predicate UpdateAllowed(db: Db, id: Id, patch: RecipePatch)
    requires id in RecipeIds(db.recipes)
  {
    && patch.ingredients.Some? && patch.tags.Some?
    && (forall t :: t in patch.tags.value ==> t in db.tags)
    && (forall e :: e in patch.ingredients.value ==> e.id in db.ingredients)
    && DistinctIds(patch.ingredients.value)
    && !NameTaken(db.recipes, FindRecipe(db.recipes, id).author,
                  Patched(FindRecipe(db.recipes, id), patch).name, Some(id))
  }

  /**
   * `update` completes exactly when both keys are present, every tag and
   * ingredient exists, no ingredient repeats, and no other recipe of the
   * author has the new name.
   */
  lemma {:induction false} UpdateSucceedsIff(db: Db, id: Id, patch: RecipePatch)
    requires Valid(db) && id in RecipeIds(db.recipes)
    ensures Update(db, id, patch).error.None? <==> UpdateAllowed(db, id, patch)
  {
    var cleared := Cleared(db, id);
    if patch.ingredients.Some? && patch.tags.Some? {
      AttachTagsOutcome(cleared.tags.Keys, cleared.recipeTags, id, patch.tags.value);
      var attached := AttachTags(cleared.tags.Keys, cleared.recipeTags, id, patch.tags.value);
      var entries := patch.ingredients.value;
      assert forall x :: !HasPair(cleared.recipeIngredients, x, id);
      AddIngredientsOutcome(cleared.ingredients.Keys, cleared.recipeIngredients, id, entries);
    }
  }

  /**
   * What a completed `update` leaves: the row is patched in place (same key,
   * author and publication date, same position), the recipe has one ingredient
   * row per entry and exactly the given tags, and nothing else changes.
   */
  lemma {:induction false} UpdateResult(db: Db, id: Id, patch: RecipePatch)
    requires Valid(db) && id in RecipeIds(db.recipes)
    requires Update(db, id, patch).error.None?
    ensures var after := Update(db, id, patch).state;
            && |after.recipes| == |db.recipes|
            && (forall i :: 0 <= i < |db.recipes| ==>
                  after.recipes[i] == if db.recipes[i].id == id then Patched(db.recipes[i], patch) else db.recipes[i])
            && RowsOf(after.recipeIngredients, id) == EntryRows(id, patch.ingredients.value)
            && TagsOf(after.recipeTags, id) == set t | t in patch.tags.value
            && (forall other :: other != id ==>
                  RowsOf(after.recipeIngredients, other) == RowsOf(db.recipeIngredients, other)
                  && TagsOf(after.recipeTags, other) == TagsOf(db.recipeTags, other))
            && after.users == db.users && after.follows == db.follows && after.tags == db.tags
            && after.ingredients == db.ingredients && after.favorites == db.favorites && after.carts == db.carts
  {
    assert forall a, b :: a in db.recipes && b in db.recipes && a.id == b.id ==> a == b;
    UpdatedRow(db, id, patch);
    UpdatedLinks(db, id, patch);
  }

  /** The recipe row after a completed `update`: patched where it stood, every other row as it was. */
  lemma UpdatedRow(db: Db, id: Id, patch: RecipePatch)
    requires id in RecipeIds(db.recipes) && Update(db, id, patch).error.None?
    requires forall a, b :: a in db.recipes && b in db.recipes && a.id == b.id ==> a == b
    ensures var after := Update(db, id, patch).state;
            && |after.recipes| == |db.recipes|
            && (forall i :: 0 <= i < |db.recipes| ==>
                  after.recipes[i] == if db.recipes[i].id == id then Patched(db.recipes[i], patch) else db.recipes[i])
  {
    forall i | 0 <= i < |db.recipes| && db.recipes[i].id == id
      ensures db.recipes[i] == FindRecipe(db.recipes, id)
    {
    }
  }

  /** The links after a completed `update`: the given rows and tags for this recipe, the rest untouched. */
  lemma {:induction false} UpdatedLinks(db: Db, id: Id, patch: RecipePatch)
    requires id in RecipeIds(db.recipes) && Update(db, id, patch).error.None?
    ensures var after := Update(db, id, patch).state;
            && RowsOf(after.recipeIngredients, id) == EntryRows(id, patch.ingredients.value)
            && TagsOf(after.recipeTags, id) == set t | t in patch.tags.value
            && (forall other :: other != id ==>
                  RowsOf(after.recipeIngredients, other) == RowsOf(db.recipeIngredients, other)
                  && TagsOf(after.recipeTags, other) == TagsOf(db.recipeTags, other))
            && after.users == db.users && after.follows == db.follows && after.tags == db.tags
            && after.ingredients == db.ingredients && after.favorites == db.favorites && after.carts == db.carts
  {
    var cleared := Cleared(db, id);
    var tags := patch.tags.value;
    var entries := patch.ingredients.value;
    AttachTagsOutcome(cleared.tags.Keys, cleared.recipeTags, id, tags);
    TagsOfAttached(db.recipeTags, id, tags);
    assert forall x :: !HasPair(cleared.recipeIngredients, x, id);
    AddIngredientsOutcome(cleared.ingredients.Keys, cleared.recipeIngredients, id, entries);
    var after := Update(db, id, patch).state;
    assert after.recipeIngredients == WithoutRowsOf(db.recipeIngredients, id) + EntryRows(id, entries);
  }

  /**
   * A request without `ingredients` or `tags` still strips the recipe of its
   * ingredient rows and tags before it raises: the clear runs first.
   */
  lemma UpdateMissingKeyStripsRecipe(db: Db, id: Id, patch: RecipePatch)
    requires id in RecipeIds(db.recipes)
    requires patch.ingredients.None? || patch.tags.None?
    ensures var res := Update(db, id, patch);
            && res.error == Some(MissingKey(if patch.ingredients.None? then IngredientsKey else TagsKey))
            && RowsOf(res.state.recipeIngredients, id) == {} && TagsOf(res.state.recipeTags, id) == {}
            && res.state.recipes == db.recipes
  {
  }

  /**
   * Under a request-wide transaction a failed `create` or `update` leaves the
   * database as it was, a completed one leaves its result, and either way the
   * constraints hold.
   */
  lemma RollbackRestores(db: Db, author: UserId, id: Id, patch: RecipePatch)
    requires Valid(db) && FieldsChecked(patch)
    ensures Complete(patch) ==>
              var res := Create(db, author, patch);
              && Valid(Committed(db, res))
              && Committed(db, res) == (if CreateAllowed(db, author, patch) then res.state else db)
    ensures id in RecipeIds(db.recipes) ==>
              var res := Update(db, id, patch);
              && Valid(Committed(db, res))
              && Committed(db, res) == (if UpdateAllowed(db, id, patch) then res.state else db)
  {
    if Complete(patch) {
      CreateKeepsValid(db, author, patch);
      CreateSucceedsIff(db, author, patch);
    }
    if id in RecipeIds(db.recipes) {
      UpdateKeepsValid(db, id, patch);
      UpdateSucceedsIff(db, id, patch);
    }
  }

  // ---------------------------------------------------------------- cascades

  /** Keeping a filtered part of the recipe table, with its cascades, keeps every invariant. */
  lemma KeepRecipesKeepsValid(db: Db, keep: Recipe -> bool)
    requires Valid(db)
    ensures Valid(KeepRecipes(db, Filter(db.recipes, keep)))
    ensures RecipeIds(Filter(db.recipes, keep)) == set r | r in db.recipes && keep(r) :: r.id
  {
    FilterKeepsRecipesValid(db.recipes, keep, db.users.Keys, db.clock);
  }

  /** Deleting a recipe removes exactly that recipe and leaves no row that refers to it. */
  lemma DeleteRecipeKeepsValid(db: Db, id: Id)
    requires Valid(db)
    ensures Valid(DeleteRecipe(db, id))
    ensures forall r :: r in DeleteRecipe(db, id).recipes <==> r in db.recipes && r.id != id
    ensures id !in RecipeIds(DeleteRecipe(db, id).recipes)
  {
    KeepRecipesKeepsValid(db, NotId(id));
  }

  /**
   * Deleting a user removes the user's recipes and no other, and leaves no
   * follow, recipe, favourite or cart row that refers to the user.
   */
  lemma DeleteUserKeepsValid(db: Db, user: UserId)
    requires Valid(db)
    ensures Valid(DeleteUser(db, user))
    ensures user !in DeleteUser(db, user).users
    ensures forall r :: r in DeleteUser(db, user).recipes <==> r in db.recipes && r.author != user
  {
    KeepRecipesKeepsValid(db, NotBy(user));
    var kept := KeepRecipes(db, Filter(db.recipes, NotBy(user)));
    UnlinkUserKeepsValid(kept, user);
  }

  /** The user-side cascades keep every invariant once no recipe of the user is left. */
  lemma UnlinkUserKeepsValid(db: Db, user: UserId)
    requires Valid(db) && forall r :: r in db.recipes ==> r.author != user
    ensures Valid(UnlinkUser(db, user))
  {
    var after := UnlinkUser(db, user);
    assert UsersValid(after.users);
    assert RecipesValid(after.recipes, after.users.Keys, after.clock);
  }

  /** Deleting an ingredient removes every row that uses it. */
  lemma DeleteIngredientKeepsValid(db: Db, id: Id)
    requires Valid(db)
    ensures Valid(DeleteIngredient(db, id))
    ensures forall r :: r in DeleteIngredient(db, id).recipeIngredients <==> r in db.recipeIngredients && r.ingredient != id
  {
  }

  /** Deleting a tag removes every link to it. */
  lemma DeleteTagKeepsValid(db: Db, id: Id)
    requires Valid(db)
    ensures Valid(DeleteTag(db, id))
    ensures TagsValid(DeleteTag(db, id).tags)
    ensures forall l :: l in DeleteTag(db, id).recipeTags <==> l in db.recipeTags && l.tag != id
  {
  }

  // ---------------------------------------------------------------- plain inserts

  /** A user insert either fails and changes nothing or adds the user under a fresh id, keeping both unique columns unique. */
  lemma AddUserKeepsValid(db: Db, u: User)
    requires Valid(db)
    ensures Valid(AddUser(db, u).state)
    ensures AddUser(db, u).error.Some? ==> AddUser(db, u).state == db
    ensures AddUser(db, u).error.None? <==>
              FieldsFit(u)
              && (forall id :: id in db.users ==> db.users[id].email != u.email && db.users[id].username != u.username)
  {
    AddUserOutcome(db, u);
    if AddUser(db, u).error.None? {
      AddedUserKeepsValid(db, u);
    }
  }

  /** When the user insert succeeds or fails, apart from the invariant. */
  lemma AddUserOutcome(db: Db, u: User)
    ensures AddUser(db, u).error.Some? ==> AddUser(db, u).state == db
    ensures AddUser(db, u).error.None? <==>
              FieldsFit(u)
              && (forall id :: id in db.users ==> db.users[id].email != u.email && db.users[id].username != u.username)
    ensures AddUser(db, u).error.None? ==> AddUser(db, u).state == db.(users := db.users[db.nextId := u], nextId := db.nextId + 1)
    ensures !FieldsFit(u) ==> AddUser(db, u).error == Some(DataError)
  {
  }

  /** A user who fits the columns and clashes with no one keeps every invariant. */
  lemma AddedUserKeepsValid(db: Db, u: User)
    requires Valid(db) && FieldsFit(u)
    requires forall id :: id in db.users ==> db.users[id].email != u.email && db.users[id].username != u.username
    ensures Valid(db.(users := db.users[db.nextId := u], nextId := db.nextId + 1))
  {
    var users := db.users[db.nextId := u];
    assert db.nextId !in db.users;
    assert forall a :: a in users && a != db.nextId ==> users[a] == db.users[a];
    assert UsersValid(users);
    MoreUsersKeepsValid(db, users, db.nextId + 1);
  }

  /** A larger user table with a later counter keeps every invariant: foreign keys into it only gain targets. */
  lemma MoreUsersKeepsValid(db: Db, users: map<UserId, User>, nextId: int)
    requires Valid(db) && db.users.Keys <= users.Keys && UsersValid(users)
    requires db.nextId <= nextId && forall id :: id in users ==> id < nextId
    ensures Valid(db.(users := users, nextId := nextId))
  {
    var after := db.(users := users, nextId := nextId);
    assert RecipesValid(after.recipes, after.users.Keys, after.clock);
    assert FollowsValid(after.follows, after.users.Keys);
    assert FavoritesValid(after.favorites, after.users.Keys, RecipeIds(after.recipes));
    assert CartsValid(after.carts, after.users.Keys, RecipeIds(after.recipes));
  }

  /** A follow insert keeps both foreign keys; it succeeds exactly for a new pair of existing users. */
  lemma AddFollowKeepsValid(db: Db, user: UserId, author: UserId)
    requires Valid(db)
    ensures Valid(AddFollow(db, user, author).state)
    ensures AddFollow(db, user, author).error.None? <==>
              user in db.users && author in db.users && Follow(user, author) !in db.follows
    ensures Follow(user, author) in AddFollow(db, user, author).state.follows
            <==> user in db.users && author in db.users
  {
  }

  /** A tag insert keeps every column within its length and name, colour and slug unique. */
  lemma AddTagKeepsValid(db: Db, t: Tag)
    requires Valid(db)
    ensures Valid(AddTag(db, t).state)
    ensures AddTag(db, t).error.None? <==>
              TagFieldsFit(t) &&
              forall id :: id in db.tags ==>
                db.tags[id].name != t.name && (t.color.Some? ==> db.tags[id].color != t.color)
                && (t.slug.Some? ==> db.tags[id].slug != t.slug)
  {
    AddTagOutcome(db, t);
    if AddTag(db, t).error.None? {
      AddedTagKeepsValid(db, t);
    }
  }

  /** When the tag insert succeeds or fails, apart from the invariant. */
  lemma AddTagOutcome(db: Db, t: Tag)
    ensures AddTag(db, t).error.Some? ==> AddTag(db, t).state == db
    ensures !TagFieldsFit(t) ==> AddTag(db, t).error == Some(DataError)
    ensures AddTag(db, t).error.None? <==>
              TagFieldsFit(t) &&
              forall id :: id in db.tags ==>
                db.tags[id].name != t.name && (t.color.Some? ==> db.tags[id].color != t.color)
                && (t.slug.Some? ==> db.tags[id].slug != t.slug)
    ensures AddTag(db, t).error.None? ==> AddTag(db, t).state == db.(tags := db.tags[db.nextId := t], nextId := db.nextId + 1)
  {
  }

  /** A tag that clashes with no other on name, colour or slug keeps every invariant. */
  lemma AddedTagKeepsValid(db: Db, t: Tag)
    requires Valid(db) && TagFieldsFit(t)
    requires forall id :: id in db.tags ==>
               db.tags[id].name != t.name && (t.color.Some? ==> db.tags[id].color != t.color)
               && (t.slug.Some? ==> db.tags[id].slug != t.slug)
    ensures Valid(db.(tags := db.tags[db.nextId := t], nextId := db.nextId + 1))
  {
    var tags := db.tags[db.nextId := t];
    assert db.nextId !in db.tags;
    assert forall a :: a in tags && a != db.nextId ==> tags[a] == db.tags[a];
    assert TagsValid(tags);
    MoreTagsKeepsValid(db, tags, db.nextId + 1);
  }

  /** A larger tag table with a later counter keeps every invariant: links into it only gain targets. */
  lemma MoreTagsKeepsValid(db: Db, tags: map<Id, Tag>, nextId: int)
    requires Valid(db) && db.tags.Keys <= tags.Keys && TagsValid(tags)
    requires db.nextId <= nextId && forall id :: id in tags ==> id < nextId
    ensures Valid(db.(tags := tags, nextId := nextId))
  {
    var after := db.(tags := tags, nextId := nextId);
    assert RecipeTagsValid(after.recipeTags, RecipeIds(after.recipes), after.tags.Keys);
  }

  /** An ingredient insert fails on an over-long column and changes nothing, or stores the row under a fresh id. */
  lemma AddIngredientKeepsValid(db: Db, i: Ingredient)
    requires Valid(db)
    ensures Valid(AddIngredient(db, i).state)
    ensures AddIngredient(db, i).error.None? <==> IngredientFieldsFit(i)
    ensures AddIngredient(db, i).error.Some? ==> AddIngredient(db, i).state == db && AddIngredient(db, i).error == Some(DataError)
    ensures AddIngredient(db, i).error.None? ==>
              db.nextId !in db.ingredients && AddIngredient(db, i).state.ingredients == db.ingredients[db.nextId := i]
  {
  }

  /** Favourite and cart inserts and removals keep both foreign keys. */
  lemma FavoritesAndCartsKeepValid(db: Db, user: UserId, recipe: Id)
    requires Valid(db)
    ensures Valid(AddFavorite(db, user, recipe).state) && Valid(RemoveFavorite(db, user, recipe))
    ensures Valid(AddToCart(db, user, recipe).state) && Valid(RemoveFromCart(db, user, recipe))
    ensures AddFavorite(db, user, recipe).error.None? <==>
              user in db.users && recipe in RecipeIds(db.recipes) && FavoriteRecipe(user, recipe) !in db.favorites
    ensures AddToCart(db, user, recipe).error.None? <==>
              user in db.users && recipe in RecipeIds(db.recipes) && ShoppingCart(user, recipe) !in db.carts
  {
    if user in db.users && recipe in RecipeIds(db.recipes) {
      FavoriteRowsKeepValid(db, db.favorites + {FavoriteRecipe(user, recipe)});
      CartRowsKeepValid(db, db.carts + {ShoppingCart(user, recipe)});
    }
    FavoriteRowsKeepValid(db, db.favorites - {FavoriteRecipe(user, recipe)});
    CartRowsKeepValid(db, db.carts - {ShoppingCart(user, recipe)});
  }

  /** Any favourite table whose rows name existing users and recipes fits a valid database. */
  lemma FavoriteRowsKeepValid(db: Db, favorites: set<FavoriteRecipe>)
    requires Valid(db)
    requires FavoritesValid(favorites, db.users.Keys, RecipeIds(db.recipes))
    ensures Valid(db.(favorites := favorites))
  {
  }

  /** Any cart table whose rows name existing users and recipes fits a valid database. */
  lemma CartRowsKeepValid(db: Db, carts: set<ShoppingCart>)
    requires Valid(db)
    requires CartsValid(carts, db.users.Keys, RecipeIds(db.recipes))
    ensures Valid(db.(carts := carts))
  {
  }
}
