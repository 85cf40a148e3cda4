/**
 * The database as the serializers change it: one object whose tables are
 * fields, updated statement by statement. `AddIngredients` and `AttachTags`
 * are the two loops of `RecipePostSerializer`, `CreateRecipe` and
 * `UpdateRecipe` its `create` and `update` (backend/api/serializers.py:93-129);
 * the other methods are the inserts and cascading deletes of the models.
 * Every method is proved to leave exactly the tables the matching function of
 * tables.dfy describes, and to keep the invariant.
 */
module Database {
  import opened Wrappers
  import opened Errors
  import opened Users
  import opened Recipes
  import opened RecipeWrite
  import opened RecipeRead
  import opened Tables
  import opened Integrity

  class Store {
    var users: map<UserId, User>
    var follows: set<Follow>
    var ingredients: map<Id, Ingredient>
    var tags: map<Id, Tag>
    var recipes: seq<Recipe>
    var recipeIngredients: set<IngredientRecipe>
    var recipeTags: set<RecipeTag>
    var favorites: set<FavoriteRecipe>
    var carts: set<ShoppingCart>
    var nextId: int
    var clock: int

    /** The tables as one value. */
    function Contents(): Db
      reads this
    {
      Db(users, follows, ingredients, tags, recipes, recipeIngredients, recipeTags, favorites, carts, nextId, clock)
    }

    ghost predicate Valid()
      reads this
    {
      Tables.Valid(Contents())
    }

    constructor ()
      ensures Contents() == Empty() && Valid()
    {
      users, follows, ingredients, tags := map[], {}, map[], map[];
      recipes, recipeIngredients, recipeTags, favorites, carts := [], {}, {}, {}, {};
      nextId, clock := 1, 0;
    }

    // ------------------------------------------------------------ the two loops

    /** `add_ingredients`: one `IngredientRecipe.objects.create` per entry; the first failure raises. */
    method AddIngredients(recipe: Id, entries: seq<IngredientEntry>) returns (err: Option<WriteError>)
      modifies this
      ensures var res := RecipeWrite.AddIngredients(old(ingredients).Keys, old(recipeIngredients), recipe, entries);
              Contents() == old(Contents()).(recipeIngredients := res.state) && err == res.error
    {
      var i := 0;
      while i < |entries|
        invariant 0 <= i <= |entries|
        invariant Contents() == old(Contents()).(recipeIngredients := recipeIngredients)
        invariant RecipeWrite.AddIngredients(ingredients.Keys, old(recipeIngredients), recipe, entries)
                  == RecipeWrite.AddIngredients(ingredients.Keys, recipeIngredients, recipe, entries[i..])
      {
        var row := EntryRow(recipe, entries[i]);
        assert entries[i..][1..] == entries[i + 1..];
        if row.ingredient !in ingredients {
          return Some(IntegrityError(IngredientForeignKey));
        }
        if HasPair(recipeIngredients, row.ingredient, row.recipe) {
          return Some(IntegrityError(UniqueIngredientRecipe));
        }
        recipeIngredients := recipeIngredients + {row};
        i := i + 1;
      }
      return None;
    }

    /** The tag loop: `recipe.tags.add(get_object_or_404(Tag, pk=...))` per tag id. */
    method AttachTags(recipe: Id, tagIds: seq<Id>) returns (err: Option<WriteError>)
      modifies this
      ensures var res := RecipeWrite.AttachTags(old(tags).Keys, old(recipeTags), recipe, tagIds);
              Contents() == old(Contents()).(recipeTags := res.state) && err == res.error
    {
      var i := 0;
      while i < |tagIds|
        invariant 0 <= i <= |tagIds|
        invariant Contents() == old(Contents()).(recipeTags := recipeTags)
        invariant RecipeWrite.AttachTags(tags.Keys, old(recipeTags), recipe, tagIds)
                  == RecipeWrite.AttachTags(tags.Keys, recipeTags, recipe, tagIds[i..])
      {
        assert tagIds[i..][1..] == tagIds[i + 1..];
        if tagIds[i] !in tags {
          return Some(NotFound);
        }
        recipeTags := recipeTags + {RecipeTag(recipe, tagIds[i])};
        i := i + 1;
      }
      return None;
    }

    // ------------------------------------------------------------ create and update

    /**
     * `create` with validated data from `author`: the new recipe's id and the
     * error that stopped it, if any. Whatever happens the store stays valid, and
     * it succeeds exactly when the payload allows it.
     */
    method CreateRecipe(author: UserId, patch: RecipePatch) returns (id: Id, err: Option<WriteError>)
      requires Valid() && Complete(patch) && FieldsChecked(patch)
      modifies this
      ensures Contents() == Create(old(Contents()), author, patch).state
      ensures err == Create(old(Contents()), author, patch).error
      ensures id == old(nextId)
      ensures Valid()
      ensures err.None? <==> CreateAllowed(old(Contents()), author, patch)
    {
      CreateKeepsValid(Contents(), author, patch);
      CreateSucceedsIff(Contents(), author, patch);
      id, err := CreateSteps(author, patch);
    }

    /** The statements of `create`, apart from the invariant. */
    method CreateSteps(author: UserId, patch: RecipePatch) returns (id: Id, err: Option<WriteError>)
      requires Complete(patch)
      modifies this
      ensures Contents() == Create(old(Contents()), author, patch).state
      ensures err == Create(old(Contents()), author, patch).error
      ensures id == old(nextId)
    {
      id := nextId;
      if author !in users {
        return id, Some(IntegrityError(UserForeignKey));
      }
      if NameTaken(recipes, author, patch.name.value, None) {
        return id, Some(IntegrityError(UniqueAuthorName));
      }
      var recipe := Recipe(id, author, patch.name.value, patch.image.value, patch.text.value, patch.cookingTime.value, clock);
      recipes := [recipe] + recipes;
      nextId := nextId + 1;
      clock := clock + 1;
      err := AddIngredients(id, patch.ingredients.value);
      if err.Some? {
        return;
      }
      err := AttachTags(id, patch.tags.value);
    }

    /**
     * `update` of recipe `id` with validated data. Whatever happens the store
     * stays valid, and it succeeds exactly when the payload allows it.
     */
    method UpdateRecipe(id: Id, patch: RecipePatch) returns (err: Option<WriteError>)
      requires Valid() && id in RecipeIds(recipes) && FieldsChecked(patch)
      modifies this
      ensures Contents() == Update(old(Contents()), id, patch).state
      ensures err == Update(old(Contents()), id, patch).error
      ensures Valid()
      ensures err.None? <==> UpdateAllowed(old(Contents()), id, patch)
    {
      UpdateKeepsValid(Contents(), id, patch);
      UpdateSucceedsIff(Contents(), id, patch);
      err := UpdateSteps(id, patch);
    }

    /** The statements of `update`, apart from the invariant. */
    method UpdateSteps(id: Id, patch: RecipePatch) returns (err: Option<WriteError>)
      requires id in RecipeIds(recipes)
      modifies this
      ensures Contents() == Update(old(Contents()), id, patch).state
      ensures err == Update(old(Contents()), id, patch).error
    {
      var updated := Patched(FindRecipe(recipes, id), patch);
      recipeTags := WithoutTagsOf(recipeTags, id);
      recipeIngredients := WithoutRowsOf(recipeIngredients, id);
      if patch.ingredients.None? {
        return Some(MissingKey(IngredientsKey));
      }
      if patch.tags.None? {
        return Some(MissingKey(TagsKey));
      }
      err := AttachTags(id, patch.tags.value);
      if err.Some? {
        return;
      }
      err := AddIngredients(id, patch.ingredients.value);
      if err.Some? {
        return;
      }
      if NameTaken(recipes, updated.author, updated.name, Some(id)) {
        return Some(IntegrityError(UniqueAuthorName));
      }
      recipes := ReplaceRecipe(recipes, updated);
    }

    /**
     * A create request: validate the raw payload against the tags that exist,
     * then `create`. A payload that fails validation writes nothing.
     */
    method SubmitCreate(author: UserId, raw: RawRecipe, b64decode: string -> Option<seq<bv8>>)
      returns (id: Id, err: Option<WriteError>)
      requires Valid()
      modifies this
      ensures Valid()
      ensures Validate(old(tags).Keys, raw, false, b64decode).Failure? ==>
                Contents() == old(Contents()) && err == Some(Validate(old(tags).Keys, raw, false, b64decode).error)
      ensures Validate(old(tags).Keys, raw, false, b64decode).Success? ==>
                var patch := Validate(old(tags).Keys, raw, false, b64decode).value;
                Contents() == Create(old(Contents()), author, patch).state && err == Create(old(Contents()), author, patch).error
    {
      var checked := Validate(tags.Keys, raw, false, b64decode);
      if checked.Failure? {
        return nextId, Some(checked.error);
      }
      id, err := CreateRecipe(author, checked.value);
    }

    /**
     * An update request for an existing recipe (`partial` for PATCH):
     * validate, then `update`. A payload that fails validation writes nothing.
     */
    method SubmitUpdate(id: Id, raw: RawRecipe, partial: bool, b64decode: string -> Option<seq<bv8>>)
      returns (err: Option<WriteError>)
      requires Valid() && id in RecipeIds(recipes)
      modifies this
      ensures Valid()
      ensures Validate(old(tags).Keys, raw, partial, b64decode).Failure? ==>
                Contents() == old(Contents()) && err == Some(Validate(old(tags).Keys, raw, partial, b64decode).error)
      ensures Validate(old(tags).Keys, raw, partial, b64decode).Success? ==>
                var patch := Validate(old(tags).Keys, raw, partial, b64decode).value;
                Contents() == Update(old(Contents()), id, patch).state && err == Update(old(Contents()), id, patch).error
    {
      var checked := Validate(tags.Keys, raw, partial, b64decode);
      if checked.Failure? {
        return Some(checked.error);
      }
      err := UpdateRecipe(id, checked.value);
    }

    // ------------------------------------------------------------ cascading deletes

    /** Keeps the recipes `kept` and deletes every row that refers to any other recipe. */
    method KeepRecipes(kept: seq<Recipe>)
      modifies this
      ensures Contents() == Tables.KeepRecipes(old(Contents()), kept)
    {
      recipes := kept;
      var ids := RecipeIds(kept);
      recipeIngredients := set r | r in recipeIngredients && r.recipe in ids;
      recipeTags := set l | l in recipeTags && l.recipe in ids;
      favorites := set f | f in favorites && f.recipe in ids;
      carts := set c | c in carts && c.recipe in ids;
    }

    /** Deletes a recipe and every row that refers to it. */
    method DeleteRecipe(id: Id)
      requires Valid()
      modifies this
      ensures Contents() == Tables.DeleteRecipe(old(Contents()), id)
      ensures Valid() && id !in RecipeIds(recipes)
    {
      DeleteRecipeKeepsValid(Contents(), id);
      KeepRecipes(Filter(recipes, NotId(id)));
    }

    /** Deletes a user, the user's recipes with their rows, the user's follows on either side, favourites and cart. */
    method DeleteUser(user: UserId)
      requires Valid()
      modifies this
      ensures Contents() == Tables.DeleteUser(old(Contents()), user)
      ensures Valid() && user !in users
    {
      DeleteUserKeepsValid(Contents(), user);
      KeepRecipes(Filter(recipes, NotBy(user)));
      UnlinkUser(user);
    }

    /** The user-side cascades: the user row, follows on either side, the user's favourites and cart. */
    method UnlinkUser(user: UserId)
      modifies this
      ensures Contents() == Tables.UnlinkUser(old(Contents()), user)
    {
      users := users - {user};
      follows := set f | f in follows && f.user != user && f.author != user;
      favorites := set f | f in favorites && f.user != user;
      carts := set c | c in carts && c.user != user;
    }

    /** Deletes an ingredient and the rows that use it. */
    method DeleteIngredient(id: Id)
      requires Valid()
      modifies this
      ensures Contents() == Tables.DeleteIngredient(old(Contents()), id)
      ensures Valid() && id !in ingredients
    {
      DeleteIngredientKeepsValid(Contents(), id);
      ingredients := ingredients - {id};
      recipeIngredients := set r | r in recipeIngredients && r.ingredient != id;
    }

    /** Deletes a tag and its links. */
    method DeleteTag(id: Id)
      requires Valid()
      modifies this
      ensures Contents() == Tables.DeleteTag(old(Contents()), id)
      ensures Valid() && id !in tags
    {
      DeleteTagKeepsValid(Contents(), id);
      tags := tags - {id};
      recipeTags := set l | l in recipeTags && l.tag != id;
    }

    // ------------------------------------------------------------ plain inserts

    method AddUser(u: User) returns (id: UserId, err: Option<WriteError>)
      requires Valid()
      modifies this
      ensures Contents() == Tables.AddUser(old(Contents()), u).state && err == Tables.AddUser(old(Contents()), u).error
      ensures Valid() && id == old(nextId)
      ensures err.None? ==> id in users && users[id] == u
    {
      AddUserKeepsValid(Contents(), u);
      id, err := InsertUser(u);
    }

    /** The checks and the insert of `AddUser`, apart from the invariant. */
    method InsertUser(u: User) returns (id: UserId, err: Option<WriteError>)
      modifies this
      ensures Contents() == Tables.AddUser(old(Contents()), u).state && err == Tables.AddUser(old(Contents()), u).error
      ensures id == old(nextId)
    {
      id := nextId;
      if !FieldsFit(u) {
        return id, Some(DataError);
      }
      if exists k :: k in users && users[k].email == u.email {
        return id, Some(IntegrityError(UniqueEmail));
      }
      if exists k :: k in users && users[k].username == u.username {
        return id, Some(IntegrityError(UniqueUsername));
      }
      users := users[id := u];
      nextId := nextId + 1;
      err := None;
    }

    method AddFollow(user: UserId, author: UserId) returns (err: Option<WriteError>)
      requires Valid()
      modifies this
      ensures Contents() == Tables.AddFollow(old(Contents()), user, author).state
      ensures err == Tables.AddFollow(old(Contents()), user, author).error
      ensures Valid()
      ensures err.None? ==> IsSubscribed(follows, Some(user), author)
    {
      AddFollowKeepsValid(Contents(), user, author);
      if user !in users || author !in users {
        return Some(IntegrityError(UserForeignKey));
      }
      if Follow(user, author) in follows {
        return Some(IntegrityError(UniqueFollow));
      }
      follows := follows + {Follow(user, author)};
      err := None;
    }

    method AddTag(t: Tag) returns (id: Id, err: Option<WriteError>)
      requires Valid()
      modifies this
      ensures Contents() == Tables.AddTag(old(Contents()), t).state && err == Tables.AddTag(old(Contents()), t).error
      ensures Valid() && id == old(nextId)
      ensures err.None? ==> id in tags && tags[id] == t
    {
      AddTagKeepsValid(Contents(), t);
      id, err := InsertTag(t);
    }

    /** The checks and the insert of `AddTag`, apart from the invariant. */
    method InsertTag(t: Tag) returns (id: Id, err: Option<WriteError>)
      modifies this
      ensures Contents() == Tables.AddTag(old(Contents()), t).state && err == Tables.AddTag(old(Contents()), t).error
      ensures id == old(nextId)
    {
      id := nextId;
      if !TagFieldsFit(t) {
        return id, Some(DataError);
      }
      if exists k :: k in tags && tags[k].name == t.name {
        return id, Some(IntegrityError(UniqueTagName));
      }
      if t.color.Some? && exists k :: k in tags && tags[k].color == t.color {
        return id, Some(IntegrityError(UniqueTagColor));
      }
      if t.slug.Some? && exists k :: k in tags && tags[k].slug == t.slug {
        return id, Some(IntegrityError(UniqueTagSlug));
      }
      tags := tags[id := t];
      nextId := nextId + 1;
      err := None;
    }

    method AddIngredient(i: Ingredient) returns (id: Id, err: Option<WriteError>)
      requires Valid()
      modifies this
      ensures Contents() == Tables.AddIngredient(old(Contents()), i).state && err == Tables.AddIngredient(old(Contents()), i).error
      ensures Valid() && id == old(nextId)
      ensures err.None? ==> id !in old(ingredients) && ingredients[id] == i
    {
      AddIngredientKeepsValid(Contents(), i);
      id := nextId;
      if !IngredientFieldsFit(i) {
        return id, Some(DataError);
      }
      ingredients := ingredients[id := i];
      nextId := nextId + 1;
      err := None;
    }

    method AddFavorite(user: UserId, recipe: Id) returns (err: Option<WriteError>)
      requires Valid()
      modifies this
      ensures Contents() == Tables.AddFavorite(old(Contents()), user, recipe).state
      ensures err == Tables.AddFavorite(old(Contents()), user, recipe).error
      ensures Valid()
      ensures err.None? ==> IsFavorited(favorites, Some(user), recipe)
    {
      FavoritesAndCartsKeepValid(Contents(), user, recipe);
      err := InsertFavorite(user, recipe);
    }

    /** The checks and the insert of `AddFavorite`, apart from the invariant. */
    method InsertFavorite(user: UserId, recipe: Id) returns (err: Option<WriteError>)
      modifies this
      ensures Contents() == Tables.AddFavorite(old(Contents()), user, recipe).state
      ensures err == Tables.AddFavorite(old(Contents()), user, recipe).error
    {
      if user !in users {
        return Some(IntegrityError(UserForeignKey));
      }
      if recipe !in RecipeIds(recipes) {
        return Some(IntegrityError(RecipeForeignKey));
      }
      if FavoriteRecipe(user, recipe) in favorites {
        return Some(IntegrityError(UniqueFavorite));
      }
      favorites := favorites + {FavoriteRecipe(user, recipe)};
      err := None;
    }

    method RemoveFavorite(user: UserId, recipe: Id)
      requires Valid()
      modifies this
      ensures Contents() == Tables.RemoveFavorite(old(Contents()), user, recipe)
      ensures Valid() && !IsFavorited(favorites, Some(user), recipe)
    {
      FavoritesAndCartsKeepValid(Contents(), user, recipe);
      favorites := favorites - {FavoriteRecipe(user, recipe)};
    }

    method AddToCart(user: UserId, recipe: Id) returns (err: Option<WriteError>)
      requires Valid()
      modifies this
      ensures Contents() == Tables.AddToCart(old(Contents()), user, recipe).state
      ensures err == Tables.AddToCart(old(Contents()), user, recipe).error
      ensures Valid()
      ensures err.None? ==> IsInShoppingCart(carts, Some(user), recipe)
    {
      FavoritesAndCartsKeepValid(Contents(), user, recipe);
      err := InsertCartRow(user, recipe);
    }

    /** The checks and the insert of `AddToCart`, apart from the invariant. */
    method InsertCartRow(user: UserId, recipe: Id) returns (err: Option<WriteError>)
      modifies this
      ensures Contents() == Tables.AddToCart(old(Contents()), user, recipe).state
      ensures err == Tables.AddToCart(old(Contents()), user, recipe).error
    {
      if user !in users {
        return Some(IntegrityError(UserForeignKey));
      }
      if recipe !in RecipeIds(recipes) {
        return Some(IntegrityError(RecipeForeignKey));
      }
      if ShoppingCart(user, recipe) in carts {
        return Some(IntegrityError(UniqueShoppingCart));
      }
      carts := carts + {ShoppingCart(user, recipe)};
      err := None;
    }

    method RemoveFromCart(user: UserId, recipe: Id)
      requires Valid()
      modifies this
      ensures Contents() == Tables.RemoveFromCart(old(Contents()), user, recipe)
      ensures Valid() && !IsInShoppingCart(carts, Some(user), recipe)
    {
      FavoritesAndCartsKeepValid(Contents(), user, recipe);
      carts := carts - {ShoppingCart(user, recipe)};
    }
  }
}
