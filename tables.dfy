/**
 * The whole database as one value, the invariant its tables keep together, and
 * what each write of the core does to it: `RecipePostSerializer.create` and
 * `update` (backend/api/serializers.py:103-129), the `on_delete=CASCADE`
 * deletions of backend/recipes/models.py and backend/users/models.py, and the
 * plain inserts guarded by the unique constraints. Each write is a function
 * from the old tables to the tables it leaves and the error it raised; the
 * `Store` class in store.dfy is proved to run them.
 */
module Tables {
  import opened Wrappers
  import opened Errors
  import opened Users
  import opened Recipes
  import opened RecipeWrite

  /** Every table. Ids of all tables come from one counter; `clock` stamps `pub_date`. */
  datatype Db = Db(
    users: map<UserId, User>,
    follows: set<Follow>,
    ingredients: map<Id, Ingredient>,
    tags: map<Id, Tag>,
    recipes: seq<Recipe>,
    recipeIngredients: set<IngredientRecipe>,
    recipeTags: set<RecipeTag>,
    favorites: set<FavoriteRecipe>,
    carts: set<ShoppingCart>,
    nextId: int,
    clock: int)

  /** Every id in use is below the counter, so the next id is fresh. */
  ghost predicate IdsBelow(db: Db) {
    && (forall id :: id in db.users ==> id < db.nextId)
    && (forall id :: id in db.ingredients ==> id < db.nextId)
    && (forall id :: id in db.tags ==> id < db.nextId)
    && (forall r :: r in db.recipes ==> r.id < db.nextId)
  }

  /** Every constraint of every table, and every foreign key resolves. */
  ghost predicate Valid(db: Db) {
    && UsersValid(db.users)
    && FollowsValid(db.follows, db.users.Keys)
    && TagsValid(db.tags)
    && IngredientsValid(db.ingredients)
    && RecipesValid(db.recipes, db.users.Keys, db.clock)
    && IngredientRowsValid(db.recipeIngredients, db.ingredients.Keys, RecipeIds(db.recipes))
    && RecipeTagsValid(db.recipeTags, RecipeIds(db.recipes), db.tags.Keys)
    && FavoritesValid(db.favorites, db.users.Keys, RecipeIds(db.recipes))
    && CartsValid(db.carts, db.users.Keys, RecipeIds(db.recipes))
    && IdsBelow(db)
  }

  /** A fresh database. */
  function Empty(): (db: Db)
    ensures Valid(db)
  {
    Db(map[], {}, map[], map[], [], {}, {}, {}, {}, 1, 0)
  }

  // ---------------------------------------------------------------- recipe rows

  /** Some recipe other than `except` already has this author and name. */
  predicate NameTaken(recipes: seq<Recipe>, author: UserId, name: string, except: Option<Id>) {
    exists r :: r in recipes && r.author == author && r.name == name && Some(r.id) != except
  }

  /** The recipe with primary key `id`. */
  function FindRecipe(recipes: seq<Recipe>, id: Id): (r: Recipe)
    requires id in RecipeIds(recipes)
    ensures r in recipes && r.id == id
  {
    if recipes[0].id == id then recipes[0]
    else
      assert id in RecipeIds(recipes[1..]) by {
        var x :| x in recipes && x.id == id;
        assert x != recipes[0];
      }
      FindRecipe(recipes[1..], id)
  }

  /** `recipe.save()` after the attribute assignments: the row with the same key is overwritten in place. */
  function ReplaceRecipe(recipes: seq<Recipe>, updated: Recipe): (out: seq<Recipe>)
    ensures |out| == |recipes|
  {
    seq(|recipes|, i requires 0 <= i < |recipes| => if recipes[i].id == updated.id then updated else recipes[i])
  }

  /** `instance.<field> = validated_data.get('<field>', instance.<field>)` for the four plain fields. */
  function Patched(r: Recipe, patch: RecipePatch): Recipe {
    r.(name := patch.name.GetOr(r.name), image := patch.image.GetOr(r.image),
       text := patch.text.GetOr(r.text), cookingTime := patch.cookingTime.GetOr(r.cookingTime))
  }

  /** The row `Recipe.objects.create(author=author, **validated_data)` inserts. */
  function NewRecipe(db: Db, author: UserId, patch: RecipePatch): Recipe
    requires Complete(patch)
  {
    Recipe(db.nextId, author, patch.name.value, patch.image.value, patch.text.value, patch.cookingTime.value, db.clock)
  }

  /** The insert itself: the author must exist and must not have a recipe of that name. */
  function InsertRecipe(db: Db, author: UserId, patch: RecipePatch): Result<Db, WriteError>
    requires Complete(patch)
  {
    if author !in db.users then Failure(IntegrityError(UserForeignKey))
    else if NameTaken(db.recipes, author, patch.name.value, None) then Failure(IntegrityError(UniqueAuthorName))
    else Success(db.(recipes := [NewRecipe(db, author, patch)] + db.recipes, nextId := db.nextId + 1, clock := db.clock + 1))
  }

  // ---------------------------------------------------------------- create and update

  /**
   * `create`: insert the recipe, run `add_ingredients`, then the tag loop. A
   * failure stops there and what was already written stays.
   */
  function Create(db: Db, author: UserId, patch: RecipePatch): Partial<Db>
    requires Complete(patch)
  {
    match InsertRecipe(db, author, patch)
    case Failure(e) => Partial(db, Some(e))
    case Success(inserted) =>
      var id := db.nextId;
      var added := AddIngredients(inserted.ingredients.Keys, inserted.recipeIngredients, id, patch.ingredients.value);
      var withRows := inserted.(recipeIngredients := added.state);
      if added.error.Some? then Partial(withRows, added.error)
      else
        var attached := AttachTags(withRows.tags.Keys, withRows.recipeTags, id, patch.tags.value);
        Partial(withRows.(recipeTags := attached.state), attached.error)
  }

  /** What `update` leaves right after clearing the recipe's tags and ingredient rows. */
  function Cleared(db: Db, id: Id): Db {
    db.(recipeTags := WithoutTagsOf(db.recipeTags, id), recipeIngredients := WithoutRowsOf(db.recipeIngredients, id))
  }

  /**
   * `update`: clear the tags and the ingredient rows, pop `ingredients` and
   * `tags` (a missing key raises), run the tag loop, `add_ingredients`, and
   * save the patched row (which can hit `unique_author_name`). Nothing is
   * undone when a later step fails.
   */
  function Update(db: Db, id: Id, patch: RecipePatch): Partial<Db>
    requires id in RecipeIds(db.recipes)
  {
    var cleared := Cleared(db, id);
    if patch.ingredients.None? then Partial(cleared, Some(MissingKey(IngredientsKey)))
    else if patch.tags.None? then Partial(cleared, Some(MissingKey(TagsKey)))
    else
      var attached := AttachTags(cleared.tags.Keys, cleared.recipeTags, id, patch.tags.value);
      var withTags := cleared.(recipeTags := attached.state);
      if attached.error.Some? then Partial(withTags, attached.error)
      else
        var added := AddIngredients(withTags.ingredients.Keys, withTags.recipeIngredients, id, patch.ingredients.value);
        var withRows := withTags.(recipeIngredients := added.state);
        if added.error.Some? then Partial(withRows, added.error)
        else
          var updated := Patched(FindRecipe(db.recipes, id), patch);
          if NameTaken(db.recipes, updated.author, updated.name, Some(id))
          then Partial(withRows, Some(IntegrityError(UniqueAuthorName)))
          else Partial(withRows.(recipes := ReplaceRecipe(db.recipes, updated)), None)
  }

  /**
   * What a write leaves once its request ends, when the deployment runs each
   * request in one transaction: a write that raised is rolled back whole.
   * Nothing in the serializers opens such a transaction themselves.
   */
  function Committed(before: Db, res: Partial<Db>): Db {
    if res.error.Some? then before else res.state
  }

  // ---------------------------------------------------------------- deletions

  function NotId(id: Id): Recipe -> bool {
    (r: Recipe) => r.id != id
  }

  function NotBy(user: UserId): Recipe -> bool {
    (r: Recipe) => r.author != user
  }

  /** Every row that refers to a recipe outside `kept` is gone (the recipe-side cascades). */
  function KeepRecipes(db: Db, kept: seq<Recipe>): Db {
    var ids := RecipeIds(kept);
    db.(recipes := kept,
        recipeIngredients := (set r | r in db.recipeIngredients && r.recipe in ids),
        recipeTags := (set l | l in db.recipeTags && l.recipe in ids),
        favorites := (set f | f in db.favorites && f.recipe in ids),
        carts := (set c | c in db.carts && c.recipe in ids))
  }

  /** Deleting a recipe deletes its ingredient rows, tag links, favourites and cart rows. */
  function DeleteRecipe(db: Db, id: Id): Db {
    KeepRecipes(db, Filter(db.recipes, NotId(id)))
  }

  /**
   * Deleting a user deletes the follows on either side, the user's recipes
   * with everything that refers to them, and the user's favourites and cart.
   */
  function DeleteUser(db: Db, user: UserId): Db {
    UnlinkUser(KeepRecipes(db, Filter(db.recipes, NotBy(user))), user)
  }

  /** The user-side cascades: the user row, follows on either side, the user's favourites and cart. */
  function UnlinkUser(db: Db, user: UserId): Db {
    db.(users := db.users - {user},
        follows := (set f | f in db.follows && f.user != user && f.author != user),
        favorites := (set f | f in db.favorites && f.user != user),
        carts := (set c | c in db.carts && c.user != user))
  }

  /** Deleting an ingredient deletes the rows that use it. */
  function DeleteIngredient(db: Db, id: Id): Db {
    db.(ingredients := db.ingredients - {id}, recipeIngredients := (set r | r in db.recipeIngredients && r.ingredient != id))
  }

  /** Deleting a tag unlinks it from every recipe. */
  function DeleteTag(db: Db, id: Id): Db {
    db.(tags := db.tags - {id}, recipeTags := (set l | l in db.recipeTags && l.tag != id))
  }

  // ---------------------------------------------------------------- plain inserts

  /** A user row: column lengths, then unique email, then unique username. */
  function AddUser(db: Db, u: User): Partial<Db> {
    if !FieldsFit(u) then Partial(db, Some(DataError))
    else if exists id :: id in db.users && db.users[id].email == u.email then Partial(db, Some(IntegrityError(UniqueEmail)))
    else if exists id :: id in db.users && db.users[id].username == u.username
    then Partial(db, Some(IntegrityError(UniqueUsername)))
    else Partial(db.(users := db.users[db.nextId := u], nextId := db.nextId + 1), None)
  }

  /** A follow row: both users exist and the pair is new; following oneself is not refused. */
  function AddFollow(db: Db, user: UserId, author: UserId): Partial<Db> {
    if user !in db.users || author !in db.users then Partial(db, Some(IntegrityError(UserForeignKey)))
    else if Follow(user, author) in db.follows then Partial(db, Some(IntegrityError(UniqueFollow)))
    else Partial(db.(follows := db.follows + {Follow(user, author)}), None)
  }

  /**
   * A tag row: a value longer than its column is refused by the database, then
   * name, colour and slug must each be unique (a NULL colour or slug never clashes).
   */
  function AddTag(db: Db, t: Tag): Partial<Db> {
    if !TagFieldsFit(t) then Partial(db, Some(DataError))
    else if exists id :: id in db.tags && db.tags[id].name == t.name then Partial(db, Some(IntegrityError(UniqueTagName)))
    else if t.color.Some? && exists id :: id in db.tags && db.tags[id].color == t.color
    then Partial(db, Some(IntegrityError(UniqueTagColor)))
    else if t.slug.Some? && exists id :: id in db.tags && db.tags[id].slug == t.slug
    then Partial(db, Some(IntegrityError(UniqueTagSlug)))
    else Partial(db.(tags := db.tags[db.nextId := t], nextId := db.nextId + 1), None)
  }

  /** An ingredient row: no constraint beyond its column lengths. */
  function AddIngredient(db: Db, i: Ingredient): Partial<Db> {
    if !IngredientFieldsFit(i) then Partial(db, Some(DataError))
    else Partial(db.(ingredients := db.ingredients[db.nextId := i], nextId := db.nextId + 1), None)
  }

  /** A favourite: both ends exist and the pair is new (`unique_favorite`). */
  function AddFavorite(db: Db, user: UserId, recipe: Id): Partial<Db> {
    if user !in db.users then Partial(db, Some(IntegrityError(UserForeignKey)))
    else if recipe !in RecipeIds(db.recipes) then Partial(db, Some(IntegrityError(RecipeForeignKey)))
    else if FavoriteRecipe(user, recipe) in db.favorites then Partial(db, Some(IntegrityError(UniqueFavorite)))
    else Partial(db.(favorites := db.favorites + {FavoriteRecipe(user, recipe)}), None)
  }

  function RemoveFavorite(db: Db, user: UserId, recipe: Id): Db {
    db.(favorites := db.favorites - {FavoriteRecipe(user, recipe)})
  }

  /** A cart row: both ends exist and the pair is new (`unique_shoppingcart`). */
  function AddToCart(db: Db, user: UserId, recipe: Id): Partial<Db> {
    if user !in db.users then Partial(db, Some(IntegrityError(UserForeignKey)))
    else if recipe !in RecipeIds(db.recipes) then Partial(db, Some(IntegrityError(RecipeForeignKey)))
    else if ShoppingCart(user, recipe) in db.carts then Partial(db, Some(IntegrityError(UniqueShoppingCart)))
    else Partial(db.(carts := db.carts + {ShoppingCart(user, recipe)}), None)
  }

  function RemoveFromCart(db: Db, user: UserId, recipe: Id): Db {
    db.(carts := db.carts - {ShoppingCart(user, recipe)})
  }
}
