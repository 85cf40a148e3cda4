/**
 * The schemas of backend/recipes/models.py as values, the invariants their
 * tables keep, and the table queries (filters) the rest of the model shares.
 */
module Recipes {
  import opened Wrappers
  import opened PyStr
  import opened Users
  import opened ImageField

  type Id = int

  /** The `MinValueValidator(1, ...)` bound declared on cooking time and on amount. */
  const MIN_COOKING_TIME := 1
  const MIN_AMOUNT := 1

  /** `max_length` of the recipe name column. */
  const NAME_MAX_LENGTH := 256

  /** `max_length` of the ingredient's name and unit columns, and of the tag's name, colour and slug columns. */
  const INGREDIENT_NAME_MAX_LENGTH := 256
  const UNIT_MAX_LENGTH := 50
  const TAG_NAME_MAX_LENGTH := 256
  const COLOR_MAX_LENGTH := 7
  const SLUG_MAX_LENGTH := 256

  datatype Ingredient = Ingredient(name: string, measurementUnit: string)

  /** `color` and `slug` are nullable columns. */
  datatype Tag = Tag(name: string, color: Option<string>, slug: Option<string>)

  /** Both ingredient columns fit their declared lengths. */
  predicate IngredientFieldsFit(i: Ingredient) {
    |i.name| <= INGREDIENT_NAME_MAX_LENGTH && |i.measurementUnit| <= UNIT_MAX_LENGTH
  }

  /** Name, colour and slug fit their declared lengths (a NULL always fits). */
  predicate TagFieldsFit(t: Tag) {
    && |t.name| <= TAG_NAME_MAX_LENGTH
    && (t.color.Some? ==> |t.color.value| <= COLOR_MAX_LENGTH)
    && (t.slug.Some? ==> |t.slug.value| <= SLUG_MAX_LENGTH)
  }

  /** The ingredient table: every row fits its columns. */
  ghost predicate IngredientsValid(ingredients: map<Id, Ingredient>) {
    forall id :: id in ingredients ==> IngredientFieldsFit(ingredients[id])
  }

  /** A recipe row; `pubDate` is the value of a monotone clock when the row was inserted. */
  datatype Recipe = Recipe(
    id: Id, author: UserId, name: string, image: ImageFile, text: string, cookingTime: int, pubDate: int)

  /** The through row of `Recipe.ingredients`: how much of one ingredient a recipe needs. */
  datatype IngredientRecipe = IngredientRecipe(ingredient: Id, recipe: Id, amount: int)

  /** A row of the auto-created through table of `Recipe.tags`. */
  datatype RecipeTag = RecipeTag(recipe: Id, tag: Id)

  datatype FavoriteRecipe = FavoriteRecipe(user: UserId, recipe: Id)

  datatype ShoppingCart = ShoppingCart(user: UserId, recipe: Id)

  /** `Ingredient.__str__`: `name (measurement_unit)`. */
  function IngredientStr(i: Ingredient): string {
    i.name + " (" + i.measurementUnit + ")"
  }

  /** The string form names the ingredient: when units have no '(' it gives back name and unit. */
  lemma IngredientStrDeterminesIngredient(i: Ingredient, j: Ingredient)
    requires '(' !in i.measurementUnit && '(' !in j.measurementUnit
    requires IngredientStr(i) == IngredientStr(j)
    ensures i == j
  {
    assert IngredientStr(i) == (i.name + " ") + ['('] + (i.measurementUnit + ")");
    assert IngredientStr(j) == (j.name + " ") + ['('] + (j.measurementUnit + ")");
    CutAtLastMark(i.name + " ", '(', i.measurementUnit + ")", j.name + " ", j.measurementUnit + ")");
    assert i.name == (i.name + " ")[..|i.name|];
    assert j.name == (j.name + " ")[..|j.name|];
    assert i.measurementUnit == (i.measurementUnit + ")")[..|i.measurementUnit|];
    assert j.measurementUnit == (j.measurementUnit + ")")[..|j.measurementUnit|];
  }

  // ---------------------------------------------------------------- tags

  /** Every row fits its columns; name, colour and slug are each unique; two NULLs never collide. */
  ghost predicate TagsValid(tags: map<Id, Tag>) {
    && (forall id :: id in tags ==> TagFieldsFit(tags[id]))
    && (forall a, b :: a in tags && b in tags && tags[a].name == tags[b].name ==> a == b)
    && (forall a, b :: a in tags && b in tags && tags[a].color.Some? && tags[a].color == tags[b].color ==> a == b)
    && (forall a, b :: a in tags && b in tags && tags[a].slug.Some? && tags[a].slug == tags[b].slug ==> a == b)
  }

  // ---------------------------------------------------------------- recipes

  /** `ordering = ['-pub_date']`: the table, read front to back, is newest first. */
  ghost predicate NewestFirst(recipes: seq<Recipe>) {
    forall i, j :: 0 <= i < j < |recipes| ==> recipes[i].pubDate > recipes[j].pubDate
  }

  function RecipeIds(recipes: seq<Recipe>): set<Id> {
    set r | r in recipes :: r.id
  }

  /**
   * The recipe table: default order, authors exist, publication dates precede
   * the clock, names fit their column, cooking time at least one minute, the
   * primary key and the (author, name) pair are unique.
   */
  ghost predicate RecipesValid(recipes: seq<Recipe>, userIds: set<UserId>, clock: int) {
    && NewestFirst(recipes)
    && (forall r :: r in recipes ==> r.author in userIds && r.pubDate < clock)
    && (forall r :: r in recipes ==> |r.name| <= NAME_MAX_LENGTH && r.cookingTime >= MIN_COOKING_TIME)
    && (forall a, b :: a in recipes && b in recipes && a.id == b.id ==> a == b)
    && (forall a, b :: a in recipes && b in recipes && a.author == b.author && a.name == b.name ==> a == b)
  }

  /**
   * The recipes of `recipes` for which `keep` holds, in table order
   * (`Recipe.objects.filter(...)`).
   */
  function Filter(recipes: seq<Recipe>, keep: Recipe -> bool): (r: seq<Recipe>)
    ensures forall x :: x in r <==> x in recipes && keep(x)
    ensures |r| <= |recipes|
  {
    if recipes == [] then []
    else if keep(recipes[0]) then [recipes[0]] + Filter(recipes[1..], keep)
    else Filter(recipes[1..], keep)
  }

  /** Filtering keeps the default order. */
  lemma {:induction false} FilterNewestFirst(recipes: seq<Recipe>, keep: Recipe -> bool)
    requires NewestFirst(recipes)
    ensures NewestFirst(Filter(recipes, keep))
  {
    if recipes != [] {
      var tail := recipes[1..];
      assert NewestFirst(tail);
      FilterNewestFirst(tail, keep);
      if keep(recipes[0]) {
        var r := Filter(recipes, keep);
        forall j | 0 < j < |r|
          ensures r[0].pubDate > r[j].pubDate
        {
          assert r[j] in Filter(tail, keep);
          var k :| 0 <= k < |tail| && tail[k] == r[j];
          assert recipes[k + 1] == r[j];
        }
      }
    }
  }

  /** Filtering keeps every recipe-table invariant. */
  lemma FilterKeepsRecipesValid(recipes: seq<Recipe>, keep: Recipe -> bool, userIds: set<UserId>, clock: int)
    requires RecipesValid(recipes, userIds, clock)
    ensures RecipesValid(Filter(recipes, keep), userIds, clock)
    ensures RecipeIds(Filter(recipes, keep)) == set r | r in recipes && keep(r) :: r.id
  {
    FilterNewestFirst(recipes, keep);
  }

  // ---------------------------------------------------------------- ingredient rows

  /**
   * The ingredient-row table: both references exist and `unique_ingredient_recipe`
   * holds. There is no clause for `amount >= 1`: nothing on the write path runs
   * that validator.
   */
  ghost predicate IngredientRowsValid(rows: set<IngredientRecipe>, ingredientIds: set<Id>, recipeIds: set<Id>) {
    && (forall r :: r in rows ==> r.ingredient in ingredientIds && r.recipe in recipeIds)
    && (forall a, b :: a in rows && b in rows && a.ingredient == b.ingredient && a.recipe == b.recipe ==> a == b)
  }

  /** `IngredientRecipe.objects.filter(recipe=recipe)`. */
  function RowsOf(rows: set<IngredientRecipe>, recipe: Id): set<IngredientRecipe> {
    set r | r in rows && r.recipe == recipe
  }

  /** `IngredientRecipe.objects.filter(recipe=recipe).delete()`: what is left. */
  function WithoutRowsOf(rows: set<IngredientRecipe>, recipe: Id): set<IngredientRecipe> {
    set r | r in rows && r.recipe != recipe
  }

  // ---------------------------------------------------------------- tag links, favourites, carts

  /** Both ends of every recipe-tag link exist; a set of pairs links a tag to a recipe at most once. */
  ghost predicate RecipeTagsValid(links: set<RecipeTag>, recipeIds: set<Id>, tagIds: set<Id>) {
    forall l :: l in links ==> l.recipe in recipeIds && l.tag in tagIds
  }

  /** `recipe.tags.all()`, as tag ids. */
  function TagsOf(links: set<RecipeTag>, recipe: Id): set<Id> {
    set l | l in links && l.recipe == recipe :: l.tag
  }

  /** `recipe.tags.clear()`: what is left. */
  function WithoutTagsOf(links: set<RecipeTag>, recipe: Id): set<RecipeTag> {
    set l | l in links && l.recipe != recipe
  }

  /** Both ends of every favourite exist; the set holds each (user, recipe) pair once (`unique_favorite`). */
  ghost predicate FavoritesValid(favorites: set<FavoriteRecipe>, userIds: set<UserId>, recipeIds: set<Id>) {
    forall f :: f in favorites ==> f.user in userIds && f.recipe in recipeIds
  }

  /** Both ends of every cart row exist; the set holds each (user, recipe) pair once (`unique_shoppingcart`). */
  ghost predicate CartsValid(carts: set<ShoppingCart>, userIds: set<UserId>, recipeIds: set<Id>) {
    forall c :: c in carts ==> c.user in userIds && c.recipe in recipeIds
  }
}
