/**
 * The read side of backend/api/serializers.py: the per-viewer flags of
 * `RecipeGetSerializer` (lines 145-159) and the two subscription views,
 * `SubscriptionsSerializer` (lines 168-200) and `IsSubscribeSerializer`
 * (lines 203-224). Every query is a function of the table values.
 */
module RecipeRead {
  import opened Wrappers
  import opened Users
  import opened Recipes
  import ImageField

  /** The requesting user; `None` is an anonymous visitor. */
  type Viewer = Option<UserId>

  // ---------------------------------------------------------------- per-viewer flags

  /** `get_is_favorited`: false for an anonymous visitor, else whether the favourite row exists. */
  predicate IsFavorited(favorites: set<FavoriteRecipe>, viewer: Viewer, recipe: Id) {
    match viewer
    case None => false
    case Some(user) => FavoriteRecipe(user, recipe) in favorites
  }

  /** `get_is_in_shopping_cart`: the same question asked of the cart table. */
  predicate IsInShoppingCart(carts: set<ShoppingCart>, viewer: Viewer, recipe: Id) {
    match viewer
    case None => false
    case Some(user) => ShoppingCart(user, recipe) in carts
  }

  /**
   * Adding a favourite turns the flag on for that viewer and recipe, removing it
   * turns it off, and no other (viewer, recipe) flag moves; an anonymous visitor
   * never sees it.
   */
  lemma FavoriteFlagFollowsRow(favorites: set<FavoriteRecipe>, user: UserId, recipe: Id)
    ensures IsFavorited(favorites + {FavoriteRecipe(user, recipe)}, Some(user), recipe)
    ensures !IsFavorited(favorites - {FavoriteRecipe(user, recipe)}, Some(user), recipe)
    ensures forall v: Viewer, r :: (v != Some(user) || r != recipe) ==>
              IsFavorited(favorites + {FavoriteRecipe(user, recipe)}, v, r) == IsFavorited(favorites, v, r)
              && IsFavorited(favorites - {FavoriteRecipe(user, recipe)}, v, r) == IsFavorited(favorites, v, r)
    ensures !IsFavorited(favorites + {FavoriteRecipe(user, recipe)}, None, recipe)
  {
  }

  /** The cart flag follows its row the same way. */
  lemma CartFlagFollowsRow(carts: set<ShoppingCart>, user: UserId, recipe: Id)
    ensures IsInShoppingCart(carts + {ShoppingCart(user, recipe)}, Some(user), recipe)
    ensures !IsInShoppingCart(carts - {ShoppingCart(user, recipe)}, Some(user), recipe)
    ensures forall v: Viewer, r :: (v != Some(user) || r != recipe) ==>
              IsInShoppingCart(carts + {ShoppingCart(user, recipe)}, v, r) == IsInShoppingCart(carts, v, r)
              && IsInShoppingCart(carts - {ShoppingCart(user, recipe)}, v, r) == IsInShoppingCart(carts, v, r)
    ensures !IsInShoppingCart(carts + {ShoppingCart(user, recipe)}, None, recipe)
  {
  }

  /**
   * `CurrentUserSerializer.get_is_subscribed`, whose source is not part of this
   * model, taken as the check that the viewer follows `author`.
   */
  predicate IsSubscribed(follows: set<Follow>, viewer: Viewer, author: UserId) {
    viewer.Some? && Follow(viewer.value, author) in follows
  }

  // ---------------------------------------------------------------- an author's recipes

  /** `ShortRecipeSerializer`: id, name, image and cooking time. */
  datatype ShortRecipe = ShortRecipe(id: Id, name: string, image: ImageField.ImageFile, cookingTime: int)

  function Short(r: Recipe): ShortRecipe {
    ShortRecipe(r.id, r.name, r.image, r.cookingTime)
  }

  function Shorts(rs: seq<Recipe>): (out: seq<ShortRecipe>)
    ensures |out| == |rs|
  {
    seq(|rs|, i requires 0 <= i < |rs| => Short(rs[i]))
  }

  /** `Recipe.objects.filter(author=author)`, in the default (newest first) order. */
  function AuthorRecipes(recipes: seq<Recipe>, author: UserId): seq<Recipe> {
    Filter(recipes, ByAuthor(author))
  }

  /** The filter `author=author`. */
  function ByAuthor(author: UserId): Recipe -> bool {
    (r: Recipe) => r.author == author
  }

  /** `get_recipes_count`: `count()` of the same query, counted row by row. */
  function RecipesCount(recipes: seq<Recipe>, author: UserId): nat {
    if recipes == [] then 0
    else (if recipes[0].author == author then 1 else 0) + RecipesCount(recipes[1..], author)
  }

  /** The count is the length of the listing it accompanies. */
  lemma {:induction false} RecipesCountIsListLength(recipes: seq<Recipe>, author: UserId)
    ensures RecipesCount(recipes, author) == |AuthorRecipes(recipes, author)|
  {
    if recipes != [] {
      RecipesCountIsListLength(recipes[1..], author);
    }
  }

  /** The listing holds exactly the author's recipes, newest first. */
  lemma AuthorRecipesSpec(recipes: seq<Recipe>, author: UserId, userIds: set<UserId>, clock: int)
    requires RecipesValid(recipes, userIds, clock)
    ensures forall r :: r in AuthorRecipes(recipes, author) <==> r in recipes && r.author == author
    ensures NewestFirst(AuthorRecipes(recipes, author))
  {
    FilterNewestFirst(recipes, ByAuthor(author));
  }

  // ---------------------------------------------------------------- recipes_limit

  /** What the `recipes_limit` query parameter can do instead of truncating. */
  datatype ReadError =
    | NotAnInteger(limit: string)   // `int(recipes_limit)` raises ValueError
    | NegativeLimit(n: int)         // a queryset refuses a negative slice bound

  /**
   * The parsed `recipes_limit`: `None` when the parameter is absent or empty
   * (both are falsy). Python's `int()` is a parameter; `None` is its ValueError.
   */
  function Limit(recipesLimit: Option<string>, toInt: string -> Option<int>): Result<Option<nat>, ReadError> {
    match recipesLimit
    case None => Success(None)
    case Some(s) =>
      if s == "" then Success(None)
      else match toInt(s)
        case None => Failure(NotAnInteger(s))
        case Some(n) => if n < 0 then Failure(NegativeLimit(n)) else Success(Some(n))
  }

  /** `recipes[:n]` for `n >= 0`: the first `n`, or all when there are fewer. */
  function Take<T>(s: seq<T>, n: nat): seq<T> {
    if n < |s| then s[..n] else s
  }

  /**
   * `SubscriptionsSerializer.get_recipes`: the author's recipes, newest first,
   * cut to `recipes_limit` when one is given.
   */
  function LimitedRecipes(recipes: seq<Recipe>, author: UserId, recipesLimit: Option<string>, toInt: string -> Option<int>)
    : (r: Result<seq<ShortRecipe>, ReadError>)
    ensures r.Success? ==> |r.value| <= |AuthorRecipes(recipes, author)|
                           && r.value == Shorts(AuthorRecipes(recipes, author)[..|r.value|])
    ensures r.Success? ==> |r.value| <= RecipesCount(recipes, author)
    ensures (recipesLimit.None? || recipesLimit == Some("")) ==> r.Success? && |r.value| == RecipesCount(recipes, author)
    ensures recipesLimit.Some? && recipesLimit.value != "" && toInt(recipesLimit.value).Some? ==>
              var n := toInt(recipesLimit.value).value;
              (r.Success? <==> n >= 0) && (n >= 0 ==> |r.value| == if n < RecipesCount(recipes, author) then n else RecipesCount(recipes, author))
    ensures r.Failure? <==> recipesLimit.Some? && recipesLimit.value != ""
                            && (toInt(recipesLimit.value).None? || toInt(recipesLimit.value).value < 0)
  {
    var all := AuthorRecipes(recipes, author);
    RecipesCountIsListLength(recipes, author);
    match Limit(recipesLimit, toInt)
    case Failure(e) => Failure(e)
    case Success(None) =>
      assert all[..|all|] == all;
      Success(Shorts(all))
    case Success(Some(n)) =>
      assert Take(all, n) == all[..|Take(all, n)|];
      Success(Shorts(Take(all, n)))
  }

  // ---------------------------------------------------------------- subscription views

  /** The author's public profile fields. */
  datatype Profile = Profile(email: string, id: UserId, username: string, firstName: string, lastName: string)

  function ProfileOf(users: map<UserId, User>, id: UserId): Profile
    requires id in users
  {
    Profile(users[id].email, id, users[id].username, users[id].firstName, users[id].lastName)
  }

  /** One entry of a subscriptions listing. */
  datatype SubscriptionView = SubscriptionView(
    profile: Profile, isSubscribed: bool, recipes: seq<ShortRecipe>, recipesCount: nat)

  /** `SubscriptionsSerializer`, keyed off a follow row and viewed by `viewer`. */
  function FollowView(
    users: map<UserId, User>, follows: set<Follow>, recipes: seq<Recipe>, viewer: Viewer,
    f: Follow, recipesLimit: Option<string>, toInt: string -> Option<int>)
    : (r: Result<SubscriptionView, ReadError>)
    requires f.author in users
    ensures r.Success? ==> r.value.profile.id == f.author && r.value.recipesCount == RecipesCount(recipes, f.author)
                           && |r.value.recipes| <= r.value.recipesCount
    ensures r.Success? ==> (r.value.isSubscribed <==> IsSubscribed(follows, viewer, f.author))
    ensures r.Failure? <==> LimitedRecipes(recipes, f.author, recipesLimit, toInt).Failure?
    ensures r.Success? ==> r.value.recipes == LimitedRecipes(recipes, f.author, recipesLimit, toInt).value
                           && r.value.recipes == Shorts(AuthorRecipes(recipes, f.author)[..|r.value.recipes|])
    ensures r.Success? ==> r.value.profile == ProfileOf(users, f.author)
                           && r.value.profile.email == users[f.author].email
                           && r.value.profile.username == users[f.author].username
  {
    match LimitedRecipes(recipes, f.author, recipesLimit, toInt)
    case Failure(e) => Failure(e)
    case Success(listed) =>
      Success(SubscriptionView(
        ProfileOf(users, f.author), IsSubscribed(follows, viewer, f.author), listed, RecipesCount(recipes, f.author)))
  }

  /**
   * `IsSubscribeSerializer`, keyed off the author: every recipe, untruncated,
   * and `is_subscribed` true whatever the follow table says.
   */
  function UserView(users: map<UserId, User>, recipes: seq<Recipe>, author: UserId): (r: SubscriptionView)
    requires author in users
    ensures r.isSubscribed
    ensures r.profile.id == author && r.profile == ProfileOf(users, author)
    ensures r.recipesCount == |r.recipes|
    ensures r.recipes == Shorts(AuthorRecipes(recipes, author))
  {
    RecipesCountIsListLength(recipes, author);
    SubscriptionView(
      ProfileOf(users, author), true, Shorts(AuthorRecipes(recipes, author)), RecipesCount(recipes, author))
  }

  /**
   * For the viewer's own follow rows and no `recipes_limit`, the two views of
   * an author agree entry for entry.
   */
  lemma ViewsAgreeOnOwnFollows(
    users: map<UserId, User>, follows: set<Follow>, recipes: seq<Recipe>, f: Follow, toInt: string -> Option<int>)
    requires f in follows && f.author in users
    ensures FollowView(users, follows, recipes, Some(f.user), f, None, toInt) == Success(UserView(users, recipes, f.author))
  {
    var all := AuthorRecipes(recipes, f.author);
    var fv := FollowView(users, follows, recipes, Some(f.user), f, None, toInt);
    assert IsSubscribed(follows, Some(f.user), f.author);
    RecipesCountIsListLength(recipes, f.author);
    assert fv.value.recipes == Shorts(all[..|all|]);
    assert all[..|all|] == all;
  }

  /** The user-keyed view reports a subscription even to a viewer who follows nobody. */
  lemma UserViewIgnoresFollows(users: map<UserId, User>, recipes: seq<Recipe>, viewer: UserId, author: UserId)
    requires author in users
    ensures !IsSubscribed({}, Some(viewer), author) && UserView(users, recipes, author).isSubscribed
  {
  }
}
