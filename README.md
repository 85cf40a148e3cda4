# foodgram: recipe write path, read-side queries and schema invariants in Dafny

This project models the data layer of foodgram, a recipe-sharing site. The
modelled core is:

- the serializer logic of `backend/api/serializers.py`:
  - the base64 image field;
  - the hex-to-name colour field;
  - recipe validation, `add_ingredients`, `create` and `update`;
  - the per-viewer `is_favorited` / `is_in_shopping_cart` flags;
  - the two subscription views;
- the schemas of `backend/recipes/models.py` and `backend/users/models.py`, taken as invariants over the tables:
  - unique constraints;
  - foreign keys with their cascades;
  - the newest-first default order;
  - `__str__` forms.

Layout, one module per file:

| file | module | what it holds |
|---|---|---|
| `wrappers.dfy` | `Wrappers`, `Errors` | `Option`/`Result`, and every error the core can raise: integrity errors named by constraint, the data error of an over-long column, validation errors naming their fields, not-found, `KeyError`, uncaught `ValueError` |
| `pystr.dfy` | `PyStr` | Python's `str.split` and `str.join`, with the facts the image field needs; `str.strip()`, which the recipe's string fields apply |
| `image_field.dfy` | `ImageField` | `Base64ImageField.to_internal_value` |
| `color_field.dfy` | `ColorField` | `HexToNameColor` |
| `users_models.dfy` | `Users` | user and follow schemas, their invariants, `User.__str__` |
| `recipes_models.dfy` | `Recipes` | ingredient, tag, recipe, ingredient-row, tag-link, favourite and cart schemas; their invariants; the shared table queries |
| `recipe_write.dfy` | `RecipeWrite` | validation of a recipe payload; `add_ingredients` and the tag loop as functions on table values |
| `recipe_read.dfy` | `RecipeRead` | the read-side queries and the subscription views |
| `tables.dfy` | `Tables` | the whole database as one value `Db`, its invariant `Valid`, and each write as a function from old tables to new tables plus the raised error |
| `integrity.dfy` | `Integrity` | the lemmas about those writes |
| `store.dfy` | `Database` | `Store`, a class whose fields are the tables and whose methods perform the writes statement by statement; each method is proved to leave exactly the tables that the matching `Tables` function gives, and to keep `Valid` |

Modelling choices:

- **Opaque library calls are parameters.**
  - The base64 decoder (`b64decode`).
  - Python's `int()` (`toInt`).
  - The colour library's `hex_to_name` (`hexToName`).
  - In each case `None` stands for the `ValueError` the call raises.
- **Tables.**
  - Users, tags and ingredients are maps from id to row.
  - The recipe table is a sequence kept newest first, the default ordering.
  - The join tables are sets of pairs, so a pair can appear only once.
  - Ingredient rows are a set of `(ingredient, recipe, amount)` triples, with the pair-uniqueness constraint stated as an invariant.
- **Ids and dates.**
  - One counter hands out the ids of all tables.
  - `pub_date` is a clock that advances on each recipe insert.

## Model

| member | source | states |
|---|---|---|
| PyStr.JoinSplit | backend/api/serializers.py:18-19 | joining the parts of `s.split(sep)` with `sep` gives back `s` |
| PyStr.SplitPartsAvoidSep | backend/api/serializers.py:18-19 | no part produced by `split(sep)` contains `sep` |
| PyStr.Strip | backend/recipes/models.py:65-75 | `strip()` of a `CharField`/`TextField` value is the piece between the leading and trailing white space: it neither starts nor ends with white space, and it is empty exactly when the value is all white space |
| PyStr.StripOf | backend/recipes/models.py:65-75 | white space around a piece that neither starts nor ends with white space strips to exactly that piece |
| PyStr.StripIdempotent | backend/recipes/models.py:65-75 | a stripped value strips to itself |
| PyStr.SplitAround | backend/api/serializers.py:18 | when `sep` cannot overlap itself and `a` does not contain it, `split(a + sep + b)` is `[a]` followed by `split(b)` |
| ImageField.ToInternalValue | backend/api/serializers.py:15-21 | anything that is not a string starting with `data:image` passes through unchanged; a decoded data URI becomes a file whose name starts with `temp.` |
| ImageField.ExtensionIsLastSegment | backend/api/serializers.py:19 | `format.split('/')[-1]` contains no `/`, is a suffix of the format, and is either the whole format or preceded by `/` |
| ImageField.SplitInTwoIffSingleMarker | backend/api/serializers.py:18 | the two-name unpack of `split(';base64,')` works exactly when the marker occurs once |
| ImageField.UnpackErrorIffNotSingleMarker | backend/api/serializers.py:17-18 | a data URI raises the unpack error if and only if the marker does not occur exactly once |
| ImageField.DataUriDecoded | backend/api/serializers.py:17-20 | `format;base64,payload` decodes to the file `temp.<ext>` holding the decoded payload, or raises the base64 error |
| ColorField.ToRepresentation | backend/api/serializers.py:25-26 | the stored colour is returned as it is |
| ColorField.ToInternalValue | backend/api/serializers.py:28-32 | the result is the colour's name; it fails, with a validation error on the colour field, exactly when the lookup has no name |
| ColorField.ReadBackGivesName | backend/api/serializers.py:24-32 | writing a hex colour and reading it back gives the colour's name; this equals the hex input only when the name is the hex itself |
| Users.UserStrDeterminesNames | backend/users/models.py:26-27 | when last names contain no space, `first last` determines both names |
| Recipes.IngredientStrDeterminesIngredient | backend/recipes/models.py:23-24 | when units contain no `(`, `name (unit)` determines the ingredient |
| Recipes.Filter | backend/recipes/models.py:97-100 | a filtered query holds exactly the matching rows and is no longer than the table |
| Recipes.FilterNewestFirst | backend/recipes/models.py:97-100 | a filtered query keeps the newest-first default order |
| Recipes.FilterKeepsRecipesValid | backend/recipes/models.py:56-106 | a filtered recipe table keeps every recipe-table invariant; its ids are the ids of the kept rows |
| RecipeWrite.Validate | backend/api/serializers.py:72-91 | a payload passes exactly when `Acceptable` holds: every key a full request needs is present; name and text are accepted as `CharField`s (not blank once stripped, no null character, the stripped name within 256 characters); the image converts to a file; cooking time is at least 1; every tag exists. A malformed data URI, and only that, escapes as an uncaught `ValueError`; any other failure is a validation error naming the failing fields. On success name and text are the stripped inputs, and the other fields are carried over |
| RecipeWrite.Checked | backend/api/serializers.py:72-91 | with the image converted, the request fails exactly when some field fails, reporting exactly those fields; otherwise `validated_data` holds stripped name and text, passes the column checks and, for a full request, has every key |
| RecipeWrite.NoErrorsIsAcceptable | backend/api/serializers.py:72-91 | with the image converted without a `ValueError`, no field failing is the same as `Acceptable` |
| RecipeWrite.ValidationReportsFields | backend/api/serializers.py:72-91 | a validation error names the name, the text and the cooking time exactly when each is missing or refused; a cooking time below 1 always fails the request |
| RecipeWrite.ValidatedStringsStripped | backend/recipes/models.py:65-75 | validated name and text are not blank and are already stripped |
| RecipeWrite.PaddedNameIsTrimmed | backend/recipes/models.py:65-67 | a name sent as `lead + name + trail` with white-space ends is stored as `name` |
| RecipeWrite.AddIngredientsOutcome | backend/api/serializers.py:93-101 | `add_ingredients` completes exactly when every ingredient exists, no id repeats and the recipe lacks each ingredient; it then adds one row per entry and nothing else |
| RecipeWrite.AddIngredientsPrefix | backend/api/serializers.py:93-101 | whatever the outcome, the rows of a prefix of the entries were added, and no other recipe's rows changed |
| RecipeWrite.AddIngredientsKeepsValid | backend/recipes/models.py:112-141 | the loop raises only the ingredient foreign-key or `unique_ingredient_recipe` error, and keeps both foreign keys and the pair constraint |
| RecipeWrite.EntryRowsCount | backend/api/serializers.py:93-101 | with distinct ingredient ids there are exactly as many rows as entries |
| RecipeWrite.RepeatedIngredientFails | backend/recipes/models.py:136-141 | a payload naming one ingredient twice makes `add_ingredients` raise |
| RecipeWrite.ZeroAmountIsStored | backend/recipes/models.py:127-131 | an amount of 0 is stored as given: the declared minimum of 1 is not checked on this path |
| RecipeWrite.AttachTagsOutcome | backend/api/serializers.py:108-109 | the tag loop completes exactly when every tag exists, and then it has linked exactly the given tags. It can fail only with not-found, and it only ever adds links from this recipe to existing tags |
| RecipeWrite.TagsOfAttached | backend/api/serializers.py:121-127 | after clearing and re-adding, the recipe's tag set is the set of the given ids (repeats collapse), and no other recipe's tags change |
| RecipeRead.FavoriteFlagFollowsRow | backend/api/serializers.py:145-151 | `is_favorited` is true right after the favourite row is added and false right after it is removed; no other (viewer, recipe) flag moves; an anonymous viewer always sees false |
| RecipeRead.CartFlagFollowsRow | backend/api/serializers.py:153-159 | the same for `is_in_shopping_cart` and the cart row |
| RecipeRead.RecipesCountIsListLength | backend/api/serializers.py:195-197 | `recipes_count`, counted row by row, equals the length of the author's recipe list |
| RecipeRead.AuthorRecipesSpec | backend/api/serializers.py:183-184 | the author's recipe list holds exactly the author's recipes, newest first |
| RecipeRead.LimitedRecipes | backend/api/serializers.py:183-193 | the listing is always a prefix of the author's recipes. With no limit, or an empty one, it is all of them; with a limit `n >= 0` it has `min(n, count)` entries. A non-integer or negative limit is an error, and only those are |
| RecipeRead.FollowView | backend/api/serializers.py:168-200 | the follow-keyed view shows the author's own profile row (email, id, username, names); its recipes are exactly the `recipes_limit` listing, a newest-first prefix of the author's recipes, and it fails exactly when that listing does; `recipes_count` is the untruncated count and is at least the listed number; `is_subscribed` is the follow-existence check |
| RecipeRead.UserView | backend/api/serializers.py:203-224 | the user-keyed view shows the author's own profile row, always says subscribed and lists all the author's recipes, and its count equals its list length |
| RecipeRead.ViewsAgreeOnOwnFollows | backend/api/serializers.py:183-224 | for the viewer's own follow rows and no limit, the two views give the same entry |
| RecipeRead.UserViewIgnoresFollows | backend/api/serializers.py:223-224 | the user-keyed view says subscribed even to a viewer who follows nobody |
| Tables.Empty | backend/recipes/models.py:7-196 | an empty database satisfies every invariant |
| Integrity.NothingRefersToNextId | backend/recipes/models.py:112-126 | in a valid database no recipe, ingredient row or tag link uses the next id |
| Integrity.InsertRecipeKeepsValid | backend/api/serializers.py:106 | `Recipe.objects.create` puts the new row, with the next id and the current clock, at the head of the table and changes no other row; it adds exactly its id and keeps every invariant |
| Integrity.CreateKeepsValid | backend/api/serializers.py:103-111 | `create` keeps every constraint and foreign key, whether it completes or stops half way |
| Integrity.CreateSucceedsIff | backend/api/serializers.py:103-111 | `create` completes exactly when: the author exists and has no recipe of that name; every ingredient exists and none repeats; every tag exists |
| Integrity.CreateResult | backend/api/serializers.py:103-111 | a rejected insert changes nothing, and once inserted the recipe row stays even when a later step fails. On success the recipe is the newest, with one row per ingredient entry and exactly the given tags. Users, follows, tags, ingredients, favourites, carts and every other recipe's rows are untouched |
| Integrity.ReplaceKeepsRecipesValid | backend/api/serializers.py:114-120 | overwriting a row with its patched self keeps the recipe-table invariants, the key set and every position |
| Integrity.ClearedKeepsValid | backend/api/serializers.py:121-123 | clearing a recipe's tags and ingredient rows keeps every invariant |
| Integrity.TagLoopKeepsValid | backend/api/serializers.py:126-127 | the tag loop on an existing recipe keeps every invariant however far it gets |
| Integrity.IngredientLoopKeepsValid | backend/api/serializers.py:128 | `add_ingredients` on an existing recipe keeps every invariant however far it gets |
| Integrity.SaveKeepsValid | backend/api/serializers.py:129 | saving the patched row keeps every invariant when no other recipe of the author has the new name |
| Integrity.UpdateKeepsValid | backend/api/serializers.py:113-129 | `update` keeps every constraint and foreign key, whether it completes or stops half way |
| Integrity.UpdateSucceedsIff | backend/api/serializers.py:113-129 | `update` completes exactly when: both keys are present; every tag and ingredient exists; no ingredient repeats; no other recipe of the author has the new name |
| Integrity.UpdateResult | backend/api/serializers.py:113-129 | after a completed update the row is patched in place, keeping its key, author, date and position. The recipe has one row per entry and exactly the given tags, and nothing else changes |
| Integrity.UpdatedRow | backend/api/serializers.py:114-120 | after a completed update the recipe's row is patched where it stood and every other row is as it was |
| Integrity.UpdatedLinks | backend/api/serializers.py:121-128 | after a completed update the recipe has one row per entry and exactly the given tags; other recipes' links and the other tables are untouched |
| Integrity.UpdateMissingKeyStripsRecipe | backend/api/serializers.py:121-125 | a request without `ingredients` or `tags` raises the missing key, but only after the recipe has already lost its ingredient rows and tags |
| Integrity.RollbackRestores | backend/api/serializers.py:103-129 | if each request ran in one transaction, a failed create or update would leave the database as it was; either way every invariant holds |
| Integrity.KeepRecipesKeepsValid | backend/recipes/models.py:121-126 | keeping part of the recipe table, together with the recipe-side cascades, keeps every invariant |
| Integrity.DeleteRecipeKeepsValid | backend/recipes/models.py:121-126 | deleting a recipe removes exactly that recipe and every row that refers to it |
| Integrity.DeleteUserKeepsValid | backend/users/models.py:33-46 | deleting a user removes exactly the user's recipes, and leaves no follow, recipe, favourite or cart row that refers to the user |
| Integrity.DeleteIngredientKeepsValid | backend/recipes/models.py:115-120 | deleting an ingredient removes exactly the rows that use it |
| Integrity.DeleteTagKeepsValid | backend/recipes/models.py:82-86 | deleting a tag removes exactly its links |
| Integrity.AddUserKeepsValid | backend/users/models.py:5-20 | a user insert succeeds exactly when the columns fit (username within the 150 characters inherited from `AbstractUser`, email and names within 256) and both email and username are new; a failed insert changes nothing |
| Integrity.AddUserOutcome | backend/users/models.py:5-20 | a user insert fails without change, or succeeds exactly when the columns fit and email and username are new, adding the user under the next id; a value too long for its column is the database's data error |
| Integrity.AddFollowKeepsValid | backend/users/models.py:30-49 | a follow insert succeeds exactly for a new pair of existing users; following oneself is allowed |
| Integrity.AddTagKeepsValid | backend/recipes/models.py:27-46 | a tag insert succeeds exactly when name, colour and slug fit their columns (256, 7, 256) and the name and any non-null colour and slug are new; every stored tag fits its columns |
| Integrity.AddTagOutcome | backend/recipes/models.py:27-46 | a tag insert fails without change, with the data error when a value is too long for its column, or succeeds exactly when the values fit and name and any non-null colour and slug are new, adding the tag under the next id |
| Integrity.AddIngredientKeepsValid | backend/recipes/models.py:7-17 | an ingredient insert succeeds exactly when name (256) and unit (50) fit their columns, taking a fresh id; otherwise it raises the data error and changes nothing; every invariant is kept |
| Integrity.FavoritesAndCartsKeepValid | backend/recipes/models.py:147-193 | favourite and cart inserts succeed exactly for a new pair naming an existing user and recipe; inserts and removals keep both foreign keys |
| Database.Store.constructor | backend/recipes/models.py:7-196 | a new store is empty and valid |
| Database.Store.AddIngredients | backend/api/serializers.py:93-101 | the loop leaves exactly the rows and error that `RecipeWrite.AddIngredients` gives, and changes no other table |
| Database.Store.AttachTags | backend/api/serializers.py:108-109 | the loop leaves exactly the links and error that `RecipeWrite.AttachTags` gives, and changes no other table |
| Database.Store.CreateRecipe | backend/api/serializers.py:103-111 | it leaves the tables and error of `Tables.Create`, returns the new id, keeps `Valid`, and succeeds exactly when `CreateAllowed` holds |
| Database.Store.UpdateRecipe | backend/api/serializers.py:113-129 | it leaves the tables and error of `Tables.Update`, keeps `Valid`, and succeeds exactly when `UpdateAllowed` holds |
| Database.Store.CreateSteps | backend/api/serializers.py:103-111 | the statements of `create` leave exactly the tables and error of `Tables.Create` and return the id the insert takes |
| Database.Store.UpdateSteps | backend/api/serializers.py:113-129 | the statements of `update` leave exactly the tables and error of `Tables.Update` |
| Database.Store.SubmitCreate | backend/api/serializers.py:72-111 | a payload that fails validation (including a blank name or text) writes nothing and reports the validation outcome; a valid one is created from the validated data, with name and text stripped |
| Database.Store.SubmitUpdate | backend/api/serializers.py:72-129 | the same for an update, full or partial, for payloads whose ingredient entries carry both keys: the validated, stripped values are what the update writes |
| Database.Store.KeepRecipes | backend/recipes/models.py:121-126 | the recipe-side cascade: it leaves exactly the tables of `Tables.KeepRecipes` |
| Database.Store.DeleteRecipe | backend/recipes/models.py:121-126 | it leaves the tables of `Tables.DeleteRecipe` and keeps `Valid`; the recipe is gone |
| Database.Store.DeleteUser | backend/users/models.py:33-46 | it leaves the tables of `Tables.DeleteUser` and keeps `Valid`; the user is gone |
| Database.Store.UnlinkUser | backend/users/models.py:33-46 | the user-side cascades leave exactly the tables of `Tables.UnlinkUser` |
| Database.Store.DeleteIngredient | backend/recipes/models.py:115-120 | it leaves the tables of `Tables.DeleteIngredient` and keeps `Valid` |
| Database.Store.DeleteTag | backend/recipes/models.py:82-86 | it leaves the tables of `Tables.DeleteTag` and keeps `Valid` |
| Database.Store.AddUser | backend/users/models.py:5-20 | it leaves the tables and error of `Tables.AddUser`, keeps `Valid`, and on success the user is stored under the returned id |
| Database.Store.InsertUser | backend/users/models.py:5-20 | the column and uniqueness checks and the insert leave exactly the tables and error of `Tables.AddUser` |
| Database.Store.AddFollow | backend/users/models.py:30-49 | it leaves the tables and error of `Tables.AddFollow`, keeps `Valid`, and on success the follower is subscribed |
| Database.Store.AddTag | backend/recipes/models.py:27-46 | it leaves the tables and error of `Tables.AddTag`, keeps `Valid`, and on success the tag is stored under the returned id |
| Database.Store.InsertTag | backend/recipes/models.py:27-46 | the column-length and uniqueness checks and the insert leave exactly the tables and error of `Tables.AddTag` |
| Database.Store.AddIngredient | backend/recipes/models.py:7-17 | it leaves the tables and error of `Tables.AddIngredient`, keeps `Valid`, and on success stores the ingredient under a fresh id |
| Database.Store.AddFavorite | backend/recipes/models.py:147-166 | it leaves the tables and error of `Tables.AddFavorite`, keeps `Valid`, and on success `is_favorited` is true |
| Database.Store.InsertFavorite | backend/recipes/models.py:147-166 | the foreign-key and uniqueness checks and the insert leave exactly the tables and error of `Tables.AddFavorite` |
| Database.Store.RemoveFavorite | backend/recipes/models.py:147-166 | it removes the favourite row, keeps `Valid`, and `is_favorited` is then false |
| Database.Store.AddToCart | backend/recipes/models.py:172-193 | it leaves the tables and error of `Tables.AddToCart`, keeps `Valid`, and on success `is_in_shopping_cart` is true |
| Database.Store.InsertCartRow | backend/recipes/models.py:172-193 | the foreign-key and uniqueness checks and the insert leave exactly the tables and error of `Tables.AddToCart` |
| Database.Store.RemoveFromCart | backend/recipes/models.py:172-193 | it removes the cart row, keeps `Valid`, and `is_in_shopping_cart` is then false |

## Where the code and the design differ

The model follows the code in each of these cases:

- **Amounts are not validated.** The design says an amount below 1 is a validation error. In the code, `AmountSerializer` declares `amount` as a plain integer, and `add_ingredients` uses `objects.create`, which runs no validators. An amount of 0 is therefore stored (`RecipeWrite.ZeroAmountIsStored`), and `amount >= 1` is not part of the table invariant.
- **Writes are not atomic.** The design says a failed update leaves no partial state. The serializers open no transaction:
  - `update` clears the recipe's tags and ingredient rows before it looks up the `ingredients` and `tags` keys;
  - its final save can still hit `unique_author_name` after the links were replaced;
  - `create` keeps the recipe row when `add_ingredients` fails.

  All of these intermediate states are modelled (`Integrity.UpdateMissingKeyStripsRecipe`, `Integrity.CreateResult`). `Integrity.RollbackRestores` states what a request-wide transaction in the deployment would turn them into. Whether the deployment has one is not part of this model.
- **Empty lists are accepted.** The design asks for non-empty tag and ingredient lists. The fields use the default `allow_empty`, so empty lists pass.
- **A missing tag is a validation error.** The design says it is not-found. `PrimaryKeyRelatedField` rejects the id during validation, so nothing is written and the tag loop's not-found error is not reached on that path.
- **A missing or repeated ingredient is an integrity error.** The design says it is not-found. In the code it is an integrity error raised at insert time, after the recipe row exists.
- **A negative `recipes_limit` is an error.** The design calls the parameter a non-negative count. A negative value raises from the queryset slice, and a non-integer raises from `int()`.
- **`Meta.fields` of the write serializer names two fields the model lacks.** `RecipePostSerializer.Meta.fields` (backend/api/serializers.py:88-91) lists `is_favorited` and `is_in_shopping_cart`, which `Recipe` does not have and the serializer does not declare. Django REST framework refuses such a field when it builds the serializer's fields (an `ImproperlyConfigured` error), which would stop every create and update before validation. The model assumes the fields build and models what the declared fields do.
- **Over-long text columns.** A `CharField` value longer than its `max_length` is not checked by Django on `objects.create`; PostgreSQL then raises a `DataError` (the model's `DataError`), while SQLite stores the value. The model follows PostgreSQL for every modelled insert: users, tags and ingredients. A colour name that `HexToNameColor` produces and that is longer than 7 characters is therefore refused when the tag is inserted.
- **The user-keyed subscription view always says subscribed.** `RecipeRead.UserViewIgnoresFollows` shows this; the follow-keyed view checks for a follow row.

## Left out

- `RecipeWrite.IngredientEntry`: the payload is typed. Every present value has its field's type, and every ingredient entry carries both `id` and `amount`. So the model cannot express JSON `null`, a wrongly typed value, or an entry that lacks one of `AmountSerializer`'s required keys (backend/api/serializers.py:63-69). What is lost:
  - On a full request, such a payload is a validation error, and nothing is written.
- `Database.Store.SubmitUpdate`: on a partial request, Django REST framework skips the required-key check. An entry without `id` or `amount` therefore passes validation. `update` then clears the recipe's tags and ingredient rows and adds the new tags. After that, `add_ingredients` inserts `None` into a NOT NULL column, which raises an integrity error and leaves the recipe stripped of its ingredient rows. The model's update does not reach this failure.
- Serializer plumbing is not modelled:
  - the field declarations and `Meta.fields` lists;
  - the nested output of authors, tags and ingredients in `RecipeGetSerializer`;
  - `TagSerializers`, `IngredientSerializer`, `IngredientInRecipeSerializer`.

  These only shape JSON.
- The image check of the parent `ImageField` (Pillow decoding the bytes) is left out. It is foreign code; the model only keeps its first step, which is that a value that is still a string is rejected.
- Base64 decoding, `int()` and the colour library's name table are parameters, not definitions.
- `RecipeRead.IsSubscribed`: `CurrentUserSerializer.get_is_subscribed` is not part of this model. It is taken as the check that a follow row (viewer, author) exists, and false for an anonymous viewer.
- `__str__` is not modelled for Tag, Recipe, IngredientRecipe, FavoriteRecipe, ShoppingCart and Follow. They only format text, and the tag's form prints an integer id.
- The shopping-list aggregation is not part of the modelled core.
- HTTP, authentication, permissions and the views that call the serializers are left out. The author of a new recipe and the viewer are parameters.
- Concurrency is left out: every write is one step on the tables.
- Integer columns are unbounded in the model. `cooking_time` and `amount` are 32-bit `IntegerField` columns (backend/recipes/models.py:91-95, 127-131), and neither the serializer's `IntegerField` nor `AmountSerializer` sets a maximum. An out-of-range value would raise a database `DataError` at the recipe insert, part way through `add_ingredients` (after the recipe row exists), or in the final save of `update` (after the links were replaced). The model stores any integer and does not capture these failures.
- `RecipeWrite.CharFieldAccepts`: the surrogate-character validator of Django REST framework's `CharField` is not modelled; Dafny characters are Unicode scalar values, so a surrogate cannot occur.
- Ids and dates are simplified:
  - Each table has its own id sequence in the source; the model uses one counter, which keeps ids fresh per table all the same.
  - `pub_date` is a counter, not a timestamp.
- The file storage behind `ImageField` (`upload_to`) is left out; an image is its name and bytes.
