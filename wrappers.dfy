/** Failure-compatible wrappers shared by every module of the model. */
module Wrappers {

  datatype Option<+T> = None | Some(value: T) {
    /** The wrapped value, or `default` when there is none (Python's `dict.get(key, default)`). */
    function GetOr(default: T): T {
      match this
      case Some(v) => v
      case None => default
    }
  }

  datatype Result<+R, +E> = Success(value: R) | Failure(error: E)
}

/** The errors the serializers and the database can raise. */
module Errors {

  /** The database constraints declared in users/models.py and recipes/models.py. */
  datatype Constraint =
    | UniqueEmail              // User.email, unique=True
    | UniqueUsername           // inherited from the account model
    | UniqueFollow             // Follow, unique_together ('user', 'author')
    | UniqueTagName            // Tag.name, unique=True
    | UniqueTagColor           // Tag.color, unique=True
    | UniqueTagSlug            // Tag.slug, unique=True
    | UniqueAuthorName         // Recipe, UniqueConstraint 'unique_author_name'
    | UniqueIngredientRecipe   // IngredientRecipe, UniqueConstraint 'unique_ingredient_recipe'
    | UniqueFavorite           // FavoriteRecipe, UniqueConstraint 'unique_favorite'
    | UniqueShoppingCart       // ShoppingCart, UniqueConstraint 'unique_shoppingcart'
    | UserForeignKey           // a row naming a user that does not exist
    | RecipeForeignKey         // a row naming a recipe that does not exist
    | IngredientForeignKey     // a row naming an ingredient that does not exist

  /** The serializer fields that can carry a validation error. */
  datatype Field =
    | NameField | ImageFileField | TextField | CookingTimeField | TagsField | IngredientsField  // recipe payload
    | ColorNameField                                                                           // tag colour

  /** The payload keys that `update` pops without a default. */
  datatype PayloadKey = IngredientsKey | TagsKey

  datatype WriteError =
    | IntegrityError(constraint: Constraint)   // raised by the database layer
    | DataError                                // a CharField value longer than its column (PostgreSQL's DataError)
    | ValidationError(fields: set<Field>)      // collected by the serializer, nothing written
    | NotFound                                 // get_object_or_404 found no row
    | MissingKey(key: PayloadKey)              // KeyError from dict.pop without default
    | UncaughtValueError                       // a ValueError escaping a field's to_internal_value
}
