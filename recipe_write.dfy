/**
 * The recipe write path of `RecipePostSerializer` (backend/api/serializers.py:72-129)
 * as pure specifications over table values: field validation, `add_ingredients`
 * and the tag loop. The `Store` class in store.dfy runs the same steps against
 * its tables and is proved to agree with these functions.
 */
module RecipeWrite {
  import opened Wrappers
  import opened Errors
  import opened Recipes
  import ImageField
  import PyStr

  /**
   * One `{id, amount}` entry of the payload: `AmountSerializer` declares two
   * required integers. The entry is typed, so both keys are always present.
   */
  datatype IngredientEntry = IngredientEntry(id: int, amount: int)

  /** The request payload as it arrives; an absent key is `None`. */
  datatype RawRecipe = RawRecipe(
    name: Option<string>, image: Option<ImageField.Upload>, text: Option<string>, cookingTime: Option<int>,
    tags: Option<seq<Id>>, ingredients: Option<seq<IngredientEntry>>)

  /** `validated_data`: the payload after validation, with the image turned into a file. */
  datatype RecipePatch = RecipePatch(
    name: Option<string>, image: Option<ImageField.ImageFile>, text: Option<string>, cookingTime: Option<int>,
    tags: Option<seq<Id>>, ingredients: Option<seq<IngredientEntry>>)

  /** The table a loop of inserts reached, and the error that stopped it, if any. */
  datatype Partial<T> = Partial(state: T, error: Option<WriteError>)

  /** Every key is present, as for a create request (each field is required there). */
  predicate Complete(p: RecipePatch) {
    p.name.Some? && p.image.Some? && p.text.Some? && p.cookingTime.Some? && p.tags.Some? && p.ingredients.Some?
  }

  /** The name's length check and the `cooking_time` validator have passed. */
  predicate FieldsChecked(p: RecipePatch) {
    && (p.name.Some? ==> |p.name.value| <= NAME_MAX_LENGTH)
    && (p.cookingTime.Some? ==> p.cookingTime.value >= MIN_COOKING_TIME)
  }

  // ---------------------------------------------------------------- validation

  /** A required key is missing from a full (not partial) request. */
  predicate Missing<T>(o: Option<T>, partial: bool) {
    o.None? && !partial
  }

  /**
   * DRF's `CharField` as `ModelSerializer` builds it for a required model
   * `CharField` or `TextField`: `trim_whitespace` hands on the stripped value,
   * `allow_blank=False` rejects a value that strips to "", the null-character
   * validator rejects '\0', and `max_length`, when the column has one, bounds
   * the stripped value.
   */
  predicate CharFieldAccepts(s: string, maxLength: Option<nat>) {
    var v := PyStr.Strip(s);
    v != [] && '\0' !in v && (maxLength.Some? ==> |v| <= maxLength.value)
  }

  /** The image after `Base64ImageField.to_internal_value`, when the key is present. */
  function Converted(raw: RawRecipe, b64decode: string -> Option<seq<bv8>>)
    : Option<Result<ImageField.Upload, ImageField.ImageError>>
  {
    if raw.image.None? then None else Some(ImageField.ToInternalValue(raw.image.value, b64decode))
  }

  /**
   * The fields that fail validation, given the image after conversion:
   * a missing required key; a name or text the `CharField` rejects (blank once
   * stripped, a null character, a name longer than its column); a converted
   * image that is still a string (the parent `ImageField` wants a file); a
   * cooking time below the minimum; a tag id that names no tag
   * (`PrimaryKeyRelatedField` over all tags). The payload is typed: every
   * present value has its field's type and every ingredient entry carries both
   * keys, so the `null`, wrong-type and missing-inner-key errors of the nested
   * fields cannot arise here.
   */
  function FieldErrors(tagIds: set<Id>, raw: RawRecipe, image: Option<ImageField.Upload>, partial: bool): set<Field> {
    (if Missing(raw.name, partial) || (raw.name.Some? && !CharFieldAccepts(raw.name.value, Some(NAME_MAX_LENGTH)))
     then {NameField} else {})
    + (if Missing(image, partial) || (image.Some? && image.value.Text?) then {ImageFileField} else {})
    + (if Missing(raw.text, partial) || (raw.text.Some? && !CharFieldAccepts(raw.text.value, None))
       then {TextField} else {})
    + (if Missing(raw.cookingTime, partial) || (raw.cookingTime.Some? && raw.cookingTime.value < MIN_COOKING_TIME)
       then {CookingTimeField} else {})
    + (if Missing(raw.tags, partial) || (raw.tags.Some? && exists t :: t in raw.tags.value && t !in tagIds)
       then {TagsField} else {})
    + (if Missing(raw.ingredients, partial) then {IngredientsField} else {})
  }

  /**
   * What passing validation means, field by field: every key a full request
   * needs is there; name and text are accepted as `CharField`s; the image
   * converts to a file; the cooking time reaches the minimum; every tag id
   * names a tag.
   */
  predicate Acceptable(tagIds: set<Id>, raw: RawRecipe, partial: bool, b64decode: string -> Option<seq<bv8>>) {
    && !Missing(raw.name, partial) && (raw.name.Some? ==> CharFieldAccepts(raw.name.value, Some(NAME_MAX_LENGTH)))
    && !Missing(raw.image, partial)
    && (raw.image.Some? ==> var c := ImageField.ToInternalValue(raw.image.value, b64decode); c.Success? && c.value.File?)
    && !Missing(raw.text, partial) && (raw.text.Some? ==> CharFieldAccepts(raw.text.value, None))
    && !Missing(raw.cookingTime, partial) && (raw.cookingTime.Some? ==> raw.cookingTime.value >= MIN_COOKING_TIME)
    && !Missing(raw.tags, partial) && (raw.tags.Some? ==> forall t :: t in raw.tags.value ==> t in tagIds)
    && !Missing(raw.ingredients, partial)
  }

  /** `validated_data` holds a string field's stripped value. */
  function Stripped(o: Option<string>): Option<string> {
    if o.Some? then Some(PyStr.Strip(o.value)) else None
  }

  /**
   * `is_valid()` on the write serializer. A ValueError from the image conversion
   * is not a validation error and escapes; otherwise every failing field is
   * reported together and nothing is written. Name and text come out stripped.
   */
  function Validate(tagIds: set<Id>, raw: RawRecipe, partial: bool, b64decode: string -> Option<seq<bv8>>)
    : (r: Result<RecipePatch, WriteError>)
    ensures r.Success? <==> Acceptable(tagIds, raw, partial, b64decode)
    ensures r == Failure(UncaughtValueError)
            <==> raw.image.Some? && ImageField.ToInternalValue(raw.image.value, b64decode).Failure?
    ensures r.Failure? ==> r.error == UncaughtValueError || (r.error.ValidationError? && r.error.fields != {})
    ensures r.Success? ==> FieldsChecked(r.value) && (!partial ==> Complete(r.value))
    ensures r.Success? && r.value.tags.Some? ==> forall t :: t in r.value.tags.value ==> t in tagIds
    ensures r.Success? ==> r.value.name == Stripped(raw.name) && r.value.text == Stripped(raw.text)
                           && r.value.cookingTime == raw.cookingTime && r.value.tags == raw.tags
                           && r.value.ingredients == raw.ingredients && (r.value.image.Some? <==> raw.image.Some?)
    ensures r.Failure? && r.error.ValidationError? ==>
              r.error.fields == FieldErrors(tagIds, raw, if raw.image.Some? then Some(Converted(raw, b64decode).value.value) else None, partial)
  {
    var converted := Converted(raw, b64decode);
    if converted.Some? && converted.value.Failure? then Failure(UncaughtValueError)
    else
      var image := if converted.None? then None else Some(converted.value.value);
      NoErrorsIsAcceptable(tagIds, raw, partial, b64decode, image);
      Checked(tagIds, raw, partial, image)
  }

  /**
   * The rest of `is_valid()` once the image has converted: every failing field
   * is reported together, or `validated_data` is handed on with the image as a
   * file and name and text stripped.
   */
  function Checked(tagIds: set<Id>, raw: RawRecipe, partial: bool, image: Option<ImageField.Upload>)
    : (r: Result<RecipePatch, WriteError>)
    ensures r.Success? <==> FieldErrors(tagIds, raw, image, partial) == {}
    ensures r.Failure? ==> r.error.ValidationError? && r.error.fields != {}
    ensures r.Success? ==> FieldsChecked(r.value) && (!partial ==> Complete(r.value))
    ensures r.Success? && r.value.tags.Some? ==> forall t :: t in r.value.tags.value ==> t in tagIds
    ensures r.Success? ==> r.value.name == Stripped(raw.name) && r.value.text == Stripped(raw.text)
                           && r.value.cookingTime == raw.cookingTime && r.value.tags == raw.tags
                           && r.value.ingredients == raw.ingredients && (r.value.image.Some? <==> image.Some?)
    ensures r.Failure? ==> r.error.fields == FieldErrors(tagIds, raw, image, partial)
  {
    var errors := FieldErrors(tagIds, raw, image, partial);
    if errors != {} then Failure(ValidationError(errors))
    else
      var file := if image.Some? then Some(image.value.file) else None;
      Success(RecipePatch(Stripped(raw.name), file, Stripped(raw.text), raw.cookingTime, raw.tags, raw.ingredients))
  }

  /** With the image converted without a ValueError, no failing field is what `Acceptable` says. */
  lemma NoErrorsIsAcceptable(tagIds: set<Id>, raw: RawRecipe, partial: bool, b64decode: string -> Option<seq<bv8>>,
                             image: Option<ImageField.Upload>)
    requires raw.image.None? ==> image.None?
    requires raw.image.Some? ==> image.Some? && ImageField.ToInternalValue(raw.image.value, b64decode) == Success(image.value)
    ensures FieldErrors(tagIds, raw, image, partial) == {} <==> Acceptable(tagIds, raw, partial, b64decode)
  {
    if FieldErrors(tagIds, raw, image, partial) == {} {
      assert NameField !in FieldErrors(tagIds, raw, image, partial);
      assert ImageFileField !in FieldErrors(tagIds, raw, image, partial);
      assert TextField !in FieldErrors(tagIds, raw, image, partial);
      assert CookingTimeField !in FieldErrors(tagIds, raw, image, partial);
      assert TagsField !in FieldErrors(tagIds, raw, image, partial);
      assert IngredientsField !in FieldErrors(tagIds, raw, image, partial);
    }
  }

  /** Helper: the name and the text are reported exactly when missing or refused by their `CharField`. */
  lemma StringFieldErrors(tagIds: set<Id>, raw: RawRecipe, image: Option<ImageField.Upload>, partial: bool)
    ensures NameField in FieldErrors(tagIds, raw, image, partial)
            <==> Missing(raw.name, partial) || (raw.name.Some? && !CharFieldAccepts(raw.name.value, Some(NAME_MAX_LENGTH)))
    ensures TextField in FieldErrors(tagIds, raw, image, partial)
            <==> Missing(raw.text, partial) || (raw.text.Some? && !CharFieldAccepts(raw.text.value, None))
  {
  }

  /** Name and text come out of validation stripped and not blank, so stripping them again changes nothing. */
  lemma ValidatedStringsStripped(tagIds: set<Id>, raw: RawRecipe, partial: bool, b64decode: string -> Option<seq<bv8>>)
    ensures var r := Validate(tagIds, raw, partial, b64decode);
            && (r.Success? && r.value.name.Some? ==> r.value.name.value != [] && PyStr.Strip(r.value.name.value) == r.value.name.value)
            && (r.Success? && r.value.text.Some? ==> r.value.text.value != [] && PyStr.Strip(r.value.text.value) == r.value.text.value)
  {
    StrippedIsStable(raw.name);
    StrippedIsStable(raw.text);
  }

  /**
   * A validation error names the name, the text and the cooking time exactly
   * when each is missing or refused; a cooking time below the minimum always
   * fails the request.
   */
  lemma ValidationReportsFields(tagIds: set<Id>, raw: RawRecipe, partial: bool, b64decode: string -> Option<seq<bv8>>)
    ensures var r := Validate(tagIds, raw, partial, b64decode);
            && (raw.cookingTime.Some? && raw.cookingTime.value < MIN_COOKING_TIME ==> r.Failure?)
            && (r.Failure? && r.error.ValidationError? ==>
                && (NameField in r.error.fields
                    <==> Missing(raw.name, partial) || (raw.name.Some? && !CharFieldAccepts(raw.name.value, Some(NAME_MAX_LENGTH))))
                && (TextField in r.error.fields
                    <==> Missing(raw.text, partial) || (raw.text.Some? && !CharFieldAccepts(raw.text.value, None)))
                && (CookingTimeField in r.error.fields
                    <==> Missing(raw.cookingTime, partial) || (raw.cookingTime.Some? && raw.cookingTime.value < MIN_COOKING_TIME)))
  {
    var image := if raw.image.Some? && Converted(raw, b64decode).value.Success? then Some(Converted(raw, b64decode).value.value) else None;
    StringFieldErrors(tagIds, raw, image, partial);
  }

  /** A name sent with white space around it is stored without it: `" Soup "` is saved as `"Soup"`. */
  lemma PaddedNameIsTrimmed(tagIds: set<Id>, raw: RawRecipe, partial: bool, b64decode: string -> Option<seq<bv8>>,
                            lead: string, name: string, trail: string)
    requires raw.name == Some(lead + name + trail) && PyStr.AllSpace(lead) && PyStr.AllSpace(trail)
    requires name != [] && !PyStr.IsSpace(name[0]) && !PyStr.IsSpace(name[|name| - 1])
    requires Validate(tagIds, raw, partial, b64decode).Success?
    ensures Validate(tagIds, raw, partial, b64decode).value.name == Some(name)
  {
    PyStr.StripOf(lead, name, trail);
  }

  /** A stripped value strips to itself. */
  lemma StrippedIsStable(o: Option<string>)
    ensures o.Some? ==> PyStr.Strip(PyStr.Strip(o.value)) == PyStr.Strip(o.value)
  {
    if o.Some? {
      PyStr.StripIdempotent(o.value);
    }
  }

  // ---------------------------------------------------------------- add_ingredients

  /** The row `IngredientRecipe.objects.create(ingredient_id=e.id, amount=e.amount, recipe=recipe)` would add. */
  function EntryRow(recipe: Id, e: IngredientEntry): IngredientRecipe {
    IngredientRecipe(e.id, recipe, e.amount)
  }

  /** One row per entry. */
  function EntryRows(recipe: Id, entries: seq<IngredientEntry>): set<IngredientRecipe> {
    set e | e in entries :: EntryRow(recipe, e)
  }

  /** Some row already pairs `ingredient` with `recipe`. */
  predicate HasPair(rows: set<IngredientRecipe>, ingredient: Id, recipe: Id) {
    exists r :: r in rows && r.ingredient == ingredient && r.recipe == recipe
  }

  /** No ingredient id is repeated in the payload. */
  predicate DistinctIds(entries: seq<IngredientEntry>) {
    forall i, j :: 0 <= i < j < |entries| ==> entries[i].id != entries[j].id
  }

  /** Every entry can be inserted: it names an ingredient, is not repeated, and the recipe does not have it yet. */
  predicate Insertable(ingredientIds: set<Id>, rows: set<IngredientRecipe>, recipe: Id, entries: seq<IngredientEntry>) {
    && (forall e :: e in entries ==> e.id in ingredientIds)
    && DistinctIds(entries)
    && (forall e :: e in entries ==> !HasPair(rows, e.id, recipe))
  }

  /**
   * One `IngredientRecipe.objects.create`: the foreign key on the ingredient and
   * `unique_ingredient_recipe` are the only checks. No validator runs, so any
   * amount is stored.
   */
  function InsertRow(ingredientIds: set<Id>, rows: set<IngredientRecipe>, row: IngredientRecipe)
    : Result<set<IngredientRecipe>, WriteError>
  {
    if row.ingredient !in ingredientIds then Failure(IntegrityError(IngredientForeignKey))
    else if HasPair(rows, row.ingredient, row.recipe) then Failure(IntegrityError(UniqueIngredientRecipe))
    else Success(rows + {row})
  }

  /** `add_ingredients`: one insert per entry, in order; the first rejected insert raises and ends the loop. */
  function AddIngredients(ingredientIds: set<Id>, rows: set<IngredientRecipe>, recipe: Id, entries: seq<IngredientEntry>)
    : Partial<set<IngredientRecipe>>
    decreases |entries|
  {
    if entries == [] then Partial(rows, None)
    else
      match InsertRow(ingredientIds, rows, EntryRow(recipe, entries[0]))
      case Failure(e) => Partial(rows, Some(e))
      case Success(next) => AddIngredients(ingredientIds, next, recipe, entries[1..])
  }

  /**
   * `add_ingredients` succeeds exactly when every entry is insertable, and then
   * it has added one row per entry and nothing else.
   */
  lemma {:induction false} AddIngredientsOutcome(
    ingredientIds: set<Id>, rows: set<IngredientRecipe>, recipe: Id, entries: seq<IngredientEntry>)
    ensures var res := AddIngredients(ingredientIds, rows, recipe, entries);
      && (res.error.None? <==> Insertable(ingredientIds, rows, recipe, entries))
      && (res.error.None? ==> res.state == rows + EntryRows(recipe, entries))
    decreases |entries|
  {
    if entries != [] {
      var e := entries[0];
      var rest := entries[1..];
      var row := EntryRow(recipe, e);
      assert e in entries;
      match InsertRow(ingredientIds, rows, row)
      case Failure(_) =>
      case Success(next) =>
        AddIngredientsOutcome(ingredientIds, next, recipe, rest);
        assert next == rows + {row};
        assert forall x :: HasPair(next, x, recipe) <==> HasPair(rows, x, recipe) || x == e.id;
        assert forall x :: x in entries <==> x == e || x in rest;
        assert DistinctIds(entries) <==> DistinctIds(rest) && forall x :: x in rest ==> x.id != e.id by {
          if DistinctIds(rest) && forall x :: x in rest ==> x.id != e.id {
            forall i, j | 0 <= i < j < |entries|
              ensures entries[i].id != entries[j].id
            {
              if i > 0 {
                assert entries[i] == rest[i - 1] && entries[j] == rest[j - 1];
              } else {
                assert entries[j] in rest;
              }
            }
          }
          if DistinctIds(entries) {
            forall x | x in rest
              ensures x.id != e.id
            {
              var k :| 0 <= k < |rest| && rest[k] == x;
              assert entries[k + 1] == x;
            }
            forall i, j | 0 <= i < j < |rest|
              ensures rest[i].id != rest[j].id
            {
              assert rest[i] == entries[i + 1] && rest[j] == entries[j + 1];
            }
          }
        }
        assert Insertable(ingredientIds, rows, recipe, entries)
               <==> Insertable(ingredientIds, next, recipe, rest);
        assert EntryRows(recipe, entries) == {row} + EntryRows(recipe, rest);
    }
  }

  /**
   * Whatever the outcome, `add_ingredients` has added the rows of a prefix of the
   * entries and nothing else, so no other recipe's rows change.
   */
  lemma {:induction false} AddIngredientsPrefix(
    ingredientIds: set<Id>, rows: set<IngredientRecipe>, recipe: Id, entries: seq<IngredientEntry>)
    ensures var res := AddIngredients(ingredientIds, rows, recipe, entries);
      && (exists k :: 0 <= k <= |entries| && res.state == rows + EntryRows(recipe, entries[..k]))
      && (forall other :: other != recipe ==> RowsOf(res.state, other) == RowsOf(rows, other))
    decreases |entries|
  {
    var res := AddIngredients(ingredientIds, rows, recipe, entries);
    if entries == [] || InsertRow(ingredientIds, rows, EntryRow(recipe, entries[0])).Failure? {
      assert EntryRows(recipe, entries[..0]) == {};
      assert res.state == rows + EntryRows(recipe, entries[..0]);
    } else {
      var e := entries[0];
      var rest := entries[1..];
      var row := EntryRow(recipe, e);
      var next := rows + {row};
      assert res == AddIngredients(ingredientIds, next, recipe, rest);
      AddIngredientsPrefix(ingredientIds, next, recipe, rest);
      var k :| 0 <= k <= |rest| && res.state == next + EntryRows(recipe, rest[..k]);
      assert entries[..k + 1] == [e] + rest[..k];
      assert forall x :: x in entries[..k + 1] <==> x == e || x in rest[..k];
      assert EntryRows(recipe, entries[..k + 1]) == {row} + EntryRows(recipe, rest[..k]);
      assert res.state == rows + EntryRows(recipe, entries[..k + 1]);
      forall other | other != recipe
        ensures RowsOf(res.state, other) == RowsOf(rows, other)
      {
        assert RowsOf(next, other) == RowsOf(rows, other);
      }
    }
  }

  /**
   * `add_ingredients` raises only integrity errors, and every row it inserts
   * keeps both foreign keys and `unique_ingredient_recipe`.
   */
  lemma {:induction false} AddIngredientsKeepsValid(
    ingredientIds: set<Id>, recipeIds: set<Id>, rows: set<IngredientRecipe>, recipe: Id, entries: seq<IngredientEntry>)
    ensures var res := AddIngredients(ingredientIds, rows, recipe, entries);
      && (res.error.Some? ==> res.error.value in {IntegrityError(IngredientForeignKey), IntegrityError(UniqueIngredientRecipe)})
      && (IngredientRowsValid(rows, ingredientIds, recipeIds) && recipe in recipeIds
          ==> IngredientRowsValid(res.state, ingredientIds, recipeIds))
    decreases |entries|
  {
    if entries != [] && InsertRow(ingredientIds, rows, EntryRow(recipe, entries[0])).Success? {
      var row := EntryRow(recipe, entries[0]);
      var next := rows + {row};
      AddIngredientsKeepsValid(ingredientIds, recipeIds, next, recipe, entries[1..]);
      if IngredientRowsValid(rows, ingredientIds, recipeIds) && recipe in recipeIds {
        assert !HasPair(rows, row.ingredient, row.recipe);
        assert IngredientRowsValid(next, ingredientIds, recipeIds);
      }
    }
  }

  /** With no repeated ingredient id there are exactly as many rows as entries. */
  lemma {:induction false} EntryRowsCount(recipe: Id, entries: seq<IngredientEntry>)
    requires DistinctIds(entries)
    ensures |EntryRows(recipe, entries)| == |entries|
    decreases |entries|
  {
    if entries != [] {
      var rest := entries[1..];
      DistinctTail(entries);
      EntryRowsCount(recipe, rest);
      EntryRowsCons(recipe, entries);
    }
  }

  /** Dropping the first entry keeps the ids distinct, and the first id is not among the rest. */
  lemma DistinctTail(entries: seq<IngredientEntry>)
    requires entries != [] && DistinctIds(entries)
    ensures DistinctIds(entries[1..])
    ensures forall x :: x in entries[1..] ==> x.id != entries[0].id
  {
    var rest := entries[1..];
    forall i, j | 0 <= i < j < |rest|
      ensures rest[i].id != rest[j].id
    {
      assert rest[i] == entries[i + 1] && rest[j] == entries[j + 1];
    }
    forall x | x in rest
      ensures x.id != entries[0].id
    {
      var k :| 0 <= k < |rest| && rest[k] == x;
      assert entries[k + 1] == x;
    }
  }

  /** The rows of a non-empty list: the first entry's row and the rows of the rest. */
  lemma EntryRowsCons(recipe: Id, entries: seq<IngredientEntry>)
    requires entries != []
    ensures EntryRows(recipe, entries) == {EntryRow(recipe, entries[0])} + EntryRows(recipe, entries[1..])
  {
    assert forall x :: x in entries <==> x == entries[0] || x in entries[1..];
  }

  /** A payload that names one ingredient twice makes `add_ingredients` raise. */
  lemma RepeatedIngredientFails(
    ingredientIds: set<Id>, rows: set<IngredientRecipe>, recipe: Id, entries: seq<IngredientEntry>, i: nat, j: nat)
    requires i < j < |entries| && entries[i].id == entries[j].id
    ensures AddIngredients(ingredientIds, rows, recipe, entries).error.Some?
  {
    AddIngredientsOutcome(ingredientIds, rows, recipe, entries);
  }

  /**
   * The declared `amount >= 1` validator is not enforced here: an entry with
   * amount 0 is stored as it is.
   */
  lemma ZeroAmountIsStored(ingredientIds: set<Id>, rows: set<IngredientRecipe>, recipe: Id, ingredient: Id)
    requires ingredient in ingredientIds && !HasPair(rows, ingredient, recipe)
    ensures AddIngredients(ingredientIds, rows, recipe, [IngredientEntry(ingredient, 0)])
            == Partial(rows + {IngredientRecipe(ingredient, recipe, 0)}, None)
    ensures 0 < MIN_AMOUNT
  {
  }

  // ---------------------------------------------------------------- tags

  /** The links attaching each of `tags` to `recipe`. */
  function TagLinks(recipe: Id, tags: seq<Id>): set<RecipeTag> {
    set t | t in tags :: RecipeTag(recipe, t)
  }

  /**
   * The tag loop, `recipe.tags.add(get_object_or_404(Tag, pk=tag.id))` per tag:
   * a missing tag raises not-found; adding a link that exists changes nothing.
   */
  function AttachTags(tagIds: set<Id>, links: set<RecipeTag>, recipe: Id, tags: seq<Id>): Partial<set<RecipeTag>>
    decreases |tags|
  {
    if tags == [] then Partial(links, None)
    else if tags[0] !in tagIds then Partial(links, Some(NotFound))
    else AttachTags(tagIds, links + {RecipeTag(recipe, tags[0])}, recipe, tags[1..])
  }

  /**
   * The tag loop succeeds exactly when every tag exists, and then it has added
   * the links to exactly the given tags; on failure the error is not-found. Only
   * links of `recipe` to existing tags are ever added.
   */
  lemma {:induction false} AttachTagsOutcome(tagIds: set<Id>, links: set<RecipeTag>, recipe: Id, tags: seq<Id>)
    ensures AttachTags(tagIds, links, recipe, tags).error.None? <==> forall t :: t in tags ==> t in tagIds
    ensures AttachTags(tagIds, links, recipe, tags).error.Some?
            ==> AttachTags(tagIds, links, recipe, tags).error == Some(NotFound)
    ensures AttachTags(tagIds, links, recipe, tags).error.None?
            ==> AttachTags(tagIds, links, recipe, tags).state == links + TagLinks(recipe, tags)
    ensures links <= AttachTags(tagIds, links, recipe, tags).state
    ensures forall l :: l in AttachTags(tagIds, links, recipe, tags).state && l !in links
              ==> l.recipe == recipe && l.tag in tagIds
    decreases |tags|
  {
    if tags == [] {
    } else if tags[0] !in tagIds {
      assert AttachTags(tagIds, links, recipe, tags) == Partial(links, Some(NotFound));
      var bad := tags[0];
      assert bad in tags;
      assert bad !in tagIds;
      assert exists t :: t in tags && t !in tagIds;
    } else {
      var rest := tags[1..];
      var next := links + {RecipeTag(recipe, tags[0])};
      assert AttachTags(tagIds, links, recipe, tags) == AttachTags(tagIds, next, recipe, rest);
      AttachTagsOutcome(tagIds, next, recipe, rest);
      assert forall t :: t in tags <==> t == tags[0] || t in rest;
      assert (forall t :: t in tags ==> t in tagIds) <==> (forall t :: t in rest ==> t in tagIds);
      assert TagLinks(recipe, tags) == {RecipeTag(recipe, tags[0])} + TagLinks(recipe, rest);
    }
  }

  /** After clearing, attaching gives the recipe exactly the set of the given tags: repeats collapse. */
  lemma TagsOfAttached(links: set<RecipeTag>, recipe: Id, tags: seq<Id>)
    ensures TagsOf(WithoutTagsOf(links, recipe) + TagLinks(recipe, tags), recipe) == set t | t in tags
    ensures forall other :: other != recipe
              ==> TagsOf(WithoutTagsOf(links, recipe) + TagLinks(recipe, tags), other) == TagsOf(links, other)
  {
    var after := WithoutTagsOf(links, recipe) + TagLinks(recipe, tags);
    forall t | t in tags
      ensures t in TagsOf(after, recipe)
    {
      assert RecipeTag(recipe, t) in after;
    }
    forall other | other != recipe
      ensures TagsOf(after, other) == TagsOf(links, other)
    {
      forall t | t in TagsOf(links, other)
        ensures t in TagsOf(after, other)
      {
        var l :| l in links && l.recipe == other && l.tag == t;
        assert l in after;
      }
    }
  }
}
