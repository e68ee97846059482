/**
 * The recipe serializer: validation of a recipe payload (tags, ingredient
 * amounts, cooking time, required fields) and the writes `create` and
 * `update` make to the store once the payload is valid.
 */
module RecipeSerializer {
  import opened Wrappers
  import opened Seqs
  import opened Schema

  /** One entry of the `ingredients` list: an ingredient id and an amount. */
  datatype AmountInput = AmountInput(id: Id, amount: int)

  /** The ids of the entries, in order. */
  function Ids(items: seq<AmountInput>): (ids: seq<Id>)
    ensures |ids| == |items|
    ensures forall i :: 0 <= i < |items| ==> ids[i] == items[i].id
  {
    seq(|items|, i requires 0 <= i < |items| => items[i].id)
  }

  // ---------------------------------------------------------------------------
  // Tags

  /**
   * Why a tag list is refused: an id that names no tag (the related field
   * stops at the first such id), an empty list, or a repeated tag.
   * `TagOverflow` is no validation error: looking up an id SQLite cannot bind
   * raises OverflowError, which the related field does not catch, so the
   * request ends in a server error.
   */
  datatype TagListError = UnknownTag(tag: Id) | NoTags | DuplicateTags | TagOverflow(tag: Id)

  /** Every id names a tag, and SQLite can look each one up. */
  predicate KnownTags(tags: map<Id, TagData>, ids: seq<Id>) {
    forall i :: 0 <= i < |ids| ==> ids[i] in tags && Bindable(ids[i])
  }

  /**
   * The index of the first id the related field stops at: one SQLite cannot
   * bind, or one that names no tag.
   */
  function FirstTagStop(tags: map<Id, TagData>, ids: seq<Id>): (r: Option<nat>)
    ensures r.Some? ==> r.value < |ids| && (ids[r.value] !in tags || !Bindable(ids[r.value]))
    ensures r.Some? ==> forall j :: 0 <= j < r.value ==> ids[j] in tags && Bindable(ids[j])
    ensures r.None? <==> KnownTags(tags, ids)
  {
    if |ids| == 0 then None
    else if !Bindable(ids[0]) || ids[0] !in tags then Some(0)
    else match FirstTagStop(tags, ids[1..])
      case None => None
      case Some(i) => Some(i + 1)
  }

  /** The related field reaches an id SQLite cannot bind before any id that names no tag. */
  ghost predicate TagLookupOverflows(tags: map<Id, TagData>, ids: seq<Id>) {
    exists i :: 0 <= i < |ids| && !Bindable(ids[i]) && KnownTags(tags, ids[..i])
  }

  /** The lookup overflows exactly when the first id the field stops at is one SQLite cannot bind. */
  lemma StopDecidesOverflow(tags: map<Id, TagData>, ids: seq<Id>)
    ensures TagLookupOverflows(tags, ids) <==>
      FirstTagStop(tags, ids).Some? && !Bindable(ids[FirstTagStop(tags, ids).value])
  {
    var s := FirstTagStop(tags, ids);
    if TagLookupOverflows(tags, ids) {
      var i :| 0 <= i < |ids| && !Bindable(ids[i]) && KnownTags(tags, ids[..i]);
      assert forall j :: 0 <= j < i ==> ids[..i][j] == ids[j];
    } else if s.Some? && !Bindable(ids[s.value]) {
      assert KnownTags(tags, ids[..s.value]);
    }
  }

  /** The related field first, then `validate_tags`: at least one tag, none repeated. */
  function ValidateTags(db: Db, ids: seq<Id>): (r: Result<seq<Id>, TagListError>)
    ensures r.Ok? <==> |ids| > 0 && KnownTags(db.tags, ids) && Distinct(ids)
    ensures r.Ok? ==> r.value == ids
    ensures r.Err? && r.error.TagOverflow? <==> TagLookupOverflows(db.tags, ids)
    ensures r.Err? && r.error.TagOverflow? ==> !Bindable(r.error.tag) && r.error.tag in ids
    ensures r.Err? && (r.error.UnknownTag? || r.error.TagOverflow?) <==> !KnownTags(db.tags, ids)
    ensures r.Err? && r.error.UnknownTag? ==> r.error.tag !in db.tags && Bindable(r.error.tag) && r.error.tag in ids
    ensures r == Err(NoTags) <==> |ids| == 0
    ensures r == Err(DuplicateTags) <==> |ids| > 0 && KnownTags(db.tags, ids) && !Distinct(ids)
  {
    SameSizeAsSetIffDistinct(ids);
    StopDecidesOverflow(db.tags, ids);
    match FirstTagStop(db.tags, ids)
    case Some(i) =>
      if Bindable(ids[i]) then Err(UnknownTag(ids[i])) else Err(TagOverflow(ids[i]))
    case None =>
      if |ids| == 0 then Err(NoTags)
      else if !SameSizeAsSet(ids) then Err(DuplicateTags)
      else Ok(ids)
  }

  // ---------------------------------------------------------------------------
  // Ingredient amounts

  /**
   * What is wrong with one entry. `IdOverflow` is no validation error: the
   * query `validate_id` makes for an id SQLite cannot bind raises
   * OverflowError, which DRF does not catch, so the request ends in a server
   * error and the entry's other checks never report.
   */
  datatype ItemProblem = UnknownIngredient | AmountBelowOne | IdOverflow

  /** The amount-input serializer: the id must name an ingredient, the amount must be at least 1. */
  function AmountInputProblems(db: Db, item: AmountInput): (r: set<ItemProblem>)
    ensures IdOverflow in r <==> !Bindable(item.id)
    ensures IdOverflow in r ==> r == {IdOverflow}
    ensures UnknownIngredient in r <==> Bindable(item.id) && item.id !in db.ingredients
    ensures AmountBelowOne in r <==> Bindable(item.id) && item.amount < 1
    ensures r == {} <==> Bindable(item.id) && item.id in db.ingredients && item.amount >= 1
  {
    if !Bindable(item.id) then {IdOverflow}
    else
      (if item.id in db.ingredients then {} else {UnknownIngredient})
      + (if item.amount < 1 then {AmountBelowOne} else {})
  }

  predicate ItemsValid(db: Db, items: seq<AmountInput>) {
    forall i :: 0 <= i < |items| ==> AmountInputProblems(db, items[i]) == {}
  }

  /** Some entry's id is one SQLite cannot bind; the list serializer reaches every entry. */
  predicate IngredientLookupOverflows(items: seq<AmountInput>) {
    exists i :: 0 <= i < |items| && !Bindable(items[i].id)
  }

  /**
   * Why an ingredient list is refused: problems with single entries (keyed by
   * position, every faulty entry reported), an empty list, or an id given
   * twice. `IngredientOverflow` stands for the server error an entry with an
   * id SQLite cannot bind causes.
   */
  datatype IngredientListError =
    | InvalidItems(problems: map<nat, set<ItemProblem>>)
    | NoIngredients
    | DuplicateIngredients
    | IngredientOverflow

  function ItemProblems(db: Db, items: seq<AmountInput>): (m: map<nat, set<ItemProblem>>)
    ensures forall i: nat :: i in m <==> i < |items| && AmountInputProblems(db, items[i]) != {}
    ensures forall i | i in m :: m[i] == AmountInputProblems(db, items[i])
  {
    map i: nat | i < |items| && AmountInputProblems(db, items[i]) != {} :: AmountInputProblems(db, items[i])
  }

  /** Every entry first, then `validate_ingredients`: at least one entry, no id twice. */
  function ValidateIngredients(db: Db, items: seq<AmountInput>): (r: Result<seq<AmountInput>, IngredientListError>)
    ensures r.Ok? <==> |items| > 0 && ItemsValid(db, items) && Distinct(Ids(items))
    ensures r.Ok? ==> r.value == items
    ensures r == Err(IngredientOverflow) <==> IngredientLookupOverflows(items)
    ensures r.Err? && r.error.InvalidItems? <==> !ItemsValid(db, items) && !IngredientLookupOverflows(items)
    ensures r.Err? && r.error.InvalidItems? ==> r.error.problems == ItemProblems(db, items) && |r.error.problems| > 0
    ensures r == Err(NoIngredients) <==> |items| == 0
    ensures r == Err(DuplicateIngredients) <==>
      |items| > 0 && ItemsValid(db, items) && !Distinct(Ids(items))
  {
    SameSizeAsSetIffDistinct(Ids(items));
    var problems := ItemProblems(db, items);
    if exists i :: 0 <= i < |items| && !Bindable(items[i].id) then
      var i :| 0 <= i < |items| && !Bindable(items[i].id);
      assert AmountInputProblems(db, items[i]) != {};
      Err(IngredientOverflow)
    else if !ItemsValid(db, items) then
      var i :| 0 <= i < |items| && AmountInputProblems(db, items[i]) != {};
      assert i in problems;
      Err(InvalidItems(problems))
    else
      assert problems == map[];
      if |items| == 0 then Err(NoIngredients)
      else if !SameSizeAsSet(Ids(items)) then Err(DuplicateIngredients)
      else Ok(items)
  }

  /** Two entries with the same id are refused whatever their amounts. */
  lemma SameIngredientTwiceRejected(db: Db, items: seq<AmountInput>, i: nat, j: nat)
    requires ItemsValid(db, items)
    requires i < j < |items| && items[i].id == items[j].id
    ensures ValidateIngredients(db, items) == Err(DuplicateIngredients)
  {
    assert Ids(items)[i] == Ids(items)[j];
  }

  // ---------------------------------------------------------------------------
  // The whole payload

  /** The writable fields the model covers; each may be missing from the request. */
  datatype RecipeInput = RecipeInput(
    title: Option<string>,
    cookingTime: Option<int>,
    tags: Option<seq<Id>>,
    ingredients: Option<seq<AmountInput>>)

  datatype RecipeField = TitleField | CookingTimeField | TagsField | IngredientsField

  datatype FieldIssue =
    | Required
    | OutOfRange
    | BadTags(tagError: TagListError)
    | BadIngredients(ingredientError: IngredientListError)

  /**
   * What is wrong with one field. A missing field is an error unless the
   * update is partial; the cooking time has the small-integer column's range.
   */
  function Issue(db: Db, p: RecipeInput, partial: bool, f: RecipeField): Option<FieldIssue> {
    match f
    case TitleField =>
      if p.title.None? && !partial then Some(Required) else None
    case CookingTimeField =>
      if p.cookingTime.None? then (if partial then None else Some(Required))
      else if 0 <= p.cookingTime.value <= SmallIntMax then None
      else Some(OutOfRange)
    case TagsField =>
      if p.tags.None? then (if partial then None else Some(Required))
      else (match ValidateTags(db, p.tags.value)
        case Ok(_) => None
        case Err(e) => Some(BadTags(e)))
    case IngredientsField =>
      if p.ingredients.None? then (if partial then None else Some(Required))
      else (match ValidateIngredients(db, p.ingredients.value)
        case Ok(_) => None
        case Err(e) => Some(BadIngredients(e)))
  }

  const AllFields: set<RecipeField> := {TitleField, CookingTimeField, TagsField, IngredientsField}

  lemma AllFieldsComplete()
    ensures forall f: RecipeField :: f in AllFields
  {
    forall f: RecipeField
      ensures f in AllFields
    {
      match f
      case TitleField =>
      case CookingTimeField =>
      case TagsField =>
      case IngredientsField =>
    }
  }

  /** A payload every field of which is acceptable. */
  predicate PayloadValid(db: Db, p: RecipeInput, partial: bool) {
    && Issue(db, p, partial, TitleField).None?
    && Issue(db, p, partial, CookingTimeField).None?
    && Issue(db, p, partial, TagsField).None?
    && Issue(db, p, partial, IngredientsField).None?
  }

  /** A supplied list makes a lookup of an id SQLite cannot bind. */
  ghost predicate LookupOverflows(db: Db, p: RecipeInput) {
    || (p.tags.Some? && TagLookupOverflows(db.tags, p.tags.value))
    || (p.ingredients.Some? && IngredientLookupOverflows(p.ingredients.value))
  }

  /** The same, read off the two list validations. */
  predicate ListsOverflow(db: Db, p: RecipeInput)
    ensures ListsOverflow(db, p) <==> LookupOverflows(db, p)
  {
    || (p.tags.Some? && ValidateTags(db, p.tags.value).Err? && ValidateTags(db, p.tags.value).error.TagOverflow?)
    || (p.ingredients.Some? && ValidateIngredients(db, p.ingredients.value) == Err(IngredientOverflow))
  }

  /**
   * `is_valid`: the payload unchanged, or the issue of every faulty field at
   * once; a lookup that overflows ends the request in a server error instead.
   */
  function ValidatePayload(db: Db, p: RecipeInput, partial: bool)
    : (r: Result<RecipeInput, Refusal<map<RecipeField, FieldIssue>>>)
    ensures r.Ok? <==> PayloadValid(db, p, partial)
    ensures r.Ok? ==> r.value == p
    ensures r == Err(ServerError) <==> LookupOverflows(db, p)
    ensures r.Err? && r.error.Invalid? ==> |r.error.errors| > 0
    ensures r.Err? && r.error.Invalid? ==> forall f :: f in r.error.errors <==> Issue(db, p, partial, f).Some?
    ensures r.Err? && r.error.Invalid? ==>
      forall f | f in r.error.errors :: r.error.errors[f] == Issue(db, p, partial, f).value
  {
    var errors := map f | f in AllFields && Issue(db, p, partial, f).Some? :: Issue(db, p, partial, f).value;
    AllFieldsComplete();
    if ListsOverflow(db, p) then
      Err(ServerError)
    else if PayloadValid(db, p, partial) then
      Ok(p)
    else
      assert TitleField in errors || CookingTimeField in errors || TagsField in errors || IngredientsField in errors;
      Err(Invalid(errors))
  }

  /** What a valid payload guarantees about each of its fields. */
  ghost predicate Acceptable(db: Db, p: RecipeInput) {
    && (p.cookingTime.Some? ==> 0 <= p.cookingTime.value <= SmallIntMax)
    && (p.tags.Some? ==> var ts := p.tags.value; |ts| > 0 && Distinct(ts) && KnownTags(db.tags, ts))
    && (p.ingredients.Some? ==> var items := p.ingredients.value;
          |items| > 0 && ItemsValid(db, items) && Distinct(Ids(items)))
  }

  /** A valid payload has acceptable fields and, unless partial, all of them. */
  lemma ValidPayloadIsAcceptable(db: Db, p: RecipeInput, partial: bool)
    requires ValidatePayload(db, p, partial).Ok?
    ensures Acceptable(db, p)
    ensures !partial ==> p.title.Some? && p.cookingTime.Some? && p.tags.Some? && p.ingredients.Some?
  {
    assert Issue(db, p, partial, TagsField).None?;
    assert Issue(db, p, partial, IngredientsField).None?;
  }

  /** Conversely, any payload with acceptable fields passes, and a partial one needs no field at all. */
  lemma AcceptablePayloadIsValid(db: Db, p: RecipeInput, partial: bool)
    requires Acceptable(db, p)
    requires !partial ==> p.title.Some? && p.cookingTime.Some? && p.tags.Some? && p.ingredients.Some?
    ensures ValidatePayload(db, p, partial) == Ok(p)
  {
  }

  /** A create request with nothing in it gets `Required` for every field; a partial update does not. */
  lemma EmptyPayload(db: Db)
    ensures var none := RecipeInput(None, None, None, None);
      && ValidatePayload(db, none, true) == Ok(none)
      && ValidatePayload(db, none, false) ==
         Err(Invalid(map[TitleField := Required, CookingTimeField := Required, TagsField := Required, IngredientsField := Required]))
  {
    var none := RecipeInput(None, None, None, None);
    var r := ValidatePayload(db, none, false);
    assert r.Err? && r.error.Invalid?;
    var expected := map[TitleField := Required, CookingTimeField := Required, TagsField := Required, IngredientsField := Required];
    assert forall f :: f in r.error.errors <==> f in expected;
    assert r.error.errors == expected;
  }

  /**
   * An empty list is refused even in a partial update: supplying a list means
   * supplying a non-empty one. Unless the other list overflows a lookup, the
   * refusal names the empty list.
   */
  lemma EmptyListsRefused(db: Db, p: RecipeInput, partial: bool)
    requires p.tags == Some([]) || p.ingredients == Some([])
    ensures ValidatePayload(db, p, partial).Err?
    ensures !LookupOverflows(db, p) ==> ValidatePayload(db, p, partial).error.Invalid?
    ensures p.tags == Some([]) && !LookupOverflows(db, p) ==>
      ValidatePayload(db, p, partial).error.errors[TagsField] == BadTags(NoTags)
    ensures p.ingredients == Some([]) && !LookupOverflows(db, p) ==>
      ValidatePayload(db, p, partial).error.errors[IngredientsField] == BadIngredients(NoIngredients)
  {
  }

  /**
   * A tag id SQLite cannot bind, reached before any unknown id, ends the
   * request in a server error whatever else the payload holds.
   */
  lemma TagOverflowIsServerError(db: Db, p: RecipeInput, partial: bool, k: nat)
    requires p.tags.Some? && k < |p.tags.value| && !Bindable(p.tags.value[k])
    requires KnownTags(db.tags, p.tags.value[..k])
    ensures ValidatePayload(db, p, partial) == Err(ServerError)
  {
    assert TagLookupOverflows(db.tags, p.tags.value);
  }

  /** An ingredient id SQLite cannot bind, at any position, ends the request in a server error. */
  lemma IngredientOverflowIsServerError(db: Db, p: RecipeInput, partial: bool, k: nat)
    requires p.ingredients.Some? && k < |p.ingredients.value| && !Bindable(p.ingredients.value[k].id)
    ensures ValidatePayload(db, p, partial) == Err(ServerError)
  {
    assert IngredientLookupOverflows(p.ingredients.value);
  }

  /** The id 2^63 in a tag list, as the first entry, is one SQLite refuses to bind. */
  lemma FirstTagTooLarge(db: Db, p: RecipeInput, partial: bool)
    requires p.tags.Some? && |p.tags.value| > 0 && p.tags.value[0] == SqliteIntMax + 1
    ensures ValidatePayload(db, p, partial) == Err(ServerError)
  {
    TagOverflowIsServerError(db, p, partial, 0);
  }

  // ---------------------------------------------------------------------------
  // Join rows

  /** One tag row per listed tag. */
  function TagRows(recipe: Id, ids: seq<Id>): (rows: set<RecipeTag>)
    ensures forall x :: x in rows <==> x.recipe == recipe && x.tag in ids
  {
    set t | t in ids :: RecipeTag(recipe, t)
  }

  /** One amount row per entry, carrying that entry's amount. */
  function AmountRows(recipe: Id, items: seq<AmountInput>): (rows: set<Amount>)
    ensures forall i :: 0 <= i < |items| ==> Amount(recipe, items[i].id, items[i].amount) in rows
    ensures forall x | x in rows ::
      x.recipe == recipe && exists i :: 0 <= i < |items| && items[i] == AmountInput(x.ingredient, x.amount)
    decreases |items|
  {
    if |items| == 0 then {}
    else
      var rest := AmountRows(recipe, items[1..]);
      assert forall i :: 1 <= i < |items| ==> items[1..][i - 1] == items[i];
      {Amount(recipe, items[0].id, items[0].amount)} + rest
  }

  /** A recipe's tag rows in a store. */
  function TagRowsOf(db: Db, recipe: Id): set<RecipeTag> {
    set x | x in db.recipeTags && x.recipe == recipe
  }

  /** A recipe's amount rows in a store. */
  function AmountRowsOf(db: Db, recipe: Id): set<Amount> {
    set x | x in db.amounts && x.recipe == recipe
  }

  /** A list without repeats yields as many rows as it has tags. */
  lemma {:induction false} TagRowsCount(recipe: Id, ids: seq<Id>)
    requires Distinct(ids)
    ensures |TagRows(recipe, ids)| == |ids|
    decreases |ids|
  {
    if |ids| > 0 {
      var rest := ids[1..];
      TagRowsCount(recipe, rest);
      assert TagRows(recipe, ids) == {RecipeTag(recipe, ids[0])} + TagRows(recipe, rest) by {
        assert forall t :: t in ids <==> t == ids[0] || t in rest;
      }
      assert ids[0] !in rest by {
        forall k | 0 <= k < |rest| ensures rest[k] != ids[0] {
          assert rest[k] == ids[k + 1];
        }
      }
    }
  }

  /** Entries with distinct ids yield one row each, and no two rows share an ingredient. */
  lemma {:induction false} AmountRowsCount(recipe: Id, items: seq<AmountInput>)
    requires Distinct(Ids(items))
    ensures |AmountRows(recipe, items)| == |items|
    ensures AmountPairsUnique(AmountRows(recipe, items))
    decreases |items|
  {
    if |items| > 0 {
      var rest := items[1..];
      DistinctTail(items);
      AmountRowsCount(recipe, rest);
      FirstIdNotInRest(recipe, items);
      AddAmountRow(Amount(recipe, items[0].id, items[0].amount), AmountRows(recipe, rest));
    }
  }

  /** A row whose ingredient no other row has grows the set by one and keeps the pairs unique. */
  lemma AddAmountRow(a: Amount, rows: set<Amount>)
    requires AmountPairsUnique(rows)
    requires forall x | x in rows :: x.ingredient != a.ingredient
    ensures |{a} + rows| == |rows| + 1
    ensures AmountPairsUnique({a} + rows)
  {
    assert a !in rows;
  }

  lemma DistinctTail(items: seq<AmountInput>)
    requires |items| > 0 && Distinct(Ids(items))
    ensures Distinct(Ids(items[1..]))
  {
    var rest := items[1..];
    forall i, j | 0 <= i < j < |rest| ensures Ids(rest)[i] != Ids(rest)[j] {
      assert Ids(items)[i + 1] != Ids(items)[j + 1];
    }
  }

  lemma FirstIdNotInRest(recipe: Id, items: seq<AmountInput>)
    requires |items| > 0 && Distinct(Ids(items))
    ensures forall x | x in AmountRows(recipe, items[1..]) :: x.ingredient != items[0].id
  {
    var rest := items[1..];
    forall x | x in AmountRows(recipe, rest)
      ensures x.ingredient != items[0].id
    {
      var k :| 0 <= k < |rest| && rest[k] == AmountInput(x.ingredient, x.amount);
      assert Ids(items)[k + 1] != Ids(items)[0];
    }
  }

  // ---------------------------------------------------------------------------
  // Writes

  /** The store outside one recipe's rows is the same in both stores. */
  ghost predicate OtherRowsKept(db: Db, r: Db, recipe: Id) {
    && (forall x: RecipeTag :: x.recipe != recipe ==> (x in r.recipeTags <==> x in db.recipeTags))
    && (forall x: Amount :: x.recipe != recipe ==> (x in r.amounts <==> x in db.amounts))
    && r.users == db.users && r.tags == db.tags && r.ingredients == db.ingredients
    && r.favorites == db.favorites && r.cart == db.cart && r.follows == db.follows
  }

  /** Deletes a recipe's tag rows and adds `rows` in their place. */
  function WithTagRows(all: set<RecipeTag>, recipe: Id, rows: set<RecipeTag>): (r: set<RecipeTag>)
    requires forall x | x in rows :: x.recipe == recipe
    ensures (set x | x in r && x.recipe == recipe) == rows
    ensures forall x: RecipeTag :: x.recipe != recipe ==> (x in r <==> x in all)
  {
    (set x | x in all && x.recipe != recipe) + rows
  }

  /** Deletes a recipe's amount rows and adds `rows` in their place. */
  function WithAmountRows(all: set<Amount>, recipe: Id, rows: set<Amount>): (r: set<Amount>)
    requires forall x | x in rows :: x.recipe == recipe
    ensures (set x | x in r && x.recipe == recipe) == rows
    ensures forall x: Amount :: x.recipe != recipe ==> (x in r <==> x in all)
  {
    (set x | x in all && x.recipe != recipe) + rows
  }

  /**
   * Storing a recipe whose data and rows meet the constraints keeps the store
   * well formed.
   */
  lemma PutRecipeKeepsWf(db: Db, recipe: Id, data: RecipeData, tagRows: set<RecipeTag>, amountRows: set<Amount>)
    requires Wf(db)
    requires data.author in db.users && 0 <= data.cookingTime <= SmallIntMax
    requires forall x | x in tagRows :: x.recipe == recipe && x.tag in db.tags
    requires forall x | x in amountRows :: x.recipe == recipe && x.ingredient in db.ingredients
    requires AmountPairsUnique(amountRows)
    ensures Wf(db.(
      recipes := db.recipes[recipe := data],
      recipeTags := WithTagRows(db.recipeTags, recipe, tagRows),
      amounts := WithAmountRows(db.amounts, recipe, amountRows)))
  {
    var r := db.(
      recipes := db.recipes[recipe := data],
      recipeTags := WithTagRows(db.recipeTags, recipe, tagRows),
      amounts := WithAmountRows(db.amounts, recipe, amountRows));
    assert RecipesWf(r);
    assert RecipeTagsWf(r);
    assert AmountPairsUnique(r.amounts) by {
      forall a, b | a in r.amounts && b in r.amounts && a.recipe == b.recipe && a.ingredient == b.ingredient
        ensures a == b
      {
        if a.recipe != recipe {
          assert a in db.amounts && b in db.amounts;
        }
      }
    }
    assert AmountsWf(r);
    assert MembershipWf(r);
  }

  /** Putting back a recipe's own rows changes nothing. */
  lemma OwnRowsUnchanged(db: Db, recipe: Id)
    ensures WithTagRows(db.recipeTags, recipe, TagRowsOf(db, recipe)) == db.recipeTags
    ensures WithAmountRows(db.amounts, recipe, AmountRowsOf(db, recipe)) == db.amounts
  {
  }

  /**
   * `create`: stores the recipe under the id the database hands out, then one
   * tag row per listed tag and one amount row per entry.
   */
  function CreateRecipe(db: Db, author: Id, newId: Id, now: int, p: RecipeInput): (r: Db)
    requires Wf(db) && author in db.users && newId !in db.recipes
    requires ValidatePayload(db, p, false).Ok?
    ensures Wf(r)
    ensures r.recipes == db.recipes[newId := RecipeData(author, p.title.value, p.cookingTime.value, now)]
    ensures TagRowsOf(r, newId) == TagRows(newId, p.tags.value)
    ensures |TagRowsOf(r, newId)| == |p.tags.value|
    ensures AmountRowsOf(r, newId) == AmountRows(newId, p.ingredients.value)
    ensures |AmountRowsOf(r, newId)| == |p.ingredients.value|
    ensures OtherRowsKept(db, r, newId)
  {
    ValidPayloadIsAcceptable(db, p, false);
    var data := RecipeData(author, p.title.value, p.cookingTime.value, now);
    var tagRows := TagRows(newId, p.tags.value);
    var amountRows := AmountRows(newId, p.ingredients.value);
    TagRowsCount(newId, p.tags.value);
    AmountRowsCount(newId, p.ingredients.value);
    PutRecipeKeepsWf(db, newId, data, tagRows, amountRows);
    db.(
      recipes := db.recipes[newId := data],
      recipeTags := WithTagRows(db.recipeTags, newId, tagRows),
      amounts := WithAmountRows(db.amounts, newId, amountRows))
  }

  /** The row counts of the lists a payload supplies. */
  lemma SuppliedRowsCount(recipe: Id, p: RecipeInput)
    requires p.tags.Some? ==> Distinct(p.tags.value)
    requires p.ingredients.Some? ==> Distinct(Ids(p.ingredients.value))
    ensures p.tags.Some? ==> |TagRows(recipe, p.tags.value)| == |p.tags.value|
    ensures p.ingredients.Some? ==> |AmountRows(recipe, p.ingredients.value)| == |p.ingredients.value|
    ensures p.ingredients.Some? ==> AmountPairsUnique(AmountRows(recipe, p.ingredients.value))
  {
    if p.tags.Some? {
      TagRowsCount(recipe, p.tags.value);
    }
    if p.ingredients.Some? {
      AmountRowsCount(recipe, p.ingredients.value);
    }
  }

  /** `if tags:` — a list was supplied and is not empty. */
  predicate Supplied<T>(list: Option<seq<T>>) {
    list.Some? && |list.value| > 0
  }

  /** The recipe's data after `update` has set the supplied fields. */
  function UpdatedData(prev: RecipeData, p: RecipeInput): (data: RecipeData)
    ensures data.author == prev.author && data.created == prev.created
    ensures data.title == if p.title.Some? then p.title.value else prev.title
    ensures data.cookingTime == if p.cookingTime.Some? then p.cookingTime.value else prev.cookingTime
  {
    prev.(
      title := if p.title.Some? then p.title.value else prev.title,
      cookingTime := if p.cookingTime.Some? then p.cookingTime.value else prev.cookingTime)
  }

  /**
   * `update`: sets the supplied fields and, for each supplied association
   * list, deletes the recipe's rows of that kind and writes the new ones.
   */
  function UpdateRecipe(db: Db, recipe: Id, p: RecipeInput, partial: bool): (r: Db)
    requires Wf(db) && recipe in db.recipes
    requires ValidatePayload(db, p, partial).Ok?
    ensures Wf(r)
    ensures r.recipes == db.recipes[recipe := UpdatedData(db.recipes[recipe], p)]
    ensures Supplied(p.tags) ==> TagRowsOf(r, recipe) == TagRows(recipe, p.tags.value)
    ensures Supplied(p.tags) ==> |TagRowsOf(r, recipe)| == |p.tags.value|
    ensures !Supplied(p.tags) ==> r.recipeTags == db.recipeTags
    ensures Supplied(p.ingredients) ==> AmountRowsOf(r, recipe) == AmountRows(recipe, p.ingredients.value)
    ensures Supplied(p.ingredients) ==> |AmountRowsOf(r, recipe)| == |p.ingredients.value|
    ensures !Supplied(p.ingredients) ==> r.amounts == db.amounts
    ensures OtherRowsKept(db, r, recipe)
  {
    ValidPayloadIsAcceptable(db, p, partial);
    var data := UpdatedData(db.recipes[recipe], p);
    var tagRows := if Supplied(p.tags) then TagRows(recipe, p.tags.value) else TagRowsOf(db, recipe);
    var amountRows :=
      if Supplied(p.ingredients) then AmountRows(recipe, p.ingredients.value) else AmountRowsOf(db, recipe);
    SuppliedRowsCount(recipe, p);
    OwnRowsUnchanged(db, recipe);
    PutRecipeKeepsWf(db, recipe, data, tagRows, amountRows);
    db.(
      recipes := db.recipes[recipe := data],
      recipeTags := if Supplied(p.tags) then WithTagRows(db.recipeTags, recipe, tagRows) else db.recipeTags,
      amounts := if Supplied(p.ingredients) then WithAmountRows(db.amounts, recipe, amountRows) else db.amounts)
  }

  /** In a valid payload a list is supplied exactly when it is present, since an empty one is refused. */
  lemma PresentListsAreSupplied(db: Db, p: RecipeInput, partial: bool)
    requires ValidatePayload(db, p, partial).Ok?
    ensures Supplied(p.tags) <==> p.tags.Some?
    ensures Supplied(p.ingredients) <==> p.ingredients.Some?
  {
    ValidPayloadIsAcceptable(db, p, partial);
  }

  /** Creating a recipe and then deleting it gives back the store it started from. */
  lemma CreateThenDelete(db: Db, author: Id, newId: Id, now: int, p: RecipeInput)
    requires Wf(db) && author in db.users && newId !in db.recipes
    requires ValidatePayload(db, p, false).Ok?
    ensures DeleteRecipe(CreateRecipe(db, author, newId, now, p), newId) == db
  {
    var c := CreateRecipe(db, author, newId, now, p);
    CreatedRecipeOnly(db, author, newId, now, p);
    DeleteFreshRecipe(db, c, newId);
  }

  /** What `CreateRecipe` adds is the one recipe and its own rows. */
  lemma CreatedRecipeOnly(db: Db, author: Id, newId: Id, now: int, p: RecipeInput)
    requires Wf(db) && author in db.users && newId !in db.recipes
    requires ValidatePayload(db, p, false).Ok?
    ensures var c := CreateRecipe(db, author, newId, now, p);
      Wf(c) && OtherRowsKept(db, c, newId) && c.recipes - {newId} == db.recipes
  {
    var c := CreateRecipe(db, author, newId, now, p);
    assert c.recipes == db.recipes[newId := c.recipes[newId]];
  }

  /**
   * Deleting a recipe the store did not hold before, from a store that
   * otherwise agrees with it, gives back the earlier store.
   */
  lemma DeleteFreshRecipe(db: Db, c: Db, recipe: Id)
    requires Wf(db) && Wf(c) && recipe !in db.recipes
    requires c.recipes - {recipe} == db.recipes
    requires OtherRowsKept(db, c, recipe)
    ensures DeleteRecipe(c, recipe) == db
  {
    var d := DeleteRecipe(c, recipe);
    assert d.recipeTags == db.recipeTags by {
      forall x ensures x in d.recipeTags <==> x in db.recipeTags {
        if x in db.recipeTags {
          assert x.recipe in db.recipes;
        }
      }
    }
    assert d.amounts == db.amounts by {
      forall x ensures x in d.amounts <==> x in db.amounts {
        if x in db.amounts {
          assert x.recipe in db.recipes;
        }
      }
    }
    assert d.favorites == db.favorites by {
      forall x ensures x in d.favorites <==> x in db.favorites {
        if x in db.favorites {
          assert x.recipe in db.recipes;
        }
      }
    }
    assert d.cart == db.cart by {
      forall x ensures x in d.cart <==> x in db.cart {
        if x in db.cart {
          assert x.recipe in db.recipes;
        }
      }
    }
  }
}
