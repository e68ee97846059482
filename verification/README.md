# Foodgram API core in Dafny

A model of the rule-bearing core of the foodgram recipe-sharing REST API, a
Django / Django REST Framework back end. It covers the following parts.

- **Custom serializer fields.**
  - The strict `"1"`/`"0"` flag field.
  - The non-negative integer field, including what Python's `int()` accepts: the surrounding whitespace it skips (a narrower set than `str.strip()` removes), a sign, underscores and the 4300-digit limit.
  - The file extension the base64 image field takes from a `data:image/...;base64,...` upload.
- **Validators.** The hex-colour validator, including the way Python's `$` also matches before a final newline. The case-insensitive reserved-username validator and the users app's constants.
- **The `IsAdminOrReadOnly` permission.**
- **The relational store.** Rows of tags, ingredients, recipes, recipe–tag and recipe–ingredient join rows, favourites, cart items and follows. The well-formedness predicate `Schema.Wf` collects the constraints of the applied migration: unique keys, foreign keys, the non-negative cooking time and no self-follow. The upper bound of 32767 on the cooking time is not a database constraint: the database is SQLite (`backend/backend/settings.py:67`), where the column carries only the `>= 0` CHECK. The bound comes from the `max_value` of the serializer field that DRF derives from the model's PositiveSmallIntegerField (`backend/recipes/models.py:96`). `Wf` includes it because every modelled write passes through that serializer. It also covers the cart table, whose constraints are an assumption (see below). Inserts, deletes and cascading deletes all preserve `Schema.Wf`. An author's recipes are listed by title, as `Recipe.Meta` orders them.
- **The serializers.**
  - The query-parameter serializer.
  - The recipe payload validation: known tags, ingredient entries with amount at least 1, non-empty and duplicate-free lists, required fields and the cooking-time range.
  - The join rows that `create` and `update` write.
  - The per-user flags `is_favorited`, `is_in_shopping_cart` and `is_subscribed`.
  - The `recipes_limit` cut of an author's recipe list.
  - The password-change check, including absent, null, blank and null-character fields.
- **The `__str__` templates of the join models**, and when those strings can be read back.

## Modelling notes

Everything is a pure function on immutable values. Validation outcomes are `Result`/`Outcome`/`Refusal` values, so every refused input of a modelled field is a modelled error path rather than an excluded one. The recipe title is the exception: its CharField checks are not modelled (see "Left out"). The recipe payload is typed: JSON shape errors, such as a missing or non-integer entry field or a tags value that is not a list, are listed under "Left out".

Framework behaviour the code relies on is modelled explicitly:

- DRF runs each field's conversion before its `validate_<field>` hook.
- A many-related primary-key field stops at the first unknown id, while a nested list serializer reports every faulty entry by position.
- Errors are collected per field.
- `CharField` does the following before any `validate_<field>` hook runs:
  - an absent required field gets "required", and null gets "may not be null";
  - blank text is refused and surrounding whitespace is trimmed;
  - text holding a null character is refused.
- `update` runs with a `partial` flag that decides whether missing fields are required.
- `if tags:` is Python truthiness, so a present but empty list counts as not supplied.
- The database is SQLite, whose integers are signed 64-bit values (`Schema.Bindable`). Two errors that follow from this are not caught by DRF, so they end the request in a server error (`Refusal.ServerError`):
  - a tag or ingredient id outside that range makes the lookup's query parameter overflow;
  - a `recipes_limit` beyond 2^63 - 1 is written into the SQL `LIMIT`, which SQLite refuses.

Timestamps, the new recipe's id, and the password checks are parameters:

- `now` and `created` carry the timestamps;
- `newId` is the id the database hands out;
- `checkPassword` and `strongEnough` stand for the stored-hash check and the password validators.

Facts about the code that the model follows:

- `cooking_time` is a PositiveSmallIntegerField and the serializer adds no minimum, so 0 is accepted. The model takes the range 0..32767 (`Schema.SmallIntMax`).
- Re-adding an existing favourite, cart item or follow hits the unique constraint. `Schema.InsertFavorite` and its siblings report `UniqueViolation` for an existing pair.
- `backend/recipes/migrations/0001_initial.py` makes ingredients unique on (title, measurement unit), while `backend/recipes/models.py` declares a unique title.
  - `Schema.Wf` uses the migration's rule.
  - `Schema.IngredientTitlesUnique` is the models.py rule, and `Schema.TitleUniqueImpliesPairUnique` relates the two.
- The migration gives recipes the ordering `-created`, but queries use the model class's `Meta`. `Recipe.Meta` inherits `("title",)` from `WithTitle.Meta` (`backend/recipes/models.py:33-35,124`). So `author.recipes.all()` lists by title, and `recipes_limit` keeps the alphabetically first recipes.
- `backend/api/serializers.py` reads and writes an integer `amount` on the recipe–ingredient row, while `backend/recipes/models.py` declares a float `quantity`. The model uses the integer amount.
- `backend/api/serializers.py` uses `name`/`text` where `backend/recipes/models.py` has `title`/`description`. The model has a single title field.
- No model or migration among the modelled files defines the shopping-cart table. Its only trace is `user.cart.filter(recipe=obj)` in `backend/api/serializers.py:188`. The model assumes it mirrors the favourites table:
  - foreign keys to the user and the recipe, both cascading;
  - a unique (user, recipe) pair.

## Model

| member | source | states |
|---|---|---|
| Fields.ParseFlag | backend/api/fields.py:41-50 | exactly "1" gives true and exactly "0" gives false; every other text is the NotFlag error |
| Fields.FlagRoundTrip | backend/api/fields.py:45-49 | rendering a flag as "1"/"0" and parsing it gives the flag back |
| Fields.FlagParsesOnlyRenderings | backend/api/fields.py:45-50 | any text that parses is the rendering of the value it parses to |
| Fields.FlagRejectsLookalikes | backend/api/fields.py:50 | "true", " 1", "", "01" and "1 " are refused |
| Fields.ParseNatural | backend/api/fields.py:27-38 | success exactly when Python's `int()` accepts the text with a value >= 0, and then that value. `int()` skips only its own whitespace (`Text.IsIntSpace`: not U+001C to U+001F). Every failure is NotNaturalNumber |
| Fields.NaturalRoundTrip | backend/api/fields.py:31-38 | the decimal rendering of any n >= 0 within the digit limit parses back to n |
| Fields.NegativeRejected | backend/api/fields.py:36-38 | "-" before the rendering of n > 0 is refused, while "-0" parses to 0 |
| Fields.NegatedDecimal | backend/api/fields.py:32-33 | `int()` reads "-" before the rendering of n as -n |
| Fields.ForeignCharacterRejected | backend/api/fields.py:32-35 | any character that is not `int()` whitespace, a digit, a sign or an underscore makes the parse fail. This includes U+001C to U+001F, which `str.isspace` calls whitespace |
| Fields.DigitFreeRejected | backend/api/fields.py:32-35 | text without a digit never parses |
| Fields.ParseNaturalExamples | backend/api/fields.py:32-35 | "abc", "1.5", "" and "\x1c5" are refused; " 5\n" reads as 5 |
| Fields.MinusZeroIsZero | backend/api/fields.py:36-38 | "-0" parses to 0 |
| Fields.BlankFailsBothParsers | backend/api/fields.py:27-50 | blank text fails both conversions, so the CharField blank check changes only which error is reported |
| Fields.ImageFromData | backend/api/fields.py:13-15 | text not starting with "data:image" passes through unchanged. A data URI fails exactly when ";base64," does not split it in two. That failure is an uncaught ValueError (a server error), not a field error |
| Fields.EmbeddedShape | backend/api/fields.py:13-15 | a decoded upload is "data:image..." + head + ";base64," + payload, with the marker in neither part, and the extension is the "/"-free tail of the head |
| Fields.ImageRoundTrip | backend/api/fields.py:13-15 | "data:image/<ext>;base64,<payload>" yields exactly that extension and payload |
| Fields.LastPartIsFinalSegment | backend/api/fields.py:15 | `split(sep)[-1]` is a separator-free suffix that is the whole text or follows a separator |
| Fields.ImageExamples | backend/api/fields.py:13-19 | a plain URL is handed on untouched |
| Text.Split | backend/api/fields.py:14-15 | joining the parts with the separator gives the text back, and no part contains the separator |
| Seqs.SameSizeAsSetIffDistinct | backend/api/serializers.py:168 | `len(value) == len(set(value))` holds exactly when no element repeats |
| UserConstants.ReservedNamesFit | backend/users/constants.py:4-12 | every reserved name is non-empty and fits the 150-character field, so reserving it is not vacuous |
| UserConstants.RoleConstantsAreChoices | backend/users/constants.py:14-19 | both role constants are keys of the role choices, and they differ |
| UserValidators.ReservedUsernameValidator | backend/users/validators.py:6-12 | a value fails exactly when its lower-case form is a reserved name |
| UserValidators.VerdictIgnoresCase | backend/users/validators.py:8 | ASCII upper- or lower-casing a value never changes the verdict |
| UserValidators.RejectedHaveReservedLength | backend/users/validators.py:8 | membership is whole-name equality, so a rejected value has the length of a reserved name |
| UserValidators.EveryReservedNameRejected | backend/users/constants.py:6-12 | every reserved name is lower case and is rejected as written |
| UserValidators.UsernameExamples | backend/users/validators.py:6-12 | "ADMIN" and "Me" are rejected; "admin2" and "mee" pass |
| ColorValidators.HexColorValidator | backend/recipes/validators.py:6-14 | passes exactly when "#" and 3 or 6 hex digits make up the value, or the value without one final newline |
| ColorValidators.HexGroupsAccepted | backend/recipes/validators.py:8-10 | "#" with 3 or 6 hex digits is accepted, with or without a final newline |
| ColorValidators.WrongLengthRejected | backend/recipes/validators.py:8-14 | no value of a length other than 4, 5, 7 or 8 passes |
| ColorValidators.MissingHashRejected | backend/recipes/validators.py:8-14 | a value not starting with "#" is refused |
| ColorValidators.NonHexDigitRejected | backend/recipes/validators.py:8-14 | a non-hex character (other than a newline) after the "#" is refused |
| ColorValidators.VerdictIgnoresCase | backend/recipes/validators.py:8 | ASCII upper- or lower-casing a value never changes the verdict |
| ColorValidators.CaseKeepsShape | backend/recipes/validators.py:8 | values agreeing on where hex digits, "#" and newlines sit get the same verdict |
| ColorValidators.ColorExamples | backend/recipes/validators.py:8-14 | "#abc", "#ABCDEF" and "#abc\n" pass; "#ggg", "abc", "#abcd" and "#abc\n\n" fail |
| ColorValidators.DefaultColorAccepted | backend/recipes/models.py:62-67 | the default tag colour "#FF0000" satisfies the validator |
| Permissions.IsAdminOrReadOnly | backend/api/permissions.py:14-20 | safe methods are allowed to anyone; any other method only to an authenticated staff user |
| Permissions.PermissionIsMonotone | backend/api/permissions.py:14-20 | what the anonymous user may do, everyone may; a staff account may do whatever another account may |
| Permissions.PermissionCases | backend/api/permissions.py:14-20 | the four cases: safe allowed, anonymous unsafe denied, non-staff unsafe denied, staff unsafe allowed |
| Schema.TitleUniqueImpliesPairUnique | backend/recipes/models.py:73-84 | the model definition's unique ingredient title implies the migration's unique (title, unit) pair |
| Schema.SameTitleUnderTwoUnits | backend/recipes/migrations/0001_initial.py:130-133 | the applied schema admits one title under two units, which the model definition forbids |
| Schema.InsertTag | backend/recipes/migrations/0001_initial.py:75-94 | a tag is stored exactly when its id, title, slug and colour are all new; the store stays well formed and nothing else changes |
| Schema.InsertIngredient | backend/recipes/migrations/0001_initial.py:130-133 | an ingredient is stored exactly when its id and (title, unit) pair are new; the store stays well formed and nothing else changes |
| Schema.InsertFavorite | backend/recipes/migrations/0001_initial.py:134-155 | a missing user or recipe is a foreign-key error and an existing pair a unique error; otherwise exactly that row is added and the store stays well formed |
| Schema.DeleteFavorite | backend/recipes/models.py:206-212 | exactly that pair is removed, the store stays well formed and nothing else changes |
| Schema.FavoriteInsertedOnce | backend/recipes/models.py:206-212 | an insert grows the table by one and a second insert of the pair is refused |
| Schema.FavoriteDeleteUndoesInsert | backend/recipes/models.py:206-212 | removing is idempotent and undoes an insert |
| Schema.InsertCartItem | backend/api/serializers.py:185-189 | under the assumed favourite-like cart table: foreign-key and unique errors exactly when due, else one row added, store well formed |
| Schema.DeleteCartItem | backend/api/serializers.py:185-189 | exactly that pair is removed, the store stays well formed and nothing else changes |
| Schema.CartItemInsertedOnce | backend/api/serializers.py:185-189 | under the assumed unique (user, recipe) pair: an insert grows the cart by one, and a second insert of the pair is refused |
| Schema.CartItemDeleteUndoesInsert | backend/api/serializers.py:185-189 | removing is idempotent and undoes an insert |
| Schema.InsertFollow | backend/users/models.py:16-43 | unknown users are a foreign-key error, following oneself a check error, an existing pair a unique error; otherwise one row is added and the store stays well formed |
| Schema.DeleteFollow | backend/users/models.py:31-36 | exactly that pair is removed, the store stays well formed and nothing else changes |
| Schema.FollowIsDirectional | backend/users/models.py:33-36 | in any well-formed store, a stored follow (a, b) never blocks inserting (b, a), and afterwards both are stored |
| Schema.DeleteRecipe | backend/recipes/migrations/0001_initial.py:95-143 | the recipe's tag rows, amount rows, favourites and cart items go with it; everything else stays and the store stays well formed |
| Schema.DeleteTag | backend/recipes/migrations/0001_initial.py:100-104 | the tag's recipe–tag rows go with it; nothing else changes and the store stays well formed |
| Schema.DeleteIngredient | backend/recipes/migrations/0001_initial.py:105-109 | the ingredient's amount rows go with it; nothing else changes and the store stays well formed |
| Schema.DeleteRecipes | backend/recipes/migrations/0001_initial.py:95-143 | a set of recipes goes with every row that refers to one of them; the store stays well formed |
| Schema.DeleteAccount | backend/users/models.py:16-29 | a user without recipes goes with their favourites, cart items and every follow on either side; the store stays well formed |
| Schema.DeleteUser | backend/recipes/migrations/0001_initial.py:115-143 | a user goes with their recipes (and those recipes' rows), their favourites and cart items, and every follow on either side; all else stays and the store stays well formed |
| Schema.DeletedUserLeavesNoTrace | backend/users/models.py:16-29 | after deleting a user, no user, recipe, favourite, cart item or follow refers to them |
| Schema.RecipeWithoutTagsIsStorable | backend/recipes/models.py:116-122 | the store accepts a recipe with no tags and no ingredients |
| Schema.ListingPrefix | backend/recipes/models.py:33-35 | the first n recipes of an author's listing are that author's, by title, none twice. No recipe of the author left out has a title before theirs |
| Schema.TagListingStrictlyOrdered | backend/recipes/models.py:33-49 | with unique titles, tags listed by title are strictly increasing |
| RecipeSerializer.FirstTagStop | backend/api/serializers.py:155-156 | the first listed id the related field stops at, one SQLite cannot bind or one that names no tag, with every earlier id a bindable known tag; none exactly when all are |
| RecipeSerializer.StopDecidesOverflow | backend/api/serializers.py:155-156 | the tag lookup overflows (some unbindable id comes before any unknown one) exactly when the id the field stops at is unbindable |
| RecipeSerializer.ValidateTags | backend/api/serializers.py:155-170 | accepts exactly non-empty, repeat-free lists of existing, bindable tags, unchanged; otherwise the overflow (a server error) exactly when the lookup overflows, an unknown bindable id, NoTags or DuplicateTags, each exactly when due |
| RecipeSerializer.AmountInputProblems | backend/api/serializers.py:128-136 | an id SQLite cannot bind is the overflow alone (a server error); otherwise an entry's problems are an unknown ingredient id and an amount below 1, each exactly when it occurs |
| RecipeSerializer.ItemProblems | backend/api/serializers.py:154 | every faulty entry is reported under its position with its problems, and no other entry |
| RecipeSerializer.ValidateIngredients | backend/api/serializers.py:172-177 | accepts exactly non-empty lists of valid entries with distinct ids; otherwise the overflow exactly when some entry's id is unbindable, else per-entry problems, NoIngredients or DuplicateIngredients, each exactly when due |
| RecipeSerializer.SameIngredientTwiceRejected | backend/api/serializers.py:172-177 | two entries with one id are refused whatever their amounts |
| RecipeSerializer.ValidatePayload | backend/api/serializers.py:150-177 | the payload passes unchanged exactly when no field has an issue; a server error exactly when a supplied list overflows a lookup; otherwise every faulty field is reported with its issue |
| RecipeSerializer.TagOverflowIsServerError | backend/api/serializers.py:155-156 | a tag id SQLite cannot bind, after only known bindable ids, makes the request a server error whatever else the payload holds |
| RecipeSerializer.IngredientOverflowIsServerError | backend/api/serializers.py:133-136 | an ingredient id SQLite cannot bind, at any position, makes the request a server error |
| RecipeSerializer.FirstTagTooLarge | backend/api/serializers.py:155-156 | a tag list led by 2^63 is a server error |
| RecipeSerializer.ValidPayloadIsAcceptable | backend/api/serializers.py:150-177 | a valid payload has an in-range cooking time and non-empty, repeat-free lists of existing tags and valid entries, all present unless partial |
| RecipeSerializer.AcceptablePayloadIsValid | backend/api/serializers.py:150-177 | conversely, such a payload passes |
| RecipeSerializer.EmptyPayload | backend/api/serializers.py:150-163 | an empty create request gets Required for every field; an empty partial update passes |
| RecipeSerializer.EmptyListsRefused | backend/api/serializers.py:165-177 | a present but empty tag or ingredient list is refused even in a partial update, and unless the other list overflows, the validation error names the empty list |
| RecipeSerializer.TagRows | backend/api/serializers.py:209-210 | a row belongs to the recipe's new tag rows exactly when its tag is listed |
| RecipeSerializer.TagRowsCount | backend/api/serializers.py:209-210 | a repeat-free tag list yields one row per tag |
| RecipeSerializer.AmountRows | backend/api/serializers.py:211-215 | every entry has a row carrying its amount, and every row comes from an entry |
| RecipeSerializer.AmountRowsCount | backend/api/serializers.py:211-215 | entries with distinct ids yield one row each, with no ingredient twice for the recipe |
| RecipeSerializer.WithTagRows | backend/api/serializers.py:222-225 | afterwards the recipe's tag rows are exactly the new ones and other recipes' rows are untouched |
| RecipeSerializer.WithAmountRows | backend/api/serializers.py:226-232 | afterwards the recipe's amount rows are exactly the new ones and other recipes' rows are untouched |
| RecipeSerializer.PutRecipeKeepsWf | backend/api/serializers.py:205-233 | writing a recipe whose data and rows meet the constraints keeps the store well formed |
| RecipeSerializer.CreateRecipe | backend/api/serializers.py:205-216 | the store stays well formed, the recipe is stored, its tag and amount rows are exactly those of the lists (as many as listed), and nothing else changes |
| RecipeSerializer.CreateThenDelete | backend/api/serializers.py:205-216 | creating a recipe and deleting it gives back the original store |
| RecipeSerializer.UpdatedData | backend/api/serializers.py:221 | supplied fields replace the old values; author and creation time stay |
| RecipeSerializer.UpdateRecipe | backend/api/serializers.py:218-233 | a supplied list replaces that association set exactly; a missing list leaves those rows untouched; other recipes never change; the store stays well formed |
| RecipeSerializer.PresentListsAreSupplied | backend/api/serializers.py:218-226 | in a valid payload a present list is never empty, so `if tags:` acts on every present list |
| MembershipFlags.IsFavorited | backend/api/serializers.py:179-183 | false for an anonymous user; otherwise true exactly when the favourite row exists |
| MembershipFlags.IsInShoppingCart | backend/api/serializers.py:185-189 | false for an anonymous user; otherwise true exactly when the cart row exists |
| MembershipFlags.IsSubscribed | backend/api/serializers.py:58-62 | false for an anonymous user; otherwise true exactly when the follow row exists |
| MembershipFlags.FavoritedAfterInsert | backend/api/serializers.py:179-183 | after a favourite is stored its owner sees it flagged, and every other flag is unchanged |
| MembershipFlags.NotFavoritedAfterDelete | backend/api/serializers.py:179-183 | after removal the recipe is not flagged as favourited |
| MembershipFlags.InCartAfterInsert | backend/api/serializers.py:185-189 | after a cart item is stored its owner sees it flagged |
| MembershipFlags.NotInCartAfterDelete | backend/api/serializers.py:185-189 | after removal the recipe is not flagged as in the cart |
| MembershipFlags.DeletedRecipeUnflagged | backend/api/serializers.py:179-189 | a deleted recipe is in nobody's favourites or cart |
| MembershipFlags.FlagsReferToRows | backend/api/serializers.py:179-189 | a set flag implies an authenticated, existing user and an existing recipe |
| MembershipFlags.NeverSubscribedToSelf | backend/api/serializers.py:58-62 | nobody is shown as subscribed to themselves |
| MembershipFlags.SubscribedAfterFollow | backend/api/serializers.py:58-62 | after following, the follower is subscribed, and the reverse flag is unchanged |
| MembershipFlags.NotSubscribedAfterUnfollow | backend/api/serializers.py:58-62 | after unfollowing, the flag is false |
| MembershipFlags.DeletedUserHasNoSubscribers | backend/api/serializers.py:58-62 | nobody is subscribed to a deleted user |
| QueryParams.ParamError | backend/api/serializers.py:18-23 | a parameter fails exactly when its field's conversion fails, with Blank for blank text and the field's own error otherwise |
| QueryParams.ParamErrors | backend/api/serializers.py:18-23 | exactly the declared, present, failing parameters are reported, each with its error |
| QueryParams.RefusedParamReported | backend/api/serializers.py:18-23 | whenever a parameter is refused, the error map is non-empty |
| QueryParams.ParseQueryParams | backend/api/serializers.py:18-23 | valid exactly when every declared present parameter converts; each value is present exactly when sent and equals its conversion; otherwise all errors at once |
| QueryParams.QueryParamsRoundTrip | backend/api/serializers.py:18-23 | rendered parameter values parse back to the same values |
| QueryParams.UndeclaredParamIgnored | backend/api/serializers.py:18-23 | adding an undeclared parameter changes neither the verdict, the values nor the errors |
| QueryParams.OnlyLimit | backend/api/serializers.py:77-79 | with only `recipes_limit`, the result is valid exactly when the limit parses; then it carries that value, otherwise a single error for that key |
| UserSerializers.GetRecipes | backend/api/serializers.py:73-84 | with no or an empty limit, all recipes; otherwise a result exactly when the limit parses to an n SQLite can take, then the first min(n, count) recipes in order; a single validation error when it does not parse; a server error when n exceeds 2^63 - 1 |
| UserSerializers.LimitOfRenderedNumber | backend/api/serializers.py:76-80 | a limit written as the decimal of any n up to 2^63 - 1 keeps the first min(n, count) recipes |
| UserSerializers.LimitBeyondSqlite | backend/api/serializers.py:76-80 | a limit written as the decimal of an n beyond 2^63 - 1 passes validation and ends in a server error |
| UserSerializers.SmallestOverflowingLimit | backend/api/serializers.py:76-80 | the limit "9223372036854775808" ends in a server error |
| UserSerializers.LimitedListIsPrefix | backend/api/serializers.py:76-80 | the result is a prefix of the listing, never longer than the limit |
| UserSerializers.LimitedAuthorListing | backend/api/serializers.py:73-80 | the result holds only the author's recipes, by title. No recipe of the author left out comes before any kept one, so the limit keeps the alphabetically first |
| UserSerializers.LimitExamples | backend/api/serializers.py:75-80 | "0" keeps none; an empty or missing limit keeps all |
| UserSerializers.BadLimitsRefused | backend/api/serializers.py:76-79 | "abc" and "-1" are refused rather than ignored |
| UserSerializers.WhitespaceLimitIsBlank | backend/api/serializers.py:76-79 | a limit of only whitespace is truthy, so it is validated, and refused as blank |
| UserSerializers.SeparatorLimitRefused | backend/api/serializers.py:76-79 | a limit led by U+001C is not blank, since `strip()` removes that character, but `int()` refuses it, so the request is refused |
| UserSerializers.CleanText | backend/api/serializers.py:103-104 | each refusal of a required character field, exactly when it applies: absent is Required, null is NullNotAllowed, text stripping to nothing is Blank, and a null character in the stripped text is NullCharacter. Otherwise the field holds the stripped text |
| UserSerializers.ValidatePasswordChange | backend/api/serializers.py:101-125 | accepted exactly when both fields clean, pass their own checks and differ. Each field's error is its own first issue; the "must differ" error comes only when both fields pass |
| UserSerializers.SamePasswordRefused | backend/api/serializers.py:120-125 | a new password equal to the current one after trimming is never accepted |
| UserSerializers.PaddedPasswordIsTheSame | backend/api/serializers.py:120-125 | a new password that differs only by surrounding spaces counts as the same and is refused |
| UserSerializers.DifferentPasswordAccepted | backend/api/serializers.py:101-125 | distinct passwords without whitespace or null characters that both checks accept are returned as given |
| UserSerializers.MissingFieldsRequired | backend/api/serializers.py:103-104 | an empty body gets "required" for both fields |
| UserSerializers.NullCharacterNeverChecked | backend/api/serializers.py:103-118 | a null character anywhere in the new password is refused by the field, whatever the validators would say |
| Display.FollowStrDecodes | backend/users/models.py:45-46 | for names without spaces, splitting the string on spaces gives back follower, "follows" and influencer |
| Display.FollowStrInjective | backend/users/models.py:45-46 | for names without spaces, the string determines both names |
| Display.RecipeTagStrDecodes | backend/recipes/models.py:153-154 | when the recipe name is cut cleanly and the tag lacks the phrase, splitting on " is tagged with " gives back both names |
| Display.RecipeTagStrAmbiguous | backend/recipes/models.py:153-154 | without that condition two different pairs give the same string |
| Display.RecipeIngredientStrInjective | backend/recipes/models.py:186-187 | with a cleanly cut recipe name and a space-free quantity, the string determines recipe, quantity and ingredient |
| Display.FavoriteStrInjective | backend/recipes/models.py:214-215 | for a user name without spaces, the string determines user and recipe |

## Left out

- The shopping-cart reducer, the CSV/TXT export and the favourite/cart recipe filter are left out. `backend/api/views.py` imports them, but their bodies are not part of this model.
- The add/remove-from-list and subscribe helpers are not part of this model. The store's own insert and delete stand in for them.
- The base64 decoding, the uuid file name, `ContentFile` and image URLs are library calls and randomness. Only the string handling that yields the extension and the payload is modelled.
- Password hashing and Django's password validators are internals. They are the parameters `checkPassword` and `strongEnough`.
- The password validator that runs on user creation (`UserCreateSerializer.validate_password`) is left out for the same reason.
- `FilterIngredientsByName` relies on django-filter and database collation semantics, which are not visible.
- The CSV import command is left out: file I/O, bulk writes and hashing.
- Views, routing, pagination, admin screens, settings, mixins and the 404 helpers are framework plumbing.
- The recipe author-only edit permission and the object lookups by id are framework plumbing too.
- Timestamps come from the clock. They are parameters, `now` and `created`, and the `modified` stamps are not modelled.
- New row ids come from the database. `newId` is passed in.
- The float `quantity` of `backend/recipes/models.py:173` is not modelled. The serializers' integer `amount` is used instead.
- `Display.RecipeIngredientStrInjective` takes the quantity as already-rendered text. Python's float formatting is not modelled.
- Transactions and concurrent requests are out of scope: each operation is one atomic step.
- The recipe payload's name, text and image fields are not modelled: neither their CharField length and blank checks nor the image field's content checks. The model covers the title as an optional value, the cooking time and both lists.
- The recipe description (`text` in the serializer, `description` in the model) is not modelled. The serializer's `name` and the model's `title` are one title field.
- Fields.ParseNatural: non-ASCII decimal digits, which `int()` also accepts, are not modelled, so text using them is refused. Digits are ASCII.
- Unicode case mapping is not modelled. Lower-casing in the username validator is ASCII only.
- The integer digit limit is fixed at CPython's default of 4300. It cannot be reconfigured with `sys.set_int_max_str_digits`.
- When a write breaks several constraints at once, the database's choice of which to report is not modelled. Each insert reports the error of the first failing check.
- Fields.ImageFromData: does not model the image validation that Django's ImageField applies after this step. It states only the string handling.
- Fields.NaturalRoundTrip: holds only for numbers whose decimal rendering stays within the 4300-digit limit, because `int()` refuses longer text.
- RecipeSerializer.ValidatePayload: takes a typed payload, so DRF's errors for a wrongly shaped one are not modelled. These include a null `tags` or `ingredients`, a value that is not a list ("not a list"), and a tag id of the wrong type ("incorrect type"). An absent list is modelled as Required. The `name` CharField's checks are not modelled either: a given title that is blank, holds a null character or exceeds `max_length` is accepted, and a title with surrounding whitespace is stored as given rather than trimmed.
- RecipeSerializer.AmountInputProblems: each entry is a pair of integers, so IntegerField's errors for an entry are not modelled: "This field is required." for a missing `id` or `amount`, "may not be null" for null, and "A valid integer is required." for non-integer text.
- UserSerializers.ValidatePasswordChange: a given field is text, so a JSON number (which CharField turns into text) and a boolean (which it refuses as invalid) are not modelled.
- Schema.InsertCartItem: the cart table's foreign keys, their cascade and its unique (user, recipe) pair are assumed by analogy with the favourites table. No model or migration among the modelled files defines that table.
- Schema.CartItemInsertedOnce: the refused second insert rests on that assumed unique pair.
- Schema.ListingPrefix: titles are compared by code point (`Schema.TitleLe`). The database collation that `ORDER BY title` uses is not modelled, and neither is the order among recipes sharing a title.
- UserSerializers.LimitedAuthorListing: the same code-point comparison of titles stands in for the database collation.
