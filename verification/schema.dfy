/**
 * The relational store of the recipes and users apps as immutable values:
 * entity tables keyed by primary key, join and membership tables as sets of
 * rows. `Wf` collects the constraints the applied schema enforces (unique
 * fields and pairs, foreign keys, no self-follow); every store operation keeps
 * it, and deletions cascade as the foreign keys declare.
 */
module Schema {
  import opened Wrappers
  import Seqs

  type Id = int

  /** Upper bound of a PositiveSmallIntegerField (its lower bound is 0). */
  const SmallIntMax: int := 32767

  /** SQLite stores integers as signed 64-bit values. */
  const SqliteIntMin: int := -0x8000_0000_0000_0000
  const SqliteIntMax: int := 0x7FFF_FFFF_FFFF_FFFF

  /**
   * An integer Python's sqlite3 module can pass to SQLite as a query
   * parameter; for any other it raises OverflowError.
   */
  predicate Bindable(n: int) {
    SqliteIntMin <= n <= SqliteIntMax
  }

  datatype TagData = TagData(title: string, slug: string, color: string)
  datatype IngredientData = IngredientData(title: string, unit: string)
  /** `created` is the creation timestamp, which an update keeps. */
  datatype RecipeData = RecipeData(author: Id, title: string, cookingTime: int, created: int)

  datatype RecipeTag = RecipeTag(recipe: Id, tag: Id)
  /** The recipe-ingredient join row with the quantity the API reads and writes. */
  datatype Amount = Amount(recipe: Id, ingredient: Id, amount: int)
  datatype Favorite = Favorite(user: Id, recipe: Id)
  datatype CartItem = CartItem(user: Id, recipe: Id)
  datatype Follow = Follow(follower: Id, influencer: Id)

  datatype Db = Db(
    users: set<Id>,
    tags: map<Id, TagData>,
    ingredients: map<Id, IngredientData>,
    recipes: map<Id, RecipeData>,
    recipeTags: set<RecipeTag>,
    amounts: set<Amount>,
    favorites: set<Favorite>,
    cart: set<CartItem>,
    follows: set<Follow>)

  /** The integrity errors the database raises. */
  datatype DbError = ForeignKeyViolation | UniqueViolation | CheckViolation

  // ---------------------------------------------------------------------------
  // Constraints

  /** Tag titles, slugs and colours are each unique. */
  ghost predicate TagsUnique(tags: map<Id, TagData>) {
    forall a, b | a in tags && b in tags && a != b ::
      && tags[a].title != tags[b].title
      && tags[a].slug != tags[b].slug
      && tags[a].color != tags[b].color
  }

  /** The applied schema: no two ingredients share both title and measurement unit. */
  ghost predicate IngredientPairsUnique(ingredients: map<Id, IngredientData>) {
    forall a, b | a in ingredients && b in ingredients && a != b ::
      ingredients[a] != ingredients[b]
  }

  /** As the Django model declares it, no two ingredients share a title. */
  ghost predicate IngredientTitlesUnique(ingredients: map<Id, IngredientData>) {
    forall a, b | a in ingredients && b in ingredients && a != b ::
      ingredients[a].title != ingredients[b].title
  }

  ghost predicate RecipesWf(db: Db) {
    forall r | r in db.recipes ::
      && db.recipes[r].author in db.users
      && 0 <= db.recipes[r].cookingTime <= SmallIntMax
  }

  ghost predicate RecipeTagsWf(db: Db) {
    forall rt | rt in db.recipeTags :: rt.recipe in db.recipes && rt.tag in db.tags
  }

  /** At most one amount row per (recipe, ingredient) pair. */
  ghost predicate AmountPairsUnique(amounts: set<Amount>) {
    forall a, b | a in amounts && b in amounts && a.recipe == b.recipe && a.ingredient == b.ingredient ::
      a == b
  }

  ghost predicate AmountsWf(db: Db) {
    && (forall a | a in db.amounts :: a.recipe in db.recipes && a.ingredient in db.ingredients)
    && AmountPairsUnique(db.amounts)
  }

  ghost predicate MembershipWf(db: Db) {
    && (forall f | f in db.favorites :: f.user in db.users && f.recipe in db.recipes)
    && (forall c | c in db.cart :: c.user in db.users && c.recipe in db.recipes)
  }

  /** Both ends are users, and nobody follows themselves. */
  ghost predicate FollowsWf(db: Db) {
    forall f | f in db.follows ::
      f.follower in db.users && f.influencer in db.users && f.follower != f.influencer
  }

  /** Every constraint of the applied schema. */
  ghost predicate Wf(db: Db) {
    && TagsUnique(db.tags)
    && IngredientPairsUnique(db.ingredients)
    && RecipesWf(db)
    && RecipeTagsWf(db)
    && AmountsWf(db)
    && MembershipWf(db)
    && FollowsWf(db)
  }

  /** The unique-title rule of the model definition is the stronger of the two ingredient rules. */
  lemma TitleUniqueImpliesPairUnique(ingredients: map<Id, IngredientData>)
    requires IngredientTitlesUnique(ingredients)
    ensures IngredientPairsUnique(ingredients)
  {
  }

  /** The applied schema admits one title under two units; the model definition does not. */
  lemma SameTitleUnderTwoUnits()
    ensures var sugar := map[1 := IngredientData("sugar", "g"), 2 := IngredientData("sugar", "cup")];
      IngredientPairsUnique(sugar) && !IngredientTitlesUnique(sugar)
  {
    var sugar := map[1 := IngredientData("sugar", "g"), 2 := IngredientData("sugar", "cup")];
    assert sugar[1].title == sugar[2].title;
  }

  // ---------------------------------------------------------------------------
  // Inserting entities

  function InsertUser(db: Db, u: Id): (r: Result<Db, DbError>)
    requires Wf(db)
    ensures r.Ok? <==> u !in db.users
    ensures r.Err? ==> r.error == UniqueViolation
    ensures r.Ok? ==> Wf(r.value) && r.value.users == db.users + {u} && r.value.(users := db.users) == db
  {
    if u in db.users then Err(UniqueViolation) else Ok(db.(users := db.users + {u}))
  }

  /** A tag may not reuse an id, title, slug or colour. */
  function InsertTag(db: Db, id: Id, tag: TagData): (r: Result<Db, DbError>)
    requires Wf(db)
    ensures r.Ok? <==> id !in db.tags && forall t | t in db.tags ::
      db.tags[t].title != tag.title && db.tags[t].slug != tag.slug && db.tags[t].color != tag.color
    ensures r.Err? ==> r.error == UniqueViolation
    ensures r.Ok? ==> Wf(r.value) && r.value.tags == db.tags[id := tag] && r.value.(tags := db.tags) == db
  {
    if id in db.tags then Err(UniqueViolation)
    else if exists t | t in db.tags :: db.tags[t].title == tag.title || db.tags[t].slug == tag.slug || db.tags[t].color == tag.color
    then Err(UniqueViolation)
    else Ok(db.(tags := db.tags[id := tag]))
  }

  /** An ingredient may not reuse an id, nor a (title, unit) pair. */
  function InsertIngredient(db: Db, id: Id, ingredient: IngredientData): (r: Result<Db, DbError>)
    requires Wf(db)
    ensures r.Ok? <==> id !in db.ingredients && ingredient !in db.ingredients.Values
    ensures r.Err? ==> r.error == UniqueViolation
    ensures r.Ok? ==> Wf(r.value) && r.value.ingredients == db.ingredients[id := ingredient]
    ensures r.Ok? ==> r.value.(ingredients := db.ingredients) == db
  {
    if id in db.ingredients || ingredient in db.ingredients.Values then Err(UniqueViolation)
    else Ok(db.(ingredients := db.ingredients[id := ingredient]))
  }

  // ---------------------------------------------------------------------------
  // Membership tables: favourites, cart, follows

  function InsertFavorite(db: Db, u: Id, recipe: Id): (r: Result<Db, DbError>)
    requires Wf(db)
    ensures r == Err(ForeignKeyViolation) <==> u !in db.users || recipe !in db.recipes
    ensures r == Err(UniqueViolation) <==>
      u in db.users && recipe in db.recipes && Favorite(u, recipe) in db.favorites
    ensures r.Ok? ==> Wf(r.value)
    ensures r.Ok? ==> Favorite(u, recipe) !in db.favorites && r.value.favorites == db.favorites + {Favorite(u, recipe)}
    ensures r.Ok? ==> r.value.(favorites := db.favorites) == db
  {
    if u !in db.users || recipe !in db.recipes then Err(ForeignKeyViolation)
    else if Favorite(u, recipe) in db.favorites then Err(UniqueViolation)
    else Ok(db.(favorites := db.favorites + {Favorite(u, recipe)}))
  }

  /** Removing a favourite that is not there changes nothing. */
  function DeleteFavorite(db: Db, u: Id, recipe: Id): (r: Db)
    requires Wf(db)
    ensures Wf(r)
    ensures r.favorites == db.favorites - {Favorite(u, recipe)}
    ensures r.(favorites := db.favorites) == db
  {
    db.(favorites := db.favorites - {Favorite(u, recipe)})
  }

  function InsertCartItem(db: Db, u: Id, recipe: Id): (r: Result<Db, DbError>)
    requires Wf(db)
    ensures r == Err(ForeignKeyViolation) <==> u !in db.users || recipe !in db.recipes
    ensures r == Err(UniqueViolation) <==>
      u in db.users && recipe in db.recipes && CartItem(u, recipe) in db.cart
    ensures r.Ok? ==> Wf(r.value)
    ensures r.Ok? ==> CartItem(u, recipe) !in db.cart && r.value.cart == db.cart + {CartItem(u, recipe)}
    ensures r.Ok? ==> r.value.(cart := db.cart) == db
  {
    if u !in db.users || recipe !in db.recipes then Err(ForeignKeyViolation)
    else if CartItem(u, recipe) in db.cart then Err(UniqueViolation)
    else Ok(db.(cart := db.cart + {CartItem(u, recipe)}))
  }

  function DeleteCartItem(db: Db, u: Id, recipe: Id): (r: Db)
    requires Wf(db)
    ensures Wf(r)
    ensures r.cart == db.cart - {CartItem(u, recipe)}
    ensures r.(cart := db.cart) == db
  {
    db.(cart := db.cart - {CartItem(u, recipe)})
  }

  /** Following needs two existing users, distinct, not already linked in that direction. */
  function InsertFollow(db: Db, follower: Id, influencer: Id): (r: Result<Db, DbError>)
    requires Wf(db)
    ensures r == Err(ForeignKeyViolation) <==> follower !in db.users || influencer !in db.users
    ensures r == Err(CheckViolation) <==>
      follower in db.users && influencer in db.users && follower == influencer
    ensures r == Err(UniqueViolation) <==>
      follower in db.users && influencer in db.users && follower != influencer
      && Follow(follower, influencer) in db.follows
    ensures r.Ok? ==> Wf(r.value)
    ensures r.Ok? ==> r.value.follows == db.follows + {Follow(follower, influencer)}
    ensures r.Ok? ==> r.value.(follows := db.follows) == db
  {
    if follower !in db.users || influencer !in db.users then Err(ForeignKeyViolation)
    else if follower == influencer then Err(CheckViolation)
    else if Follow(follower, influencer) in db.follows then Err(UniqueViolation)
    else Ok(db.(follows := db.follows + {Follow(follower, influencer)}))
  }

  function DeleteFollow(db: Db, follower: Id, influencer: Id): (r: Db)
    requires Wf(db)
    ensures Wf(r)
    ensures r.follows == db.follows - {Follow(follower, influencer)}
    ensures r.(follows := db.follows) == db
  {
    db.(follows := db.follows - {Follow(follower, influencer)})
  }

  /** A second insert of the same favourite is refused, so the table keeps one row per pair. */
  lemma FavoriteInsertedOnce(db: Db, u: Id, recipe: Id)
    requires Wf(db) && InsertFavorite(db, u, recipe).Ok?
    ensures var db' := InsertFavorite(db, u, recipe).value;
      && |db'.favorites| == |db.favorites| + 1
      && InsertFavorite(db', u, recipe) == Err(UniqueViolation)
  {
  }

  /** Removing is idempotent, and undoes an insert. */
  lemma FavoriteDeleteUndoesInsert(db: Db, u: Id, recipe: Id)
    requires Wf(db)
    ensures DeleteFavorite(DeleteFavorite(db, u, recipe), u, recipe) == DeleteFavorite(db, u, recipe)
    ensures InsertFavorite(db, u, recipe).Ok? ==> DeleteFavorite(InsertFavorite(db, u, recipe).value, u, recipe) == db
  {
  }

  lemma CartItemInsertedOnce(db: Db, u: Id, recipe: Id)
    requires Wf(db) && InsertCartItem(db, u, recipe).Ok?
    ensures var db' := InsertCartItem(db, u, recipe).value;
      && |db'.cart| == |db.cart| + 1
      && InsertCartItem(db', u, recipe) == Err(UniqueViolation)
  {
  }

  lemma CartItemDeleteUndoesInsert(db: Db, u: Id, recipe: Id)
    requires Wf(db)
    ensures DeleteCartItem(DeleteCartItem(db, u, recipe), u, recipe) == DeleteCartItem(db, u, recipe)
    ensures InsertCartItem(db, u, recipe).Ok? ==> DeleteCartItem(InsertCartItem(db, u, recipe).value, u, recipe) == db
  {
  }

  /**
   * Following is directional: a stored (a, b) never blocks (b, a), so both
   * directions can be stored side by side.
   */
  lemma FollowIsDirectional(db: Db, a: Id, b: Id)
    requires Wf(db) && Follow(a, b) in db.follows && Follow(b, a) !in db.follows
    ensures InsertFollow(db, b, a).Ok?
    ensures Follow(a, b) in InsertFollow(db, b, a).value.follows
    ensures Follow(b, a) in InsertFollow(db, b, a).value.follows
  {
  }

  // ---------------------------------------------------------------------------
  // Deletion and its cascades

  /** Deleting a recipe deletes its tag rows, amount rows, favourites and cart items. */
  function DeleteRecipe(db: Db, recipe: Id): (r: Db)
    requires Wf(db)
    ensures Wf(r)
    ensures r.recipes == db.recipes - {recipe}
    ensures forall x :: x in r.recipeTags <==> x in db.recipeTags && x.recipe != recipe
    ensures forall x :: x in r.amounts <==> x in db.amounts && x.recipe != recipe
    ensures forall x :: x in r.favorites <==> x in db.favorites && x.recipe != recipe
    ensures forall x :: x in r.cart <==> x in db.cart && x.recipe != recipe
    ensures r.users == db.users && r.tags == db.tags && r.ingredients == db.ingredients && r.follows == db.follows
  {
    db.(
      recipes := db.recipes - {recipe},
      recipeTags := (set x | x in db.recipeTags && x.recipe != recipe),
      amounts := (set x | x in db.amounts && x.recipe != recipe),
      favorites := (set x | x in db.favorites && x.recipe != recipe),
      cart := (set x | x in db.cart && x.recipe != recipe))
  }

  /** Deleting a tag deletes the rows that tag recipes with it. */
  function DeleteTag(db: Db, tag: Id): (r: Db)
    requires Wf(db)
    ensures Wf(r)
    ensures r.tags == db.tags - {tag}
    ensures forall x :: x in r.recipeTags <==> x in db.recipeTags && x.tag != tag
    ensures r.(tags := db.tags, recipeTags := db.recipeTags) == db
  {
    db.(tags := db.tags - {tag}, recipeTags := (set x | x in db.recipeTags && x.tag != tag))
  }

  /** Deleting an ingredient deletes the amount rows that use it. */
  function DeleteIngredient(db: Db, ingredient: Id): (r: Db)
    requires Wf(db)
    ensures Wf(r)
    ensures r.ingredients == db.ingredients - {ingredient}
    ensures forall x :: x in r.amounts <==> x in db.amounts && x.ingredient != ingredient
    ensures r.(ingredients := db.ingredients, amounts := db.amounts) == db
  {
    db.(ingredients := db.ingredients - {ingredient}, amounts := (set x | x in db.amounts && x.ingredient != ingredient))
  }

  /** The recipes `u` wrote. */
  function AuthoredBy(db: Db, u: Id): set<Id> {
    set r | r in db.recipes && db.recipes[r].author == u
  }

  /** Deletes a set of recipes with everything that cascades from them. */
  function DeleteRecipes(db: Db, gone: set<Id>): (r: Db)
    requires Wf(db)
    ensures Wf(r)
    ensures forall x :: x in r.recipes <==> x in db.recipes && x !in gone
    ensures forall x | x in r.recipes :: r.recipes[x] == db.recipes[x]
    ensures forall x :: x in r.recipeTags <==> x in db.recipeTags && x.recipe !in gone
    ensures forall x :: x in r.amounts <==> x in db.amounts && x.recipe !in gone
    ensures forall x :: x in r.favorites <==> x in db.favorites && x.recipe !in gone
    ensures forall x :: x in r.cart <==> x in db.cart && x.recipe !in gone
    ensures r.users == db.users && r.tags == db.tags && r.ingredients == db.ingredients && r.follows == db.follows
  {
    db.(
      recipes := map x | x in db.recipes && x !in gone :: db.recipes[x],
      recipeTags := (set x | x in db.recipeTags && x.recipe !in gone),
      amounts := (set x | x in db.amounts && x.recipe !in gone),
      favorites := (set x | x in db.favorites && x.recipe !in gone),
      cart := (set x | x in db.cart && x.recipe !in gone))
  }

  /** Once `u` has no recipes left, their own rows and the account can go. */
  function DeleteAccount(db: Db, u: Id): (r: Db)
    requires Wf(db) && AuthoredBy(db, u) == {}
    ensures Wf(r)
    ensures r.users == db.users - {u}
    ensures r.recipes == db.recipes && r.recipeTags == db.recipeTags && r.amounts == db.amounts
    ensures forall x :: x in r.favorites <==> x in db.favorites && x.user != u
    ensures forall x :: x in r.cart <==> x in db.cart && x.user != u
    ensures forall x :: x in r.follows <==> x in db.follows && x.follower != u && x.influencer != u
    ensures r.tags == db.tags && r.ingredients == db.ingredients
  {
    assert forall x | x in db.recipes :: db.recipes[x].author != u by {
      forall x | x in db.recipes ensures db.recipes[x].author != u {
        assert x !in AuthoredBy(db, u);
      }
    }
    db.(
      users := db.users - {u},
      favorites := (set x | x in db.favorites && x.user != u),
      cart := (set x | x in db.cart && x.user != u),
      follows := (set x | x in db.follows && x.follower != u && x.influencer != u))
  }

  /**
   * Deleting a user deletes their recipes (with everything that cascades from
   * a recipe), their favourites and cart items, and every follow row they are
   * on either side of.
   */
  function DeleteUser(db: Db, u: Id): (r: Db)
    requires Wf(db)
    ensures Wf(r)
    ensures r.users == db.users - {u}
    ensures forall x :: x in r.recipes <==> x in db.recipes && db.recipes[x].author != u
    ensures forall x | x in r.recipes :: r.recipes[x] == db.recipes[x]
    ensures forall x :: x in r.recipeTags <==> x in db.recipeTags && x.recipe in r.recipes
    ensures forall x :: x in r.amounts <==> x in db.amounts && x.recipe in r.recipes
    ensures forall x :: x in r.favorites <==> x in db.favorites && x.user != u && x.recipe in r.recipes
    ensures forall x :: x in r.cart <==> x in db.cart && x.user != u && x.recipe in r.recipes
    ensures forall x :: x in r.follows <==> x in db.follows && x.follower != u && x.influencer != u
    ensures r.tags == db.tags && r.ingredients == db.ingredients
  {
    var gone := AuthoredBy(db, u);
    var kept := DeleteRecipes(db, gone);
    assert AuthoredBy(kept, u) == {};
    DeleteAccount(kept, u)
  }

  /** After a user is deleted nothing in the store refers to them. */
  lemma DeletedUserLeavesNoTrace(db: Db, u: Id)
    requires Wf(db)
    ensures var r := DeleteUser(db, u);
      && u !in r.users
      && (forall x | x in r.recipes :: r.recipes[x].author != u)
      && (forall f | f in r.favorites :: f.user != u)
      && (forall c | c in r.cart :: c.user != u)
      && (forall f | f in r.follows :: f.follower != u && f.influencer != u)
  {
  }

  // ---------------------------------------------------------------------------
  // What the store does not demand

  /** A store holding one recipe with no tag and no ingredient row is well formed. */
  lemma RecipeWithoutTagsIsStorable()
    ensures Wf(Db({7}, map[], map[], map[1 := RecipeData(7, "toast", 5, 0)], {}, {}, {}, {}, {}))
  {
  }

  // ---------------------------------------------------------------------------
  // Default orderings

  /** All ids are recipes of the store. */
  ghost predicate AllRecipes(db: Db, rs: seq<Id>) {
    forall i :: 0 <= i < |rs| ==> rs[i] in db.recipes
  }

  /**
   * Recipes' default ordering, `WithTitle.Meta.ordering`, which `Recipe.Meta`
   * inherits: by title. Recipes sharing a title may come in any order.
   */
  ghost predicate RecipesByTitle(db: Db, rs: seq<Id>)
    requires AllRecipes(db, rs)
  {
    forall i, j :: 0 <= i < j < |rs| ==> TitleLe(db.recipes[rs[i]].title, db.recipes[rs[j]].title)
  }

  /** `author.recipes.all()`: each of the author's recipes once, by title. */
  ghost predicate IsAuthorListing(db: Db, author: Id, rs: seq<Id>) {
    && AllRecipes(db, rs)
    && Seqs.Distinct(rs)
    && (forall i :: 0 <= i < |rs| ==> db.recipes[rs[i]].author == author)
    && (forall r | r in db.recipes && db.recipes[r].author == author :: r in rs)
    && RecipesByTitle(db, rs)
  }

  /**
   * The first `n` recipes of an author listing are by title, the author's own,
   * and repeat none; no recipe of the author left out has a title before theirs.
   */
  lemma {:induction false} ListingPrefix(db: Db, author: Id, rs: seq<Id>, n: nat)
    requires IsAuthorListing(db, author, rs) && n <= |rs|
    ensures AllRecipes(db, rs[..n]) && RecipesByTitle(db, rs[..n]) && Seqs.Distinct(rs[..n])
    ensures forall i :: 0 <= i < n ==> db.recipes[rs[..n][i]].author == author
    ensures forall i, r | 0 <= i < n && r in db.recipes && db.recipes[r].author == author && r !in rs[..n] ::
      TitleLe(db.recipes[rs[i]].title, db.recipes[r].title)
  {
    var p := rs[..n];
    assert forall i :: 0 <= i < n ==> p[i] == rs[i];
    forall i, r | 0 <= i < n && r in db.recipes && db.recipes[r].author == author && r !in p
      ensures TitleLe(db.recipes[rs[i]].title, db.recipes[r].title)
    {
      assert rs == p + rs[n..];
      assert r in rs[n..];
      var k :| 0 <= k < |rs[n..]| && rs[n..][k] == r;
      assert rs[n + k] == r;
    }
  }

  /**
   * The order of `ORDER BY title`: code point by code point, a proper prefix
   * first. SQLite's default BINARY collation compares the UTF-8 bytes, which
   * gives this same order.
   */
  predicate TitleLe(a: string, b: string) {
    if |a| == 0 then true
    else if |b| == 0 then false
    else if a[0] != b[0] then a[0] < b[0]
    else TitleLe(a[1..], b[1..])
  }

  /** Tags' and ingredients' default ordering: by title. */
  predicate ByTitle(titles: seq<string>) {
    forall i, j :: 0 <= i < j < |titles| ==> TitleLe(titles[i], titles[j])
  }

  lemma {:induction false} TitleLeAntisymmetric(a: string, b: string)
    requires TitleLe(a, b) && TitleLe(b, a)
    ensures a == b
  {
    if |a| > 0 && |b| > 0 {
      TitleLeAntisymmetric(a[1..], b[1..]);
      assert a == [a[0]] + a[1..] && b == [b[0]] + b[1..];
    }
  }

  /** With unique tag titles, the listing by title is strictly increasing. */
  lemma TagListingStrictlyOrdered(db: Db, ts: seq<Id>)
    requires Wf(db)
    requires forall i :: 0 <= i < |ts| ==> ts[i] in db.tags
    requires Seqs.Distinct(ts)
    requires ByTitle(seq(|ts|, i requires 0 <= i < |ts| && ts[i] in db.tags => db.tags[ts[i]].title))
    ensures forall i, j :: 0 <= i < j < |ts| ==> !TitleLe(db.tags[ts[j]].title, db.tags[ts[i]].title)
  {
    var titles := seq(|ts|, i requires 0 <= i < |ts| && ts[i] in db.tags => db.tags[ts[i]].title);
    forall i, j | 0 <= i < j < |ts|
      ensures !TitleLe(db.tags[ts[j]].title, db.tags[ts[i]].title)
    {
      assert TitleLe(titles[i], titles[j]);
      assert ts[i] != ts[j];
      if TitleLe(db.tags[ts[j]].title, db.tags[ts[i]].title) {
        TitleLeAntisymmetric(titles[i], titles[j]);
      }
    }
  }
}
