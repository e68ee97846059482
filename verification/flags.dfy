/**
 * The per-user flags the serializers add to recipes and users:
 * `is_favorited`, `is_in_shopping_cart` and `is_subscribed`. Each is false for
 * an anonymous requester and otherwise asks whether the requester's pair is
 * in the matching membership table.
 */
module MembershipFlags {
  import opened Schema
  import opened Permissions

  function IsFavorited(db: Db, user: Requester, recipe: Id): (b: bool)
    ensures user.Anonymous? ==> !b
    ensures user.Member? ==> (b <==> Favorite(user.id, recipe) in db.favorites)
  {
    if !user.IsAuthenticated() then false else Favorite(user.id, recipe) in db.favorites
  }

  function IsInShoppingCart(db: Db, user: Requester, recipe: Id): (b: bool)
    ensures user.Anonymous? ==> !b
    ensures user.Member? ==> (b <==> CartItem(user.id, recipe) in db.cart)
  {
    if !user.IsAuthenticated() then false else CartItem(user.id, recipe) in db.cart
  }

  /** Whether the requester follows the shown user. */
  function IsSubscribed(db: Db, user: Requester, shown: Id): (b: bool)
    ensures user.Anonymous? ==> !b
    ensures user.Member? ==> (b <==> Follow(user.id, shown) in db.follows)
  {
    if !user.IsAuthenticated() then false else Follow(user.id, shown) in db.follows
  }

  /** A favourite that was stored shows as favourited, to its owner only, and leaves other recipes' flags alone. */
  lemma FavoritedAfterInsert(db: Db, u: Id, recipe: Id, staff: bool, viewer: Requester, other: Id)
    requires Wf(db) && InsertFavorite(db, u, recipe).Ok?
    ensures IsFavorited(InsertFavorite(db, u, recipe).value, Member(u, staff), recipe)
    ensures viewer.Anonymous? || viewer.id != u || other != recipe ==>
      IsFavorited(InsertFavorite(db, u, recipe).value, viewer, other) == IsFavorited(db, viewer, other)
  {
  }

  lemma NotFavoritedAfterDelete(db: Db, u: Id, recipe: Id, staff: bool)
    requires Wf(db)
    ensures !IsFavorited(DeleteFavorite(db, u, recipe), Member(u, staff), recipe)
  {
  }

  lemma InCartAfterInsert(db: Db, u: Id, recipe: Id, staff: bool)
    requires Wf(db) && InsertCartItem(db, u, recipe).Ok?
    ensures IsInShoppingCart(InsertCartItem(db, u, recipe).value, Member(u, staff), recipe)
  {
  }

  lemma NotInCartAfterDelete(db: Db, u: Id, recipe: Id, staff: bool)
    requires Wf(db)
    ensures !IsInShoppingCart(DeleteCartItem(db, u, recipe), Member(u, staff), recipe)
  {
  }

  /** Once a recipe is deleted nobody has it favourited or in their cart. */
  lemma DeletedRecipeUnflagged(db: Db, recipe: Id, user: Requester)
    requires Wf(db)
    ensures !IsFavorited(DeleteRecipe(db, recipe), user, recipe)
    ensures !IsInShoppingCart(DeleteRecipe(db, recipe), user, recipe)
  {
  }

  /** A flag can only be set for an existing recipe and an existing user. */
  lemma FlagsReferToRows(db: Db, user: Requester, recipe: Id)
    requires Wf(db)
    ensures IsFavorited(db, user, recipe) || IsInShoppingCart(db, user, recipe) ==>
      user.Member? && user.id in db.users && recipe in db.recipes
  {
  }

  /** Nobody is shown as subscribed to themselves. */
  lemma NeverSubscribedToSelf(db: Db, u: Id, staff: bool)
    requires Wf(db)
    ensures !IsSubscribed(db, Member(u, staff), u)
  {
  }

  lemma SubscribedAfterFollow(db: Db, follower: Id, influencer: Id, staff: bool)
    requires Wf(db) && InsertFollow(db, follower, influencer).Ok?
    ensures IsSubscribed(InsertFollow(db, follower, influencer).value, Member(follower, staff), influencer)
    ensures IsSubscribed(InsertFollow(db, follower, influencer).value, Member(influencer, staff), follower)
      == IsSubscribed(db, Member(influencer, staff), follower)
  {
  }

  lemma NotSubscribedAfterUnfollow(db: Db, follower: Id, influencer: Id, staff: bool)
    requires Wf(db)
    ensures !IsSubscribed(DeleteFollow(db, follower, influencer), Member(follower, staff), influencer)
  {
  }

  /** After a user is deleted nobody is subscribed to them. */
  lemma DeletedUserHasNoSubscribers(db: Db, u: Id, viewer: Requester)
    requires Wf(db)
    ensures !IsSubscribed(DeleteUser(db, u), viewer, u)
  {
  }
}
