/**
 * The string forms of the join rows (`__str__`). Each takes the string forms
 * of the rows it refers to: a user shows as their username, a recipe, tag or
 * ingredient as its title.
 */
module Display {
  import opened Wrappers
  import opened Text

  function FollowStr(follower: string, influencer: string): string {
    follower + " follows " + influencer
  }

  function RecipeTagStr(recipe: string, tag: string): string {
    recipe + " is tagged with " + tag
  }

  /** `quantity` is the text of the stored quantity; number formatting is not modelled. */
  function RecipeIngredientStr(recipe: string, quantity: string, ingredient: string): string {
    recipe + " includes " + quantity + " of " + ingredient
  }

  function FavoriteStr(user: string, recipe: string): string {
    user + " has saved " + recipe + " in their favorites"
  }

  lemma SpaceFreeLacksBlank(s: string)
    requires NoSpaces(s)
    ensures forall i :: 0 <= i < |s| ==> s[i] != ' '
  {
    assert IsSpace(' ');
  }

  /** Usernames hold no whitespace, so a follow line splits on blanks into its three words. */
  lemma FollowStrDecodes(follower: string, influencer: string)
    requires NoSpaces(follower) && NoSpaces(influencer)
    ensures Split(FollowStr(follower, influencer), " ") == [follower, "follows", influencer]
  {
    SpaceFreeLacksBlank(follower);
    SpaceFreeLacksBlank(influencer);
    assert FollowStr(follower, influencer) == follower + " " + ("follows" + " " + influencer);
    SplitAfterPlainHead(follower, " ", "follows" + " " + influencer);
    SplitAfterPlainHead("follows", " ", influencer);
    NoFirstCharNoOccurrence(influencer, " ");
    SplitWithoutSeparator(influencer, " ");
  }

  /** Different follow rows between whitespace-free usernames show differently. */
  lemma FollowStrInjective(a1: string, b1: string, a2: string, b2: string)
    requires NoSpaces(a1) && NoSpaces(b1) && NoSpaces(a2) && NoSpaces(b2)
    requires FollowStr(a1, b1) == FollowStr(a2, b2)
    ensures a1 == a2 && b1 == b2
  {
    FollowStrDecodes(a1, b1);
    FollowStrDecodes(a2, b2);
    assert Split(FollowStr(a1, b1), " ")[0] == a1 && Split(FollowStr(a2, b2), " ")[0] == a2;
    assert Split(FollowStr(a1, b1), " ")[2] == b1 && Split(FollowStr(a2, b2), " ")[2] == b2;
  }

  /** When neither title contains the connecting words, the line splits back into the two titles. */
  lemma RecipeTagStrDecodes(recipe: string, tag: string)
    requires IndexOf(recipe + " is tagged with ", " is tagged with ") == Some(|recipe|)
    requires IndexOf(tag, " is tagged with ").None?
    ensures Split(RecipeTagStr(recipe, tag), " is tagged with ") == [recipe, tag]
  {
    SplitAfterHead(recipe, " is tagged with ", tag);
    SplitWithoutSeparator(tag, " is tagged with ");
  }

  /** Titles may contain the connecting words, and then two rows can show alike. */
  lemma RecipeTagStrAmbiguous()
    ensures RecipeTagStr("a is tagged with b", "c") == RecipeTagStr("a", "b is tagged with c")
    ensures "a is tagged with b" != "a"
  {
  }

  /**
   * A recipe title free of " includes " and a blank-free quantity make the
   * line determine the recipe, the quantity and the ingredient.
   */
  lemma RecipeIngredientStrInjective(r1: string, q1: string, i1: string, r2: string, q2: string, i2: string)
    requires IndexOf(r1 + " includes ", " includes ") == Some(|r1|)
    requires IndexOf(r2 + " includes ", " includes ") == Some(|r2|)
    requires NoSpaces(q1) && NoSpaces(q2)
    requires RecipeIngredientStr(r1, q1, i1) == RecipeIngredientStr(r2, q2, i2)
    ensures r1 == r2 && q1 == q2 && i1 == i2
  {
    var rest1 := q1 + " of " + i1;
    var rest2 := q2 + " of " + i2;
    RegroupLine(r1, q1, i1);
    RegroupLine(r2, q2, i2);
    HeadDetermines(r1, rest1, r2, rest2, " includes ");
    QuantityDetermines(q1, i1, q2, i2);
  }

  lemma RegroupLine(r: string, q: string, i: string)
    ensures RecipeIngredientStr(r, q, i) == r + " includes " + (q + " of " + i)
  {
  }

  /** The blank-free quantity is cut off at the first blank, leaving the ingredient. */
  lemma QuantityDetermines(q1: string, i1: string, q2: string, i2: string)
    requires NoSpaces(q1) && NoSpaces(q2)
    requires q1 + " of " + i1 == q2 + " of " + i2
    ensures q1 == q2 && i1 == i2
  {
    assert q1 + " of " + i1 == q1 + " " + ("of " + i1);
    assert q2 + " of " + i2 == q2 + " " + ("of " + i2);
    SpaceFreeLacksBlank(q1);
    SpaceFreeLacksBlank(q2);
    PlainHead(q1, " ");
    PlainHead(q2, " ");
    HeadDetermines(q1, "of " + i1, q2, "of " + i2, " ");
    assert ("of " + i1)[3..] == i1 && ("of " + i2)[3..] == i2;
  }

  /** A favourite line determines its user and its recipe. */
  lemma FavoriteStrInjective(u1: string, r1: string, u2: string, r2: string)
    requires NoSpaces(u1) && NoSpaces(u2)
    requires FavoriteStr(u1, r1) == FavoriteStr(u2, r2)
    ensures u1 == u2 && r1 == r2
  {
    var tail := " in their favorites";
    assert FavoriteStr(u1, r1) == u1 + " has saved " + (r1 + tail);
    assert FavoriteStr(u2, r2) == u2 + " has saved " + (r2 + tail);
    SpaceFreeLacksBlank(u1);
    SpaceFreeLacksBlank(u2);
    PlainHead(u1, " has saved ");
    PlainHead(u2, " has saved ");
    HeadDetermines(u1, r1 + tail, u2, r2 + tail, " has saved ");
    assert (r1 + tail)[..|r1|] == r1 && (r2 + tail)[..|r2|] == r2;
  }
}
