/**
 * The user serializers: the `recipes` list of a shown author cut to the
 * `recipes_limit` query parameter, and the password-change check.
 */
module UserSerializers {
  import opened Wrappers
  import opened Text
  import opened Fields
  import opened QueryParams
  import Schema

  function Min(a: int, b: int): int {
    if a <= b then a else b
  }

  /** `if limit:` — present and not the empty string. */
  predicate LimitGiven(limit: Option<string>) {
    limit.Some? && |limit.value| > 0
  }

  /**
   * `get_recipes`: the author's recipes in listing order; with a limit, it is
   * validated as the `recipes_limit` parameter and the list cut after that
   * many. The cut becomes the query's SQL `LIMIT`, which SQLite refuses for a
   * number beyond its 64-bit integers; that database error is not caught, so
   * the request ends in a server error.
   */
  function GetRecipes(listing: seq<Schema.Id>, limit: Option<string>)
    : (r: Result<seq<Schema.Id>, Refusal<map<string, FieldError>>>)
    ensures !LimitGiven(limit) ==> r == Ok(listing)
    ensures LimitGiven(limit) ==>
      (r.Ok? <==> ParseNatural(limit.value).Ok? && ParseNatural(limit.value).value <= Schema.SqliteIntMax)
    ensures LimitGiven(limit) && ParseNatural(limit.value).Err? ==>
      r == Err(Invalid(map[LimitKey := LimitError(limit.value)]))
    ensures LimitGiven(limit) && ParseNatural(limit.value).Ok? && ParseNatural(limit.value).value > Schema.SqliteIntMax ==>
      r == Err(ServerError)
    ensures LimitGiven(limit) && r.Ok? ==>
      r.value == listing[..Min(ParseNatural(limit.value).value, |listing|)]
  {
    if LimitGiven(limit) then
      OnlyLimit(limit.value);
      match ParseQueryParams(map[LimitKey := limit.value])
      case Err(e) => Err(Invalid(e))
      case Ok(q) =>
        var n := q.recipesLimit.value;
        if n > Schema.SqliteIntMax then Err(ServerError) else Ok(listing[..Min(n, |listing|)])
    else
      Ok(listing)
  }

  /** A limit sent as the decimal text of an n SQLite can take keeps the first min(n, count) recipes. */
  lemma LimitOfRenderedNumber(listing: seq<Schema.Id>, n: nat)
    requires n <= Schema.SqliteIntMax
    ensures GetRecipes(listing, Some(Decimal(n))) == Ok(listing[..Min(n, |listing|)])
  {
    DecimalFitsSqlite(n);
    NaturalRoundTrip(n);
  }

  /** A limit beyond SQLite's integers passes validation and then fails in the database. */
  lemma LimitBeyondSqlite(listing: seq<Schema.Id>, n: nat)
    requires n > Schema.SqliteIntMax && |Decimal(n)| <= MaxStrDigits
    ensures GetRecipes(listing, Some(Decimal(n))) == Err(ServerError)
  {
    NaturalRoundTrip(n);
  }

  /** "9223372036854775808", which is 2^63, is the smallest such limit. */
  lemma SmallestOverflowingLimit(listing: seq<Schema.Id>)
    ensures GetRecipes(listing, Some(Decimal(Schema.SqliteIntMax + 1))) == Err(ServerError)
  {
    Pow10Of19();
    DecimalLength(Schema.SqliteIntMax + 1, 19);
    LimitBeyondSqlite(listing, Schema.SqliteIntMax + 1);
  }

  lemma Pow10Of19()
    ensures Pow10(19) == 10_000_000_000_000_000_000
  {
    assert Pow10(4) == 10_000;
    assert Pow10(8) == 100_000_000;
    assert Pow10(12) == 1_000_000_000_000;
    assert Pow10(16) == 10_000_000_000_000_000;
  }

  /** SQLite's integers have at most 19 decimal digits, well within `int()`'s limit. */
  lemma DecimalFitsSqlite(n: nat)
    requires n <= Schema.SqliteIntMax
    ensures |Decimal(n)| <= 19 <= MaxStrDigits
  {
    Pow10Of19();
    DecimalLength(n, 19);
  }

  /** With a limit, the result is a prefix of the listing and never longer than the limit. */
  lemma LimitedListIsPrefix(listing: seq<Schema.Id>, limit: Option<string>)
    requires GetRecipes(listing, limit).Ok?
    ensures var r := GetRecipes(listing, limit).value;
      && |r| <= |listing| && r == listing[..|r|]
      && (LimitGiven(limit) ==> |r| <= ParseNatural(limit.value).value)
  {
  }

  /**
   * The result is the author's recipes by title, and holds the alphabetically
   * first ones: no recipe of the author left out has a title before theirs.
   */
  lemma LimitedAuthorListing(db: Schema.Db, author: Schema.Id, listing: seq<Schema.Id>, limit: Option<string>)
    requires Schema.IsAuthorListing(db, author, listing)
    requires GetRecipes(listing, limit).Ok?
    ensures var r := GetRecipes(listing, limit).value;
      && Schema.AllRecipes(db, r) && Schema.RecipesByTitle(db, r)
      && (forall i :: 0 <= i < |r| ==> db.recipes[r[i]].author == author)
      && (forall i, x | 0 <= i < |r| && x in db.recipes && db.recipes[x].author == author && x !in r ::
            Schema.TitleLe(db.recipes[r[i]].title, db.recipes[x].title))
  {
    var r := GetRecipes(listing, limit).value;
    LimitedListIsPrefix(listing, limit);
    Schema.ListingPrefix(db, author, listing, |r|);
  }

  /** "0" keeps nothing; an empty or missing limit keeps everything. */
  lemma LimitExamples(listing: seq<Schema.Id>)
    ensures GetRecipes(listing, Some("0")) == Ok([])
    ensures GetRecipes(listing, Some("")) == Ok(listing)
    ensures GetRecipes(listing, None) == Ok(listing)
  {
    LimitOfRenderedNumber(listing, 0);
    assert Decimal(0) == "0";
  }

  /** Text that is not a natural number is refused rather than ignored. */
  lemma BadLimitsRefused(listing: seq<Schema.Id>)
    ensures GetRecipes(listing, Some("abc")).Err?
    ensures GetRecipes(listing, Some("-1")).Err?
  {
    ParseNaturalExamples();
    assert LimitGiven(Some("abc"));
    MinusOneRefused();
    assert LimitGiven(Some("-1"));
  }

  /** A limit of only whitespace is present, so it is validated, and refused as blank. */
  lemma WhitespaceLimitIsBlank(listing: seq<Schema.Id>)
    ensures GetRecipes(listing, Some(" ")) == Err(Invalid(map[LimitKey := FieldError.Blank]))
  {
    assert TrimStart(" ", StrWhitespace) == [];
    assert IsBlank(" ");
    BlankFailsBothParsers(" ");
  }

  /**
   * `str.strip()` removes the separator U+001C but `int()` does not skip it, so
   * a limit led by one is not blank and is refused as no number.
   */
  lemma SeparatorLimitRefused(listing: seq<Schema.Id>)
    ensures GetRecipes(listing, Some("\U{1C}2")) == Err(Invalid(map[LimitKey := NotNaturalNumber]))
  {
    SeparatorTextRefused();
    assert LimitGiven(Some("\U{1C}2"));
  }

  lemma SeparatorTextRefused()
    ensures ParseNatural("\U{1C}2").Err? && LimitError("\U{1C}2") == NotNaturalNumber
  {
    SeparatorNotInteger();
    SeparatorNotBlank();
  }

  lemma SeparatorNotInteger()
    ensures ParseNatural("\U{1C}2").Err?
  {
    ForeignCharacterRejected("\U{1C}2", 0);
  }

  lemma SeparatorNotBlank()
    ensures !IsBlank("\U{1C}2")
  {
    var limit := "\U{1C}2";
    assert limit[1] == '2';
    StripKeeps(limit, 1);
  }

  lemma MinusOneRefused()
    ensures ParseNatural("-1").Err?
  {
    NegativeRejected(1);
    assert "-" + Decimal(1) == "-1";
  }

  // ---------------------------------------------------------------------------
  // Password change

  datatype PasswordField = CurrentPassword | NewPassword | NonField

  /** One field of the request body: absent, JSON null, or text. */
  datatype PasswordInput = Missing | Null | Given(text: string)

  datatype PasswordIssue =
    | Required           // "This field is required."
    | NullNotAllowed     // "This field may not be null."
    | Blank              // "This field may not be blank."
    | NullCharacter      // "Null characters are not allowed."
    | IncorrectCurrent   // "your current password is incorrect"
    | TooWeak            // what the password validators report
    | SameAsCurrent      // "your new password shall differ from current"

  const NullChar: char := '\0'

  /**
   * `CharField(required=True).run_validation`: an absent field is required,
   * null is refused, text that strips to nothing is blank, and the stripped
   * text may hold no null character.
   */
  function CleanText(input: PasswordInput): (r: Result<string, PasswordIssue>)
    ensures r == Err(Required) <==> input.Missing?
    ensures r == Err(NullNotAllowed) <==> input.Null?
    ensures r == Err(PasswordIssue.Blank) <==> input.Given? && |Strip(input.text)| == 0
    ensures r == Err(NullCharacter) <==> input.Given? && |Strip(input.text)| > 0 && NullChar in Strip(input.text)
    ensures r.Ok? <==> input.Given? && |Strip(input.text)| > 0 && NullChar !in Strip(input.text)
    ensures r.Ok? ==> r.value == Strip(input.text)
  {
    match input
    case Missing => Err(Required)
    case Null => Err(NullNotAllowed)
    case Given(text) =>
      var t := Strip(text);
      if |t| == 0 then Err(PasswordIssue.Blank)
      else if NullChar in t then Err(NullCharacter)
      else Ok(t)
  }

  /** The issue of one password field, if any: its own checks first, then the `validate_<field>` hook. */
  function FieldIssue(input: PasswordInput, accepted: string -> bool, issue: PasswordIssue): Option<PasswordIssue> {
    match CleanText(input)
    case Err(e) => Some(e)
    case Ok(t) => if accepted(t) then None else Some(issue)
  }

  /**
   * The password-change serializer. `checkPassword` stands for the stored
   * hash check and `strongEnough` for the password validators, both applied to
   * the cleaned text. The two fields are checked first, each on its own; only
   * when both pass is the proposed password compared with the current one.
   */
  function ValidatePasswordChange(current: PasswordInput, proposed: PasswordInput, checkPassword: string -> bool, strongEnough: string -> bool)
    : (r: Result<(string, string), map<PasswordField, PasswordIssue>>)
    ensures r.Ok? <==>
      && CleanText(current).Ok? && checkPassword(CleanText(current).value)
      && CleanText(proposed).Ok? && strongEnough(CleanText(proposed).value)
      && CleanText(proposed).value != CleanText(current).value
    ensures r.Ok? ==> r.value == (CleanText(current).value, CleanText(proposed).value)
    ensures r.Err? ==> (NonField in r.error <==>
      && CleanText(current).Ok? && checkPassword(CleanText(current).value)
      && CleanText(proposed).Ok? && strongEnough(CleanText(proposed).value))
    ensures r.Err? && NonField in r.error ==> r.error == map[NonField := SameAsCurrent]
    ensures r.Err? ==> (CurrentPassword in r.error <==> FieldIssue(current, checkPassword, IncorrectCurrent).Some?)
    ensures r.Err? && CurrentPassword in r.error ==> r.error[CurrentPassword] == FieldIssue(current, checkPassword, IncorrectCurrent).value
    ensures r.Err? ==> (NewPassword in r.error <==> FieldIssue(proposed, strongEnough, TooWeak).Some?)
    ensures r.Err? && NewPassword in r.error ==> r.error[NewPassword] == FieldIssue(proposed, strongEnough, TooWeak).value
  {
    var currentIssue := FieldIssue(current, checkPassword, IncorrectCurrent);
    var newIssue := FieldIssue(proposed, strongEnough, TooWeak);
    if currentIssue.Some? || newIssue.Some? then
      var m1: map<PasswordField, PasswordIssue> := if currentIssue.Some? then map[CurrentPassword := currentIssue.value] else map[];
      Err(if newIssue.Some? then m1[NewPassword := newIssue.value] else m1)
    else if CleanText(proposed).value == CleanText(current).value then
      Err(map[NonField := SameAsCurrent])
    else
      Ok((CleanText(current).value, CleanText(proposed).value))
  }

  /** An empty request body is answered with "required" for both fields. */
  lemma MissingFieldsRequired(checkPassword: string -> bool, strongEnough: string -> bool)
    ensures ValidatePasswordChange(Missing, Missing, checkPassword, strongEnough)
      == Err(map[CurrentPassword := Required, NewPassword := Required])
  {
  }

  /**
   * A null character anywhere in non-blank text is refused by the field itself,
   * so the password validators never see it.
   */
  lemma NullCharacterNeverChecked(current: PasswordInput, text: string, k: nat, checkPassword: string -> bool, strongEnough: string -> bool)
    requires k < |text| && text[k] == NullChar
    ensures var r := ValidatePasswordChange(current, Given(text), checkPassword, strongEnough);
      r.Err? && NewPassword in r.error && r.error[NewPassword] == NullCharacter
  {
    assert !IsSpace(text[k]);
    StripKeeps(text, k);
  }

  /** Whatever the other checks say, a proposed password equal to the current one is never accepted. */
  lemma SamePasswordRefused(current: string, proposed: string, checkPassword: string -> bool, strongEnough: string -> bool)
    requires Strip(proposed) == Strip(current)
    ensures ValidatePasswordChange(Given(current), Given(proposed), checkPassword, strongEnough).Err?
  {
  }

  /** Passwords that differ only in surrounding whitespace count as the same. */
  lemma PaddedPasswordIsTheSame(password: string, checkPassword: string -> bool, strongEnough: string -> bool)
    requires NoSpaces(password) && |password| > 0 && NullChar !in password
    requires checkPassword(password) && strongEnough(password)
    ensures ValidatePasswordChange(Given(password), Given(" " + password + " "), checkPassword, strongEnough)
      == Err(map[NonField := SameAsCurrent])
  {
    StripOfSpaceFree(password);
    StripOfPadded(password);
  }

  /** Whitespace-free passwords without null characters that differ, and that both checks accept, are returned as given. */
  lemma DifferentPasswordAccepted(current: string, proposed: string, checkPassword: string -> bool, strongEnough: string -> bool)
    requires NoSpaces(current) && NoSpaces(proposed) && |current| > 0 && |proposed| > 0
    requires NullChar !in current && NullChar !in proposed
    requires current != proposed && checkPassword(current) && strongEnough(proposed)
    ensures ValidatePasswordChange(Given(current), Given(proposed), checkPassword, strongEnough) == Ok((current, proposed))
  {
    StripOfSpaceFree(current);
    StripOfSpaceFree(proposed);
  }
}
