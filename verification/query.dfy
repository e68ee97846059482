/**
 * `QueryParamsSerializer`: four optional query parameters, two natural
 * numbers (`pk`, `recipes_limit`) and two "1"/"0" flags (`is_favorited`,
 * `is_in_shopping_cart`). Other parameters are ignored; every faulty one is
 * reported.
 */
module QueryParams {
  import opened Wrappers
  import opened Text
  import opened Fields

  const PkKey := "pk"
  const FavoritedKey := "is_favorited"
  const CartKey := "is_in_shopping_cart"
  const LimitKey := "recipes_limit"

  datatype Params = Params(
    pk: Option<int>,
    isFavorited: Option<bool>,
    isInShoppingCart: Option<bool>,
    recipesLimit: Option<int>)

  predicate IsFlagKey(key: string) {
    key == FavoritedKey || key == CartKey
  }

  predicate IsNaturalKey(key: string) {
    key == PkKey || key == LimitKey
  }

  predicate IsParamKey(key: string) {
    IsFlagKey(key) || IsNaturalKey(key)
  }

  /** The field's own error for the text, if it fails. */
  function ConversionError(key: string, value: string): Option<FieldError>
    requires IsParamKey(key)
  {
    if IsFlagKey(key) then
      (match ParseFlag(value) case Ok(_) => None case Err(err) => Some(err))
    else
      (match ParseNatural(value) case Ok(_) => None case Err(err) => Some(err))
  }

  /** What the parameter's field makes of its text, if it fails: blank text first, then the conversion. */
  function ParamError(key: string, value: string): (e: Option<FieldError>)
    requires IsParamKey(key)
    ensures IsFlagKey(key) ==> (e.None? <==> ParseFlag(value).Ok?)
    ensures IsNaturalKey(key) ==> (e.None? <==> ParseNatural(value).Ok?)
    ensures e.Some? ==> e.value == (if IsBlank(value) then Blank else if IsFlagKey(key) then NotFlag else NotNaturalNumber)
  {
    if IsBlank(value) then
      BlankFailsBothParsers(value);
      Some(Blank)
    else
      ConversionError(key, value)
  }

  function NaturalParam(data: map<string, string>, key: string): Option<int> {
    if key in data && ParseNatural(data[key]).Ok? then Some(ParseNatural(data[key]).value) else None
  }

  function FlagParam(data: map<string, string>, key: string): Option<bool> {
    if key in data && ParseFlag(data[key]).Ok? then Some(ParseFlag(data[key]).value) else None
  }

  /** The parameter is absent, or its text is acceptable. */
  predicate ParamAccepted(data: map<string, string>, key: string)
    requires IsParamKey(key)
  {
    key !in data || ParamError(key, data[key]).None?
  }

  predicate AllAccepted(data: map<string, string>) {
    && ParamAccepted(data, PkKey)
    && ParamAccepted(data, FavoritedKey)
    && ParamAccepted(data, CartKey)
    && ParamAccepted(data, LimitKey)
  }

  /** The errors of the faulty parameters, by name. */
  function ParamErrors(data: map<string, string>): (errors: map<string, FieldError>)
    ensures forall k :: k in errors <==> k in data && IsParamKey(k) && ParamError(k, data[k]).Some?
    ensures forall k | k in errors :: IsParamKey(k) && Some(errors[k]) == ParamError(k, data[k])
  {
    map k | k in data && IsParamKey(k) && ParamError(k, data[k]).Some? :: ParamError(k, data[k]).value
  }

  /** A refused parameter shows up among the errors. */
  lemma RefusedParamReported(data: map<string, string>)
    requires !AllAccepted(data)
    ensures |ParamErrors(data)| > 0
  {
    var errors := ParamErrors(data);
    if !ParamAccepted(data, PkKey) {
      assert PkKey in errors;
    } else if !ParamAccepted(data, FavoritedKey) {
      assert FavoritedKey in errors;
    } else if !ParamAccepted(data, CartKey) {
      assert CartKey in errors;
    } else {
      assert LimitKey in errors;
    }
  }

  /** `is_valid` followed by `validated_data`. */
  function ParseQueryParams(data: map<string, string>): (r: Result<Params, map<string, FieldError>>)
    ensures r.Ok? <==> forall k | k in data && IsParamKey(k) :: ParamError(k, data[k]).None?
    ensures r.Err? ==> r.error == ParamErrors(data) && |r.error| > 0
    ensures r.Ok? ==> (r.value.pk.Some? <==> PkKey in data)
    ensures r.Ok? && PkKey in data ==> ParseNatural(data[PkKey]) == Ok(r.value.pk.value)
    ensures r.Ok? ==> (r.value.recipesLimit.Some? <==> LimitKey in data)
    ensures r.Ok? && LimitKey in data ==> ParseNatural(data[LimitKey]) == Ok(r.value.recipesLimit.value)
    ensures r.Ok? ==> (r.value.isFavorited.Some? <==> FavoritedKey in data)
    ensures r.Ok? && FavoritedKey in data ==> ParseFlag(data[FavoritedKey]) == Ok(r.value.isFavorited.value)
    ensures r.Ok? ==> (r.value.isInShoppingCart.Some? <==> CartKey in data)
    ensures r.Ok? && CartKey in data ==> ParseFlag(data[CartKey]) == Ok(r.value.isInShoppingCart.value)
  {
    if !AllAccepted(data) then
      RefusedParamReported(data);
      Err(ParamErrors(data))
    else
      Ok(Params(NaturalParam(data, PkKey), FlagParam(data, FavoritedKey), FlagParam(data, CartKey), NaturalParam(data, LimitKey)))
  }

  /** The query text a client sends for these values. */
  function RenderQueryParams(q: Params): (data: map<string, string>)
    requires q.pk.Some? ==> q.pk.value >= 0
    requires q.recipesLimit.Some? ==> q.recipesLimit.value >= 0
    ensures data.Keys <= {PkKey, FavoritedKey, CartKey, LimitKey}
  {
    var withPk: map<string, string> := if q.pk.Some? then map[PkKey := Decimal(q.pk.value)] else map[];
    var withFav := if q.isFavorited.Some? then withPk[FavoritedKey := RenderFlag(q.isFavorited.value)] else withPk;
    var withCart := if q.isInShoppingCart.Some? then withFav[CartKey := RenderFlag(q.isInShoppingCart.value)] else withFav;
    if q.recipesLimit.Some? then withCart[LimitKey := Decimal(q.recipesLimit.value)] else withCart
  }

  /** The keys are told apart by their lengths. */
  lemma KeysDistinct()
    ensures |PkKey| == 2 && |FavoritedKey| == 12 && |LimitKey| == 13 && |CartKey| == 19
  {
  }

  /** Each rendered value sits under its own key. */
  lemma RenderedEntries(q: Params)
    requires q.pk.Some? ==> q.pk.value >= 0
    requires q.recipesLimit.Some? ==> q.recipesLimit.value >= 0
    ensures var data := RenderQueryParams(q);
      && (PkKey in data <==> q.pk.Some?)
      && (q.pk.Some? ==> data[PkKey] == Decimal(q.pk.value))
      && (FavoritedKey in data <==> q.isFavorited.Some?)
      && (q.isFavorited.Some? ==> data[FavoritedKey] == RenderFlag(q.isFavorited.value))
      && (CartKey in data <==> q.isInShoppingCart.Some?)
      && (q.isInShoppingCart.Some? ==> data[CartKey] == RenderFlag(q.isInShoppingCart.value))
      && (LimitKey in data <==> q.recipesLimit.Some?)
      && (q.recipesLimit.Some? ==> data[LimitKey] == Decimal(q.recipesLimit.value))
  {
    KeysDistinct();
  }

  /** Rendered parameters parse back to the same values. */
  lemma QueryParamsRoundTrip(q: Params)
    requires q.pk.Some? ==> q.pk.value >= 0 && |Decimal(q.pk.value)| <= MaxStrDigits
    requires q.recipesLimit.Some? ==> q.recipesLimit.value >= 0 && |Decimal(q.recipesLimit.value)| <= MaxStrDigits
    ensures ParseQueryParams(RenderQueryParams(q)) == Ok(q)
  {
    var data := RenderQueryParams(q);
    RenderedEntries(q);
    if q.pk.Some? {
      NaturalRoundTrip(q.pk.value);
    }
    if q.recipesLimit.Some? {
      NaturalRoundTrip(q.recipesLimit.value);
    }
    FlagRoundTrip(true);
    FlagRoundTrip(false);
    assert AllAccepted(data);
    var r := ParseQueryParams(data);
    assert r.Ok?;
    assert r.value.pk == q.pk;
    assert r.value.recipesLimit == q.recipesLimit;
    assert r.value.isFavorited == q.isFavorited;
    assert r.value.isInShoppingCart == q.isInShoppingCart;
  }

  /** A parameter the serializer does not declare changes nothing. */
  lemma UndeclaredParamIgnored(data: map<string, string>, key: string, value: string)
    requires !IsParamKey(key)
    ensures ParseQueryParams(data[key := value]).Ok? <==> ParseQueryParams(data).Ok?
    ensures ParseQueryParams(data).Ok? ==> ParseQueryParams(data[key := value]) == ParseQueryParams(data)
    ensures ParseQueryParams(data).Err? ==> ParseQueryParams(data[key := value]).error == ParseQueryParams(data).error
  {
    var d := data[key := value];
    assert forall k | IsParamKey(k) :: (k in d <==> k in data) && (k in data ==> d[k] == data[k]);
    assert AllAccepted(d) == AllAccepted(data);
    assert ParamErrors(d) == ParamErrors(data);
  }

  /** The error `recipes_limit` reports for text it refuses. */
  function LimitError(text: string): FieldError {
    if IsBlank(text) then Blank else NotNaturalNumber
  }

  /** Given only `recipes_limit`, the serializer reports on that parameter alone. */
  lemma OnlyLimit(text: string)
    ensures var r := ParseQueryParams(map[LimitKey := text]);
      && (r.Ok? <==> ParseNatural(text).Ok?)
      && (r.Ok? ==> r.value.recipesLimit == Some(ParseNatural(text).value))
      && (r.Err? ==> r.error == map[LimitKey := LimitError(text)])
  {
    var data := map[LimitKey := text];
    LimitAloneAccepted(text);
    if !AllAccepted(data) {
      LimitAloneErrors(text);
    }
  }

  lemma LimitAloneAccepted(text: string)
    ensures AllAccepted(map[LimitKey := text]) <==> ParseNatural(text).Ok?
  {
    var data := map[LimitKey := text];
    KeysDistinct();
    assert PkKey !in data && FavoritedKey !in data && CartKey !in data;
  }

  lemma LimitAloneErrors(text: string)
    requires ParseNatural(text).Err?
    ensures ParamErrors(map[LimitKey := text]) == map[LimitKey := LimitError(text)]
  {
    var errors := ParamErrors(map[LimitKey := text]);
    LimitRefused(text);
    ErrorsOnlyUnderLimit(text);
    assert LimitKey in errors && errors[LimitKey] == LimitError(text);
    assert errors.Keys == {LimitKey};
  }

  lemma LimitRefused(text: string)
    requires ParseNatural(text).Err?
    ensures ParamError(LimitKey, text) == Some(LimitError(text))
  {
    assert IsNaturalKey(LimitKey) && !IsFlagKey(LimitKey) by {
      KeysDistinct();
    }
  }

  lemma ErrorsOnlyUnderLimit(text: string)
    ensures forall k | k in ParamErrors(map[LimitKey := text]) :: k == LimitKey
  {
    var data := map[LimitKey := text];
    forall k | k in ParamErrors(data)
      ensures k == LimitKey
    {
      assert k in data;
    }
  }
}
