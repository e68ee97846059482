/**
 * The custom serializer fields: the strict "1"/"0" flag, the non-negative
 * integer parsed with Python's `int()`, and the extension taken from a
 * `data:image/...;base64,...` upload.
 */
module Fields {
  import opened Wrappers
  import opened Text

  datatype FieldError =
    | Blank              // CharField's "This field may not be blank."
    | NotNaturalNumber   // "must be a positive integer or 0"
    | NotFlag            // "must be either 1 or 0"

  /**
   * Both text fields below are CharFields: before their own conversion runs,
   * text that is empty or only whitespace is refused as blank.
   */
  predicate IsBlank(data: string) {
    |Strip(data)| == 0
  }

  // ---------------------------------------------------------------------------
  // StringToBoolField

  /** `StringToBoolField.to_internal_value`: exactly "1" and "0" are flags. */
  function ParseFlag(data: string): (r: Result<bool, FieldError>)
    ensures r == Ok(true) <==> data == "1"
    ensures r == Ok(false) <==> data == "0"
    ensures r.Err? <==> data != "1" && data != "0"
    ensures r.Err? ==> r.error == NotFlag
  {
    if data == "1" then Ok(true)
    else if data == "0" then Ok(false)
    else Err(NotFlag)
  }

  /** How a client writes a flag in a query string. */
  function RenderFlag(b: bool): string {
    if b then "1" else "0"
  }

  /** Rendering a flag and parsing it gives the flag back. */
  lemma FlagRoundTrip(b: bool)
    ensures ParseFlag(RenderFlag(b)) == Ok(b)
  {
  }

  /** The only strings that parse are the two renderings. */
  lemma FlagParsesOnlyRenderings(data: string)
    ensures ParseFlag(data).Ok? ==> RenderFlag(ParseFlag(data).value) == data
  {
  }

  lemma FlagRejectsLookalikes()
    ensures ParseFlag("true").Err? && ParseFlag(" 1").Err? && ParseFlag("").Err?
    ensures ParseFlag("01").Err? && ParseFlag("1 ").Err?
  {
  }

  // ---------------------------------------------------------------------------
  // Python's int() on a string, base 10

  /** CPython's default limit on the digits `int()` converts (`sys.get_int_max_str_digits()`). */
  const MaxStrDigits: nat := 4300

  /** Digits, with single underscores allowed between two digits. */
  predicate GroupedDigits(s: string) {
    && |s| > 0
    && IsDigit(s[0])
    && IsDigit(s[|s| - 1])
    && (forall i :: 0 <= i < |s| ==> IsDigit(s[i]) || s[i] == '_')
    && (forall i :: 0 <= i < |s| - 1 ==> s[i] == '_' ==> s[i + 1] != '_')
  }

  predicate AllDigits(s: string) {
    forall i :: 0 <= i < |s| ==> IsDigit(s[i])
  }

  function DropUnderscores(s: string): (r: string)
    requires forall i :: 0 <= i < |s| ==> IsDigit(s[i]) || s[i] == '_'
    ensures AllDigits(r)
    ensures |r| <= |s|
    ensures AllDigits(s) ==> r == s
  {
    if |s| == 0 then []
    else (if s[0] == '_' then [] else [s[0]]) + DropUnderscores(s[1..])
  }

  /** A leading sign, if any, and the text after it. */
  function SplitSign(t: string): (bool, string) {
    if |t| > 0 && (t[0] == '+' || t[0] == '-') then (t[0] == '-', t[1..]) else (false, t)
  }

  /**
   * `int(data)` for a str: surrounding `int()` whitespace, an optional sign, decimal
   * digits with single underscores between them, and at most `MaxStrDigits`
   * digits; None stands for the ValueError.
   */
  function PythonInt(data: string): Option<int> {
    var (negative, body) := SplitSign(IntStrip(data));
    if !GroupedDigits(body) then None
    else
      var digits := DropUnderscores(body);
      if |digits| > MaxStrDigits then None
      else
        var v: int := DigitsValue(digits);
        Some(if negative then -v else v)
  }

  /** `StringToNaturalNumberField.to_internal_value`. */
  function ParseNatural(data: string): (r: Result<int, FieldError>)
    ensures r.Ok? ==> r.value >= 0
    ensures r.Ok? <==> PythonInt(data).Some? && PythonInt(data).value >= 0
    ensures r.Ok? ==> r.value == PythonInt(data).value
    ensures r.Err? ==> r.error == NotNaturalNumber
  {
    match PythonInt(data)
    case None => Err(NotNaturalNumber)
    case Some(v) => if v < 0 then Err(NotNaturalNumber) else Ok(v)
  }

  /** A decimal rendering is a well-formed digit group denoting its number. */
  lemma DecimalBody(n: nat)
    ensures AllDigits(Decimal(n)) && GroupedDigits(Decimal(n))
    ensures DropUnderscores(Decimal(n)) == Decimal(n)
    ensures DigitsValue(Decimal(n)) == n
  {
    DigitsValueOfDecimal(n);
  }

  /** `int()` of stripped text whose sign is followed by plain digits. */
  lemma PythonIntOfDigits(t: string, negative: bool, body: string, value: int)
    requires IntStrip(t) == t && SplitSign(t) == (negative, body)
    requires AllDigits(body) && GroupedDigits(body) && |body| <= MaxStrDigits
    requires value == if negative then -(DigitsValue(body) as int) else DigitsValue(body) as int
    ensures PythonInt(t) == Some(value)
  {
  }

  /** The decimal rendering of every `n` that `int()` may convert parses back to `n`. */
  lemma NaturalRoundTrip(n: nat)
    requires |Decimal(n)| <= MaxStrDigits
    ensures ParseNatural(Decimal(n)) == Ok(n)
  {
    DecimalBody(n);
    PlainDigits(Decimal(n), n);
  }

  /** `int()` reads plain digits denoting `n` as `n`. */
  lemma PlainDigits(d: string, n: nat)
    requires AllDigits(d) && GroupedDigits(d) && |d| <= MaxStrDigits && DigitsValue(d) == n
    ensures PythonInt(d) == Some(n as int)
  {
    EndsNotTrimmed(d);
    assert SplitSign(d) == (false, d);
    PythonIntOfDigits(d, false, d, n);
  }

  /** A minus sign in front of a positive number is rejected; "-0" is zero. */
  lemma NegativeRejected(n: nat)
    requires |Decimal(n)| <= MaxStrDigits
    ensures n > 0 ==> ParseNatural("-" + Decimal(n)).Err?
    ensures n == 0 ==> ParseNatural("-" + Decimal(n)) == Ok(0)
  {
    NegatedDecimal(n);
  }

  /** `int()` reads a minus sign before a decimal rendering as the negated number. */
  lemma NegatedDecimal(n: nat)
    requires |Decimal(n)| <= MaxStrDigits
    ensures PythonInt("-" + Decimal(n)) == Some(-(n as int))
  {
    DecimalBody(n);
    NegatedDigits(Decimal(n), n);
  }

  /** `int()` reads a minus sign before plain digits denoting `n` as `-n`. */
  lemma NegatedDigits(d: string, n: nat)
    requires AllDigits(d) && GroupedDigits(d) && |d| <= MaxStrDigits && DigitsValue(d) == n
    ensures PythonInt("-" + d) == Some(-(n as int))
  {
    NegatedText("-" + d, d, n);
  }

  /** The same with the signed text named, so the two steps below meet on one term. */
  lemma NegatedText(t: string, d: string, n: nat)
    requires t == "-" + d
    requires AllDigits(d) && GroupedDigits(d) && |d| <= MaxStrDigits && DigitsValue(d) == n
    ensures PythonInt(t) == Some(-(n as int))
  {
    SignedStrip(d);
    PythonIntOfDigits(t, true, d, -(n as int));
  }

  /** A minus sign before digits: nothing to strip, and the sign comes off cleanly. */
  lemma SignedStrip(d: string)
    requires AllDigits(d) && |d| > 0
    ensures IntStrip("-" + d) == "-" + d
    ensures SplitSign("-" + d) == (true, d)
  {
    var s := "-" + d;
    assert s[0] == '-' && s[|s| - 1] == d[|d| - 1];
    EndsNotTrimmed(s);
    assert s[1..] == d;
  }

  /** `int()` whitespace is trimmed from the ends only, so text whose ends are not whitespace stays whole. */
  lemma EndsNotTrimmed(s: string)
    requires |s| > 0 && !IsIntSpace(s[0]) && !IsIntSpace(s[|s| - 1])
    ensures IntStrip(s) == s
  {
    assert TrimStart(s, IntWhitespace) == s;
  }

  /** A character that is neither `int()` whitespace, a digit, a sign nor an underscore makes `int()` fail. */
  lemma {:induction false} ForeignCharacterRejected(data: string, k: nat)
    requires k < |data|
    requires !IsIntSpace(data[k]) && !IsDigit(data[k])
    requires data[k] != '+' && data[k] != '-' && data[k] != '_'
    ensures PythonInt(data) == None
    ensures ParseNatural(data).Err?
  {
    var t0 := TrimStart(data, IntWhitespace);
    var off := |data| - |t0|;
    assert k >= off;
    assert t0[k - off] == data[k];
    var t := TrimEnd(t0, IntWhitespace);
    assert k - off < |t|;
    assert t[k - off] == data[k];
    var (negative, body) := SplitSign(t);
    if |t| > 0 && (t[0] == '+' || t[0] == '-') {
      assert k - off >= 1;
      assert body[k - off - 1] == data[k];
    } else {
      assert body[k - off] == data[k];
    }
  }

  /** Blank text would fail either conversion too, so the blank check only changes which error is reported. */
  lemma BlankFailsBothParsers(data: string)
    requires IsBlank(data)
    ensures ParseFlag(data).Err? && ParseNatural(data).Err?
  {
    BlankIsAllSpace(data);
    assert forall i :: 0 <= i < |data| ==> !IsDigit(data[i]);
    DigitFreeRejected(data);
    assert data != "1" && data != "0" by {
      if |data| == 1 {
        assert IsSpace(data[0]);
      }
    }
  }

  /** Text that strips to nothing is whitespace throughout. */
  lemma BlankIsAllSpace(data: string)
    requires IsBlank(data)
    ensures forall i :: 0 <= i < |data| ==> IsSpace(data[i])
  {
    var t0 := TrimStart(data, StrWhitespace);
    assert |TrimEnd(t0, StrWhitespace)| == 0;
    assert |t0| == 0;
  }

  /** Without a digit there is no number for `int()` to read. */
  lemma {:induction false} DigitFreeRejected(data: string)
    requires forall i :: 0 <= i < |data| ==> !IsDigit(data[i])
    ensures PythonInt(data) == None
  {
    var t := IntStrip(data);
    IntStripInside(data);
    forall j | 0 <= j < |t|
      ensures !IsDigit(t[j])
    {
      assert t[j] in data;
    }
    NoDigitNoNumber(t);
  }

  /** What `int()` keeps after trimming is drawn from the original text. */
  lemma IntStripInside(s: string)
    ensures forall j :: 0 <= j < |IntStrip(s)| ==> IntStrip(s)[j] in s
  {
    var t0 := TrimStart(s, IntWhitespace);
    var off := |s| - |t0|;
    var t := TrimEnd(t0, IntWhitespace);
    forall j | 0 <= j < |t|
      ensures t[j] in s
    {
      assert t[j] == t0[j];
      assert t0[j] == s[off + j];
    }
  }

  /** Stripped text without a digit has no digit group after its sign. */
  lemma NoDigitNoNumber(t: string)
    requires forall j :: 0 <= j < |t| ==> !IsDigit(t[j])
    ensures !GroupedDigits(SplitSign(t).1)
  {
    var body := SplitSign(t).1;
    if |body| > 0 {
      if |t| > 0 && (t[0] == '+' || t[0] == '-') {
        assert body[0] == t[1];
      } else {
        assert body[0] == t[0];
      }
    }
  }

  lemma ParseNaturalExamples()
    ensures ParseNatural("abc").Err?
    ensures ParseNatural("1.5").Err?
    ensures ParseNatural("").Err?
    ensures ParseNatural("\U{1C}5").Err?
    ensures ParseNatural(" 5\n") == Ok(5)
  {
    ForeignCharacterRejected("abc", 0);
    ForeignCharacterRejected("1.5", 1);
    ForeignCharacterRejected("\U{1C}5", 0);
    SurroundingWhitespaceIgnored();
  }

  /** `int()` skips a leading space and a trailing newline. */
  lemma SurroundingWhitespaceIgnored()
    ensures PythonInt(" 5\n") == Some(5)
  {
    PaddedFiveStrips();
    assert SplitSign("5") == (false, "5");
    assert DigitsValue("5") == 5;
    PythonIntOfDigits("5", false, "5", 5);
  }

  lemma PaddedFiveStrips()
    ensures IntStrip(" 5\n") == "5" && IntStrip("5") == "5"
  {
    var data := " 5\n";
    assert IsIntSpace(' ') && IsIntSpace('\n') && !IsIntSpace('5');
    assert TrimStart(data, IntWhitespace) == TrimStart("5\n", IntWhitespace) by {
      assert data[1..] == "5\n";
    }
    assert TrimStart("5\n", IntWhitespace) == "5\n";
    assert TrimEnd("5\n", IntWhitespace) == TrimEnd("5", IntWhitespace) by {
      assert "5\n"[..1] == "5";
    }
    EndsNotTrimmed("5");
  }

  lemma MinusZeroIsZero()
    ensures ParseNatural("-0") == Ok(0)
  {
    NegativeRejected(0);
    assert "-" + Decimal(0) == "-0";
  }

  // ---------------------------------------------------------------------------
  // Base64ImageField: the extension taken from a data URI

  const ImagePrefix := "data:image"
  const Base64Marker := ";base64,"

  /**
   * `format, imgstr = data.split(";base64,")` raising ValueError. The field
   * does not turn it into a validation error, so DRF lets it escape and the
   * request ends in a server error rather than a field error.
   */
  datatype UnpackFailure = UnpackFailure

  /** What the field hands on to Django's ImageField. */
  datatype ImageInput =
    | Untouched(data: string)                   // not a data URI: passed through as given
    | Embedded(extension: string, payload: string) // the file's extension and its base64 text

  /**
   * The string handling of `Base64ImageField.to_internal_value`: the part
   * before ";base64," must be unique, and the extension is what follows its
   * last "/".
   */
  function ImageFromData(data: string): (r: Result<ImageInput, UnpackFailure>)
    ensures !StartsWith(data, ImagePrefix) ==> r == Ok(Untouched(data))
    ensures r.Err? <==> StartsWith(data, ImagePrefix) && |Split(data, Base64Marker)| != 2
  {
    if !StartsWith(data, ImagePrefix) then Ok(Untouched(data))
    else
      var parts := Split(data, Base64Marker);
      if |parts| != 2 then Err(UnpackFailure)
      else Ok(Embedded(LastPart(parts[0], "/"), parts[1]))
  }

  /** `last` is the whole of `s`, or `s` has `sep` right before its final `|last|` characters. */
  predicate FollowsSeparator(s: string, last: string, sep: string) {
    |last| == |s| || (|last| + |sep| <= |s| && s[|s| - |last| - |sep|..|s| - |last|] == sep)
  }

  /** `last` is a suffix of `s` free of `sep`, and is all of `s` or follows a `sep`. */
  predicate FinalSegment(s: string, last: string, sep: string)
    requires |sep| > 0
  {
    && |last| <= |s| && s[|s| - |last|..] == last
    && IndexOf(last, sep).None?
    && FollowsSeparator(s, last, sep)
  }

  /** `LastPart(s, sep)` is the final segment of `s` between occurrences of `sep`. */
  lemma {:induction false} LastPartIsFinalSegment(s: string, sep: string)
    requires |sep| > 0
    ensures FinalSegment(s, LastPart(s, sep), sep)
    decreases |s|
  {
    match IndexOf(s, sep)
    case None =>
      SplitWithoutSeparator(s, sep);
      LastOfOne(s, sep);
    case Some(i) =>
      var rest := s[i + |sep|..];
      LastPartAfterSeparator(s, sep, i);
      LastPartIsFinalSegment(rest, sep);
      assert OccursAt(s, sep, i);
      FinalSegmentStep(s, sep, i, rest, LastPart(rest, sep));
  }

  /** Past the first occurrence of `sep`, the last part is that of the remainder. */
  lemma LastPartAfterSeparator(s: string, sep: string, i: nat)
    requires |sep| > 0 && IndexOf(s, sep) == Some(i)
    ensures LastPart(s, sep) == LastPart(s[i + |sep|..], sep)
  {
    SplitAtFirst(s, sep, i);
    LastPartOfCons(s, sep, s[..i], Split(s[i + |sep|..], sep));
  }

  lemma LastOfOne(s: string, sep: string)
    requires |sep| > 0 && Split(s, sep) == [s]
    ensures LastPart(s, sep) == s
  {
  }

  lemma LastPartOfCons(s: string, sep: string, head: string, rest: seq<string>)
    requires |sep| > 0 && |rest| > 0 && Split(s, sep) == [head] + rest
    ensures LastPart(s, sep) == rest[|rest| - 1]
  {
  }

  /** A final segment of what follows an occurrence of `sep` is a final segment of the whole. */
  lemma FinalSegmentStep(s: string, sep: string, i: nat, rest: string, last: string)
    requires |sep| > 0 && OccursAt(s, sep, i) && rest == s[i + |sep|..]
    requires FinalSegment(rest, last, sep)
    ensures FinalSegment(s, last, sep)
  {
    SuffixAfterSeparator(s, sep, i, rest, last);
  }

  /** The slicing half of `FinalSegmentStep`. */
  lemma SuffixAfterSeparator(s: string, sep: string, i: nat, rest: string, last: string)
    requires OccursAt(s, sep, i) && rest == s[i + |sep|..]
    requires |last| <= |rest| && rest[|rest| - |last|..] == last
    requires FollowsSeparator(rest, last, sep)
    ensures |last| <= |s| && s[|s| - |last|..] == last
    ensures FollowsSeparator(s, last, sep)
  {
    var pre := s[..i + |sep|];
    assert s == pre + rest;
    assert pre[i..] == sep;
    var cut := |s| - |last|;
    assert cut == |pre| + (|rest| - |last|);
    SliceOfAppend(pre, rest, cut, |s|);
    if |last| == |rest| {
      SliceOfAppend(pre, rest, i, cut);
    } else {
      SliceOfAppend(pre, rest, cut - |sep|, cut);
    }
  }

  /** A slice of `a + b` lying inside `b`, or ending where `a` ends. */
  lemma SliceOfAppend(a: string, b: string, lo: int, hi: int)
    requires 0 <= lo <= hi <= |a| + |b|
    ensures |a| <= lo ==> (a + b)[lo..hi] == b[lo - |a|..hi - |a|]
    ensures hi == |a| ==> (a + b)[lo..hi] == a[lo..]
  {
  }

  /** `data` is `head`, ";base64," and `payload`, and neither part contains ";base64,". */
  predicate SplitsAtMarker(data: string, head: string, payload: string) {
    && data == head + Base64Marker + payload
    && IndexOf(head, Base64Marker).None?
    && IndexOf(payload, Base64Marker).None?
  }

  /** `ext` is free of "/" and ends `head`, either as all of it or right after a "/". */
  predicate EndsWithExtension(head: string, ext: string) {
    && IndexOf(ext, "/").None?
    && |ext| <= |head| && head[|head| - |ext|..] == ext
    && FollowsSeparator(head, ext, "/")
  }

  /** The text in front of the payload's ";base64,". */
  function HeadBeforePayload(data: string, payload: string): string
    requires |payload| + |Base64Marker| <= |data|
  {
    data[..|data| - |payload| - |Base64Marker|]
  }

  /** Whatever the field decodes has the shape of a data URI around that extension and payload. */
  lemma EmbeddedShape(data: string, ext: string, payload: string)
    requires ImageFromData(data) == Ok(Embedded(ext, payload))
    ensures StartsWith(data, ImagePrefix)
    ensures |payload| + |Base64Marker| <= |data|
    ensures SplitsAtMarker(data, HeadBeforePayload(data, payload), payload)
    ensures EndsWithExtension(HeadBeforePayload(data, payload), ext)
  {
    var parts := Split(data, Base64Marker);
    assert |parts| == 2;
    var head := parts[0];
    assert payload == parts[1];
    assert ext == LastPart(head, "/");
    assert Join(parts[1..], Base64Marker) == payload;
    assert data == head + Base64Marker + payload;
    assert HeadBeforePayload(data, payload) == head;
    assert IndexOf(head, Base64Marker).None?;
    assert IndexOf(payload, Base64Marker).None?;
    LastPartIsFinalSegment(head, "/");
  }

  /** Uploading `data:image/<ext>;base64,<payload>` yields that extension and payload. */
  lemma ImageRoundTrip(ext: string, payload: string)
    requires forall i :: 0 <= i < |ext| ==> ext[i] != '/' && ext[i] != ';'
    requires forall i :: 0 <= i < |payload| ==> payload[i] != ';'
    ensures ImageFromData(ImagePrefix + "/" + ext + Base64Marker + payload) == Ok(Embedded(ext, payload))
  {
    var head := ImagePrefix + "/" + ext;
    var data := head + Base64Marker + payload;
    assert StartsWith(data, ImagePrefix) by {
      assert data[..|ImagePrefix|] == ImagePrefix;
    }
    MarkerSplitOfUri(head, payload);
    SlashSplitOfHead(ext);
  }

  lemma MarkerSplitOfUri(head: string, payload: string)
    requires forall i :: 0 <= i < |head| ==> head[i] != ';'
    requires forall i :: 0 <= i < |payload| ==> payload[i] != ';'
    ensures Split(head + Base64Marker + payload, Base64Marker) == [head, payload]
  {
    SplitAfterPlainHead(head, Base64Marker, payload);
    NoFirstCharNoOccurrence(payload, Base64Marker);
  }

  lemma SlashSplitOfHead(ext: string)
    requires forall i :: 0 <= i < |ext| ==> ext[i] != '/'
    ensures LastPart(ImagePrefix + "/" + ext, "/") == ext
  {
    var sep := "/";
    assert forall i :: 0 <= i < |ImagePrefix| ==> ImagePrefix[i] != sep[0];
    SplitAfterPlainHead(ImagePrefix, sep, ext);
    NoFirstCharNoOccurrence(ext, sep);
    SplitWithoutSeparator(ext, sep);
    LastPartOfCons(ImagePrefix + sep + ext, sep, ImagePrefix, [ext]);
  }

  lemma ImageExamples()
    ensures ImageFromData("https://x/y.png") == Ok(Untouched("https://x/y.png"))
  {
    assert "https://x/y.png"[..|ImagePrefix|][0] != ImagePrefix[0];
  }
}
