/**
 * `hex_color_validator`: Python's `re.match(r"^#(?:[0-9a-fA-F]{3}){1,2}$", value)`.
 * `$` matches at the end of the text and also just before a final newline.
 */
module ColorValidators {
  import opened Wrappers
  import opened Text

  datatype ColorError = NotHexColor

  predicate IsHexDigit(c: char) {
    ('0' <= c <= '9') || ('a' <= c <= 'f') || ('A' <= c <= 'F')
  }

  predicate AllHex(s: string) {
    forall i :: 0 <= i < |s| ==> IsHexDigit(s[i])
  }

  /** "#" followed by one or two groups of three hex digits, and nothing else. */
  predicate HashAndHexGroups(s: string) {
    (|s| == 4 || |s| == 7) && s[0] == '#' && AllHex(s[1..])
  }

  /** The pattern matches the whole value, or the value minus one final newline. */
  predicate MatchesHexColor(value: string) {
    || HashAndHexGroups(value)
    || (|value| > 0 && value[|value| - 1] == '\n' && HashAndHexGroups(value[..|value| - 1]))
  }

  function HexColorValidator(value: string): (r: Outcome<ColorError>)
    ensures r.Pass? <==> MatchesHexColor(value)
  {
    if MatchesHexColor(value) then Pass else Fail(NotHexColor)
  }

  /** Three or six hex digits after "#", with or without a final newline, are accepted. */
  lemma HexGroupsAccepted(digits: string, newline: bool)
    requires |digits| == 3 || |digits| == 6
    requires AllHex(digits)
    ensures HexColorValidator("#" + digits + (if newline then "\n" else "")).Pass?
  {
    var core := "#" + digits;
    assert core[1..] == digits;
    if newline {
      assert (core + "\n")[..|core|] == core;
    } else {
      assert core + "" == core;
    }
  }

  /** Only lengths 4 and 7, plus one for a final newline, can pass. */
  lemma WrongLengthRejected(value: string)
    requires |value| != 4 && |value| != 5 && |value| != 7 && |value| != 8
    ensures HexColorValidator(value).Fail?
  {
  }

  /** The value has to begin with "#". */
  lemma MissingHashRejected(value: string)
    requires |value| == 0 || value[0] != '#'
    ensures HexColorValidator(value).Fail?
  {
  }

  /** A non-hex character among the digits is rejected. */
  lemma NonHexDigitRejected(value: string, k: nat)
    requires 1 <= k < |value| && value[k] != '\n' && !IsHexDigit(value[k])
    ensures HexColorValidator(value).Fail?
  {
    if |value| > 0 && value[|value| - 1] == '\n' {
      assert value[..|value| - 1][1..][k - 1] == value[k];
    }
    assert value[1..][k - 1] == value[k];
  }

  /** Hex digits may be written in either case: changing case never changes the verdict. */
  lemma VerdictIgnoresCase(value: string)
    ensures HexColorValidator(AsciiLower(value)) == HexColorValidator(value)
    ensures HexColorValidator(AsciiUpper(value)) == HexColorValidator(value)
  {
    CaseKeepsShape(value, AsciiLower(value));
    CaseKeepsShape(value, AsciiUpper(value));
  }

  /** Strings that agree on where the hex digits, "#" and newlines are have the same verdict. */
  lemma CaseKeepsShape(a: string, b: string)
    requires |a| == |b|
    requires forall i :: 0 <= i < |a| ==>
      && (IsHexDigit(a[i]) <==> IsHexDigit(b[i]))
      && (a[i] == '#' <==> b[i] == '#')
      && (a[i] == '\n' <==> b[i] == '\n')
    ensures MatchesHexColor(a) <==> MatchesHexColor(b)
  {
    if |a| > 0 {
      var a' := a[..|a| - 1];
      var b' := b[..|b| - 1];
      assert forall i :: 0 <= i < |a'| - 1 ==> a'[1..][i] == a[i + 1] && b'[1..][i] == b[i + 1];
      assert forall i :: 0 <= i < |a| - 1 ==> a[1..][i] == a[i + 1] && b[1..][i] == b[i + 1];
    }
  }

  lemma ColorExamples()
    ensures HexColorValidator("#abc").Pass?
    ensures HexColorValidator("#ABCDEF").Pass?
    ensures HexColorValidator("#abc\n").Pass?
    ensures HexColorValidator("#ggg").Fail?
    ensures HexColorValidator("abc").Fail?
    ensures HexColorValidator("#abcd").Fail?
    ensures HexColorValidator("#abc\n\n").Fail?
  {
    HexGroupsAccepted("abc", false);
    assert "#" + "abc" + "" == "#abc";
    HexGroupsAccepted("ABCDEF", false);
    assert "#" + "ABCDEF" + "" == "#ABCDEF";
    HexGroupsAccepted("abc", true);
    assert "#" + "abc" + "\n" == "#abc\n";
    NonHexDigitRejected("#ggg", 1);
    MissingHashRejected("abc");
    WrongLengthRejected("#abc\n\n");
  }

  /** The colour a new tag gets by default. */
  const DefaultTagColor := "#FF0000"

  lemma DefaultColorAccepted()
    ensures HexColorValidator(DefaultTagColor).Pass?
  {
    HexGroupsAccepted("FF0000", false);
    assert "#" + "FF0000" + "" == DefaultTagColor;
  }
}
