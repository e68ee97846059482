/**
 * Character classes and string operations with Python's meaning: `str.isspace`,
 * ASCII `str.lower`/`str.upper`, `str.startswith`, `str.split(sep)`, and the
 * decimal rendering `str(n)` of a non-negative integer.
 */
module Text {
  import opened Wrappers

  /** ASCII decimal digits; `int()` also takes other Unicode digits, which this model does not. */
  predicate IsDigit(c: char) {
    '0' <= c <= '9'
  }

  function DigitValue(c: char): (d: nat)
    requires IsDigit(c)
    ensures d < 10
  {
    c as int - '0' as int
  }

  function DigitChar(d: nat): (c: char)
    requires d < 10
    ensures IsDigit(c) && DigitValue(c) == d
  {
    (d + '0' as int) as char
  }

  /**
   * Python's whitespace (`str.isspace`, what `str.strip()` removes): the
   * characters of Unicode bidirectional class WS, B or S or category Zs.
   */
  predicate IsSpace(c: char) {
    || ('\t' <= c <= '\r')
    || ('\U{1C}' <= c <= ' ')
    || c == '\U{85}' || c == '\U{A0}' || c == '\U{1680}'
    || ('\U{2000}' <= c <= '\U{200A}')
    || c == '\U{2028}' || c == '\U{2029}' || c == '\U{202F}'
    || c == '\U{205F}' || c == '\U{3000}'
  }

  /**
   * The whitespace CPython's `int()` skips around a number: below U+0080 only
   * '\t' to '\r' and the space (so not the separators U+001C to U+001F), and
   * from U+0080 on every character `str.isspace` accepts.
   */
  predicate IsIntSpace(c: char) {
    ('\t' <= c <= '\r') || c == ' ' || (c >= '\U{80}' && IsSpace(c))
  }

  /** The two whitespace classes text is trimmed of: `str.strip()`'s and `int()`'s. */
  datatype Whitespace = StrWhitespace | IntWhitespace

  predicate IsWhitespace(w: Whitespace, c: char) {
    match w
    case StrWhitespace => IsSpace(c)
    case IntWhitespace => IsIntSpace(c)
  }

  predicate NoSpaces(s: string) {
    forall i :: 0 <= i < |s| ==> !IsSpace(s[i])
  }

  /** Removes the leading characters of the class `w`. */
  function TrimStart(s: string, w: Whitespace): (r: string)
    ensures |r| <= |s| && r == s[|s| - |r|..]
    ensures forall i :: 0 <= i < |s| - |r| ==> IsWhitespace(w, s[i])
    ensures |r| > 0 ==> !IsWhitespace(w, r[0])
    decreases |s|
  {
    if |s| > 0 && IsWhitespace(w, s[0]) then TrimStart(s[1..], w) else s
  }

  /** Removes the trailing characters of the class `w`. */
  function TrimEnd(s: string, w: Whitespace): (r: string)
    ensures |r| <= |s| && r == s[..|r|]
    ensures forall i :: |r| <= i < |s| ==> IsWhitespace(w, s[i])
    ensures |r| > 0 ==> !IsWhitespace(w, r[|r| - 1])
    decreases |s|
  {
    if |s| > 0 && IsWhitespace(w, s[|s| - 1]) then TrimEnd(s[..|s| - 1], w) else s
  }

  /** `str.strip()`. */
  function Strip(s: string): string {
    TrimEnd(TrimStart(s, StrWhitespace), StrWhitespace)
  }

  /** The surrounding whitespace `int()` ignores, removed. */
  function IntStrip(s: string): string {
    TrimEnd(TrimStart(s, IntWhitespace), IntWhitespace)
  }

  /** Text without a character of the class has nothing to trim. */
  lemma TrimOfFree(s: string, w: Whitespace)
    requires forall i :: 0 <= i < |s| ==> !IsWhitespace(w, s[i])
    ensures TrimStart(s, w) == s && TrimEnd(s, w) == s
  {
  }

  lemma StripOfSpaceFree(s: string)
    requires NoSpaces(s)
    ensures Strip(s) == s
    ensures IntStrip(s) == s
  {
    TrimOfFree(s, StrWhitespace);
    TrimOfFree(s, IntWhitespace);
  }

  /** One space on either side of a space-free, non-empty string is stripped off. */
  lemma StripOfPadded(p: string)
    requires NoSpaces(p) && |p| > 0
    ensures Strip(" " + p + " ") == p
  {
    var q := p + " ";
    assert (" " + q)[1..] == q;
    assert TrimStart(" " + p + " ", StrWhitespace) == TrimStart(q, StrWhitespace) by {
      assert " " + p + " " == " " + q;
    }
    assert q[0] == p[0];
    assert TrimStart(q, StrWhitespace) == q;
    assert q[..|q| - 1] == p;
    assert TrimEnd(q, StrWhitespace) == TrimEnd(p, StrWhitespace);
    StripOfSpaceFree(p);
  }

  /** A character that is not whitespace survives `str.strip()`. */
  lemma StripKeeps(s: string, k: nat)
    requires k < |s| && !IsSpace(s[k])
    ensures s[k] in Strip(s)
  {
    var t0 := TrimStart(s, StrWhitespace);
    var off := |s| - |t0|;
    assert k >= off;
    assert t0[k - off] == s[k];
    var t := TrimEnd(t0, StrWhitespace);
    assert k - off < |t|;
    assert t[k - off] == s[k];
  }

  function LowerChar(c: char): char {
    if 'A' <= c <= 'Z' then (c as int + 32) as char else c
  }

  function UpperChar(c: char): char {
    if 'a' <= c <= 'z' then (c as int - 32) as char else c
  }

  /** `str.lower()` restricted to ASCII letters; every other character is kept. */
  function AsciiLower(s: string): (r: string)
    ensures |r| == |s|
    ensures forall i :: 0 <= i < |s| ==> r[i] == LowerChar(s[i])
  {
    seq(|s|, i requires 0 <= i < |s| => LowerChar(s[i]))
  }

  /** `str.upper()` restricted to ASCII letters. */
  function AsciiUpper(s: string): (r: string)
    ensures |r| == |s|
    ensures forall i :: 0 <= i < |s| ==> r[i] == UpperChar(s[i])
  {
    seq(|s|, i requires 0 <= i < |s| => UpperChar(s[i]))
  }

  predicate StartsWith(s: string, prefix: string) {
    |prefix| <= |s| && s[..|prefix|] == prefix
  }

  /** `sep` occurs in `s` starting at index `i`. */
  predicate OccursAt(s: string, sep: string, i: int) {
    0 <= i && i + |sep| <= |s| && s[i..i + |sep|] == sep
  }

  /** `str.find(sep)`: the first index at which `sep` occurs, if any. */
  function IndexOf(s: string, sep: string): (r: Option<nat>)
    requires |sep| > 0
    ensures r.Some? ==> OccursAt(s, sep, r.value)
    ensures r.Some? ==> forall j :: 0 <= j < r.value ==> !OccursAt(s, sep, j)
    ensures r.None? ==> forall j :: 0 <= j ==> !OccursAt(s, sep, j)
    decreases |s|
  {
    if |s| < |sep| then None
    else if s[..|sep|] == sep then Some(0)
    else
      var rest := IndexOf(s[1..], sep);
      assert forall j :: 1 <= j ==> (OccursAt(s, sep, j) <==> OccursAt(s[1..], sep, j - 1)) by {
        forall j | 1 <= j
          ensures OccursAt(s, sep, j) <==> OccursAt(s[1..], sep, j - 1)
        {
          if j + |sep| <= |s| {
            assert s[1..][j - 1..j - 1 + |sep|] == s[j..j + |sep|];
          }
        }
      }
      match rest
      case None => None
      case Some(i) => Some(i + 1)
  }

  /** The inverse of `Split`: `sep.join(parts)`. */
  function Join(parts: seq<string>, sep: string): string
    requires |parts| >= 1
  {
    if |parts| == 1 then parts[0] else parts[0] + sep + Join(parts[1..], sep)
  }

  /** `s.split(sep)` for a non-empty separator: cut at each leftmost occurrence. */
  function Split(s: string, sep: string): (parts: seq<string>)
    requires |sep| > 0
    ensures |parts| >= 1
    ensures Join(parts, sep) == s
    ensures forall k :: 0 <= k < |parts| ==> IndexOf(parts[k], sep).None?
    decreases |s|
  {
    match IndexOf(s, sep)
    case None => [s]
    case Some(i) =>
      var head := s[..i];
      var tail := Split(s[i + |sep|..], sep);
      assert s == head + sep + s[i + |sep|..];
      assert IndexOf(head, sep).None? by {
        forall j | 0 <= j
          ensures !OccursAt(head, sep, j)
        {
          if j + |sep| <= |head| {
            assert s[j..j + |sep|] == head[j..j + |sep|];
            assert !OccursAt(s, sep, j);
          }
        }
      }
      [head] + tail
  }

  /** The last element of `s.split(sep)`, Python's `s.split(sep)[-1]`. */
  function LastPart(s: string, sep: string): string
    requires |sep| > 0
  {
    var parts := Split(s, sep);
    parts[|parts| - 1]
  }

  /** Splitting cuts at the first occurrence of `sep` and splits the rest. */
  lemma SplitAtFirst(s: string, sep: string, i: nat)
    requires |sep| > 0 && IndexOf(s, sep) == Some(i)
    ensures Split(s, sep) == [s[..i]] + Split(s[i + |sep|..], sep)
  {
  }

  /** A string with no occurrence of `sep` is split into itself alone. */
  lemma SplitWithoutSeparator(s: string, sep: string)
    requires |sep| > 0
    requires IndexOf(s, sep).None?
    ensures Split(s, sep) == [s]
  {
  }

  /** A string lacking the separator's first character does not contain it. */
  lemma {:induction false} NoFirstCharNoOccurrence(s: string, sep: string)
    requires |sep| > 0
    requires forall i :: 0 <= i < |s| ==> s[i] != sep[0]
    ensures IndexOf(s, sep).None?
  {
    forall j | 0 <= j
      ensures !OccursAt(s, sep, j)
    {
      if j + |sep| <= |s| {
        assert s[j..j + |sep|][0] == s[j];
      }
    }
  }

  /**
   * When the first occurrence of `sep` in `a + sep` is the appended one,
   * splitting `a + sep + b` cuts off exactly `a`.
   */
  lemma {:induction false} SplitAfterHead(a: string, sep: string, b: string)
    requires |sep| > 0
    requires IndexOf(a + sep, sep) == Some(|a|)
    ensures Split(a + sep + b, sep) == [a] + Split(b, sep)
  {
    var s := a + sep + b;
    assert OccursAt(s, sep, |a|) by {
      assert s[|a|..|a| + |sep|] == sep;
    }
    forall j | 0 <= j < |a|
      ensures !OccursAt(s, sep, j)
    {
      assert (a + sep)[j..j + |sep|] == s[j..j + |sep|];
      assert !OccursAt(a + sep, sep, j);
    }
    assert IndexOf(s, sep) == Some(|a|);
    assert s[..|a|] == a;
    assert s[|a| + |sep|..] == b;
  }

  /** Splitting cuts after `a` when `a` lacks the separator's first character. */
  lemma SplitAfterPlainHead(a: string, sep: string, b: string)
    requires |sep| > 0
    requires forall i :: 0 <= i < |a| ==> a[i] != sep[0]
    ensures Split(a + sep + b, sep) == [a] + Split(b, sep)
  {
    PlainHead(a, sep);
    SplitAfterHead(a, sep, b);
  }

  /** In `a + sep`, where `a` lacks the separator's first character, the first occurrence is the appended one. */
  lemma PlainHead(a: string, sep: string)
    requires |sep| > 0
    requires forall i :: 0 <= i < |a| ==> a[i] != sep[0]
    ensures IndexOf(a + sep, sep) == Some(|a|)
  {
    var s := a + sep;
    forall j | 0 <= j < |a|
      ensures !OccursAt(s, sep, j)
    {
      assert s[j..j + |sep|][0] == a[j];
    }
    assert OccursAt(s, sep, |a|) by {
      assert s[|a|..] == sep;
    }
  }

  /**
   * A template `a + sep + b` whose head is cut off cleanly determines both
   * halves.
   */
  lemma HeadDetermines(a1: string, b1: string, a2: string, b2: string, sep: string)
    requires |sep| > 0
    requires IndexOf(a1 + sep, sep) == Some(|a1|) && IndexOf(a2 + sep, sep) == Some(|a2|)
    requires a1 + sep + b1 == a2 + sep + b2
    ensures a1 == a2 && b1 == b2
  {
    SplitAfterHead(a1, sep, b1);
    SplitAfterHead(a2, sep, b2);
    assert Split(a1 + sep + b1, sep)[0] == a1;
    assert Split(a2 + sep + b2, sep)[0] == a2;
    assert (a1 + sep + b1)[|a1| + |sep|..] == b1;
    assert (a2 + sep + b2)[|a2| + |sep|..] == b2;
  }

  /** `str(n)` for `n >= 0`: the shortest decimal rendering. */
  function Decimal(n: nat): (s: string)
    ensures |s| >= 1
    ensures forall i :: 0 <= i < |s| ==> IsDigit(s[i])
    ensures |s| > 1 ==> s[0] != '0'
  {
    if n < 10 then [DigitChar(n)] else Decimal(n / 10) + [DigitChar(n % 10)]
  }

  function Pow10(k: nat): (p: nat)
    ensures p >= 1
  {
    if k == 0 then 1 else 10 * Pow10(k - 1)
  }

  /** A number below 10^k has at most k decimal digits. */
  lemma {:induction false} DecimalLength(n: nat, k: nat)
    requires k >= 1 && n < Pow10(k)
    ensures |Decimal(n)| <= k
    decreases k
  {
    if n >= 10 {
      assert k >= 2;
      DecimalLength(n / 10, k - 1);
    }
  }

  /** The number a string of decimal digits denotes, leading zeros allowed. */
  function DigitsValue(s: string): nat
    requires forall i :: 0 <= i < |s| ==> IsDigit(s[i])
  {
    if |s| == 0 then 0 else 10 * DigitsValue(s[..|s| - 1]) + DigitValue(s[|s| - 1])
  }

  /** Reading back the decimal rendering of `n` gives `n`. */
  lemma {:induction false} DigitsValueOfDecimal(n: nat)
    ensures DigitsValue(Decimal(n)) == n
  {
    var s := Decimal(n);
    if n >= 10 {
      DigitsValueOfDecimal(n / 10);
      assert s[..|s| - 1] == Decimal(n / 10);
    }
  }
}
