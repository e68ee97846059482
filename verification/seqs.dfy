/** Duplicate detection as the source writes it: `len(xs) != len(set(xs))`. */
module Seqs {

  /** No value occurs twice. */
  ghost predicate Distinct<T>(s: seq<T>) {
    forall i, j :: 0 <= i < j < |s| ==> s[i] != s[j]
  }

  /** `set(xs)`. */
  function Elements<T(==)>(s: seq<T>): set<T> {
    set x | x in s
  }

  /** Python's `len(set(xs)) == len(xs)`. */
  predicate SameSizeAsSet<T(==)>(s: seq<T>) {
    |Elements(s)| == |s|
  }

  lemma {:induction false} ElementsNoLarger<T>(s: seq<T>)
    ensures |Elements(s)| <= |s|
  {
    if |s| > 0 {
      ElementsNoLarger(s[1..]);
      assert Elements(s) == {s[0]} + Elements(s[1..]);
    }
  }

  /** Comparing the length with the size of the set detects exactly the repeated values. */
  lemma {:induction false} SameSizeAsSetIffDistinct<T>(s: seq<T>)
    ensures SameSizeAsSet(s) <==> Distinct(s)
  {
    if |s| > 0 {
      var t := s[1..];
      SameSizeAsSetIffDistinct(t);
      ElementsNoLarger(t);
      assert Elements(s) == {s[0]} + Elements(t);
      if s[0] in t {
        assert Elements(s) == Elements(t);
        var k :| 0 <= k < |t| && t[k] == s[0];
        assert s[k + 1] == s[0];
      } else {
        assert |Elements(s)| == 1 + |Elements(t)|;
        if Distinct(t) {
          forall i, j | 0 <= i < j < |s|
            ensures s[i] != s[j]
          {
            if i == 0 {
              assert s[j] == t[j - 1];
            } else {
              assert s[i] == t[i - 1] && s[j] == t[j - 1];
            }
          }
        } else {
          var i, j :| 0 <= i < j < |t| && t[i] == t[j];
          assert s[i + 1] == s[j + 1];
        }
      }
    }
  }
}
