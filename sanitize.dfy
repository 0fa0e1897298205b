/** `sanitize_string`: the link text stored by `add` loses every opening
    parenthesis, closing parenthesis and single quote; everything else is
    kept, in order.
 */
module Sanitize {

  /** The characters `sanitize_string` deletes. */
  predicate IsStripped(c: char) {
    c == '(' || c == ')' || c == '\''
  }

  predicate IsClean(s: string) {
    forall i :: 0 <= i < |s| ==> !IsStripped(s[i])
  }

  /** `r` can be obtained from `s` by deleting characters. */
  predicate IsSubsequence(r: string, s: string)
    decreases |s|
  {
    if |r| == 0 then true
    else if |s| == 0 then false
    else (r[0] == s[0] && IsSubsequence(r[1..], s[1..])) || IsSubsequence(r, s[1..])
  }

  /** `str.replace(&['(', ')', '\''], "")`. */
  function SanitizeString(s: string): (r: string)
    ensures IsClean(r)
    ensures IsSubsequence(r, s)
    ensures forall c :: !IsStripped(c) ==> multiset(r)[c] == multiset(s)[c]
    decreases |s|
  {
    if |s| == 0 then []
    else
      var rest := SanitizeString(s[1..]);
      assert s == [s[0]] + s[1..];
      if IsStripped(s[0]) then rest else [s[0]] + rest
  }

  /** Sanitizing works character by character: it distributes over
      concatenation. */
  lemma {:induction false} SanitizeAppend(a: string, b: string)
    ensures SanitizeString(a + b) == SanitizeString(a) + SanitizeString(b)
    decreases |a|
  {
    if |a| == 0 {
      assert a + b == b;
    } else {
      assert (a + b)[0] == a[0];
      assert (a + b)[1..] == a[1..] + b;
      SanitizeAppend(a[1..], b);
    }
  }

  /** A string without any of the three characters is returned unchanged,
      and only such a string is. */
  lemma {:induction false} SanitizeFixedPoint(s: string)
    ensures SanitizeString(s) == s <==> IsClean(s)
    decreases |s|
  {
    if |s| > 0 && IsClean(s) {
      assert IsClean(s[1..]) by {
        forall i | 0 <= i < |s[1..]| ensures !IsStripped(s[1..][i]) {
          assert s[1..][i] == s[i + 1];
        }
      }
      SanitizeFixedPoint(s[1..]);
    }
  }

  lemma SanitizeIdempotent(s: string)
    ensures SanitizeString(SanitizeString(s)) == SanitizeString(s)
  {
    SanitizeFixedPoint(SanitizeString(s));
  }

  lemma {:induction false} SubsequenceMultiset(r: string, s: string)
    requires IsSubsequence(r, s)
    ensures multiset(r) <= multiset(s)
    decreases |s|
  {
    if |r| > 0 {
      assert s == [s[0]] + s[1..];
      if r[0] == s[0] && IsSubsequence(r[1..], s[1..]) {
        SubsequenceMultiset(r[1..], s[1..]);
        assert r == [r[0]] + r[1..];
      } else {
        SubsequenceMultiset(r, s[1..]);
      }
    }
  }

  lemma SubsequenceOfEmpty(r: string)
    requires IsSubsequence(r, [])
    ensures r == []
  {
  }

  /** The three properties in `SanitizeString`'s contract pin its result
      down: a clean subsequence of `s` that keeps every other character as
      often as `s` has it is the sanitized string, i.e. the result is
      exactly `s` filtered by "not one of the three characters". */
  lemma {:induction false} SanitizeCharacterized(s: string, r: string)
    requires IsClean(r)
    requires IsSubsequence(r, s)
    requires forall c :: !IsStripped(c) ==> multiset(r)[c] == multiset(s)[c]
    ensures r == SanitizeString(s)
    decreases |s|
  {
    if |s| == 0 {
      SubsequenceOfEmpty(r);
    } else {
      var c := s[0];
      assert s == [c] + s[1..];
      if IsStripped(c) {
        if |r| > 0 {
          assert r[0] != c;
        }
        assert IsSubsequence(r, s[1..]);
        SanitizeCharacterized(s[1..], r);
      } else {
        assert multiset(s)[c] == multiset(s[1..])[c] + 1;
        if |r| > 0 && r[0] == c && IsSubsequence(r[1..], s[1..]) {
          assert r == [c] + r[1..];
          assert IsClean(r[1..]) by {
            forall i | 0 <= i < |r[1..]| ensures !IsStripped(r[1..][i]) {
              assert r[1..][i] == r[i + 1];
            }
          }
          SanitizeCharacterized(s[1..], r[1..]);
        } else {
          assert |r| > 0;
          assert IsSubsequence(r, s[1..]);
          SubsequenceMultiset(r, s[1..]);
          assert false;
        }
      }
    }
  }
}
