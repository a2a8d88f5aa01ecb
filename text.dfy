/**
  Text operations the matchers rely on: lower-casing and the substring test.
  Lower-casing is ASCII only: `str.lower()` on other characters is not modelled.
 */
module Text {

  predicate IsUpperChar(c: char)
  {
    'A' <= c <= 'Z'
  }

  /** ASCII lower-casing of a single character. */
  function LowerChar(c: char): (r: char)
    ensures !IsUpperChar(r)
    ensures IsUpperChar(c) ==> r as int == c as int + 32
    ensures !IsUpperChar(c) ==> r == c
  {
    if IsUpperChar(c) then (c as int + 32) as char else c
  }

  /** A string with no upper-case letter: what `s.lower()` always produces. */
  predicate IsLowerCase(s: string)
  {
    forall i :: 0 <= i < |s| ==> !IsUpperChar(s[i])
  }

  /** `s.lower()`: every character lower-cased, nothing else changed. */
  function Lower(s: string): (r: string)
    ensures IsLowerCase(r)
  {
    seq(|s|, i requires 0 <= i < |s| => LowerChar(s[i]))
  }

  /** Lower-casing twice is lower-casing once. */
  lemma LowerIdempotent(s: string)
    ensures Lower(Lower(s)) == Lower(s)
  {
  }

  /** A string is its own lower-case form exactly when it holds no upper-case letter. */
  lemma LowerFixesExactlyLowerCase(s: string)
    ensures IsLowerCase(s) <==> Lower(s) == s
  {
    if !IsLowerCase(s) {
      var i :| 0 <= i < |s| && IsUpperChar(s[i]);
      assert Lower(s)[i] != s[i];
    }
  }

  /** `a` and `b` are the same character, or the same ASCII letter written in the two cases. */
  predicate CaseVariants(a: char, b: char)
  {
    || a == b
    || (IsUpperChar(a) && b as int == a as int + 32)
    || (IsUpperChar(b) && a as int == b as int + 32)
  }

  /** Two strings have the same lower-case form exactly when they differ only in the case of their letters. */
  lemma LowerIgnoresCase(s: string, t: string)
    ensures Lower(s) == Lower(t) <==> |s| == |t| && forall i :: 0 <= i < |s| ==> CaseVariants(s[i], t[i])
  {
    if Lower(s) == Lower(t) {
      forall i | 0 <= i < |s|
        ensures CaseVariants(s[i], t[i])
      {
        assert Lower(s)[i] == Lower(t)[i];
      }
    }
  }

  /** A string with no upper-case letter is its own lower-case form. */
  lemma LowerFixes(s: string)
    requires IsLowerCase(s)
    ensures Lower(s) == s
  {
    LowerFixesExactlyLowerCase(s);
  }

  /** Python's `sub in s` on strings: `sub` occurs in `s` as a contiguous run. */
  predicate Contains(s: string, sub: string)
    decreases |s|
  {
    if |sub| > |s| then false
    else if s[..|sub|] == sub then true
    else Contains(s[1..], sub)
  }

  /** `sub` occurs in `s` starting at index `i`: the reference meaning of `in`. */
  ghost predicate OccursAt(s: string, sub: string, i: int)
  {
    0 <= i && i + |sub| <= |s| && s[i..i + |sub|] == sub
  }

  /** The scanning test `Contains` finds exactly the occurrences of `sub` in `s`. */
  lemma {:induction false} ContainsIffOccurs(s: string, sub: string)
    ensures Contains(s, sub) <==> exists i :: OccursAt(s, sub, i)
    decreases |s|
  {
    if |sub| > |s| {
      assert forall i :: !OccursAt(s, sub, i);
    } else if s[..|sub|] == sub {
      assert OccursAt(s, sub, 0);
    } else {
      ContainsIffOccurs(s[1..], sub);
      if Contains(s[1..], sub) {
        var j :| OccursAt(s[1..], sub, j);
        assert s[1..][j..j + |sub|] == s[j + 1..j + 1 + |sub|];
        assert OccursAt(s, sub, j + 1);
      } else {
        forall i | OccursAt(s, sub, i)
          ensures false
        {
          assert i != 0;
          assert s[1..][i - 1..i - 1 + |sub|] == s[i..i + |sub|];
          assert OccursAt(s[1..], sub, i - 1);
        }
      }
    }
  }

  /** One occurrence is enough for `Contains`. */
  lemma OccurrenceContained(s: string, sub: string, i: int)
    requires OccursAt(s, sub, i)
    ensures Contains(s, sub)
  {
    ContainsIffOccurs(s, sub);
  }

  /** A string holding a character that does not appear in `s` does not occur in `s`. */
  lemma {:induction false} AbsentCharNotContained(s: string, sub: string, k: nat)
    requires k < |sub| && sub[k] !in s
    ensures !Contains(s, sub)
    decreases |s|
  {
    if |sub| <= |s| {
      assert s[..|sub|][k] == s[k] && s[k] in s;
      assert forall c :: c in s[1..] ==> c in s;
      AbsentCharNotContained(s[1..], sub, k);
    }
  }
}
