/**
  Concrete cases from the library's matcher tests, proved of the model.
 */
module MatcherScenarios {
  import opened Basics
  import opened Text
  import opened Elements
  import opened Matchers

  function Anchor(href: string): Element
  {
    Element(Some("a"), map["href" := href], [])
  }

  /**
    `AttributeSubstringTagElementMatcher(['a'], ['href'], all_substrings=['all1', 'all2'],
    any_substrings=['any1', 'any2'], disallowed_substrings=['bad1', 'bad2'])`.
   */
  const CombinedMatcher: Matcher :=
    NewAttributeSubstringMatcher(Collection(["a"]), Collection(["href"]), Some(Collection(["all1", "all2"])),
                                 Some(Collection(["any1", "any2"])), Some(Collection(["bad1", "bad2"]))).value

  const Good := "all1 all2 any1"
  const MissingAll := "all1 any1"
  const MissingAny := "all1 all2"
  const WithBad := "all1 all2 any1 bad1"

  /** The stored sets of the combined matcher of the test. */
  predicate CombinedShape(m: Matcher)
  {
    && m.AttributeSubstringTag?
    && m.tags == {"a"} && m.attributes == {"href"}
    && m.allSubstrings == {"all1", "all2"}
    && m.anySubstrings == {"any1", "any2"}
    && m.disallowedSubstrings == {"bad1", "bad2"}
  }

  /** A matcher built from names and substrings that are already lower-case stores them as they are. */
  lemma BuiltFromLowerCase(tags: seq<string>, attributes: seq<string>, all: seq<string>, any: seq<string>,
                           disallowed: seq<string>)
    requires AllLowerCase(tags) && AllLowerCase(attributes)
    requires AllLowerCase(all) && AllLowerCase(any) && AllLowerCase(disallowed)
    ensures var m := NewAttributeSubstringMatcher(Collection(tags), Collection(attributes), Some(Collection(all)),
                                                  Some(Collection(any)), Some(Collection(disallowed))).value;
      && m.AttributeSubstringTag?
      && m.tags == (set x | x in tags) && m.attributes == (set x | x in attributes)
      && m.allSubstrings == (set x | x in all) && m.anySubstrings == (set x | x in any)
      && m.disallowedSubstrings == (set x | x in disallowed)
  {
    forall x | x in tags + attributes + all + any + disallowed {
      LowerFixes(x);
    }
  }

  predicate AllLowerCase(xs: seq<string>)
  {
    forall x :: x in xs ==> IsLowerCase(x)
  }

  lemma PairLowerCase(a: string, b: string)
    requires IsLowerCase(a) && IsLowerCase(b)
    ensures AllLowerCase([a]) && AllLowerCase([a, b])
  {
  }

  lemma CombinedWordsLowerCase()
    ensures IsLowerCase("a") && IsLowerCase("href")
    ensures IsLowerCase("all1") && IsLowerCase("all2")
    ensures IsLowerCase("any1") && IsLowerCase("any2")
    ensures IsLowerCase("bad1") && IsLowerCase("bad2")
  {
  }

  /** The constructor stores the given names and substrings, which are already lower-case, as they are. */
  lemma CombinedFields()
    ensures CombinedShape(CombinedMatcher)
  {
    CombinedWordsLowerCase();
    PairLowerCase("a", "href");
    PairLowerCase("href", "a");
    PairLowerCase("all1", "all2");
    PairLowerCase("any1", "any2");
    PairLowerCase("bad1", "bad2");
    BuiltFromLowerCase(["a"], ["href"], ["all1", "all2"], ["any1", "any2"], ["bad1", "bad2"]);
    ElementsOf("a", "href");
    ElementsOf("href", "a");
    ElementsOf("all1", "all2");
    ElementsOf("any1", "any2");
    ElementsOf("bad1", "bad2");
  }

  lemma ElementsOf(a: string, b: string)
    ensures (set x | x in [a]) == {a}
    ensures (set x | x in [a, b]) == {a, b}
  {
  }

  lemma GoodIsLowerCase()
    ensures IsLowerCase(Good)
  {
  }

  lemma GoodHasAllAndAny()
    ensures Contains(Good, "all1") && Contains(Good, "all2") && Contains(Good, "any1")
  {
    OccurrenceContained(Good, "all1", 0);
    OccurrenceContained(Good, "all2", 5);
    OccurrenceContained(Good, "any1", 10);
  }

  lemma GoodLacksBad()
    ensures !Contains(Good, "bad1") && !Contains(Good, "bad2")
  {
    AbsentCharNotContained(Good, "bad1", 0);
    AbsentCharNotContained(Good, "bad2", 0);
  }

  /** With the element's attribute value known, only the substring conditions are left to decide. */
  lemma CombinedOn(m: Matcher, v: string)
    requires CombinedShape(m)
    requires IsLowerCase(v)
    ensures DoesMatch(m, Anchor(v)) <==> PassesSubstrings(v, m.allSubstrings, m.anySubstrings, m.disallowedSubstrings)
  {
    LowerFixes(v);
    LowerFixes("a");
    assert Lower(Anchor(v).attrs["href"]) == v;
  }

  /** The substring conditions of the combined matcher, for any value with the right occurrences. */
  lemma PassesCombined(m: Matcher, v: string)
    requires CombinedShape(m)
    requires Contains(v, "all1") && Contains(v, "all2") && Contains(v, "any1")
    requires !Contains(v, "bad1") && !Contains(v, "bad2")
    ensures PassesSubstrings(v, m.allSubstrings, m.anySubstrings, m.disallowedSubstrings)
  {
  }

  /** `href="all1 all2 any1"` is matched. */
  lemma CombinedAcceptsAllAndAny()
    ensures DoesMatch(CombinedMatcher, Anchor(Good))
  {
    CombinedFields();
    AcceptsGood(CombinedMatcher);
  }

  lemma AcceptsGood(m: Matcher)
    requires CombinedShape(m)
    ensures DoesMatch(m, Anchor(Good))
  {
    GoodIsLowerCase();
    GoodHasAllAndAny();
    GoodLacksBad();
    PassesCombined(m, Good);
    CombinedOn(m, Good);
  }

  /** `href="all1 any1"` is not matched: all2 is missing. */
  lemma CombinedRejectsMissingAll()
    ensures !DoesMatch(CombinedMatcher, Anchor(MissingAll))
  {
    CombinedFields();
    RejectsMissingAll(CombinedMatcher);
  }

  lemma RejectsMissingAll(m: Matcher)
    requires CombinedShape(m)
    ensures !DoesMatch(m, Anchor(MissingAll))
  {
    MissingAllIsLowerCase();
    MissingAllLacksAll2();
    CombinedOn(m, MissingAll);
  }

  lemma MissingAllIsLowerCase()
    ensures IsLowerCase(MissingAll)
  {
  }

  lemma MissingAllLacksAll2()
    ensures !Contains(MissingAll, "all2")
  {
    AbsentCharNotContained(MissingAll, "all2", 3);
  }

  /** `href="all1 all2"` is not matched: none of the any-substrings occurs. */
  lemma CombinedRejectsMissingAny()
    ensures !DoesMatch(CombinedMatcher, Anchor(MissingAny))
  {
    CombinedFields();
    RejectsMissingAny(CombinedMatcher);
  }

  lemma RejectsMissingAny(m: Matcher)
    requires CombinedShape(m)
    ensures !DoesMatch(m, Anchor(MissingAny))
  {
    MissingAnyIsLowerCase();
    MissingAnyLacksAny();
    CombinedOn(m, MissingAny);
  }

  lemma MissingAnyIsLowerCase()
    ensures IsLowerCase(MissingAny)
  {
  }

  lemma MissingAnyLacksAny()
    ensures !Contains(MissingAny, "any1") && !Contains(MissingAny, "any2")
  {
    AbsentCharNotContained(MissingAny, "any1", 1);
    AbsentCharNotContained(MissingAny, "any2", 1);
  }

  /** `href="all1 all2 any1 bad1"` is not matched: a disallowed substring occurs. */
  lemma CombinedRejectsDisallowed()
    ensures !DoesMatch(CombinedMatcher, Anchor(WithBad))
  {
    CombinedFields();
    RejectsDisallowed(CombinedMatcher);
  }

  lemma RejectsDisallowed(m: Matcher)
    requires CombinedShape(m)
    ensures !DoesMatch(m, Anchor(WithBad))
  {
    WithBadIsLowerCase();
    OccurrenceContained(WithBad, "bad1", 15);
    CombinedOn(m, WithBad);
  }

  lemma WithBadIsLowerCase()
    ensures IsLowerCase(WithBad)
  {
  }

  /** `TagElementMatcher('a string')` raises TypeError. */
  lemma BareStringRejected()
    ensures NewTagMatcher(Str("a string")) == Err(TypeError)
    ensures NewNoAttributesTagMatcher(Str("a")) == Err(TypeError)
  {
  }

  /** A tag given as `H1` matches an `h1` element, and a tag given as `h1` matches an `H1` element. */
  lemma TagCaseScenario()
    ensures DoesMatch(NewTagMatcher(Collection(["H1"])).value, Element(Some("h1"), map[], []))
    ensures DoesMatch(NewTagMatcher(Collection(["h1"])).value, Element(Some("H1"), map[], []))
  {
    assert Lower("H1") == "h1";
    LowerFixes("h1");
  }

  /** `NoAttributesTagElementMatcher(['a'])` rejects `<a href="web address">`. */
  lemma NoAttributesScenario()
    ensures !DoesMatch(NoAttributesTag({"a"}), Anchor("web address"))
    ensures DoesMatch(NoAttributesTag({"a"}), Element(Some("a"), map[], []))
  {
    LowerFixes("a");
  }

  /**
    Attribute names given in upper case are stored lower-cased, so they find a lower-case key
    but never an upper-case one.
   */
  lemma AttributeNameCaseScenario()
    ensures var m := AttributeSubstringTag({"a"}, LowerAll(["HREF"]), {}, {}, {});
      && DoesMatch(m, Anchor("x"))
      && !DoesMatch(m, Element(Some("a"), map["HREF" := "x"], []))
  {
    assert Lower("HREF") == "href";
    LowerFixes("a");
    assert "href" in LowerAll(["HREF"]);
    assert IsUpperChar("HREF"[0]);
  }

  /** `AttributeSubstringTagElementMatcher(['a'], ['href'], all_substrings=['Str1'])`. */
  const StrMatcher: Matcher :=
    NewAttributeSubstringMatcher(Collection(["a"]), Collection(["href"]), Some(Collection(["Str1"])), None, None).value

  /** The constructor lower-cases the given all-substring. */
  lemma StrMatcherFields()
    ensures StrMatcher.AttributeSubstringTag?
    ensures StrMatcher.tags == {"a"} && StrMatcher.attributes == {"href"}
    ensures StrMatcher.allSubstrings == {"str1"}
    ensures StrMatcher.anySubstrings == {} && StrMatcher.disallowedSubstrings == {}
  {
    assert Lower("Str1") == "str1";
    LowerFixes("a");
    LowerFixes("href");
    ElementsOf("a", "href");
  }

  /**
    Substrings given in upper case are lower-cased when the matcher is built: an all-substring
    `Str1` is found in the value `str1 str2`.
   */
  lemma GivenSubstringsLowerCased()
    ensures DoesMatch(StrMatcher, Anchor("str1 str2"))
  {
    StrMatcherFields();
    MatchesStr1(StrMatcher);
  }

  lemma MatchesStr1(m: Matcher)
    requires m.AttributeSubstringTag?
    requires m.tags == {"a"} && m.attributes == {"href"}
    requires m.allSubstrings == {"str1"}
    requires m.anySubstrings == {} && m.disallowedSubstrings == {}
    ensures DoesMatch(m, Anchor("str1 str2"))
  {
    LowerFixes("a");
    Str1Facts();
    assert Lower(Anchor("str1 str2").attrs["href"]) == "str1 str2";
  }

  lemma Str1Facts()
    ensures Lower("str1 str2") == "str1 str2"
    ensures Contains("str1 str2", "str1")
  {
    LowerFixes("str1 str2");
    OccurrenceContained("str1 str2", "str1", 0);
  }
}
