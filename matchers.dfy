/**
  Element matchers: boolean tests over one element. The three built-in matchers test the
  tag case-insensitively; a user-defined matcher is an arbitrary total predicate.
 */
module Matchers {
  import opened Basics
  import opened Text
  import opened Elements

  /** The exceptions the matcher classes raise. */
  datatype MatcherError = TypeError | NotImplementedError

  /** A set of strings that were lower-cased when the matcher was built. */
  type LowerSet = s: set<string> | forall t | t in s :: IsLowerCase(t)

  /**
    An argument that a constructor iterates over. Python iterates a bare string character by
    character, so `Str` stands for a string passed where a collection was expected.
   */
  datatype Iterable = Str(text: string) | Collection(items: seq<string>)

  /** What `for x in it` yields. */
  function Iterate(it: Iterable): seq<string>
  {
    match it
    case Collection(items) => items
    case Str(text) => seq(|text|, i requires 0 <= i < |text| => [text[i]])
  }

  /** `frozenset(x.lower() for x in xs)`. */
  function LowerAll(xs: seq<string>): (r: LowerSet)
    ensures forall t :: t in r <==> exists x :: x in xs && Lower(x) == t
  {
    set x | x in xs :: Lower(x)
  }

  /**
    A matcher object. `Tag`, `NoAttributesTag` and `AttributeSubstringTag` are instances of
    TagElementMatcher and its two subclasses; `Custom` is a user subclass of ElementMatcher that
    overrides `doesMatch` with `pred`.
   */
  datatype Matcher =
    | Tag(tags: LowerSet)
    | NoAttributesTag(tags: LowerSet)
    | AttributeSubstringTag(tags: LowerSet, attributes: LowerSet, allSubstrings: LowerSet,
                            anySubstrings: LowerSet, disallowedSubstrings: LowerSet)
    | Custom(pred: Element -> bool)
  {
    /** `isinstance(m, TagElementMatcher)`: the finder files such a matcher under its tags. */
    predicate IsTagScoped()
    {
      !Custom?
    }
  }

  /** ElementMatcher.doesMatch on the abstract base class. */
  function BaseDoesMatch(e: Element): (r: Result<bool, MatcherError>)
    ensures r.Err? && r.error == NotImplementedError
  {
    Err(NotImplementedError)
  }

  /** TagElementMatcher.__init__: rejects a bare string, otherwise lower-cases every tag. */
  function TagSetOf(tags: Iterable): (r: Result<LowerSet, MatcherError>)
    ensures tags.Str? <==> r == Err(TypeError)
    ensures tags.Collection? ==> r.Ok? && forall t :: t in r.value <==> exists x :: x in tags.items && Lower(x) == t
  {
    if tags.Str? then Err(TypeError) else Ok(LowerAll(tags.items))
  }

  /** `TagElementMatcher(tags)`. */
  function NewTagMatcher(tags: Iterable): (r: Result<Matcher, MatcherError>)
    ensures tags.Str? <==> r == Err(TypeError)
    ensures tags.Collection? ==> r.Ok? && r.value.Tag?
    ensures r.Ok? ==> forall t :: t in r.value.tags <==> exists x :: x in tags.items && Lower(x) == t
  {
    match TagSetOf(tags)
    case Err(err) => Err(err)
    case Ok(ts) => Ok(Tag(ts))
  }

  /** `NoAttributesTagElementMatcher(tags)`, which inherits the constructor of TagElementMatcher. */
  function NewNoAttributesTagMatcher(tags: Iterable): (r: Result<Matcher, MatcherError>)
    ensures tags.Str? <==> r == Err(TypeError)
    ensures tags.Collection? ==> r.Ok? && r.value.NoAttributesTag?
    ensures r.Ok? ==> forall t :: t in r.value.tags <==> exists x :: x in tags.items && Lower(x) == t
  {
    match TagSetOf(tags)
    case Err(err) => Err(err)
    case Ok(ts) => Ok(NoAttributesTag(ts))
  }

  /**
    `AttributeSubstringTagElementMatcher(tags, attributes, all_substrings, any_substrings,
    disallowed_substrings)`: the tag check of the base constructor runs first; every name and
    substring is lower-cased; an omitted substring collection is empty.
   */
  function NewAttributeSubstringMatcher(tags: Iterable, attributes: Iterable, allSubstrings: Option<Iterable>,
                                        anySubstrings: Option<Iterable>, disallowedSubstrings: Option<Iterable>)
    : (r: Result<Matcher, MatcherError>)
    ensures tags.Str? <==> r == Err(TypeError)
    ensures tags.Collection? ==> r.Ok? && r.value.AttributeSubstringTag?
    ensures r.Ok? ==> forall t :: t in r.value.tags <==> exists x :: x in tags.items && Lower(x) == t
    ensures r.Ok? ==> forall t :: t in r.value.attributes <==> exists x :: x in Iterate(attributes) && Lower(x) == t
    ensures r.Ok? && allSubstrings.Some? ==>
      forall t :: t in r.value.allSubstrings <==> exists x :: x in Iterate(allSubstrings.value) && Lower(x) == t
    ensures r.Ok? && anySubstrings.Some? ==>
      forall t :: t in r.value.anySubstrings <==> exists x :: x in Iterate(anySubstrings.value) && Lower(x) == t
    ensures r.Ok? && disallowedSubstrings.Some? ==>
      forall t :: t in r.value.disallowedSubstrings <==> exists x :: x in Iterate(disallowedSubstrings.value) && Lower(x) == t
    ensures r.Ok? && allSubstrings.None? ==> r.value.allSubstrings == {}
    ensures r.Ok? && anySubstrings.None? ==> r.value.anySubstrings == {}
    ensures r.Ok? && disallowedSubstrings.None? ==> r.value.disallowedSubstrings == {}
  {
    match TagSetOf(tags)
    case Err(err) => Err(err)
    case Ok(ts) =>
      Ok(AttributeSubstringTag(ts, LowerAll(Iterate(attributes)),
                               LowerAll(Iterate(OrElse(allSubstrings, Collection([])))),
                               LowerAll(Iterate(OrElse(anySubstrings, Collection([])))),
                               LowerAll(Iterate(OrElse(disallowedSubstrings, Collection([]))))))
  }

  /** TagElementMatcher.doesMatch: the element's lower-cased tag is one of the stored tags. */
  predicate TagTest(tags: LowerSet, e: Element)
    requires IsTagged(e)
  {
    Lower(e.tag.value) in tags
  }

  /** The three substring conditions of AttributeSubstringTagElementMatcher on one attribute value. */
  predicate PassesSubstrings(value: string, all: LowerSet, any: LowerSet, disallowed: LowerSet)
  {
    && (forall ss :: ss in all ==> Contains(value, ss))
    && !(exists ss :: ss in disallowed && Contains(value, ss))
    && (if any != {} then exists ss :: ss in any && Contains(value, ss) else true)
  }

  /**
    `m.doesMatch(e)`. The configured attribute names are intersected with the element's
    attribute keys as they are, not lower-cased; only the attribute values are lower-cased.
   */
  predicate DoesMatch(m: Matcher, e: Element)
    requires IsTagged(e)
  {
    match m
    case Tag(tags) => TagTest(tags, e)
    case NoAttributesTag(tags) => |e.attrs| == 0 && TagTest(tags, e)
    case AttributeSubstringTag(tags, attributes, all, any, disallowed) =>
      && TagTest(tags, e)
      && exists attr :: attr in attributes && attr in e.attrs && PassesSubstrings(Lower(e.attrs[attr]), all, any, disallowed)
    case Custom(pred) => pred(e)
  }

  /** A tag matcher built from `items` matches exactly the elements whose tag equals an item up to case. */
  lemma TagMatchCaseInsensitive(items: seq<string>, e: Element)
    requires IsTagged(e)
    ensures NewTagMatcher(Collection(items)).Ok?
    ensures DoesMatch(NewTagMatcher(Collection(items)).value, e) <==> exists x :: x in items && Lower(x) == Lower(e.tag.value)
  {
  }

  /** No built-in matcher can tell two elements apart that differ only in the case of their tag. */
  lemma {:induction false} TagCaseIrrelevant(m: Matcher, e: Element, e': Element)
    requires m.IsTagScoped()
    requires IsTagged(e) && IsTagged(e')
    requires Lower(e.tag.value) == Lower(e'.tag.value)
    requires e.attrs == e'.attrs
    ensures DoesMatch(m, e) == DoesMatch(m, e')
  {
  }

  /** NoAttributesTagElementMatcher matches iff the element has no attributes and the tag test passes. */
  lemma NoAttributesMatchIff(tags: LowerSet, e: Element)
    requires IsTagged(e)
    ensures DoesMatch(NoAttributesTag(tags), e) <==> e.attrs == map[] && DoesMatch(Tag(tags), e)
  {
  }

  /** The two subclasses only narrow TagElementMatcher: a match of theirs is a match of a plain tag matcher. */
  lemma RefinesTagMatch(m: Matcher, e: Element)
    requires m.NoAttributesTag? || m.AttributeSubstringTag?
    requires IsTagged(e)
    ensures DoesMatch(m, e) ==> DoesMatch(Tag(m.tags), e)
  {
  }

  /** A built-in matcher matches only elements whose lower-cased tag is among its stored tags. */
  lemma TagScopedMatchHasTag(m: Matcher, e: Element)
    requires m.IsTagScoped()
    requires IsTagged(e)
    ensures DoesMatch(m, e) ==> Lower(e.tag.value) in m.tags
  {
  }

  /** Without any of the configured attributes among its keys, an element is never matched. */
  lemma AbsentAttributesNeverMatch(m: Matcher, e: Element)
    requires m.AttributeSubstringTag?
    requires IsTagged(e)
    requires forall a :: a in m.attributes ==> a !in e.attrs
    ensures !DoesMatch(m, e)
  {
  }

  /** The occurrence test behind each substring condition, stated by index rather than by scanning. */
  ghost predicate Occurs(value: string, ss: string)
  {
    exists i :: OccursAt(value, ss, i)
  }

  /** One attribute value passes the three conditions, stated with occurrences. */
  ghost predicate ValueQualifies(value: string, all: set<string>, any: set<string>, disallowed: set<string>)
  {
    && (forall ss :: ss in all ==> Occurs(value, ss))
    && (forall ss :: ss in disallowed ==> !Occurs(value, ss))
    && (any == {} || exists ss :: ss in any && Occurs(value, ss))
  }

  lemma PassesSubstringsIffQualifies(value: string, all: LowerSet, any: LowerSet, disallowed: LowerSet)
    ensures PassesSubstrings(value, all, any, disallowed) <==> ValueQualifies(value, all, any, disallowed)
  {
    forall ss {
      ContainsIffOccurs(value, ss);
    }
  }

  /**
    AttributeSubstringTagElementMatcher matches iff the tag test passes and a single configured
    attribute present on the element has a lower-cased value that contains every all-substring,
    no disallowed substring and, when any-substrings were given, at least one of them.
   */
  lemma AttributeSubstringMatchIff(m: Matcher, e: Element)
    requires m.AttributeSubstringTag?
    requires IsTagged(e)
    ensures DoesMatch(m, e) <==>
      && Lower(e.tag.value) in m.tags
      && exists attr :: attr in m.attributes && attr in e.attrs &&
           ValueQualifies(Lower(e.attrs[attr]), m.allSubstrings, m.anySubstrings, m.disallowedSubstrings)
  {
    forall attr | attr in m.attributes && attr in e.attrs {
      PassesSubstringsIffQualifies(Lower(e.attrs[attr]), m.allSubstrings, m.anySubstrings, m.disallowedSubstrings);
    }
  }

  /**
    Omitted substring collections, and empty ones, impose no constraint: such a matcher matches
    iff the tag test passes and some configured attribute is among the element's keys.
   */
  lemma UnconstrainedSubstrings(tags: seq<string>, attributes: Iterable, all: Option<Iterable>,
                                any: Option<Iterable>, disallowed: Option<Iterable>, e: Element)
    requires IsTagged(e)
    requires all.None? || all == Some(Collection([]))
    requires any.None? || any == Some(Collection([]))
    requires disallowed.None? || disallowed == Some(Collection([]))
    ensures NewAttributeSubstringMatcher(Collection(tags), attributes, all, any, disallowed).Ok?
    ensures var m := NewAttributeSubstringMatcher(Collection(tags), attributes, all, any, disallowed).value;
      DoesMatch(m, e) <==> Lower(e.tag.value) in m.tags && exists attr :: attr in m.attributes && attr in e.attrs
  {
    var m := NewAttributeSubstringMatcher(Collection(tags), attributes, all, any, disallowed).value;
    assert m.allSubstrings == {} && m.anySubstrings == {} && m.disallowedSubstrings == {};
  }

  /**
    The matcher consults only element attribute keys that are already lower-case, because the
    configured names were lower-cased and the keys were not.
   */
  lemma OnlyLowerCaseKeysConsulted(m: Matcher, e: Element)
    requires m.AttributeSubstringTag?
    requires IsTagged(e)
    requires forall a :: a in e.attrs ==> !IsLowerCase(a)
    ensures !DoesMatch(m, e)
  {
  }
}
