# searchtml in Dafny

A verified model of searchtml. The library searches a parsed HTML/XML element tree with element
matchers.

An **element matcher** is a boolean test over one element. There are three built-in kinds:
- `TagElementMatcher` tests the tag case-insensitively.
- `NoAttributesTagElementMatcher` also requires that the element has no attributes.
- `AttributeSubstringTagElementMatcher` also requires one configured attribute whose lower-cased
  value contains every "all" substring and no "disallowed" substring. When "any" substrings were
  given, the value must also contain at least one of them.

A user-defined matcher is any other test.

The **ElementFinder** keeps two registered lists: ignore-matchers and match-matchers. Its
`findElements` works in four steps:
1. It files each list under the lower-cased tags of its tag matchers and keeps the rest in an
   "untagged" list.
2. It walks the tree depth-first with an explicit stack.
3. It skips comments and other non-element nodes, and prunes every subtree whose root an
   ignore-matcher accepts.
4. It appends every other element to the result list of each match-matcher that accepts it.

The model is organised in modules:
- `Basics`: Option and Result.
- `Text`: ASCII lower-casing and the substring test `in`.
- `Elements`: the element tree.
- `Matchers`: the matcher classes, their constructors and `doesMatch`.
- `Traversal`: a recursive pre-order specification of the search, by element and by child-index
  path.
- `Finder`: the `ElementFinder` class and the imperative `findElements`, proved against
  `Traversal`.
- `MatcherScenarios` and `FinderScenarios`: the concrete cases of the library's tests, proved of
  the model.

Modelling choices:
- An element's tag is `Option<string>`. `None` stands for a comment, processing instruction or
  entity, whose tag is not a string.
- `findElements` returns a dictionary keyed by matcher object. The model returns one list per
  registered match-matcher, by registration position.
- The registration methods are modelled under their names in the source, `add_node_matcher` and
  `add_ignore_node_matcher` (searchtml/finder.py:13-17). The tests call `add_element_matcher` and
  `add_ignore_element_matcher` (tests/test_finder.py:24,76), which the class does not define. The
  model follows the class.

## Model

| member | source | states |
|---|---|---|
| Text.LowerFixesExactlyLowerCase | searchtml/matchers.py:20 | lower-casing leaves a string unchanged exactly when it has no upper-case letter |
| Text.LowerIdempotent | searchtml/matchers.py:20-23 | lower-casing twice is lower-casing once, so the already lower-cased stored tags are not changed by the tag test |
| Text.LowerIgnoresCase | searchtml/matchers.py:23 | two strings have the same lower-case form iff they have the same length and each pair of characters is equal or the same ASCII letter in the two cases |
| Text.LowerFixes | searchtml/matchers.py:20 | a string with no upper-case letter is its own lower-case form, so lower-case tags and substrings are stored as given |
| Text.ContainsIffOccurs | searchtml/matchers.py:47-49 | the scanning substring test holds iff the substring occurs at some index of the value |
| Text.AbsentCharNotContained | searchtml/matchers.py:47-49 | a value that lacks one character of a substring does not contain that substring |
| Text.OccurrenceContained | searchtml/matchers.py:47-49 | a substring occurring at an index is reported as contained |
| Matchers.LowerAll | searchtml/matchers.py:20 | the stored set holds exactly the lower-cased forms of the given items |
| Matchers.BaseDoesMatch | searchtml/matchers.py:11-12 | the abstract base doesMatch always fails with NotImplementedError |
| Matchers.TagSetOf | searchtml/matchers.py:16-20 | a bare string fails with TypeError, and only then; a collection gives exactly the lower-cased items |
| Matchers.NewTagMatcher | searchtml/matchers.py:16-20 | TypeError iff the tags are a bare string; otherwise a tag matcher whose tags are exactly the lower-cased items |
| Matchers.NewNoAttributesTagMatcher | searchtml/matchers.py:16-20 | the inherited constructor: the same TypeError condition and the same lower-cased tag set |
| Matchers.NewAttributeSubstringMatcher | searchtml/matchers.py:33-39 | TypeError iff the tags are a bare string; otherwise the tags, the attribute names and each given substring collection are stored as exactly their lower-cased items, and an omitted collection gives the empty set |
| Matchers.TagTest | searchtml/matchers.py:22-23 | TagElementMatcher.doesMatch: the element's lower-cased tag is a stored tag (its properties are the TagMatchCaseInsensitive and TagCaseIrrelevant rows) |
| Matchers.PassesSubstrings | searchtml/matchers.py:46-50 | the three substring conditions on one lower-cased attribute value, by the scanning substring test (proved equal to the occurrence form by PassesSubstringsIffQualifies) |
| Matchers.DoesMatch | searchtml/matchers.py:22-52 | `doesMatch` of each matcher kind: the tag test; no attributes and the tag test; the tag test and one configured raw key whose value passes the substring conditions; a user predicate (characterised by the lemmas below) |
| Matchers.TagMatchCaseInsensitive | searchtml/matchers.py:22-23 | a tag matcher built from items matches iff some item equals the element's tag up to case |
| Matchers.TagCaseIrrelevant | searchtml/matchers.py:22-23 | no built-in matcher tells apart two elements whose tags differ only in case |
| Matchers.NoAttributesMatchIff | searchtml/matchers.py:26-29 | matches iff the attribute map is empty and the tag test passes |
| Matchers.RefinesTagMatch | searchtml/matchers.py:28-29 | every match of the two subclasses is a match of a plain tag matcher with the same tags |
| Matchers.TagScopedMatchHasTag | searchtml/matchers.py:22-23 | a built-in matcher matches only elements whose lower-cased tag is one of its tags |
| Matchers.AbsentAttributesNeverMatch | searchtml/matchers.py:44-52 | without any configured attribute among the element's keys the result is False |
| Matchers.PassesSubstringsIffQualifies | searchtml/matchers.py:46-50 | the three substring conditions hold iff every all-substring occurs, no disallowed one occurs, and the any-set is empty or one of it occurs |
| Matchers.AttributeSubstringMatchIff | searchtml/matchers.py:41-52 | matches iff the tag test passes and some configured attribute present on the element has a lower-cased value meeting the three conditions |
| Matchers.UnconstrainedSubstrings | searchtml/matchers.py:37-39 | with omitted or empty substring collections the matcher matches iff the tag passes and some configured attribute is a key |
| Matchers.OnlyLowerCaseKeysConsulted | searchtml/matchers.py:36 | configured names are lower-cased but keys are not, so an element whose keys all have an upper-case letter is never matched |
| MatcherScenarios.CombinedAcceptsAllAndAny | tests/test_matchers.py:76-88 | "all1 all2 any1" is accepted by the combined matcher |
| MatcherScenarios.CombinedRejectsMissingAll | tests/test_matchers.py:76-91 | "all1 any1" is rejected: an all-substring is missing |
| MatcherScenarios.CombinedRejectsMissingAny | tests/test_matchers.py:76-93 | "all1 all2" is rejected: no any-substring is present |
| MatcherScenarios.CombinedRejectsDisallowed | tests/test_matchers.py:76-94 | "all1 all2 any1 bad1" is rejected: a disallowed substring is present |
| MatcherScenarios.BareStringRejected | tests/test_matchers.py:18-19 | constructing from a bare string fails with TypeError |
| MatcherScenarios.TagCaseScenario | tests/test_matchers.py:27-29 | matching ignores case on the matcher side and on the element side |
| MatcherScenarios.NoAttributesScenario | tests/test_matchers.py:33-41 | an element with an href is rejected and a bare element accepted |
| MatcherScenarios.CombinedFields | tests/test_matchers.py:77-82 | the constructor, given the test's arguments, stores tags {a}, attributes {href} and the three substring pairs unchanged |
| MatcherScenarios.GivenSubstringsLowerCased | searchtml/matchers.py:37 | an all-substring given as "Str1" is stored lower-cased and found in the value "str1 str2" |
| MatcherScenarios.AttributeNameCaseScenario | searchtml/matchers.py:36-44 | a name configured as "HREF" finds the key "href" but not the key "HREF" |
| Traversal.Visited | searchtml/finder.py:54-72 | the pre-order specification of the walk lists only elements with a string tag |
| Traversal.Matching | searchtml/finder.py:75-77 | a result list holds only visited elements the matcher accepts, and holds every such element |
| Traversal.OpenPathIffAncestorsAdmitted | searchtml/finder.py:60-72 | a path is reached iff every node from the root down to it, itself included, is an element that no ignore-matcher accepts |
| Traversal.VisitedPathsAreOpenPaths | searchtml/finder.py:54-72 | the visited positions are exactly the reached paths |
| Traversal.PrunedSubtreeNotVisited | searchtml/finder.py:60-69 | nothing at or below a non-element node or an ignored element is visited |
| Traversal.PrunedNodesNeverReported | searchtml/finder.py:64-72 | nothing at or below a non-element node or an ignored element appears in any result list |
| Traversal.NeverMatchingKeepsEmpty | searchtml/finder.py:32-34 | a matcher that accepts no visited element keeps an empty result list |
| Traversal.VisitedAtPaths | searchtml/finder.py:54-72 | the visited elements are, one for one, the nodes at the visited paths |
| Traversal.VisitedPathsInDocumentOrder | searchtml/finder.py:72 | the walk visits positions in document pre-order |
| Traversal.ResultListByPosition | searchtml/finder.py:54-77 | a result list is, by position and in document order, the reached nodes the matcher accepts |
| Finder.Bucket | searchtml/finder.py:45-52 | the positions, in registration order, of the tag matchers filed under one lower-cased key (characterised by BucketMembers) |
| Finder.Untagged | searchtml/finder.py:45-52 | the positions, in registration order, of the matchers that are not tag matchers (characterised by UntaggedMembers) |
| Finder.BucketMembers | searchtml/finder.py:48-50 | a bucket is strictly increasing and holds exactly the positions of the tag matchers having the key among their lower-cased tags |
| Finder.UntaggedMembers | searchtml/finder.py:51-52 | the untagged list is strictly increasing and holds exactly the positions of the matchers that are not tag matchers |
| Finder.Candidates | searchtml/finder.py:67-75 | the matchers run on an element: the untagged list followed by the bucket of the element's lower-cased tag |
| Finder.IndexComplete | searchtml/finder.py:36-52 | the candidates an element's tag selects are distinct registered positions and include every matcher that accepts it |
| Finder.BuildIndex | searchtml/finder.py:36-52 | builds exactly the untagged list and the per-tag buckets of the registered matchers |
| Finder.FileUnderTags | searchtml/finder.py:40-41 | a matcher's position is appended to the bucket of each of its tags and to no other bucket |
| Finder.AnyMatch | searchtml/finder.py:64-68 | the short-circuit any() is true iff some candidate accepts the element |
| Finder.IsIgnored | searchtml/finder.py:64-69 | the indexed ignore test is true iff some ignore-matcher accepts the element |
| Finder.RunMatchers | searchtml/finder.py:75-77 | each candidate that accepts the element gets it appended; all other lists are unchanged |
| Finder.MatchElement | searchtml/finder.py:75-77 | after one element, each result list is the visited prefix's matches |
| Finder.ElementFinder.constructor | searchtml/finder.py:9-11 | both lists start empty |
| Finder.ElementFinder.AddIgnoreNodeMatcher | searchtml/finder.py:13-14 | appends to the ignore list and leaves the match list unchanged |
| Finder.ElementFinder.AddNodeMatcher | searchtml/finder.py:16-17 | appends to the match list and leaves the ignore list unchanged |
| Finder.ElementFinder.FindElements | searchtml/finder.py:19-79 | one result per registered match-matcher, each exactly the pre-order matches among the admitted elements |
| FinderScenarios.SingleTagVisitOrder | tests/test_finder.py:12-20 | the walk of html>body>(h1,h2,h3) is html, body, h1, h2, h3 |
| FinderScenarios.SingleTagMatcherScenario | tests/test_finder.py:11-41 | a matcher for h1 and h3 finds h1 then h3 |
| FinderScenarios.CommentScenario | tests/test_finder.py:43-60 | an h1 under a comment node is not found |
| FinderScenarios.IgnoredSubtreeScenario | tests/test_finder.py:62-80 | an h1 inside an ignored div is not found |
| FinderScenarios.CustomIgnoreScenario | tests/test_finder.py:105-126 | an h1 accepted by a user-defined ignore-matcher is not found |

## Left out

- Lower-casing is ASCII only. Python's `str.lower()` also maps non-ASCII letters.
- Parsing HTML/XML into trees is left out. Element text and tails are not part of `Element`, so
  the test that matches on element text (tests/test_finder.py:82-103) is not modelled.
- Matcher identity is not modelled. The source keys results by matcher object, so registering
  one object twice would share one list, and each matching element would be appended to it once
  per registration: a tag matcher for h1 and h3 registered twice on the first test tree would
  give `[h1, h1, h3, h3]`. The model keeps one list per registration, each `[h1, h3]`.
- A bare `ElementMatcher` registered with the finder would raise NotImplementedError from
  `findElements`. Exceptions from inside the search are not modelled: `Custom` predicates are
  total and the base class is not a `Matcher` variant.
- `doesMatch` on a node whose tag is not a string raises AttributeError in the source. The model
  requires an element with a string tag, and the finder never calls a matcher on any other node.
- User subclasses of the tag matchers that override `doesMatch` are not modelled. Such a subclass
  is still filed under its tags.
- setup.py (packaging, file reads, shell commands) is not part of this model.
- The cost of the tag index is not modelled. The index is proved to select, in a list without
  repeats, every matcher that matches; the outcome of the ignore test (`IsIgnored`) and of the
  matching step (`MatchElement`) is proved equal to that of a scan over all matchers.
- The result dictionary's key order is not modelled; the model orders results by registration.
