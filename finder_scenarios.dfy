/**
  Concrete searches from the library's finder tests, proved of the model.
  Element text is not part of the model, so elements are told apart by tag and attributes.
 */
module FinderScenarios {
  import opened Basics
  import opened Text
  import opened Elements
  import opened Matchers
  import opened Traversal
  import opened Finder

  function Leaf(tag: string): Element
  {
    Element(Some(tag), map[], [])
  }

  function Node(tag: string, children: seq<Element>): Element
  {
    Element(Some(tag), map[], children)
  }

  lemma VisitedCons(ignore: seq<Matcher>, c: Element, cs: seq<Element>)
    ensures VisitedSeq(ignore, [c] + cs) == Visited(ignore, c) + VisitedSeq(ignore, cs)
  {
    assert ([c] + cs)[0] == c && ([c] + cs)[1..] == cs;
  }

  lemma VisitedOne(ignore: seq<Matcher>, c: Element)
    ensures VisitedSeq(ignore, [c]) == Visited(ignore, c)
  {
    VisitedCons(ignore, c, []);
    assert [c] + [] == [c];
  }

  /** `<html><body><h1/><h2/><h3/></body></html>` is visited in document order. */
  lemma SingleTagVisitOrder()
    ensures Visited([], Node("html", [Node("body", [Leaf("h1"), Leaf("h2"), Leaf("h3")])]))
            == [Node("html", [Node("body", [Leaf("h1"), Leaf("h2"), Leaf("h3")])]),
                Node("body", [Leaf("h1"), Leaf("h2"), Leaf("h3")]), Leaf("h1"), Leaf("h2"), Leaf("h3")]
  {
    var h1, h2, h3 := Leaf("h1"), Leaf("h2"), Leaf("h3");
    var body := Node("body", [h1, h2, h3]);
    VisitedOne([], h3);
    VisitedCons([], h2, [h3]);
    VisitedCons([], h1, [h2, h3]);
    assert [h1] + [h2, h3] == body.children && [h2] + [h3] == [h2, h3];
    VisitedOne([], body);
  }

  /** Of five visited elements, the third and the fifth match. */
  lemma MatchingThirdAndFifth(m: Matcher, a: Element, b: Element, c: Element, d: Element, e: Element)
    requires IsTagged(a) && IsTagged(b) && IsTagged(c) && IsTagged(d) && IsTagged(e)
    requires !DoesMatch(m, a) && !DoesMatch(m, b) && DoesMatch(m, c) && !DoesMatch(m, d) && DoesMatch(m, e)
    ensures Matching(m, [a, b, c, d, e]) == [c, e]
  {
    assert [a, b, c, d, e][..4] == [a, b, c, d];
    assert [a, b, c, d][..3] == [a, b, c];
    assert [a, b, c][..2] == [a, b];
    assert [a, b][..1] == [a];
    assert Matching(m, [a]) == [];
    assert Matching(m, [a, b]) == [];
    assert Matching(m, [a, b, c]) == [c];
    assert Matching(m, [a, b, c, d]) == [c];
  }

  /** `<html><body><h1/><h2/><h3/></body></html>` searched with a matcher for h1 and h3 yields h1 then h3. */
  lemma SingleTagMatcherScenario()
    ensures Matching(Tag({"h1", "h3"}), Visited([], Node("html", [Node("body", [Leaf("h1"), Leaf("h2"), Leaf("h3")])])))
            == [Leaf("h1"), Leaf("h3")]
  {
    var h1, h2, h3 := Leaf("h1"), Leaf("h2"), Leaf("h3");
    var body := Node("body", [h1, h2, h3]);
    var html := Node("html", [body]);
    var m := Tag({"h1", "h3"});
    LowerFixes("html");
    LowerFixes("body");
    LowerFixes("h1");
    LowerFixes("h2");
    LowerFixes("h3");
    SingleTagVisitOrder();
    MatchingThirdAndFifth(m, html, body, h1, h2, h3);
  }

  /**
    A root and its only child are visited and not matched, and the grandchild below them is
    pruned: the result list stays empty.
   */
  lemma PrunedGrandchild(ignore: seq<Matcher>, m: Matcher, a: Element, b: Element, c: Element)
    requires a.children == [b] && b.children == [c]
    requires Admitted(ignore, a) && Admitted(ignore, b) && !Admitted(ignore, c)
    requires !DoesMatch(m, a) && !DoesMatch(m, b)
    ensures Matching(m, Visited(ignore, a)) == []
  {
    VisitedOne(ignore, c);
    VisitedOne(ignore, b);
    assert Visited(ignore, a) == [a, b];
    assert [a, b][..1] == [a];
    assert Matching(m, [a]) == [];
  }

  /** `<html><body><div><h1/></div></body></html>` with div ignored: the h1 matcher finds nothing. */
  lemma IgnoredSubtreeScenario()
    ensures Matching(Tag({"h1"}), Visited([Tag({"div"})], Node("html", [Node("body", [Node("div", [Leaf("h1")])])]))) == []
  {
    var ignore := [Tag({"div"})];
    var div := Node("div", [Leaf("h1")]);
    LowerFixes("html");
    LowerFixes("body");
    LowerFixes("div");
    assert DoesMatch(ignore[0], div);
    PrunedGrandchild(ignore, Tag({"h1"}), Node("html", [Node("body", [div])]), Node("body", [div]), div);
  }

  /**
    A comment node is skipped together with everything under it. In the library's test the
    commented-out h1 is comment text rather than a child node; this case shows the stronger rule
    that nothing below a node whose tag is not a string is visited.
   */
  lemma CommentScenario()
    ensures Matching(Tag({"h1"}), Visited([], Node("html", [Node("body", [Element(None, map[], [Leaf("h1")])])]))) == []
  {
    var comment := Element(None, map[], [Leaf("h1")]);
    LowerFixes("html");
    LowerFixes("body");
    PrunedGrandchild([], Tag({"h1"}), Node("html", [Node("body", [comment])]), Node("body", [comment]), comment);
  }

  /** The predicate of the test's user-defined ignore-matcher: `element.get('skip') == 'yes'`. */
  predicate SkipIsYes(e: Element)
  {
    "skip" in e.attrs && e.attrs["skip"] == "yes"
  }

  /** An ignore-matcher that is not a tag matcher (`skip="yes"`) prunes the element it matches. */
  lemma CustomIgnoreScenario()
    ensures Matching(Tag({"h1"}), Visited([Custom(SkipIsYes)], Node("html", [Node("body", [Element(Some("h1"), map["skip" := "yes"], [])])]))) == []
  {
    var ignore := [Custom(SkipIsYes)];
    var h1 := Element(Some("h1"), map["skip" := "yes"], []);
    var body := Node("body", [h1]);
    var html := Node("html", [body]);
    LowerFixes("html");
    LowerFixes("body");
    assert DoesMatch(ignore[0], h1);
    assert !SkipIsYes(html) && !SkipIsYes(body);
    PrunedGrandchild(ignore, Tag({"h1"}), html, body, h1);
  }

  /** The same first search, run through the finder object. */
  method SingleTagMatcherClient()
  {
    var finder := new ElementFinder();
    var matcher := Tag({"h1", "h3"});
    finder.AddNodeMatcher(matcher);
    var tree := Node("html", [Node("body", [Leaf("h1"), Leaf("h2"), Leaf("h3")])]);
    var results := finder.FindElements(tree);
    SingleTagMatcherScenario();
    assert results == [[Leaf("h1"), Leaf("h3")]];
  }
}
