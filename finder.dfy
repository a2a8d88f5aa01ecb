/**
  ElementFinder: two registered matcher lists and one search that walks the tree with an
  explicit stack. Result lists are indexed by registration position of the match-matchers.
 */
module Finder {
  import opened Basics
  import opened Text
  import opened Elements
  import opened Matchers
  import opened Traversal

  // ---- The tag index ----

  /** The keys a matcher is filed under: `tag.lower()` for each stored tag of a TagElementMatcher. */
  function IndexKeys(m: Matcher): set<string>
  {
    if m.IsTagScoped() then set t | t in m.tags :: Lower(t) else {}
  }

  /** Positions, in registration order, of the matchers filed under `key`. */
  function Bucket(ms: seq<Matcher>, key: string): seq<nat>
    decreases |ms|
  {
    if ms == [] then []
    else Bucket(ms[..|ms| - 1], key) + (if key in IndexKeys(ms[|ms| - 1]) then [|ms| - 1] else [])
  }

  /** Positions, in registration order, of the matchers that are not TagElementMatchers. */
  function Untagged(ms: seq<Matcher>): seq<nat>
    decreases |ms|
  {
    if ms == [] then []
    else Untagged(ms[..|ms| - 1]) + (if ms[|ms| - 1].IsTagScoped() then [] else [|ms| - 1])
  }

  /** `index.get(key, [])`. */
  function Lookup(index: map<string, seq<nat>>, key: string): seq<nat>
  {
    if key in index then index[key] else []
  }

  predicate Increasing(s: seq<nat>)
  {
    forall i, j :: 0 <= i < j < |s| ==> s[i] < s[j]
  }

  lemma AppendKeepsIncreasing(s: seq<nat>, n: nat)
    requires Increasing(s)
    requires forall x :: x in s ==> x < n
    ensures Increasing(s + [n])
  {
    forall i, j | 0 <= i < j < |s| + 1
      ensures (s + [n])[i] < (s + [n])[j]
    {
      if j == |s| {
        assert s[i] in s;
      }
    }
  }

  lemma {:induction false} BucketMembers(ms: seq<Matcher>, key: string)
    ensures Increasing(Bucket(ms, key))
    ensures forall i :: i in Bucket(ms, key) <==> 0 <= i < |ms| && key in IndexKeys(ms[i])
    decreases |ms|
  {
    if ms != [] {
      var init := ms[..|ms| - 1];
      BucketMembers(init, key);
      assert forall i :: 0 <= i < |init| ==> init[i] == ms[i];
      var b := Bucket(init, key);
      assert Bucket(ms, key) == b + (if key in IndexKeys(ms[|init|]) then [|init|] else []);
      AppendKeepsIncreasing(b, |init|);
    }
  }

  lemma {:induction false} UntaggedMembers(ms: seq<Matcher>)
    ensures Increasing(Untagged(ms))
    ensures forall i :: i in Untagged(ms) <==> 0 <= i < |ms| && !ms[i].IsTagScoped()
    decreases |ms|
  {
    if ms != [] {
      var init := ms[..|ms| - 1];
      UntaggedMembers(init);
      assert forall i :: 0 <= i < |init| ==> init[i] == ms[i];
      var u := Untagged(init);
      assert Untagged(ms) == u + (if ms[|init|].IsTagScoped() then [] else [|init|]);
      AppendKeepsIncreasing(u, |init|);
    }
  }

  /** The matchers the finder runs on an element: the untagged list, then the element's tag bucket. */
  function Candidates(untagged: seq<nat>, index: map<string, seq<nat>>, e: Element): seq<nat>
    requires IsTagged(e)
  {
    untagged + Lookup(index, Lower(e.tag.value))
  }

  predicate Distinct(s: seq<nat>)
  {
    forall i, j :: 0 <= i < j < |s| ==> s[i] != s[j]
  }

  /**
    The index loses nothing: the candidates of an element are distinct positions of `ms`, and
    every matcher of `ms` that matches the element is among them.
   */
  lemma IndexComplete(ms: seq<Matcher>, index: map<string, seq<nat>>, e: Element)
    requires IsTagged(e)
    requires forall key :: Lookup(index, key) == Bucket(ms, key)
    ensures Distinct(Candidates(Untagged(ms), index, e))
    ensures forall k :: 0 <= k < |Candidates(Untagged(ms), index, e)| ==> Candidates(Untagged(ms), index, e)[k] < |ms|
    ensures forall i :: 0 <= i < |ms| && DoesMatch(ms[i], e) ==> i in Candidates(Untagged(ms), index, e)
  {
    var key := Lower(e.tag.value);
    UntaggedMembers(ms);
    BucketMembers(ms, key);
    var u, b := Untagged(ms), Bucket(ms, key);
    assert Lookup(index, key) == b;
    forall i | 0 <= i < |ms| && DoesMatch(ms[i], e)
      ensures i in u + b
    {
      if ms[i].IsTagScoped() {
        TagScopedMatchHasTag(ms[i], e);
        LowerIdempotent(e.tag.value);
        assert Lower(key) == key;
        assert key in IndexKeys(ms[i]);
      }
    }
    DisjointIncreasingDistinct(u, b);
    forall k | 0 <= k < |u + b|
      ensures (u + b)[k] < |ms|
    {
      assert (u + b)[k] in u || (u + b)[k] in b;
    }
  }

  lemma DisjointIncreasingDistinct(u: seq<nat>, b: seq<nat>)
    requires Increasing(u) && Increasing(b)
    requires forall x :: x in u ==> x !in b
    ensures Distinct(u + b)
  {
    forall i, j | 0 <= i < j < |u + b|
      ensures (u + b)[i] != (u + b)[j]
    {
      if j < |u| {
        assert (u + b)[i] == u[i] && (u + b)[j] == u[j];
      } else if i >= |u| {
        assert (u + b)[i] == b[i - |u|] && (u + b)[j] == b[j - |u|];
      } else {
        assert (u + b)[i] == u[i] && (u + b)[j] == b[j - |u|] && u[i] in u;
      }
    }
  }

  /** A TagElementMatcher is filed under exactly its stored tags, which are already lower-case. */
  lemma IndexKeysAreTags(m: Matcher)
    requires m.IsTagScoped()
    ensures IndexKeys(m) == m.tags
  {
    forall t | t in m.tags
      ensures Lower(t) == t
    {
      LowerFixesExactlyLowerCase(t);
    }
  }

  lemma BucketSnoc(ms: seq<Matcher>, j: nat, key: string)
    requires j < |ms|
    ensures Bucket(ms[..j + 1], key) == Bucket(ms[..j], key) + (if key in IndexKeys(ms[j]) then [j] else [])
  {
    assert ms[..j + 1][..j] == ms[..j];
  }

  lemma UntaggedSnoc(ms: seq<Matcher>, j: nat)
    requires j < |ms|
    ensures Untagged(ms[..j + 1]) == Untagged(ms[..j]) + (if ms[j].IsTagScoped() then [] else [j])
  {
    assert ms[..j + 1][..j] == ms[..j];
  }

  /** The inner loop of the index building: `index.setdefault(tag.lower(), []).append(j)` for every tag. */
  method FileUnderTags(index: map<string, seq<nat>>, tags: LowerSet, j: nat) returns (index': map<string, seq<nat>>)
    ensures forall key :: Lookup(index', key) == Lookup(index, key) + (if key in tags then [j] else [])
  {
    index' := index;
    var left := tags;
    while left != {}
      invariant left <= tags
      invariant forall key :: Lookup(index', key) == Lookup(index, key) + (if key in tags - left then [j] else [])
      decreases left
    {
      var tag :| tag in left;
      var key := Lower(tag);
      LowerFixesExactlyLowerCase(tag);
      index' := index'[key := Lookup(index', key) + [j]];
      left := left - {tag};
    }
  }

  /** The loops of findElements that build the untagged list and the tag index of one matcher list. */
  method BuildIndex(ms: seq<Matcher>) returns (untagged: seq<nat>, index: map<string, seq<nat>>)
    ensures untagged == Untagged(ms)
    ensures forall key :: Lookup(index, key) == Bucket(ms, key)
  {
    untagged, index := [], map[];
    var j := 0;
    while j < |ms|
      invariant 0 <= j <= |ms|
      invariant untagged == Untagged(ms[..j])
      invariant forall key :: Lookup(index, key) == Bucket(ms[..j], key)
    {
      var m := ms[j];
      UntaggedSnoc(ms, j);
      forall key {
        BucketSnoc(ms, j, key);
      }
      if m.IsTagScoped() {
        IndexKeysAreTags(m);
        index := FileUnderTags(index, m.tags, j);
      } else {
        untagged := untagged + [j];
      }
      j := j + 1;
    }
    assert ms[..j] == ms;
  }

  /** `any(ms[p].doesMatch(e) for p in positions)`: stops at the first matcher that matches. */
  method AnyMatch(ms: seq<Matcher>, positions: seq<nat>, e: Element) returns (found: bool)
    requires IsTagged(e)
    requires forall k :: 0 <= k < |positions| ==> positions[k] < |ms|
    ensures found <==> exists k :: 0 <= k < |positions| && DoesMatch(ms[positions[k]], e)
  {
    found := false;
    var k := 0;
    while k < |positions| && !found
      invariant 0 <= k <= |positions|
      invariant found <==> exists j :: 0 <= j < k && DoesMatch(ms[positions[j]], e)
    {
      found := DoesMatch(ms[positions[k]], e);
      k := k + 1;
    }
  }

  /**
    The loop of findElements that runs the candidate matchers on `e`: the element is appended to
    the list of every candidate that matches it, and every other list is left alone.
   */
  method RunMatchers(ms: seq<Matcher>, candidates: seq<nat>, e: Element, results: seq<seq<Element>>)
    returns (updated: seq<seq<Element>>)
    requires IsTagged(e)
    requires |results| == |ms|
    requires Distinct(candidates)
    requires forall k :: 0 <= k < |candidates| ==> candidates[k] < |ms|
    ensures |updated| == |ms|
    ensures forall i :: 0 <= i < |ms| ==>
      updated[i] == results[i] + (if i in candidates && DoesMatch(ms[i], e) then [e] else [])
  {
    updated := results;
    var k := 0;
    while k < |candidates|
      invariant 0 <= k <= |candidates|
      invariant |updated| == |ms|
      invariant forall i :: 0 <= i < |ms| ==>
        updated[i] == results[i] + (if i in candidates[..k] && DoesMatch(ms[i], e) then [e] else [])
    {
      var p := candidates[k];
      assert candidates[..k + 1] == candidates[..k] + [p];
      assert p !in candidates[..k];
      if DoesMatch(ms[p], e) {
        updated := updated[p := updated[p] + [e]];
      }
      k := k + 1;
    }
    assert candidates[..k] == candidates;
  }

  // ---- The stack ----

  /** `reversed(s)`. */
  function Reversed<T>(s: seq<T>): (r: seq<T>)
    ensures |r| == |s|
    ensures forall i :: 0 <= i < |s| ==> r[i] == s[|s| - 1 - i]
    decreases |s|
  {
    if s == [] then [] else Reversed(s[1..]) + [s[0]]
  }

  lemma ReversedAppend<T>(a: seq<T>, b: seq<T>)
    ensures Reversed(a + b) == Reversed(b) + Reversed(a)
  {
  }

  lemma ReversedTwice<T>(s: seq<T>)
    ensures Reversed(Reversed(s)) == s
  {
  }

  /** The number of nodes of a tree: what bounds the number of iterations of the stack loop. */
  function Size(e: Element): nat
    decreases e
  {
    1 + SizeSeq(e.children)
  }

  function SizeSeq(cs: seq<Element>): nat
    decreases cs
  {
    if cs == [] then 0 else Size(cs[0]) + SizeSeq(cs[1..])
  }

  lemma {:induction false} SizeSeqAppend(a: seq<Element>, b: seq<Element>)
    ensures SizeSeq(a + b) == SizeSeq(a) + SizeSeq(b)
    decreases a
  {
    if a == [] {
      assert a + b == b;
    } else {
      assert (a + b)[0] == a[0] && (a + b)[1..] == a[1..] + b;
      SizeSeqAppend(a[1..], b);
    }
  }

  lemma {:induction false} SizeSeqReversed(s: seq<Element>)
    ensures SizeSeq(Reversed(s)) == SizeSeq(s)
    decreases |s|
  {
    if s != [] {
      SizeSeqReversed(s[1..]);
      SizeSeqAppend(Reversed(s[1..]), [s[0]]);
      assert [s[0]][1..] == [];
    }
  }

  /** A popped node that is not admitted contributes nothing, and the stack measure drops. */
  lemma SkipStep(ignore: seq<Matcher>, done: seq<Element>, rest: seq<Element>, e: Element, root: Element)
    requires done + VisitedSeq(ignore, Reversed(rest + [e])) == Visited(ignore, root)
    requires !Admitted(ignore, e)
    ensures done + VisitedSeq(ignore, Reversed(rest)) == Visited(ignore, root)
    ensures SizeSeq(rest) < SizeSeq(rest + [e])
  {
    PopVisited(ignore, rest, e);
    PopSize(rest, e);
  }

  /** A popped admitted node is done; its children, pushed in reverse, are visited next. */
  lemma DescendStep(ignore: seq<Matcher>, done: seq<Element>, rest: seq<Element>, e: Element, root: Element)
    requires done + VisitedSeq(ignore, Reversed(rest + [e])) == Visited(ignore, root)
    requires Admitted(ignore, e)
    ensures (done + [e]) + VisitedSeq(ignore, Reversed(rest + Reversed(e.children))) == Visited(ignore, root)
    ensures SizeSeq(rest + Reversed(e.children)) < SizeSeq(rest + [e])
  {
    DescendVisited(ignore, done, rest, e);
    DescendSize(rest, e);
  }

  lemma DescendVisited(ignore: seq<Matcher>, done: seq<Element>, rest: seq<Element>, e: Element)
    requires Admitted(ignore, e)
    ensures (done + [e]) + VisitedSeq(ignore, Reversed(rest + Reversed(e.children)))
            == done + VisitedSeq(ignore, Reversed(rest + [e]))
  {
    PopVisited(ignore, rest, e);
    PushVisited(ignore, rest, e.children);
    Regroup(done, e, VisitedSeq(ignore, e.children), VisitedSeq(ignore, Reversed(rest)));
  }

  lemma Regroup<T>(d: seq<T>, x: T, b: seq<T>, p: seq<T>)
    ensures (d + [x]) + (b + p) == d + (([x] + b) + p)
  {
  }

  lemma DescendSize(rest: seq<Element>, e: Element)
    ensures SizeSeq(rest + Reversed(e.children)) < SizeSeq(rest + [e])
  {
    PopSize(rest, e);
    SizeSeqAppend(rest, Reversed(e.children));
    SizeSeqReversed(e.children);
  }

  lemma PopSize(rest: seq<Element>, e: Element)
    ensures SizeSeq(rest + [e]) == SizeSeq(rest) + Size(e)
  {
    SizeSeqAppend(rest, [e]);
    assert [e][1..] == [];
  }

  lemma PopVisited(ignore: seq<Matcher>, rest: seq<Element>, e: Element)
    ensures VisitedSeq(ignore, Reversed(rest + [e])) == Visited(ignore, e) + VisitedSeq(ignore, Reversed(rest))
  {
    ReversedAppend(rest, [e]);
    var r := Reversed(rest + [e]);
    assert r == [e] + Reversed(rest);
    assert r[0] == e && r[1..] == Reversed(rest);
  }

  lemma PushVisited(ignore: seq<Matcher>, rest: seq<Element>, children: seq<Element>)
    ensures VisitedSeq(ignore, Reversed(rest + Reversed(children))) == VisitedSeq(ignore, children) + VisitedSeq(ignore, Reversed(rest))
  {
    ReversedAppend(rest, Reversed(children));
    ReversedTwice(children);
    VisitedSeqAppend(ignore, children, Reversed(rest));
  }

  /** `untagged` and `index` are what BuildIndex makes of `ms`. */
  ghost predicate IndexOf(ms: seq<Matcher>, untagged: seq<nat>, index: map<string, seq<nat>>)
  {
    untagged == Untagged(ms) && forall key :: Lookup(index, key) == Bucket(ms, key)
  }

  /** The ignore test of findElements, run on the untagged ignore-matchers and then the tag bucket. */
  method IsIgnored(ignore: seq<Matcher>, untagged: seq<nat>, index: map<string, seq<nat>>, e: Element)
    returns (ignored: bool)
    requires IsTagged(e)
    requires IndexOf(ignore, untagged, index)
    ensures ignored <==> !Admitted(ignore, e)
  {
    IndexComplete(ignore, index, e);
    ignored := AnyMatch(ignore, Candidates(untagged, index, e), e);
  }

  /** The matching step of findElements: `e` is appended to the list of every match-matcher that matches it. */
  method MatchElement(ms: seq<Matcher>, untagged: seq<nat>, index: map<string, seq<nat>>, e: Element,
                      ghost done: seq<Element>, results: seq<seq<Element>>)
    returns (updated: seq<seq<Element>>)
    requires IsTagged(e) && AllTagged(done)
    requires IndexOf(ms, untagged, index)
    requires |results| == |ms|
    requires forall i :: 0 <= i < |ms| ==> results[i] == Matching(ms[i], done)
    ensures AllTagged(done + [e])
    ensures |updated| == |ms|
    ensures forall i :: 0 <= i < |ms| ==> updated[i] == Matching(ms[i], done + [e])
  {
    TaggedSnoc(done, e);
    IndexComplete(ms, index, e);
    var candidates := Candidates(untagged, index, e);
    updated := RunMatchers(ms, candidates, e, results);
    forall i | 0 <= i < |ms|
      ensures updated[i] == Matching(ms[i], done + [e])
    {
      CandidateStep(ms[i], i, candidates, e, done, results[i], updated[i]);
    }
  }

  /** One result list after the matching step is the matches of the extended prefix. */
  lemma CandidateStep(m: Matcher, i: nat, candidates: seq<nat>, e: Element, done: seq<Element>,
                      before: seq<Element>, after: seq<Element>)
    requires AllTagged(done) && IsTagged(e)
    requires DoesMatch(m, e) ==> i in candidates
    requires before == Matching(m, done)
    requires after == before + (if i in candidates && DoesMatch(m, e) then [e] else [])
    ensures after == Matching(m, done + [e])
  {
    MatchingSnoc(m, done, e);
  }

  // ---- The finder object ----

  class ElementFinder {
    var ignoreElementMatchers: seq<Matcher>
    var elementMatchers: seq<Matcher>

    constructor ()
      ensures ignoreElementMatchers == [] && elementMatchers == []
    {
      ignoreElementMatchers := [];
      elementMatchers := [];
    }

    /** `add_ignore_node_matcher`: appends to the ignore list only. */
    method AddIgnoreNodeMatcher(m: Matcher)
      modifies this
      ensures ignoreElementMatchers == old(ignoreElementMatchers) + [m]
      ensures elementMatchers == old(elementMatchers)
    {
      ignoreElementMatchers := ignoreElementMatchers + [m];
    }

    /** `add_node_matcher`: appends to the match list only. */
    method AddNodeMatcher(m: Matcher)
      modifies this
      ensures elementMatchers == old(elementMatchers) + [m]
      ensures ignoreElementMatchers == old(ignoreElementMatchers)
    {
      elementMatchers := elementMatchers + [m];
    }

    /**
      `findElements(root)`: one result list per registered match-matcher, holding the admitted
      elements of the tree that the matcher matches, in document pre-order.
     */
    method FindElements(root: Element) returns (results: seq<seq<Element>>)
      ensures |results| == |elementMatchers|
      ensures forall i :: 0 <= i < |results| ==>
        results[i] == Matching(elementMatchers[i], Visited(ignoreElementMatchers, root))
    {
      var ms, ignore := elementMatchers, ignoreElementMatchers;
      results := seq(|ms|, _ => []);

      var ignoreUntagged, ignoreIndex := BuildIndex(ignore);
      var matchUntagged, matchIndex := BuildIndex(ms);

      var stack := [root];
      ghost var done: seq<Element> := [];
      assert Reversed(stack) == [root] && [root][1..] == [];
      while |stack| > 0
        invariant |results| == |ms|
        invariant AllTagged(done)
        invariant forall i :: 0 <= i < |ms| ==> results[i] == Matching(ms[i], done)
        invariant done + VisitedSeq(ignore, Reversed(stack)) == Visited(ignore, root)
        decreases SizeSeq(stack)
      {
        var e := stack[|stack| - 1];
        var rest := stack[..|stack| - 1];
        assert stack == rest + [e];
        stack := rest;

        // nodes whose tag is not a string: comments, processing instructions, entities
        if !IsTagged(e) {
          SkipStep(ignore, done, rest, e, root);
          continue;
        }

        var ignored := IsIgnored(ignore, ignoreUntagged, ignoreIndex, e);
        if ignored {
          SkipStep(ignore, done, rest, e, root);
          continue;
        }

        DescendStep(ignore, done, rest, e, root);
        stack := stack + Reversed(e.children);

        results := MatchElement(ms, matchUntagged, matchIndex, e, done, results);
        done := done + [e];
      }
      assert done == Visited(ignore, root);
    }
  }
}
