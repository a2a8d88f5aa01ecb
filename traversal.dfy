/**
  The meaning of one search: which elements the finder hands to its match-matchers, and in
  which order. Stated recursively, as a pre-order walk that stops at non-element nodes and at
  ignored elements, and by the positions (paths) of those elements in the tree.
 */
module Traversal {
  import opened Basics
  import opened Elements
  import opened Matchers

  /** Some matcher of `ms` matches `e`, as `any(m.doesMatch(e) for m in ms)` over the whole list. */
  predicate AnyMatches(ms: seq<Matcher>, e: Element)
    requires IsTagged(e)
  {
    exists k :: 0 <= k < |ms| && DoesMatch(ms[k], e)
  }

  /** A node the finder descends into and hands to the match-matchers. */
  predicate Admitted(ignore: seq<Matcher>, e: Element)
  {
    IsTagged(e) && !AnyMatches(ignore, e)
  }

  predicate AllTagged(s: seq<Element>)
  {
    forall k :: 0 <= k < |s| ==> IsTagged(s[k])
  }

  /** The admitted nodes of the tree rooted at `e`, in document pre-order, skipping pruned subtrees. */
  function Visited(ignore: seq<Matcher>, e: Element): (r: seq<Element>)
    ensures AllTagged(r)
    decreases e
  {
    if Admitted(ignore, e) then [e] + VisitedSeq(ignore, e.children) else []
  }

  /** `Visited` of a forest: the trees of `cs` one after another. */
  function VisitedSeq(ignore: seq<Matcher>, cs: seq<Element>): (r: seq<Element>)
    ensures AllTagged(r)
    decreases cs
  {
    if cs == [] then [] else Visited(ignore, cs[0]) + VisitedSeq(ignore, cs[1..])
  }

  lemma {:induction false} VisitedSeqAppend(ignore: seq<Matcher>, a: seq<Element>, b: seq<Element>)
    ensures VisitedSeq(ignore, a + b) == VisitedSeq(ignore, a) + VisitedSeq(ignore, b)
    decreases a
  {
    if a == [] {
      assert a + b == b;
    } else {
      assert (a + b)[0] == a[0] && (a + b)[1..] == a[1..] + b;
      VisitedSeqAppend(ignore, a[1..], b);
    }
  }

  /** The elements of `s` that `m` matches, in the order of `s`: one result list of the finder. */
  function Matching(m: Matcher, s: seq<Element>): (r: seq<Element>)
    requires AllTagged(s)
    ensures forall k :: 0 <= k < |r| ==> r[k] in s && DoesMatch(m, r[k])
    ensures forall x :: x in s && DoesMatch(m, x) ==> x in r
    decreases |s|
  {
    if s == [] then []
    else
      var init := s[..|s| - 1];
      var last := s[|s| - 1];
      assert forall x :: x in s ==> x in init || x == last;
      Matching(m, init) + (if DoesMatch(m, last) then [last] else [])
  }

  // ---- Positions in the tree ----

  /** The node reached from `e` by following child indexes `p`, if there is one. */
  function NodeAt(e: Element, p: seq<nat>): Option<Element>
    decreases |p|
  {
    if p == [] then Some(e)
    else if p[0] < |e.children| then NodeAt(e.children[p[0]], p[1..])
    else None
  }

  /** Every node on the way from `e` down to the end of `p`, both ends included, exists and is admitted. */
  predicate OpenPath(ignore: seq<Matcher>, e: Element, p: seq<nat>)
    ensures OpenPath(ignore, e, p) ==> NodeAt(e, p).Some? && Admitted(ignore, NodeAt(e, p).value)
    decreases |p|
  {
    && Admitted(ignore, e)
    && (p == [] || (p[0] < |e.children| && OpenPath(ignore, e.children[p[0]], p[1..])))
  }

  function Prefixed(k: nat, ps: seq<seq<nat>>): (r: seq<seq<nat>>)
    ensures |r| == |ps|
    ensures forall i :: 0 <= i < |ps| ==> r[i] == [k] + ps[i]
  {
    seq(|ps|, i requires 0 <= i < |ps| => [k] + ps[i])
  }

  /** The paths of the nodes `Visited` lists, in the same order. */
  function VisitedPaths(ignore: seq<Matcher>, e: Element): seq<seq<nat>>
    decreases e, 1
  {
    if Admitted(ignore, e) then [[]] + ChildPaths(ignore, e, 0) else []
  }

  /** The visited paths below the children of `parent` from index `first` on. */
  function ChildPaths(ignore: seq<Matcher>, parent: Element, first: nat): seq<seq<nat>>
    decreases parent, 0, |parent.children| - first
  {
    if first >= |parent.children| then []
    else Prefixed(first, VisitedPaths(ignore, parent.children[first])) + ChildPaths(ignore, parent, first + 1)
  }

  /** Document order on paths: an ancestor comes before its descendants, an earlier sibling's subtree before a later one's. */
  predicate DocBefore(a: seq<nat>, b: seq<nat>)
    decreases |a|
  {
    if a == [] then b != []
    else b != [] && (a[0] < b[0] || (a[0] == b[0] && DocBefore(a[1..], b[1..])))
  }

  predicate InDocumentOrder(ps: seq<seq<nat>>)
  {
    forall i, j :: 0 <= i < j < |ps| ==> DocBefore(ps[i], ps[j])
  }

  lemma {:induction false} ChildPathsMembers(ignore: seq<Matcher>, parent: Element, first: nat, p: seq<nat>)
    ensures p in ChildPaths(ignore, parent, first) <==>
      |p| > 0 && first <= p[0] < |parent.children| && p[1..] in VisitedPaths(ignore, parent.children[p[0]])
    decreases |parent.children| - first
  {
    if first < |parent.children| {
      var block := Prefixed(first, VisitedPaths(ignore, parent.children[first]));
      var rest := ChildPaths(ignore, parent, first + 1);
      ChildPathsMembers(ignore, parent, first + 1, p);
      assert p in block + rest <==> p in block || p in rest;
      if p in block {
        var i :| 0 <= i < |block| && block[i] == p;
        assert p[1..] == VisitedPaths(ignore, parent.children[first])[i];
      }
      if |p| > 0 && p[0] == first && p[1..] in VisitedPaths(ignore, parent.children[first]) {
        var i :| 0 <= i < |VisitedPaths(ignore, parent.children[first])| && VisitedPaths(ignore, parent.children[first])[i] == p[1..];
        assert block[i] == [first] + p[1..] == p;
      }
    }
  }

  /** A path is visited exactly when every node along it exists and is admitted. */
  lemma {:induction false} VisitedPathsAreOpenPaths(ignore: seq<Matcher>, e: Element, p: seq<nat>)
    ensures p in VisitedPaths(ignore, e) <==> OpenPath(ignore, e, p)
    decreases |p|
  {
    if Admitted(ignore, e) && p != [] {
      ChildPathsMembers(ignore, e, 0, p);
      if p[0] < |e.children| {
        VisitedPathsAreOpenPaths(ignore, e.children[p[0]], p[1..]);
      }
    }
  }

  /**
    A path is visited exactly when every node on the way from the root to it, the root and the
    node itself included, exists, is an element node and is matched by no ignore-matcher.
   */
  lemma {:induction false} OpenPathIffAncestorsAdmitted(ignore: seq<Matcher>, e: Element, p: seq<nat>)
    ensures OpenPath(ignore, e, p) <==>
      forall k :: 0 <= k <= |p| ==> NodeAt(e, p[..k]).Some? && Admitted(ignore, NodeAt(e, p[..k]).value)
    decreases |p|
  {
    assert p[..0] == [];
    if p != [] && p[0] < |e.children| {
      var c := e.children[p[0]];
      OpenPathIffAncestorsAdmitted(ignore, c, p[1..]);
      forall k | 1 <= k <= |p|
        ensures NodeAt(e, p[..k]) == NodeAt(c, p[1..][..k - 1])
      {
        assert p[..k][0] == p[0] && p[..k][1..] == p[1..][..k - 1];
      }
      if forall k :: 0 <= k <= |p| ==> NodeAt(e, p[..k]).Some? && Admitted(ignore, NodeAt(e, p[..k]).value) {
        forall j | 0 <= j <= |p[1..]|
          ensures NodeAt(c, p[1..][..j]).Some? && Admitted(ignore, NodeAt(c, p[1..][..j]).value)
        {
          assert NodeAt(e, p[..j + 1]) == NodeAt(c, p[1..][..j]);
        }
      }
    } else if p != [] {
      assert p[..|p|] == p;
      assert NodeAt(e, p) == None;
    }
  }

  /** Pruning: below a node that is not admitted nothing is visited, the node itself included. */
  lemma PrunedSubtreeNotVisited(ignore: seq<Matcher>, e: Element, q: seq<nat>, p: seq<nat>)
    requires q <= p
    requires NodeAt(e, q).Some? && !Admitted(ignore, NodeAt(e, q).value)
    ensures p !in VisitedPaths(ignore, e)
  {
    VisitedPathsAreOpenPaths(ignore, e, p);
    OpenPathIffAncestorsAdmitted(ignore, e, p);
    assert p[..|q|] == q;
  }

  /** `Visited` lists exactly the nodes at the visited paths, in the same order. */
  lemma {:induction false} VisitedAtPaths(ignore: seq<Matcher>, e: Element)
    ensures |VisitedPaths(ignore, e)| == |Visited(ignore, e)|
    ensures forall k :: 0 <= k < |Visited(ignore, e)| ==> NodeAt(e, VisitedPaths(ignore, e)[k]) == Some(Visited(ignore, e)[k])
    decreases e, 1
  {
    if Admitted(ignore, e) {
      ChildrenAtPaths(ignore, e, 0);
      assert e.children[0..] == e.children;
    }
  }

  lemma {:induction false} ChildrenAtPaths(ignore: seq<Matcher>, parent: Element, first: nat)
    requires first <= |parent.children|
    ensures |ChildPaths(ignore, parent, first)| == |VisitedSeq(ignore, parent.children[first..])|
    ensures forall k :: 0 <= k < |ChildPaths(ignore, parent, first)| ==>
      NodeAt(parent, ChildPaths(ignore, parent, first)[k]) == Some(VisitedSeq(ignore, parent.children[first..])[k])
    decreases parent, 0, |parent.children| - first
  {
    if first < |parent.children| {
      var c := parent.children[first];
      var cs := parent.children[first..];
      assert cs[0] == c && cs[1..] == parent.children[first + 1..];
      VisitedAtPaths(ignore, c);
      ChildrenAtPaths(ignore, parent, first + 1);
      var block := Prefixed(first, VisitedPaths(ignore, c));
      forall k | 0 <= k < |block|
        ensures NodeAt(parent, block[k]) == Some(Visited(ignore, c)[k])
      {
        assert block[k][0] == first && block[k][1..] == VisitedPaths(ignore, c)[k];
      }
    }
  }

  lemma {:induction false} DocBeforeUnderPrefix(k: nat, a: seq<nat>, b: seq<nat>)
    ensures DocBefore([k] + a, [k] + b) == DocBefore(a, b)
  {
    assert ([k] + a)[1..] == a && ([k] + b)[1..] == b;
  }

  /** Every path below the children from index `first` on starts at `first` or later. */
  lemma ChildPathsStartFrom(ignore: seq<Matcher>, parent: Element, first: nat)
    ensures forall p :: p in ChildPaths(ignore, parent, first) ==> |p| > 0 && first <= p[0]
  {
    forall p | p in ChildPaths(ignore, parent, first) {
      ChildPathsMembers(ignore, parent, first, p);
    }
  }

  /** Ordering: the visited paths come in document order, the root first. */
  lemma {:induction false} VisitedPathsInDocumentOrder(ignore: seq<Matcher>, e: Element)
    ensures InDocumentOrder(VisitedPaths(ignore, e))
    decreases e, 1
  {
    if Admitted(ignore, e) {
      var rest := ChildPaths(ignore, e, 0);
      ChildPathsInDocumentOrder(ignore, e, 0);
      ChildPathsStartFrom(ignore, e, 0);
      var all := [[]] + rest;
      forall i, j | 0 <= i < j < |all|
        ensures DocBefore(all[i], all[j])
      {
        if i == 0 {
          assert all[j] in rest;
        } else {
          assert all[i] == rest[i - 1] && all[j] == rest[j - 1];
        }
      }
    }
  }

  lemma {:induction false} ChildPathsInDocumentOrder(ignore: seq<Matcher>, parent: Element, first: nat)
    ensures InDocumentOrder(ChildPaths(ignore, parent, first))
    decreases parent, 0, |parent.children| - first
  {
    if first < |parent.children| {
      var c := parent.children[first];
      VisitedPathsInDocumentOrder(ignore, c);
      PrefixedInDocumentOrder(first, VisitedPaths(ignore, c));
      ChildPathsInDocumentOrder(ignore, parent, first + 1);
      ChildPathsStartFrom(ignore, parent, first + 1);
      ConcatInDocumentOrder(first, Prefixed(first, VisitedPaths(ignore, c)), ChildPaths(ignore, parent, first + 1));
    }
  }

  /** Putting the same first index in front of every path keeps them in document order. */
  lemma PrefixedInDocumentOrder(k: nat, ps: seq<seq<nat>>)
    requires InDocumentOrder(ps)
    ensures InDocumentOrder(Prefixed(k, ps))
    ensures forall p :: p in Prefixed(k, ps) ==> |p| > 0 && p[0] == k
  {
    forall i, j | 0 <= i < j < |ps|
      ensures DocBefore(Prefixed(k, ps)[i], Prefixed(k, ps)[j])
    {
      DocBeforeUnderPrefix(k, ps[i], ps[j]);
    }
  }

  /** The subtree of child `k`, then the subtrees of later children: still in document order. */
  lemma ConcatInDocumentOrder(k: nat, block: seq<seq<nat>>, rest: seq<seq<nat>>)
    requires InDocumentOrder(block) && InDocumentOrder(rest)
    requires forall p :: p in block ==> |p| > 0 && p[0] == k
    requires forall p :: p in rest ==> |p| > 0 && k + 1 <= p[0]
    ensures InDocumentOrder(block + rest)
  {
    var all := block + rest;
    forall i, j | 0 <= i < j < |all|
      ensures DocBefore(all[i], all[j])
    {
      if j < |block| {
        assert all[i] == block[i] && all[j] == block[j];
      } else if i < |block| {
        assert all[i] == block[i] && all[i] in block;
        assert all[j] == rest[j - |block|] && all[j] in rest;
      } else {
        assert all[i] == rest[i - |block|] && all[j] == rest[j - |block|];
      }
    }
  }

  // ---- One result list, by position ----

  /** The paths of `ps` whose node is an element that `m` matches, in the order of `ps`. */
  function MatchingPaths(m: Matcher, root: Element, ps: seq<seq<nat>>): seq<seq<nat>>
    decreases |ps|
  {
    if ps == [] then []
    else
      var last := ps[|ps| - 1];
      var node := NodeAt(root, last);
      MatchingPaths(m, root, ps[..|ps| - 1]) +
        (if node.Some? && IsTagged(node.value) && DoesMatch(m, node.value) then [last] else [])
  }

  lemma TaggedSnoc(s: seq<Element>, e: Element)
    requires AllTagged(s) && IsTagged(e)
    ensures AllTagged(s + [e])
  {
    forall k | 0 <= k < |s| + 1
      ensures IsTagged((s + [e])[k])
    {
      if k < |s| {
        assert (s + [e])[k] == s[k];
      }
    }
  }

  lemma MatchingSnoc(m: Matcher, s: seq<Element>, e: Element)
    requires AllTagged(s) && IsTagged(e)
    ensures AllTagged(s + [e])
    ensures Matching(m, s + [e]) == Matching(m, s) + (if DoesMatch(m, e) then [e] else [])
  {
    TaggedSnoc(s, e);
    assert (s + [e])[..|s|] == s;
  }

  lemma MatchingPathsSnoc(m: Matcher, root: Element, ps: seq<seq<nat>>, p: seq<nat>, e: Element)
    requires NodeAt(root, p) == Some(e) && IsTagged(e)
    ensures MatchingPaths(m, root, ps + [p]) == MatchingPaths(m, root, ps) + (if DoesMatch(m, e) then [p] else [])
  {
    assert (ps + [p])[..|ps|] == ps;
  }

  /** Extending two lists that agree position by position with a node and its path keeps them in agreement. */
  lemma AgreeSnoc(root: Element, r: seq<Element>, rp: seq<seq<nat>>, x: Element, p: seq<nat>, b: bool)
    requires |r| == |rp|
    requires forall k :: 0 <= k < |r| ==> NodeAt(root, rp[k]) == Some(r[k])
    requires NodeAt(root, p) == Some(x)
    ensures var r', rp' := r + (if b then [x] else []), rp + (if b then [p] else []);
      |r'| == |rp'| && forall k :: 0 <= k < |r'| ==> NodeAt(root, rp'[k]) == Some(r'[k])
  {
  }

  lemma {:induction false} MatchingAlongPaths(m: Matcher, root: Element, s: seq<Element>, ps: seq<seq<nat>>)
    requires AllTagged(s) && |s| == |ps|
    requires forall k :: 0 <= k < |s| ==> NodeAt(root, ps[k]) == Some(s[k])
    ensures |MatchingPaths(m, root, ps)| == |Matching(m, s)|
    ensures forall k :: 0 <= k < |Matching(m, s)| ==> NodeAt(root, MatchingPaths(m, root, ps)[k]) == Some(Matching(m, s)[k])
    decreases |s|
  {
    if s != [] {
      var n := |s| - 1;
      var s', ps' := s[..n], ps[..n];
      assert s == s' + [s[n]] && ps == ps' + [ps[n]];
      assert forall k :: 0 <= k < n ==> s'[k] == s[k] && ps'[k] == ps[k];
      MatchingAlongPaths(m, root, s', ps');
      MatchingSnoc(m, s', s[n]);
      MatchingPathsSnoc(m, root, ps', ps[n], s[n]);
      AgreeSnoc(root, Matching(m, s'), MatchingPaths(m, root, ps'), s[n], ps[n], DoesMatch(m, s[n]));
    }
  }

  lemma InitInDocumentOrder(ps: seq<seq<nat>>)
    requires InDocumentOrder(ps) && ps != []
    ensures InDocumentOrder(ps[..|ps| - 1])
  {
    var init := ps[..|ps| - 1];
    forall i, j | 0 <= i < j < |init| ensures DocBefore(init[i], init[j]) {
      assert init[i] == ps[i] && init[j] == ps[j];
    }
  }

  lemma SnocInDocumentOrder(head: seq<seq<nat>>, x: seq<nat>)
    requires InDocumentOrder(head)
    requires forall p :: p in head ==> DocBefore(p, x)
    ensures InDocumentOrder(head + [x])
  {
    var r := head + [x];
    forall i, j | 0 <= i < j < |r| ensures DocBefore(r[i], r[j]) {
      if j == |head| {
        assert r[i] == head[i] && r[i] in head;
      } else {
        assert r[i] == head[i] && r[j] == head[j];
      }
    }
  }

  lemma {:induction false} MatchingPathsKeepOrder(m: Matcher, root: Element, ps: seq<seq<nat>>)
    requires InDocumentOrder(ps)
    ensures InDocumentOrder(MatchingPaths(m, root, ps))
    ensures forall p :: p in MatchingPaths(m, root, ps) <==>
      p in ps && NodeAt(root, p).Some? && IsTagged(NodeAt(root, p).value) && DoesMatch(m, NodeAt(root, p).value)
    decreases |ps|
  {
    if ps != [] {
      var n := |ps| - 1;
      var init := ps[..n];
      InitInDocumentOrder(ps);
      MatchingPathsKeepOrder(m, root, init);
      assert forall p :: p in ps <==> p in init || p == ps[n];
      var head := MatchingPaths(m, root, init);
      var r := MatchingPaths(m, root, ps);
      if r != head {
        assert r == head + [ps[n]];
        forall p | p in head
          ensures DocBefore(p, ps[n])
        {
          var a :| 0 <= a < |init| && init[a] == p;
          assert DocBefore(ps[a], ps[n]);
        }
        SnocInDocumentOrder(head, ps[n]);
      }
    }
  }

  /**
    What one result list of the finder is, by position: the nodes at exactly those paths whose
    every node from the root down is an admitted element and whose node `m` matches, listed in
    document order.
   */
  lemma ResultListByPosition(ignore: seq<Matcher>, m: Matcher, root: Element)
    ensures var ps := MatchingPaths(m, root, VisitedPaths(ignore, root));
      var r := Matching(m, Visited(ignore, root));
      && |ps| == |r|
      && (forall k :: 0 <= k < |r| ==> NodeAt(root, ps[k]) == Some(r[k]))
      && InDocumentOrder(ps)
      && (forall p :: p in ps <==> OpenPath(ignore, root, p) && DoesMatch(m, NodeAt(root, p).value))
  {
    var vps := VisitedPaths(ignore, root);
    VisitedAtPaths(ignore, root);
    VisitedPathsInDocumentOrder(ignore, root);
    MatchingAlongPaths(m, root, Visited(ignore, root), vps);
    MatchingPathsKeepOrder(m, root, vps);
    forall p
      ensures p in vps <==> OpenPath(ignore, root, p)
      ensures OpenPath(ignore, root, p) ==> NodeAt(root, p).Some? && IsTagged(NodeAt(root, p).value)
    {
      VisitedPathsAreOpenPaths(ignore, root, p);
    }
  }

  /** Pruning in the result lists: nothing at or below an ignored or non-element node is reported. */
  lemma PrunedNodesNeverReported(ignore: seq<Matcher>, m: Matcher, root: Element, q: seq<nat>, p: seq<nat>)
    requires q <= p
    requires NodeAt(root, q).Some? && !Admitted(ignore, NodeAt(root, q).value)
    ensures p !in MatchingPaths(m, root, VisitedPaths(ignore, root))
  {
    ResultListByPosition(ignore, m, root);
    PrunedSubtreeNotVisited(ignore, root, q, p);
    VisitedPathsAreOpenPaths(ignore, root, p);
  }

  /** A matcher that matches none of the visited elements keeps the empty list it started with. */
  lemma {:induction false} NeverMatchingKeepsEmpty(m: Matcher, s: seq<Element>)
    requires AllTagged(s)
    requires forall k :: 0 <= k < |s| ==> !DoesMatch(m, s[k])
    ensures Matching(m, s) == []
    decreases |s|
  {
    if s != [] {
      NeverMatchingKeepsEmpty(m, s[..|s| - 1]);
    }
  }
}
