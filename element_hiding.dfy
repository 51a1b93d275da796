/**
 * The element-hiding feature over an abstract page: a forest of nodes whose
 * `hidden` markers the feature sets and clears in place.
 */
module ElementHiding {
  import opened Wrappers
  import opened ElementRules
  import opened DomForest

  /** The hidden markers after a hiding pass, and whether it threw. */
  datatype PassResult = PassResult(hidden: seq<bool>, threw: bool)

  /** Every matched element is a node of a page of n nodes. */
  predicate MatchesIn(matches: seq<seq<int>>, n: int)
  {
    forall r, k :: 0 <= r < |matches| && 0 <= k < |matches[r]| ==> 0 <= matches[r][k] < n
  }

  /** Collapsing the elements one rule matches, in order; each collapse
      decides emptiness under the markers as they stand, so it sees the
      iframes earlier collapses hid. An element whose collapse throws ends the
      pass with the markers as they stand. */
  function CollapseEach(parent: seq<int>, hidden: seq<bool>, content: seq<NodeContent>,
                        adLabelStrings: seq<string>, ruleType: string, elems: seq<int>): (p: PassResult)
    requires PageShape(parent, hidden, content)
    requires forall k :: 0 <= k < |elems| ==> 0 <= elems[k] < |parent|
    ensures |p.hidden| == |hidden|
    decreases |elems|
  {
    if elems == [] then PassResult(hidden, false)
    else
      var c := CollapseTarget(parent, hidden, Emptiness(content, adLabelStrings, hidden), elems[0], ruleType, -1);
      if c.Throws? then PassResult(hidden, true)
      else CollapseEach(parent, HideAt(hidden, c), content, adLabelStrings, ruleType, elems[1..])
  }

  /** The rest of a pass after a first part: nothing more once it threw. */
  function Then(parent: seq<int>, content: seq<NodeContent>, adLabelStrings: seq<string>, first: PassResult,
                rules: seq<Rule>, matches: seq<seq<int>>): (p: PassResult)
    requires PageShape(parent, first.hidden, content) && |matches| == |rules| && MatchesIn(matches, |parent|)
    ensures |p.hidden| == |first.hidden|
    decreases |rules|, 1
  {
    if first.threw then first else HideAll(parent, first.hidden, content, adLabelStrings, rules, matches)
  }

  /** `hideAdNodes(rules)`: collapse every element each rule matches, rule by
      rule; matches[r] lists the nodes the selector of rules[r] selects. */
  function HideAll(parent: seq<int>, hidden: seq<bool>, content: seq<NodeContent>, adLabelStrings: seq<string>,
                   rules: seq<Rule>, matches: seq<seq<int>>): (p: PassResult)
    requires PageShape(parent, hidden, content) && |matches| == |rules| && MatchesIn(matches, |parent|)
    ensures |p.hidden| == |hidden|
    decreases |rules|, 0
  {
    if rules == [] then PassResult(hidden, false)
    else
      assert forall k :: 0 <= k < |matches[0]| ==> 0 <= matches[0][k] < |parent|;
      assert MatchesIn(matches[1..], |parent|) by {
        forall r, k | 0 <= r < |matches[1..]| && 0 <= k < |matches[1..][r]|
          ensures 0 <= matches[1..][r][k] < |parent|
        {
          assert matches[1..][r] == matches[r + 1];
        }
      }
      Then(parent, content, adLabelStrings,
           CollapseEach(parent, hidden, content, adLabelStrings, rules[0].ruleType, matches[0]),
           rules[1..], matches[1..])
  }

  /** Collapsing one rule's matches never unhides a node; a node it hides is
      empty under the markers it leaves or, for a `hide` rule, one of the
      matches; and unless it threw, every match of a `hide` rule ends hidden or
      inside a hidden subtree. */
  lemma {:induction false} CollapseEachSafe(parent: seq<int>, hidden: seq<bool>, content: seq<NodeContent>,
                                            adLabelStrings: seq<string>, ruleType: string, elems: seq<int>)
    requires PageShape(parent, hidden, content)
    requires forall k :: 0 <= k < |elems| ==> 0 <= elems[k] < |parent|
    ensures var p := CollapseEach(parent, hidden, content, adLabelStrings, ruleType, elems);
            (forall i :: 0 <= i < |hidden| && hidden[i] ==> p.hidden[i]) &&
            (forall i :: 0 <= i < |hidden| && p.hidden[i] && !hidden[i] ==>
               Emptiness(content, adLabelStrings, p.hidden)[i] || (ruleType == HideType && i in elems)) &&
            (!p.threw && ruleType == HideType ==>
               forall k :: 0 <= k < |elems| ==> UnderHidden(parent, p.hidden, elems[k]))
    decreases |elems|
  {
    if elems != [] {
      var empty := Emptiness(content, adLabelStrings, hidden);
      var c := CollapseTarget(parent, hidden, empty, elems[0], ruleType, -1);
      if !c.Throws? {
        var h1 := HideAt(hidden, c);
        var p := CollapseEach(parent, h1, content, adLabelStrings, ruleType, elems[1..]);
        CollapseEachSafe(parent, h1, content, adLabelStrings, ruleType, elems[1..]);
        CollapseTargetSafe(parent, hidden, empty, elems[0], ruleType, -1);
        forall i | 0 <= i < |hidden| && p.hidden[i] && !hidden[i]
          ensures Emptiness(content, adLabelStrings, p.hidden)[i] || (ruleType == HideType && i in elems)
        {
          if !h1[i] {
            assert Emptiness(content, adLabelStrings, p.hidden)[i] || (ruleType == HideType && i in elems[1..]);
          } else if empty[i] {
            EmptinessMonotone(content, adLabelStrings, hidden, p.hidden, i);
          }
        }
        if !p.threw && ruleType == HideType {
          forall k | 0 <= k < |elems| ensures UnderHidden(parent, p.hidden, elems[k]) {
            if k == 0 {
              HideCovers(parent, hidden, empty, elems[0]);
              UnderHiddenMonotone(parent, h1, p.hidden, elems[0]);
            } else {
              assert elems[k] == elems[1..][k - 1];
            }
          }
        }
      }
    }
  }

  /** A whole hiding pass never unhides a node; a node it hides is empty under
      the markers it leaves or matched by a `hide` rule; and unless it threw,
      every element a `hide` rule matches ends hidden or inside a hidden
      subtree. */
  lemma {:induction false} HideAllSafe(parent: seq<int>, hidden: seq<bool>, content: seq<NodeContent>,
                                       adLabelStrings: seq<string>, rules: seq<Rule>, matches: seq<seq<int>>)
    requires PageShape(parent, hidden, content) && |matches| == |rules| && MatchesIn(matches, |parent|)
    ensures var p := HideAll(parent, hidden, content, adLabelStrings, rules, matches);
            (forall i :: 0 <= i < |hidden| && hidden[i] ==> p.hidden[i]) &&
            (forall i :: 0 <= i < |hidden| && p.hidden[i] && !hidden[i] ==>
               Emptiness(content, adLabelStrings, p.hidden)[i] ||
               exists r :: 0 <= r < |rules| && rules[r].ruleType == HideType && i in matches[r]) &&
            (!p.threw ==>
               forall r, k :: 0 <= r < |rules| && rules[r].ruleType == HideType && 0 <= k < |matches[r]| ==>
                 UnderHidden(parent, p.hidden, matches[r][k]))
    decreases |rules|
  {
    if rules != [] {
      assert forall k :: 0 <= k < |matches[0]| ==> 0 <= matches[0][k] < |parent|;
      var first := CollapseEach(parent, hidden, content, adLabelStrings, rules[0].ruleType, matches[0]);
      CollapseEachSafe(parent, hidden, content, adLabelStrings, rules[0].ruleType, matches[0]);
      if !first.threw {
        assert MatchesIn(matches[1..], |parent|) by {
          forall r, k | 0 <= r < |matches[1..]| && 0 <= k < |matches[1..][r]|
            ensures 0 <= matches[1..][r][k] < |parent|
          {
            assert matches[1..][r] == matches[r + 1];
          }
        }
        var p := HideAll(parent, first.hidden, content, adLabelStrings, rules[1..], matches[1..]);
        HideAllSafe(parent, first.hidden, content, adLabelStrings, rules[1..], matches[1..]);
        forall i | 0 <= i < |hidden| && p.hidden[i] && !hidden[i]
          ensures Emptiness(content, adLabelStrings, p.hidden)[i] ||
                  exists r :: 0 <= r < |rules| && rules[r].ruleType == HideType && i in matches[r]
        {
          if !first.hidden[i] {
            if !Emptiness(content, adLabelStrings, p.hidden)[i] {
              var r :| 0 <= r < |rules[1..]| && rules[1..][r].ruleType == HideType && i in matches[1..][r];
              assert rules[r + 1].ruleType == HideType && i in matches[r + 1];
            }
          } else if Emptiness(content, adLabelStrings, first.hidden)[i] {
            EmptinessMonotone(content, adLabelStrings, first.hidden, p.hidden, i);
          }
        }
        if !p.threw {
          forall r, k | 0 <= r < |rules| && rules[r].ruleType == HideType && 0 <= k < |matches[r]|
            ensures UnderHidden(parent, p.hidden, matches[r][k])
          {
            if r == 0 {
              UnderHiddenMonotone(parent, first.hidden, p.hidden, matches[0][k]);
            } else {
              assert rules[1..][r - 1] == rules[r] && matches[1..][r - 1] == matches[r];
            }
          }
        }
      }
    }
  }

  /** An ad iframe inside a slot, inside `<body>`: `hide` on the iframe makes
      the slot count as empty, so a later `hide-empty` on the slot hides it,
      and the unhiding pass keeps both hidden. */
  lemma HiddenAdEmptiesItsSlot(src: string)
    requires src != "about:blank"
    ensures var parent := [-1, 0, 1, 2];
            var ad := Frame(3, src);
            var content := [NodeContent("HTML", "", [ad], false), NodeContent("BODY", "", [ad], false),
                            NodeContent("DIV", "", [ad], false), NodeContent("IFRAME", "", [ad], false)];
            var rules := [Rule("#ad", HideType), Rule("#slot", HideEmptyType)];
            var p := HideAll(parent, [false, false, false, false], content, [], rules, [[3], [2]]);
            p == PassResult([false, false, true, true], false) &&
            UnhideLoaded(p.hidden, Emptiness(content, [], p.hidden)) == p.hidden
  {
    var parent := [-1, 0, 1, 2];
    var ad := Frame(3, src);
    var content := [NodeContent("HTML", "", [ad], false), NodeContent("BODY", "", [ad], false),
                    NodeContent("DIV", "", [ad], false), NodeContent("IFRAME", "", [ad], false)];
    var h0, h1, h2 := [false, false, false, false], [false, false, false, true], [false, false, true, true];
    assert !UnderHidden(parent, h0, 3) && !UnderHidden(parent, h1, 2);
    assert CollapseEach(parent, h0, content, [], HideType, [3]) == PassResult(h1, false);
    assert Emptiness(content, [], h1)[2];
    assert CollapseEach(parent, h1, content, [], HideEmptyType, [2]) == PassResult(h2, false);
    assert Emptiness(content, [], h2)[2] && Emptiness(content, [], h2)[3];
    var rules := [Rule("#ad", HideType), Rule("#slot", HideEmptyType)];
    assert rules[1..] == [Rule("#slot", HideEmptyType)];
    var matches: seq<seq<int>> := [[3], [2]];
    assert rules[1..][1..] == [] && matches[1..] == [[2]] && matches[1..][1..] == [];
    assert HideAll(parent, h2, content, [], [], []) == PassResult(h2, false);
    assert HideAll(parent, h1, content, [], rules[1..], matches[1..]) == PassResult(h2, false);
  }

  class Page {
    /** parent[i]: the parent node of node i, or -1 for none. */
    var parent: array<int>
    /** hidden[i]: node i carries `ddg-hidden` and `hidden`. */
    var hidden: array<bool>
    /** What the emptiness check sees of each node; its iframes are page nodes,
        whose markers say whether they are hidden. */
    var content: seq<NodeContent>
    /** The ad-label strings of the feature settings. */
    var adLabelStrings: seq<string>

    ghost predicate Valid()
      reads this, parent
    {
      parent.Length == hidden.Length == |content| && WellFormed(parent[..]) &&
      FramesInside(parent[..], content)
    }

    /** The emptiness decision for every node, under the current labels and
        markers. */
    function Empty(): (r: seq<bool>)
      reads this, hidden
      ensures |r| == |content|
    {
      Emptiness(content, adLabelStrings, hidden[..])
    }

    constructor (parents: seq<int>, nodes: seq<NodeContent>)
      requires WellFormed(parents) && |parents| == |nodes| && FramesInside(parents, nodes)
      ensures Valid() && fresh(parent) && fresh(hidden)
      ensures parent[..] == parents && content == nodes && adLabelStrings == []
      ensures forall i :: 0 <= i < hidden.Length ==> !hidden[i]
    {
      parent := new int[|parents|](i requires 0 <= i < |parents| => parents[i]);
      hidden := new bool[|parents|](_ => false);
      content := nodes;
      adLabelStrings := [];
      new;
      assert parent[..] == parents;
    }

    /** `init` when the page is not framed: store the ad labels and resolve the rules. */
    method Init(isBeingFramed: bool, site: string, entries: seq<DomainEntry>,
                globalRules: seq<Rule>, adLabels: seq<string>,
                matchHostname: (string, string) -> bool) returns (activeRules: Option<seq<Rule>>)
      modifies this`adLabelStrings
      ensures isBeingFramed ==> activeRules == None && adLabelStrings == old(adLabelStrings)
      ensures !isBeingFramed ==>
        adLabelStrings == adLabels &&
        activeRules == Some(Resolved(ActiveDomainRules(entries, site, matchHostname), globalRules))
    {
      if isBeingFramed {
        return None;
      }
      adLabelStrings := adLabels;
      var rules := ResolveRules(entries, site, matchHostname, globalRules);
      activeRules := Some(rules);
    }

    /** `hideNode`: mark one node hidden. */
    method HideNode(e: int)
      requires Valid() && 0 <= e < hidden.Length
      modifies hidden
      ensures hidden[..] == old(hidden[..])[e := true]
    {
      hidden[e] := true;
    }

    /** `collapseDomNode(e, ruleType, prev)`; e == -1 is the document, reached
        when the walk climbs past `<html>`, and prev == -1 no previous element.
        `threw` reports the TypeError the document raises. */
    method CollapseDomNode(e: int, ruleType: string, prev: int) returns (threw: bool)
      requires Valid() && -1 <= e < parent.Length && -1 <= prev < parent.Length
      modifies hidden
      ensures hidden[..] == HideAt(old(hidden[..]),
                                   CollapseTarget(parent[..], old(hidden[..]), old(Empty()), e, ruleType, prev))
      ensures threw == CollapseTarget(parent[..], old(hidden[..]), old(Empty()), e, ruleType, prev).Throws?
      decreases e + 1
    {
      if e < 0 {
        // the document has no classList: spreading it throws
        return true;
      }
      threw := false;
      if UnderHidden(parent[..], hidden[..], e) {
        return;
      }
      if ruleType == HideType {
        HideNode(e);
      } else if ruleType == HideEmptyType {
        if IsDomNodeEmpty(content[e], adLabelStrings, hidden[..]) {
          HideNode(e);
        }
      } else if ruleType == ClosestEmptyType {
        // only the outermost empty node is hidden, so that it is easy to
        // unhide once an ad loads into it
        if IsDomNodeEmpty(content[e], adLabelStrings, hidden[..]) {
          threw := CollapseDomNode(parent[e], ruleType, e);
        } else if prev >= 0 {
          HideNode(prev);
        }
      }
      // any other rule type is unsupported and changes nothing
    }

    /** `hideAdNodes`: collapse every element matched by each rule, in order;
        matches[r] lists the nodes the selector of rules[r] selects. A collapse
        that throws ends the pass, and `threw` reports it. */
    method HideAdNodes(rules: seq<Rule>, matches: seq<seq<int>>) returns (threw: bool)
      requires Valid() && |matches| == |rules| && MatchesIn(matches, parent.Length)
      modifies hidden
      ensures hidden[..] == HideAll(parent[..], old(hidden[..]), content, adLabelStrings, rules, matches).hidden
      ensures threw == HideAll(parent[..], old(hidden[..]), content, adLabelStrings, rules, matches).threw
      ensures forall i :: 0 <= i < hidden.Length && old(hidden[i]) ==> hidden[i]
      ensures forall i :: 0 <= i < hidden.Length && hidden[i] && !old(hidden[i]) ==>
        Empty()[i] || exists r :: 0 <= r < |rules| && rules[r].ruleType == HideType && i in matches[r]
      ensures !threw ==>
        forall r, k :: 0 <= r < |rules| && rules[r].ruleType == HideType && 0 <= k < |matches[r]| ==>
          UnderHidden(parent[..], hidden[..], matches[r][k])
    {
      ghost var h0, tree := hidden[..], parent[..];
      ghost var final := HideAll(tree, h0, content, adLabelStrings, rules, matches);
      threw := false;
      var r := 0;
      while r < |rules|
        invariant 0 <= r <= |rules|
        invariant tree == parent[..]
        invariant MatchesIn(matches[r..], parent.Length)
        invariant HideAll(tree, hidden[..], content, adLabelStrings, rules[r..], matches[r..]) == final
      {
        assert rules[r..][0] == rules[r] && rules[r..][1..] == rules[r + 1..];
        assert matches[r..][0] == matches[r] && matches[r..][1..] == matches[r + 1..];
        assert matches[r][0..] == matches[r];
        var k := 0;
        while k < |matches[r]|
          invariant 0 <= k <= |matches[r]|
          invariant tree == parent[..]
          invariant MatchesIn(matches[r + 1..], parent.Length)
          invariant Then(tree, content, adLabelStrings,
                         CollapseEach(tree, hidden[..], content, adLabelStrings, rules[r].ruleType, matches[r][k..]),
                         rules[r + 1..], matches[r + 1..]) == final
        {
          assert matches[r][k..][0] == matches[r][k] && matches[r][k..][1..] == matches[r][k + 1..];
          var failed := CollapseDomNode(matches[r][k], rules[r].ruleType, -1);
          if failed {
            threw := true;
            HideAllSafe(tree, h0, content, adLabelStrings, rules, matches);
            return;
          }
          k := k + 1;
        }
        r := r + 1;
      }
      HideAllSafe(tree, h0, content, adLabelStrings, rules, matches);
    }

    /** `unHideLoadedAds`: visit the hidden nodes in document order and unhide
        each one that is not empty. A node's iframes are the node itself or
        nodes after it, which the pass has not visited yet, so every check
        sees the markers as they were before the pass. */
    method UnHideLoadedAds()
      requires Valid()
      modifies hidden
      ensures hidden[..] == UnhideLoaded(old(hidden[..]), old(Empty()))
      ensures forall i :: 0 <= i < hidden.Length ==> hidden[i] == (old(hidden[i]) && old(Empty())[i])
    {
      ghost var h0 := hidden[..];
      var i := 0;
      while i < hidden.Length
        invariant 0 <= i <= hidden.Length
        invariant forall j :: 0 <= j < i ==> hidden[j] == (h0[j] && Emptiness(content, adLabelStrings, h0)[j])
        invariant forall j :: i <= j < hidden.Length ==> hidden[j] == h0[j]
      {
        forall f | f in content[i].frames && 0 <= f.node < hidden.Length
          ensures hidden[..][f.node] == h0[f.node]
        {
          var k: nat :| Ancestor(parent[..], f.node, k) == i;
          AncestorPrecedes(parent[..], f.node, k);
        }
        EmptinessReadsFrames(content[i], adLabelStrings, hidden[..], h0);
        if hidden[i] && !IsDomNodeEmpty(content[i], adLabelStrings, hidden[..]) {
          hidden[i] := false;
        }
        i := i + 1;
      }
    }
  }
}
