/**
 * The page as an abstract forest for element hiding: nodes are indices,
 * `parent[i]` is the parent of node i or -1, `hidden[i]` is the `ddg-hidden`
 * marker, and `empty[i]` is the emptiness decision for node i under the
 * markers as they stand. This module holds the pure specification of what
 * `collapseDomNode` hides.
 */
module DomForest {

  /** An iframe inside a node, as the emptiness check sees it: the page node
      it is, and its `src`. Whether it is hidden is that node's marker. */
  datatype Frame = Frame(node: int, src: string)

  /** What the emptiness check sees of a node once its metadata elements are
      removed: tag name, trimmed lower-cased visible text, its iframes, and
      whether a video or canvas is inside it. */
  datatype NodeContent = NodeContent(tagName: string, visibleText: string,
                                     frames: seq<Frame>, hasMedia: bool)

  const HideType: string := "hide"
  const HideEmptyType: string := "hide-empty"
  const ClosestEmptyType: string := "closest-empty"

  /** An iframe that does not count as content: hidden, or `about:blank`.
      The copy the check parses carries the `hidden` attribute that
      `hideNode` sets, so a hidden marker makes the iframe hidden. */
  predicate FrameWithoutContent(hidden: seq<bool>, f: Frame)
  {
    (0 <= f.node < |hidden| && hidden[f.node]) || f.src == "about:blank"
  }

  /** `frameElements.every(...)`: no iframe carries content. */
  function NoFramesWithContent(hidden: seq<bool>, frames: seq<Frame>): (r: bool)
    ensures r <==> forall i :: 0 <= i < |frames| ==> FrameWithoutContent(hidden, frames[i])
  {
    if frames == [] then true
    else FrameWithoutContent(hidden, frames[0]) && NoFramesWithContent(hidden, frames[1..])
  }

  /** The decision of `isDomNodeEmpty`, under the current markers. */
  function IsDomNodeEmpty(node: NodeContent, adLabelStrings: seq<string>, hidden: seq<bool>): (r: bool)
    ensures node.tagName == "BODY" ==> !r
    ensures node.tagName != "BODY" ==>
      (r <==> (node.visibleText == "" || node.visibleText in adLabelStrings) &&
              (forall f :: f in node.frames ==> FrameWithoutContent(hidden, f)) &&
              !node.hasMedia)
  {
    if node.tagName == "BODY" then false
    else (node.visibleText == "" || node.visibleText in adLabelStrings) &&
         NoFramesWithContent(hidden, node.frames) && !node.hasMedia
  }

  /** The emptiness decision for every node of the page, under the markers. */
  function Emptiness(content: seq<NodeContent>, adLabelStrings: seq<string>, hidden: seq<bool>): (r: seq<bool>)
    ensures |r| == |content|
    ensures forall i :: 0 <= i < |content| ==> r[i] == IsDomNodeEmpty(content[i], adLabelStrings, hidden)
  {
    seq(|content|, i requires 0 <= i < |content| => IsDomNodeEmpty(content[i], adLabelStrings, hidden))
  }

  /** Hiding more nodes only hides more iframes: an empty node stays empty. */
  lemma EmptinessMonotone(content: seq<NodeContent>, adLabelStrings: seq<string>,
                          hidden: seq<bool>, hidden': seq<bool>, i: int)
    requires |hidden'| == |hidden| && 0 <= i < |content|
    requires forall j :: 0 <= j < |hidden| && hidden[j] ==> hidden'[j]
    requires Emptiness(content, adLabelStrings, hidden)[i]
    ensures Emptiness(content, adLabelStrings, hidden')[i]
  {
    forall f | f in content[i].frames ensures FrameWithoutContent(hidden', f) {
      assert FrameWithoutContent(hidden, f);
    }
  }

  /** The emptiness of a node reads only the markers of its own iframes. */
  lemma EmptinessReadsFrames(node: NodeContent, adLabelStrings: seq<string>, hidden: seq<bool>, hidden': seq<bool>)
    requires |hidden'| == |hidden|
    requires forall f :: f in node.frames && 0 <= f.node < |hidden| ==> hidden[f.node] == hidden'[f.node]
    ensures IsDomNodeEmpty(node, adLabelStrings, hidden) == IsDomNodeEmpty(node, adLabelStrings, hidden')
  {
    forall f | f in node.frames ensures FrameWithoutContent(hidden, f) == FrameWithoutContent(hidden', f) {
    }
  }

  /** Every parent is -1 or an earlier node (ancestors precede descendants in
      document order), so walking up the parent chain always ends. */
  predicate WellFormed(parent: seq<int>)
  {
    forall i :: 0 <= i < |parent| ==> -1 <= parent[i] < i
  }

  /** The iframes of each node are the node itself or nodes inside it. */
  ghost predicate FramesInside(parent: seq<int>, content: seq<NodeContent>)
    requires WellFormed(parent) && |content| == |parent|
  {
    forall i, f :: 0 <= i < |content| && f in content[i].frames ==>
      0 <= f.node < |parent| && exists k: nat :: Ancestor(parent, f.node, k) == i
  }

  /** Nodes inside a node follow it in document order. */
  lemma {:induction false} AncestorPrecedes(parent: seq<int>, e: int, k: nat)
    requires WellFormed(parent) && -1 <= e < |parent|
    ensures Ancestor(parent, e, k) <= e
    decreases k
  {
    if e >= 0 && k > 0 {
      AncestorPrecedes(parent, parent[e], k - 1);
    }
  }

  /** A forest with a hidden marker and what the emptiness check sees for
      every node. */
  predicate PageShape(parent: seq<int>, hidden: seq<bool>, content: seq<NodeContent>)
  {
    WellFormed(parent) && |hidden| == |parent| && |content| == |parent|
  }

  /** A forest with a hidden marker and an emptiness decision for every node. */
  predicate Forest(parent: seq<int>, hidden: seq<bool>, empty: seq<bool>)
  {
    WellFormed(parent) && |hidden| == |parent| && |empty| == |parent|
  }

  /** The node k steps up the parent chain from e, or -1 (the document) once
      the walk has passed the root. */
  function Ancestor(parent: seq<int>, e: int, k: nat): (a: int)
    requires WellFormed(parent) && -1 <= e < |parent|
    ensures -1 <= a < |parent|
    decreases k
  {
    if e < 0 then -1 else if k == 0 then e else Ancestor(parent, parent[e], k - 1)
  }

  /** `element.closest('.ddg-hidden')`: the node or one of its ancestors is
      hidden; false for the document (-1). */
  function UnderHidden(parent: seq<int>, hidden: seq<bool>, e: int): bool
    requires WellFormed(parent) && |hidden| == |parent| && -1 <= e < |parent|
    decreases e + 1
  {
    e >= 0 && (hidden[e] || UnderHidden(parent, hidden, parent[e]))
  }

  /** `closest` looks at the node itself and every ancestor: a node is under a
      hidden node iff some step of its walk up to the root is hidden. */
  lemma {:induction false} UnderHiddenIffHiddenAncestor(parent: seq<int>, hidden: seq<bool>, e: int)
    requires WellFormed(parent) && |hidden| == |parent| && -1 <= e < |parent|
    ensures UnderHidden(parent, hidden, e) <==>
            exists j: nat :: Ancestor(parent, e, j) >= 0 && hidden[Ancestor(parent, e, j)]
    decreases e + 1
  {
    if e >= 0 {
      var p := parent[e];
      UnderHiddenIffHiddenAncestor(parent, hidden, p);
      if UnderHidden(parent, hidden, e) {
        if hidden[e] {
          assert Ancestor(parent, e, 0) == e;
          assert Ancestor(parent, e, 0) >= 0 && hidden[Ancestor(parent, e, 0)];
        } else {
          var j: nat :| Ancestor(parent, p, j) >= 0 && hidden[Ancestor(parent, p, j)];
          AncestorStep(parent, e, j);
        }
      } else {
        forall j: nat | Ancestor(parent, e, j) >= 0 ensures !hidden[Ancestor(parent, e, j)] {
          if j > 0 {
            AncestorStep(parent, e, j - 1);
          }
        }
      }
    }
  }

  /** Ancestor(e, k) is the outermost empty node of the walk from e: the nodes
      at steps 0..k are all empty and the node at step k + 1 exists and is
      non-empty (it is the first non-empty ancestor). */
  predicate OutermostEmpty(parent: seq<int>, empty: seq<bool>, e: int, k: nat)
    requires WellFormed(parent) && |empty| == |parent| && -1 <= e < |parent|
  {
    (forall j :: 0 <= j <= k ==> Ancestor(parent, e, j) >= 0 && empty[Ancestor(parent, e, j)]) &&
    Ancestor(parent, e, k + 1) >= 0 && !empty[Ancestor(parent, e, k + 1)]
  }

  /** Every node on the walk from e up to the root is empty. */
  ghost predicate EmptyToRoot(parent: seq<int>, empty: seq<bool>, e: int)
    requires WellFormed(parent) && |empty| == |parent| && -1 <= e < |parent|
  {
    forall j: nat :: Ancestor(parent, e, j) >= 0 ==> empty[Ancestor(parent, e, j)]
  }

  /** What one call of `collapseDomNode` does: hide one node, change nothing,
      or throw. */
  datatype Collapse = Hides(node: int) | Unchanged | Throws

  /** The effect of `collapseDomNode(e, ruleType, prev)`; prev == -1 is no
      previous element. The walk of `closest-empty` can climb past `<html>` to
      the document (e == -1), which has no `classList`: reading it throws a
      TypeError before anything is hidden. */
  function CollapseTarget(parent: seq<int>, hidden: seq<bool>, empty: seq<bool>,
                          e: int, ruleType: string, prev: int): (r: Collapse)
    requires Forest(parent, hidden, empty) && -1 <= e < |parent| && -1 <= prev < |parent|
    ensures r.Hides? ==> 0 <= r.node < |parent|
    ensures r.Throws? ==> e < 0 || ruleType == ClosestEmptyType
    decreases e + 1
  {
    if e < 0 then Throws
    else if UnderHidden(parent, hidden, e) then Unchanged
    else if ruleType == HideType then Hides(e)
    else if ruleType == HideEmptyType then (if empty[e] then Hides(e) else Unchanged)
    else if ruleType == ClosestEmptyType then
      (if empty[e] then CollapseTarget(parent, hidden, empty, parent[e], ruleType, e)
       else if prev >= 0 then Hides(prev) else Unchanged)
    else Unchanged
  }

  /** The hidden markers after a collapse: only a `Hides` changes anything. */
  function HideAt(hidden: seq<bool>, c: Collapse): (h: seq<bool>)
    requires c.Hides? ==> 0 <= c.node < |hidden|
    ensures |h| == |hidden|
    ensures forall i :: 0 <= i < |hidden| && !(c.Hides? && i == c.node) ==> h[i] == hidden[i]
    ensures c.Hides? ==> h[c.node]
  {
    if c.Hides? then hidden[c.node := true] else hidden
  }

  /** An already hidden element, an unsupported rule type, and a non-empty
      start for `hide-empty` or `closest-empty` change nothing; `hide` hides the
      element itself and `hide-empty` hides it iff it is empty; the document
      throws. */
  lemma CollapseTargetCases(parent: seq<int>, hidden: seq<bool>, empty: seq<bool>,
                            e: int, ruleType: string)
    requires Forest(parent, hidden, empty) && -1 <= e < |parent|
    ensures e < 0 ==> CollapseTarget(parent, hidden, empty, e, ruleType, -1) == Throws
    ensures e >= 0 && UnderHidden(parent, hidden, e) ==>
            CollapseTarget(parent, hidden, empty, e, ruleType, -1) == Unchanged
    ensures e >= 0 && ruleType !in {HideType, HideEmptyType, ClosestEmptyType} ==>
            CollapseTarget(parent, hidden, empty, e, ruleType, -1) == Unchanged
    ensures e >= 0 && !UnderHidden(parent, hidden, e) ==>
            CollapseTarget(parent, hidden, empty, e, HideType, -1) == Hides(e)
    ensures e >= 0 && !UnderHidden(parent, hidden, e) ==>
            (CollapseTarget(parent, hidden, empty, e, HideEmptyType, -1) == if empty[e] then Hides(e) else Unchanged)
    ensures e >= 0 && !empty[e] ==>
            CollapseTarget(parent, hidden, empty, e, ClosestEmptyType, -1) == Unchanged
  {
  }

  /** One step up the walk: the node k + 1 steps above e is the node k steps
      above e's parent. */
  lemma AncestorStep(parent: seq<int>, e: int, k: nat)
    requires WellFormed(parent) && 0 <= e < |parent|
    ensures Ancestor(parent, e, k + 1) == Ancestor(parent, parent[e], k)
  {
  }

  /** `closest-empty` from a node with no hidden ancestor hides exactly the
      outermost empty node of the walk, the child of the first non-empty
      ancestor. */
  lemma {:induction false} ClosestEmptyHidesOutermost(parent: seq<int>, hidden: seq<bool>, empty: seq<bool>,
                                                      e: int, k: nat, prev: int)
    requires Forest(parent, hidden, empty) && -1 <= e < |parent| && -1 <= prev < |parent|
    requires !UnderHidden(parent, hidden, e)
    requires OutermostEmpty(parent, empty, e, k)
    ensures CollapseTarget(parent, hidden, empty, e, ClosestEmptyType, prev) == Hides(Ancestor(parent, e, k))
    decreases k
  {
    assert Ancestor(parent, e, 0) >= 0 && empty[Ancestor(parent, e, 0)];
    var p := parent[e];
    AncestorStep(parent, e, k);
    if k > 0 {
      forall j | 0 <= j <= k - 1
        ensures Ancestor(parent, p, j) >= 0 && empty[Ancestor(parent, p, j)]
      {
        AncestorStep(parent, e, j);
        assert Ancestor(parent, e, j + 1) >= 0 && empty[Ancestor(parent, e, j + 1)];
      }
      AncestorStep(parent, e, k - 1);
      AncestorStep(parent, e, k + 1);
      assert OutermostEmpty(parent, empty, p, k - 1);
      ClosestEmptyHidesOutermost(parent, hidden, empty, p, k - 1, e);
    }
  }

  /** When every node up to the root is empty, `closest-empty` climbs to the
      document and throws, unless the start node has a hidden ancestor, in
      which case it changes nothing. */
  lemma {:induction false} ClosestEmptyReachesDocument(parent: seq<int>, hidden: seq<bool>, empty: seq<bool>,
                                                       e: int, prev: int)
    requires Forest(parent, hidden, empty) && -1 <= e < |parent| && -1 <= prev < |parent|
    requires EmptyToRoot(parent, empty, e)
    ensures CollapseTarget(parent, hidden, empty, e, ClosestEmptyType, prev) ==
            if UnderHidden(parent, hidden, e) then Unchanged else Throws
    decreases e + 1
  {
    if e >= 0 && !UnderHidden(parent, hidden, e) {
      assert Ancestor(parent, e, 0) == e;
      var p := parent[e];
      forall j: nat | Ancestor(parent, p, j) >= 0 ensures empty[Ancestor(parent, p, j)] {
        AncestorStep(parent, e, j);
      }
      ClosestEmptyReachesDocument(parent, hidden, empty, p, e);
    }
  }

  /** Conversely, whatever `closest-empty` hides is the outermost empty node of
      the walk from a start with no hidden ancestor, and it throws only when
      there is no hidden ancestor and every node up to the root is empty. */
  lemma ClosestEmptyTargetIsOutermost(parent: seq<int>, hidden: seq<bool>, empty: seq<bool>, e: int)
    requires Forest(parent, hidden, empty) && -1 <= e < |parent|
    ensures var r := CollapseTarget(parent, hidden, empty, e, ClosestEmptyType, -1);
            (r.Hides? ==> !UnderHidden(parent, hidden, e) &&
                          exists k: nat :: OutermostEmpty(parent, empty, e, k) && r.node == Ancestor(parent, e, k)) &&
            (r.Throws? ==> !UnderHidden(parent, hidden, e) && EmptyToRoot(parent, empty, e))
  {
    ClosestEmptyWalk(parent, hidden, empty, e, -1);
  }

  /** The walk from e, entered with the previous element prev: it changes
      nothing, hides prev (when e is non-empty), hides the outermost empty
      node, or throws after finding every node up to the root empty. */
  lemma {:induction false} ClosestEmptyWalk(parent: seq<int>, hidden: seq<bool>, empty: seq<bool>,
                                            e: int, prev: int)
    requires Forest(parent, hidden, empty) && -1 <= e < |parent| && -1 <= prev < |parent|
    ensures var r := CollapseTarget(parent, hidden, empty, e, ClosestEmptyType, prev);
            (r.Hides? ==>
               e >= 0 && !UnderHidden(parent, hidden, e) &&
               ((r.node == prev && !empty[e]) ||
                exists k: nat :: OutermostEmpty(parent, empty, e, k) && r.node == Ancestor(parent, e, k))) &&
            (r.Throws? ==> !UnderHidden(parent, hidden, e) && EmptyToRoot(parent, empty, e))
    decreases e + 1
  {
    var r := CollapseTarget(parent, hidden, empty, e, ClosestEmptyType, prev);
    if e >= 0 && !UnderHidden(parent, hidden, e) && empty[e] {
      var p := parent[e];
      ClosestEmptyWalk(parent, hidden, empty, p, e);
      assert r == CollapseTarget(parent, hidden, empty, p, ClosestEmptyType, e);
      AncestorStep(parent, e, 0);
      if r.Hides? {
        if r.node == e && !empty[p] {
          assert Ancestor(parent, e, 0) == e;
          assert OutermostEmpty(parent, empty, e, 0);
        } else {
          var k: nat :| OutermostEmpty(parent, empty, p, k) && r.node == Ancestor(parent, p, k);
          forall j | 0 <= j <= k + 1
            ensures Ancestor(parent, e, j) >= 0 && empty[Ancestor(parent, e, j)]
          {
            if j > 0 {
              AncestorStep(parent, e, j - 1);
              assert Ancestor(parent, p, j - 1) >= 0 && empty[Ancestor(parent, p, j - 1)];
            }
          }
          AncestorStep(parent, e, k);
          AncestorStep(parent, e, k + 1);
          assert OutermostEmpty(parent, empty, e, k + 1);
        }
      } else if r.Throws? {
        forall j: nat | Ancestor(parent, e, j) >= 0 ensures empty[Ancestor(parent, e, j)] {
          if j > 0 {
            AncestorStep(parent, e, j - 1);
          }
        }
      }
    }
  }

  /** What any collapse hides lies outside every hidden subtree, and it is
      empty unless it is the element of a `hide` rule; `prev`, when given, is
      the empty, not hidden child the walk came from. */
  lemma {:induction false} CollapseTargetSafe(parent: seq<int>, hidden: seq<bool>, empty: seq<bool>,
                                              e: int, ruleType: string, prev: int)
    requires Forest(parent, hidden, empty) && -1 <= e < |parent| && -1 <= prev < |parent|
    requires prev >= 0 ==> parent[prev] == e && !UnderHidden(parent, hidden, prev) && empty[prev]
    ensures var r := CollapseTarget(parent, hidden, empty, e, ruleType, prev);
            r.Hides? ==> !UnderHidden(parent, hidden, r.node) &&
                         (empty[r.node] || (ruleType == HideType && r.node == e))
    decreases e + 1
  {
    if e >= 0 && !UnderHidden(parent, hidden, e) && ruleType == ClosestEmptyType && empty[e] {
      CollapseTargetSafe(parent, hidden, empty, parent[e], ruleType, e);
    }
  }

  /** Hiding more nodes never un-hides a subtree. */
  lemma {:induction false} UnderHiddenMonotone(parent: seq<int>, hidden: seq<bool>, hidden': seq<bool>, e: int)
    requires WellFormed(parent) && |hidden| == |parent| && |hidden'| == |parent| && -1 <= e < |parent|
    requires forall i :: 0 <= i < |parent| && hidden[i] ==> hidden'[i]
    requires UnderHidden(parent, hidden, e)
    ensures UnderHidden(parent, hidden', e)
    decreases e + 1
  {
    if !hidden[e] {
      UnderHiddenMonotone(parent, hidden, hidden', parent[e]);
    }
  }

  /** After a `hide` collapse the element is hidden or inside a hidden subtree. */
  lemma HideCovers(parent: seq<int>, hidden: seq<bool>, empty: seq<bool>, e: int)
    requires Forest(parent, hidden, empty) && 0 <= e < |parent|
    ensures UnderHidden(parent, HideAt(hidden, CollapseTarget(parent, hidden, empty, e, HideType, -1)), e)
  {
    if UnderHidden(parent, hidden, e) {
      UnderHiddenMonotone(parent, hidden, HideAt(hidden, CollapseTarget(parent, hidden, empty, e, HideType, -1)), e);
    }
  }

  /** The markers `unHideLoadedAds` leaves: a node stays hidden iff it was
      hidden and is still empty. */
  function UnhideLoaded(hidden: seq<bool>, empty: seq<bool>): (h: seq<bool>)
    requires |empty| == |hidden|
    ensures |h| == |hidden|
  {
    seq(|hidden|, i requires 0 <= i < |hidden| => hidden[i] && empty[i])
  }

  /** `unHideLoadedAds` also undoes `hide`: an element a `hide` rule hid is
      visible again after the unhiding pass when it still has content once
      hidden (its content is not only its own iframe). */
  lemma UnhideUndoesHide(parent: seq<int>, hidden: seq<bool>, content: seq<NodeContent>,
                         adLabelStrings: seq<string>, e: int)
    requires PageShape(parent, hidden, content) && 0 <= e < |parent|
    requires !UnderHidden(parent, hidden, e)
    requires !IsDomNodeEmpty(content[e], adLabelStrings, hidden[e := true])
    ensures var h := HideAt(hidden, CollapseTarget(parent, hidden, Emptiness(content, adLabelStrings, hidden),
                                                   e, HideType, -1));
            h[e] && !UnhideLoaded(h, Emptiness(content, adLabelStrings, h))[e]
  {
    assert CollapseTarget(parent, hidden, Emptiness(content, adLabelStrings, hidden), e, HideType, -1) == Hides(e);
  }

  /** An iframe whose only content is its own `src` counts as empty once it is
      hidden, so after a `hide` rule hid it the unhiding pass keeps it hidden. */
  lemma HiddenIframeStaysHidden(parent: seq<int>, hidden: seq<bool>, content: seq<NodeContent>,
                                adLabelStrings: seq<string>, e: int, src: string)
    requires PageShape(parent, hidden, content) && 0 <= e < |parent|
    requires !UnderHidden(parent, hidden, e)
    requires content[e] == NodeContent("IFRAME", "", [Frame(e, src)], false)
    ensures var h := HideAt(hidden, CollapseTarget(parent, hidden, Emptiness(content, adLabelStrings, hidden),
                                                   e, HideType, -1));
            h[e] && UnhideLoaded(h, Emptiness(content, adLabelStrings, h))[e]
  {
    var h := hidden[e := true];
    assert CollapseTarget(parent, hidden, Emptiness(content, adLabelStrings, hidden), e, HideType, -1) == Hides(e);
    assert FrameWithoutContent(h, Frame(e, src));
  }
}
