/**
 * getExpression: the locator of a DOM node as a path of XPath location steps
 * (XPath 1.0, section 2), one step `name[k]` per element on the way up from
 * the node to the root of its document or to a given context node.
 */
module XPath {
  import opened Optional
  import opened Dom
  import opened Text

  /** The wildcard form used for elements in the SVG namespace. */
  const SvgOpen: string := "*[local-name()='"
  const SvgClose: string := "']"

  /** The isNodeContext closure: true unless a context was given and the walk stands on it. */
  predicate IsNodeContext(context: Option<NodeId>, current: NodeId)
  {
    context.None? || context.value != current
  }

  /** The guard of the outer while loop: the body runs for node id. */
  predicate Continues(t: Tree, context: Option<NodeId>, id: NodeId)
    requires id < |t|
  {
    t[id].kind == Element && IsNodeContext(context, id)
  }

  /**
   * The upward walk from id stops (at a non-element or at the context) before
   * it would step past a node that has no parent; past such a node getExpression
   * reads nodeType of null and throws.
   */
  predicate ReachesStop(t: Tree, id: NodeId, context: Option<NodeId>)
    requires ValidTree(t) && id < |t|
    decreases id
  {
    Continues(t, context, id) ==> t[id].parent.Some? && ReachesStop(t, t[id].parent.value, context)
  }

  // ---------------------------------------------------------------------------
  // Positions among siblings

  /** Whether a preceding sibling s adds one to the count for an element called name. */
  predicate Counted(t: Tree, s: NodeId, name: string)
    requires s < |t|
  {
    t[s].kind != DocumentType && t[s].name == name
  }

  /** The number of nodes counted on the previousSibling chain that starts at sibling. */
  function CountSameName(t: Tree, sibling: Option<NodeId>, name: string): nat
    requires ValidTree(t) && (sibling.Some? ==> sibling.value < |t|)
    decreases if sibling.Some? then sibling.value + 1 else 0
  {
    match sibling
    case None => 0
    case Some(s) => (if Counted(t, s, name) then 1 else 0) + CountSameName(t, t[s].prev, name)
  }

  /** The previousSibling chain that starts at sibling, nearest first. */
  function SiblingsFrom(t: Tree, sibling: Option<NodeId>): (r: seq<NodeId>)
    requires ValidTree(t) && (sibling.Some? ==> sibling.value < |t|)
    ensures forall s :: s in r ==> s < |t|
    ensures sibling.Some? ==> forall s :: s in r ==> s <= sibling.value
    ensures sibling.None? <==> r == []
    decreases if sibling.Some? then sibling.value + 1 else 0
  {
    match sibling
    case None => []
    case Some(s) => [s] + SiblingsFrom(t, t[s].prev)
  }

  /** All preceding siblings of id. */
  function PrecedingSiblings(t: Tree, id: NodeId): seq<NodeId>
    requires ValidTree(t) && id < |t|
  {
    SiblingsFrom(t, t[id].prev)
  }

  /** The preceding siblings of id that are not doctypes and carry id's nodeName. */
  function SameNamePreceding(t: Tree, id: NodeId): set<NodeId>
    requires ValidTree(t) && id < |t|
  {
    set s | s in PrecedingSiblings(t, id) && Counted(t, s, t[id].name)
  }

  /** The bracketed number of id's step: the value of `index + 1` in getExpression. */
  function Position(t: Tree, id: NodeId): nat
    requires ValidTree(t) && id < |t|
  {
    CountSameName(t, t[id].prev, t[id].name) + 1
  }

  lemma {:induction false} CountIsCardinality(t: Tree, sibling: Option<NodeId>, name: string)
    requires ValidTree(t) && (sibling.Some? ==> sibling.value < |t|)
    ensures CountSameName(t, sibling, name)
         == |set s | s in SiblingsFrom(t, sibling) && Counted(t, s, name)|
    decreases if sibling.Some? then sibling.value + 1 else 0
  {
    match sibling
    case None =>
    case Some(n) =>
      var rest := SiblingsFrom(t, t[n].prev);
      var restSet := set s | s in rest && Counted(t, s, name);
      CountIsCardinality(t, t[n].prev, name);
      assert n !in restSet;
      var all := set s | s in [n] + rest && Counted(t, s, name);
      if Counted(t, n, name) {
        assert all == {n} + restSet;
      } else {
        assert all == restSet;
      }
  }

  /**
   * The position of an element is one more than the number of its preceding
   * siblings that share its nodeName, doctype nodes left out; so it is at least 1.
   */
  lemma PositionCountsSameName(t: Tree, id: NodeId)
    requires ValidTree(t) && id < |t|
    ensures Position(t, id) == |SameNamePreceding(t, id)| + 1
    ensures Position(t, id) >= 1
  {
    CountIsCardinality(t, t[id].prev, t[id].name);
  }

  lemma {:induction false} CountAtLeastFrom(t: Tree, sibling: Option<NodeId>, m: NodeId, name: string)
    requires ValidTree(t) && (sibling.Some? ==> sibling.value < |t|)
    requires m in SiblingsFrom(t, sibling)
    ensures CountSameName(t, sibling, name)
         >= (if Counted(t, m, name) then 1 else 0) + CountSameName(t, t[m].prev, name)
    decreases if sibling.Some? then sibling.value + 1 else 0
  {
    var n := sibling.value;
    if m != n {
      CountAtLeastFrom(t, t[n].prev, m, name);
    }
  }

  /**
   * Two siblings with the same nodeName never share a position: an earlier
   * one that is counted has a strictly smaller number.  Siblings whose
   * nodeNames differ only in case are counted apart yet render the same
   * lower-cased name, so they can share a step (XPathExamples.CaseCollision).
   */
  lemma EarlierSameNameSiblingHasSmallerPosition(t: Tree, m: NodeId, id: NodeId)
    requires ValidTree(t) && id < |t|
    requires m in PrecedingSiblings(t, id) && Counted(t, m, t[id].name)
    ensures Position(t, m) < Position(t, id)
  {
    CountAtLeastFrom(t, t[id].prev, m, t[id].name);
  }

  // ---------------------------------------------------------------------------
  // The walk up the parentNode chain

  /**
   * An independent description of the nodes the outer loop visits, topmost
   * first: each is an element that is not the context, each is the parent of
   * the next, the last is the start, and the parent of the first is where
   * the loop stops.
   */
  ghost predicate IsWalk(t: Tree, start: NodeId, context: Option<NodeId>, r: seq<NodeId>)
    requires start < |t|
  {
    && (forall k :: 0 <= k < |r| ==> r[k] < |t| && Continues(t, context, r[k]))
    && (forall k :: 1 <= k < |r| ==> t[r[k]].parent == Some(r[k - 1]))
    && if r == [] then
         !Continues(t, context, start)
       else
         && r[|r| - 1] == start
         && t[r[0]].parent.Some?
         && t[r[0]].parent.value < |t|
         && !Continues(t, context, t[r[0]].parent.value)
  }

  /** The elements visited by the outer loop, topmost first. */
  function Chain(t: Tree, start: NodeId, context: Option<NodeId>): (r: seq<NodeId>)
    requires ValidTree(t) && start < |t| && ReachesStop(t, start, context)
    ensures forall k :: 0 <= k < |r| ==> r[k] < |t|
    decreases start
  {
    if !Continues(t, context, start) then []
    else Chain(t, t[start].parent.value, context) + [start]
  }

  /** Chain is a walk in the sense of IsWalk. */
  lemma {:induction false} ChainIsWalk(t: Tree, start: NodeId, context: Option<NodeId>)
    requires ValidTree(t) && start < |t| && ReachesStop(t, start, context)
    ensures IsWalk(t, start, context, Chain(t, start, context))
    decreases start
  {
    if Continues(t, context, start) {
      var parent := t[start].parent.value;
      ChainIsWalk(t, parent, context);
      var up := Chain(t, parent, context);
      if up != [] {
        assert t[start].parent == Some(up[|up| - 1]);
      }
    }
  }

  /** IsWalk determines the walk: Chain is the only sequence it accepts. */
  lemma {:induction false} WalkIsChain(t: Tree, start: NodeId, context: Option<NodeId>, r: seq<NodeId>)
    requires ValidTree(t) && start < |t| && ReachesStop(t, start, context)
    requires IsWalk(t, start, context, r)
    ensures r == Chain(t, start, context)
    decreases start
  {
    if r != [] {
      var parent := t[start].parent.value;
      var up := r[..|r| - 1];
      if up != [] {
        assert t[r[|r| - 1]].parent == Some(r[|r| - 2]);
        assert IsWalk(t, parent, context, up);
      }
      WalkIsChain(t, parent, context, up);
      assert r == up + [start];
    }
  }

  /**
   * With a context c, the walk is the part of the context-free walk below c:
   * c itself is never visited, and the walk stops right under it.
   */
  lemma {:induction false} ContextCutsWalk(t: Tree, start: NodeId, c: NodeId)
    requires ValidTree(t) && start < |t| && ReachesStop(t, start, None)
    ensures ReachesStop(t, start, Some(c))
    ensures var full := Chain(t, start, None);
            var rel := Chain(t, start, Some(c));
            && c !in rel
            && |rel| <= |full|
            && rel == full[|full| - |rel|..]
            && (c in full <==> |rel| < |full|)
            && (c in full ==> full[|full| - |rel| - 1] == c)
    decreases start
  {
    ContextKeepsStop(t, start, c);
    if t[start].kind == Element {
      var parent := t[start].parent.value;
      ContextCutsWalk(t, parent, c);
      ChainUnfold(t, start, None);
      var up := Chain(t, parent, None);
      if c != start {
        ChainUnfold(t, start, Some(c));
        CutExtends(up, Chain(t, parent, Some(c)), start, c);
      }
    }
  }

  /** A walk that ends without a context also ends with one. */
  lemma {:induction false} ContextKeepsStop(t: Tree, start: NodeId, c: NodeId)
    requires ValidTree(t) && start < |t| && ReachesStop(t, start, None)
    ensures ReachesStop(t, start, Some(c))
    decreases start
  {
    if t[start].kind == Element {
      ContextKeepsStop(t, t[start].parent.value, c);
    }
  }

  /** The sequence facts behind one step of ContextCutsWalk. */
  lemma CutExtends(up: seq<NodeId>, upRel: seq<NodeId>, start: NodeId, c: NodeId)
    requires c != start && c !in upRel && |upRel| <= |up| && upRel == up[|up| - |upRel|..]
    requires c in up <==> |upRel| < |up|
    requires c in up ==> up[|up| - |upRel| - 1] == c
    ensures var full := up + [start];
            var rel := upRel + [start];
            && c !in rel
            && |rel| <= |full|
            && rel == full[|full| - |rel|..]
            && (c in full <==> |rel| < |full|)
            && (c in full ==> full[|full| - |rel| - 1] == c)
  {
    var full := up + [start];
    var rel := upRel + [start];
    assert full[|full| - |rel|..] == up[|up| - |upRel|..] + [start];
    assert c in full <==> c in up;
    if c in up {
      assert full[|full| - |rel| - 1] == up[|up| - |upRel| - 1];
    }
  }

  // ---------------------------------------------------------------------------
  // Steps, segments and the expression

  /** A location step: the SVG wildcard form or not, the lower-cased name, the position. */
  datatype Step = Step(svg: bool, tag: string, position: nat)

  function StepOf(t: Tree, id: NodeId): Step
    requires ValidTree(t) && id < |t|
  {
    Step(t[id].svg, Lower(t[id].name), Position(t, id))
  }

  /** The text of a step: `tag[k]`, or `*[local-name()='tag'][k]` in the SVG namespace. */
  function Render(s: Step): string
  {
    (if s.svg then SvgOpen + s.tag + SvgClose else s.tag) + "[" + Decimal(s.position) + "]"
  }

  function Segment(t: Tree, id: NodeId): string
    requires ValidTree(t) && id < |t|
  {
    Render(StepOf(t, id))
  }

  /** The rendered steps, in order. */
  function RenderAll(steps: seq<Step>): (r: seq<string>)
    ensures |r| == |steps|
    decreases |steps|
  {
    if steps == [] then [] else [Render(steps[0])] + RenderAll(steps[1..])
  }

  /** The k-th rendered step is the rendering of the k-th step. */
  lemma {:induction false} RenderAllAt(steps: seq<Step>, k: nat)
    requires k < |steps|
    ensures RenderAll(steps)[k] == Render(steps[k])
    decreases |steps|
  {
    if k > 0 {
      RenderAllAt(steps[1..], k - 1);
    }
  }

  /** The steps of the nodes ids, in the same order. */
  function StepsOf(t: Tree, ids: seq<NodeId>): seq<Step>
    requires ValidTree(t) && forall k :: 0 <= k < |ids| ==> ids[k] < |t|
  {
    seq(|ids|, k requires 0 <= k < |ids| => StepOf(t, ids[k]))
  }

  /** The texts of the steps of ids: what the `paths` array of getExpression holds. */
  function Segments(t: Tree, ids: seq<NodeId>): seq<string>
    requires ValidTree(t) && forall k :: 0 <= k < |ids| ==> ids[k] < |t|
  {
    RenderAll(StepsOf(t, ids))
  }

  lemma SegmentsCons(t: Tree, id: NodeId, ids: seq<NodeId>)
    requires ValidTree(t) && id < |t| && forall k :: 0 <= k < |ids| ==> ids[k] < |t|
    ensures Segments(t, [id] + ids) == [Segment(t, id)] + Segments(t, ids)
  {
    var steps := StepsOf(t, [id] + ids);
    assert steps[0] == StepOf(t, id);
    assert steps[1..] == StepsOf(t, ids);
  }

  lemma SegmentsOne(t: Tree, id: NodeId)
    requires ValidTree(t) && id < |t|
    ensures Segments(t, [id]) == [Segment(t, id)]
  {
    assert StepsOf(t, [id]) == [StepOf(t, id)];
  }

  /** The steps of the expression for start, topmost ancestor first. */
  function Steps(t: Tree, start: NodeId, context: Option<NodeId>): seq<Step>
    requires ValidTree(t) && start < |t| && ReachesStop(t, start, context)
  {
    StepsOf(t, Chain(t, start, context))
  }

  /**
   * What getExpression returns: null when no step was collected; otherwise the
   * steps joined by '/', with a leading '/' only when no context was given.
   */
  function Expression(t: Tree, start: NodeId, context: Option<NodeId>): (r: Option<string>)
    requires ValidTree(t) && start < |t| && ReachesStop(t, start, context)
    ensures r.None? <==> t[start].kind != Element || context == Some(start)
  {
    var paths := Segments(t, Chain(t, start, context));
    if |paths| == 0 then None
    else if context.None? then Some("/" + Join(paths, '/'))
    else Some(Join(paths, '/'))
  }

  /** One turn of the outer loop: the walk from a continuing node goes on from its parent. */
  lemma ChainUnfold(t: Tree, id: NodeId, context: Option<NodeId>)
    requires ValidTree(t) && id < |t| && ReachesStop(t, id, context)
    requires Continues(t, context, id)
    ensures t[id].parent.Some? && t[id].parent.value < id
    ensures ReachesStop(t, t[id].parent.value, context)
    ensures Chain(t, id, context) == Chain(t, t[id].parent.value, context) + [id]
  {
  }

  /** The text the loop body builds for an element whose count is index. */
  lemma SegmentText(t: Tree, id: NodeId, index: nat)
    requires ValidTree(t) && id < |t|
    requires index == CountSameName(t, t[id].prev, t[id].name)
    ensures (if t[id].svg then SvgOpen + Lower(t[id].name) + SvgClose else Lower(t[id].name))
            + ("[" + Decimal(index + 1) + "]") == Segment(t, id)
  {
  }

  /** One turn of the outer loop keeps its invariant, one node higher. */
  lemma WalkAdvance(t: Tree, start: NodeId, context: Option<NodeId>, element: NodeId, visited: seq<NodeId>)
    requires ValidTree(t) && start < |t| && ReachesStop(t, start, context)
    requires element < |t| && ReachesStop(t, element, context) && Continues(t, context, element)
    requires Chain(t, start, context) == Chain(t, element, context) + visited
    requires forall k :: 0 <= k < |visited| ==> visited[k] < |t|
    ensures t[element].parent.Some? && t[element].parent.value < |t|
    ensures ReachesStop(t, t[element].parent.value, context)
    ensures Chain(t, start, context) == Chain(t, t[element].parent.value, context) + ([element] + visited)
    ensures forall k :: 0 <= k < |[element] + visited| ==> ([element] + visited)[k] < |t|
  {
    ChainUnfold(t, element, context);
  }

  /** getExpression, with its loops. */
  method GetExpression(t: Tree, start: NodeId, context: Option<NodeId>) returns (r: Option<string>)
    requires ValidTree(t) && start < |t| && ReachesStop(t, start, context)
    ensures r == Expression(t, start, context)
  {
    var paths: seq<string> := [];
    ghost var visited: seq<NodeId> := [];
    var element: NodeId := start;
    while t[element].kind == Element && IsNodeContext(context, element)
      invariant element < |t| && ReachesStop(t, element, context)
      invariant Chain(t, start, context) == Chain(t, element, context) + visited
      invariant forall k :: 0 <= k < |visited| ==> visited[k] < |t|
      invariant paths == Segments(t, visited)
      decreases element
    {
      var name := t[element].name;
      var index := 0;
      var sibling: Option<NodeId> := t[element].prev;
      while sibling.Some?
        invariant sibling.Some? ==> sibling.value < |t|
        invariant index + CountSameName(t, sibling, name) == CountSameName(t, t[element].prev, name)
        decreases if sibling.Some? then sibling.value + 1 else 0
      {
        var s := sibling.value;
        // a doctype sibling is skipped (the `continue` at xpath.js:30)
        if t[s].kind != DocumentType && t[s].name == name {
          index := index + 1;
        }
        sibling := t[s].prev;
      }

      var tagName := Lower(name);
      var pathIndex := "[" + Decimal(index + 1) + "]";
      if t[element].svg {
        tagName := SvgOpen + tagName + SvgClose;
      }
      SegmentText(t, element, index);
      WalkAdvance(t, start, context, element, visited);
      SegmentsCons(t, element, visited);
      paths := [tagName + pathIndex] + paths;
      visited := [element] + visited;
      element := t[element].parent.value;
    }

    assert Chain(t, start, context) == visited;
    if |paths| == 0 {
      return None;
    }
    r := if context.Some? then Some(Join(paths, '/')) else Some("/" + Join(paths, '/'));
  }
}
