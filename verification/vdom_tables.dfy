/**
 * The wrapper tables of the renderer in `src/vdom4.ts`, as values: each wrapper of a rendered
 * node, the parent table (the wrapper a node was rendered under) and the sibling table (the
 * wrapper rendered right after it).  Both tables are keyed by wrapper id; the source keys
 * the parent table by node object, so the model treats every rendered node as a distinct
 * object.
 * `findParentNodes` and the walk `_processOne` does to find the
 * node to insert before are given here as functions of these tables.
 */
module RenderTables {
  import opened JsValues
  import opened Nodes
  import TargetTree

  type WrapperId = nat
  type InstanceId = nat

  /** A node wrapper: the node, its depth and what the renderer has recorded about it. */
  datatype Wrapper = Wrapper(
    node: DNode,
    depth: nat,
    domNode: Option<TargetTree.DomId>,
    childrenWrappers: Option<seq<WrapperId>>,
    findInsertBefore: bool,
    hasPreviousSiblings: Option<bool>,
    hasParentWNode: bool,
    instance: Option<InstanceId>)

  type Wrappers = map<WrapperId, Wrapper>

  /** `isVNodeWrapper(w)` */
  predicate IsVNodeWrapper(wrappers: Wrappers, w: WrapperId)
  {
    w in wrappers && IsVNode(wrappers[w].node)
  }

  /** `isWNodeWrapper(w)` */
  predicate IsWNodeWrapper(wrappers: Wrappers, w: WrapperId)
  {
    w in wrappers && IsWNode(wrappers[w].node)
  }

  /** `w.childrenWrappers || []` */
  function ChildrenOf(wrappers: Wrappers, w: WrapperId): seq<WrapperId>
  {
    if w in wrappers && wrappers[w].childrenWrappers.Some? then wrappers[w].childrenWrappers.value else []
  }

  /** Every recorded parent is a wrapper nearer the root than its child. */
  predicate ParentsBelow(wrappers: Wrappers, parent: map<WrapperId, WrapperId>)
  {
    forall c :: c in parent ==> c in wrappers && parent[c] in wrappers && wrappers[parent[c]].depth < wrappers[c].depth
  }

  /** `w2` keeps every wrapper of `w1`, with its node and depth. */
  predicate Extends(w1: Wrappers, w2: Wrappers)
  {
    forall w :: w in w1 ==> w in w2 && w2[w].node == w1[w].node && w2[w].depth == w1[w].depth
  }

  /**
   * `w2` has the wrappers of `w1` with the same nodes and depths, and every element wrapper
   * keeps its target node: all that `findParentNodes` reads.
   */
  predicate SameShape(w1: Wrappers, w2: Wrappers)
  {
    && w1.Keys == w2.Keys
    && forall w :: w in w1 ==>
         && w2[w].node == w1[w].node && w2[w].depth == w1[w].depth
         && (IsVNode(w1[w].node) ==> w2[w].domNode == w1[w].domNode)
  }

  /** `w`'s children wrappers are one wrapper per node of `rendered`, in order, one level below `w`, with `w` as parent. */
  predicate WrapsRendered(wrappers: Wrappers, parent: map<WrapperId, WrapperId>, w: WrapperId, rendered: seq<DNode>)
  {
    && w in wrappers && wrappers[w].childrenWrappers.Some?
    && var cs := wrappers[w].childrenWrappers.value;
    && |cs| == |rendered|
    && forall k :: 0 <= k < |cs| ==>
         && cs[k] in wrappers && wrappers[cs[k]].node == rendered[k] && wrappers[cs[k]].depth == wrappers[w].depth + 1
         && cs[k] in parent && parent[cs[k]] == w
  }

  // ---------------------------------------------------------------- findParentNodes

  /** The chain of parent wrappers above `w`, nearest first, as the parent table records it. */
  function Ancestors(wrappers: Wrappers, parent: map<WrapperId, WrapperId>, w: WrapperId): (r: seq<WrapperId>)
    requires ParentsBelow(wrappers, parent)
    ensures forall i :: 0 <= i < |r| ==> r[i] in wrappers
    ensures w in wrappers ==> forall i :: 0 <= i < |r| ==> wrappers[r[i]].depth < wrappers[w].depth
    ensures forall i, j :: 0 <= i < j < |r| ==> wrappers[r[j]].depth < wrappers[r[i]].depth
    ensures |r| > 0 <==> w in parent
    decreases if w in wrappers then wrappers[w].depth + 1 else 0
  {
    if w !in parent then []
    else
      var rest := Ancestors(wrappers, parent, parent[w]);
      assert forall i :: 0 < i <= |rest| ==> ([parent[w]] + rest)[i] == rest[i - 1];
      [parent[w]] + rest
  }

  /** An element wrapper that already has a target node. */
  predicate ElementWithNode(wrappers: Wrappers, w: WrapperId)
  {
    IsVNodeWrapper(wrappers, w) && wrappers[w].domNode.Some?
  }

  /** The position of the first element wrapper with a target node in `chain`, or -1. */
  function FirstElementWithNode(wrappers: Wrappers, chain: seq<WrapperId>): (k: int)
    ensures -1 <= k < |chain|
    ensures k == -1 <==> forall i :: 0 <= i < |chain| ==> !ElementWithNode(wrappers, chain[i])
    ensures k >= 0 ==> ElementWithNode(wrappers, chain[k]) && forall i :: 0 <= i < k ==> !ElementWithNode(wrappers, chain[i])
  {
    if |chain| == 0 then -1
    else if ElementWithNode(wrappers, chain[0]) then 0
    else
      var k := FirstElementWithNode(wrappers, chain[1..]);
      if k == -1 then -1 else k + 1
  }

  /** The position of the first widget wrapper in `chain`, or -1. */
  function FirstWidget(wrappers: Wrappers, chain: seq<WrapperId>): (k: int)
    ensures -1 <= k < |chain|
    ensures k == -1 <==> forall i :: 0 <= i < |chain| ==> !IsWNodeWrapper(wrappers, chain[i])
    ensures k >= 0 ==> IsWNodeWrapper(wrappers, chain[k]) && forall i :: 0 <= i < k ==> !IsWNodeWrapper(wrappers, chain[i])
  {
    if |chain| == 0 then -1
    else if IsWNodeWrapper(wrappers, chain[0]) then 0
    else
      var k := FirstWidget(wrappers, chain[1..]);
      if k == -1 then -1 else k + 1
  }

  datatype ParentNodes = ParentNodes(parentDomNode: Option<TargetTree.DomId>, parentWNodeWrapper: Option<WrapperId>)

  /**
   * What `findParentNodes` finds from `found` on, continuing up `chain`: a part already found
   * is kept, a missing part is taken from the first wrapper of the chain that provides it.
   */
  function Continue(wrappers: Wrappers, found: ParentNodes, chain: seq<WrapperId>): ParentNodes
  {
    var e := FirstElementWithNode(wrappers, chain);
    var x := FirstWidget(wrappers, chain);
    ParentNodes(
      if found.parentDomNode.Some? then found.parentDomNode else if e == -1 then None else wrappers[chain[e]].domNode,
      if found.parentWNodeWrapper.Some? then found.parentWNodeWrapper else if x == -1 then None else Some(chain[x]))
  }

  /** One step of the `findParentNodes` walk: what `found` becomes once the wrapper `p` is looked at. */
  function Take(wrappers: Wrappers, found: ParentNodes, p: WrapperId): ParentNodes
  {
    ParentNodes(
      if found.parentDomNode.None? && ElementWithNode(wrappers, p) then wrappers[p].domNode else found.parentDomNode,
      if found.parentWNodeWrapper.None? && IsWNodeWrapper(wrappers, p) then Some(p) else found.parentWNodeWrapper)
  }

  /** Continuing up a chain is looking at its first wrapper, then continuing up the rest. */
  lemma ContinueStep(wrappers: Wrappers, found: ParentNodes, p: WrapperId, rest: seq<WrapperId>)
    ensures Continue(wrappers, found, [p] + rest) == Continue(wrappers, Take(wrappers, found, p), rest)
  {
    assert ([p] + rest)[1..] == rest;
  }

  /** `findParentNodes(w.node)`: the parts found over the whole chain of ancestors. */
  function ParentNodesOf(wrappers: Wrappers, parent: map<WrapperId, WrapperId>, w: WrapperId): ParentNodes
    requires ParentsBelow(wrappers, parent)
  {
    Continue(wrappers, ParentNodes(None, None), Ancestors(wrappers, parent, w))
  }

  /** Depths strictly decrease along `chain`, as they do up a chain of ancestors. */
  predicate Descending(wrappers: Wrappers, chain: seq<WrapperId>)
  {
    && (forall i :: 0 <= i < |chain| ==> chain[i] in wrappers)
    && (forall i, j :: 0 <= i < j < |chain| ==> wrappers[chain[j]].depth < wrappers[chain[i]].depth)
  }

  /**
   * The widget wrapper `findParentNodes` returns is the nearest ancestor widget wrapper: no
   * ancestor deeper than it is a widget wrapper.  It is missing only when no ancestor is one.
   */
  lemma NearestWidgetAncestor(wrappers: Wrappers, parent: map<WrapperId, WrapperId>, w: WrapperId)
    requires ParentsBelow(wrappers, parent) && w in wrappers
    ensures var r := ParentNodesOf(wrappers, parent, w); var chain := Ancestors(wrappers, parent, w);
      && (r.parentWNodeWrapper.Some? <==> exists i :: 0 <= i < |chain| && IsWNodeWrapper(wrappers, chain[i]))
      && (r.parentWNodeWrapper.Some? ==>
            var x := r.parentWNodeWrapper.value;
            && x in chain && IsWNodeWrapper(wrappers, x) && wrappers[x].depth < wrappers[w].depth
            && forall i :: 0 <= i < |chain| && wrappers[x].depth < wrappers[chain[i]].depth ==> !IsWNodeWrapper(wrappers, chain[i]))
  {
    var chain := Ancestors(wrappers, parent, w);
    FirstWidgetNearest(wrappers, chain);
  }

  lemma FirstWidgetNearest(wrappers: Wrappers, chain: seq<WrapperId>)
    requires Descending(wrappers, chain)
    ensures var x := FirstWidget(wrappers, chain);
      x >= 0 ==> forall i :: 0 <= i < |chain| && wrappers[chain[x]].depth < wrappers[chain[i]].depth ==> !IsWNodeWrapper(wrappers, chain[i])
  {
    var x := FirstWidget(wrappers, chain);
    if x >= 0 {
      forall i | 0 <= i < |chain| && wrappers[chain[x]].depth < wrappers[chain[i]].depth
        ensures !IsWNodeWrapper(wrappers, chain[i])
      {
        assert i < x;
      }
    }
  }

  /**
   * The target node `findParentNodes` returns is that of the nearest ancestor element wrapper
   * that has one.  It is missing only when no ancestor element wrapper has a target node.
   */
  lemma NearestElementAncestor(wrappers: Wrappers, parent: map<WrapperId, WrapperId>, w: WrapperId)
    requires ParentsBelow(wrappers, parent) && w in wrappers
    ensures var r := ParentNodesOf(wrappers, parent, w); var chain := Ancestors(wrappers, parent, w);
      && (r.parentDomNode.Some? <==> exists i :: 0 <= i < |chain| && ElementWithNode(wrappers, chain[i]))
      && (r.parentDomNode.Some? ==>
            exists e :: (&& 0 <= e < |chain| && ElementWithNode(wrappers, chain[e]) && wrappers[chain[e]].domNode == r.parentDomNode
                         && forall i :: 0 <= i < |chain| && wrappers[chain[e]].depth < wrappers[chain[i]].depth ==>
                              !ElementWithNode(wrappers, chain[i])))
  {
    var chain := Ancestors(wrappers, parent, w);
    FirstElementNearest(wrappers, chain);
  }

  lemma FirstElementNearest(wrappers: Wrappers, chain: seq<WrapperId>)
    requires Descending(wrappers, chain)
    ensures var e := FirstElementWithNode(wrappers, chain);
      e >= 0 ==> forall i :: 0 <= i < |chain| && wrappers[chain[e]].depth < wrappers[chain[i]].depth ==> !ElementWithNode(wrappers, chain[i])
  {
    var e := FirstElementWithNode(wrappers, chain);
    if e >= 0 {
      forall i | 0 <= i < |chain| && wrappers[chain[e]].depth < wrappers[chain[i]].depth
        ensures !ElementWithNode(wrappers, chain[i])
      {
        assert i < e;
      }
    }
  }

  // ---------------------------------------------------------------- the insert-before walk

  /** The wrapper has a target node and that node is in the tree (has a parent). */
  predicate Attached(wrappers: Wrappers, dom: TargetTree.Dom, w: WrapperId)
  {
    w in wrappers && wrappers[w].domNode.Some? && wrappers[w].domNode.value in dom
    && dom[wrappers[w].domNode.value].parent.Some?
  }

  /**
   * The walk of `_processOne` for the node a new element goes before: along the sibling table,
   * through widget wrappers, stopping at the first element sibling; when a wrapper has no
   * sibling, up to its parent unless that parent is an element.  `Err` stands for a walk that
   * does not end: one that meets a sibling that is neither kind, or that runs past `fuel` steps.
   */
  function InsertBeforeWalk(wrappers: Wrappers, parent: map<WrapperId, WrapperId>, sibling: map<WrapperId, WrapperId>,
                            dom: TargetTree.Dom, search: WrapperId, fuel: nat): (r: Result<Option<TargetTree.DomId>>)
    ensures r.Ok? && r.value.Some? ==>
      exists x :: x in sibling.Values && Attached(wrappers, dom, x) && wrappers[x].domNode == r.value
    decreases fuel
  {
    if fuel == 0 then Err("the search for the node to insert before does not end")
    else if search in sibling then
      var s := sibling[search];
      assert s in sibling.Values;
      if IsVNodeWrapper(wrappers, s) then Ok(if Attached(wrappers, dom, s) then wrappers[s].domNode else None)
      else if IsWNodeWrapper(wrappers, s) then
        if Attached(wrappers, dom, s) then Ok(wrappers[s].domNode)
        else InsertBeforeWalk(wrappers, parent, sibling, dom, s, fuel - 1)
      else Err("the search for the node to insert before does not end")
    else if search !in parent || IsVNodeWrapper(wrappers, parent[search]) then Ok(None)
    else InsertBeforeWalk(wrappers, parent, sibling, dom, parent[search], fuel - 1)
  }

  /** The walk finds nothing when neither `search` nor any widget above it has a later sibling. */
  lemma {:induction false} WalkWithoutSiblings(wrappers: Wrappers, parent: map<WrapperId, WrapperId>,
                                               sibling: map<WrapperId, WrapperId>, dom: TargetTree.Dom,
                                               search: WrapperId, fuel: nat)
    requires ParentsBelow(wrappers, parent) && search in wrappers
    requires forall a :: a in [search] + Ancestors(wrappers, parent, search) ==> a !in sibling
    requires fuel > wrappers[search].depth
    ensures InsertBeforeWalk(wrappers, parent, sibling, dom, search, fuel) == Ok(None)
    decreases fuel
  {
    assert search in [search] + Ancestors(wrappers, parent, search);
    if search in parent && !IsVNodeWrapper(wrappers, parent[search]) {
      var p := parent[search];
      var chain := Ancestors(wrappers, parent, search);
      assert chain == [p] + Ancestors(wrappers, parent, p);
      forall a | a in [p] + Ancestors(wrappers, parent, p)
        ensures a !in sibling
      {
        assert a in [search] + chain;
      }
      WalkWithoutSiblings(wrappers, parent, sibling, dom, p, fuel - 1);
    }
  }
  lemma {:induction false} AncestorsSameShape(w1: Wrappers, w2: Wrappers, parent: map<WrapperId, WrapperId>, w: WrapperId)
    requires ParentsBelow(w1, parent) && SameShape(w1, w2)
    ensures ParentsBelow(w2, parent) && Ancestors(w1, parent, w) == Ancestors(w2, parent, w)
    decreases if w in w1 then w1[w].depth + 1 else 0
  {
    if w in parent {
      AncestorsSameShape(w1, w2, parent, parent[w]);
    }
  }

  lemma {:induction false} FirstsSameShape(w1: Wrappers, w2: Wrappers, chain: seq<WrapperId>)
    requires SameShape(w1, w2)
    ensures FirstElementWithNode(w1, chain) == FirstElementWithNode(w2, chain)
    ensures FirstWidget(w1, chain) == FirstWidget(w2, chain)
    decreases |chain|
  {
    if |chain| > 0 {
      FirstsSameShape(w1, w2, chain[1..]);
    }
  }

  /** `findParentNodes` finds the same parts in two tables of the same shape. */
  lemma ParentNodesSameShape(w1: Wrappers, w2: Wrappers, parent: map<WrapperId, WrapperId>, w: WrapperId)
    requires ParentsBelow(w1, parent) && SameShape(w1, w2)
    ensures ParentsBelow(w2, parent) && ParentNodesOf(w1, parent, w) == ParentNodesOf(w2, parent, w)
  {
    AncestorsSameShape(w1, w2, parent, w);
    FirstsSameShape(w1, w2, Ancestors(w1, parent, w));
  }
}
