/**
 * The `Renderer` of `src/vdom4.ts`: its three work queues, its identity tables and the
 * diff/apply passes over them.  The objects the renderer allocates and links (node wrappers,
 * widget instance data, target nodes) live in tables keyed by fresh ids.  The parent table
 * is keyed by wrapper id, where the source's WeakMap is keyed by the node object: a node
 * object rendered twice shares one entry there, and has two entries here.  What widgets
 * do when the renderer calls them (render, take new properties, registry lookups) is an
 * input, `Widgets`.  An exception the source would throw is returned as `Some(name)` and ends
 * the current pass, keeping every change made before it, as the exception does.
 */
module Reconciler {
  import opened JsValues
  import opened Nodes
  import ChildMatching
  import DomProperties
  import TargetTree
  import opened RenderTables

  type DomId = TargetTree.DomId

  /** The `widgetInstanceMap` entry of a widget instance, with the state the renderer reads. */
  datatype InstanceData = InstanceData(
    ctor: nat,
    properties: Props,
    children: seq<DNode>,
    dirty: bool,
    rendering: bool,
    renders: nat)

  /** What a widget's `__render__` returns, and whether it called `invalidate()` meanwhile. */
  datatype Rendered = Rendered(nodes: Option<seq<DNode>>, invalidated: bool)

  /**
   * The widgets' side of the protocol: `render(ctor, properties, children, renders)` is the
   * result of the instance's render number `renders + 1`; `changed(p0, c0, p1, c1)` says
   * whether taking properties `p1` and children `c1` in place of `p0`, `c0` marks the instance
   * dirty; `localRegistry(instance, label)` is the constructor `instance.registry.get(label)`
   * finds.
   */
  datatype Widgets = Widgets(
    render: (nat, Props, seq<DNode>, nat) -> Rendered,
    changed: (Props, seq<DNode>, Props, seq<DNode>) -> bool,
    localRegistry: (InstanceId, string) -> Option<nat>)

  /** `DomApplicatorInstruction` */
  datatype DomInstruction =
    | Create(next: WrapperId, parentDomNode: Option<DomId>, parentWNodeWrapper: Option<WrapperId>,
             insertBefore: Option<DomId>)
    | Delete(current: WrapperId)

  /** An entry of `_renderQueue`: children to diff, or a target-tree instruction to pass on. */
  datatype RenderItem =
    | Diff(current: seq<WrapperId>, next: seq<WrapperId>)
    | Apply(instruction: DomInstruction)

  /** An entry of `_invalidationQueue` */
  datatype InvalidationItem = InvalidationItem(current: WrapperId, next: WrapperId)

  /** `properties.key != null` */
  predicate HasKey(n: DNode)
  {
    var key := ChildMatching.KeyOf(n);
    !key.Null? && !key.Undefined?
  }

  /** The properties of an element node (none for anything else). */
  function PropertiesOf(n: DNode): Props
  {
    if n.VNode? then n.properties else EmptyProps
  }

  /** The nodes of the wrappers `ids` names; an id the table does not hold stands for undefined. */
  function NodesOf(wrappers: Wrappers, ids: seq<WrapperId>): (r: seq<DNode>)
    ensures |r| == |ids|
    ensures forall k :: 0 <= k < |ids| ==> r[k] == if ids[k] in wrappers then wrappers[ids[k]].node else DNode.Undefined
  {
    if |ids| == 0 then []
    else NodesOf(wrappers, ids[..|ids| - 1]) + [if ids[|ids| - 1] in wrappers then wrappers[ids[|ids| - 1]].node else DNode.Undefined]
  }

  /** Whether `_createDom` makes a target node for the element node `n`: it has a tag or a defined text. */
  predicate MakesDomNode(n: DNode)
    requires n.VNode?
  {
    n.tag != "" || n.text.Some?
  }

  /**
   * Whether `n` is an object, so that it can key the renderer's WeakMaps: null, undefined and
   * strings cannot.
   */
  predicate IsNodeObject(n: DNode)
  {
    n.VNode? || n.WNode?
  }

  /** Whether `renderedToWrapper` can record every node of `rendered` in the parent WeakMap. */
  predicate NodeObjects(rendered: seq<DNode>)
  {
    forall k :: 0 <= k < |rendered| ==> IsNodeObject(rendered[k])
  }

  /** Whether wrapping the children of the element node `n` throws. */
  predicate ChildrenThrow(n: DNode)
    requires n.VNode?
  {
    n.hasChildren && !NodeObjects(n.vchildren)
  }

  const TypeError := "TypeError"

  /** The root of the page, `document.body`. */
  const Body: TargetTree.DomNode := TargetTree.DomNode("body", None, None, [], TargetTree.NoProperties)

  class Renderer {
    const widgets: Widgets
    /** What calling a function-valued node operation property returns. */
    const invoke: Value -> Value
    /** How many render-queue entries one drain processes before it is taken not to end. */
    const fuel: nat

    var sync: bool
    var registry: Option<map<string, nat>>
    var rootNode: DomId
    var invalidationQueue: seq<InvalidationItem>
    var renderQueue: seq<RenderItem>
    var domInstructionQueue: seq<DomInstruction>
    var parentMap: map<WrapperId, WrapperId>
    var instanceToWrapper: map<InstanceId, WrapperId>
    var domNodeToWrapper: map<DomId, WrapperId>
    var siblingMap: map<WrapperId, WrapperId>
    var renderScheduled: bool
    /** How many animation frames have been requested. */
    var frameRequests: nat

    var wrappers: Wrappers
    var nextWrapper: nat
    var instances: map<InstanceId, InstanceData>
    var nextInstance: nat
    var dom: TargetTree.Dom
    var nextDom: nat

    /** Every recorded parent is a wrapper nearer the root than its child. */
    ghost predicate ParentsValid()
      reads this`wrappers, this`parentMap
    {
      ParentsBelow(wrappers, parentMap)
    }

    /** The id counters are past every id in use. */
    ghost predicate CountersValid()
      reads this`wrappers, this`nextWrapper, this`instances, this`nextInstance
    {
      && (forall w :: w in wrappers ==> w < nextWrapper)
      && (forall i :: i in instances ==> i < nextInstance)
    }

    ghost predicate DomCounterValid()
      reads this`dom, this`nextDom
    {
      forall d :: d in dom ==> d < nextDom
    }

    /** The identity maps point at wrappers of the right kind. */
    ghost predicate MapsValid()
      reads this`wrappers, this`domNodeToWrapper, this`instanceToWrapper
    {
      && (forall d :: d in domNodeToWrapper ==> IsVNodeWrapper(wrappers, domNodeToWrapper[d]))
      && (forall i :: i in instanceToWrapper ==> instanceToWrapper[i] in wrappers)
    }

    /** Each queued invalidation updates a widget wrapper from a recorded one. */
    ghost predicate QueueValid()
      reads this`wrappers, this`invalidationQueue
    {
      forall item :: item in invalidationQueue ==> item.current in wrappers && IsWNodeWrapper(wrappers, item.next)
    }

    ghost predicate Valid()
      reads this`wrappers, this`nextWrapper, this`parentMap, this`instances, this`nextInstance, this`dom, this`nextDom,
            this`domNodeToWrapper, this`instanceToWrapper, this`invalidationQueue
    {
      ParentsValid() && CountersValid() && DomCounterValid() && MapsValid() && QueueValid()
    }

    /** `new Renderer(renderer)`: nothing rendered, the page body as root. */
    constructor (widgets: Widgets, invoke: Value -> Value, fuel: nat)
      ensures Valid()
      ensures this.widgets == widgets && this.invoke == invoke && this.fuel == fuel
      ensures !sync && registry.None? && dom == map[0 := Body] && rootNode == 0
      ensures invalidationQueue == [] && renderQueue == [] && domInstructionQueue == []
      ensures parentMap == map[] && siblingMap == map[] && instanceToWrapper == map[] && domNodeToWrapper == map[]
      ensures !renderScheduled && frameRequests == 0 && wrappers == map[] && instances == map[]
    {
      this.widgets := widgets;
      this.invoke := invoke;
      this.fuel := fuel;
      sync := false;
      registry := None;
      rootNode := 0;
      invalidationQueue := [];
      renderQueue := [];
      domInstructionQueue := [];
      parentMap := map[];
      instanceToWrapper := map[];
      domNodeToWrapper := map[];
      siblingMap := map[];
      renderScheduled := false;
      frameRequests := 0;
      wrappers := map[];
      nextWrapper := 0;
      instances := map[];
      nextInstance := 0;
      dom := map[0 := Body];
      nextDom := 1;
    }

    // ---------------------------------------------------------------- wrapping rendered nodes

    /**
     * Whether `renderedToWrapper` marks the new wrappers under `parent` to look for the node
     * to insert before: under a widget whose siblings are not known to be absent, or when the
     * old parent is an element wrapper with more than one child.
     */
    static function InsertBeforeFlag(wrappers: Wrappers, parent: WrapperId, currentParent: Option<WrapperId>): bool
      requires parent in wrappers
    {
      (wrappers[parent].hasPreviousSiblings != Some(false) && IsWNodeWrapper(wrappers, parent))
      || (currentParent.Some? && IsVNodeWrapper(wrappers, currentParent.value)
          && |ChildrenOf(wrappers, currentParent.value)| > 1)
    }

    /**
     * `renderedToWrapper(rendered, parent, currentParent)`: one fresh wrapper per rendered
     * node, in order, one level below `parent`, each recorded with `parent` as its parent and
     * linked to the next one as its sibling.  A node that is not an object (null, undefined or
     * a string) cannot key the parent WeakMap, which throws a TypeError; the tables are then
     * left as they were.
     */
    method RenderedToWrapper(rendered: seq<DNode>, parent: WrapperId, currentParent: Option<WrapperId>)
      returns (ids: seq<WrapperId>, error: Option<string>)
      requires Valid() && parent in wrappers
      modifies this`wrappers, this`nextWrapper, this`parentMap, this`siblingMap
      ensures Valid() && Extends(old(wrappers), wrappers)
      ensures error.Some? <==> !NodeObjects(rendered)
      ensures error.Some? ==>
        error == Some(TypeError) && ids == [] && unchanged(this`wrappers, this`nextWrapper, this`parentMap, this`siblingMap)
      ensures error.None? ==> |ids| == |rendered| && nextWrapper == old(nextWrapper) + |rendered|
      ensures error.None? ==> forall i :: 0 <= i < |ids| ==> ids[i] == old(nextWrapper) + i
      ensures forall i :: 0 <= i < |ids| ==> (ids[i] in wrappers && wrappers[ids[i]] ==
        Wrapper(rendered[i], old(wrappers)[parent].depth + 1, None, None,
                InsertBeforeFlag(old(wrappers), parent, currentParent), None, IsWNodeWrapper(old(wrappers), parent), None))
      ensures forall w :: w in wrappers <==> w in old(wrappers) || old(nextWrapper) <= w < nextWrapper
      ensures forall w :: w in old(wrappers) ==> wrappers[w] == old(wrappers)[w]
      ensures forall i :: 0 <= i < |ids| ==> ids[i] in parentMap && parentMap[ids[i]] == parent
      ensures forall w :: w in old(parentMap) && !(old(nextWrapper) <= w < nextWrapper) ==>
        w in parentMap && parentMap[w] == old(parentMap)[w]
      ensures forall i :: 0 <= i < |ids| - 1 ==> ids[i] in siblingMap && siblingMap[ids[i]] == ids[i + 1]
      ensures forall w :: w in old(siblingMap) && !(old(nextWrapper) <= w < nextWrapper - 1) ==>
        w in siblingMap && siblingMap[w] == old(siblingMap)[w]
    {
      if !NodeObjects(rendered) {
        return [], Some(TypeError);
      }
      error := None;
      ids := WrapRendered(rendered, parent, currentParent);
    }

    /** The tables `renderedToWrapper` leaves when every rendered item is a node object. */
    method WrapRendered(rendered: seq<DNode>, parent: WrapperId, currentParent: Option<WrapperId>)
      returns (ids: seq<WrapperId>)
      requires Valid() && parent in wrappers
      modifies this`wrappers, this`nextWrapper, this`parentMap, this`siblingMap
      ensures Valid() && Extends(old(wrappers), wrappers)
      ensures |ids| == |rendered| && nextWrapper == old(nextWrapper) + |rendered|
      ensures forall i :: 0 <= i < |ids| ==> ids[i] == old(nextWrapper) + i
      ensures forall i :: 0 <= i < |ids| ==> (ids[i] in wrappers && wrappers[ids[i]] ==
        Wrapper(rendered[i], old(wrappers)[parent].depth + 1, None, None,
                InsertBeforeFlag(old(wrappers), parent, currentParent), None, IsWNodeWrapper(old(wrappers), parent), None))
      ensures forall w :: w in wrappers <==> w in old(wrappers) || old(nextWrapper) <= w < nextWrapper
      ensures forall w :: w in old(wrappers) ==> wrappers[w] == old(wrappers)[w]
      ensures forall i :: 0 <= i < |ids| ==> ids[i] in parentMap && parentMap[ids[i]] == parent
      ensures forall w :: w in old(parentMap) && !(old(nextWrapper) <= w < nextWrapper) ==>
        w in parentMap && parentMap[w] == old(parentMap)[w]
      ensures forall i :: 0 <= i < |ids| - 1 ==> ids[i] in siblingMap && siblingMap[ids[i]] == ids[i + 1]
      ensures forall w :: w in old(siblingMap) && !(old(nextWrapper) <= w < nextWrapper - 1) ==>
        w in siblingMap && siblingMap[w] == old(siblingMap)[w]
    {
      var n0 := nextWrapper;
      var w := Wrapper(DNode.Null, wrappers[parent].depth + 1, None, None, InsertBeforeFlag(wrappers, parent, currentParent),
                       None, IsWNodeWrapper(wrappers, parent), None);
      wrappers, parentMap, siblingMap := WrapEach(wrappers, parentMap, siblingMap, n0, rendered, parent, w);
      nextWrapper := n0 + |rendered|;
      ids := seq(|rendered|, k => n0 + k);
    }

    /**
     * The tables after the loop of `renderedToWrapper`: the wrapper `n0 + k` is `template`
     * holding `rendered[k]`, has `parent` as parent and `n0 + k + 1` as sibling.
     */
    static method WrapEach(wrappers: Wrappers, parentMap: map<WrapperId, WrapperId>, siblingMap: map<WrapperId, WrapperId>,
                           n0: WrapperId, rendered: seq<DNode>, parent: WrapperId, template: Wrapper)
      returns (ws: Wrappers, pm: map<WrapperId, WrapperId>, sm: map<WrapperId, WrapperId>)
      requires ParentsBelow(wrappers, parentMap) && parent in wrappers && wrappers[parent].depth < template.depth
      requires forall w :: w in wrappers ==> w < n0
      ensures ParentsBelow(ws, pm)
      ensures forall w :: w in ws <==> w in wrappers || n0 <= w < n0 + |rendered|
      ensures forall w :: w in wrappers ==> ws[w] == wrappers[w]
      ensures forall w :: n0 <= w < n0 + |rendered| ==> ws[w] == template.(node := rendered[w - n0])
      ensures forall w :: n0 <= w < n0 + |rendered| ==> w in pm && pm[w] == parent
      ensures forall w :: w in parentMap && !(n0 <= w < n0 + |rendered|) ==> w in pm && pm[w] == parentMap[w]
      ensures forall w :: n0 <= w < n0 + |rendered| - 1 ==> w in sm && sm[w] == w + 1
      ensures forall w :: w in siblingMap && !(n0 <= w < n0 + |rendered| - 1) ==> w in sm && sm[w] == siblingMap[w]
    {
      ws, pm, sm := wrappers, parentMap, siblingMap;
      var i: nat := 0;
      while i < |rendered|
        invariant 0 <= i <= |rendered|
        invariant ParentsBelow(ws, pm) && parent in ws && ws[parent].depth < template.depth
        invariant forall w :: w in ws <==> w in wrappers || n0 <= w < n0 + i
        invariant forall w :: w in wrappers ==> ws[w] == wrappers[w]
        invariant forall w :: n0 <= w < n0 + i ==> ws[w] == template.(node := rendered[w - n0])
        invariant forall w :: n0 <= w < n0 + i ==> w in pm && pm[w] == parent
        invariant forall w :: w in parentMap && !(n0 <= w < n0 + i) ==> w in pm && pm[w] == parentMap[w]
        invariant forall w :: n0 <= w < n0 + i - 1 ==> w in sm && sm[w] == w + 1
        invariant forall w :: w in siblingMap && !(n0 <= w < n0 + i - 1) ==> w in sm && sm[w] == siblingMap[w]
      {
        var id: WrapperId := n0 + i;
        ws := ws[id := template.(node := rendered[i])];
        pm := pm[id := parent];
        if i > 0 {
          sm := sm[id - 1 := id];
        }
        i := i + 1;
      }
    }

    // ---------------------------------------------------------------- findParentNodes

    /** `findParentNodes(w.node)` */
    method FindParentNodes(w: WrapperId) returns (r: ParentNodes)
      requires Valid() && w in wrappers
      ensures r == ParentNodesOf(wrappers, parentMap, w)
    {
      var parentDomNode: Option<DomId> := None;
      var parentWNodeWrapper: Option<WrapperId> := None;
      var current := w;
      while parentDomNode.None? || parentWNodeWrapper.None?
        invariant current in wrappers
        invariant Continue(wrappers, ParentNodes(parentDomNode, parentWNodeWrapper), Ancestors(wrappers, parentMap, current))
          == ParentNodesOf(wrappers, parentMap, w)
        decreases wrappers[current].depth
      {
        if current !in parentMap {
          break;
        }
        var parentWrapper := parentMap[current];
        assert Ancestors(wrappers, parentMap, current) == [parentWrapper] + Ancestors(wrappers, parentMap, parentWrapper);
        ContinueStep(wrappers, ParentNodes(parentDomNode, parentWNodeWrapper), parentWrapper, Ancestors(wrappers, parentMap, parentWrapper));
        if parentDomNode.None? && IsVNodeWrapper(wrappers, parentWrapper) && wrappers[parentWrapper].domNode.Some? {
          parentDomNode := wrappers[parentWrapper].domNode;
        } else if parentWNodeWrapper.None? && IsWNodeWrapper(wrappers, parentWrapper) {
          parentWNodeWrapper := Some(parentWrapper);
        }
        current := parentWrapper;
      }
      r := ParentNodes(parentDomNode, parentWNodeWrapper);
    }

    /** The insert-before walk of `_processOne` from the new element wrapper `next`. */
    method FindInsertBefore(next: WrapperId) returns (r: Result<Option<DomId>>)
      requires Valid()
      ensures r == InsertBeforeWalk(wrappers, parentMap, siblingMap, dom, next, |wrappers| + 1)
    {
      var insertBefore: Option<DomId> := None;
      var searchNode := next;
      var steps: nat := |wrappers| + 1;
      while insertBefore.None?
        invariant InsertBeforeWalk(wrappers, parentMap, siblingMap, dom, next, |wrappers| + 1)
          == if insertBefore.Some? then Ok(insertBefore) else InsertBeforeWalk(wrappers, parentMap, siblingMap, dom, searchNode, steps)
        decreases steps
      {
        if steps == 0 {
          return Err("the search for the node to insert before does not end");
        }
        if searchNode in siblingMap {
          var nextSibling := siblingMap[searchNode];
          if IsVNodeWrapper(wrappers, nextSibling) {
            if Attached(wrappers, dom, nextSibling) {
              insertBefore := wrappers[nextSibling].domNode;
            }
            return Ok(insertBefore);
          } else if IsWNodeWrapper(wrappers, nextSibling) {
            if Attached(wrappers, dom, nextSibling) {
              insertBefore := wrappers[nextSibling].domNode;
            }
            searchNode := nextSibling;
          } else {
            return Err("the search for the node to insert before does not end");
          }
        } else {
          if searchNode !in parentMap || IsVNodeWrapper(wrappers, parentMap[searchNode]) {
            return Ok(None);
          }
          searchNode := parentMap[searchNode];
        }
        steps := steps - 1;
      }
      r := Ok(insertBefore);
    }

    // ---------------------------------------------------------------- small steps

    /** Records new facts about the wrapper `w`, which keeps its node and depth. */
    method SetWrapper(w: WrapperId, x: Wrapper)
      requires Valid() && w in wrappers && x.node == wrappers[w].node && x.depth == wrappers[w].depth
      modifies this`wrappers
      ensures Valid() && Extends(old(wrappers), wrappers) && wrappers == old(wrappers)[w := x]
    {
      wrappers := wrappers[w := x];
    }

    /** `_domNodeToWrapperMap.set(d, w)` */
    method RecordDomNode(d: DomId, w: WrapperId)
      requires Valid() && IsVNodeWrapper(wrappers, w)
      modifies this`domNodeToWrapper
      ensures Valid() && domNodeToWrapper == old(domNodeToWrapper)[d := w]
    {
      domNodeToWrapper := domNodeToWrapper[d := w];
    }

    /** `document.createElement(tag)` or `document.createTextNode(text)`: a fresh, detached target node. */
    method NewDomNode(tag: string, text: Option<string>) returns (d: DomId)
      requires Valid()
      modifies this`dom, this`nextDom
      ensures Valid() && d == old(nextDom) && nextDom == d + 1
      ensures dom == TargetTree.Create(old(dom), d, tag, text)
    {
      d := nextDom;
      dom := TargetTree.Create(dom, d, tag, text);
      nextDom := d + 1;
    }

    /**
     * `w.childrenWrappers = renderedToWrapper(nodes, w, currentParent)`, when there are nodes;
     * a node that is not an object throws before `w` takes any children wrappers.
     */
    method WrapChildren(w: WrapperId, nodes: Option<seq<DNode>>, currentParent: Option<WrapperId>)
      returns (error: Option<string>)
      requires Valid() && w in wrappers
      modifies this`wrappers, this`nextWrapper, this`parentMap, this`siblingMap
      ensures Valid() && Extends(old(wrappers), wrappers)
      ensures forall x :: x in old(wrappers) && x != w ==> wrappers[x] == old(wrappers)[x]
      ensures wrappers[w] == old(wrappers)[w].(childrenWrappers := wrappers[w].childrenWrappers)
      ensures error.Some? <==> nodes.Some? && !NodeObjects(nodes.value)
      ensures error.Some? ==> error == Some(TypeError) && unchanged(this`wrappers, this`nextWrapper, this`parentMap, this`siblingMap)
      ensures nodes.Some? && error.None? ==> WrapsRendered(wrappers, parentMap, w, nodes.value)
      ensures nodes.None? ==> wrappers == old(wrappers)
    {
      error := None;
      if nodes.Some? {
        var ids;
        ids, error := RenderedToWrapper(nodes.value, w, currentParent);
        if error.Some? {
          return;
        }
        SetWrapper(w, wrappers[w].(childrenWrappers := Some(ids)));
      }
    }

    // ---------------------------------------------------------------- creating

    /**
     * `_createDom`: a new element for a tag, otherwise a new text node for a defined text,
     * otherwise nothing; a wrapper that got a target node gets fresh wrappers for its node's
     * children, when the node has children.  Wrapping children that are not all objects
     * throws after the target node is made and recorded in the wrapper.
     */
    method CreateDom(next: WrapperId) returns (created: Option<DomId>, error: Option<string>)
      requires Valid() && IsVNodeWrapper(wrappers, next)
      modifies this`wrappers, this`nextWrapper, this`parentMap, this`siblingMap, this`dom, this`nextDom
      ensures Valid() && Extends(old(wrappers), wrappers)
      ensures forall w :: w in old(wrappers) && w != next ==> wrappers[w] == old(wrappers)[w]
      ensures created.Some? <==> MakesDomNode(old(wrappers)[next].node)
      ensures error.Some? <==> created.Some? && ChildrenThrow(old(wrappers)[next].node)
      ensures error.Some? ==> error == Some(TypeError)
      ensures created.Some? ==> (
        var n := old(wrappers)[next];
        && created == Some(old(nextDom))
        && dom == TargetTree.Create(old(dom), old(nextDom), n.node.tag, if n.node.tag != "" then None else n.node.text)
        && wrappers[next] == n.(domNode := created, childrenWrappers := wrappers[next].childrenWrappers)
        && (n.node.hasChildren && error.None? ==> WrapsRendered(wrappers, parentMap, next, n.node.vchildren))
        && (!n.node.hasChildren || error.Some? ==> wrappers == old(wrappers)[next := n.(domNode := created)]))
      ensures created.None? ==> dom == old(dom) && wrappers == old(wrappers)
    {
      var n := wrappers[next].node;
      created, error := None, None;
      if n.tag != "" {
        var d := NewDomNode(n.tag, None);
        created := Some(d);
      } else if n.text.Some? {
        var d := NewDomNode("", n.text);
        created := Some(d);
      }
      if created.Some? {
        SetWrapper(next, wrappers[next].(domNode := created));
        error := WrapChildren(next, if n.hasChildren then Some(n.vchildren) else None, None);
      }
    }

    /**
     * `_createDom`, then the new target node recorded as that of `next`.  A node that makes no
     * target node leaves `undefined` as the key of the weak map, which throws a TypeError, as
     * does wrapping children that are not all objects, before the target node is recorded.
     */
    method CreateRecordedDom(next: WrapperId) returns (created: Option<DomId>, error: Option<string>)
      requires Valid() && IsVNodeWrapper(wrappers, next)
      modifies this`wrappers, this`nextWrapper, this`parentMap, this`siblingMap, this`dom, this`nextDom, this`domNodeToWrapper
      ensures Valid() && Extends(old(wrappers), wrappers)
      ensures created.Some? <==> MakesDomNode(old(wrappers)[next].node)
      ensures error.Some? <==> created.None? || ChildrenThrow(old(wrappers)[next].node)
      ensures error.Some? ==> error == Some(TypeError)
      ensures created.None? ==> wrappers == old(wrappers) && dom == old(dom)
      ensures created.Some? ==> wrappers[next].domNode == created
      ensures domNodeToWrapper == if error.None? then old(domNodeToWrapper)[created.value := next] else old(domNodeToWrapper)
    {
      created, error := CreateDom(next);
      if created.None? {
        return created, Some(TypeError);
      }
      if error.Some? {
        return;
      }
      RecordDomNode(created.value, next);
    }

    /**
     * The branch of `_processOne` for a new element wrapper: its target node is created and
     * recorded, a parent widget wrapper without a target node takes it, and the wrapper's
     * children are queued for diffing below a `create` instruction that names the nearest parent
     * target node and parent widget wrapper and, when the wrapper is marked to look for one, the
     * target node to insert before.
     */
    method CreateElement(next: WrapperId) returns (items: seq<RenderItem>, error: Option<string>)
      requires Valid() && IsVNodeWrapper(wrappers, next)
      modifies this`wrappers, this`nextWrapper, this`parentMap, this`siblingMap, this`dom, this`nextDom, this`domNodeToWrapper
      ensures Valid() && Extends(old(wrappers), wrappers)
      ensures var n := old(wrappers)[next].node;
        !MakesDomNode(n) || ChildrenThrow(n) ==> error == Some(TypeError) && items == []
      ensures MakesDomNode(old(wrappers)[next].node) ==> wrappers[next].domNode.Some?
      ensures domNodeToWrapper == if MakesDomNode(old(wrappers)[next].node) && !ChildrenThrow(old(wrappers)[next].node)
        then old(domNodeToWrapper)[wrappers[next].domNode.value := next] else old(domNodeToWrapper)
      ensures error.None? ==> (
        var p := ParentNodesOf(wrappers, parentMap, next);
        && |items| == (if wrappers[next].childrenWrappers.Some? then 2 else 1)
        && (|items| == 2 ==> items[0] == Diff([], wrappers[next].childrenWrappers.value))
        && items[|items| - 1].Apply? && items[|items| - 1].instruction.Create?
        && items[|items| - 1].instruction == Create(next, p.parentDomNode, p.parentWNodeWrapper, items[|items| - 1].instruction.insertBefore))
      ensures var pw := ParentNodesOf(wrappers, parentMap, next).parentWNodeWrapper;
        pw.Some? && MakesDomNode(old(wrappers)[next].node) && !ChildrenThrow(old(wrappers)[next].node) ==>
          pw.value in wrappers && wrappers[pw.value].domNode.Some?
    {
      var p;
      p, error := CreateAndAdopt(next);
      if error.Some? {
        return [], error;
      }
      items, error := CreateInstruction(next, p);
    }

    /**
     * The first half of creating an element wrapper: its target node is made and recorded,
     * its parent nodes are found and the parent widget wrapper takes the target node when it
     * has none yet.
     */
    method CreateAndAdopt(next: WrapperId) returns (p: ParentNodes, error: Option<string>)
      requires Valid() && IsVNodeWrapper(wrappers, next)
      modifies this`wrappers, this`nextWrapper, this`parentMap, this`siblingMap, this`dom, this`nextDom, this`domNodeToWrapper
      ensures Valid() && Extends(old(wrappers), wrappers)
      ensures error.Some? <==> !MakesDomNode(old(wrappers)[next].node) || ChildrenThrow(old(wrappers)[next].node)
      ensures error.Some? ==> error == Some(TypeError)
      ensures !MakesDomNode(old(wrappers)[next].node) ==> wrappers == old(wrappers) && dom == old(dom)
      ensures MakesDomNode(old(wrappers)[next].node) ==> wrappers[next].domNode.Some?
      ensures domNodeToWrapper == if error.None?
        then old(domNodeToWrapper)[wrappers[next].domNode.value := next] else old(domNodeToWrapper)
      ensures error.None? ==> p == ParentNodesOf(wrappers, parentMap, next)
      ensures p.parentWNodeWrapper.Some? && MakesDomNode(old(wrappers)[next].node) ==>
        p.parentWNodeWrapper.value in wrappers && wrappers[p.parentWNodeWrapper.value].domNode.Some?
    {
      var created;
      created, error := CreateRecordedDom(next);
      if error.Some? {
        return ParentNodes(None, None), error;
      }
      ghost var nd := wrappers[next].domNode;
      p := FindParentNodes(next);
      NearestWidgetAncestor(wrappers, parentMap, next);
      if created.Some? && p.parentWNodeWrapper.Some? {
        var pw := p.parentWNodeWrapper.value;
        assert pw != next by {
          assert wrappers[pw].depth < wrappers[next].depth;
        }
        AdoptDomNode(pw, created.value, next);
      }
      assert wrappers[next].domNode == nd;
    }

    /**
     * The entries `_processOne` returns for a new element wrapper whose parent nodes are `p`:
     * its children to diff, when it has children wrappers, then the `create` instruction, with
     * the target node to insert before when the wrapper is marked to look for one.
     */
    method CreateInstruction(next: WrapperId, p: ParentNodes) returns (items: seq<RenderItem>, error: Option<string>)
      requires Valid() && next in wrappers
      ensures error.Some? ==> wrappers[next].findInsertBefore
      ensures error.None? ==> |items| == if wrappers[next].childrenWrappers.Some? then 2 else 1
      ensures error.None? && |items| == 2 ==> items[0] == Diff([], wrappers[next].childrenWrappers.value)
      ensures error.None? ==> (
        var last := items[|items| - 1];
        && last.Apply? && last.instruction.Create?
        && last.instruction == Create(next, p.parentDomNode, p.parentWNodeWrapper, last.instruction.insertBefore)
        && (last.instruction.insertBefore.Some? ==>
              && wrappers[next].findInsertBefore
              && exists s :: s in siblingMap.Values && Attached(wrappers, dom, s) && wrappers[s].domNode == last.instruction.insertBefore))
    {
      var insertBefore: Option<DomId> := None;
      if wrappers[next].findInsertBefore {
        var r := FindInsertBefore(next);
        if r.Err? {
          return [], Some(r.message);
        }
        insertBefore := r.value;
      }
      var instruction := Apply(Create(next, p.parentDomNode, p.parentWNodeWrapper, insertBefore));
      if wrappers[next].childrenWrappers.Some? {
        items := [Diff([], wrappers[next].childrenWrappers.value), instruction];
      } else {
        items := [instruction];
      }
      error := None;
    }

    /** A parent widget wrapper without a target node takes `d`, the first one created below it. */
    method AdoptDomNode(pw: WrapperId, d: DomId, next: WrapperId)
      requires Valid() && IsWNodeWrapper(wrappers, pw) && next in wrappers
      modifies this`wrappers
      ensures Valid() && Extends(old(wrappers), wrappers)
      ensures wrappers == if old(wrappers)[pw].domNode.None? then old(wrappers)[pw := old(wrappers)[pw].(domNode := Some(d))] else old(wrappers)
      ensures ParentNodesOf(wrappers, parentMap, next) == ParentNodesOf(old(wrappers), parentMap, next)
    {
      if wrappers[pw].domNode.None? {
        ghost var before := wrappers;
        SetWrapper(pw, wrappers[pw].(domNode := Some(d)));
        ParentNodesSameShape(before, wrappers, parentMap, next);
      }
    }

    /** What `registry.get(label)` finds for a widget wrapper: the renderer's registry at the top, the parent instance's below it. */
    function LookupLabel(name: Option<string>, parentWidget: Option<WrapperId>): Result<Option<nat>>
      reads this
    {
      if parentWidget.None? then
        Ok(if name.Some? && registry.Some? && name.value in registry.value then Some(registry.value[name.value]) else None)
      else if parentWidget.value !in wrappers || wrappers[parentWidget.value].instance.None? then Err(TypeError)
      else Ok(if name.Some? then widgets.localRegistry(wrappers[parentWidget.value].instance.value, name.value) else None)
    }

    /**
     * The constructor `_createWidget` instantiates for node `n` below the parent widget wrapper
     * `parentWidget`: a node's own constructor, or the one its label is registered under;
     * `None` when the label is not registered.  Reading the constructor of null or undefined
     * is an error.
     */
    function ResolveCtor(n: DNode, parentWidget: Option<WrapperId>): (r: Result<Option<nat>>)
      reads this
      ensures n.Null? || n.Undefined? ==> r.Err?
      ensures r.Ok? && r.value.Some? ==> n.WNode?
      ensures n.WNode? && n.widgetConstructor.Ctor? ==> r == Ok(Some(n.widgetConstructor.ref))
    {
      match n
      case Null => Err(TypeError)
      case Undefined => Err(TypeError)
      case WNode(_, Ctor(c), _, _) => Ok(Some(c))
      case WNode(_, Label(l), _, _) => LookupLabel(Some(l), parentWidget)
      case _ => LookupLabel(None, parentWidget)
    }

    /**
     * `_createWidget`: a widget wrapper whose constructor resolves gets a new instance that
     * takes the node's properties and children and renders once; the rendered nodes get fresh
     * wrappers below it.  An unresolved label leaves everything as it was.  Rendered nodes
     * that are not all objects throw once the instance is made and has rendered.
     */
    method CreateWidget(next: WrapperId) returns (error: Option<string>)
      requires Valid() && next in wrappers && !IsVNode(wrappers[next].node)
      modifies this`wrappers, this`nextWrapper, this`parentMap, this`siblingMap, this`instances, this`nextInstance
      ensures Valid() && Extends(old(wrappers), wrappers)
      ensures var found := old(ResolveCtor(wrappers[next].node, ParentNodesOf(wrappers, parentMap, next).parentWNodeWrapper));
        && (found.Err? ==> error == Some(found.message))
        && (found.Ok? && found.value.None? ==> error.None?)
        && (found.Err? || found.value.None? ==> wrappers == old(wrappers) && instances == old(instances))
        && (found.Ok? && found.value.Some? ==> (
              var n := old(wrappers)[next].node;
              var i := old(nextInstance);
              var out := widgets.render(found.value.value, n.properties, n.wchildren, 0);
              && instances == old(instances)[i := InstanceData(found.value.value, n.properties, n.wchildren, out.invalidated, false, 1)]
              && wrappers[next].instance == Some(i)
              && (error.Some? <==> out.nodes.Some? && !NodeObjects(out.nodes.value))
              && (error.Some? ==> error == Some(TypeError))
              && (out.nodes.Some? && error.None? ==> WrapsRendered(wrappers, parentMap, next, out.nodes.value))
              && (out.nodes.None? || error.Some? ==> wrappers == old(wrappers)[next := old(wrappers)[next].(instance := Some(i))])))
    {
      var n := wrappers[next].node;
      var p := FindParentNodes(next);
      var found := ResolveCtor(n, p.parentWNodeWrapper);
      if found.Err? {
        return Some(found.message);
      }
      if found.value.None? {
        return None;
      }
      var ctor := found.value.value;
      var i := nextInstance;
      var out := widgets.render(ctor, n.properties, n.wchildren, 0);
      instances := instances[i := InstanceData(ctor, n.properties, n.wchildren, out.invalidated, false, 1)];
      nextInstance := i + 1;
      SetWrapper(next, wrappers[next].(instance := Some(i)));
      error := WrapChildren(next, out.nodes, None);
    }

    // ---------------------------------------------------------------- updating

    /**
     * `_updateWidget`: `next` takes over `current`'s instance, target node and children
     * wrappers; the instance takes `next`'s properties and children and renders again only when
     * that, or an earlier invalidation, left it dirty, in which case the rendered nodes get fresh
     * wrappers below `next`.  A clean instance keeps its render count and `next` keeps
     * `current`'s children wrappers.  Rendered nodes that are not all objects throw once the
     * instance has rendered.
     */
    method UpdateWidget(current: WrapperId, next: WrapperId) returns (error: Option<string>)
      requires Valid() && current in wrappers && IsWNodeWrapper(wrappers, next)
      modifies this`wrappers, this`nextWrapper, this`parentMap, this`siblingMap, this`instances
      ensures Valid() && Extends(old(wrappers), wrappers)
      ensures forall w :: w in old(wrappers) && w != next ==> wrappers[w] == old(wrappers)[w]
      ensures error.Some? ==> error == Some(TypeError)
      ensures var i := old(wrappers)[current].instance;
        i.None? || i.value !in old(instances) ==> (
          && error.Some? && instances == old(instances) && wrappers.Keys == old(wrappers).Keys
          && wrappers[next] == old(wrappers)[next].(instance := i))
      ensures var i := old(wrappers)[current].instance;
        i.Some? && i.value in old(instances) ==> (
        var c := old(wrappers)[current];
        var d := old(instances)[i.value];
        var n := old(wrappers)[next].node;
        var dirty := d.dirty || widgets.changed(d.properties, d.children, n.properties, n.wchildren);
        var out := widgets.render(d.ctor, n.properties, n.wchildren, d.renders);
        && wrappers[next].instance == i && wrappers[next].domNode == c.domNode
        && instances == old(instances)[i.value := d.(properties := n.properties, children := n.wchildren, rendering := false,
                                                dirty := dirty && out.invalidated, renders := if dirty then d.renders + 1 else d.renders)]
        && (error.Some? <==> UpdateThrows(d, n))
        && (dirty && out.nodes.Some? && error.None? ==> WrapsRendered(wrappers, parentMap, next, out.nodes.value))
        && (!(dirty && out.nodes.Some?) || error.Some? ==>
              && wrappers.Keys == old(wrappers).Keys
              && wrappers[next] == old(wrappers)[next].(instance := i, domNode := c.domNode, childrenWrappers := c.childrenWrappers)))
    {
      var c := wrappers[current];
      var i := c.instance;
      SetWrapper(next, wrappers[next].(instance := i));
      if i.None? || i.value !in instances {
        return Some(TypeError);
      }
      var d := instances[i.value];
      var n := wrappers[next].node;
      var dirty := d.dirty || widgets.changed(d.properties, d.children, n.properties, n.wchildren);
      SetWrapper(next, wrappers[next].(domNode := c.domNode, childrenWrappers := c.childrenWrappers));
      error := RenderIfDirty(i.value, next, current, dirty);
    }

    /**
     * Whether `_updateWidget` throws once the instance with data `d` has taken the widget node
     * `n`: it is dirty and renders nodes that are not all objects.
     */
    predicate UpdateThrows(d: InstanceData, n: DNode)
      requires n.WNode?
    {
      var dirty := d.dirty || widgets.changed(d.properties, d.children, n.properties, n.wchildren);
      var out := widgets.render(d.ctor, n.properties, n.wchildren, d.renders);
      dirty && out.nodes.Some? && !NodeObjects(out.nodes.value)
    }

    /**
     * The rest of `_updateWidget`: the instance takes `next`'s properties and children and, if
     * `dirty`, renders again, the rendered nodes becoming `next`'s children wrappers.
     */
    method RenderIfDirty(i: InstanceId, next: WrapperId, current: WrapperId, dirty: bool) returns (error: Option<string>)
      requires Valid() && i in instances && IsWNodeWrapper(wrappers, next)
      modifies this`wrappers, this`nextWrapper, this`parentMap, this`siblingMap, this`instances
      ensures Valid() && Extends(old(wrappers), wrappers)
      ensures forall w :: w in old(wrappers) && w != next ==> wrappers[w] == old(wrappers)[w]
      ensures wrappers[next] == old(wrappers)[next].(childrenWrappers := wrappers[next].childrenWrappers)
      ensures var d := old(instances)[i]; var n := old(wrappers)[next].node;
        var out := widgets.render(d.ctor, n.properties, n.wchildren, d.renders);
        && instances == old(instances)[i := d.(properties := n.properties, children := n.wchildren, rendering := false,
                                                dirty := dirty && out.invalidated, renders := if dirty then d.renders + 1 else d.renders)]
        && (error.Some? <==> dirty && out.nodes.Some? && !NodeObjects(out.nodes.value))
        && (error.Some? ==> error == Some(TypeError))
        && (dirty && out.nodes.Some? && error.None? ==> WrapsRendered(wrappers, parentMap, next, out.nodes.value))
        && (!(dirty && out.nodes.Some?) || error.Some? ==> wrappers == old(wrappers))
    {
      var d := instances[i];
      var n := wrappers[next].node;
      error := None;
      if dirty {
        var out := widgets.render(d.ctor, n.properties, n.wchildren, d.renders);
        instances := instances[i := d.(properties := n.properties, children := n.wchildren, rendering := false,
                                       dirty := out.invalidated, renders := d.renders + 1)];
        error := WrapChildren(next, out.nodes, Some(current));
      } else {
        instances := instances[i := d.(properties := n.properties, children := n.wchildren, rendering := false, dirty := false)];
      }
    }

    /**
     * The branch of `_processOne` for two widget wrappers: the wrapper recorded for `current`'s
     * instance is updated into `next`, which becomes the instance's wrapper, and the children
     * wrappers of both are queued for diffing.
     */
    method UpdateWidgetItem(current: WrapperId, next: WrapperId) returns (items: seq<RenderItem>, error: Option<string>)
      requires Valid() && IsWNodeWrapper(wrappers, current) && IsWNodeWrapper(wrappers, next)
      modifies this`wrappers, this`nextWrapper, this`parentMap, this`siblingMap, this`instances, this`instanceToWrapper
      ensures Valid() && Extends(old(wrappers), wrappers)
      ensures var i := old(wrappers)[current].instance;
        i.None? || i.value !in old(instanceToWrapper) ==>
          error == Some(TypeError) && wrappers == old(wrappers) && instances == old(instances) && instanceToWrapper == old(instanceToWrapper)
      ensures error.None? ==> (
        var cur := old(instanceToWrapper)[old(wrappers)[current].instance.value];
        && wrappers[next].instance.Some?
        && wrappers[next].instance == old(wrappers)[cur].instance
        && instanceToWrapper == old(instanceToWrapper)[wrappers[next].instance.value := next]
        && items == [Diff(ChildrenOf(wrappers, cur), ChildrenOf(wrappers, next))])
    {
      var i := wrappers[current].instance;
      if i.None? || i.value !in instanceToWrapper {
        return [], Some(TypeError);
      }
      var cur := instanceToWrapper[i.value];
      error := UpdateWidget(cur, next);
      if error.Some? {
        return [], error;
      }
      instanceToWrapper := instanceToWrapper[wrappers[next].instance.value := next];
      items := [Diff(ChildrenOf(wrappers, cur), ChildrenOf(wrappers, next))];
    }

    /**
     * `_updateDom({ current, next })`: `next` takes over `current`'s target node; a changed,
     * non-empty text replaces it with a new text node under the parent target node, otherwise
     * `next`'s children are wrapped and the target node's properties are updated in place.
     */
    method UpdateDom(current: WrapperId, next: WrapperId) returns (error: Option<string>)
      requires Valid() && IsVNodeWrapper(wrappers, current) && IsVNodeWrapper(wrappers, next)
      requires wrappers[current].domNode.Some?
      modifies this`wrappers, this`nextWrapper, this`parentMap, this`siblingMap, this`dom, this`nextDom
      ensures Valid() && Extends(old(wrappers), wrappers)
      ensures wrappers[next].domNode.Some?
      ensures forall w :: w in old(wrappers) && w != next ==> wrappers[w] == old(wrappers)[w]
      ensures TextChanged(old(wrappers)[current].node, old(wrappers)[next].node) ==> TextReplaced(old(wrappers), old(parentMap), old(dom), old(nextDom), current, next, wrappers, dom, error)
      ensures !TextChanged(old(wrappers)[current].node, old(wrappers)[next].node) ==> UpdatedInPlace(old(wrappers), old(dom), current, next, wrappers, parentMap, dom, error)
    {
      if TextChanged(wrappers[current].node, wrappers[next].node) {
        error := UpdateText(current, next);
      } else {
        error := UpdateInPlace(current, next);
      }
    }

    /** The text branch of `_updateDom`. */
    method UpdateText(current: WrapperId, next: WrapperId) returns (error: Option<string>)
      requires Valid() && IsVNodeWrapper(wrappers, current) && IsVNodeWrapper(wrappers, next)
      requires wrappers[current].domNode.Some? && TextChanged(wrappers[current].node, wrappers[next].node)
      modifies this`wrappers, this`dom, this`nextDom
      ensures Valid() && Extends(old(wrappers), wrappers)
      ensures wrappers[next].domNode.Some?
      ensures forall w :: w in old(wrappers) && w != next ==> wrappers[w] == old(wrappers)[w]
      ensures TextReplaced(old(wrappers), parentMap, old(dom), old(nextDom), current, next, wrappers, dom, error)
    {
      var p := FindParentNodes(current);
      var d := wrappers[current].domNode.value;
      SetWrapper(next, wrappers[next].(domNode := Some(d)));
      ghost var w1 := wrappers;
      error := ReplaceText(next, p.parentDomNode, d);
      assert w1[next].(domNode := Some(old(nextDom))) == old(wrappers)[next].(domNode := Some(old(nextDom)));
    }

    /** The in-place branch of `_updateDom`. */
    method UpdateInPlace(current: WrapperId, next: WrapperId) returns (error: Option<string>)
      requires Valid() && IsVNodeWrapper(wrappers, current) && IsVNodeWrapper(wrappers, next)
      requires wrappers[current].domNode.Some?
      modifies this`wrappers, this`nextWrapper, this`parentMap, this`siblingMap, this`dom
      ensures Valid() && Extends(old(wrappers), wrappers)
      ensures wrappers[next].domNode.Some?
      ensures forall w :: w in old(wrappers) && w != next ==> wrappers[w] == old(wrappers)[w]
      ensures UpdatedInPlace(old(wrappers), old(dom), current, next, wrappers, parentMap, dom, error)
    {
      var c := wrappers[current];
      var d := c.domNode.value;
      SetWrapper(next, wrappers[next].(domNode := Some(d)));
      var n := wrappers[next].node;
      error := WrapChildren(next, if n.hasChildren then Some(n.vchildren) else None, Some(current));
      if error.Some? {
        return;
      }
      error := SetNodeProperties(d, c.node.properties, n.properties);
    }

    /** Whether `_updateDom` replaces the target node: `next` has a non-empty text that differs from `current`'s. */
    static predicate TextChanged(current: DNode, next: DNode)
      requires current.VNode? && next.VNode?
    {
      next.text.Some? && next.text.value != "" && next.text != current.text
    }

    /**
     * After the text branch: the replacement succeeds exactly when `ReplaceChild` does on the
     * tree with a new text node, which then is `next`'s target node.
     */
    ghost predicate TextReplaced(w0: Wrappers, parent0: map<WrapperId, WrapperId>, dom0: TargetTree.Dom, t: DomId,
                                 current: WrapperId, next: WrapperId, w1: Wrappers, dom1: TargetTree.Dom, error: Option<string>)
      requires ParentsBelow(w0, parent0) && IsVNodeWrapper(w0, current) && IsVNodeWrapper(w0, next) && w0[current].domNode.Some?
      requires t !in dom0
    {
      var pd := ParentNodesOf(w0, parent0, current).parentDomNode;
      var replaced := if pd.Some? then TargetTree.ReplaceChild(TargetTree.Create(dom0, t, "", w0[next].node.text), pd.value, t, w0[current].domNode.value)
                      else Err(TypeError);
      && (error.None? <==> replaced.Ok?)
      && (error.None? ==> w1.Keys == w0.Keys && next in w1 && w1[next] == w0[next].(domNode := Some(t)) && dom1 == replaced.value)
    }

    /**
     * After the in-place branch: `next` holds `current`'s target node and wraps its children,
     * and the properties are written when that node is in the tree; the update succeeds when,
     * moreover, no null or undefined `styles` value makes `setProperties` throw.  Children that
     * are not all objects throw before any of that: `next` then keeps its children wrappers and
     * the tree is untouched.
     */
    ghost predicate UpdatedInPlace(w0: Wrappers, dom0: TargetTree.Dom, current: WrapperId, next: WrapperId,
                                   w1: Wrappers, parent1: map<WrapperId, WrapperId>, dom1: TargetTree.Dom, error: Option<string>)
      requires IsVNodeWrapper(w0, current) && IsVNodeWrapper(w0, next) && w0[current].domNode.Some? && next in w1
    {
      var c := w0[current];
      var n := w0[next];
      var d := c.domNode.value;
      && w1[next].domNode == Some(d)
      && (error.None? <==> !ChildrenThrow(n.node) && d in dom0 && !DomProperties.SetPropertiesThrows(n.node.properties))
      && (n.node.hasChildren && !ChildrenThrow(n.node) ==> WrapsRendered(w1, parent1, next, n.node.vchildren))
      && (!n.node.hasChildren || ChildrenThrow(n.node) ==> w1.Keys == w0.Keys && w1[next] == n.(domNode := Some(d)))
      && (!ChildrenThrow(n.node) && d in dom0 ==> dom1 == dom0[d := dom0[d].(element :=
            DomProperties.SetPropertiesSpec(dom0[d].element, c.node.properties, n.node.properties, invoke))])
      && (ChildrenThrow(n.node) || d !in dom0 ==> dom1 == dom0)
    }

    /**
     * `parentDomNode.replaceChild(newDomNode, d)` with a new text node for `next`'s text,
     * which becomes `next`'s target node.
     */
    method ReplaceText(next: WrapperId, parentDomNode: Option<DomId>, d: DomId) returns (error: Option<string>)
      requires Valid() && IsVNodeWrapper(wrappers, next)
      modifies this`wrappers, this`dom, this`nextDom
      ensures Valid() && Extends(old(wrappers), wrappers)
      ensures forall w :: w in old(wrappers) && w != next ==> wrappers[w] == old(wrappers)[w]
      ensures var t := old(nextDom);
        var replaced := if parentDomNode.Some?
          then TargetTree.ReplaceChild(TargetTree.Create(old(dom), t, "", old(wrappers)[next].node.text), parentDomNode.value, t, d)
          else Err(TypeError);
        && (error.None? <==> replaced.Ok?)
        && (error.None? ==> wrappers.Keys == old(wrappers).Keys && wrappers[next] == old(wrappers)[next].(domNode := Some(t)))
        && (error.None? ==> dom == replaced.value)
        && (error.Some? ==> wrappers == old(wrappers))
    {
      if parentDomNode.None? {
        return Some(TypeError);
      }
      var t := NewDomNode("", wrappers[next].node.text);
      var r := TargetTree.ReplaceChild(dom, parentDomNode.value, t, d);
      if r.Err? {
        return Some(r.message);
      }
      dom := r.value;
      SetWrapper(next, wrappers[next].(domNode := Some(t)));
      error := None;
    }

    /**
     * `setProperties(d, current, next)` on the target node `d`: the element is written up to
     * the point where a null or undefined `styles` value throws.
     */
    method SetNodeProperties(d: DomId, current: Props, next: Props) returns (error: Option<string>)
      requires Valid()
      modifies this`dom
      ensures Valid()
      ensures error.None? <==> d in old(dom) && !DomProperties.SetPropertiesThrows(next)
      ensures error.Some? ==> error == Some(TypeError)
      ensures d in old(dom) ==>
        dom == old(dom)[d := old(dom)[d].(element := DomProperties.SetPropertiesSpec(old(dom)[d].element, current, next, invoke))]
      ensures d !in old(dom) ==> dom == old(dom)
    {
      if d !in dom {
        return Some(TypeError);
      }
      dom := dom[d := dom[d].(element := DomProperties.SetPropertiesSpec(dom[d].element, current, next, invoke))];
      error := if DomProperties.SetPropertiesThrows(next) then Some(TypeError) else None;
    }

    /**
     * The branch of `_processOne` for two element wrappers: the wrapper recorded for
     * `current`'s target node is updated into `next`, which becomes the wrapper recorded for its
     * target node, and the children wrappers of both are queued for diffing.  Without children
     * wrappers, `next` needs a parent widget wrapper, and one with instance data when its node
     * has a key.
     */
    method UpdateElement(current: WrapperId, next: WrapperId) returns (items: seq<RenderItem>, error: Option<string>)
      requires Valid() && IsVNodeWrapper(wrappers, current) && IsVNodeWrapper(wrappers, next)
      modifies this`wrappers, this`nextWrapper, this`parentMap, this`siblingMap, this`dom, this`nextDom, this`domNodeToWrapper
      ensures Valid() && Extends(old(wrappers), wrappers)
      ensures var d := old(wrappers)[current].domNode;
        d.None? || d.value !in old(domNodeToWrapper) || old(wrappers)[old(domNodeToWrapper)[d.value]].domNode.None? ==>
          error == Some(TypeError) && wrappers == old(wrappers) && dom == old(dom) && domNodeToWrapper == old(domNodeToWrapper)
      ensures error.None? ==> (
        var cur := old(domNodeToWrapper)[old(wrappers)[current].domNode.value];
        && wrappers[next].domNode.Some? && wrappers[cur].domNode.Some?
        && domNodeToWrapper == (old(domNodeToWrapper) - {wrappers[cur].domNode.value})[wrappers[next].domNode.value := next]
        && (wrappers[next].childrenWrappers.Some? ==> items == [Diff(ChildrenOf(wrappers, cur), wrappers[next].childrenWrappers.value)])
        && (wrappers[next].childrenWrappers.None? ==> items == []))
      ensures error.None? && wrappers[next].childrenWrappers.None? ==> (
        var pw := ParentNodesOf(wrappers, parentMap, next).parentWNodeWrapper;
        && pw.Some? && pw.value in wrappers
        && (HasKey(wrappers[next].node) ==> wrappers[pw.value].instance.Some? && wrappers[pw.value].instance.value in instances))
    {
      var d0 := wrappers[current].domNode;
      if d0.None? || d0.value !in domNodeToWrapper {
        return [], Some(TypeError);
      }
      var cur := domNodeToWrapper[d0.value];
      if wrappers[cur].domNode.None? {
        return [], Some(TypeError);
      }
      error := UpdateRecorded(cur, next);
      if error.Some? {
        return [], error;
      }
      if wrappers[next].childrenWrappers.Some? {
        return [Diff(ChildrenOf(wrappers, cur), wrappers[next].childrenWrappers.value)], None;
      }
      items := [];
      error := CheckKeyedParent(next);
    }

    /** `_updateDom`, then the target-node table moves from `cur`'s target node to `next`'s. */
    method UpdateRecorded(cur: WrapperId, next: WrapperId) returns (error: Option<string>)
      requires Valid() && IsVNodeWrapper(wrappers, cur) && IsVNodeWrapper(wrappers, next) && wrappers[cur].domNode.Some?
      modifies this`wrappers, this`nextWrapper, this`parentMap, this`siblingMap, this`dom, this`nextDom, this`domNodeToWrapper
      ensures Valid() && Extends(old(wrappers), wrappers)
      ensures wrappers[next].domNode.Some? && wrappers[cur].domNode.Some?
      ensures error.None? ==> domNodeToWrapper == (old(domNodeToWrapper) - {wrappers[cur].domNode.value})[wrappers[next].domNode.value := next]
      ensures error.Some? ==> domNodeToWrapper == old(domNodeToWrapper)
    {
      error := UpdateDom(cur, next);
      if error.Some? {
        return;
      }
      ForgetDomNode(wrappers[cur].domNode.value);
      RecordDomNode(wrappers[next].domNode.value, next);
    }

    /**
     * The check `_processOne` makes on an updated element wrapper without children wrappers:
     * it needs a parent widget wrapper, and when keyed, that wrapper's instance data.
     */
    method CheckKeyedParent(next: WrapperId) returns (error: Option<string>)
      requires Valid() && next in wrappers
      ensures error.None? <==> (
        var pw := ParentNodesOf(wrappers, parentMap, next).parentWNodeWrapper;
        && pw.Some? && pw.value in wrappers
        && (HasKey(wrappers[next].node) ==> wrappers[pw.value].instance.Some? && wrappers[pw.value].instance.value in instances))
      ensures error.Some? ==> error == Some(TypeError)
    {
      var p := FindParentNodes(next);
      NearestWidgetAncestor(wrappers, parentMap, next);
      if p.parentWNodeWrapper.None? {
        return Some(TypeError);
      }
      var instance := wrappers[p.parentWNodeWrapper.value].instance;
      if HasKey(wrappers[next].node) && (instance.None? || instance.value !in instances) {
        return Some(TypeError);
      }
      error := None;
    }

    /** `_domNodeToWrapperMap.delete(d)` */
    method ForgetDomNode(d: DomId)
      requires Valid()
      modifies this`domNodeToWrapper
      ensures Valid() && domNodeToWrapper == old(domNodeToWrapper) - {d}
    {
      domNodeToWrapper := domNodeToWrapper - {d};
    }

    // ---------------------------------------------------------------- removing

    /**
     * `_removeDom` with its branch of `_processOne`: the element wrapper leaves the sibling,
     * parent and target-node tables, and a `delete` instruction is returned exactly when its
     * target node is attached.
     */
    method RemoveElement(current: WrapperId) returns (items: seq<RenderItem>, error: Option<string>)
      requires Valid() && IsVNodeWrapper(wrappers, current)
      modifies this`siblingMap, this`parentMap, this`domNodeToWrapper
      ensures Valid()
      ensures siblingMap == old(siblingMap) - {current} && parentMap == old(parentMap) - {current}
      ensures var d := wrappers[current].domNode;
        && domNodeToWrapper == (if d.Some? then old(domNodeToWrapper) - {d.value} else old(domNodeToWrapper))
        && (error.Some? <==> d.None?)
        && (error.None? ==> items == if Attached(wrappers, dom, current) then [Apply(Delete(current))] else [])
    {
      siblingMap := siblingMap - {current};
      parentMap := parentMap - {current};
      var d := wrappers[current].domNode;
      if d.None? {
        return [], Some(TypeError);
      }
      domNodeToWrapper := domNodeToWrapper - {d.value};
      items := if Attached(wrappers, dom, current) then [Apply(Delete(current))] else [];
      error := None;
    }

    /**
     * `_removeWidget` with its branch of `_processOne`: the wrapper recorded for the instance
     * (the wrapper itself when it has none) leaves the sibling, parent and instance tables, and
     * its children wrappers are queued for removal.
     */
    method RemoveWidget(current: WrapperId) returns (items: seq<RenderItem>, error: Option<string>)
      requires Valid() && IsWNodeWrapper(wrappers, current)
      modifies this`siblingMap, this`parentMap, this`instanceToWrapper
      ensures Valid()
      ensures var i := wrappers[current].instance;
        error.Some? <==> i.Some? && i.value !in old(instanceToWrapper)
      ensures error.Some? ==>
        siblingMap == old(siblingMap) && parentMap == old(parentMap) && instanceToWrapper == old(instanceToWrapper)
      ensures error.None? ==> (
        var i := wrappers[current].instance;
        var target := if i.Some? then old(instanceToWrapper)[i.value] else current;
        var ti := wrappers[target].instance;
        && siblingMap == old(siblingMap) - {target} && parentMap == old(parentMap) - {target}
        && instanceToWrapper == (if ti.Some? then old(instanceToWrapper) - {ti.value} else old(instanceToWrapper))
        && items == [Diff(ChildrenOf(wrappers, target), [])])
    {
      var i := wrappers[current].instance;
      if i.Some? && i.value !in instanceToWrapper {
        return [], Some(TypeError);
      }
      var target := if i.Some? then instanceToWrapper[i.value] else current;
      siblingMap := siblingMap - {target};
      parentMap := parentMap - {target};
      var ti := wrappers[target].instance;
      if ti.Some? {
        instanceToWrapper := instanceToWrapper - {ti.value};
      }
      items := [Diff(ChildrenOf(wrappers, target), [])];
      error := None;
    }

    // ---------------------------------------------------------------- _processOne and _process

    /**
     * `_processOne({ current, next })`: creates, updates or removes as the instruction says and
     * returns the render-queue entries that follow from it.  An id the tables do not hold
     * stands for undefined; an instruction naming the same wrapper twice, or an update between
     * an element and a widget wrapper, does nothing.
     */
    method ProcessOne(current: Option<WrapperId>, next: Option<WrapperId>) returns (items: seq<RenderItem>, error: Option<string>)
      requires Valid()
      modifies this`wrappers, this`nextWrapper, this`parentMap, this`siblingMap, this`dom, this`nextDom,
               this`domNodeToWrapper, this`instanceToWrapper, this`instances, this`nextInstance
      ensures Valid() && Extends(old(wrappers), wrappers)
      ensures current == next ==> items == [] && error.None? && unchanged(this)
      ensures current.Some? && current.value in old(wrappers) && next.Some? && next.value in old(wrappers)
        && IsVNode(old(wrappers)[current.value].node) != IsVNode(old(wrappers)[next.value].node)
        && IsWNode(old(wrappers)[current.value].node) != IsWNode(old(wrappers)[next.value].node)
        ==> items == [] && error.None? && unchanged(this)
    {
      items, error := [], None;
      if current == next {
        return;
      }
      var c := if current.Some? && current.value in wrappers then current else None;
      var n := if next.Some? && next.value in wrappers then next else None;
      if c.None? && n.Some? {
        if IsVNodeWrapper(wrappers, n.value) {
          items, error := CreateElement(n.value);
        } else {
          error := CreateWidget(n.value);
          if error.None? {
            if wrappers[n.value].instance.Some? {
              instanceToWrapper := instanceToWrapper[wrappers[n.value].instance.value := n.value];
            }
            items := [Diff([], ChildrenOf(wrappers, n.value))];
          }
        }
      } else if c.Some? && n.Some? {
        if IsVNodeWrapper(wrappers, c.value) && IsVNodeWrapper(wrappers, n.value) {
          items, error := UpdateElement(c.value, n.value);
        } else if IsWNodeWrapper(wrappers, c.value) && IsWNodeWrapper(wrappers, n.value) {
          items, error := UpdateWidgetItem(c.value, n.value);
        }
      } else if c.Some? && n.None? {
        if IsVNodeWrapper(wrappers, c.value) {
          items, error := RemoveElement(c.value);
        } else if IsWNodeWrapper(wrappers, c.value) {
          items, error := RemoveWidget(c.value);
        }
      }
    }

    /**
     * The marking loop of `_process` on the table `ws`: every wrapper `next` names is marked
     * with `flag`; an id that names no wrapper stops the loop with an error.
     */
    static method MarkEach(ws: Wrappers, next: seq<WrapperId>, flag: bool) returns (r: Wrappers, error: Option<string>)
      ensures r.Keys == ws.Keys
      ensures forall w :: w in ws ==> r[w].node == ws[w].node && r[w].depth == ws[w].depth
      ensures error.Some? <==> exists j :: 0 <= j < |next| && next[j] !in ws
      ensures error.None? ==> forall w :: w in ws ==> r[w] == if w in next then ws[w].(hasPreviousSiblings := Some(flag)) else ws[w]
    {
      r := ws;
      var j := 0;
      while j < |next|
        invariant 0 <= j <= |next|
        invariant r.Keys == ws.Keys
        invariant forall k :: 0 <= k < j ==> next[k] in ws
        invariant forall w :: w in ws ==> r[w] == if w in next[..j] then ws[w].(hasPreviousSiblings := Some(flag)) else ws[w]
      {
        if next[j] !in r {
          return r, Some(TypeError);
        }
        r := r[next[j] := r[next[j]].(hasPreviousSiblings := Some(flag))];
        assert next[..j + 1] == next[..j] + [next[j]];
        j := j + 1;
      }
      assert next[..j] == next;
      error := None;
    }

    /** `_process(current, next)` up to `_processOne`: the new children wrappers are marked, then paired with the old ones. */
    method PairChildren(current: seq<WrapperId>, next: seq<WrapperId>) returns (instructions: seq<ChildMatching.Instruction>, error: Option<string>)
      requires Valid()
      modifies this`wrappers
      ensures Valid() && Extends(old(wrappers), wrappers) && wrappers.Keys == old(wrappers).Keys
      ensures error.Some? <==> exists j :: 0 <= j < |next| && next[j] !in old(wrappers)
      ensures error.None? ==> forall w :: w in old(wrappers) ==>
        wrappers[w] == if w in next then old(wrappers)[w].(hasPreviousSiblings := Some(|current| > 1)) else old(wrappers)[w]
      ensures error.None? ==> instructions == ChildMatching.Pairing(NodesOf(old(wrappers), current), NodesOf(old(wrappers), next))
      ensures error.None? ==> forall k :: 0 <= k < |instructions| ==> ChildMatching.InRange(instructions[k], |current|, |next|)
    {
      var ws, e := MarkEach(wrappers, next, |current| > 1);
      wrappers := ws;
      if e.Some? {
        return [], e;
      }
      assert NodesOf(wrappers, current) == NodesOf(old(wrappers), current);
      assert NodesOf(wrappers, next) == NodesOf(old(wrappers), next);
      instructions := ChildMatching.PairChildren(NodesOf(wrappers, current), NodesOf(wrappers, next));
      ChildMatching.PairingInRange(NodesOf(wrappers, current), NodesOf(wrappers, next));
      error := None;
    }

    /**
     * `_process(current, next)`: the new children wrappers are marked and paired with the old
     * ones, every instruction goes through `_processOne` in order, and the entries they return
     * are pushed, in order, on top of the render queue.
     */
    method Process(current: seq<WrapperId>, next: seq<WrapperId>) returns (pushed: seq<RenderItem>, error: Option<string>)
      requires Valid()
      modifies this`wrappers, this`nextWrapper, this`parentMap, this`siblingMap, this`dom, this`nextDom,
               this`domNodeToWrapper, this`instanceToWrapper, this`instances, this`nextInstance, this`renderQueue
      ensures Valid() && Extends(old(wrappers), wrappers)
      ensures error.None? ==> forall j :: 0 <= j < |next| ==> next[j] in old(wrappers)
      ensures error.None? ==> renderQueue == old(renderQueue) + pushed
      ensures error.Some? ==> renderQueue == old(renderQueue)
    {
      var instructions, e := PairChildren(current, next);
      if e.Some? {
        return [], e;
      }
      pushed := [];
      var k := 0;
      while k < |instructions|
        invariant 0 <= k <= |instructions|
        invariant Valid() && Extends(old(wrappers), wrappers) && renderQueue == old(renderQueue)
      {
        var ins := instructions[k];
        var c := if ins.current.Some? then Some(current[ins.current.value]) else None;
        var n := if ins.next.Some? then Some(next[ins.next.value]) else None;
        var items;
        items, e := ProcessOne(c, n);
        if e.Some? {
          return [], e;
        }
        pushed := pushed + items;
        k := k + 1;
      }
      renderQueue := renderQueue + pushed;
      error := None;
    }

    // ---------------------------------------------------------------- the queues

    /**
     * One instruction of `_runDomInstructionQueue`.  `create` sets the new target node's
     * properties and attaches it under the parent target node, before the node to insert
     * before when there is one; the parent widget wrapper's instance data takes keyed nodes.
     * `delete` detaches the target node from its parent.
     */
    method ApplyInstruction(instruction: DomInstruction) returns (error: Option<string>)
      requires Valid()
      modifies this`dom
      ensures Valid() && dom.Keys == old(dom).Keys
      ensures instruction.Create? && error.None? ==> (
        var next := instruction.next;
        && next in wrappers && wrappers[next].domNode.Some? && instruction.parentDomNode.Some?
        && wrappers[next].domNode.value in dom
        && (instruction.insertBefore != wrappers[next].domNode ==> dom[wrappers[next].domNode.value].parent == instruction.parentDomNode)
        && instruction.parentDomNode.value in old(dom)
        && (instruction.insertBefore.Some? ==> instruction.insertBefore.value in old(dom)[instruction.parentDomNode.value].children)
        && instruction.parentWNodeWrapper.Some? && instruction.parentWNodeWrapper.value in wrappers)
      ensures instruction.Delete? && error.None? ==> (
        var current := instruction.current;
        && current in wrappers && wrappers[current].domNode.Some? && wrappers[current].domNode.value in dom
        && old(dom)[wrappers[current].domNode.value].parent.Some?
        && dom[wrappers[current].domNode.value].parent.None?)
    {
      match instruction
      case Create(next, parentDomNode, parentWNodeWrapper, insertBefore) =>
        if next !in wrappers || wrappers[next].domNode.None? {
          return Some(TypeError);
        }
        var d := wrappers[next].domNode.value;
        var node := wrappers[next].node;
        error := SetNodeProperties(d, EmptyProps, PropertiesOf(node));
        if error.Some? {
          return;
        }
        if parentDomNode.None? {
          return Some(TypeError);
        }
        var r := if insertBefore.Some? then TargetTree.InsertBefore(dom, parentDomNode.value, d, insertBefore.value)
                 else TargetTree.AppendChild(dom, parentDomNode.value, d);
        if r.Err? {
          return Some(r.message);
        }
        dom := r.value;
        if parentWNodeWrapper.None? || parentWNodeWrapper.value !in wrappers {
          return Some(TypeError);
        }
        var instance := wrappers[parentWNodeWrapper.value].instance;
        if HasKey(node) && (instance.None? || instance.value !in instances) {
          return Some(TypeError);
        }
        error := None;
      case Delete(current) =>
        if current !in wrappers || wrappers[current].domNode.None? {
          return Some(TypeError);
        }
        var d := wrappers[current].domNode.value;
        if d !in dom || dom[d].parent.None? {
          return Some(TypeError);
        }
        var r := TargetTree.RemoveChild(dom, dom[d].parent.value, d);
        if r.Err? {
          return Some(r.message);
        }
        dom := r.value;
        error := None;
    }

    /** `_runDomInstructionQueue`: applies the queued instructions, the last queued first, until none is left. */
    method RunDomInstructionQueue() returns (error: Option<string>)
      requires Valid()
      modifies this`dom, this`domInstructionQueue
      ensures Valid() && dom.Keys == old(dom).Keys
      ensures error.None? ==> domInstructionQueue == []
      ensures |domInstructionQueue| <= |old(domInstructionQueue)|
      ensures domInstructionQueue == old(domInstructionQueue)[..|domInstructionQueue|]
    {
      while |domInstructionQueue| > 0
        invariant Valid() && dom.Keys == old(dom).Keys
        invariant |domInstructionQueue| <= |old(domInstructionQueue)|
        invariant domInstructionQueue == old(domInstructionQueue)[..|domInstructionQueue|]
        decreases |domInstructionQueue|
      {
        var instruction := domInstructionQueue[|domInstructionQueue| - 1];
        domInstructionQueue := domInstructionQueue[..|domInstructionQueue| - 1];
        error := ApplyInstruction(instruction);
        if error.Some? {
          return;
        }
      }
      error := None;
    }

    /**
     * `_runRenderQueue`: takes entries from the top of the render queue until it is empty,
     * passing instructions on to the target-tree queue and diffing children lists, then runs
     * the target-tree queue.  More than `fuel` entries is taken as a drain that does not end.
     */
    method RunRenderQueue() returns (error: Option<string>)
      requires Valid()
      modifies this`wrappers, this`nextWrapper, this`parentMap, this`siblingMap, this`dom, this`nextDom,
               this`domNodeToWrapper, this`instanceToWrapper, this`instances, this`nextInstance,
               this`renderQueue, this`domInstructionQueue
      ensures Valid() && Extends(old(wrappers), wrappers)
      ensures error.None? ==> renderQueue == [] && domInstructionQueue == []
    {
      var steps: nat := fuel;
      while |renderQueue| > 0
        invariant Valid() && Extends(old(wrappers), wrappers)
        decreases steps
      {
        if steps == 0 {
          return Some("the render queue does not drain");
        }
        var item := renderQueue[|renderQueue| - 1];
        renderQueue := renderQueue[..|renderQueue| - 1];
        match item {
          case Apply(instruction) =>
            domInstructionQueue := domInstructionQueue + [instruction];
          case Diff(current, next) =>
            var pushed, e := Process(current, next);
            if e.Some? {
              return e;
            }
        }
        steps := steps - 1;
      }
      error := RunDomInstructionQueue();
    }

    // ---------------------------------------------------------------- invalidation and scheduling

    /**
     * `_queueInvalidation(instance)`: a fresh widget wrapper for the instance's current
     * constructor, properties and children, at the depth of the wrapper the instance last
     * rendered into and under the same parent, queued for update after that wrapper.
     */
    method QueueInvalidation(instance: InstanceId)
      requires Valid() && instance in instanceToWrapper && instance in instances
      modifies this`wrappers, this`nextWrapper, this`parentMap, this`invalidationQueue
      ensures Valid() && Extends(old(wrappers), wrappers)
      ensures var current := old(instanceToWrapper)[instance];
        var d := old(instances)[instance];
        var next := old(nextWrapper);
        && nextWrapper == next + 1
        && wrappers == old(wrappers)[next := Wrapper(WNode(next, Ctor(d.ctor), d.properties, d.children),
                                                     old(wrappers)[current].depth, None, None, false, None, false, Some(instance))]
        && parentMap == (if current in old(parentMap) then old(parentMap)[next := old(parentMap)[current]] else old(parentMap))
        && invalidationQueue == old(invalidationQueue) + [InvalidationItem(current, next)]
    {
      var current := instanceToWrapper[instance];
      var d := instances[instance];
      var parent := if current in parentMap then Some(parentMap[current]) else None;
      var next := AddWrapper(Wrapper(WNode(nextWrapper, Ctor(d.ctor), d.properties, d.children),
                                     wrappers[current].depth, None, None, false, None, false, Some(instance)), parent);
      invalidationQueue := invalidationQueue + [InvalidationItem(current, next)];
    }

    /**
     * One entry of `_runInvalidationQueue` up to the drain: the new wrapper takes the old one's
     * sibling, the widget is updated, the two children lists are queued for diffing and the
     * instance is recorded as rendered into the new wrapper.
     */
    method UpdateInvalidated(item: InvalidationItem) returns (error: Option<string>)
      requires Valid() && item.current in wrappers && IsWNodeWrapper(wrappers, item.next)
      modifies this`wrappers, this`nextWrapper, this`parentMap, this`siblingMap, this`instances, this`instanceToWrapper, this`renderQueue
      ensures Valid() && Extends(old(wrappers), wrappers)
      ensures var i := old(wrappers)[item.current].instance;
        error.Some? <==> i.None? || i.value !in old(instances) || UpdateThrows(old(instances)[i.value], old(wrappers)[item.next].node)
      ensures error.None? ==> (
        var i := old(wrappers)[item.current].instance.value;
        && wrappers[item.next].instance == Some(i)
        && instanceToWrapper == old(instanceToWrapper)[i := item.next]
        && renderQueue == old(renderQueue) + [Diff(ChildrenOf(wrappers, item.current), ChildrenOf(wrappers, item.next))])
      ensures error.Some? ==> renderQueue == old(renderQueue)
    {
      if item.current in siblingMap {
        siblingMap := siblingMap[item.next := siblingMap[item.current]];
      }
      error := UpdateWidget(item.current, item.next);
      if error.Some? {
        return;
      }
      renderQueue := renderQueue + [Diff(ChildrenOf(wrappers, item.current), ChildrenOf(wrappers, item.next))];
      instanceToWrapper := instanceToWrapper[wrappers[item.next].instance.value := item.next];
    }

    /** The body of `_runInvalidationQueue`'s loop: the top entry is taken, updated and drained. */
    method RunNextInvalidation() returns (error: Option<string>)
      requires Valid() && |invalidationQueue| > 0
      modifies this`wrappers, this`nextWrapper, this`parentMap, this`siblingMap, this`dom, this`nextDom,
               this`domNodeToWrapper, this`instanceToWrapper, this`instances, this`nextInstance,
               this`renderQueue, this`domInstructionQueue, this`invalidationQueue
      ensures Valid() && Extends(old(wrappers), wrappers)
      ensures invalidationQueue == old(invalidationQueue)[..|old(invalidationQueue)| - 1]
      ensures error.None? ==> renderQueue == [] && domInstructionQueue == []
    {
      var item := invalidationQueue[|invalidationQueue| - 1];
      invalidationQueue := invalidationQueue[..|invalidationQueue| - 1];
      error := UpdateInvalidated(item);
      if error.Some? {
        return;
      }
      error := RunRenderQueue();
    }

    /**
     * `_runInvalidationQueue`: clears the scheduled frame, then takes entries from the top of
     * the invalidation queue until it is empty: the new wrapper takes the old one's sibling,
     * the widget is updated, the two children lists are diffed, the instance is recorded as
     * rendered into the new wrapper and the render queue is drained.
     */
    method RunInvalidationQueue() returns (error: Option<string>)
      requires Valid()
      modifies this`wrappers, this`nextWrapper, this`parentMap, this`siblingMap, this`dom, this`nextDom,
               this`domNodeToWrapper, this`instanceToWrapper, this`instances, this`nextInstance,
               this`renderQueue, this`domInstructionQueue, this`invalidationQueue, this`renderScheduled
      ensures Valid() && Extends(old(wrappers), wrappers) && !renderScheduled
      ensures |invalidationQueue| <= |old(invalidationQueue)|
      ensures invalidationQueue == old(invalidationQueue)[..|invalidationQueue|]
      ensures error.None? ==> invalidationQueue == []
      ensures error.None? && old(invalidationQueue) != [] ==> renderQueue == [] && domInstructionQueue == []
      ensures old(invalidationQueue) == [] ==> error.None? && unchanged(this`wrappers, this`renderQueue, this`domInstructionQueue, this`dom)
    {
      renderScheduled := false;
      while |invalidationQueue| > 0
        invariant Valid() && Extends(old(wrappers), wrappers) && !renderScheduled
        invariant |invalidationQueue| <= |old(invalidationQueue)|
        invariant invalidationQueue == old(invalidationQueue)[..|invalidationQueue|]
        invariant |invalidationQueue| < |old(invalidationQueue)| ==> renderQueue == [] && domInstructionQueue == []
        invariant |invalidationQueue| == |old(invalidationQueue)| ==> unchanged(this`wrappers, this`renderQueue, this`domInstructionQueue, this`dom)
        decreases |invalidationQueue|
      {
        error := RunNextInvalidation();
        if error.Some? {
          return;
        }
      }
      error := None;
    }

    /**
     * `_schedule()`: in sync mode the invalidation queue runs at once; otherwise one
     * animation frame is requested, unless one already is, whose callback runs it.
     */
    method Schedule() returns (error: Option<string>)
      requires Valid()
      modifies this`wrappers, this`nextWrapper, this`parentMap, this`siblingMap, this`dom, this`nextDom,
               this`domNodeToWrapper, this`instanceToWrapper, this`instances, this`nextInstance,
               this`renderQueue, this`domInstructionQueue, this`invalidationQueue, this`renderScheduled, this`frameRequests
      ensures Valid() && Extends(old(wrappers), wrappers)
      ensures sync ==> !renderScheduled && frameRequests == old(frameRequests)
      ensures sync && error.None? ==> invalidationQueue == []
      ensures !sync ==> (
        && error.None? && renderScheduled
        && frameRequests == (if old(renderScheduled) then old(frameRequests) else old(frameRequests) + 1)
        && unchanged(this`wrappers, this`invalidationQueue, this`renderQueue, this`dom, this`instances))
    {
      error := None;
      if sync {
        error := RunInvalidationQueue();
      } else if !renderScheduled {
        renderScheduled := true;
        frameRequests := frameRequests + 1;
      }
    }

    /**
     * The `invalidate` callback `_createWidget` gives each instance: the instance is marked
     * dirty and, unless it is rendering or has not yet rendered into a wrapper, queued for
     * update and scheduled.
     */
    method Invalidate(instance: InstanceId) returns (error: Option<string>)
      requires Valid() && instance in instances
      modifies this`wrappers, this`nextWrapper, this`parentMap, this`siblingMap, this`dom, this`nextDom,
               this`domNodeToWrapper, this`instanceToWrapper, this`instances, this`nextInstance,
               this`renderQueue, this`domInstructionQueue, this`invalidationQueue, this`renderScheduled, this`frameRequests
      ensures Valid() && Extends(old(wrappers), wrappers)
      ensures old(instances)[instance].rendering || instance !in old(instanceToWrapper) ==>
        && error.None? && instances == old(instances)[instance := old(instances)[instance].(dirty := true)]
        && unchanged(this`wrappers, this`invalidationQueue, this`renderScheduled, this`frameRequests)
      ensures !old(instances)[instance].rendering && instance in old(instanceToWrapper) && !sync ==>
        && error.None? && renderScheduled
        && instances == old(instances)[instance := old(instances)[instance].(dirty := true)]
        && invalidationQueue == old(invalidationQueue) + [InvalidationItem(old(instanceToWrapper)[instance], old(nextWrapper))]
        && old(nextWrapper) in wrappers && wrappers[old(nextWrapper)].instance == Some(instance)
      ensures !old(instances)[instance].rendering && instance in old(instanceToWrapper) && sync && error.None? ==>
        invalidationQueue == [] && !renderScheduled
    {
      instances := instances[instance := instances[instance].(dirty := true)];
      error := None;
      if !instances[instance].rendering && instance in instanceToWrapper {
        QueueInvalidation(instance);
        error := Schedule();
      }
    }

    // ---------------------------------------------------------------- entry points

    /** `set sync(sync)` */
    method SetSync(sync: bool)
      modifies this`sync
      ensures this.sync == sync
    {
      this.sync := sync;
    }

    /** `set registry(registry)`: the registry labels resolve in when no parent widget does. */
    method SetRegistry(registry: map<string, nat>)
      modifies this`registry
      ensures this.registry == Some(registry)
    {
      this.registry := Some(registry);
    }

    /** A fresh wrapper holding `x`, recorded below `parent` when there is one. */
    method AddWrapper(x: Wrapper, parent: Option<WrapperId>) returns (id: WrapperId)
      requires Valid()
      requires parent.Some? ==> parent.value in wrappers && wrappers[parent.value].depth < x.depth
      modifies this`wrappers, this`nextWrapper, this`parentMap
      ensures Valid() && id == old(nextWrapper) && nextWrapper == id + 1
      ensures wrappers == old(wrappers)[id := x]
      ensures parentMap == if parent.Some? then old(parentMap)[id := parent.value] else old(parentMap)
    {
      id := nextWrapper;
      wrappers := wrappers[id := x];
      nextWrapper := id + 1;
      if parent.Some? {
        parentMap := parentMap[id := parent.value];
      }
    }

    /**
     * The first half of `append`: a fake element wrapper for the root target node and, one
     * level below it, the wrapper of `renderResult`, queued for creation.
     */
    method QueueRoot(renderResult: DNode) returns (fake: WrapperId, root: WrapperId)
      requires Valid()
      modifies this`wrappers, this`nextWrapper, this`parentMap, this`renderQueue
      ensures Valid() && Extends(old(wrappers), wrappers)
      ensures fake == old(nextWrapper) && root == fake + 1 && nextWrapper == root + 1
      ensures wrappers.Keys == old(wrappers).Keys + {fake, root}
      ensures forall w :: w in old(wrappers) ==> wrappers[w] == old(wrappers)[w]
      ensures wrappers[fake] == Wrapper(V(fake, "fake", Omitted, None), 0, Some(rootNode), None, false, None, false, None)
      ensures wrappers[root] == Wrapper(renderResult, 1, None, None, false, None, false, None)
      ensures parentMap == old(parentMap)[root := fake]
      ensures renderQueue == old(renderQueue) + [Diff([], [root])]
    {
      var fakeNode := V(nextWrapper, "fake", Omitted, None);
      fake := AddWrapper(Wrapper(fakeNode, 0, Some(rootNode), None, false, None, false, None), None);
      root := AddWrapper(Wrapper(renderResult, 1, None, None, false, None, false, None), Some(fake));
      renderQueue := renderQueue + [Diff([], [root])];
    }

    /**
     * `append(node)`: `renderResult` is what the renderer function returns.  It is wrapped one
     * level below a fake element wrapper that stands for the root target node (`node` when
     * given), its creation is queued and the render queue is drained.  A render result that
     * is not an object cannot key the parent WeakMap: a TypeError, with nothing queued.
     */
    method Append(node: Option<DomId>, renderResult: DNode) returns (error: Option<string>)
      requires Valid()
      modifies this`wrappers, this`nextWrapper, this`parentMap, this`siblingMap, this`dom, this`nextDom,
               this`domNodeToWrapper, this`instanceToWrapper, this`instances, this`nextInstance,
               this`renderQueue, this`domInstructionQueue, this`rootNode
      ensures Valid() && Extends(old(wrappers), wrappers)
      ensures rootNode == if node.Some? then node.value else old(rootNode)
      ensures !IsNodeObject(renderResult) ==>
        error == Some(TypeError) && unchanged(this`wrappers, this`nextWrapper, this`parentMap, this`renderQueue, this`dom)
      ensures IsNodeObject(renderResult) ==>
        var fake := old(nextWrapper);
        var root := fake + 1;
        && fake in wrappers && wrappers[fake].node == V(fake, "fake", Omitted, None) && wrappers[fake].depth == 0
        && root in wrappers && wrappers[root].node == renderResult && wrappers[root].depth == 1
      ensures error.None? ==> renderQueue == [] && domInstructionQueue == []
    {
      if node.Some? {
        rootNode := node.value;
      }
      if !IsNodeObject(renderResult) {
        return Some(TypeError);
      }
      var fake, root := QueueRoot(renderResult);
      error := RunRenderQueue();
    }
  }
}
