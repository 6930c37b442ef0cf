/**
 * Virtual nodes: element nodes (`v`), widget nodes (`w`), the other values a render may
 * return in their place, and the `decorate` worklist traversal.
 */
module Nodes {
  import opened JsValues

  /** A widget constructor, or a string label to be resolved through a registry. */
  datatype WidgetCtor = Label(name: string) | Ctor(ref: nat)

  /**
   * A render result entry.  `id` is the object identity of a node object: the renderer's
   * side tables are keyed by it.  An element node's `children` may be undefined
   * (`hasChildren` false, `vchildren` empty).
   */
  datatype DNode =
    | Undefined
    | Null
    | Text(s: string)
    | VNode(id: nat, tag: string, text: Option<string>, properties: Props,
            deferredPropertiesCallback: Option<Value>, hasChildren: bool, vchildren: seq<DNode>)
    | WNode(id: nat, widgetConstructor: WidgetCtor, properties: Props, wchildren: seq<DNode>)

  /** `Boolean(node)`: undefined, null and "" are falsy. */
  predicate IsTruthy(n: DNode)
  {
    !(n.Undefined? || n.Null? || (n.Text? && n.s == ""))
  }

  function IsWNode(n: DNode): (r: bool)
    ensures r ==> IsTruthy(n)
    ensures n.Undefined? || n.Null? || n.Text? ==> !r
    ensures r <==> n.WNode?
  {
    IsTruthy(n) && !n.Text? && n.WNode?
  }

  function IsVNode(n: DNode): (r: bool)
    ensures r ==> IsTruthy(n)
    ensures n.Undefined? || n.Null? || n.Text? ==> !r
    ensures r <==> n.VNode?
    ensures !(r && IsWNode(n))
  {
    IsTruthy(n) && !n.Text? && n.VNode?
  }

  /** `node.children` when it is defined (an element node may have none). */
  function Children(n: DNode): Option<seq<DNode>>
  {
    match n
    case VNode(_, _, _, _, _, has, cs) => if has then Some(cs) else None
    case WNode(_, _, _, cs) => Some(cs)
    case _ => None
  }

  /** `w(widgetConstructor, properties, children = [])`; `id` is the fresh object's identity. */
  function W(id: nat, widgetConstructor: WidgetCtor, properties: Props, children: Option<seq<DNode>>): (r: DNode)
    ensures IsWNode(r) && !IsVNode(r)
    ensures r.widgetConstructor == widgetConstructor && r.properties == properties
    ensures r.wchildren == if children.Some? then children.value else []
  {
    WNode(id, widgetConstructor, properties, if children.Some? then children.value else [])
  }

  /** The second argument of `v`: omitted (or undefined), properties, children, or a callback. */
  datatype VArg = Omitted | PropsArg(props: Props) | ChildrenArg(children: seq<DNode>) | CallbackArg(callback: Value)

  /** `v(tag, propertiesOrChildren = {}, children = undefined)` */
  function V(id: nat, tag: string, propertiesOrChildren: VArg, children: Option<seq<DNode>>): (r: DNode)
    ensures IsVNode(r) && !IsWNode(r) && r.tag == tag && r.text.None?
    ensures propertiesOrChildren.PropsArg? ==> r.properties == propertiesOrChildren.props
    ensures !propertiesOrChildren.PropsArg? ==> r.properties == EmptyProps
    ensures Children(r) == if propertiesOrChildren.ChildrenArg? then Some(propertiesOrChildren.children) else children
    ensures r.deferredPropertiesCallback ==
      if propertiesOrChildren.CallbackArg? then Some(propertiesOrChildren.callback) else None
  {
    var has := children.Some?;
    var cs := if children.Some? then children.value else [];
    match propertiesOrChildren
    case Omitted => VNode(id, tag, None, EmptyProps, None, has, cs)
    case PropsArg(p) => VNode(id, tag, None, p, None, has, cs)
    case ChildrenArg(arr) => VNode(id, tag, None, EmptyProps, None, true, arr)
    case CallbackArg(f) => VNode(id, tag, None, EmptyProps, Some(f), has, cs)
  }

  // ---------------------------------------------------------------- decorate

  function Size(n: DNode): nat
    decreases n, 1
  {
    match n
    case VNode(_, _, _, _, _, _, cs) => 1 + SizeAll(cs)
    case WNode(_, _, _, cs) => 1 + SizeAll(cs)
    case _ => 1
  }

  function SizeAll(ns: seq<DNode>): nat
    decreases ns, 0
  {
    if |ns| == 0 then 0 else Size(ns[0]) + SizeAll(ns[1..])
  }

  lemma {:induction false} SizeAllAppend(a: seq<DNode>, b: seq<DNode>)
    ensures SizeAll(a + b) == SizeAll(a) + SizeAll(b)
    decreases |a|
  {
    if |a| == 0 {
      assert a + b == b;
    } else {
      assert (a + b)[1..] == a[1..] + b;
      SizeAllAppend(a[1..], b);
    }
  }

  /** The nodes the worklist gains when `n` is taken from it. */
  function Expansion(n: DNode, shallow: bool): (r: seq<DNode>)
    ensures SizeAll(r) < Size(n)
  {
    if !shallow && IsTruthy(n) && (IsWNode(n) || IsVNode(n)) && Children(n).Some? then Children(n).value else []
  }

  /**
   * How the modifier behaves: the predicate (none means every node), and whether the
   * modifier calls the breaker for a node.  What the modifier writes into a node is not
   * part of this model.
   */
  datatype Decoration = Decoration(test: Option<DNode -> bool>, callsBreaker: DNode -> bool, shallow: bool)

  predicate Selected(d: Decoration, n: DNode)
  {
    IsTruthy(n) && (d.test.None? || d.test.value(n))
  }

  /** The nodes handed to the modifier, in order, when the worklist starts as `nodes`. */
  function Decorated(d: Decoration, nodes: seq<DNode>): seq<DNode>
    decreases SizeAll(nodes)
  {
    if |nodes| == 0 then []
    else
      var node := nodes[0];
      var rest := nodes[1..] + Expansion(node, d.shallow);
      SizeAllAppend(nodes[1..], Expansion(node, d.shallow));
      if Selected(d, node) && d.callsBreaker(node) then [node]
      else (if Selected(d, node) then [node] else []) + Decorated(d, rest)
  }

  /** The first argument of `decorate`: one node or an array of nodes. */
  datatype DecorateInput = One(node: DNode) | Many(nodes: seq<DNode>)

  function InitialWorklist(input: DecorateInput): seq<DNode>
  {
    match input
    case One(n) => [n]
    case Many(ns) => ns
  }

  /**
   * `decorate(dNodes, options)`: returns its argument, and the nodes the modifier was
   * applied to, in the order it was applied.
   */
  method Decorate(dNodes: DecorateInput, d: Decoration) returns (result: DecorateInput, modified: seq<DNode>)
    ensures result == dNodes
    ensures modified == Decorated(d, InitialWorklist(dNodes))
  {
    var nodes := InitialWorklist(dNodes);
    modified := [];
    while |nodes| > 0
      invariant modified + Decorated(d, nodes) == Decorated(d, InitialWorklist(dNodes))
      decreases SizeAll(nodes)
    {
      var node := nodes[0];
      ghost var before, done := nodes, modified;
      ghost var chosen := if Selected(d, node) then [node] else [];
      DecoratedStep(d, before);
      SizeAllAppend(nodes[1..], Expansion(node, d.shallow));
      nodes := nodes[1..];
      if IsTruthy(node) {
        if !d.shallow && (IsWNode(node) || IsVNode(node)) && Children(node).Some? {
          nodes := nodes + Children(node).value;
        }
        if d.test.None? || d.test.value(node) {
          modified := modified + [node];
          if d.callsBreaker(node) {
            nodes := [];
          }
        }
      }
      if Selected(d, node) && d.callsBreaker(node) {
        assert modified == done + [node] && nodes == [];
      } else {
        assert modified == done + chosen && nodes == before[1..] + Expansion(node, d.shallow);
        AppendAssoc(done, chosen, Decorated(d, nodes));
      }
    }
    result := dNodes;
  }

  /** One step of the worklist: the first entry, then (unless the breaker stops it) the rest. */
  lemma DecoratedStep(d: Decoration, nodes: seq<DNode>)
    requires |nodes| > 0
    ensures Decorated(d, nodes)
      == if Selected(d, nodes[0]) && d.callsBreaker(nodes[0]) then [nodes[0]]
         else (if Selected(d, nodes[0]) then [nodes[0]] else []) + Decorated(d, nodes[1..] + Expansion(nodes[0], d.shallow))
  {
  }

  // ---------------------------------------------------------------- properties of decorate

  /** The truthy entries of a worklist, in order. */
  function TruthyNodes(ns: seq<DNode>): (r: seq<DNode>)
    ensures |r| <= |ns|
  {
    if |ns| == 0 then [] else (if IsTruthy(ns[0]) then [ns[0]] else []) + TruthyNodes(ns[1..])
  }

  /** The children of every element and widget node of a level, concatenated. */
  function NextLevel(ns: seq<DNode>): (r: seq<DNode>)
    ensures |ns| > 0 ==> SizeAll(r) < SizeAll(ns)
    ensures |ns| == 0 ==> r == []
  {
    if |ns| == 0 then []
    else
      SizeAllAppend(Expansion(ns[0], false), NextLevel(ns[1..]));
      Expansion(ns[0], false) + NextLevel(ns[1..])
  }

  /** Level order, defined level by level: the reference the worklist is compared with. */
  function LevelOrder(level: seq<DNode>): seq<DNode>
    decreases SizeAll(level)
  {
    if |level| == 0 then [] else TruthyNodes(level) + LevelOrder(NextLevel(level))
  }

  /** Decorating every node (no predicate, no breaker, not shallow). */
  function VisitAll(): Decoration
  {
    Decoration(None, _ => false, false)
  }

  /** Taking a whole prefix `a` off the worklist: its truthy nodes, then the rest plus its children. */
  lemma {:induction false} DecoratedPrefix(a: seq<DNode>, b: seq<DNode>)
    ensures Decorated(VisitAll(), a + b) == TruthyNodes(a) + Decorated(VisitAll(), b + NextLevel(a))
    decreases |a|
  {
    var d := VisitAll();
    if |a| == 0 {
      assert a + b == b;
      assert b + NextLevel(a) == b;
    } else {
      VisitAllStep(a, b);
      DecoratedPrefix(a[1..], b + Expansion(a[0], false));
      AppendAssoc(if IsTruthy(a[0]) then [a[0]] else [], TruthyNodes(a[1..]), Decorated(d, b + NextLevel(a)));
    }
  }

  lemma AppendAssoc(x: seq<DNode>, y: seq<DNode>, z: seq<DNode>)
    ensures x + (y + z) == (x + y) + z
  {
  }

  /** Taking the first entry of `a + b` off the worklist, when every node is visited. */
  lemma VisitAllStep(a: seq<DNode>, b: seq<DNode>)
    requires |a| > 0
    ensures Decorated(VisitAll(), a + b)
      == (if IsTruthy(a[0]) then [a[0]] else []) + Decorated(VisitAll(), a[1..] + (b + Expansion(a[0], false)))
    ensures TruthyNodes(a) == (if IsTruthy(a[0]) then [a[0]] else []) + TruthyNodes(a[1..])
    ensures (b + Expansion(a[0], false)) + NextLevel(a[1..]) == b + NextLevel(a)
  {
    var x, t := a[0], a[1..];
    assert a + b == [x] + (t + b);
    VisitAllCons(x, t + b);
    assert (t + b) + Expansion(x, false) == t + (b + Expansion(x, false));
  }

  /** Visiting every node takes the first entry (if truthy) and queues its children last. */
  lemma VisitAllCons(x: DNode, rest: seq<DNode>)
    ensures Decorated(VisitAll(), [x] + rest)
      == (if IsTruthy(x) then [x] else []) + Decorated(VisitAll(), rest + Expansion(x, false))
  {
    assert ([x] + rest)[0] == x;
    assert ([x] + rest)[1..] == rest;
  }

  /** Without predicate, breaker or `shallow`, `decorate` visits the truthy nodes level by level. */
  lemma {:induction false} DecorateIsLevelOrder(level: seq<DNode>)
    ensures Decorated(VisitAll(), level) == LevelOrder(level)
    decreases SizeAll(level)
  {
    if |level| > 0 {
      DecoratedPrefix(level, []);
      assert level + [] == level;
      assert [] + NextLevel(level) == NextLevel(level);
      DecorateIsLevelOrder(NextLevel(level));
    }
  }

  /** With `shallow` and no breaker, only the selected top-level entries are visited, in order. */
  lemma {:induction false} ShallowVisitsTopLevel(d: Decoration, nodes: seq<DNode>)
    requires d.shallow
    requires forall n :: !d.callsBreaker(n)
    ensures Decorated(d, nodes) == SelectedNodes(d, nodes)
    decreases |nodes|
  {
    if |nodes| > 0 {
      assert nodes[1..] + Expansion(nodes[0], true) == nodes[1..];
      ShallowVisitsTopLevel(d, nodes[1..]);
    }
  }

  function SelectedNodes(d: Decoration, nodes: seq<DNode>): (r: seq<DNode>)
    ensures forall n :: n in r ==> n in nodes && Selected(d, n)
  {
    if |nodes| == 0 then [] else (if Selected(d, nodes[0]) then [nodes[0]] else []) + SelectedNodes(d, nodes[1..])
  }

  /**
   * Every node handed to the modifier satisfies the predicate and is truthy, and once the
   * breaker is called nothing more is visited: the breaking node is the last one.
   */
  lemma {:induction false} DecoratedSelectedAndStops(d: Decoration, nodes: seq<DNode>)
    ensures forall i :: 0 <= i < |Decorated(d, nodes)| ==> Selected(d, Decorated(d, nodes)[i])
    ensures forall i :: 0 <= i < |Decorated(d, nodes)| - 1 ==> !d.callsBreaker(Decorated(d, nodes)[i])
    decreases SizeAll(nodes)
  {
    if |nodes| > 0 {
      var node := nodes[0];
      var rest := nodes[1..] + Expansion(node, d.shallow);
      SizeAllAppend(nodes[1..], Expansion(node, d.shallow));
      DecoratedSelectedAndStops(d, rest);
    }
  }

  /** A breaker called on the very first entry ends the traversal after it. */
  lemma BreakerOnFirst(d: Decoration, nodes: seq<DNode>)
    requires |nodes| > 0 && Selected(d, nodes[0]) && d.callsBreaker(nodes[0])
    ensures Decorated(d, nodes) == [nodes[0]]
  {
  }
}
