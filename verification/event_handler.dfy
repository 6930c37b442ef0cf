/**
 * The event-listener module of `src/util/eventHandler.ts`: one listener function per virtual
 * node, registered on the element under each event name of the node's `on` object, and the
 * dispatch from a listener to the handler stored under the event's name.
 *
 * The element's listener registrations are abstract: `updateEventListeners` returns the
 * add/remove calls it makes, in order.
 */
module EventListeners {
  import opened JsValues

  /** A node's `on` object: its identity and its handlers by event name. */
  datatype OnObject = OnObject(ref: nat, handlers: Props)

  /** What `updateEventListeners` reads of a virtual node. */
  datatype ListenerNode = ListenerNode(on: Option<OnObject>, listener: Option<nat>, elm: nat)

  datatype ListenerOp =
    | AddListener(elm: nat, name: string, listener: nat)
    | RemoveListener(elm: nat, name: string, listener: nat)

  /** `oldOn === on` for two optional objects. */
  predicate SameOn(a: Option<OnObject>, b: Option<OnObject>)
  {
    (a.None? && b.None?) || (a.Some? && b.Some? && a.value.ref == b.value.ref)
  }

  /** An old name is dropped when the new `on` is absent or has no truthy handler for it. */
  predicate Unwanted(on: Option<OnObject>, name: string)
  {
    on.None? || !Truthy(PropGet(on.value.handlers, name))
  }

  /** A new name is added when the old `on` was absent or had no truthy handler for it. */
  predicate Unregistered(oldOn: Option<OnObject>, name: string)
  {
    oldOn.None? || !Truthy(PropGet(oldOn.value.handlers, name))
  }

  /** The removals the first `for...in` loop makes over the old names `ks`. */
  function RemovalOps(ks: seq<string>, on: Option<OnObject>, elm: nat, l: nat): (r: seq<ListenerOp>)
    ensures |r| <= |ks|
    decreases |ks|
  {
    if |ks| == 0 then []
    else
      var n := ks[|ks| - 1];
      var front := RemovalOps(ks[..|ks| - 1], on, elm, l);
      if Unwanted(on, n) then front + [RemoveListener(elm, n, l)] else front
  }

  /** The first loop removes, for `l` on the old element, exactly the old names no longer wanted. */
  lemma {:induction false} RemovalOpsExact(ks: seq<string>, on: Option<OnObject>, elm: nat, l: nat, n: string)
    ensures forall op :: op in RemovalOps(ks, on, elm, l) ==> op.RemoveListener? && op.elm == elm && op.listener == l
    ensures RemoveListener(elm, n, l) in RemovalOps(ks, on, elm, l) <==> n in ks && Unwanted(on, n)
    decreases |ks|
  {
    if |ks| > 0 {
      RemovalOpsExact(ks[..|ks| - 1], on, elm, l, n);
      assert ks == ks[..|ks| - 1] + [ks[|ks| - 1]];
    }
  }

  /** The additions the second `for...in` loop makes over the new names `ks`. */
  function AdditionOps(ks: seq<string>, oldOn: Option<OnObject>, elm: nat, l: nat): (r: seq<ListenerOp>)
    ensures |r| <= |ks|
    decreases |ks|
  {
    if |ks| == 0 then []
    else
      var n := ks[|ks| - 1];
      var front := AdditionOps(ks[..|ks| - 1], oldOn, elm, l);
      if Unregistered(oldOn, n) then front + [AddListener(elm, n, l)] else front
  }

  /** The second loop adds, for `l` on the new element, exactly the new names not yet registered. */
  lemma {:induction false} AdditionOpsExact(ks: seq<string>, oldOn: Option<OnObject>, elm: nat, l: nat, n: string)
    ensures forall op :: op in AdditionOps(ks, oldOn, elm, l) ==> op.AddListener? && op.elm == elm && op.listener == l
    ensures AddListener(elm, n, l) in AdditionOps(ks, oldOn, elm, l) <==> n in ks && Unregistered(oldOn, n)
    decreases |ks|
  {
    if |ks| > 0 {
      AdditionOpsExact(ks[..|ks| - 1], oldOn, elm, l, n);
      assert ks == ks[..|ks| - 1] + [ks[|ks| - 1]];
    }
  }

  /** `vnode && vnode.data.on` */
  function NewOn(vnode: Option<ListenerNode>): Option<OnObject>
  {
    if vnode.Some? then vnode.value.on else None
  }

  /** The listener a new node with an `on` object is given: the old node's, or a new one. */
  function ListenerFor(oldVnode: ListenerNode, created: nat): nat
  {
    if oldVnode.listener.Some? then oldVnode.listener.value else created
  }

  class ListenerUpdate {
    /** The listener givenListener to the new node; its `vnode` now points to the new node. */
    var givenListener: Option<nat>
    /** The `addEventListener` / `removeEventListener` calls made, in order. */
    var ops: seq<ListenerOp>

    constructor()
      ensures givenListener == None && ops == []
    {
      givenListener := None;
      ops := [];
    }

    /**
     * `updateEventListeners(oldVnode, vnode)`; `created` is the listener `createListener`
     * would make.
     */
    method Run(oldVnode: ListenerNode, vnode: Option<ListenerNode>, created: nat)
      modifies this
      ensures SameOn(oldVnode.on, NewOn(vnode)) ==> ops == old(ops) && givenListener == old(givenListener)
      ensures !SameOn(oldVnode.on, NewOn(vnode)) ==> (
        ops == old(ops)
        + (if oldVnode.on.Some? && oldVnode.listener.Some?
           then RemovalOps(oldVnode.on.value.handlers.keys, NewOn(vnode), oldVnode.elm, oldVnode.listener.value)
           else [])
        + (if NewOn(vnode).Some?
           then AdditionOps(NewOn(vnode).value.handlers.keys, oldVnode.on, vnode.value.elm, ListenerFor(oldVnode, created))
           else []))
      ensures !SameOn(oldVnode.on, NewOn(vnode)) ==>
        givenListener == if NewOn(vnode).Some? then Some(ListenerFor(oldVnode, created)) else old(givenListener)
    {
      var oldOn := oldVnode.on;
      var on := NewOn(vnode);
      if SameOn(oldOn, on) {
        return;
      }
      ghost var start := ops;
      if oldOn.Some? && oldVnode.listener.Some? {
        var names := oldOn.value.handlers.keys;
        var i := 0;
        while i < |names|
          invariant 0 <= i <= |names|
          invariant ops == start + RemovalOps(names[..i], on, oldVnode.elm, oldVnode.listener.value)
          invariant givenListener == old(givenListener)
        {
          assert names[..i + 1][..i] == names[..i];
          if Unwanted(on, names[i]) {
            ops := ops + [RemoveListener(oldVnode.elm, names[i], oldVnode.listener.value)];
          }
          i := i + 1;
        }
        assert names[..i] == names;
      }
      ghost var mid := ops;
      if on.Some? {
        var listener := ListenerFor(oldVnode, created);
        givenListener := Some(listener);
        var names := on.value.handlers.keys;
        var i := 0;
        while i < |names|
          invariant 0 <= i <= |names|
          invariant ops == mid + AdditionOps(names[..i], oldOn, vnode.value.elm, listener)
          invariant givenListener == Some(listener)
        {
          assert names[..i + 1][..i] == names[..i];
          if Unregistered(oldOn, names[i]) {
            ops := ops + [AddListener(vnode.value.elm, names[i], listener)];
          }
          i := i + 1;
        }
        assert names[..i] == names;
      }
    }
  }

  // ---------------------------------------------------------------- effect on one element

  /** The event names registered for `l` on `elm` after the calls `ops`. */
  function Registered(names: set<string>, ops: seq<ListenerOp>, elm: nat, l: nat): set<string>
    decreases |ops|
  {
    if |ops| == 0 then names
    else
      var before := Registered(names, ops[..|ops| - 1], elm, l);
      var op := ops[|ops| - 1];
      if op.elm != elm || op.listener != l then before
      else if op.AddListener? then before + {op.name}
      else before - {op.name}
  }

  lemma {:induction false} RegisteredAppend(names: set<string>, a: seq<ListenerOp>, b: seq<ListenerOp>, elm: nat, l: nat)
    ensures Registered(names, a + b, elm, l) == Registered(Registered(names, a, elm, l), b, elm, l)
    decreases |b|
  {
    if |b| == 0 {
      assert a + b == a;
    } else {
      assert (a + b)[..|a + b| - 1] == a + b[..|b| - 1];
      RegisteredAppend(names, a, b[..|b| - 1], elm, l);
    }
  }

  lemma {:induction false} RemovalsRemove(names: set<string>, ks: seq<string>, on: Option<OnObject>, elm: nat, l: nat, n: string)
    ensures n in Registered(names, RemovalOps(ks, on, elm, l), elm, l) <==> n in names && !(n in ks && Unwanted(on, n))
    decreases |ks|
  {
    if |ks| > 0 {
      var last := ks[|ks| - 1];
      var front := ks[..|ks| - 1];
      RemovalsRemove(names, front, on, elm, l, n);
      assert ks == front + [last];
      var frontOps := RemovalOps(front, on, elm, l);
      if Unwanted(on, last) {
        RemovalStep(names, frontOps, elm, l, last);
      }
    }
  }

  lemma RemovalStep(names: set<string>, frontOps: seq<ListenerOp>, elm: nat, l: nat, last: string)
    ensures Registered(names, frontOps + [RemoveListener(elm, last, l)], elm, l) == Registered(names, frontOps, elm, l) - {last}
  {
    var ops := frontOps + [RemoveListener(elm, last, l)];
    assert ops[..|ops| - 1] == frontOps;
  }

  lemma {:induction false} AdditionsAdd(names: set<string>, ks: seq<string>, oldOn: Option<OnObject>, elm: nat, l: nat, n: string)
    ensures n in Registered(names, AdditionOps(ks, oldOn, elm, l), elm, l) <==> n in names || (n in ks && Unregistered(oldOn, n))
    decreases |ks|
  {
    if |ks| > 0 {
      var last := ks[|ks| - 1];
      var front := ks[..|ks| - 1];
      AdditionsAdd(names, front, oldOn, elm, l, n);
      assert ks == front + [last];
      if Unregistered(oldOn, last) {
        var ops := AdditionOps(front, oldOn, elm, l) + [AddListener(elm, last, l)];
        assert ops[..|ops| - 1] == AdditionOps(front, oldOn, elm, l);
      }
    }
  }

  /** Every handler of an `on` object is truthy (a function or a handler array). */
  predicate AllTruthy(o: OnObject)
  {
    forall k :: k in o.handlers.vals ==> Truthy(o.handlers.vals[k])
  }

  /** The calls one update makes when both the old and the new node have an `on` object. */
  function UpdateOps(oldOn: OnObject, on: OnObject, elm: nat, l: nat): seq<ListenerOp>
  {
    RemovalOps(oldOn.handlers.keys, Some(on), elm, l) + AdditionOps(on.handlers.keys, Some(oldOn), elm, l)
  }

  /**
   * On one element, when the listener was registered under exactly the old names, the update
   * leaves it registered under exactly the new names: names in both are left alone.
   */
  lemma {:induction false} ListenersFollowOn(oldOn: OnObject, on: OnObject, elm: nat, l: nat)
    requires WellFormed(oldOn.handlers) && WellFormed(on.handlers)
    requires AllTruthy(oldOn) && AllTruthy(on)
    ensures Registered(oldOn.handlers.vals.Keys, UpdateOps(oldOn, on, elm, l), elm, l) == on.handlers.vals.Keys
  {
    var olds := oldOn.handlers.vals.Keys;
    var removal := RemovalOps(oldOn.handlers.keys, Some(on), elm, l);
    var addition := AdditionOps(on.handlers.keys, Some(oldOn), elm, l);
    RegisteredAppend(olds, removal, addition, elm, l);
    var kept := Registered(olds, removal, elm, l);
    forall n ensures n in Registered(kept, addition, elm, l) <==> n in on.handlers.vals.Keys {
      RemovalsRemove(olds, oldOn.handlers.keys, Some(on), elm, l, n);
      AdditionsAdd(kept, on.handlers.keys, Some(oldOn), elm, l, n);
    }
  }

  // ---------------------------------------------------------------- dispatch

  /** What a handler is called with: nothing (undefined), the event, the node, or a value. */
  datatype Arg = Missing | EventArg(event: nat) | NodeArg(vnode: nat) | ValueArg(value: Value)

  /** What `invokeHandler` reads of the node: its identity, whether it has `data`, `data.bind`. */
  datatype DispatchNode = DispatchNode(ref: nat, hasData: bool, bind: Value)

  datatype Call = Call(fn: nat, thisArg: Arg, args: seq<Arg>)

  /** `vnode && vnode.data ? vnode.data.bind || vnode : vnode` */
  function BindOf(vnode: Option<DispatchNode>): Arg
  {
    if vnode.None? then Missing
    else if vnode.value.hasData && Truthy(vnode.value.bind) then ValueArg(vnode.value.bind)
    else NodeArg(vnode.value.ref)
  }

  function EventOf(event: Option<nat>): Arg
  {
    if event.Some? then EventArg(event.value) else Missing
  }

  function NodeOf(vnode: Option<DispatchNode>): Arg
  {
    if vnode.Some? then NodeArg(vnode.value.ref) else Missing
  }

  function ValueArgs(items: seq<Value>): (r: seq<Arg>)
    ensures |r| == |items| && forall i :: 0 <= i < |items| ==> r[i] == ValueArg(items[i])
  {
    seq(|items|, i requires 0 <= i < |items| => ValueArg(items[i]))
  }

  /**
   * `invokeHandler(handler, vnode, event)` as written: the calls made, in order, or the
   * TypeError raised on a null handler.  The elements of a handler array whose first item is
   * not a function are invoked without the node and the event.  Plain objects other than
   * arrays call nothing.
   */
  function InvokeHandler(handler: Value, vnode: Option<DispatchNode>, event: Option<nat>): Result<seq<Call>>
    decreases handler, 1
  {
    match handler
    case Func(f, _) => Ok([Call(f, BindOf(vnode), [EventOf(event), NodeOf(vnode)])])
    case Null => Err("TypeError: Cannot read property '0' of null")
    case Arr(_, items) =>
      if |items| > 0 && items[0].Func? then
        if |items| == 2 then Ok([Call(items[0].ref, BindOf(vnode), [ValueArg(items[1]), EventOf(event), NodeOf(vnode)])])
        else Ok([Call(items[0].ref, BindOf(vnode), ValueArgs(items[1..]) + [EventOf(event), NodeOf(vnode)])])
      else InvokeEach(handler, items, 0, None, None)
    case _ => Ok([])
  }

  /** The `for` loop over a handler array, from index `i`, passing `vnode` and `event` on. */
  function InvokeEach(handler: Value, items: seq<Value>, i: nat, vnode: Option<DispatchNode>, event: Option<nat>): Result<seq<Call>>
    requires handler.Arr? && items == handler.items
    decreases handler, 0, |items| - i
  {
    if i >= |items| then Ok([])
    else
      match InvokeHandler(items[i], vnode, event)
      case Err(e) => Err(e)
      case Ok(first) =>
        match InvokeEach(handler, items, i + 1, vnode, event)
        case Err(e) => Err(e)
        case Ok(rest) => Ok(first + rest)
  }

  /** A function handler is called once, with the event and then the node. */
  lemma FunctionHandlerCall(f: nat, w: bool, vnode: DispatchNode, event: nat)
    ensures InvokeHandler(Func(f, w), Some(vnode), Some(event))
      == Ok([Call(f, BindOf(Some(vnode)), [EventArg(event), NodeArg(vnode.ref)])])
  {
  }

  /** `[f, a]` calls f with a, then the event, then the node; a longer array passes its tail. */
  lemma ArrayHandlerCalls(r: nat, f: nat, w: bool, tail: seq<Value>, vnode: DispatchNode, event: nat)
    ensures var res := InvokeHandler(Arr(r, [Func(f, w)] + tail), Some(vnode), Some(event));
      res.Ok? && |res.value| == 1 && res.value[0].fn == f
      && res.value[0].args == ValueArgs(tail) + [EventArg(event), NodeArg(vnode.ref)]
  {
    var items := [Func(f, w)] + tail;
    assert items[1..] == tail;
    if |items| == 2 {
      assert ValueArgs(tail) == [ValueArg(tail[0])];
    }
  }

  /**
   * As written, a nested handler array calls its inner function without the event and the
   * node: `[[f]]` dispatched for a node and an event calls f with two undefined arguments.
   */
  lemma NestedHandlerLosesEvent(r1: nat, r2: nat, f: nat, w: bool, vnode: DispatchNode, event: nat)
    ensures InvokeHandler(Arr(r1, [Arr(r2, [Func(f, w)])]), Some(vnode), Some(event))
      == Ok([Call(f, Missing, [Missing, Missing])])
  {
    var inner := Arr(r2, [Func(f, w)]);
    var outer := Arr(r1, [inner]);
    assert ValueArgs(inner.items[1..]) + [EventOf(None), NodeOf(None)] == [Missing, Missing];
    assert InvokeEach(outer, [inner], 1, None, None) == Ok([]);
    assert InvokeHandler(inner, None, None) == Ok([Call(f, Missing, [Missing, Missing])]);
    assert [Call(f, Missing, [Missing, Missing])] + [] == [Call(f, Missing, [Missing, Missing])];
  }

  /** `invokeHandler` with the node and the event passed on to the elements of handler arrays. */
  function InvokeHandlerPassingOn(handler: Value, vnode: Option<DispatchNode>, event: Option<nat>): Result<seq<Call>>
    decreases handler, 1
  {
    match handler
    case Func(f, _) => Ok([Call(f, BindOf(vnode), [EventOf(event), NodeOf(vnode)])])
    case Null => Err("TypeError: Cannot read property '0' of null")
    case Arr(_, items) =>
      if |items| > 0 && items[0].Func? then
        if |items| == 2 then Ok([Call(items[0].ref, BindOf(vnode), [ValueArg(items[1]), EventOf(event), NodeOf(vnode)])])
        else Ok([Call(items[0].ref, BindOf(vnode), ValueArgs(items[1..]) + [EventOf(event), NodeOf(vnode)])])
      else InvokeEachPassingOn(handler, items, 0, vnode, event)
    case _ => Ok([])
  }

  function InvokeEachPassingOn(handler: Value, items: seq<Value>, i: nat, vnode: Option<DispatchNode>, event: Option<nat>): Result<seq<Call>>
    requires handler.Arr? && items == handler.items
    decreases handler, 0, |items| - i
  {
    if i >= |items| then Ok([])
    else
      match InvokeHandlerPassingOn(items[i], vnode, event)
      case Err(e) => Err(e)
      case Ok(first) =>
        match InvokeEachPassingOn(handler, items, i + 1, vnode, event)
        case Err(e) => Err(e)
        case Ok(rest) => Ok(first + rest)
  }

  /**
   * With the node and event passed on, every call that dispatch makes, however deeply the
   * handler arrays nest, receives the event and the node as its last two arguments.
   */
  lemma {:induction false} PassingOnKeepsEvent(handler: Value, vnode: DispatchNode, event: nat)
    ensures var res := InvokeHandlerPassingOn(handler, Some(vnode), Some(event));
      res.Ok? ==> forall c :: c in res.value ==>
        |c.args| >= 2 && c.args[|c.args| - 2] == EventArg(event) && c.args[|c.args| - 1] == NodeArg(vnode.ref)
    decreases handler, 1
  {
    match handler
    case Arr(_, items) =>
      if !(|items| > 0 && items[0].Func?) {
        PassingOnEachKeepsEvent(handler, items, 0, vnode, event);
      }
    case _ =>
  }

  lemma {:induction false} PassingOnEachKeepsEvent(handler: Value, items: seq<Value>, i: nat, vnode: DispatchNode, event: nat)
    requires handler.Arr? && items == handler.items
    ensures var res := InvokeEachPassingOn(handler, items, i, Some(vnode), Some(event));
      res.Ok? ==> forall c :: c in res.value ==>
        |c.args| >= 2 && c.args[|c.args| - 2] == EventArg(event) && c.args[|c.args| - 1] == NodeArg(vnode.ref)
    decreases handler, 0, |items| - i
  {
    if i < |items| {
      PassingOnKeepsEvent(items[i], vnode, event);
      PassingOnEachKeepsEvent(handler, items, i + 1, vnode, event);
    }
  }
}
