/**
 * The minimal event emitter of `src/Evented.ts`: handler lists per event type, called in
 * registration order.  Handlers are opaque functions, identified by reference; calling one
 * is recorded in the list `Emit` returns.
 */
module Events {

  /** A handler function, by reference. */
  type Handler = nat

  /** The handlers registered for `eventType`, none when the type was never seen. */
  function HandlersFor(onMap: map<string, seq<Handler>>, eventType: string): seq<Handler>
  {
    if eventType in onMap then onMap[eventType] else []
  }

  /** The handler table after `on(eventType, h)`. */
  function AddHandler(onMap: map<string, seq<Handler>>, eventType: string, h: Handler): (r: map<string, seq<Handler>>)
    ensures r.Keys == onMap.Keys + {eventType}
    ensures HandlersFor(r, eventType) == HandlersFor(onMap, eventType) + [h]
    ensures forall t :: t != eventType ==> HandlersFor(r, t) == HandlersFor(onMap, t)
  {
    if eventType in onMap then onMap[eventType := onMap[eventType] + [h]] else onMap[eventType := [h]]
  }

  /** Every registered type has at least one handler: lists are only created holding one. */
  ghost predicate NoEmptyLists(onMap: map<string, seq<Handler>>)
  {
    forall t :: t in onMap ==> |onMap[t]| > 0
  }

  lemma AddHandlerKeepsLists(onMap: map<string, seq<Handler>>, eventType: string, h: Handler)
    requires NoEmptyLists(onMap)
    ensures NoEmptyLists(AddHandler(onMap, eventType, h))
  {
  }

  /** Two registrations for one type are called in the order they were made. */
  lemma {:induction false} RegistrationOrder(onMap: map<string, seq<Handler>>, eventType: string, a: Handler, b: Handler)
    ensures HandlersFor(AddHandler(AddHandler(onMap, eventType, a), eventType, b), eventType)
      == HandlersFor(onMap, eventType) + [a, b]
  {
    var m1 := AddHandler(onMap, eventType, a);
    assert HandlersFor(m1, eventType) == HandlersFor(onMap, eventType) + [a];
    assert HandlersFor(onMap, eventType) + [a] + [b] == HandlersFor(onMap, eventType) + [a, b];
  }

  class Evented {
    var onMap: map<string, seq<Handler>>

    ghost predicate Valid()
      reads this
    {
      NoEmptyLists(onMap)
    }

    constructor()
      ensures onMap == map[] && Valid()
    {
      onMap := map[];
    }

    /** `on(type, handler)`: a first handler starts the list, later ones are appended. */
    method On(eventType: string, h: Handler)
      requires Valid()
      modifies this
      ensures onMap == AddHandler(old(onMap), eventType, h)
      ensures Valid()
    {
      if eventType in onMap {
        onMap := onMap[eventType := onMap[eventType] + [h]];
      } else {
        onMap := onMap[eventType := [h]];
      }
    }

    /**
     * `emit(obj)`: calls each handler registered for `obj.type` once, in order; `calls` lists
     * the handlers called.
     */
    method Emit(eventType: string) returns (calls: seq<Handler>)
      ensures |calls| == |HandlersFor(onMap, eventType)|
      ensures forall i :: 0 <= i < |calls| ==> calls[i] == HandlersFor(onMap, eventType)[i]
      ensures eventType !in onMap ==> calls == []
    {
      calls := [];
      if eventType in onMap {
        var onFunctions := onMap[eventType];
        var i := 0;
        while i < |onFunctions|
          invariant 0 <= i <= |onFunctions|
          invariant calls == onFunctions[..i]
        {
          calls := calls + [onFunctions[i]];
          i := i + 1;
        }
      }
    }
  }
}
