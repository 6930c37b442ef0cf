/**
 * The handle-ownership protocol of `src/bases/Destroyable.ts`: owned handles are kept in a
 * list; destroying the owner destroys them all once, after which owning fails and destroying
 * again does nothing.  The promise the source returns is modelled by its resolved value.
 */
module Destroyables {
  import opened JsValues

  /** An owned handle: a missing one (null/undefined), or an object with or without `destroy`. */
  datatype Handle = Missing | Handle(ref: nat, hasDestroy: bool)

  const DestroyedMessage: string := "Call made to destroyed method"

  /** `handles.indexOf(h)`: the first position holding `h`, or -1. */
  function IndexOf(hs: seq<Handle>, h: Handle): (r: int)
    ensures -1 <= r < |hs|
    ensures r == -1 <==> h !in hs
    ensures r >= 0 ==> hs[r] == h && h !in hs[..r]
    decreases |hs|
  {
    if |hs| == 0 then -1
    else if hs[0] == h then 0
    else
      var i := IndexOf(hs[1..], h);
      assert i >= 0 ==> hs[1..][..i] == hs[1..i + 1];
      if i == -1 then -1 else i + 1
  }

  /**
   * `handles.splice(start)` with one argument: everything from `start` to the end goes; a
   * negative start counts from the end.
   */
  function SpliceFrom(hs: seq<Handle>, start: int): (r: seq<Handle>)
    ensures start >= 0 ==> r == hs[..if start <= |hs| then start else |hs|]
    ensures start == -1 ==> r == if |hs| == 0 then [] else hs[..|hs| - 1]
  {
    if start >= 0 then hs[..if start <= |hs| then start else |hs|]
    else
      var from := |hs| + start;
      hs[..if from < 0 then 0 else from]
  }

  /** The list left by a remover: `handles.splice(handles.indexOf(handle))`. */
  function Released(hs: seq<Handle>, h: Handle): (r: seq<Handle>)
  {
    SpliceFrom(hs, IndexOf(hs, h))
  }

  /**
   * A remover drops its handle together with every handle owned after it, and keeps the ones
   * owned before.
   */
  lemma ReleaseTruncates(hs: seq<Handle>, h: Handle)
    requires h in hs
    ensures h !in Released(hs, h)
    ensures Released(hs, h) <= hs
    ensures |Released(hs, h)| == IndexOf(hs, h)
  {
  }

  /**
   * A remover whose handle is no longer in the list (its own remover ran already, or an
   * earlier remover truncated it away) drops the last handle instead.
   */
  lemma ReleaseMissingDropsLast(hs: seq<Handle>, h: Handle)
    requires h !in hs && |hs| > 0
    ensures Released(hs, h) == hs[..|hs| - 1]
  {
  }

  /** The handles `destroy` calls: those that are present and have a `destroy` method. */
  function DestroyCalls(hs: seq<Handle>): (r: seq<nat>)
    ensures |r| <= |hs|
    ensures forall x :: x in r ==> Handle(x, true) in hs
    ensures forall i :: 0 <= i < |hs| && hs[i].Handle? && hs[i].hasDestroy ==> hs[i].ref in r
    decreases |hs|
  {
    if |hs| == 0 then []
    else
      var last := hs[|hs| - 1];
      var front := DestroyCalls(hs[..|hs| - 1]);
      assert forall i :: 0 <= i < |hs| - 1 ==> hs[..|hs| - 1][i] == hs[i];
      if last.Handle? && last.hasDestroy then front + [last.ref] else front
  }

  /** Owning every handle with a `destroy` method, in order, calls all of them in that order. */
  lemma {:induction false} DestroyCallsAll(hs: seq<Handle>)
    requires forall i :: 0 <= i < |hs| ==> hs[i].Handle? && hs[i].hasDestroy
    ensures |DestroyCalls(hs)| == |hs|
    ensures forall i :: 0 <= i < |hs| ==> DestroyCalls(hs)[i] == hs[i].ref
    decreases |hs|
  {
    if |hs| > 0 {
      DestroyCallsAll(hs[..|hs| - 1]);
    }
  }

  class Destroyable {
    var handles: seq<Handle>
    /** Set once `destroy` has run: `destroy` is then a no-op and `own` throws. */
    var destroyed: bool

    constructor()
      ensures handles == [] && !destroyed
    {
      handles := [];
      destroyed := false;
    }

    /** `own(handle)`: appends the handle; the returned remover is represented by the handle. */
    method Own(h: Handle) returns (r: Result<Handle>)
      modifies this
      ensures old(destroyed) ==> r == Err(DestroyedMessage) && handles == old(handles)
      ensures !old(destroyed) ==> r == Ok(h) && handles == old(handles) + [h]
      ensures destroyed == old(destroyed)
    {
      if destroyed {
        return Err(DestroyedMessage);
      }
      handles := handles + [h];
      return Ok(h);
    }

    /**
     * The remover's `destroy()`: truncates the list at the handle, then calls the handle's
     * `destroy`, a TypeError when it has none.  `called` is the handle whose `destroy` ran.
     */
    method Release(h: Handle) returns (r: Result<nat>)
      modifies this
      ensures handles == Released(old(handles), h)
      ensures h.Handle? && h.hasDestroy ==> r == Ok(h.ref)
      ensures !(h.Handle? && h.hasDestroy) ==> r.Err?
      ensures destroyed == old(destroyed)
    {
      handles := SpliceFrom(handles, IndexOf(handles, h));
      if h.Handle? && h.hasDestroy {
        return Ok(h.ref);
      }
      return Err("TypeError: handle.destroy is not a function");
    }

    /**
     * `destroy()`: the first call destroys every owned handle in list order and resolves to
     * true; later calls destroy nothing and resolve to false.
     */
    method Destroy() returns (result: bool, calls: seq<nat>)
      modifies this
      ensures result == !old(destroyed) && destroyed
      ensures old(destroyed) ==> calls == []
      ensures !old(destroyed) ==> calls == DestroyCalls(old(handles))
      ensures handles == old(handles)
    {
      if destroyed {
        return false, [];
      }
      calls := [];
      var i := 0;
      while i < |handles|
        invariant 0 <= i <= |handles|
        invariant handles == old(handles) && !destroyed
        invariant calls == DestroyCalls(handles[..i])
      {
        var handle := handles[i];
        assert handles[..i + 1][..i] == handles[..i];
        if handle.Handle? && handle.hasDestroy {
          calls := calls + [handle.ref];
        }
        i := i + 1;
      }
      assert handles[..i] == handles;
      destroyed := true;
      return true, calls;
    }
  }

  /** After the owner is destroyed, owning fails and a second destroy calls nothing. */
  method DestroyThenOwn(h: Handle) returns (first: bool, owned: Result<Handle>, second: bool, calls: seq<nat>)
    ensures first && owned == Err(DestroyedMessage) && !second && calls == []
  {
    var d := new Destroyable();
    var _ := d.Own(h);
    var c;
    first, c := d.Destroy();
    owned := d.Own(h);
    second, calls := d.Destroy();
  }
}
