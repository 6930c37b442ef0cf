/**
 * The render-scheduling state machine of the projector mixin in `src/mixins/Projector.ts`:
 * attach state, async mode, pause flag and the pending animation frame.  The browser calls
 * (`requestAnimationFrame`, `cancelAnimationFrame`) and the projection calls (`dom.append`,
 * `dom.merge`, `projection.update`) are recorded as effects; the id a frame request would
 * return is a parameter.
 */
module Projectors {
  import opened JsValues
  import opened Nodes

  datatype AttachState = Attached | Detached
  datatype AttachType = Append | Merge

  /** What the projector asks of the window or of its projection. */
  datatype Effect =
    | RequestFrame(frame: nat)
    | CancelFrame(frame: nat)
    | CreateProjection(kind: AttachType, sync: bool)  // `dom.append`/`dom.merge` with a fresh render
    | UpdateProjection                                // `projection.update` with a fresh render

  /** The scheduling fields of a projector, as one value. */
  datatype View = View(state: AttachState, async: bool, scheduled: Option<nat>, paused: bool, hasProjection: bool)

  const AsyncMessage: string := "Projector already attached, cannot change async mode"

  /** `_scheduled` counts as pending only when truthy: an undefined marker or a frame id of 0 is not pending. */
  predicate Pending(scheduled: Option<nat>)
  {
    scheduled.Some? && scheduled.value != 0
  }

  /** A freshly constructed projector: detached, async, not paused, nothing pending. */
  function Initial(): (r: View)
    ensures r.state == Detached && r.async && !r.paused && !Pending(r.scheduled)
  {
    View(Detached, true, None, false, false)
  }

  /**
   * The combinations the projector's methods can reach: a projection exists exactly when the
   * projector is attached, and a frame is only ever pending for an attached async projector.
   */
  ghost predicate Consistent(p: View)
  {
    (p.hasProjection <==> p.state == Attached)
    && (p.scheduled.Some? ==> p.state == Attached && p.async)
  }

  lemma InitialConsistent()
    ensures Consistent(Initial())
  {
  }

  function FrameRequests(effects: seq<Effect>): (r: nat)
    ensures r <= |effects|
  {
    if |effects| == 0 then 0
    else FrameRequests(effects[..|effects| - 1]) + (if effects[|effects| - 1].RequestFrame? then 1 else 0)
  }

  /** `_doRender`: clears the pending marker and updates the projection when there is one. */
  function DoRenderStep(p: View): (r: (View, seq<Effect>))
    ensures r.0 == p.(scheduled := None)
    ensures r.1 == if p.hasProjection then [UpdateProjection] else []
  {
    (p.(scheduled := None), if p.hasProjection then [UpdateProjection] else [])
  }

  /**
   * `scheduleRender`, with `frame` the id `requestAnimationFrame` returns if it is called:
   * only an attached projector with nothing pending and not paused acts; in async mode it
   * requests one frame and keeps its id, in sync mode it renders at once.
   */
  function ScheduleStep(p: View, frame: nat): (r: (View, seq<Effect>))
    ensures r.0.state == p.state && r.0.async == p.async && r.0.paused == p.paused
    ensures r.0.hasProjection == p.hasProjection
    ensures p.state == Detached || Pending(p.scheduled) || p.paused ==> r == (p, [])
    ensures FrameRequests(r.1) == (if p.state == Attached && !Pending(p.scheduled) && !p.paused && p.async then 1 else 0)
    ensures p.state == Attached && !Pending(p.scheduled) && !p.paused && p.async
      ==> r.0.scheduled == Some(frame) && r.1 == [RequestFrame(frame)]
    ensures p.state == Attached && !Pending(p.scheduled) && !p.paused && !p.async
      ==> r == DoRenderStep(p)
  {
    if p.state == Attached && !Pending(p.scheduled) && !p.paused then
      if p.async then (p.(scheduled := Some(frame)), [RequestFrame(frame)])
      else DoRenderStep(p)
    else (p, [])
  }

  /** `pause`: cancels a pending frame, forgets it, and sets `paused`. */
  function PauseStep(p: View): (r: (View, seq<Effect>))
    ensures r.0.paused && !Pending(r.0.scheduled)
    ensures r.0.state == p.state && r.0.async == p.async && r.0.hasProjection == p.hasProjection
    ensures Pending(p.scheduled) ==> r.1 == [CancelFrame(p.scheduled.value)] && r.0.scheduled == None
    ensures !Pending(p.scheduled) ==> r.1 == [] && r.0.scheduled == p.scheduled
  {
    if Pending(p.scheduled) then (p.(scheduled := None, paused := true), [CancelFrame(p.scheduled.value)])
    else (p.(paused := true), [])
  }

  /** `resume`: clears `paused`, then schedules a render. */
  function ResumeStep(p: View, frame: nat): (r: (View, seq<Effect>))
    ensures !r.0.paused
    ensures r == ScheduleStep(p.(paused := false), frame)
  {
    ScheduleStep(p.(paused := false), frame)
  }

  /** The `async` setter: refused once attached. */
  function SetAsyncStep(p: View, async: bool): (r: Result<View>)
    ensures r.Err? <==> p.state == Attached
    ensures r.Err? ==> r.message == AsyncMessage
    ensures r.Ok? ==> r.value == p.(async := async)
  {
    if p.state == Attached then Err(AsyncMessage) else Ok(p.(async := async))
  }

  /** `_attach`: the projector is attached and a projection is created, synchronous iff not async. */
  function AttachStep(p: View, kind: AttachType): (r: (View, seq<Effect>))
    ensures r.0.state == Attached && r.0.hasProjection
    ensures r.0.async == p.async && r.0.paused == p.paused && r.0.scheduled == p.scheduled
    ensures r.1 == [CreateProjection(kind, !p.async)]
  {
    (p.(state := Attached, hasProjection := true), [CreateProjection(kind, !p.async)])
  }

  // ---------------------------------------------------------------- properties of the steps

  lemma {:induction false} StepsKeepConsistent(p: View, frame: nat, kind: AttachType, async: bool)
    requires Consistent(p)
    ensures Consistent(ScheduleStep(p, frame).0)
    ensures Consistent(DoRenderStep(p).0)
    ensures Consistent(PauseStep(p).0)
    ensures Consistent(ResumeStep(p, frame).0)
    ensures Consistent(AttachStep(p, kind).0)
    ensures SetAsyncStep(p, async).Ok? ==> Consistent(SetAsyncStep(p, async).value)
  {
    assert Consistent(p.(paused := false));
  }

  /** The projector state after a run of `scheduleRender` calls, and everything they asked for. */
  function ScheduleAll(p: View, frames: seq<nat>): (r: (View, seq<Effect>))
    decreases |frames|
  {
    if |frames| == 0 then (p, [])
    else
      var front := ScheduleAll(p, frames[..|frames| - 1]);
      var last := ScheduleStep(front.0, frames[|frames| - 1]);
      (last.0, front.1 + last.1)
  }

  lemma {:induction false} FrameRequestsAppend(a: seq<Effect>, b: seq<Effect>)
    ensures FrameRequests(a + b) == FrameRequests(a) + FrameRequests(b)
    decreases |b|
  {
    if |b| == 0 {
      assert a + b == a;
    } else {
      assert (a + b)[..|a + b| - 1] == a + b[..|b| - 1];
      FrameRequestsAppend(a, b[..|b| - 1]);
    }
  }

  /**
   * However many `scheduleRender` calls are made between two frames, at most one frame is
   * requested, as long as the ids the browser hands out are non-zero; afterwards a frame is
   * pending exactly when one was requested or was pending already.
   */
  lemma {:induction false} AtMostOneFrame(p: View, frames: seq<nat>)
    requires forall i :: 0 <= i < |frames| ==> frames[i] != 0
    ensures FrameRequests(ScheduleAll(p, frames).1) <= 1
    ensures FrameRequests(ScheduleAll(p, frames).1) == 1 ==> !Pending(p.scheduled) && Pending(ScheduleAll(p, frames).0.scheduled)
    ensures Pending(p.scheduled) ==> ScheduleAll(p, frames) == (p, [])
    decreases |frames|
  {
    if |frames| > 0 {
      var init := frames[..|frames| - 1];
      AtMostOneFrame(p, init);
      var front := ScheduleAll(p, init);
      var last := ScheduleStep(front.0, frames[|frames| - 1]);
      FrameRequestsAppend(front.1, last.1);
      if FrameRequests(front.1) == 1 {
        assert Pending(front.0.scheduled);
        assert last == (front.0, []);
      }
    }
  }

  /** While paused, `scheduleRender` changes nothing and asks for nothing. */
  lemma {:induction false} PausedSchedulesNothing(p: View, frames: seq<nat>)
    requires p.paused
    ensures ScheduleAll(p, frames) == (p, [])
    decreases |frames|
  {
    if |frames| > 0 {
      PausedSchedulesNothing(p, frames[..|frames| - 1]);
      assert ScheduleStep(p, frames[|frames| - 1]) == (p, []);
      assert ScheduleAll(p, frames[..|frames| - 1]).1 + [] == [];
    }
  }

  /** A detached projector ignores `scheduleRender`. */
  lemma {:induction false} DetachedSchedulesNothing(p: View, frames: seq<nat>)
    requires p.state == Detached
    ensures ScheduleAll(p, frames) == (p, [])
    decreases |frames|
  {
    if |frames| > 0 {
      DetachedSchedulesNothing(p, frames[..|frames| - 1]);
      assert ScheduleStep(p, frames[|frames| - 1]) == (p, []);
      assert ScheduleAll(p, frames[..|frames| - 1]).1 + [] == [];
    }
  }

  /**
   * Pausing an attached async projector with a frame pending cancels that frame; resuming
   * requests exactly one new frame.
   */
  lemma PauseResumeReplacesFrame(p: View, frame: nat)
    requires p.state == Attached && p.async && Pending(p.scheduled)
    ensures PauseStep(p).1 == [CancelFrame(p.scheduled.value)]
    ensures ResumeStep(PauseStep(p).0, frame).1 == [RequestFrame(frame)]
    ensures ResumeStep(PauseStep(p).0, frame).0 == p.(scheduled := Some(frame), paused := false)
  {
  }

  /** Once the frame has fired (`_doRender`), the next `scheduleRender` requests a new one. */
  lemma FrameThenScheduleAgain(p: View, frame: nat)
    requires p.state == Attached && p.async && !p.paused
    ensures ScheduleStep(DoRenderStep(p).0, frame).1 == [RequestFrame(frame)]
  {
  }

  /** In sync mode an attached projector updates its projection on every `scheduleRender`. */
  lemma {:induction false} SyncRendersEveryTime(p: View, frames: seq<nat>)
    requires Consistent(p) && p.state == Attached && !p.async && !p.paused
    ensures ScheduleAll(p, frames).1 == seq(|frames|, i => UpdateProjection)
    ensures ScheduleAll(p, frames).0 == p.(scheduled := None) || |frames| == 0
    decreases |frames|
  {
    if |frames| > 0 {
      SyncRendersEveryTime(p, frames[..|frames| - 1]);
      var front := ScheduleAll(p, frames[..|frames| - 1]);
      assert front.0.hasProjection && !Pending(front.0.scheduled);
      assert seq(|frames| - 1, i => UpdateProjection) + [UpdateProjection] == seq(|frames|, i => UpdateProjection);
    }
  }

  /** `afterRender`: a string, null or undefined render result is wrapped in a span. */
  function AfterRender(result: DNode, spanId: nat): (r: DNode)
    ensures result.Text? || result.Null? || result.Undefined? ==>
      r.VNode? && r.tag == "span" && r.properties == EmptyProps && Children(r) == Some([result])
    ensures !(result.Text? || result.Null? || result.Undefined?) ==> r == result
  {
    if result.Text? || result.Null? || result.Undefined? then V(spanId, "span", PropsArg(EmptyProps), Some([result]))
    else result
  }

  // ---------------------------------------------------------------- the projector object

  class Projector {
    var projectorState: AttachState
    var async: bool
    var scheduled: Option<nat>
    var paused: bool
    var hasProjection: bool
    var projectorProperties: Props
    var projectorChildren: seq<DNode>
    /** Everything asked of the window and of the projection so far, in order. */
    var effects: seq<Effect>

    function Fields(): View
      reads this
    {
      View(projectorState, async, scheduled, paused, hasProjection)
    }

    ghost predicate Valid()
      reads this
    {
      Consistent(Fields())
    }

    constructor()
      ensures Fields() == Initial() && Valid()
      ensures projectorProperties == EmptyProps && projectorChildren == [] && effects == []
    {
      projectorState := Detached;
      async := true;
      scheduled := None;
      paused := false;
      hasProjection := false;
      projectorProperties := EmptyProps;
      projectorChildren := [];
      effects := [];
    }

    method DoRender()
      requires Valid()
      modifies this
      ensures Fields() == DoRenderStep(old(Fields())).0 && Valid()
      ensures effects == old(effects) + DoRenderStep(old(Fields())).1
      ensures projectorProperties == old(projectorProperties) && projectorChildren == old(projectorChildren)
    {
      scheduled := None;
      if hasProjection {
        effects := effects + [UpdateProjection];
      }
    }

    method ScheduleRender(frame: nat)
      requires Valid()
      modifies this
      ensures Fields() == ScheduleStep(old(Fields()), frame).0 && Valid()
      ensures effects == old(effects) + ScheduleStep(old(Fields()), frame).1
      ensures projectorProperties == old(projectorProperties) && projectorChildren == old(projectorChildren)
    {
      if projectorState == Attached {
        if !Pending(scheduled) && !paused {
          if async {
            scheduled := Some(frame);
            effects := effects + [RequestFrame(frame)];
          } else {
            DoRender();
          }
        }
      }
    }

    method Pause()
      requires Valid()
      modifies this
      ensures Fields() == PauseStep(old(Fields())).0 && Valid()
      ensures effects == old(effects) + PauseStep(old(Fields())).1
      ensures projectorProperties == old(projectorProperties) && projectorChildren == old(projectorChildren)
    {
      if Pending(scheduled) {
        effects := effects + [CancelFrame(scheduled.value)];
        scheduled := None;
      }
      paused := true;
    }

    method Resume(frame: nat)
      requires Valid()
      modifies this
      ensures Fields() == ResumeStep(old(Fields()), frame).0 && Valid()
      ensures effects == old(effects) + ResumeStep(old(Fields()), frame).1
      ensures projectorProperties == old(projectorProperties) && projectorChildren == old(projectorChildren)
    {
      paused := false;
      ScheduleRender(frame);
    }

    method GetAsync() returns (r: bool)
      ensures r == Fields().async
    {
      return async;
    }

    method SetAsync(value: bool) returns (r: Result<()>)
      requires Valid()
      modifies this
      ensures SetAsyncStep(old(Fields()), value).Ok? ==> r == Ok(()) && Fields() == SetAsyncStep(old(Fields()), value).value
      ensures SetAsyncStep(old(Fields()), value).Err? ==> r == Err(AsyncMessage) && Fields() == old(Fields())
      ensures Valid() && effects == old(effects)
      ensures projectorProperties == old(projectorProperties) && projectorChildren == old(projectorChildren)
    {
      if projectorState == Attached {
        return Err(AsyncMessage);
      }
      async := value;
      return Ok(());
    }

    /** `setChildren`: keeps a copy of the children, then schedules a render. */
    method SetChildren(children: seq<DNode>, frame: nat)
      requires Valid()
      modifies this
      ensures projectorChildren == children && projectorProperties == old(projectorProperties)
      ensures Fields() == ScheduleStep(old(Fields()), frame).0 && Valid()
      ensures effects == old(effects) + ScheduleStep(old(Fields()), frame).1
    {
      projectorChildren := children;
      ScheduleRender(frame);
    }

    /** `setProperties`: keeps a copy of the properties, then schedules a render. */
    method SetProperties(properties: Props, frame: nat)
      requires Valid()
      modifies this
      ensures projectorProperties == properties && projectorChildren == old(projectorChildren)
      ensures Fields() == ScheduleStep(old(Fields()), frame).0 && Valid()
      ensures effects == old(effects) + ScheduleStep(old(Fields()), frame).1
    {
      projectorProperties := properties;
      ScheduleRender(frame);
    }

    /** `append` and `merge`: attach and create the projection from a first render. */
    method Attach(kind: AttachType)
      requires Valid()
      modifies this
      ensures Fields() == AttachStep(old(Fields()), kind).0 && Valid()
      ensures effects == old(effects) + AttachStep(old(Fields()), kind).1
      ensures projectorProperties == old(projectorProperties) && projectorChildren == old(projectorChildren)
    {
      projectorState := Attached;
      hasProjection := true;
      effects := effects + [CreateProjection(kind, !async)];
    }
  }

  /**
   * A projector appended in async mode: two `scheduleRender` calls request one frame; the
   * frame renders once; afterwards the mode can no longer be changed.
   */
  method AsyncProjectorRun(f1: nat, f2: nat, f3: nat) returns (log: seq<Effect>, modeChange: Result<()>)
    requires f1 != 0
    ensures log == [CreateProjection(Append, false), RequestFrame(f1), UpdateProjection, RequestFrame(f3)]
    ensures modeChange == Err(AsyncMessage)
  {
    var p := new Projector();
    p.Attach(Append);
    p.ScheduleRender(f1);
    p.ScheduleRender(f2);
    p.DoRender();
    p.ScheduleRender(f3);
    modeChange := p.SetAsync(false);
    log := p.effects;
  }
}
