/** Runs of ActivityView over sequences of callbacks.

    The view is driven by two independent event sources: the window system
    (attached / detached) and the TextureView's listener (texture available,
    resized, destroyed), plus client calls to startActivity. `Run` folds the
    handlers over any sequence of those events. `Follows` is the ordering the
    two sources promise: window attach and detach alternate, starting detached;
    texture available and destroyed alternate, starting with no texture; and
    the texture onAttachedToWindow finds is the one the listener last reported.
 */
module ActivityViewTraces {
  import opened Effects
  import opened ActivityViewSpec

  /** A callback delivered to the view, with the results of the remote calls it makes. */
  datatype Event =
    | WindowAttached(created: Option<ContainerId>, existing: Option<TextureId>,
                     densityDpi: int, attachOk: bool)
    | WindowDetached(detachOk: bool)
    | TextureAvailable(texture: TextureId, width: int, height: int, densityDpi: int, attachOk: bool)
    | TextureSizeChanged(width: int, height: int)
    | TextureDestroyed(detachOk: bool)
    | StartRequested(intent: Intent, startOk: bool)

  /** The handler for one event. */
  function Apply(v: View, e: Event): Step {
    match e
    case WindowAttached(created, existing, dpi, ok) => OnAttachedToWindow(v, created, existing, dpi, ok)
    case WindowDetached(ok) => OnDetachedFromWindow(v, ok)
    case TextureAvailable(t, w, h, dpi, ok) => OnSurfaceTextureAvailable(v, t, w, h, dpi, ok)
    case TextureSizeChanged(w, h) => OnSurfaceTextureSizeChanged(v, w, h)
    case TextureDestroyed(ok) => OnSurfaceTextureDestroyed(v, ok).0
    case StartRequested(intent, ok) => StartActivity(v, intent, ok)
  }

  /** The final view, every effect in order, and how each handler returned. */
  datatype Trace = Trace(view: View, log: seq<Effect>, outcomes: seq<Outcome>)

  function Run(v: View, evs: seq<Event>): (r: Trace)
    ensures |r.outcomes| == |evs|
    decreases |evs|
  {
    if evs == [] then Trace(v, [], [])
    else
      var st := Apply(v, evs[0]);
      var rest := Run(st.view, evs[1..]);
      Trace(rest.view, st.effects + rest.log, [st.outcome] + rest.outcomes)
  }

  // ---------------------------------------------------------------------------
  // The invariant holds on every run, whatever the order of events.

  lemma WindowAttachKeepsInv(v: View, log: seq<Effect>, created: Option<ContainerId>,
                              existing: Option<TextureId>, densityDpi: int, attachOk: bool)
    requires Inv(v, log)
    ensures var r := OnAttachedToWindow(v, created, existing, densityDpi, attachOk);
      Inv(r.view, log + r.effects)
  {
    var log' := log + [CreateContainerCall(created)];
    NoReleaseKeepsInv(v, log, [CreateContainerCall(created)]);
    if created.Some? {
      var v' := v.(container := created);
      assert Inv(v', log');
      if existing.Some? {
        AttachKeepsInv(v', log', existing.value, densityDpi, attachOk);
        var a := AttachToSurface(v', existing.value, densityDpi, attachOk);
        assert log + ([CreateContainerCall(created)] + a.effects) == log' + a.effects;
      }
    }
  }

  lemma TextureAvailableKeepsInv(v: View, log: seq<Effect>, t: TextureId, w: int, h: int,
                                  densityDpi: int, attachOk: bool)
    requires Inv(v, log)
    ensures var r := OnSurfaceTextureAvailable(v, t, w, h, densityDpi, attachOk);
      Inv(r.view, log + r.effects)
  {
    var v' := v.(width := w, height := h);
    assert Inv(v', log);
    if v.container.Some? {
      AttachKeepsInv(v', log, t, densityDpi, attachOk);
    } else {
      assert log + [] == log;
    }
  }

  lemma ApplyKeepsInv(v: View, log: seq<Effect>, e: Event)
    requires Inv(v, log)
    ensures var r := Apply(v, e); Inv(r.view, log + r.effects)
  {
    match e
    case WindowAttached(created, existing, dpi, ok) =>
      WindowAttachKeepsInv(v, log, created, existing, dpi, ok);
    case WindowDetached(ok) => DetachKeepsInv(v, log, ok);
    case TextureAvailable(t, w, h, dpi, ok) => TextureAvailableKeepsInv(v, log, t, w, h, dpi, ok);
    case TextureSizeChanged(w, h) => assert log + [] == log;
    case TextureDestroyed(ok) => DetachKeepsInv(v, log, ok);
    case StartRequested(intent, ok) => NoReleaseKeepsInv(v, log, StartActivity(v, intent, ok).effects);
  }

  /** Whatever the callbacks and remote results, no surface is ever released twice, only
      surfaces the view created are released, a held surface is never a released one, and
      the view is attached only while holding both a container and a surface. */
  lemma {:induction false} RunKeepsInv(v: View, log: seq<Effect>, evs: seq<Event>)
    requires Inv(v, log)
    ensures var t := Run(v, evs); Inv(t.view, log + t.log)
    decreases |evs|
  {
    if evs == [] {
      assert log + [] == log;
    } else {
      var st := Apply(v, evs[0]);
      ApplyKeepsInv(v, log, evs[0]);
      RunKeepsInv(st.view, log + st.effects, evs[1..]);
      var rest := Run(st.view, evs[1..]);
      assert log + (st.effects + rest.log) == (log + st.effects) + rest.log;
    }
  }

  /** From construction on, every surface is released at most once. */
  lemma ReleasedAtMostOnce(evs: seq<Event>)
    ensures var t := Run(Initial(), evs);
      && Consistent(t.view)
      && (forall s: SurfaceId :: ReleaseCount(t.log, s) <= 1)
      && (forall s: SurfaceId :: Released(t.log, s) ==> s < t.view.surfacesMade)
  {
    RunKeepsInv(Initial(), [], evs);
    assert [] + Run(Initial(), evs).log == Run(Initial(), evs).log;
  }

  /** startActivity reaches the container only while the view is attached to it, and no
      other handler calls start. */
  lemma StartOnlyWhenAttached(v: View, e: Event, c: ContainerId, intent: Intent, ok: bool)
    requires StartCall(c, intent, ok) in Apply(v, e).effects
    ensures e == StartRequested(intent, ok) && v.attached && v.container == Some(c)
  {
  }

  // ---------------------------------------------------------------------------
  // Under the ordering the window system and the texture view promise.

  /** What the environment has told the view so far. */
  datatype Env = Env(window: bool, texture: Option<TextureId>)

  predicate Allowed(env: Env, e: Event) {
    match e
    case WindowAttached(_, existing, _, _) => !env.window && existing == env.texture
    case WindowDetached(_) => env.window
    case TextureAvailable(_, _, _, _, _) => env.texture.None?
    case TextureSizeChanged(_, _) => env.texture.Some?
    case TextureDestroyed(_) => env.texture.Some?
    case StartRequested(_, _) => true
  }

  function Next(env: Env, e: Event): Env {
    match e
    case WindowAttached(_, _, _, _) => env.(window := true)
    case WindowDetached(_) => env.(window := false)
    case TextureAvailable(t, _, _, _, _) => env.(texture := Some(t))
    case TextureDestroyed(_) => env.(texture := None)
    case _ => env
  }

  predicate Follows(env: Env, evs: seq<Event>)
    decreases |evs|
  {
    evs == [] || (Allowed(env, evs[0]) && Follows(Next(env, evs[0]), evs[1..]))
  }

  function After(env: Env, evs: seq<Event>): Env
    decreases |evs|
  {
    if evs == [] then env else After(Next(env, evs[0]), evs[1..])
  }

  /** The invariant of a view that has only seen ordered events: besides `Inv`, a view
      detached from its window holds no container, a held surface has a live texture,
      every surface ever created is either released or the one held, and an attached
      view got there by a successful attach of exactly the container and surface it holds. */
  ghost predicate Coupled(env: Env, v: View, log: seq<Effect>) {
    && Inv(v, log)
    && (!env.window ==> v.container.None?)
    && (v.surface.Some? ==> env.texture.Some?)
    && (forall s: SurfaceId :: s < v.surfacesMade ==> Released(log, s) || v.surface == Some(s))
    && (v.attached ==> AttachedVia(log, v.container.value, v.surface.value))
  }

  lemma AttachedViaGrows(log: seq<Effect>, extra: seq<Effect>, c: ContainerId, s: SurfaceId)
    requires AttachedVia(log, c, s)
    ensures AttachedVia(log + extra, c, s)
  {
    var i :| 0 <= i < |log| && log[i].AttachCall? && log[i].container == c
             && log[i].surface == s && log[i].succeeded;
    assert (log + extra)[i] == log[i];
  }

  /** An attach entered with no surface held keeps `Coupled`. */
  lemma AttachKeepsCoupled(env: Env, v: View, log: seq<Effect>, texture: TextureId,
                           densityDpi: int, attachOk: bool)
    requires Coupled(env, v, log) && v.container.Some? && v.surface.None? && env.window
    ensures var r := AttachToSurface(v, texture, densityDpi, attachOk);
      Coupled(env.(texture := Some(texture)), r.view, log + r.effects)
  {
    AttachKeepsInv(v, log, texture, densityDpi, attachOk);
    var r := AttachToSurface(v, texture, densityDpi, attachOk);
    var all := log + r.effects;
    var s := v.surfacesMade;
    forall x: SurfaceId | x < r.view.surfacesMade
      ensures Released(all, x) || r.view.surface == Some(x)
    {
      if x < s {
        assert Released(log, x);
      } else if !attachOk {
        assert all[|log| + 2] == ReleaseSurface(s);
      }
    }
    if attachOk {
      assert all[|log| + 1] == r.effects[1];
    }
  }

  lemma DetachKeepsCoupled(env: Env, env': Env, v: View, log: seq<Effect>, detachOk: bool)
    requires Coupled(env, v, log)
    requires env'.window ==> env.window
    ensures var r := DetachFromSurface(v, detachOk); Coupled(env', r.view, log + r.effects)
  {
    DetachKeepsInv(v, log, detachOk);
    var r := DetachFromSurface(v, detachOk);
    forall x: SurfaceId | x < r.view.surfacesMade ensures Released(log + r.effects, x) {
      if v.surface == Some(x) {
        assert ReleaseSurface(x) in r.effects;
      } else {
        assert Released(log, x);
      }
    }
  }

  lemma NoReleaseKeepsCoupled(env: Env, v: View, log: seq<Effect>, extra: seq<Effect>)
    requires Coupled(env, v, log)
    requires forall e :: e in extra ==> !e.ReleaseSurface?
    ensures Coupled(env, v, log + extra)
  {
    NoReleaseKeepsInv(v, log, extra);
    ReleasesOfConcat(log, extra);
    if v.attached { AttachedViaGrows(log, extra, v.container.value, v.surface.value); }
  }

  lemma ApplyKeepsCoupled(env: Env, v: View, log: seq<Effect>, e: Event)
    requires Coupled(env, v, log) && Allowed(env, e)
    ensures var r := Apply(v, e); Coupled(Next(env, e), r.view, log + r.effects)
  {
    var r := Apply(v, e);
    match e
    case WindowAttached(created, existing, dpi, ok) =>
      var log' := log + [CreateContainerCall(created)];
      NoReleaseKeepsCoupled(env, v, log, [CreateContainerCall(created)]);
      if created.Some? {
        assert v.container.None? && v.surface.None?;
        var v' := v.(container := created);
        assert Coupled(Next(env, e), v', log');
        if existing.Some? {
          AttachKeepsCoupled(Next(env, e), v', log', existing.value, dpi, ok);
          var a := AttachToSurface(v', existing.value, dpi, ok);
          assert log + ([CreateContainerCall(created)] + a.effects) == log' + a.effects;
        }
      }
    case WindowDetached(ok) => DetachKeepsCoupled(env, Next(env, e), v, log, ok);
    case TextureAvailable(t, w, h, dpi, ok) =>
      if v.container.Some? {
        AttachKeepsCoupled(env, v.(width := w, height := h), log, t, dpi, ok);
      } else {
        assert log + r.effects == log;
      }
    case TextureSizeChanged(w, h) =>
      assert log + r.effects == log;
    case TextureDestroyed(ok) => DetachKeepsCoupled(env, Next(env, e), v, log, ok);
    case StartRequested(intent, ok) =>
      NoReleaseKeepsCoupled(env, v, log, r.effects);
  }

  lemma {:induction false} RunKeepsCoupled(env: Env, v: View, log: seq<Effect>, evs: seq<Event>)
    requires Coupled(env, v, log) && Follows(env, evs)
    ensures var t := Run(v, evs); Coupled(After(env, evs), t.view, log + t.log)
    decreases |evs|
  {
    if evs == [] {
      assert log + [] == log;
    } else {
      var st := Apply(v, evs[0]);
      ApplyKeepsCoupled(env, v, log, evs[0]);
      RunKeepsCoupled(Next(env, evs[0]), st.view, log + st.effects, evs[1..]);
      var rest := Run(st.view, evs[1..]);
      assert log + (st.effects + rest.log) == (log + st.effects) + rest.log;
    }
  }

  /** For ordered events: every surface the view created is released exactly once, unless
      it is the one still held, which has not been released. Once the window is detached or
      the texture is gone, no surface is held, so every surface was released exactly once.
      And an attached view is attached through a successful attach of the pair it holds. */
  lemma {:induction false} EachSurfaceReleasedExactlyOnce(evs: seq<Event>)
    requires Follows(Env(false, None), evs)
    ensures var t := Run(Initial(), evs);
      && Consistent(t.view)
      && (forall s: SurfaceId :: s < t.view.surfacesMade ==>
            ReleaseCount(t.log, s) == (if t.view.surface == Some(s) then 0 else 1))
      && (t.view.attached ==> AttachedVia(t.log, t.view.container.value, t.view.surface.value))
    ensures var env := After(Env(false, None), evs); var t := Run(Initial(), evs);
      !env.window || env.texture.None? ==>
        forall s: SurfaceId :: s < t.view.surfacesMade ==> ReleaseCount(t.log, s) == 1
  {
    var t := Run(Initial(), evs);
    RunKeepsCoupled(Env(false, None), Initial(), [], evs);
    assert [] + t.log == t.log;
    forall s: SurfaceId | s < t.view.surfacesMade
      ensures ReleaseCount(t.log, s) == (if t.view.surface == Some(s) then 0 else 1)
    {
      if t.view.surface != Some(s) {
        assert Released(t.log, s);
      }
    }
  }

  // ---------------------------------------------------------------------------
  // What the handlers do outside that ordering, and the behaviour of the code as written.

  /** attachToSurface does not release a surface the view already holds: a second
      texture-available while attached leaves the earlier surface neither held nor released. */
  lemma AvailableWhileAttachedOrphansSurface(v: View, log: seq<Effect>, t: TextureId, w: int, h: int,
                                             densityDpi: int, ok: bool)
    requires Inv(v, log) && v.attached
    ensures var r := OnSurfaceTextureAvailable(v, t, w, h, densityDpi, ok);
      && v.surface.Some?
      && !Released(log + r.effects, v.surface.value)
      && r.view.surface != v.surface
  {
  }

  /** Two texture-available callbacks with no destroy between them leak the first surface;
      that order is outside what the texture view promises. */
  lemma DoubleAvailableLeaksFirstSurface()
    ensures var evs := [WindowAttached(Some(7), None, 320, true),
                        TextureAvailable(1, 800, 600, 320, true),
                        TextureAvailable(1, 800, 600, 320, true)];
      var t := Run(Initial(), evs);
      && !Follows(Env(false, None), evs)
      && t.view.surfacesMade == 2 && t.view.surface == Some(1)
      && !Released(t.log, 0)
  {
  }

  /** The texture-destroyed callback runs the full detach procedure, which also drops the
      container: a texture that becomes available afterwards is not attached until the
      view is attached to a window again. */
  lemma DestroyedTextureIsNotReattached(v: View, detachOk: bool, t: TextureId, w: int, h: int,
                                        densityDpi: int, ok: bool)
    ensures var d := OnSurfaceTextureDestroyed(v, detachOk).0.view;
      var r := OnSurfaceTextureAvailable(d, t, w, h, densityDpi, ok);
      && !r.view.attached && r.view.container.None? && r.effects == []
  {
  }

  /** Window attach, texture available, texture destroyed, texture available again: the
      view is attached after the second event, and after the fourth it is not, because the
      container was dropped with the first texture. The first surface was released once. */
  lemma TextureReturnNeedsWindowReattach()
    ensures var evs := [WindowAttached(Some(7), None, 320, true),
                        TextureAvailable(1, 800, 600, 320, true),
                        TextureDestroyed(true),
                        TextureAvailable(2, 800, 600, 320, true)];
      && Follows(Env(false, None), evs)
      && Run(Initial(), [WindowAttached(Some(7), None, 320, true),
                         TextureAvailable(1, 800, 600, 320, true)]).view.attached
      && var t := Run(Initial(), evs);
      && !t.view.attached && t.view.container.None? && t.view.surfacesMade == 1
      && ReleaseCount(t.log, 0) == 1
  {
  }

  /** A failed attach after a successful container creation: the container and the new
      surface are dropped, the surface is released once, and exactly one handler throws. */
  lemma FailedAttachResetsCleanly()
    ensures var evs := [WindowAttached(Some(7), None, 320, true),
                        TextureAvailable(1, 800, 600, 320, false)];
      var t := Run(Initial(), evs);
      && Follows(Env(false, None), evs)
      && !t.view.attached && t.view.container.None? && t.view.surface.None?
      && ReleaseCount(t.log, 0) == 1
      && t.outcomes == [Returned, Threw(AttachFailed)]
  {
  }
}
