/** The ActivityView object itself: the handlers update its fields in place, in the order
    the Java code does, and each is proved to do exactly what the corresponding function of
    ActivityViewSpec describes, keeping the invariant `Inv`.

    Field names drop the Java `m` prefix: `activityContainer` is mActivityContainer,
    `surface` is mSurface, `attached` is mAttached, `width`/`height` are mWidth/mHeight.
 */
module ActivityViews {
  import opened Effects
  import Spec = ActivityViewSpec

  class ActivityView {
    var activityContainer: Option<ContainerId>
    var surface: Option<SurfaceId>
    var attached: bool
    var width: int
    var height: int
    /** Surface objects created so far; the next `new Surface` gets this number. */
    var surfacesMade: nat
    /** Every remote call, Surface creation and Surface release, in order. */
    ghost var log: seq<Effect>

    function Fields(): Spec.View
      reads this
    {
      Spec.View(activityContainer, surface, attached, width, height, surfacesMade)
    }

    ghost predicate Valid()
      reads this
    {
      Spec.Inv(Fields(), log)
    }

    /** A new view: no container, no surface, not attached, size 0 x 0. */
    constructor ()
      ensures Valid() && Fields() == Spec.Initial() && log == []
    {
      activityContainer := None;
      surface := None;
      attached := false;
      width, height := 0, 0;
      surfacesMade := 0;
      log := [];
    }

    /** onAttachedToWindow; `created` is what createActivityContainer returned (None for a
        RemoteException), `existing` the texture view's current SurfaceTexture. */
    method OnAttachedToWindow(created: Option<ContainerId>, existing: Option<TextureId>,
                              densityDpi: int, attachOk: bool) returns (outcome: Outcome)
      requires Valid()
      modifies this
      ensures Valid()
      ensures var r := Spec.OnAttachedToWindow(old(Fields()), created, existing, densityDpi, attachOk);
        Fields() == r.view && log == old(log) + r.effects && outcome == r.outcome
    {
      Spec.NoReleaseKeepsInv(Fields(), log, [CreateContainerCall(created)]);
      log := log + [CreateContainerCall(created)];
      if created.None? {
        return Threw(ContainerCreationFailed);
      }
      activityContainer := created;
      if existing.Some? {
        ghost var before := log;
        outcome := AttachToSurface(existing.value, densityDpi, attachOk);
        assert log == old(log) + ([CreateContainerCall(created)] + (log[|before|..]));
      } else {
        outcome := Returned;
      }
    }

    /** onDetachedFromWindow. */
    method OnDetachedFromWindow(detachOk: bool)
      requires Valid()
      modifies this
      ensures Valid()
      ensures var r := Spec.OnDetachedFromWindow(old(Fields()), detachOk);
        Fields() == r.view && log == old(log) + r.effects
    {
      DetachFromSurface(detachOk);
    }

    /** isAttachedToWindow answers whether the view is attached to its container. */
    method IsAttachedToWindow() returns (r: bool)
      requires Valid()
      ensures r == attached
      ensures r ==> activityContainer.Some? && surface.Some?
    {
      r := attached;
    }

    /** startActivity; `startOk` is false when the remote call throws. */
    method StartActivity(intent: Intent, startOk: bool) returns (outcome: Outcome)
      requires Valid()
      modifies this
      ensures Valid()
      ensures var r := Spec.StartActivity(old(Fields()), intent, startOk);
        Fields() == r.view && log == old(log) + r.effects && outcome == r.outcome
    {
      outcome := Returned;
      if activityContainer.Some? && attached {
        Spec.NoReleaseKeepsInv(Fields(), log, [StartCall(activityContainer.value, intent, startOk)]);
        log := log + [StartCall(activityContainer.value, intent, startOk)];
        if !startOk {
          outcome := Threw(StartActivityFailed);
        }
      }
    }

    /** attachToSurface; the caller has a container. */
    method AttachToSurface(texture: TextureId, densityDpi: int, attachOk: bool) returns (outcome: Outcome)
      requires Valid() && activityContainer.Some?
      modifies this
      ensures Valid()
      ensures var r := Spec.AttachToSurface(old(Fields()), texture, densityDpi, attachOk);
        Fields() == r.view && log == old(log) + r.effects && outcome == r.outcome
    {
      Spec.AttachKeepsInv(Fields(), log, texture, densityDpi, attachOk);
      ghost var spec := Spec.AttachToSurface(Fields(), texture, densityDpi, attachOk);
      var s := surfacesMade;
      surfacesMade := surfacesMade + 1;
      surface := Some(s);
      log := log + [NewSurface(s, texture)];
      log := log + [AttachCall(activityContainer.value, s, width, height, densityDpi, attachOk)];
      if !attachOk {
        activityContainer := None;
        log := log + [ReleaseSurface(s)];
        surface := None;
        attached := false;
        assert log == old(log) + spec.effects;
        return Threw(AttachFailed);
      }
      attached := true;
      outcome := Returned;
      assert log == old(log) + spec.effects;
    }

    /** detachFromSurface; `detachOk` is false when detachFromDisplay throws, which is ignored. */
    method DetachFromSurface(detachOk: bool)
      requires Valid()
      modifies this
      ensures Valid()
      ensures var r := Spec.DetachFromSurface(old(Fields()), detachOk);
        Fields() == r.view && log == old(log) + r.effects
    {
      Spec.DetachKeepsInv(Fields(), log, detachOk);
      ghost var spec := Spec.DetachFromSurface(Fields(), detachOk);
      if activityContainer.Some? {
        log := log + [DetachCall(activityContainer.value, detachOk)];
        activityContainer := None;
      }
      if surface.Some? {
        log := log + [ReleaseSurface(surface.value)];
        surface := None;
      }
      attached := false;
      assert log == old(log) + spec.effects;
    }

    /** The texture listener's onSurfaceTextureAvailable. */
    method OnSurfaceTextureAvailable(texture: TextureId, w: int, h: int, densityDpi: int, attachOk: bool)
      returns (outcome: Outcome)
      requires Valid()
      modifies this
      ensures Valid()
      ensures var r := Spec.OnSurfaceTextureAvailable(old(Fields()), texture, w, h, densityDpi, attachOk);
        Fields() == r.view && log == old(log) + r.effects && outcome == r.outcome
    {
      width := w;
      height := h;
      if activityContainer.Some? {
        outcome := AttachToSurface(texture, densityDpi, attachOk);
      } else {
        outcome := Returned;
      }
    }

    /** The texture listener's onSurfaceTextureSizeChanged, which only logs. */
    method OnSurfaceTextureSizeChanged(w: int, h: int)
      requires Valid()
      ensures Valid()
      ensures Fields() == Spec.OnSurfaceTextureSizeChanged(old(Fields()), w, h).view
    {
    }

    /** The texture listener's onSurfaceTextureDestroyed; the answer tells the texture view
        to release the SurfaceTexture. */
    method OnSurfaceTextureDestroyed(detachOk: bool) returns (releaseTexture: bool)
      requires Valid()
      modifies this
      ensures Valid()
      ensures var r := Spec.OnSurfaceTextureDestroyed(old(Fields()), detachOk);
        Fields() == r.0.view && log == old(log) + r.0.effects && releaseTexture == r.1
    {
      DetachFromSurface(detachOk);
      releaseTexture := true;
    }
  }
}
