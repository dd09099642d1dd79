/** The attachment state machine of ActivityView, as pure functions.

    A `View` holds the five fields the handlers update (mActivityContainer,
    mSurface, mAttached, mWidth, mHeight) and the number of Surface objects
    created so far, which stands for the allocator behind `new Surface(...)`.
    Each handler is a function from the view before to a `Step`: the view after,
    the outward actions it issued in order, and whether it threw. Remote calls
    whose result the handler depends on are boolean or optional arguments.
 */
module ActivityViewSpec {
  import opened Effects

  datatype View = View(container: Option<ContainerId>, surface: Option<SurfaceId>, attached: bool,
                       width: int, height: int, surfacesMade: nat)

  datatype Step = Step(view: View, effects: seq<Effect>, outcome: Outcome)

  /** The fields of a newly constructed view (Java default values). */
  function Initial(): View {
    View(None, None, false, 0, 0, 0)
  }

  /** A view is consistent when it holds a surface exactly while attached, is attached only
      while it holds a container, and its surface was created by it. */
  predicate Consistent(v: View) {
    && (v.attached <==> v.surface.Some?)
    && (v.attached ==> v.container.Some?)
    && (v.surface.Some? ==> v.surface.value < v.surfacesMade)
  }

  /** The invariant of a view together with the log of everything it has done:
      the surface it holds has not been released, only surfaces it created were
      released, and none was released twice. */
  ghost predicate Inv(v: View, log: seq<Effect>) {
    && Consistent(v)
    && (v.surface.Some? ==> !Released(log, v.surface.value))
    && (forall s: SurfaceId :: Released(log, s) ==> s < v.surfacesMade)
    && (forall s: SurfaceId :: ReleaseCount(log, s) <= 1)
  }

  /** Container detach precedes any surface release among `effects`. */
  predicate DetachBeforeRelease(effects: seq<Effect>) {
    forall i, j ::
      0 <= i < |effects| && 0 <= j < |effects| && effects[i].DetachCall? && effects[j].ReleaseSurface?
      ==> i < j
  }

  /** attachToSurface: wrap the texture in a new Surface and ask the container to draw into
      it at the recorded size. On a remote failure the container and the new surface are
      dropped, the surface is released, and the view throws. The caller guarantees that a
      container is present. */
  function AttachToSurface(v: View, texture: TextureId, densityDpi: int, attachOk: bool): (r: Step)
    requires v.container.Some?
    ensures var s := v.surfacesMade;
      && r.view.surfacesMade == s + 1
      && r.view.width == v.width && r.view.height == v.height
      && |r.effects| >= 2
      && r.effects[..2] == [NewSurface(s, texture),
                            AttachCall(v.container.value, s, v.width, v.height, densityDpi, attachOk)]
      && (r.view.attached <==> attachOk)
      && (forall e :: e in r.effects ==> e.NewSurface? || e.AttachCall? || e.ReleaseSurface?)
      && (attachOk ==> r.view.container == v.container && r.view.surface == Some(s)
                       && |r.effects| == 2 && r.outcome == Returned)
      && (!attachOk ==> r.view.container.None? && r.view.surface.None?
                        && r.effects[2..] == [ReleaseSurface(s)] && r.outcome == Threw(AttachFailed))
  {
    var s := v.surfacesMade;
    var created := v.(surface := Some(s), surfacesMade := s + 1);
    var made := [NewSurface(s, texture),
                 AttachCall(v.container.value, s, v.width, v.height, densityDpi, attachOk)];
    if attachOk then
      Step(created.(attached := true), made, Returned)
    else
      Step(created.(container := None, surface := None, attached := false),
           made + [ReleaseSurface(s)], Threw(AttachFailed))
  }

  /** detachFromSurface: tell a present container to detach from its display (a failure of
      that call is ignored) and drop it, then release and drop a present surface, and mark
      the view detached. */
  function DetachFromSurface(v: View, detachOk: bool): (r: Step)
    ensures r.view == v.(container := None, surface := None, attached := false)
    ensures r.outcome == Returned
    ensures (exists c :: DetachCall(c, detachOk) in r.effects) <==> v.container.Some?
    ensures v.container.Some? ==> DetachCall(v.container.value, detachOk) in r.effects
    ensures (exists s :: ReleaseSurface(s) in r.effects) <==> v.surface.Some?
    ensures v.surface.Some? ==> ReleaseSurface(v.surface.value) in r.effects
    ensures forall e :: e in r.effects ==> e.DetachCall? || e.ReleaseSurface?
    ensures v.container.Some? ==> r.effects[0] == DetachCall(v.container.value, detachOk)
    ensures v.surface.Some? ==> r.effects[|r.effects| - 1] == ReleaseSurface(v.surface.value)
    ensures |r.effects| == (if v.container.Some? then 1 else 0) + (if v.surface.Some? then 1 else 0)
    ensures DetachBeforeRelease(r.effects)
  {
    var dropped := if v.container.Some? then [DetachCall(v.container.value, detachOk)] else [];
    var released := if v.surface.Some? then [ReleaseSurface(v.surface.value)] else [];
    Step(v.(container := None, surface := None, attached := false), dropped + released, Returned)
  }

  /** onAttachedToWindow: create a container for the owning activity; if that fails, throw
      and leave the fields as they were. Otherwise store it and, when the texture view
      already has a SurfaceTexture, attach to it at the previously recorded size. */
  function OnAttachedToWindow(v: View, created: Option<ContainerId>, texture: Option<TextureId>,
                              densityDpi: int, attachOk: bool): (r: Step)
    ensures |r.effects| >= 1 && r.effects[0] == CreateContainerCall(created)
    ensures created.None? ==> r.view == v && r.effects == [CreateContainerCall(None)]
                              && r.outcome == Threw(ContainerCreationFailed)
    ensures created.Some? && texture.None? ==>
              r.view == v.(container := created) && |r.effects| == 1 && r.outcome == Returned
    ensures created.Some? && texture.Some? ==>
              |r.effects| >= 3
              && r.effects[1] == NewSurface(v.surfacesMade, texture.value)
              && r.effects[2] == AttachCall(created.value, v.surfacesMade, v.width, v.height,
                                         densityDpi, attachOk)
              && r.view.surfacesMade == v.surfacesMade + 1
              && r.view.width == v.width && r.view.height == v.height
              && (r.view.attached <==> attachOk)
              && (attachOk ==> r.view.container == created && r.view.surface == Some(v.surfacesMade)
                               && |r.effects| == 3 && r.outcome == Returned)
              && (!attachOk ==> r.view.container.None? && r.view.surface.None?
                                && r.effects[3..] == [ReleaseSurface(v.surfacesMade)]
                                && r.outcome == Threw(AttachFailed))
  {
    if created.None? then
      Step(v, [CreateContainerCall(None)], Threw(ContainerCreationFailed))
    else if texture.None? then
      Step(v.(container := created), [CreateContainerCall(created)], Returned)
    else
      var a := AttachToSurface(v.(container := created), texture.value, densityDpi, attachOk);
      Step(a.view, [CreateContainerCall(created)] + a.effects, a.outcome)
  }

  /** onDetachedFromWindow: the detach procedure. */
  function OnDetachedFromWindow(v: View, detachOk: bool): (r: Step)
    ensures r == DetachFromSurface(v, detachOk)
  {
    DetachFromSurface(v, detachOk)
  }

  /** startActivity: forward the intent only while a container is present and attached;
      otherwise do nothing. A remote failure throws. The fields never change. */
  function StartActivity(v: View, intent: Intent, startOk: bool): (r: Step)
    ensures r.view == v
    ensures |r.effects| <= 1
    ensures r.effects != [] <==> v.container.Some? && v.attached
    ensures r.effects != [] ==> r.effects[0] == StartCall(v.container.value, intent, startOk)
    ensures r.outcome != Returned <==> r.effects != [] && !startOk
    ensures r.outcome != Returned ==> r.outcome == Threw(StartActivityFailed)
  {
    if v.container.Some? && v.attached then
      Step(v, [StartCall(v.container.value, intent, startOk)],
           if startOk then Returned else Threw(StartActivityFailed))
    else
      Step(v, [], Returned)
  }

  /** onSurfaceTextureAvailable: record the size, and attach when a container is present. */
  function OnSurfaceTextureAvailable(v: View, texture: TextureId, width: int, height: int,
                                     densityDpi: int, attachOk: bool): (r: Step)
    ensures r.view.width == width && r.view.height == height
    ensures v.container.None? ==> r.view == v.(width := width, height := height)
                                  && r.effects == [] && r.outcome == Returned
    ensures v.container.Some? ==>
              |r.effects| >= 2
              && r.effects[0] == NewSurface(v.surfacesMade, texture)
              && r.view.surfacesMade == v.surfacesMade + 1
              && r.effects[1] == AttachCall(v.container.value, v.surfacesMade, width, height,
                                            densityDpi, attachOk)
              && (r.view.attached <==> attachOk)
              && (attachOk ==> r.view.container == v.container && r.view.surface == Some(v.surfacesMade)
                               && |r.effects| == 2 && r.outcome == Returned)
              && (!attachOk ==> r.view.container.None? && r.view.surface.None?
                                && r.effects[2..] == [ReleaseSurface(v.surfacesMade)]
                                && r.outcome == Threw(AttachFailed))
  {
    var sized := v.(width := width, height := height);
    if sized.container.Some? then AttachToSurface(sized, texture, densityDpi, attachOk)
    else Step(sized, [], Returned)
  }

  /** onSurfaceTextureSizeChanged only logs: the recorded size is not updated. */
  function OnSurfaceTextureSizeChanged(v: View, width: int, height: int): (r: Step)
    ensures r.view == v && r.effects == [] && r.outcome == Returned
  {
    Step(v, [], Returned)
  }

  /** onSurfaceTextureDestroyed: the detach procedure; answers true, so the TextureView
      releases the SurfaceTexture itself. */
  function OnSurfaceTextureDestroyed(v: View, detachOk: bool): (r: (Step, bool))
    ensures r.0 == DetachFromSurface(v, detachOk)
    ensures r.1
  {
    (DetachFromSurface(v, detachOk), true)
  }

  /** Detaching twice is detaching once: the second call finds nothing to detach from its
      display and nothing to release. */
  lemma DetachIsIdempotent(v: View, firstOk: bool, secondOk: bool)
    ensures var once := DetachFromSurface(v, firstOk);
      var twice := DetachFromSurface(once.view, secondOk);
      twice.view == once.view && twice.effects == [] && twice.outcome == Returned
  {
  }

  /** A failing detachFromDisplay is swallowed: the fields, the outcome and the release are
      the same as when it succeeds. */
  lemma DetachFailureIsSwallowed(v: View)
    ensures var ok := DetachFromSurface(v, true); var failed := DetachFromSurface(v, false);
      && ok.view == failed.view && ok.outcome == failed.outcome == Returned
      && |ok.effects| == |failed.effects|
      && forall i :: 0 <= i < |ok.effects| ==>
           if ok.effects[i].DetachCall?
           then failed.effects[i] == DetachCall(ok.effects[i].container, false)
           else failed.effects[i] == ok.effects[i]
  {
  }

  // Each handler keeps `Inv`.

  lemma AttachKeepsInv(v: View, log: seq<Effect>, texture: TextureId, densityDpi: int, attachOk: bool)
    requires Inv(v, log) && v.container.Some?
    ensures var r := AttachToSurface(v, texture, densityDpi, attachOk); Inv(r.view, log + r.effects)
  {
    var r := AttachToSurface(v, texture, densityDpi, attachOk);
    var s := v.surfacesMade;
    ReleasesOfConcat(log, r.effects);
    ReleasesOfConcat(r.effects[..2], r.effects[2..]);
    assert r.effects == r.effects[..2] + r.effects[2..];
    assert !Released(log, s);
    assert forall x: SurfaceId :: !Released(r.effects[..2], x);
  }

  /** detachFromSurface keeps `Inv`, releasing the held surface and no other. */
  lemma DetachKeepsInv(v: View, log: seq<Effect>, detachOk: bool)
    requires Inv(v, log)
    ensures var r := DetachFromSurface(v, detachOk);
      && Inv(r.view, log + r.effects)
      && forall x: SurfaceId :: ReleaseCount(log + r.effects, x)
                                == ReleaseCount(log, x) + (if v.surface == Some(x) then 1 else 0)
  {
    var r := DetachFromSurface(v, detachOk);
    ReleasesOfConcat(log, r.effects);
  }

  /** Effects that release nothing keep the invariant of an unchanged view. */
  lemma NoReleaseKeepsInv(v: View, log: seq<Effect>, extra: seq<Effect>)
    requires Inv(v, log)
    requires forall e :: e in extra ==> !e.ReleaseSurface?
    ensures Inv(v, log + extra)
  {
    ReleasesOfConcat(log, extra);
    assert forall x: SurfaceId :: !Released(extra, x);
  }
}
