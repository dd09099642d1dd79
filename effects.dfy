/** Handles, remote-call results and the log of outward actions of an ActivityView.

    The remote IActivityContainer proxy, the local Surface and the TextureView's
    SurfaceTexture are opaque to the view: it only stores, passes and releases them.
    They are modelled as tokens. Every call the view makes to the container, every
    Surface it creates and every Surface it releases is recorded as an Effect, so
    that ordering and "released at most once" can be stated over the log.
 */
module Effects {

  datatype Option<T> = None | Some(value: T)

  /** A remote activity container handle (IActivityContainer). */
  type ContainerId = nat

  /** A local Surface object; surfaces are numbered in order of creation. */
  type SurfaceId = nat

  /** The SurfaceTexture that a Surface wraps. */
  type TextureId = nat

  /** The Intent handed to startActivity; the view only forwards it. */
  type Intent = nat

  /** One outward action of the view, with the result of the call where it is a remote one
      (`succeeded == false` stands for a RemoteException). */
  datatype Effect =
    | CreateContainerCall(created: Option<ContainerId>)
    | NewSurface(surface: SurfaceId, texture: TextureId)
    | AttachCall(container: ContainerId, surface: SurfaceId, width: int, height: int,
                 densityDpi: int, succeeded: bool)
    | DetachCall(container: ContainerId, succeeded: bool)
    | ReleaseSurface(surface: SurfaceId)
    | StartCall(container: ContainerId, intent: Intent, succeeded: bool)

  /** The IllegalStateExceptions the view throws. */
  datatype Failure = ContainerCreationFailed | AttachFailed | StartActivityFailed

  /** How a handler returned: normally, or by throwing. */
  datatype Outcome = Returned | Threw(failure: Failure)

  /** Has surface `s` been released in `log`? */
  predicate Released(log: seq<Effect>, s: SurfaceId) {
    ReleaseSurface(s) in log
  }

  /** How many times surface `s` has been released in `log`. */
  function ReleaseCount(log: seq<Effect>, s: SurfaceId): nat {
    multiset(log)[ReleaseSurface(s)]
  }

  /** Does `log` hold a successful attach of container `c` to surface `s`? */
  ghost predicate AttachedVia(log: seq<Effect>, c: ContainerId, s: SurfaceId) {
    exists i :: 0 <= i < |log| && log[i].AttachCall? && log[i].container == c
                && log[i].surface == s && log[i].succeeded
  }

  /** Releases in a concatenated log are the releases of its two parts. */
  lemma ReleasesOfConcat(a: seq<Effect>, b: seq<Effect>)
    ensures forall s: SurfaceId :: ReleaseCount(a + b, s) == ReleaseCount(a, s) + ReleaseCount(b, s)
    ensures forall s: SurfaceId :: Released(a + b, s) <==> Released(a, s) || Released(b, s)
    ensures forall s: SurfaceId :: Released(a, s) <==> ReleaseCount(a, s) > 0
  {
  }
}
