# ActivityView attachment state machine, in Dafny

`android.app.ActivityView` embeds an activity that runs in a remote activity
container inside a local view. It keeps three things in step: the view's
attachment to a window, the `SurfaceTexture` of its `TextureView`, and a
remote `IActivityContainer` that must be created, attached to a `Surface`
wrapping that texture, and detached again. Five fields carry the state:
`mActivityContainer`, `mSurface`, `mAttached`, `mWidth` and `mHeight`.
Six handlers change them: `onAttachedToWindow`, `onDetachedFromWindow`,
`startActivity`, and the texture listener's `onSurfaceTextureAvailable`,
`onSurfaceTextureSizeChanged` and `onSurfaceTextureDestroyed`. Two private
helpers, `attachToSurface` and `detachFromSurface`, do most of the work.

The project has four modules:

- `Effects` (effects.dfy) defines the opaque tokens for containers, surfaces,
  textures and intents. It also defines the log of outward actions (`Effect`)
  and how a handler returned (`Outcome`). A `RemoteException` from a remote call
  is a `false` or `None` argument. An `IllegalStateException` thrown by the view
  is `Threw(...)`.
- `ActivityViewSpec` (spec.dfy) has one pure function per handler. Each maps
  the fields before the call to a `Step`: the fields after, the effects in
  order, and the outcome. `Inv` is the invariant of the fields together with
  the log. Lemmas show that attaching, detaching and handlers that release
  nothing keep `Inv`.
- `ActivityViewTraces` (traces.dfy) runs the handlers over any sequence of
  callbacks and proves that every handler keeps `Inv`. It also defines the
  order that the window system and the `TextureView` promise (`Follows`) and
  proves by induction what holds on every run and on every ordered run.
- `ActivityViews` (view.dfy) is the `ActivityView` class itself. Its fields are
  updated in place in the same order as in the Java code. Each method is proved
  to produce exactly the `Step` of the matching spec function, and to keep `Inv`.

Allocating a `Surface` is modelled by a counter `surfacesMade`, so each new
surface gets a number no earlier surface had. Releasing a surface appends
`ReleaseSurface(s)` to the log. "Released at most once" therefore means
`ReleaseCount(log, s) <= 1`.

The code behaves as follows, and the model follows the code:

- The texture-destroyed callback runs the whole detach procedure, so it also
  detaches and drops the container. A texture that becomes available later is
  not attached until the view is attached to a window again
  (`DestroyedTextureIsNotReattached`, `TextureReturnNeedsWindowReattach`). It is not
  re-attached to the existing container.
- `onSurfaceTextureSizeChanged` only logs. It does not update `mWidth` or `mHeight`.
- If creating the container fails, the fields are left as they were. The
  field is not cleared.
- `attachToSurface` creates a new `Surface` without releasing one the view
  already holds. With callbacks in the promised order this never happens: the
  view holds no surface whenever an attach starts. With out-of-order callbacks
  the earlier surface is leaked (`AvailableWhileAttachedOrphansSurface`,
  `DoubleAvailableLeaksFirstSurface`). "Every created surface is released
  exactly once" is therefore proved for ordered runs only
  (`EachSurfaceReleasedExactlyOnce`). "At most once" is proved for every run
  (`ReleasedAtMostOnce`).

## Model

| member | source | states |
|---|---|---|
| `ActivityViewSpec.AttachToSurface` | core/java/android/app/ActivityView.java:114-133 | Wraps the texture in a fresh Surface and issues an attach on the held container, using the recorded `mWidth`/`mHeight` and the given density. The view ends attached iff the remote attach succeeded. On success it holds the same container and the new surface. On failure the container and the surface are dropped, the new surface is released as the last effect, and the view throws `AttachFailed`. |
| `ActivityViewSpec.DetachFromSurface` | core/java/android/app/ActivityView.java:135-148 | Always ends with no container, no surface and not attached, whatever the start state, and never throws. It issues one effect per held handle and nothing else: a detachFromDisplay on the held container, first, then a release of the held surface, last. |
| `ActivityViewSpec.OnAttachedToWindow` | core/java/android/app/ActivityView.java:77-92 | Always issues the create call first. If creation fails, it throws `ContainerCreationFailed`, leaves every field unchanged and attempts no attach. On success with no texture, it only stores the container. On success with a texture, it creates a fresh surface, the next in number, wrapping that texture. It attaches the new container to it using the previously recorded size, which stays unchanged. If that attach succeeds, the view holds the new container and surface, is attached and returns normally. If it fails, the container and surface are dropped, the fresh surface is released as the last effect, and the view throws `AttachFailed`. |
| `ActivityViewSpec.OnDetachedFromWindow` | core/java/android/app/ActivityView.java:94-97 | Is exactly the detach procedure. |
| `ActivityViewSpec.StartActivity` | core/java/android/app/ActivityView.java:104-112 | Never changes the fields. Forwards the intent, as one start call on the held container, iff a container is held and the view is attached. Otherwise it issues nothing. It throws `StartActivityFailed` iff the call was forwarded and failed. |
| `ActivityViewSpec.OnSurfaceTextureAvailable` | core/java/android/app/ActivityView.java:151-159 | Always records the width and height. With no container it does nothing else and returns normally. With a container it creates a fresh surface, the next in number, wrapping the given texture. It attaches the container to that surface, using exactly the width and height just recorded. If the attach succeeds, the view keeps the container, holds the new surface, is attached and returns normally. If it fails, the container and surface are dropped, the fresh surface is released as the last effect, and the view throws `AttachFailed`. |
| `ActivityViewSpec.OnSurfaceTextureSizeChanged` | core/java/android/app/ActivityView.java:161-165 | Changes nothing, including the recorded size, and issues nothing. |
| `ActivityViewSpec.OnSurfaceTextureDestroyed` | core/java/android/app/ActivityView.java:167-172 | Runs the detach procedure and answers true. |
| `ActivityViewSpec.DetachIsIdempotent` | core/java/android/app/ActivityView.java:135-148 | A second detach leaves the fields as the first left them. It issues no second detachFromDisplay and no second release. |
| `ActivityViewSpec.DetachFailureIsSwallowed` | core/java/android/app/ActivityView.java:136-141 | A failing detachFromDisplay gives the same fields, the same normal return and the same release as a succeeding one. Only the recorded result of that call differs. |
| `ActivityViewSpec.AttachKeepsInv` | core/java/android/app/ActivityView.java:120-132 | attachToSurface keeps the invariant on both paths. The view holds a surface iff it is attached, and is attached only with a container. The held surface is unreleased. Only created surfaces are released, and none twice. |
| `ActivityViewSpec.DetachKeepsInv` | core/java/android/app/ActivityView.java:135-148 | detachFromSurface keeps the invariant. If a surface was held, it adds exactly one release, of that surface, which had not been released. It adds no release of any other surface. |
| `ActivityViewTraces.WindowAttachKeepsInv` | core/java/android/app/ActivityView.java:77-92 | onAttachedToWindow keeps the invariant, for every result of the create and attach calls. |
| `ActivityViewTraces.TextureAvailableKeepsInv` | core/java/android/app/ActivityView.java:151-159 | onSurfaceTextureAvailable keeps the invariant, for every result of the attach call. |
| `ActivityViewTraces.ApplyKeepsInv` | core/java/android/app/ActivityView.java:77-172 | Every handler keeps the invariant, for every result of every remote call. |
| `ActivityViewTraces.RunKeepsInv` | core/java/android/app/ActivityView.java:77-172 | Any sequence of callbacks, in any order, keeps the invariant. |
| `ActivityViewTraces.ReleasedAtMostOnce` | core/java/android/app/ActivityView.java:120-148 | Consider any run from a new view, whatever the order of callbacks and whatever the remote results. No surface is released twice, only surfaces the view created are released, and the view is attached only while holding both a container and a surface. |
| `ActivityViewTraces.StartOnlyWhenAttached` | core/java/android/app/ActivityView.java:104-112 | A start call is issued only by startActivity, with that intent, while the view is attached, and only to the container it holds. |
| `ActivityViewTraces.AttachKeepsCoupled` | core/java/android/app/ActivityView.java:115-133 | An attach entered with no surface held accounts for every created surface: each is released or held. If the attach succeeded, the held pair is the pair just attached. |
| `ActivityViewTraces.DetachKeepsCoupled` | core/java/android/app/ActivityView.java:135-148 | After a detach, every created surface has been released. |
| `ActivityViewTraces.ApplyKeepsCoupled` | core/java/android/app/ActivityView.java:77-172 | Consider one callback in the promised order. A view detached from its window holds no container. A held surface has a live texture. Every created surface is released or held. An attached view holds the pair of a successful attach. |
| `ActivityViewTraces.RunKeepsCoupled` | core/java/android/app/ActivityView.java:77-172 | Any ordered sequence of callbacks keeps the ordered-run invariant. |
| `ActivityViewTraces.EachSurfaceReleasedExactlyOnce` | core/java/android/app/ActivityView.java:115-172 | On every ordered run from a new view, each created surface is released exactly once, except the one still held, which is unreleased. Once the window is detached or the texture destroyed, every surface has been released exactly once. An attached view is attached through a successful attach of the container and surface it holds. |
| `ActivityViewTraces.AvailableWhileAttachedOrphansSurface` | core/java/android/app/ActivityView.java:120 | A texture-available callback while already attached leaves the earlier surface neither held nor released. |
| `ActivityViewTraces.DoubleAvailableLeaksFirstSurface` | core/java/android/app/ActivityView.java:152-159 | Take two texture-available callbacks with no destroy between them. That order does not follow the texture view's promise, and it leaks surface 0. |
| `ActivityViewTraces.DestroyedTextureIsNotReattached` | core/java/android/app/ActivityView.java:167-172 | After the texture-destroyed callback, a new texture-available callback issues nothing and the view stays unattached without a container. |
| `ActivityViewTraces.TextureReturnNeedsWindowReattach` | core/java/android/app/ActivityView.java:151-172 | In the ordered run window attach, available, destroyed, available, the view is attached after the second event. At the end it is not attached and holds no container, and the first surface was released once. |
| `ActivityViewTraces.FailedAttachResetsCleanly` | core/java/android/app/ActivityView.java:124-130 | In the run window attach, then texture available with a failing attach, the container and surface are dropped and the surface is released once. Exactly one handler throws, with `AttachFailed`. |
| `ActivityViews.ActivityView.constructor` | core/java/android/app/ActivityView.java:53-70 | A new view has no container and no surface, is not attached, has size 0 x 0 and an empty log, and satisfies the invariant. |
| `ActivityViews.ActivityView.OnAttachedToWindow` | core/java/android/app/ActivityView.java:77-92 | Updates the fields in place to exactly `ActivityViewSpec.OnAttachedToWindow` of the old fields, appends its effects to the log, returns its outcome and keeps the invariant. |
| `ActivityViews.ActivityView.OnDetachedFromWindow` | core/java/android/app/ActivityView.java:94-97 | Updates the fields and log as the detach procedure does and keeps the invariant. |
| `ActivityViews.ActivityView.IsAttachedToWindow` | core/java/android/app/ActivityView.java:99-102 | Returns `mAttached`. When true, a container and a surface are held. |
| `ActivityViews.ActivityView.StartActivity` | core/java/android/app/ActivityView.java:104-112 | Leaves the fields unchanged, logs the start call exactly when `ActivityViewSpec.StartActivity` does, and returns its outcome. |
| `ActivityViews.ActivityView.AttachToSurface` | core/java/android/app/ActivityView.java:114-133 | Creates the surface, calls attach and, on failure, clears the container, releases and clears the surface and clears `mAttached`, in that order. The result equals `ActivityViewSpec.AttachToSurface`, and the method keeps the invariant. |
| `ActivityViews.ActivityView.DetachFromSurface` | core/java/android/app/ActivityView.java:135-148 | Detaches and clears the container, then releases and clears the surface, then clears `mAttached`. The result equals `ActivityViewSpec.DetachFromSurface`, and the method keeps the invariant. |
| `ActivityViews.ActivityView.OnSurfaceTextureAvailable` | core/java/android/app/ActivityView.java:151-159 | Stores the size and attaches when a container is held. The result equals `ActivityViewSpec.OnSurfaceTextureAvailable`, and the method keeps the invariant. |
| `ActivityViews.ActivityView.OnSurfaceTextureSizeChanged` | core/java/android/app/ActivityView.java:161-165 | Leaves every field unchanged. |
| `ActivityViews.ActivityView.OnSurfaceTextureDestroyed` | core/java/android/app/ActivityView.java:167-172 | Runs the detach procedure in place, returns true and keeps the invariant. |

## Left out

- The constructor's walk up the `ContextWrapper` chain to find the owning
  `Activity`, and the `IllegalStateException` thrown when there is none. This
  is runtime type inspection of framework classes. The owning activity is
  taken as given.
- The activity token passed to `createActivityContainer`. The created handle,
  or its failure, is an argument.
- `onLayout`, `addView` and the `TextureView` itself. These are view layout
  plumbing. The texture that `getSurfaceTexture()` returns is an argument of
  `OnAttachedToWindow`.
- The `WindowManager`/`DisplayMetrics` lookup of the display density. The
  density is an opaque integer argument.
- The Binder mechanics behind `ActivityManagerNative` and
  `IActivityContainer`. Each remote call is a success or failure argument.
- The exception message texts. The attach failure reuses the creation
  failure's text; the model tells the two apart by `Failure` kind.
- The `Surface` and `SurfaceTexture` internals. A surface is a numbered
  token, and releasing it is an entry in the log.
- `Log.d` calls and `onSurfaceTextureUpdated`, which does nothing.
- Java's 32-bit `int` for width, height and density. The model uses
  unbounded integers, which is safe because these values are only stored and
  passed on, never computed with.
- Threading. Every handler runs on the UI thread, one at a time.
