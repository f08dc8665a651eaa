# neopixeld animation engine, modelled in Dafny

neopixeld drives an LED strip from animations posted over HTTP. This project
models its animation engine and proves that the model is correct against
specifications. The engine has three parts:

- **Animation** (`animation.dfy`, module `Animations`) is the per-animation
  state machine. Its state is the list of pixels it still owns
  (`activePixels`), a `running` flag, a frame cursor, a pending timer and the
  log of the events it emitted ("render", "done"). It draws into the shared
  colour buffer.
  - Each method is first written as a pure transition on an `AnimState`
    value plus the buffer contents (`StepStart`, `StepRenderNextFrame`,
    `StepDisablePixel`, `StepAbort`, `StepTimer`).
  - The class `Animation` performs these transitions in place on its
    fields and the buffer `array`, and is proved to agree with them.
  - The manager module carries a verbatim copy of this class, which is the
    one the manager uses. It is modelled once.
- **AnimationManager** (`manager.dfy`, module `Managers`) owns the shared
  buffer and the list of tracked animations. `startAnimation`:
  - first calls `disablePixel` on every tracked animation for every pixel
    of the new model;
  - then appends the new animation, forwards each of its "render" events
    as a manager "render" carrying the buffer itself, removes it from the
    list on "done", and starts it.

  The handlers run synchronously, inside the emit. The model runs them
  (`Dispatch`) right after the animation call that emitted the events
  returns, replaying the events in the order they were emitted. For the
  list this is the same outcome: the "render" handler touches neither the
  list nor the animation, and the "done" handler only removes the
  animation from the list, which no animation code reads. An animation
  does keep running after an emit, though: `start()` emits "render" and
  then plays the first frame (lib/Animation.js:65-69), so the program's
  first "render" carries the zeroed pixels. The model records which buffer
  each "render" carries, not its contents at that moment.
- **Api.handleAnimate** (`requests.dfy`, module `Requests`) validates a
  decoded request, frame by frame and property by property. It returns the
  message of the first failing check, or announces the animation model it
  built and returns the empty string.

`common.dfy` holds the array operations the code relies on: `indexOf`,
`splice(i, 1)` and the "push unless present" idiom. `models.dfy` holds the
animation model.

**The pre-emption loop.** The inner `for…of` over `this.animations` runs
while the "done" handler splices the very same array. The model iterates by
position over a list that shrinks, as the code does:

- with the value model `Preempt` (a `Preemption` is the animations' states
  plus the positions still listed);
- with the methods `PreemptOne`, `PreemptPixel` and `PreemptPixels` on the
  heap, proved to agree with it.

When an animation terminates during pre-emption, the element after it is
never visited for that pixel. `PreemptionSkipsAfterTermination` proves
this on one example: A owns pixel 0, B owns pixels 0 and 1, and
pre-empting pixel 0 aborts A and leaves B holding pixel 0. When every
animation keeps a pixel outside the new model's, no animation terminates.
Then none of them keeps any of the new pixels (`PreemptionExclusive`).

**Behaviour of the code that a reader may not expect:**

- `start()` emits "render" once the involved pixels are zeroed, before
  playing the first frame, and that frame emits another. A non-repeating
  animation with k frames therefore emits k + 1 renders, one per frame
  plus the one for the reset (`NonRepeatingLifecycle`, `FreshStart`).
- `start()` checks only `running`; there is no separate "done" state. The
  comment at lib/Animation.js:62 ("For the first time, reset the involved
  pixels") suggests one start per animation, but an aborted animation can
  be started again, and it resets its pixels again
  (`StartAfterAbortRestarts`).
- A repeating model with no frames does not terminate immediately. Its
  playback computes `0 % 0` and then reads a frame that does not exist. The
  model makes such models a precondition (`Playable`). The validator still
  accepts them (`EmptyRepeatingRequestAccepted`).
- Pre-emption does not guarantee exclusive ownership (see above).

## Model

| member | source | states |
|---|---|---|
| Common.IndexOf | lib/Animation.js:27 | the first position of the element, or -1 exactly when it is absent; nothing before that position equals it |
| Common.RemoveAt | lib/Animation.js:28-29 | `splice(i, 1)`: one element shorter, the elements before `i` kept, those after it shifted down by one |
| Common.RemoveFirstIsWithout | lib/Animation.js:27-29 | on a duplicate-free list, `indexOf` followed by `splice` removes every occurrence and keeps the rest in order |
| Common.Dedup | lib/Api.js:67-69 | the "push unless present" result has no duplicates and the same members as its input |
| Common.DedupFirstOccurrenceOrder | lib/Api.js:67-69 | the result lists the elements in the order of their first occurrence |
| Common.NatToString | lib/Api.js:41 | the decimal text of an index: digits only, no leading zero, and the number they denote is the index |
| Common.IntToString | lib/Api.js:60 | the decimal text of a key: a leading minus sign exactly when it is negative, then digits denoting its magnitude |
| Common.AnyElement | lib/Animation.js:91 | some key of a non-empty key set, the one iterated next |
| Animations.Stored | lib/Animation.js:94 | what a `Uint32Array` slot holds after an assignment: the value modulo 2^32, the value itself when it is in range |
| Animations.StepAbort | lib/Animation.js:46-53 | on a running animation: stops it, clears the timer and emits exactly one "done"; on a stopped one: changes nothing |
| Animations.AbortIdempotent | lib/Animation.js:46-53 | a second `abort()` changes nothing |
| Animations.StepDisablePixel | lib/Animation.js:26-32 | only removes pixels and keeps the cursor; a running animation left with no pixels stops with one "done"; otherwise running, timer and events are unchanged |
| Animations.DisablePixelRemovesExactly | lib/Animation.js:26-29 | on duplicate-free pixels it removes exactly `p` and keeps the others in their order |
| Animations.DisablePixelIdempotent | lib/Animation.js:26-32 | a second `disablePixel(p)` changes nothing |
| Animations.DisablePixelKeepsWithinInvolved | lib/Animation.js:15 | the active pixels stay a subset of the model's involved pixels |
| Animations.DisablePixelKeepsOwns | lib/Animation.js:26-32 | `disablePixel` keeps the active pixels listed once each and among the involved pixels |
| Animations.InitOwns | lib/Animation.js:15 | a new animation on a validated model owns its involved pixels, each once |
| Animations.OwnedPixelsInRange | lib/Animation.js:91-95 | on a validated model, every pixel an animation owns is a slot of the strip |
| Animations.ZeroPixels | lib/Animation.js:63-64 | a slot is zero if it is an active pixel and unchanged otherwise |
| Animations.DrawFrame | lib/Animation.js:91-95 | a slot takes the frame's stored colour if the frame sets it and it is active, and is unchanged otherwise |
| Animations.StepRenderNextFrame | lib/Animation.js:76-105 | a no-op when stopped; past the last frame of a non-repeating model it aborts without writing or rendering; otherwise it draws exactly the active pixels of the frame at `next % len`, emits one "render", moves the cursor to `next % len + 1` in `[1, len]` and arms the timer with the frame's duration |
| Animations.StepStart | lib/Animation.js:58-70 | a no-op while running; otherwise it zeroes the active pixels and leaves the other slots, then plays the first frame with two "render"s in all, or emits "render" then "done" when there is no frame to play |
| Animations.StepTimer | lib/Animation.js:101-104 | the timer is spent, and the next frame is rendered only if the animation is still running |
| Animations.StaleTimerIsHarmless | lib/Animation.js:101-104 | any number of firings after the animation stopped change neither the buffer, nor the pixels, nor the events |
| Animations.TimerEmitsOne | lib/Animation.js:76-105 | a firing on a running animation emits exactly one event: "render" when it keeps running, "done" when it stopped |
| Animations.FreshStart | lib/Animation.js:58-70 | a new animation owns its involved pixels; with frames it runs at cursor 1 after two "render"s; without frames it has emitted "render", "done" and stopped; "done" is emitted exactly when it stopped |
| Animations.StartAfterAbortRestarts | lib/Animation.js:58-60 | an aborted animation that is started again runs and emits "render" twice after its "done" |
| Animations.NonRepeatingLifecycle | lib/Animation.js:58-105 | with k frames and no pre-emption: after n < k firings it runs at cursor n + 1 with n + 2 "render"s; after k firings it has stopped with k + 1 "render"s and then one "done" |
| Animations.NonRepeatingRun | lib/Animation.js:76-105 | from a running state at cursor 1 after two "render"s, a non-repeating model advances one frame and one "render" per firing, and the firing after the last frame stops it with one "done" |
| Animations.PlaysNextFrame | lib/Animation.js:87-98 | a firing with the cursor at a frame plays it: the animation keeps running and the cursor advances by one |
| Animations.PlaysPastLastFrame | lib/Animation.js:81-84 | a firing with the cursor past the last frame of a non-repeating model stops it with one "done" |
| Animations.RepeatingNeverStops | lib/Animation.js:81-88 | a repeating model with frames is still running after any number of firings, with the cursor in `[1, len]` and no "done" |
| Animations.RepeatingRun | lib/Animation.js:81-105 | from a running state with the cursor in `[1, len]` after two "render"s, each firing of a repeating model adds one "render", keeps it running with the cursor in `[1, len]`, and never emits "done" |
| Animations.RepeatingStep | lib/Animation.js:86-98 | one more firing of a repeating model that is running after two plus n - 1 "render"s keeps it running, with one "render" more and the cursor wrapped into `[1, len]` |
| Animations.ValidatedFrameWritesExactly | lib/Animation.js:91-95 | for a validated model, every active pixel of the frame lies inside the buffer and receives exactly the frame's colour |
| Animations.Animation.constructor | lib/Animation.js:8-18 | the active pixels are the involved pixels, not running, cursor 0, no timer, no events |
| Animations.Animation.DisablePixel | lib/Animation.js:26-32 | the new state is `StepDisablePixel` of the old one |
| Animations.Animation.IsPixelActive | lib/Animation.js:39-41 | true exactly when the pixel is active |
| Animations.Animation.Abort | lib/Animation.js:46-53 | the new state is `StepAbort` of the old one |
| Animations.Animation.Start | lib/Animation.js:58-70 | the new state and buffer are `StepStart` of the old ones |
| Animations.Animation.RenderNextFrame | lib/Animation.js:76-105 | the new state and buffer are `StepRenderNextFrame` of the old ones |
| Animations.Animation.PlayFrame | lib/Animation.js:86-104 | the cursor wraps modulo the number of frames and moves past the frame it selects; the frame is drawn, one "render" is emitted and the timer is armed with its duration |
| Animations.Animation.Draw | lib/Animation.js:91-95 | the new buffer is `DrawFrame` of the old one |
| Animations.Animation.TimerFired | lib/Animation.js:101-104 | the new state and buffer are `StepTimer` of the old ones |
| Managers.PreemptStep | lib/AnimationManager.js:14-15 | one `disablePixel` on the element at position `j`; the list only loses elements and keeps their order |
| Managers.PreemptPin | lib/AnimationManager.js:14-15 | the inner loop for one pixel; the list only loses elements and keeps their order |
| Managers.PreemptAll | lib/AnimationManager.js:13-15 | the outer loop over the pixels; the list only loses elements and keeps their order |
| Managers.Preempt | lib/AnimationManager.js:13-15 | pre-emption over the whole list, keeping it in order |
| Managers.PreemptStepKeepsLiveRunning | lib/AnimationManager.js:25-29 | an element stays listed only while it is running |
| Managers.PreemptKeepsOwns | lib/AnimationManager.js:13-15 | pre-emption keeps every animation's active pixels listed once each and among its model's involved pixels |
| Managers.StepSpares | lib/Animation.js:26-32 | `disablePixel` on an animation that keeps another pixel only removes that pixel |
| Managers.PinSparesAll | lib/AnimationManager.js:14-15 | when no visited animation is left without pixels, the inner loop removes none and visits each one |
| Managers.AllSpared | lib/AnimationManager.js:13-15 | when every animation keeps a pixel outside the new ones, the loops remove none and filter the new pixels out of each |
| Managers.PreemptionExclusive | lib/AnimationManager.js:12-15 | if every tracked animation keeps a pixel outside the new model's: none is removed, each loses exactly the new pixels with the rest of its state unchanged, and none keeps any new pixel |
| Managers.PreemptionSkipsAfterTermination | lib/AnimationManager.js:13-29 | A on {0} and B on {0, 1}, pre-empting 0: A is aborted and spliced out, B is never visited and keeps pixel 0 |
| Managers.Reap | lib/AnimationManager.js:25-29 | the "done" handler removes the animation if it is listed, one element fewer; otherwise nothing changes |
| Managers.ReapIsWithout | lib/AnimationManager.js:25-29 | on a duplicate-free list the handler's `indexOf` and `splice` equals the filter that drops the animation and keeps every other one in its order |
| Managers.ReapRemoves | lib/AnimationManager.js:25-29 | on a duplicate-free list the animation is no longer listed and the list stays duplicate-free |
| Managers.ReapIdempotent | lib/AnimationManager.js:25-29 | a second "done" changes nothing |
| Managers.ReapAppended | lib/AnimationManager.js:18-29 | removing the animation just appended gives back the list before the append |
| Managers.ReapedSnoc | lib/AnimationManager.js:21-29 | one more event keeps the list, or removes the animation when it is "done"; a second "done" changes nothing |
| Managers.Forwarded | lib/AnimationManager.js:22 | every forwarded "render" carries the shared buffer itself |
| Managers.ForwardedCount | lib/AnimationManager.js:22 | the manager emits exactly as many "render"s as the animation's events contain |
| Managers.AnimationManager.constructor | lib/AnimationManager.js:4-9 | a buffer of `numPixels` zeros, no animations, nothing emitted |
| Managers.AnimationManager.Dispatch | lib/AnimationManager.js:21-29 | the manager emits one "render" with the buffer per "render" of the animation, and a "done" removes it from the list |
| Managers.AnimationManager.PreemptOne | lib/AnimationManager.js:14-15 | one inner iteration performs `PreemptStep` on the heap |
| Managers.AnimationManager.PreemptPixel | lib/AnimationManager.js:14-15 | the inner loop performs `PreemptPin`, by position over the list the handler splices |
| Managers.AnimationManager.PreemptPixels | lib/AnimationManager.js:13-15 | the outer loop performs `PreemptAll` |
| Managers.AnimationManager.PreemptModel | lib/AnimationManager.js:13-15 | the tracked animations end in the states `Preempt` gives for their old states; the list is the survivors in order; the manager invariant (each survivor runs, plays a validated model and owns its pixels) holds and nothing is emitted |
| Managers.AnimationManager.Enlist | lib/AnimationManager.js:18-32 | a fresh animation on the shared buffer is appended and started from its initial state; if it still runs it owns exactly its model's involved pixels |
| Managers.AnimationManager.Settle | lib/AnimationManager.js:21-32 | the handlers forward what `start()` emitted, and a "done" takes the new animation off again |
| Managers.AnimationManager.Launch | lib/AnimationManager.js:18-32 | the new animation is listed at the end exactly when it is still running, its state is `StepStart` of its initial state, and each of its "render"s is forwarded |
| Managers.AnimationManager.StartAnimation | lib/AnimationManager.js:11-33 | for a model validated for this strip, every old animation first goes through `Preempt`, and then the new one starts. The list is the survivors in their old order, plus the new animation if it still runs. Every listed animation runs, plays a validated model and owns its pixels. Each of the new animation's "render"s is forwarded once, with the buffer itself |
| Managers.AnimationManager.FireTimer | lib/AnimationManager.js:109-112 | a tracked animation's timer performs `StepTimer`. The manager forwards one "render" if the animation still runs, and otherwise removes it. Every listed animation still runs and owns its pixels |
| Managers.AnimationManager.TrackedDrawsInside | lib/AnimationManager.js:11-33 | every pixel a tracked animation owns is a slot of the shared buffer, so its drawing stays inside the strip |
| Managers.AnimationManager.TrackedFrameWritesExactly | lib/Animation.js:91-95 | a frame a tracked animation plays writes exactly its colours at the pixels the animation still owns, all inside the buffer |
| Requests.Message | lib/Api.js:29-64 | the text of each rejection, never empty, so that it is told apart from the success value "" |
| Requests.FirstFailure | lib/Api.js:36-71 | no failure exactly when every check passed; otherwise a failure preceded only by passes |
| Requests.FirstFailureAt | lib/Api.js:36-71 | a failure preceded only by passes is the one reported |
| Requests.EntryError | lib/Api.js:59-64 | an entry passes exactly when its index is in `[0, numPixels)` and its colour in `[0, 0xFFFFFF]` |
| Requests.EntryCheckOrder | lib/Api.js:59-64 | a negative index gets "Bad pixel ID … must be a non-negative integer", else an index past the strip gets "does not exist", else a bad colour gets "Bad pixel color"; the index checks come first |
| Requests.FrameError | lib/Api.js:40-64 | a frame passes exactly when it is an object with a non-negative duration and an object of valid entries; any rejection names the frame |
| Requests.FrameCheckOrder | lib/Api.js:40-53 | a frame of the wrong shape gets the rejection of the first shape check it fails: not an object, missing duration, negative duration, missing pixels, pixels not an object |
| Requests.DurationCheckedFirst | lib/Api.js:44-53 | a missing or negative duration decides the rejection whatever the pixels are |
| Requests.FirstBadEntryDecides | lib/Api.js:56-64 | in a frame of the right shape, the first failing entry decides the rejection |
| Requests.BuildPixels | lib/Api.js:65 | the map has exactly the indices of the entries |
| Requests.BuildPixelsFromEntries | lib/Api.js:65 | every index-to-colour pair in the map comes from an entry |
| Requests.BuildPixelsLastWins | lib/Api.js:65 | the last entry for an index decides its colour |
| Requests.AllKeys | lib/Api.js:56-70 | an index is listed exactly when some frame mentions it |
| Requests.BuildFrames | lib/Api.js:36-38 | one model frame per input frame, in order |
| Requests.Validate | lib/Api.js:28-75 | a request is accepted exactly when it is an array whose frames all pass; the accepted model has the route's repeat flag and one frame per input frame |
| Requests.ValidateRejects | lib/Api.js:28-71 | rejection happens exactly for a non-array or a request with a frame that does not pass; a non-array gets "POST data must be an array…"; the rejection is that of a frame all of whose predecessors pass |
| Requests.RejectsFirstBadFrame | lib/Api.js:36-64 | the first failing frame, in input order, decides the rejection |
| Requests.AcceptsAll | lib/Api.js:36-74 | a request whose frames all pass yields the model of those frames |
| Requests.ValidateBuilds | lib/Api.js:36-70 | the accepted model is well formed for the strip. It has as many frames as the input, each with the input's duration and the map of its entries. Its involved pixels are those of all frames, without repetitions |
| Requests.ValidatedInvolved | lib/Api.js:67-69 | the involved pixels are exactly the pixels some frame sets |
| Requests.InvolvedInFirstSeenOrder | lib/Api.js:67-69 | the involved pixels are listed in the order of their first occurrence |
| Requests.EmptyRepeatingRequestAccepted | lib/Api.js:32-36 | an empty array on the repeating route is accepted, and its model cannot be played |
| Requests.Api.constructor | lib/Api.js:7-9 | the strip size is kept, nothing announced |
| Requests.Api.HandleAnimate | lib/Api.js:28-75 | on success it returns "" and announces exactly the validated model once; on rejection it returns the message of the first failing check and announces nothing |
| Requests.Api.ReadFrames | lib/Api.js:36-71 | the loop over the frames reports the first failure, or the frames and involved pixels of the whole request |
| Requests.Api.ReadFrame | lib/Api.js:37-70 | the checks of one frame give exactly `FrameError`, whose order `FrameCheckOrder` and `FirstBadEntryDecides` state, and on success the frame it reads and the involved pixels extended by its keys |
| Requests.Api.ReadPixels | lib/Api.js:56-70 | the loop over the entries reports the first failing entry, or their pixel map and the involved pixels extended in first-seen order |
| Requests.Api.CheckEntry | lib/Api.js:59-64 | the three entry checks, passing exactly for an index in range and a 24-bit colour |

## Left out

- Timers: `setTimeout` and `clearTimeout` are not modelled. A pending
  timeout is the value `Pending(duration)`. Its firing is the explicit call
  `TimerFired` (or `FireTimer` on the manager), which renders only while
  the animation is running.
- Durations are non-negative integers rather than floating-point numbers;
  they are only stored and handed to the timer.
- `EventEmitter` is not modelled. Each animation keeps the log of events it
  emitted, and the manager keeps the list of buffers it emitted with
  "render". Each animation has exactly the manager's two handlers.
- HTTP plumbing (`handleHttp`, `processPostRequest`, `listen`, the body size
  limit, status codes) and `app.js` (the strip driver, signal handling):
  network, hardware and process I/O. The scope here is what happens to a
  decoded request.
- `JSON.parse`, `parseInt` and `parseFloat`: these are foreign calls. The
  request arrives decoded, with integer pixel indices, colours and
  durations, so the `=== NaN` tests (which never hold) have nothing to
  reject. The model does not claim that NaN is rejected.
- The contents of the buffer at the moment of each forwarded "render" are
  not recorded. `published` holds the buffer reference each "render"
  carries, and the physical strip (app.js:24) is not part of this model.
- A `null` frame or `null` pixels: `typeof null` is "object", so the checks
  let it through, and then `hasOwnProperty` on a `null` frame or
  `Object.keys(null)` on `null` pixels (lib/Api.js:56) throws. The request
  datatype has no null.
- MAnimation.js and MAnimationFrame.js are not part of this model. Their
  fields (frames, repeat, involved pixels, duration, pixels) are inferred
  from their use.
- A repeating model with no frames makes playback throw. `Start`,
  `RenderNextFrame`, `TimerFired`, `StartAnimation` and `FireTimer`
  require `Playable(model)` instead of modelling the exception.
- Managers.AnimationManager.StartAnimation: also requires
  `WellFormed(model, numPixels)`. Its only caller is the API's "animation"
  event (app.js:25), and `ValidateBuilds` shows that every model the
  validator announces for the strip is well formed.
- Requests.Message: an offending pixel key is printed from the parsed
  integer. The code prints the key text as written, which differs for keys
  like "07" or "1.5".
- Requests.BuildPixels: entries are taken in the order `Object.keys` gives
  them, and their keys are the indices `parseInt` makes of them
  (lib/Api.js:57). Distinct keys such as "1", "01" and "1.5" all become
  index 1, and the last one assigned wins (line 65, `BuildPixelsLastWins`).
  The model does not reproduce the order `Object.keys` lists keys in.
- Managers.AnimationManager.StartAnimation: the new animation is a ghost
  out-value, because the code returns nothing. Its contract speaks of it
  only to describe the new state.
