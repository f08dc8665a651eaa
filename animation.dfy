/** One animation's playback state machine (lib/Animation.js, and the copy of
    the same class inside lib/AnimationManager.js, which is the one the manager
    uses). The transitions are first stated as functions on an `AnimState`
    value plus the shared colour buffer (`Playback`); the class `Animation`
    performs them in place and is proved to agree with them. */
module Animations {
  import opened Common
  import opened Models

  /** What an animation emits: "render" after it changed the shared buffer and
      "done" when it stops. */
  datatype AnimEvent = Render | Done

  /** The frame timer: a scheduled callback with its delay, or none. */
  datatype Timer = Idle | Pending(delay: nat)

  /** Everything of an animation that changes: the pixels it may still draw,
      the running flag, the frame cursor, the pending timer and the events it
      has emitted so far, oldest first. */
  datatype AnimState = AnimState(active: seq<int>, running: bool, next: nat, timer: Timer, events: seq<AnimEvent>)

  /** An animation's state together with the contents of the shared buffer. */
  datatype Playback = Playback(state: AnimState, buffer: seq<int>)

  /** The state of a newly constructed animation. */
  function Init(m: AnimationModel): AnimState {
    AnimState(m.involvedPixels, false, 0, Idle, [])
  }

  const Uint32Modulus: int := 0x1_0000_0000

  /** The value a `Uint32Array` slot holds after an integer is assigned to it. */
  function Stored(c: int): (r: int)
    ensures 0 <= r < Uint32Modulus
    ensures 0 <= c < Uint32Modulus ==> r == c
  {
    c % Uint32Modulus
  }

  /** `n` render events in a row. */
  function Renders(n: nat): seq<AnimEvent> {
    if n == 0 then [] else Renders(n - 1) + [Render]
  }

  /** `abort()`: only acts while running; then stops, cancels the timer and
      emits one "done". It never touches the buffer or the pixels. */
  function StepAbort(s: AnimState): (r: AnimState)
    ensures !r.running && r.active == s.active && r.next == s.next
    ensures s.running ==> r.timer == Idle && r.events == s.events + [Done]
    ensures !s.running ==> r == s
  {
    if s.running then s.(running := false, timer := Idle, events := s.events + [Done]) else s
  }

  /** `disablePixel(p)`: drop the first occurrence of `p` from the active
      pixels; when none are left, abort. */
  function StepDisablePixel(s: AnimState, p: int): (r: AnimState)
    ensures forall q :: q in r.active ==> q in s.active
    ensures r.next == s.next
    ensures |r.active| == 0 && s.running ==> !r.running && r.timer == Idle && r.events == s.events + [Done]
    ensures |r.active| > 0 || !s.running ==> r.running == s.running && r.timer == s.timer && r.events == s.events
  {
    var i := IndexOf(s.active, p);
    var active := if i >= 0 then RemoveAt(s.active, i) else s.active;
    if |active| == 0 then StepAbort(s.(active := active)) else s.(active := active)
  }

  /** The buffer after `start()` zeroes the given pixels; indices outside the
      buffer are ignored, as a typed array ignores them. */
  function ZeroPixels(buf: seq<int>, pixels: seq<int>): (r: seq<int>)
    ensures |r| == |buf|
    ensures forall i :: 0 <= i < |buf| ==> r[i] == if i in pixels then 0 else buf[i]
  {
    seq(|buf|, i requires 0 <= i < |buf| => if i in pixels then 0 else buf[i])
  }

  /** The buffer after a frame is drawn: each pixel of the frame that is still
      active gets the frame's colour, every other slot keeps its value. */
  function DrawFrame(buf: seq<int>, pixels: map<int, int>, active: seq<int>): (r: seq<int>)
    ensures |r| == |buf|
    ensures forall i :: 0 <= i < |buf| ==> r[i] == if i in pixels && i in active then Stored(pixels[i]) else buf[i]
  {
    seq(|buf|, i requires 0 <= i < |buf| => if i in pixels && i in active then Stored(pixels[i]) else buf[i])
  }

  /** Whether `renderNextFrame()` on a running animation plays a frame (rather
      than aborting at the end of a non-repeating model). */
  predicate PlaysFrame(m: AnimationModel, s: AnimState) {
    s.next < |m.frames| || m.repeat
  }

  /** The frame `renderNextFrame()` plays next: the cursor wrapped modulo the
      number of frames. */
  function NextFrame(m: AnimationModel, s: AnimState): Frame
    requires Playable(m) && PlaysFrame(m, s)
  {
    m.frames[s.next % |m.frames|]
  }

  /** `renderNextFrame()`. */
  function StepRenderNextFrame(m: AnimationModel, pb: Playback): (r: Playback)
    requires Playable(m)
    ensures |r.buffer| == |pb.buffer| && r.state.active == pb.state.active
    ensures !pb.state.running ==> r == pb
    ensures pb.state.running && !PlaysFrame(m, pb.state) ==>
              r.state == StepAbort(pb.state) && r.buffer == pb.buffer
    ensures pb.state.running && PlaysFrame(m, pb.state) ==>
              var f := NextFrame(m, pb.state);
              && r.state.running
              && 1 <= r.state.next <= |m.frames|
              && r.state.next == pb.state.next % |m.frames| + 1
              && r.state.events == pb.state.events + [Render]
              && r.state.timer == Pending(f.duration)
              && (forall i :: 0 <= i < |pb.buffer| && i in f.pixels && i in pb.state.active ==>
                    r.buffer[i] == Stored(f.pixels[i]))
              && (forall i :: 0 <= i < |pb.buffer| && !(i in f.pixels && i in pb.state.active) ==>
                    r.buffer[i] == pb.buffer[i])
  {
    var s := pb.state;
    if !s.running then pb
    else if !PlaysFrame(m, s) then Playback(StepAbort(s), pb.buffer)
    else
      var index := s.next % |m.frames|;
      var f := m.frames[index];
      Playback(s.(next := index + 1, timer := Pending(f.duration), events := s.events + [Render]),
               DrawFrame(pb.buffer, f.pixels, s.active))
  }

  /** `start()`: a no-op while running; otherwise zero the active pixels, emit
      "render", set running and play the first frame. */
  function StepStart(m: AnimationModel, pb: Playback): (r: Playback)
    requires Playable(m)
    ensures pb.state.running ==> r == pb
    ensures !pb.state.running ==>
              && |r.buffer| == |pb.buffer| && r.state.active == pb.state.active
              && (forall i :: 0 <= i < |pb.buffer| && i !in pb.state.active ==> r.buffer[i] == pb.buffer[i])
    ensures !pb.state.running && PlaysFrame(m, pb.state) ==>
              var f := NextFrame(m, pb.state);
              && r.state.running
              && r.state.events == pb.state.events + [Render, Render]
              && (forall i :: 0 <= i < |pb.buffer| && i in pb.state.active ==>
                    r.buffer[i] == if i in f.pixels then Stored(f.pixels[i]) else 0)
    ensures !pb.state.running && !PlaysFrame(m, pb.state) ==>
              && !r.state.running
              && r.state.events == pb.state.events + [Render, Done]
              && (forall i :: 0 <= i < |pb.buffer| && i in pb.state.active ==> r.buffer[i] == 0)
  {
    var s := pb.state;
    if s.running then pb
    else
      var zeroed := Playback(s.(running := true, events := s.events + [Render]), ZeroPixels(pb.buffer, s.active));
      assert zeroed.state.events + [Render] == s.events + [Render, Render];
      assert zeroed.state.events + [Done] == s.events + [Render, Done];
      StepRenderNextFrame(m, zeroed)
  }

  /** The timer callback: the timer is spent, and the next frame is rendered
      only if the animation is still running. */
  function StepTimer(m: AnimationModel, pb: Playback): (r: Playback)
    requires Playable(m)
    ensures !pb.state.running ==> r == Playback(pb.state.(timer := Idle), pb.buffer)
    ensures pb.state.running ==> r == StepRenderNextFrame(m, Playback(pb.state.(timer := Idle), pb.buffer))
  {
    var spent := Playback(pb.state.(timer := Idle), pb.buffer);
    if spent.state.running then StepRenderNextFrame(m, spent) else spent
  }

  /** `n` timer firings in a row. */
  function Fires(m: AnimationModel, pb: Playback, n: nat): Playback
    requires Playable(m)
  {
    if n == 0 then pb else StepTimer(m, Fires(m, pb, n - 1))
  }

  // ---------------------------------------------------------------------------
  // Properties of the transitions

  /** On duplicate-free active pixels, `disablePixel(p)` removes exactly `p`,
      keeping the other pixels in their order. */
  lemma DisablePixelRemovesExactly(s: AnimState, p: int)
    requires NoDuplicates(s.active)
    ensures StepDisablePixel(s, p).active == Without(s.active, p)
    ensures NoDuplicates(StepDisablePixel(s, p).active)
  {
    if p in s.active {
      RemoveFirstIsWithout(s.active, p);
      RemoveAtPreservesNoDuplicates(s.active, IndexOf(s.active, p));
    } else {
      WithoutAbsent(s.active, p);
    }
  }

  /** Calling `disablePixel(p)` twice has the effect of calling it once. */
  lemma DisablePixelIdempotent(s: AnimState, p: int)
    requires NoDuplicates(s.active)
    ensures StepDisablePixel(StepDisablePixel(s, p), p) == StepDisablePixel(s, p)
  {
    DisablePixelRemovesExactly(s, p);
    var r := StepDisablePixel(s, p);
    assert p !in r.active;
  }

  /** Calling `abort()` twice has the effect of calling it once. */
  lemma AbortIdempotent(s: AnimState)
    ensures StepAbort(StepAbort(s)) == StepAbort(s)
  {
  }

  /** `start()` checks only `running`: an animation that was aborted starts
      again, emitting "render" after its "done". */
  lemma StartAfterAbortRestarts(m: AnimationModel, pb: Playback)
    requires Playable(m) && pb.state.running && PlaysFrame(m, pb.state)
    ensures var r := StepStart(m, Playback(StepAbort(pb.state), pb.buffer));
      r.state.running && r.state.events == pb.state.events + [Done, Render, Render]
  {
    assert PlaysFrame(m, StepAbort(pb.state));
  }

  /** A timer that fires after the animation stopped changes neither the
      buffer nor any pixel, events or cursor. */
  lemma StaleTimerIsHarmless(m: AnimationModel, pb: Playback, n: nat)
    requires Playable(m) && !pb.state.running
    ensures Fires(m, pb, n).buffer == pb.buffer
    ensures Fires(m, pb, n).state.events == pb.state.events
    ensures Fires(m, pb, n).state.active == pb.state.active && !Fires(m, pb, n).state.running
  {
    if n > 0 { StaleTimerIsHarmless(m, pb, n - 1); }
  }

  /** A non-repeating animation with k frames, never pre-empted, emits one
      "render" from `start()` and one per frame (k + 1 in all), runs through
      the first k - 1 timer firings and stops with "done" at the k-th. */
  lemma NonRepeatingLifecycle(m: AnimationModel, buf: seq<int>, n: nat)
    requires !m.repeat && n <= |m.frames|
    ensures var r := Fires(m, StepStart(m, Playback(Init(m), buf)), n);
            && (n < |m.frames| ==> r.state.running && r.state.next == n + 1 && r.state.events == Renders(n + 2))
            && (n == |m.frames| ==> !r.state.running && r.state.events == Renders(n + 1) + [Done])
  {
    FreshStart(m, buf);
    if |m.frames| > 0 {
      NonRepeatingRun(m, StepStart(m, Playback(Init(m), buf)), n);
    }
  }

  /** The timer firings after a successful `start()` of a non-repeating
      animation. */
  lemma {:induction false} NonRepeatingRun(m: AnimationModel, start: Playback, n: nat)
    requires !m.repeat && 0 < |m.frames| && n <= |m.frames|
    requires start.state.running && start.state.next == 1 && start.state.events == Renders(2)
    ensures var r := Fires(m, start, n);
            && (n < |m.frames| ==> r.state.running && r.state.next == n + 1 && r.state.events == Renders(n + 2))
            && (n == |m.frames| ==> !r.state.running && r.state.events == Renders(n + 1) + [Done])
  {
    if n > 0 {
      var pb := Fires(m, start, n - 1);
      assert Fires(m, start, n) == StepTimer(m, pb);
      NonRepeatingRun(m, start, n - 1);
      NonRepeatingFire(m, pb, n);
    }
  }

  /** `start()` on a new animation emits "render" twice and runs, or, when
      the model has no frame to play, emits "render" then "done" and stops. */
  lemma FreshStart(m: AnimationModel, buf: seq<int>)
    requires Playable(m)
    ensures var r := StepStart(m, Playback(Init(m), buf));
            && r.state.active == m.involvedPixels
            && (|m.frames| > 0 ==> r.state.running && r.state.next == 1 && r.state.events == Renders(2))
            && (|m.frames| == 0 ==> !r.state.running && r.state.events == Renders(1) + [Done])
            && (Done in r.state.events <==> !r.state.running)
  {
    RendersHaveNoDone(2);
    var s := Init(m);
    var zeroed := Playback(s.(running := true, events := [Render]), ZeroPixels(buf, s.active));
    assert StepStart(m, Playback(s, buf)) == StepRenderNextFrame(m, zeroed);
    if |m.frames| > 0 {
      assert PlaysFrame(m, zeroed.state) && 0 % |m.frames| == 0;
    }
  }

  /** One timer firing of a non-repeating animation that has rendered the
      first `n` frames. */
  lemma NonRepeatingFire(m: AnimationModel, pb: Playback, n: nat)
    requires !m.repeat && 1 <= n <= |m.frames|
    requires pb.state.running && pb.state.next == n && pb.state.events == Renders(n + 1)
    ensures var r := StepTimer(m, pb);
            && (n < |m.frames| ==> r.state.running && r.state.next == n + 1 && r.state.events == Renders(n + 2))
            && (n == |m.frames| ==> !r.state.running && r.state.events == Renders(n + 1) + [Done])
  {
    if n < |m.frames| {
      PlaysNextFrame(m, pb, n);
    } else {
      PlaysPastLastFrame(m, pb);
    }
  }

  lemma PlaysNextFrame(m: AnimationModel, pb: Playback, n: nat)
    requires Playable(m) && n < |m.frames|
    requires pb.state.running && pb.state.next == n
    ensures var r := StepTimer(m, pb);
            r.state.running && r.state.next == n + 1 && r.state.events == pb.state.events + [Render]
  {
    var spent := Playback(pb.state.(timer := Idle), pb.buffer);
    assert PlaysFrame(m, spent.state) && n % |m.frames| == n;
  }

  lemma PlaysPastLastFrame(m: AnimationModel, pb: Playback)
    requires !m.repeat && pb.state.running && pb.state.next == |m.frames|
    ensures var r := StepTimer(m, pb);
            !r.state.running && r.state.events == pb.state.events + [Done]
  {
    var spent := Playback(pb.state.(timer := Idle), pb.buffer);
    assert !PlaysFrame(m, spent.state);
  }

  /** A repeating animation with at least one frame, never pre-empted, keeps
      running forever: it renders once per timer firing and never emits
      "done"; its cursor stays within [1, number of frames]. */
  lemma RepeatingNeverStops(m: AnimationModel, buf: seq<int>, n: nat)
    requires m.repeat && |m.frames| > 0
    ensures var r := Fires(m, StepStart(m, Playback(Init(m), buf)), n);
            && r.state.running && 1 <= r.state.next <= |m.frames|
            && r.state.events == Renders(n + 2) && Done !in r.state.events
  {
    FreshStart(m, buf);
    RepeatingRun(m, StepStart(m, Playback(Init(m), buf)), n);
  }

  /** The timer firings after `start()` of a repeating animation. */
  lemma {:induction false} RepeatingRun(m: AnimationModel, start: Playback, n: nat)
    requires m.repeat && |m.frames| > 0
    requires start.state.running && 1 <= start.state.next <= |m.frames| && start.state.events == Renders(2)
    ensures var r := Fires(m, start, n);
            && r.state.running && 1 <= r.state.next <= |m.frames|
            && r.state.events == Renders(n + 2) && Done !in r.state.events
  {
    if n == 0 {
      RendersHaveNoDone(2);
    } else {
      RepeatingRun(m, start, n - 1);
      RepeatingStep(m, start, n);
    }
  }

  /** The `n`-th firing of a repeating animation renders once more. */
  lemma RepeatingStep(m: AnimationModel, start: Playback, n: nat)
    requires m.repeat && |m.frames| > 0 && n > 0
    requires Fires(m, start, n - 1).state.running && Fires(m, start, n - 1).state.events == Renders(n + 1)
    ensures var r := Fires(m, start, n);
            && r.state.running && 1 <= r.state.next <= |m.frames|
            && r.state.events == Renders(n + 2) && Done !in r.state.events
  {
    var pb := Fires(m, start, n - 1);
    assert Fires(m, start, n) == StepTimer(m, pb);
    RepeatingFire(m, pb, n);
    RendersHaveNoDone(n + 2);
  }

  /** One timer firing of a running, repeating animation renders once more. */
  lemma RepeatingFire(m: AnimationModel, pb: Playback, n: nat)
    requires m.repeat && |m.frames| > 0
    requires pb.state.running && pb.state.events == Renders(n + 1)
    ensures var r := StepTimer(m, pb);
            r.state.running && 1 <= r.state.next <= |m.frames| && r.state.events == Renders(n + 2)
  {
    var spent := Playback(pb.state.(timer := Idle), pb.buffer);
    assert StepTimer(m, pb) == StepRenderNextFrame(m, spent);
    assert PlaysFrame(m, spent.state);
  }

  /** A timer firing on a running animation emits exactly one event: "render"
      when it played a frame and stays running, "done" when it stopped. */
  lemma TimerEmitsOne(m: AnimationModel, pb: Playback)
    requires Playable(m) && pb.state.running
    ensures var r := StepTimer(m, pb);
      r.state.events == pb.state.events + [if r.state.running then Render else Done]
  {
    var spent := Playback(pb.state.(timer := Idle), pb.buffer);
    assert StepTimer(m, pb) == StepRenderNextFrame(m, spent);
  }

  lemma RendersHaveNoDone(n: nat)
    ensures Done !in Renders(n)
  {
  }

  /** The active pixels only ever shrink from the involved pixels: every
      reachable active set is a subset of `involvedPixels`. */
  lemma DisablePixelKeepsWithinInvolved(m: AnimationModel, s: AnimState, p: int)
    requires forall q :: q in s.active ==> q in m.involvedPixels
    ensures forall q :: q in StepDisablePixel(s, p).active ==> q in m.involvedPixels
  {
  }

  /** What every state of an animation keeps about its pixels: each is
      listed once and is one the model involves. */
  predicate Owns(m: AnimationModel, s: AnimState) {
    NoDuplicates(s.active) && forall q :: q in s.active ==> q in m.involvedPixels
  }

  /** A new animation on a validated model owns its involved pixels. */
  lemma InitOwns(m: AnimationModel, n: nat)
    requires WellFormed(m, n)
    ensures Owns(m, Init(m))
  {
  }

  /** `disablePixel` keeps ownership. */
  lemma DisablePixelKeepsOwns(m: AnimationModel, s: AnimState, p: int)
    requires Owns(m, s)
    ensures Owns(m, StepDisablePixel(s, p))
  {
    DisablePixelRemovesExactly(s, p);
  }

  /** On a validated model of a strip of `n` pixels, an owned pixel is a
      pixel of the strip. */
  lemma OwnedPixelsInRange(m: AnimationModel, s: AnimState, n: nat)
    requires WellFormed(m, n) && Owns(m, s)
    ensures forall q :: q in s.active ==> 0 <= q < n
  {
    forall q | q in s.active ensures 0 <= q < n {
      var f :| f in m.frames && q in f.pixels;
    }
  }

  /** For a validated model on a buffer of its strip length, no write is lost or
      truncated: every active pixel of the frame lies inside the buffer and
      receives exactly the frame's colour. */
  lemma ValidatedFrameWritesExactly(m: AnimationModel, pb: Playback)
    requires Playable(m) && WellFormed(m, |pb.buffer|)
    requires pb.state.running && PlaysFrame(m, pb.state)
    ensures var f := NextFrame(m, pb.state);
            forall p :: p in f.pixels && p in pb.state.active ==>
              0 <= p < |pb.buffer| && StepRenderNextFrame(m, pb).buffer[p] == f.pixels[p]
  {
    var f := NextFrame(m, pb.state);
    assert f in m.frames;
  }

  // ---------------------------------------------------------------------------
  // The class that performs these transitions in place

  class Animation {
    /** The shared buffer, handed over by reference and never copied. */
    const buffer: array<int>
    const model: AnimationModel
    var activePixels: seq<int>
    var running: bool
    var nextFrameIndex: nat
    var timer: Timer
    var events: seq<AnimEvent>

    function State(): AnimState
      reads this
    {
      AnimState(activePixels, running, nextFrameIndex, timer, events)
    }

    constructor (buffer: array<int>, model: AnimationModel)
      ensures this.buffer == buffer && this.model == model
      ensures activePixels == model.involvedPixels && !running && nextFrameIndex == 0
      ensures timer == Idle && events == []
      ensures State() == Init(model)
    {
      this.buffer := buffer;
      this.model := model;
      timer := Idle;
      activePixels := model.involvedPixels;
      running := false;
      nextFrameIndex := 0;
      events := [];
    }

    method DisablePixel(pixel: int)
      modifies this
      ensures State() == StepDisablePixel(old(State()), pixel)
    {
      var i := IndexOf(activePixels, pixel);
      if i >= 0 {
        activePixels := RemoveAt(activePixels, i);
      }
      if |activePixels| == 0 {
        Abort();
      }
    }

    method IsPixelActive(pixel: int) returns (active: bool)
      ensures active <==> pixel in activePixels
    {
      active := IndexOf(activePixels, pixel) >= 0;
    }

    method Abort()
      modifies this
      ensures State() == StepAbort(old(State()))
    {
      if running {
        running := false;
        if timer.Pending? {
          timer := Idle;
        }
        events := events + [Done];
      }
    }

    method Start()
      requires Playable(model)
      modifies this, buffer
      ensures Playback(State(), buffer[..]) == StepStart(model, Playback(old(State()), old(buffer[..])))
    {
      if running {
        return;
      }
      for i := 0 to |activePixels|
        modifies buffer
        invariant buffer[..] == ZeroPixels(old(buffer[..]), activePixels[..i])
      {
        var pixel := activePixels[i];
        if 0 <= pixel < buffer.Length {
          buffer[pixel] := 0;
        }
        assert activePixels[..i + 1] == activePixels[..i] + [pixel];
      }
      assert activePixels[..|activePixels|] == activePixels;
      events := events + [Render];
      running := true;
      RenderNextFrame();
    }

    method RenderNextFrame()
      requires Playable(model)
      modifies this, buffer
      ensures Playback(State(), buffer[..]) == StepRenderNextFrame(model, Playback(old(State()), old(buffer[..])))
    {
      if !running {
        return;
      }
      if nextFrameIndex >= |model.frames| && !model.repeat {
        Abort();
        return;
      }
      PlayFrame();
    }

    /** The frame-playing branch of `renderNextFrame()`. */
    method PlayFrame()
      requires Playable(model) && running && PlaysFrame(model, State())
      modifies this, buffer
      ensures var s := old(State());
              var f := NextFrame(model, s);
              && State() == s.(next := s.next % |model.frames| + 1, timer := Pending(f.duration), events := s.events + [Render])
              && buffer[..] == DrawFrame(old(buffer[..]), f.pixels, s.active)
    {
      nextFrameIndex := nextFrameIndex % |model.frames|;
      var frame := model.frames[nextFrameIndex];
      nextFrameIndex := nextFrameIndex + 1;
      Draw(frame.pixels);
      events := events + [Render];
      timer := Pending(frame.duration);
    }

    /** The drawing loop of `renderNextFrame()`: each pixel of the frame
        that is still active receives its colour. */
    method Draw(pixels: map<int, int>)
      modifies buffer
      ensures buffer[..] == DrawFrame(old(buffer[..]), pixels, activePixels)
    {
      ghost var before := buffer[..];
      var keys := pixels.Keys;
      ghost var drawn: set<int> := {};
      while keys != {}
        invariant keys + drawn == pixels.Keys && keys !! drawn
        invariant buffer[..] == DrawFrame(before, map p | p in drawn :: pixels[p], activePixels)
        decreases keys
      {
        var pixel := AnyElement(keys);
        var active := IsPixelActive(pixel);
        if active && 0 <= pixel < buffer.Length {
          buffer[pixel] := Stored(pixels[pixel]);
        }
        keys := keys - {pixel};
        drawn := drawn + {pixel};
      }
      assert (map p | p in drawn :: pixels[p]) == pixels;
    }

    /** The callback `renderNextFrame()` schedules: it renders only while the
        animation is running. */
    method TimerFired()
      requires Playable(model)
      modifies this, buffer
      ensures Playback(State(), buffer[..]) == StepTimer(model, Playback(old(State()), old(buffer[..])))
    {
      timer := Idle;
      if running {
        RenderNextFrame();
      }
    }
  }
}
