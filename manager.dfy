/** The animation manager (lib/AnimationManager.js): it owns the shared colour
    buffer and the list of tracked animations, pre-empts the pixels a new
    animation claims, forwards every "render" of an animation as its own
    "render" carrying the buffer, and drops an animation from the list when it
    emits "done".

    The pre-emption loop is first stated on values (`PreemptPin`,
    `PreemptAll`): it walks the list by position while the "done" handler
    splices finished animations out of that same list, so the element after
    one that finished is not visited for that pixel. */
module Managers {
  import opened Common
  import opened Models
  import opened Animations

  // ---------------------------------------------------------------------------
  // The pre-emption loop on values

  /** The states of the animations tracked when pre-emption began, and the
      positions (into `states`) of those still in the list, in list order. */
  datatype Preemption = Preemption(states: seq<AnimState>, live: seq<nat>)

  predicate Indexed(r: Preemption) {
    forall t :: 0 <= t < |r.live| ==> r.live[t] < |r.states|
  }

  predicate Increasing(s: seq<nat>) {
    forall t, u :: 0 <= t < u < |s| ==> s[t] < s[u]
  }

  /** The positions 0, 1, ..., n - 1. */
  function Range(n: nat): (r: seq<nat>)
    ensures |r| == n && Increasing(r)
    ensures forall t :: 0 <= t < n ==> r[t] == t
  {
    seq(n, t => t)
  }

  /** One iteration of the inner loop for pixel `pin`, at list position `j`:
      `disablePixel(pin)` on that animation; if it emitted "done", the handler
      splices it out of the list at `j`. */
  function PreemptStep(r: Preemption, pin: int, j: nat): (out: Preemption)
    requires Indexed(r) && j < |r.live|
    ensures Indexed(out) && |out.states| == |r.states|
    ensures forall k :: k in out.live ==> k in r.live
    ensures Increasing(r.live) ==> Increasing(out.live)
  {
    var k := r.live[j];
    var s := StepDisablePixel(r.states[k], pin);
    if |s.events| > |r.states[k].events| then Preemption(r.states[k := s], RemoveAt(r.live, j))
    else Preemption(r.states[k := s], r.live)
  }

  /** The inner loop for one pixel, from list position `j` on; after a splice
      the iteration still moves on to position `j + 1`. */
  function PreemptPin(r: Preemption, pin: int, j: nat): (out: Preemption)
    requires Indexed(r) && j <= |r.live| + 1
    ensures Indexed(out) && |out.states| == |r.states|
    ensures forall k :: k in out.live ==> k in r.live
    ensures Increasing(r.live) ==> Increasing(out.live)
    decreases |r.live| + 1 - j
  {
    if j >= |r.live| then r else PreemptPin(PreemptStep(r, pin, j), pin, j + 1)
  }

  /** The outer loop: every pixel of the new model in turn. */
  function PreemptAll(r: Preemption, pins: seq<int>): (out: Preemption)
    requires Indexed(r)
    ensures Indexed(out) && |out.states| == |r.states|
    ensures forall k :: k in out.live ==> k in r.live
    ensures Increasing(r.live) ==> Increasing(out.live)
    decreases pins
  {
    if pins == [] then r else PreemptAll(PreemptPin(r, pins[0], 0), pins[1..])
  }

  /** Pre-emption of the pixels `pins` over a list of animations in the given
      states. */
  function Preempt(states: seq<AnimState>, pins: seq<int>): (out: Preemption)
    ensures Indexed(out) && |out.states| == |states| && Increasing(out.live)
  {
    PreemptAll(Preemption(states, Range(|states|)), pins)
  }

  /** Active pixels listed once each, one of them outside `pins`: pre-empting
      `pins` leaves the animation something to play. */
  predicate Spared(active: seq<int>, pins: seq<int>) {
    NoDuplicates(active) && exists q :: q in active && q !in pins
  }

  /** The state `s` with `pin` filtered out of its active pixels. */
  function Lose(s: AnimState, pin: int): AnimState {
    s.(active := Without(s.active, pin))
  }

  /** `disablePixel` on an animation it spares only removes that pixel. */
  lemma StepSpares(s: AnimState, pin: int)
    requires Spared(s.active, [pin])
    ensures StepDisablePixel(s, pin) == Lose(s, pin)
    ensures NoDuplicates(Without(s.active, pin))
  {
    DisablePixelRemovesExactly(s, pin);
    var q :| q in s.active && q !in [pin];
    assert q in Without(s.active, pin);
  }

  /** When the inner loop spares every animation from position `j` on, none is
      removed and each of them loses exactly `pin`. */
  lemma {:induction false} PinSparesAll(r: Preemption, pin: int, j: nat)
    requires Indexed(r) && Increasing(r.live) && j <= |r.live|
    requires forall t :: j <= t < |r.live| ==> Spared(r.states[r.live[t]].active, [pin])
    ensures var out := PreemptPin(r, pin, j);
      && out.live == r.live
      && (forall t :: 0 <= t < j ==> out.states[r.live[t]] == r.states[r.live[t]])
      && (forall t :: j <= t < |r.live| ==> out.states[r.live[t]] == Lose(r.states[r.live[t]], pin))
    decreases |r.live| - j
  {
    if j < |r.live| {
      var k := r.live[j];
      StepSpares(r.states[k], pin);
      var r1 := PreemptStep(r, pin, j);
      assert r1.live == r.live && r1.states == r.states[k := Lose(r.states[k], pin)];
      forall t | 0 <= t < |r.live| && t != j ensures r1.states[r.live[t]] == r.states[r.live[t]] {
        assert r.live[t] != k;
      }
      PinSparesAll(r1, pin, j + 1);
      assert PreemptPin(r, pin, j) == PreemptPin(r1, pin, j + 1);
    }
  }

  /** The state `s` with `pins` filtered out of its active pixels. */
  function LoseAll(s: AnimState, pins: seq<int>): AnimState {
    s.(active := WithoutAll(s.active, pins))
  }

  /** Losing the first pixel and then the rest is losing them all; the spared
      pixel is still there for the rest. */
  lemma LoseThenLoseAll(s: AnimState, pins: seq<int>)
    requires pins != [] && Spared(s.active, pins)
    ensures Spared(s.active, [pins[0]]) && Spared(Lose(s, pins[0]).active, pins[1..])
    ensures LoseAll(Lose(s, pins[0]), pins[1..]) == LoseAll(s, pins)
  {
    var q :| q in s.active && q !in pins;
    assert q !in [pins[0]];
    StepSpares(s, pins[0]);
    assert q in Without(s.active, pins[0]) && q !in pins[1..];
    WithoutThenWithoutAll(s.active, pins[0], pins[1..]);
    assert [pins[0]] + pins[1..] == pins;
  }

  /** When every animation keeps a pixel outside `pins`, the outer loop
      removes none of them and filters `pins` out of each. */
  lemma {:induction false} AllSpared(r: Preemption, pins: seq<int>)
    requires Indexed(r) && Increasing(r.live)
    requires forall t :: 0 <= t < |r.live| ==> Spared(r.states[r.live[t]].active, pins)
    ensures var out := PreemptAll(r, pins);
      && out.live == r.live
      && forall t :: 0 <= t < |r.live| ==> out.states[r.live[t]] == LoseAll(r.states[r.live[t]], pins)
    decreases pins
  {
    if pins == [] {
      forall t | 0 <= t < |r.live| ensures LoseAll(r.states[r.live[t]], pins) == r.states[r.live[t]] {
        WithoutNothing(r.states[r.live[t]].active);
      }
    } else {
      var p, rest := pins[0], pins[1..];
      forall t | 0 <= t < |r.live| ensures Spared(r.states[r.live[t]].active, [p]) {
        LoseThenLoseAll(r.states[r.live[t]], pins);
      }
      PinSparesAll(r, p, 0);
      var r1 := PreemptPin(r, p, 0);
      forall t | 0 <= t < |r.live|
        ensures Spared(r1.states[r.live[t]].active, rest)
        ensures LoseAll(r1.states[r.live[t]], rest) == LoseAll(r.states[r.live[t]], pins)
      {
        LoseThenLoseAll(r.states[r.live[t]], pins);
      }
      AllSpared(r1, rest);
      assert PreemptAll(r, pins) == PreemptAll(r1, rest);
    }
  }

  /** Pixel exclusivity: if every tracked animation keeps a pixel outside the
      new model's, pre-emption terminates none of them, keeps them all in
      the list in their order, and leaves none of them any of the new pixels;
      each loses exactly those, the rest of its state unchanged. */
  lemma PreemptionExclusive(states: seq<AnimState>, pins: seq<int>)
    requires forall k :: 0 <= k < |states| ==> Spared(states[k].active, pins)
    ensures var out := Preempt(states, pins);
      && out.live == Range(|states|)
      && (forall k :: 0 <= k < |states| ==> out.states[k] == LoseAll(states[k], pins))
      && (forall k, p :: 0 <= k < |states| && p in out.states[k].active ==> p !in pins)
  {
    var r := Preemption(states, Range(|states|));
    AllSpared(r, pins);
    forall k | 0 <= k < |states|
      ensures Preempt(states, pins).states[k] == LoseAll(states[k], pins)
    {
      assert r.live[k] == k;
    }
  }

  /** The gap when an animation terminates: A owns pixel 0 and B owns 0 and 1.
      Pre-empting pixel 0 aborts A, whose "done" splices it out of the list,
      so the loop's next position is past B: B is never visited and keeps
      pixel 0. */
  lemma PreemptionSkipsAfterTermination()
    ensures var a := AnimState([0], true, 1, Pending(5), [Render, Render]);
      var b := AnimState([0, 1], true, 1, Pending(5), [Render, Render]);
      var out := Preempt([a, b], [0]);
      out.live == [1] && out.states[1] == b && 0 in out.states[1].active
  {
    var a := AnimState([0], true, 1, Pending(5), [Render, Render]);
    var b := AnimState([0, 1], true, 1, Pending(5), [Render, Render]);
    var r0 := Preemption([a, b], Range(2));
    assert r0.live == [0, 1];
    var r1 := PreemptStep(r0, 0, 0);
    assert StepDisablePixel(a, 0).events == a.events + [Done];
    assert r1.live == [1] && r1.states[1] == b;
    assert PreemptPin(r0, 0, 0) == PreemptPin(r1, 0, 1) == r1;
    assert Preempt([a, b], [0]) == PreemptAll(r1, []) == r1;
  }

  /** Every animation still in the list is running. */
  /** Every state owns its pixels under the model at the same position. */
  predicate AllOwn(models: seq<AnimationModel>, states: seq<AnimState>) {
    |models| == |states| && forall k :: 0 <= k < |states| ==> Owns(models[k], states[k])
  }

  lemma PreemptStepKeepsOwns(models: seq<AnimationModel>, r: Preemption, pin: int, j: nat)
    requires Indexed(r) && j < |r.live| && AllOwn(models, r.states)
    ensures AllOwn(models, PreemptStep(r, pin, j).states)
  {
    var k := r.live[j];
    DisablePixelKeepsOwns(models[k], r.states[k], pin);
  }

  lemma {:induction false} PreemptPinKeepsOwns(models: seq<AnimationModel>, r: Preemption, pin: int, j: nat)
    requires Indexed(r) && j <= |r.live| + 1 && AllOwn(models, r.states)
    ensures AllOwn(models, PreemptPin(r, pin, j).states)
    decreases |r.live| + 1 - j
  {
    if j < |r.live| {
      PreemptStepKeepsOwns(models, r, pin, j);
      PreemptPinKeepsOwns(models, PreemptStep(r, pin, j), pin, j + 1);
    }
  }

  lemma {:induction false} PreemptAllKeepsOwns(models: seq<AnimationModel>, r: Preemption, pins: seq<int>)
    requires Indexed(r) && AllOwn(models, r.states)
    ensures AllOwn(models, PreemptAll(r, pins).states)
    decreases pins
  {
    if pins != [] {
      PreemptPinKeepsOwns(models, r, pins[0], 0);
      PreemptAllKeepsOwns(models, PreemptPin(r, pins[0], 0), pins[1..]);
    }
  }

  /** Pre-emption keeps every animation's pixels listed once each and among
      those of its model. */
  lemma PreemptKeepsOwns(models: seq<AnimationModel>, states: seq<AnimState>, pins: seq<int>)
    requires AllOwn(models, states)
    ensures AllOwn(models, Preempt(states, pins).states)
  {
    PreemptAllKeepsOwns(models, Preemption(states, Range(|states|)), pins);
  }

  predicate LiveRunning(r: Preemption) {
    && Indexed(r) && Increasing(r.live)
    && forall t :: 0 <= t < |r.live| ==> r.states[r.live[t]].running
  }

  /** A step keeps an animation in the list only while it keeps running. */
  lemma PreemptStepKeepsLiveRunning(r: Preemption, pin: int, j: nat)
    requires LiveRunning(r) && j < |r.live|
    ensures LiveRunning(PreemptStep(r, pin, j))
  {
    var k := r.live[j];
    var out := PreemptStep(r, pin, j);
    forall t | 0 <= t < |out.live| ensures out.states[out.live[t]].running {
      if out.live[t] != k {
        assert out.live[t] in r.live;
      }
    }
  }

  /** The "done" handler: remove the animation from the list if present. */
  function Reap<T(==)>(s: seq<T>, a: T): (r: seq<T>)
    ensures a !in s ==> r == s
    ensures a in s ==> |r| == |s| - 1
  {
    var i := IndexOf(s, a);
    if i >= 0 then RemoveAt(s, i) else s
  }

  /** On a list without repetitions, the handler's `indexOf` and `splice` is
      the filter that drops the animation and keeps the others in order. */
  lemma ReapIsWithout<T(!new)>(s: seq<T>, a: T)
    requires NoDuplicates(s)
    ensures Reap(s, a) == Without(s, a)
  {
    if a in s {
      RemoveFirstIsWithout(s, a);
    } else {
      WithoutAbsent(s, a);
    }
  }

  /** On a list without repetitions the handler removes the animation
      entirely. */
  lemma ReapRemoves<T>(s: seq<T>, a: T)
    requires NoDuplicates(s)
    ensures a !in Reap(s, a) && NoDuplicates(Reap(s, a))
  {
    if a in s {
      RemoveAtPreservesNoDuplicates(s, IndexOf(s, a));
    }
  }

  /** Removing an animation twice is removing it once. */
  lemma ReapIdempotent<T>(s: seq<T>, a: T)
    requires NoDuplicates(s)
    ensures Reap(Reap(s, a), a) == Reap(s, a)
  {
    ReapRemoves(s, a);
  }

  /** One buffer reference per "render" event: what the manager passes on. */
  function Forwarded(events: seq<AnimEvent>, buffer: array<int>): (r: seq<array<int>>)
    ensures forall k :: 0 <= k < |r| ==> r[k] == buffer
  {
    if events == [] then []
    else Forwarded(events[..|events| - 1], buffer) + (if events[|events| - 1] == Render then [buffer] else [])
  }

  lemma ForwardedSnoc(events: seq<AnimEvent>, e: AnimEvent, buffer: array<int>)
    ensures Forwarded(events + [e], buffer) == Forwarded(events, buffer) + (if e == Render then [buffer] else [])
  {
    assert (events + [e])[..|events + [e]| - 1] == events;
  }

  /** The manager emits exactly as many "render"s as the animation did. */
  lemma {:induction false} ForwardedCount(events: seq<AnimEvent>, buffer: array<int>)
    ensures |Forwarded(events, buffer)| == multiset(events)[Render]
  {
    if events != [] {
      var p := events[..|events| - 1];
      ForwardedCount(p, buffer);
      assert events == p + [events[|events| - 1]];
    }
  }

  /** The handler run on the animation appended last removes just that one. */
  lemma ReapAppended<T>(s: seq<T>, a: T)
    requires a !in s
    ensures Reap(s + [a], a) == s
  {
    IndexOfPrefix(s, a, a);
    assert (s + [a])[..|s|] == s;
  }

  /** The list once the "done" handler has run for the events `events` of
      `a`: without `a` if one of them is "done". */
  function Reaped<T(==)>(s: seq<T>, a: T, events: seq<AnimEvent>): (r: seq<T>)
    ensures Done !in events ==> r == s
    ensures Done in events ==> r == Reap(s, a)
  {
    if Done in events then Reap(s, a) else s
  }

  /** One more event: a "done" runs the handler again, which changes nothing
      the second time; a "render" leaves the list alone. */
  lemma ReapedSnoc<T>(s: seq<T>, a: T, events: seq<AnimEvent>, e: AnimEvent)
    requires NoDuplicates(s)
    ensures Reaped(s, a, events + [e]) == if e == Done then Reap(Reaped(s, a, events), a) else Reaped(s, a, events)
  {
    assert Done in events + [e] <==> Done in events || e == Done;
    ReapIdempotent(s, a);
  }

  /** The objects at the given positions. */
  function Pick<T>(objs: seq<T>, live: seq<nat>): (r: seq<T>)
    requires forall t :: 0 <= t < |live| ==> live[t] < |objs|
    ensures |r| == |live| && forall t :: 0 <= t < |live| ==> r[t] == objs[live[t]]
  {
    seq(|live|, t requires 0 <= t < |live| => objs[live[t]])
  }

  /** Splicing the list is splicing the positions. */
  lemma PickRemoveAt<T>(objs: seq<T>, live: seq<nat>, j: nat)
    requires (forall t :: 0 <= t < |live| ==> live[t] < |objs|) && j < |live|
    ensures Pick(objs, RemoveAt(live, j)) == RemoveAt(Pick(objs, live), j)
  {
  }

  /** Distinct objects at increasing positions are distinct. */
  lemma PickNoDuplicates<T>(objs: seq<T>, live: seq<nat>)
    requires (forall t :: 0 <= t < |live| ==> live[t] < |objs|) && Increasing(live) && NoDuplicates(objs)
    ensures NoDuplicates(Pick(objs, live))
  {
  }

  /** After one step the list is the list before it, with the animation at
      position `j` spliced out by its "done" handler if it terminated. */
  lemma PickAfterStep<T>(objs: seq<T>, r: Preemption, pin: int, j: nat)
    requires Indexed(r) && Increasing(r.live) && |r.states| == |objs| && NoDuplicates(objs) && j < |r.live|
    ensures var k := r.live[j];
      Pick(objs, PreemptStep(r, pin, j).live) ==
        if |StepDisablePixel(r.states[k], pin).events| > |r.states[k].events| then Reap(Pick(objs, r.live), objs[k])
        else Pick(objs, r.live)
  {
    var k := r.live[j];
    if |StepDisablePixel(r.states[k], pin).events| > |r.states[k].events| {
      PickNoDuplicates(objs, r.live);
      IndexOfDistinct(Pick(objs, r.live), j);
      PickRemoveAt(objs, r.live, j);
    }
  }

  /** `disablePixel(pin)` on the animation `a`, listed once in `objs` at
      position `k`: only its state changes. */
  method DisableOne(a: Animation, ghost objs: seq<Animation>, ghost states: seq<AnimState>, ghost k: nat, pin: int)
    requires k < |objs| == |states| && NoDuplicates(objs) && a == objs[k]
    requires forall t :: 0 <= t < |objs| ==> objs[t].State() == states[t]
    modifies a
    ensures forall t :: 0 <= t < |objs| ==> objs[t].State() == states[k := StepDisablePixel(states[k], pin)][t]
  {
    a.DisablePixel(pin);
  }

  function States(xs: seq<Animation>): (r: seq<AnimState>)
    reads set t | 0 <= t < |xs| :: xs[t]
    ensures |r| == |xs| && forall t :: 0 <= t < |xs| ==> r[t] == xs[t].State()
  {
    if xs == [] then [] else [xs[0].State()] + States(xs[1..])
  }

  // ---------------------------------------------------------------------------
  // The manager object

  class AnimationManager {
    const numPixels: nat
    const renderBuffer: array<int>
    var animations: seq<Animation>
    /** The argument of every "render" the manager has emitted, oldest first. */
    var published: seq<array<int>>

    /** What holds of every animation the manager tracks: it draws on the
        shared buffer, plays a model validated for this strip, is still
        running, and owns its pixels. */
    ghost predicate Tracked(a: Animation)
      reads a
    {
      && a.buffer == renderBuffer && a.running && Playable(a.model)
      && WellFormed(a.model, numPixels) && Owns(a.model, a.State())
    }

    /** The manager's invariant: each tracked animation is listed once. */
    ghost predicate Valid()
      reads this, set t | 0 <= t < |animations| :: animations[t]
    {
      && renderBuffer.Length == numPixels
      && NoDuplicates(animations)
      && (forall t :: 0 <= t < |animations| ==> Tracked(animations[t]))
      && (forall k :: 0 <= k < |published| ==> published[k] == renderBuffer)
    }

    /** The tracked animations only ever draw inside the buffer: every pixel
        one of them still owns is a slot of the strip. */
    lemma TrackedDrawsInside()
      requires Valid()
      ensures forall t, p :: 0 <= t < |animations| && p in animations[t].activePixels ==> 0 <= p < renderBuffer.Length
    {
      forall t | 0 <= t < |animations|
        ensures forall p :: p in animations[t].activePixels ==> 0 <= p < renderBuffer.Length
      {
        OwnedPixelsInRange(animations[t].model, animations[t].State(), numPixels);
      }
    }

    /** A frame a tracked animation plays writes exactly its colours into the
        buffer at the pixels the animation still owns. */
    lemma TrackedFrameWritesExactly(a: Animation)
      requires Valid() && a in animations && PlaysFrame(a.model, a.State())
      ensures var f := NextFrame(a.model, a.State());
              forall p :: p in f.pixels && p in a.activePixels ==>
                0 <= p < renderBuffer.Length
                && StepRenderNextFrame(a.model, Playback(a.State(), renderBuffer[..])).buffer[p] == f.pixels[p]
    {
      ValidatedFrameWritesExactly(a.model, Playback(a.State(), renderBuffer[..]));
    }

    constructor (numPixels: nat)
      ensures Valid() && fresh(renderBuffer) && this.numPixels == numPixels
      ensures renderBuffer[..] == seq(numPixels, _ => 0)
      ensures animations == [] && published == []
    {
      this.numPixels := numPixels;
      renderBuffer := new int[numPixels](_ => 0);
      animations := [];
      published := [];
    }

    /** The two handlers the manager registers on an animation, run for the
        events it emitted from position `from` on: "render" is emitted again
        with the buffer, "done" removes the animation from the list. */
    method Dispatch(a: Animation, from: nat)
      requires from <= |a.events| && NoDuplicates(animations)
      modifies this`animations, this`published
      ensures published == old(published) + Forwarded(a.events[from..], renderBuffer)
      ensures animations == Reaped(old(animations), a, a.events[from..])
    {
      var emitted := a.events[from..];
      var list, out := animations, published;
      for k := 0 to |emitted|
        invariant out == old(published) + Forwarded(emitted[..k], renderBuffer)
        invariant list == Reaped(old(animations), a, emitted[..k])
      {
        assert emitted[..k + 1] == emitted[..k] + [emitted[k]];
        ForwardedSnoc(emitted[..k], emitted[k], renderBuffer);
        ReapedSnoc(old(animations), a, emitted[..k], emitted[k]);
        if emitted[k] == Render {
          out := out + [renderBuffer];
        } else {
          list := Reap(list, a);
        }
      }
      assert emitted[..|emitted|] == emitted;
      animations, published := list, out;
    }

    /** The list and the tracked animations agree with a `Preemption` value
        over the animations `orig` listed when pre-emption began. */
    ghost predicate Mirrors(orig: seq<Animation>, r: Preemption)
      reads this, set k | 0 <= k < |orig| :: orig[k]
    {
      && LiveRunning(r) && |r.states| == |orig| && NoDuplicates(orig)
      && animations == Pick(orig, r.live)
      && (forall k :: 0 <= k < |orig| ==> orig[k].State() == r.states[k])
    }

    /** One iteration of the inner pre-emption loop. */
    method PreemptOne(pin: int, j: nat, ghost orig: seq<Animation>, ghost r0: Preemption) returns (ghost r: Preemption)
      requires Mirrors(orig, r0) && j < |animations|
      modifies this`animations, this`published, animations[j]
      ensures j < |r0.live| && r == PreemptStep(r0, pin, j)
      ensures Mirrors(orig, r) && published == old(published)
    {
      var a := animations[j];
      PickAfterStep(orig, r0, pin, j);
      PickNoDuplicates(orig, r0.live);
      var before := |a.events|;
      r := DisableAt(pin, j, orig, r0);
      assert a.events[before..] == a.events[|old(a.events)|..];
      Dispatch(a, before);
      PreemptStepKeepsLiveRunning(r0, pin, j);
    }

    /** The `disablePixel` call of one inner iteration, before its handlers
        run: the animation at position `j` takes the state `PreemptStep`
        gives it, having emitted "done" exactly when it is spliced out. */
    method DisableAt(pin: int, j: nat, ghost orig: seq<Animation>, ghost r0: Preemption) returns (ghost r: Preemption)
      requires Mirrors(orig, r0) && j < |animations|
      modifies animations[j]
      ensures j < |r0.live| && r == PreemptStep(r0, pin, j)
      ensures forall k :: 0 <= k < |orig| ==> orig[k].State() == r.states[k]
      ensures var k := r0.live[j]; var s := StepDisablePixel(r0.states[k], pin);
        animations[j].events == old(animations[j].events) + if |s.events| > |r0.states[k].events| then [Done] else []
    {
      var a := animations[j];
      ghost var k := r0.live[j];
      r := PreemptStep(r0, pin, j);
      var before := |a.events|;
      DisableOne(a, orig, r0.states, k, pin);
      ghost var s := StepDisablePixel(r0.states[k], pin);
      assert r.states == r0.states[k := s];
    }

    /** The inner pre-emption loop for one pixel: `disablePixel(pin)` on each
        list element by position, while the "done" handler splices the list. */
    method PreemptPixel(pin: int, ghost orig: seq<Animation>, ghost r0: Preemption) returns (ghost r: Preemption)
      requires Mirrors(orig, r0)
      modifies this`animations, this`published, set k | 0 <= k < |orig| :: orig[k]
      ensures r == PreemptPin(r0, pin, 0)
      ensures Mirrors(orig, r) && published == old(published)
    {
      r := r0;
      var j := 0;
      while j < |animations|
        invariant Mirrors(orig, r) && j <= |r.live| + 1
        invariant PreemptPin(r, pin, j) == PreemptPin(r0, pin, 0)
        invariant published == old(published)
        decreases |animations| + 1 - j
      {
        r := PreemptOne(pin, j, orig, r);
        j := j + 1;
      }
    }

    /** The outer pre-emption loop: every pixel the new model involves. */
    method PreemptPixels(pins: seq<int>, ghost orig: seq<Animation>, ghost r0: Preemption) returns (ghost r: Preemption)
      requires Mirrors(orig, r0)
      modifies this`animations, this`published, set k | 0 <= k < |orig| :: orig[k]
      ensures r == PreemptAll(r0, pins)
      ensures Mirrors(orig, r) && published == old(published)
    {
      r := r0;
      for i := 0 to |pins|
        invariant Mirrors(orig, r)
        invariant PreemptAll(r, pins[i..]) == PreemptAll(r0, pins)
        invariant published == old(published)
      {
        assert pins[i..][1..] == pins[i + 1..];
        r := PreemptPixel(pins[i], orig, r);
      }
    }

    /** The two pre-emption loops of `startAnimation`: every tracked animation
        is told to give up every pixel the new model involves. */
    method PreemptModel(pins: seq<int>) returns (ghost r: Preemption)
      requires Valid()
      modifies this`animations, this`published, set t | 0 <= t < |animations| :: animations[t]
      ensures r == Preempt(old(States(animations)), pins)
      ensures forall k :: 0 <= k < |old(animations)| ==> old(animations)[k].State() == r.states[k]
      ensures animations == Pick(old(animations), r.live)
      ensures Valid() && published == old(published)
    {
      ghost var orig := animations;
      ghost var r0 := Preemption(States(animations), Range(|animations|));
      ghost var models := seq(|orig|, k requires 0 <= k < |orig| => orig[k].model);
      assert forall k :: 0 <= k < |orig| ==>
        orig[k].buffer == renderBuffer && Playable(orig[k].model) && WellFormed(orig[k].model, numPixels);
      assert AllOwn(models, r0.states) by {
        forall k | 0 <= k < |orig| ensures Owns(models[k], r0.states[k]) {
          assert Tracked(orig[k]);
        }
      }
      assert Pick(orig, r0.live) == orig;
      r := PreemptPixels(pins, orig, r0);
      PreemptKeepsOwns(models, r0.states, pins);
      PickNoDuplicates(orig, r.live);
      forall t | 0 <= t < |animations| ensures Tracked(animations[t]) {
        var k := r.live[t];
        assert animations[t] == orig[k] && orig[k].State() == r.states[k];
        assert Owns(models[k], r.states[k]);
      }
    }

    /** The new animation is listed and started; its handlers have not run yet. */
    method Enlist(model: AnimationModel) returns (animation: Animation)
      requires Valid() && Playable(model) && WellFormed(model, numPixels)
      modifies this`animations, renderBuffer
      ensures fresh(animation) && animation.buffer == renderBuffer && animation.model == model
      ensures animations == old(animations) + [animation] && NoDuplicates(animations)
      ensures Playback(animation.State(), renderBuffer[..]) == StepStart(model, Playback(Init(model), old(renderBuffer[..])))
      ensures Done in animation.events <==> !animation.running
      ensures animation.running ==> Tracked(animation)
    {
      animation := new Animation(renderBuffer, model);
      animations := animations + [animation];
      animation.Start();
      FreshStart(model, old(renderBuffer[..]));
      InitOwns(model, numPixels);
    }

    /** The rest of `startAnimation`: the new animation is listed, its
        handlers are attached, and it is started. */
    method Launch(model: AnimationModel) returns (ghost anim: Animation)
      requires Valid() && Playable(model) && WellFormed(model, numPixels)
      modifies this`animations, this`published, renderBuffer
      ensures Valid()
      ensures fresh(anim) && anim.buffer == renderBuffer && anim.model == model
      ensures animations == old(animations) + (if anim.running then [anim] else [])
      ensures forall a: Animation :: old(allocated(a)) ==> a.State() == old(a.State())
      ensures Playback(anim.State(), renderBuffer[..]) == StepStart(model, Playback(Init(model), old(renderBuffer[..])))
      ensures published == old(published) + Forwarded(anim.events, renderBuffer)
    {
      ghost var live := animations;
      var animation := Enlist(model);
      anim := animation;
      assert forall t :: 0 <= t < |live| ==> Tracked(live[t]);
      Settle(animation, live);
    }

    /** The handlers run for what `start()` emitted on the animation listed
        last: a "done" takes it off the list again. */
    method Settle(animation: Animation, ghost live: seq<Animation>)
      requires animations == live + [animation] && animation !in live && NoDuplicates(animations)
      requires Done in animation.events <==> !animation.running
      modifies this`animations, this`published
      ensures animations == live + (if animation.running then [animation] else [])
      ensures published == old(published) + Forwarded(animation.events, renderBuffer)
    {
      assert animation.events[0..] == animation.events;
      Dispatch(animation, 0);
      if !animation.running {
        ReapAppended(live, animation);
      }
    }

    /** The timer of a tracked animation fires: it plays its next frame, and
        the manager's handlers forward the "render" it emits or, when it has
        finished, take it off the list. */
    method FireTimer(a: Animation)
      requires Valid() && a in animations
      modifies this`animations, this`published, a, renderBuffer
      ensures Playback(a.State(), renderBuffer[..]) == StepTimer(a.model, Playback(old(a.State()), old(renderBuffer[..])))
      ensures published == old(published) + (if a.running then [renderBuffer] else [])
      ensures animations == if a.running then old(animations) else Reap(old(animations), a)
      ensures Valid()
    {
      ghost var list := animations;
      var before := |a.events|;
      ghost var pb := Playback(a.State(), renderBuffer[..]);
      a.TimerFired();
      TimerEmitsOne(a.model, pb);
      assert forall t :: 0 <= t < |list| && list[t] != a ==> Tracked(list[t]);
      assert a.activePixels == pb.state.active;
      assert a.events[before..] == [if a.running then Render else Done];
      Dispatch(a, before);
      if !a.running {
        ReapKeepsTracked(list, a);
      }
    }

    /** The "done" handler leaves only animations other than `a` listed. */
    lemma ReapKeepsTracked(list: seq<Animation>, a: Animation)
      requires NoDuplicates(list)
      requires forall t :: 0 <= t < |list| && list[t] != a ==> Tracked(list[t])
      ensures NoDuplicates(Reap(list, a))
      ensures forall t :: 0 <= t < |Reap(list, a)| ==> Tracked(Reap(list, a)[t])
    {
      ReapRemoves(list, a);
      var r := Reap(list, a);
      forall t | 0 <= t < |r| ensures Tracked(r[t]) {
        assert r[t] in list && r[t] != a;
      }
    }

    /** `startAnimation`: pre-empt the pixels of the new model, then list and
        start an animation that plays it. */
    method StartAnimation(model: AnimationModel) returns (ghost anim: Animation)
      requires Valid() && Playable(model) && WellFormed(model, numPixels)
      modifies this, renderBuffer, set t | 0 <= t < |animations| :: animations[t]
      ensures Valid()
      ensures fresh(anim) && anim.buffer == renderBuffer && anim.model == model
      ensures var r := Preempt(old(States(animations)), model.involvedPixels);
              && (forall k :: 0 <= k < |old(animations)| ==> old(animations)[k].State() == r.states[k])
              && animations == Pick(old(animations), r.live) + (if anim.running then [anim] else [])
      ensures Playback(anim.State(), renderBuffer[..]) == StepStart(model, Playback(Init(model), old(renderBuffer[..])))
      ensures published == old(published) + Forwarded(anim.events, renderBuffer)
    {
      ghost var orig := animations;
      ghost var r := PreemptModel(model.involvedPixels);
      anim := Launch(model);
    }
  }
}
