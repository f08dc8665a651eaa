/** The request validator of the HTTP API (`handleAnimate`): it checks a
    decoded "animate" request frame by frame and property by property, stops
    at the first problem with a message naming it, and otherwise builds the
    animation model and announces it. */
module Requests {
  import opened Common
  import opened Models

  /** The decoded body of a request: an array of frames, or any other value. */
  datatype Request = FrameArray(frames: seq<RawFrame>) | NotArray

  /** One element of the array: an object whose "duration" and "pixels"
      properties may be missing, or a value of another type, named by what
      `typeof` reports for it. */
  datatype RawFrame =
    | FrameObject(duration: Option<int>, pixels: Option<RawPixels>)
    | FrameNotObject(typeName: string)

  /** The "pixels" property: an object whose keys (pixel indices) and values
      (colours) are already parsed to integers, in the order `Object.keys`
      enumerates them; or a value of another type. */
  datatype RawPixels =
    | PixelObject(entries: seq<(int, int)>)
    | PixelsNotObject(typeName: string)

  /** Why a request is rejected; `frame` is the position of the offending
      frame in the array. */
  datatype Rejection =
    | NotAnArray
    | NotAnObject(frame: nat, typeName: string)
    | MissingDuration(frame: nat)
    | NegativeDuration(frame: nat)
    | MissingPixels(frame: nat)
    | PixelsNotAnObject(frame: nat, typeName: string)
    | NegativePixelId(frame: nat, key: int)
    | UnknownPixelId(frame: nat, key: int, numPixels: nat)
    | BadColour(frame: nat, key: int)

  /** The text the API returns for a rejection, with numbers in decimal. It is
      never empty, which is how the HTTP layer tells a rejection from a
      success. */
  function Message(r: Rejection): (text: string)
    ensures |text| > 0
  {
    match r
    case NotAnArray => "POST data must be an array of animation frames"
    case NotAnObject(i, ty) => "Frame #" + NatToString(i) + " must be an object, got " + ty + "."
    case MissingDuration(i) => "Missing 'duration' property in frame #" + NatToString(i) + "."
    case NegativeDuration(i) => "Value of 'duration' property in frame #" + NatToString(i) + " must be a non-negative float."
    case MissingPixels(i) => "Missing 'pixels' property in frame #" + NatToString(i) + "."
    case PixelsNotAnObject(i, ty) =>
      "Value of 'pixels' property in frame #" + NatToString(i) + " must be an object, got " + ty + "."
    case NegativePixelId(i, key) =>
      "Bad pixel ID in frame #" + NatToString(i) + ": '" + IntToString(key) + "' (must be a non-negative integer)."
    case UnknownPixelId(i, key, n) =>
      "Bad pixel ID in frame #" + NatToString(i) + ": '" + IntToString(key) + "' does not exist (max " + NatToString(n) + ")."
    case BadColour(i, key) =>
      "Bad pixel color in frame #" + NatToString(i) + ": pixel #" + IntToString(key) + " must be between 0x000000 and 0xFFFFFF."
  }

  /** The first failure in a list of check outcomes, or `None` when every
      check passed. */
  function FirstFailure(outcomes: seq<Option<Rejection>>): (r: Option<Rejection>)
    ensures r.None? <==> forall t :: 0 <= t < |outcomes| ==> outcomes[t].None?
    ensures r.Some? ==> exists t :: 0 <= t < |outcomes| && outcomes[t] == r && forall u :: 0 <= u < t ==> outcomes[u].None?
  {
    if outcomes == [] then None
    else if outcomes[0].Some? then outcomes[0]
    else
      var r := FirstFailure(outcomes[1..]);
      assert forall t :: 1 <= t < |outcomes| ==> outcomes[t] == outcomes[1..][t - 1];
      r
  }

  /** A failure preceded only by passes is the first failure. */
  lemma FirstFailureAt(outcomes: seq<Option<Rejection>>, t: nat)
    requires t < |outcomes| && outcomes[t].Some?
    requires forall u :: 0 <= u < t ==> outcomes[u].None?
    ensures FirstFailure(outcomes) == outcomes[t]
  {
  }

  /** An index the strip has and a 24-bit colour. */
  predicate EntryOk(n: nat, e: (int, int)) {
    0 <= e.0 < n && 0 <= e.1 <= MaxColour
  }

  /** The checks on one pixel entry of frame `i`, on a strip of `n` pixels, in
      the order the validator makes them. */
  function EntryError(i: nat, n: nat, e: (int, int)): (r: Option<Rejection>)
    ensures r.None? <==> EntryOk(n, e)
  {
    if e.0 < 0 then Some(NegativePixelId(i, e.0))
    else if e.0 >= n then Some(UnknownPixelId(i, e.0, n))
    else if e.1 < 0 || e.1 > MaxColour then Some(BadColour(i, e.0))
    else None
  }

  function EntryErrors(i: nat, n: nat, es: seq<(int, int)>): (r: seq<Option<Rejection>>)
    ensures |r| == |es| && forall t :: 0 <= t < |es| ==> r[t] == EntryError(i, n, es[t])
  {
    seq(|es|, t requires 0 <= t < |es| => EntryError(i, n, es[t]))
  }

  /** A frame has the shape the validator requires: an object with a
      non-negative duration and an object of pixels. */
  predicate Shaped(f: RawFrame) {
    && f.FrameObject? && f.duration.Some? && f.duration.value >= 0
    && f.pixels.Some? && f.pixels.value.PixelObject?
  }

  /** A frame the validator accepts on a strip of `n` pixels. */
  predicate Accepted(n: nat, f: RawFrame) {
    Shaped(f) && forall e :: e in f.pixels.value.entries ==> EntryOk(n, e)
  }

  /** The checks on frame `i`, in the order the validator makes them. */
  function FrameError(i: nat, n: nat, f: RawFrame): (r: Option<Rejection>)
    ensures r.None? <==> Accepted(n, f)
    ensures r.Some? ==> !r.value.NotAnArray? && r.value.frame == i
  {
    match f
    case FrameNotObject(ty) => Some(NotAnObject(i, ty))
    case FrameObject(duration, pixels) =>
      if duration.None? then Some(MissingDuration(i))
      else if duration.value < 0 then Some(NegativeDuration(i))
      else if pixels.None? then Some(MissingPixels(i))
      else match pixels.value
        case PixelsNotObject(ty) => Some(PixelsNotAnObject(i, ty))
        case PixelObject(es) =>
          var r := FirstFailure(EntryErrors(i, n, es));
          assert r.None? ==> forall e :: e in es ==> EntryOk(n, e) by {
            if r.None? {
              forall e | e in es ensures EntryOk(n, e) {
                var t :| 0 <= t < |es| && es[t] == e;
                assert EntryErrors(i, n, es)[t].None?;
              }
            }
          }
          r
  }

  /** Which rejection an entry gets: a negative index, then an index beyond
      the strip, then a colour outside 24 bits; each rejection names the
      frame and the pixel key. */
  lemma EntryCheckOrder(i: nat, n: nat, e: (int, int))
    ensures e.0 < 0 ==> EntryError(i, n, e) == Some(NegativePixelId(i, e.0))
    ensures 0 <= e.0 && n <= e.0 ==> EntryError(i, n, e) == Some(UnknownPixelId(i, e.0, n))
    ensures 0 <= e.0 < n && (e.1 < 0 || MaxColour < e.1) ==> EntryError(i, n, e) == Some(BadColour(i, e.0))
  {
  }

  /** Which rejection a frame of the wrong shape gets, check by check: not an
      object, then a missing duration, a negative duration, missing pixels,
      pixels that are not an object. */
  lemma FrameCheckOrder(i: nat, n: nat, f: RawFrame)
    ensures f.FrameNotObject? ==> FrameError(i, n, f) == Some(NotAnObject(i, f.typeName))
    ensures f.FrameObject? && f.duration.None? ==> FrameError(i, n, f) == Some(MissingDuration(i))
    ensures f.FrameObject? && f.duration.Some? && f.duration.value < 0 ==> FrameError(i, n, f) == Some(NegativeDuration(i))
    ensures f.FrameObject? && f.duration.Some? && 0 <= f.duration.value && f.pixels.None? ==>
      FrameError(i, n, f) == Some(MissingPixels(i))
    ensures f.FrameObject? && f.duration.Some? && 0 <= f.duration.value && f.pixels.Some? && f.pixels.value.PixelsNotObject? ==>
      FrameError(i, n, f) == Some(PixelsNotAnObject(i, f.pixels.value.typeName))
  {
  }

  /** The duration is checked before anything about the pixels: two frames
      with the same unusable duration get the same rejection whatever their
      pixels are. */
  lemma DurationCheckedFirst(i: nat, n: nat, d: Option<int>, p: Option<RawPixels>, q: Option<RawPixels>)
    requires d.None? || d.value < 0
    ensures FrameError(i, n, FrameObject(d, p)) == FrameError(i, n, FrameObject(d, q))
    ensures FrameError(i, n, FrameObject(d, p)).Some?
  {
  }

  /** In a frame of the right shape, the first entry that fails decides the
      rejection. */
  lemma FirstBadEntryDecides(i: nat, n: nat, f: RawFrame, t: nat)
    requires Shaped(f) && t < |f.pixels.value.entries|
    requires !EntryOk(n, f.pixels.value.entries[t])
    requires forall u :: 0 <= u < t ==> EntryOk(n, f.pixels.value.entries[u])
    ensures FrameError(i, n, f) == EntryError(i, n, f.pixels.value.entries[t])
  {
    FirstFailureAt(EntryErrors(i, n, f.pixels.value.entries), t);
  }

  function FrameErrors(n: nat, fs: seq<RawFrame>): (r: seq<Option<Rejection>>)
    ensures |r| == |fs| && forall i :: 0 <= i < |fs| ==> r[i] == FrameError(i, n, fs[i])
  {
    seq(|fs|, i requires 0 <= i < |fs| => FrameError(i, n, fs[i]))
  }

  /** The pixel map built by assigning the entries in order: a later entry
      for the same index overwrites an earlier one. */
  function BuildPixels(es: seq<(int, int)>): (r: map<int, int>)
    ensures forall k :: k in r <==> exists t :: 0 <= t < |es| && es[t].0 == k
  {
    if es == [] then map[]
    else
      var p := es[..|es| - 1];
      assert forall t :: 0 <= t < |p| ==> p[t] == es[t];
      BuildPixels(p)[es[|es| - 1].0 := es[|es| - 1].1]
  }

  /** Every assignment in the map comes from an entry. */
  lemma {:induction false} BuildPixelsFromEntries(es: seq<(int, int)>, k: int)
    requires k in BuildPixels(es)
    ensures exists t :: 0 <= t < |es| && es[t] == (k, BuildPixels(es)[k])
  {
    var p := es[..|es| - 1];
    if es[|es| - 1].0 != k {
      BuildPixelsFromEntries(p, k);
      var t :| 0 <= t < |p| && p[t] == (k, BuildPixels(p)[k]);
      assert es[t] == p[t];
    }
  }

  /** The last entry for an index decides its colour. */
  lemma {:induction false} BuildPixelsLastWins(es: seq<(int, int)>, t: nat)
    requires t < |es| && forall u :: t < u < |es| ==> es[u].0 != es[t].0
    ensures BuildPixels(es)[es[t].0] == es[t].1
  {
    var p := es[..|es| - 1];
    if t < |es| - 1 {
      assert p[t] == es[t];
      assert forall u :: t < u < |p| ==> p[u] == es[u];
      BuildPixelsLastWins(p, t);
    }
  }

  /** The pixel indices of the entries, in order. */
  function Keys(es: seq<(int, int)>): (r: seq<int>)
    ensures |r| == |es| && forall t :: 0 <= t < |es| ==> r[t] == es[t].0
  {
    if es == [] then [] else Keys(es[..|es| - 1]) + [es[|es| - 1].0]
  }

  /** The pixel indices a frame mentions, in order. */
  function FrameKeys(f: RawFrame): seq<int> {
    if f.FrameObject? && f.pixels.Some? && f.pixels.value.PixelObject? then Keys(f.pixels.value.entries) else []
  }

  /** The pixel indices of all frames, in the order the validator meets them. */
  function AllKeys(fs: seq<RawFrame>): (r: seq<int>)
    ensures forall p :: p in r <==> exists i :: 0 <= i < |fs| && p in FrameKeys(fs[i])
  {
    if fs == [] then []
    else
      var q := fs[..|fs| - 1];
      assert forall i :: 0 <= i < |q| ==> q[i] == fs[i];
      AllKeys(q) + FrameKeys(fs[|fs| - 1])
  }

  function BuildFrame(f: RawFrame): Frame
    requires Shaped(f)
  {
    Frame(f.duration.value, BuildPixels(f.pixels.value.entries))
  }

  function BuildFrames(fs: seq<RawFrame>): (r: seq<Frame>)
    requires forall i :: 0 <= i < |fs| ==> Shaped(fs[i])
    ensures |r| == |fs| && forall i :: 0 <= i < |fs| ==> r[i] == BuildFrame(fs[i])
  {
    if fs == [] then [] else BuildFrames(fs[..|fs| - 1]) + [BuildFrame(fs[|fs| - 1])]
  }

  /** What the validator makes of a request on a strip of `n` pixels: the
      first failing check, or the model it announces. */
  function Validate(req: Request, n: nat, repeat: bool): (r: Result<AnimationModel, Rejection>)
    ensures r.Ok? <==> req.FrameArray? && forall i :: 0 <= i < |req.frames| ==> Accepted(n, req.frames[i])
    ensures r.Ok? ==> r.value.repeat == repeat && |r.value.frames| == |req.frames|
  {
    match req
    case NotArray => Err(NotAnArray)
    case FrameArray(fs) =>
      var e := FirstFailure(FrameErrors(n, fs));
      if e.Some? then Err(e.value)
      else Ok(AnimationModel(BuildFrames(fs), repeat, Dedup(AllKeys(fs))))
  }

  /** A request is rejected exactly when it is not an array or one of its
      frames is not accepted; the rejection is that of the first such frame. */
  lemma ValidateRejects(req: Request, n: nat, repeat: bool)
    ensures Validate(req, n, repeat).Err? <==> req.NotArray? || exists i :: 0 <= i < |req.frames| && !Accepted(n, req.frames[i])
    ensures req.NotArray? ==> Validate(req, n, repeat) == Err(NotAnArray)
    ensures req.FrameArray? && Validate(req, n, repeat).Err? ==>
      exists i :: 0 <= i < |req.frames| && FrameError(i, n, req.frames[i]) == Some(Validate(req, n, repeat).error)
        && forall j :: 0 <= j < i ==> Accepted(n, req.frames[j])
  {
    if req.FrameArray? {
      var errs := FrameErrors(n, req.frames);
      if FirstFailure(errs).Some? {
        var i :| 0 <= i < |errs| && errs[i] == FirstFailure(errs) && forall u :: 0 <= u < i ==> errs[u].None?;
        assert FrameError(i, n, req.frames[i]) == Some(Validate(req, n, repeat).error);
      } else {
        assert forall i :: 0 <= i < |req.frames| ==> errs[i].None?;
      }
    }
  }

  /** The first frame that is not accepted decides the rejection. */
  lemma {:induction false} RejectsFirstBadFrame(fs: seq<RawFrame>, n: nat, repeat: bool, i: nat)
    requires i < |fs| && !Accepted(n, fs[i])
    requires forall j :: 0 <= j < i ==> Accepted(n, fs[j])
    ensures Validate(FrameArray(fs), n, repeat) == Err(FrameError(i, n, fs[i]).value)
  {
    FirstFailureAt(FrameErrors(n, fs), i);
  }

  /** A request whose frames are all accepted yields the model of those
      frames. */
  lemma {:induction false} AcceptsAll(fs: seq<RawFrame>, n: nat, repeat: bool)
    requires forall i :: 0 <= i < |fs| ==> Shaped(fs[i]) && Accepted(n, fs[i])
    ensures Validate(FrameArray(fs), n, repeat) == Ok(AnimationModel(BuildFrames(fs), repeat, Dedup(AllKeys(fs))))
  {
    var errs := FrameErrors(n, fs);
    assert forall i :: 0 <= i < |errs| ==> errs[i].None?;
  }

  /** An accepted request yields a well-formed model with one frame per input
      frame, each holding the input's duration and the pixel map of its
      entries, and the involved pixels of all frames without repetitions. */
  lemma ValidateBuilds(fs: seq<RawFrame>, n: nat, repeat: bool)
    requires Validate(FrameArray(fs), n, repeat).Ok?
    ensures var m := Validate(FrameArray(fs), n, repeat).value;
      && WellFormed(m, n) && m.repeat == repeat && |m.frames| == |fs|
      && m.involvedPixels == Dedup(AllKeys(fs))
      && forall i :: 0 <= i < |fs| ==>
        m.frames[i].duration == fs[i].duration.value && m.frames[i].pixels == BuildPixels(fs[i].pixels.value.entries)
  {
    ValidateRejects(FrameArray(fs), n, repeat);
    var m := Validate(FrameArray(fs), n, repeat).value;
    ValidatedColours(fs, n, m.frames);
    ValidatedInvolved(fs, m.frames);
  }

  lemma ValidatedColours(fs: seq<RawFrame>, n: nat, frames: seq<Frame>)
    requires forall i :: 0 <= i < |fs| ==> Shaped(fs[i]) && Accepted(n, fs[i])
    requires frames == BuildFrames(fs)
    ensures forall f, p :: f in frames && p in f.pixels ==> 0 <= p < n && 0 <= f.pixels[p] <= MaxColour
  {
    forall f, p | f in frames && p in f.pixels ensures 0 <= p < n && 0 <= f.pixels[p] <= MaxColour {
      var i :| 0 <= i < |fs| && frames[i] == f;
      var es := fs[i].pixels.value.entries;
      BuildPixelsFromEntries(es, p);
      var t :| 0 <= t < |es| && es[t] == (p, f.pixels[p]);
      assert es[t] in es;
    }
  }

  lemma ValidatedInvolved(fs: seq<RawFrame>, frames: seq<Frame>)
    requires forall i :: 0 <= i < |fs| ==> Shaped(fs[i])
    requires frames == BuildFrames(fs)
    ensures forall p :: p in AllKeys(fs) <==> exists f :: f in frames && p in f.pixels
  {
    forall p | p in AllKeys(fs) ensures exists f :: f in frames && p in f.pixels {
      KeyIsDrawn(fs, frames, p);
    }
    forall p | exists f :: f in frames && p in f.pixels ensures p in AllKeys(fs) {
      var f :| f in frames && p in f.pixels;
      DrawnIsKey(fs, frames, f, p);
    }
  }

  lemma KeyIsDrawn(fs: seq<RawFrame>, frames: seq<Frame>, p: int)
    requires forall i :: 0 <= i < |fs| ==> Shaped(fs[i])
    requires frames == BuildFrames(fs) && p in AllKeys(fs)
    ensures exists f :: f in frames && p in f.pixels
  {
    var i :| 0 <= i < |fs| && p in FrameKeys(fs[i]);
    var es := fs[i].pixels.value.entries;
    var t :| 0 <= t < |es| && Keys(es)[t] == p;
    assert p in frames[i].pixels;
  }

  lemma DrawnIsKey(fs: seq<RawFrame>, frames: seq<Frame>, f: Frame, p: int)
    requires forall i :: 0 <= i < |fs| ==> Shaped(fs[i])
    requires frames == BuildFrames(fs) && f in frames && p in f.pixels
    ensures p in AllKeys(fs)
  {
    var i :| 0 <= i < |fs| && frames[i] == f;
    var es := fs[i].pixels.value.entries;
    var t :| 0 <= t < |es| && es[t].0 == p;
    assert Keys(es)[t] == p;
    assert p in FrameKeys(fs[i]);
  }

  /** The involved pixels are listed in the order in which the validator
      first meets them. */
  lemma InvolvedInFirstSeenOrder(fs: seq<RawFrame>, n: nat, repeat: bool)
    requires Validate(FrameArray(fs), n, repeat).Ok?
    ensures var inv := Validate(FrameArray(fs), n, repeat).value.involvedPixels;
      inv == Dedup(AllKeys(fs))
      && forall i, j :: 0 <= i < j < |inv| ==> IndexOf(AllKeys(fs), inv[i]) < IndexOf(AllKeys(fs), inv[j])
  {
    DedupFirstOccurrenceOrder(AllKeys(fs));
  }

  /** An empty array is accepted on the repeating route too, and the model it
      yields is not playable: its playback divides by the frame count zero. */
  lemma EmptyRepeatingRequestAccepted(n: nat)
    ensures Validate(FrameArray([]), n, true).Ok?
    ensures !Playable(Validate(FrameArray([]), n, true).value)
  {
  }

  /** Reading one more entry extends the pixel map and the involved pixels as
      the loop does. */
  lemma AbsorbEntry(seen: seq<int>, es: seq<(int, int)>, t: nat)
    requires t < |es|
    ensures BuildPixels(es[..t + 1]) == BuildPixels(es[..t])[es[t].0 := es[t].1]
    ensures Dedup(seen + Keys(es[..t + 1])) ==
      var d := Dedup(seen + Keys(es[..t]));
      if IndexOf(d, es[t].0) < 0 then d + [es[t].0] else d
  {
    AbsorbPixel(es, t);
    AbsorbKey(seen, es, t);
  }

  lemma AbsorbPixel(es: seq<(int, int)>, t: nat)
    requires t < |es|
    ensures BuildPixels(es[..t + 1]) == BuildPixels(es[..t])[es[t].0 := es[t].1]
  {
    var p := es[..t + 1];
    assert p[..|p| - 1] == es[..t];
    assert p[|p| - 1] == es[t];
  }

  lemma AbsorbKey(seen: seq<int>, es: seq<(int, int)>, t: nat)
    requires t < |es|
    ensures Dedup(seen + Keys(es[..t + 1])) ==
      var d := Dedup(seen + Keys(es[..t]));
      if IndexOf(d, es[t].0) < 0 then d + [es[t].0] else d
  {
    var p := es[..t + 1];
    assert p[..|p| - 1] == es[..t];
    assert p[|p| - 1] == es[t];
    assert Keys(p) == Keys(es[..t]) + [es[t].0];
    assert seen + Keys(p) == (seen + Keys(es[..t])) + [es[t].0];
    DedupSnoc(seen + Keys(es[..t]), es[t].0);
  }

  /** When every frame is accepted, no check fails. */
  lemma NoFrameFails(n: nat, fs: seq<RawFrame>)
    requires forall i :: 0 <= i < |fs| ==> Accepted(n, fs[i])
    ensures FirstFailure(FrameErrors(n, fs)) == None
  {
    assert forall i :: 0 <= i < |fs| ==> FrameErrors(n, fs)[i].None?;
  }

  /** Reading one more frame extends the frames and the involved pixels as the
      loop does. */
  lemma AbsorbFrame(fs: seq<RawFrame>, i: nat)
    requires i < |fs| && forall j :: 0 <= j <= i ==> Shaped(fs[j])
    ensures BuildFrames(fs[..i + 1]) == BuildFrames(fs[..i]) + [BuildFrame(fs[i])]
    ensures AllKeys(fs[..i + 1]) == AllKeys(fs[..i]) + FrameKeys(fs[i])
  {
    assert fs[..i + 1][..i] == fs[..i];
  }

  /** The API object: the strip size it validates against and the models it
      has announced through its "animation" event. */
  class Api {
    const numPixels: nat
    var emitted: seq<AnimationModel>

    constructor(numPixels: nat)
      ensures this.numPixels == numPixels && emitted == []
    {
      this.numPixels := numPixels;
      emitted := [];
    }

    /** Validates a request; returns the empty string and announces the model
        on success, and returns the message of the first failing check
        otherwise. */
    method HandleAnimate(req: Request, withRepeat: bool) returns (err: string)
      modifies this`emitted
      ensures Validate(req, numPixels, withRepeat).Ok? ==>
        err == "" && emitted == old(emitted) + [Validate(req, numPixels, withRepeat).value]
      ensures Validate(req, numPixels, withRepeat).Err? ==>
        err == Message(Validate(req, numPixels, withRepeat).error) && emitted == old(emitted)
    {
      if req.NotArray? {
        return Message(NotAnArray);
      }
      var e, frames, involved := ReadFrames(req.frames);
      if e.Some? {
        return Message(e.value);
      }
      emitted := emitted + [AnimationModel(frames, withRepeat, involved)];
      err := "";
    }

    /** The loop over the frames of a request: each frame is checked and
        read, and the first failing check ends the loop. */
    method ReadFrames(fs: seq<RawFrame>) returns (err: Option<Rejection>, frames: seq<Frame>, involved: seq<int>)
      ensures err == FirstFailure(FrameErrors(numPixels, fs))
      ensures err.None? ==>
        && (forall i :: 0 <= i < |fs| ==> Shaped(fs[i]))
        && frames == BuildFrames(fs) && involved == Dedup(AllKeys(fs))
    {
      frames := [];
      involved := [];
      for i := 0 to |fs|
        invariant forall j :: 0 <= j < i ==> Shaped(fs[j]) && Accepted(numPixels, fs[j])
        invariant frames == BuildFrames(fs[..i])
        invariant involved == Dedup(AllKeys(fs[..i]))
      {
        var frame;
        err, frame, involved := ReadFrame(i, fs[i], AllKeys(fs[..i]), involved);
        if err.Some? {
          FirstFailureAt(FrameErrors(numPixels, fs), i);
          return;
        }
        assert Shaped(fs[i]) && Accepted(numPixels, fs[i]);
        assert forall j :: 0 <= j < i + 1 ==> Shaped(fs[j]) && Accepted(numPixels, fs[j]);
        AbsorbFrame(fs, i);
        frames := frames + [frame];
      }
      assert fs[..|fs|] == fs;
      err := None;
      NoFrameFails(numPixels, fs);
    }

    /** The checks and the reading of frame `i`; `involved0` lists, without
        repetitions, the pixel indices `seen` in the frames before it. */
    method ReadFrame(i: nat, f: RawFrame, ghost seen: seq<int>, involved0: seq<int>)
      returns (err: Option<Rejection>, frame: Frame, involved: seq<int>)
      requires involved0 == Dedup(seen)
      ensures err == FrameError(i, numPixels, f)
      ensures err.None? ==> Shaped(f) && frame == BuildFrame(f) && involved == Dedup(seen + FrameKeys(f))
    {
      frame := Frame(0, map[]);
      involved := involved0;
      if f.FrameNotObject? {
        err := Some(NotAnObject(i, f.typeName));
      } else if f.duration.None? {
        err := Some(MissingDuration(i));
      } else if f.duration.value < 0 {
        err := Some(NegativeDuration(i));
      } else if f.pixels.None? {
        err := Some(MissingPixels(i));
      } else if f.pixels.value.PixelsNotObject? {
        err := Some(PixelsNotAnObject(i, f.pixels.value.typeName));
      } else {
        var pixels;
        err, pixels, involved := ReadPixels(i, f.pixels.value.entries, seen, involved0);
        frame := Frame(f.duration.value, pixels);
      }
    }

    /** The loop over the pixel entries of frame `i`: each index and colour is
        checked, assigned, and added to the involved pixels unless present. */
    method ReadPixels(i: nat, es: seq<(int, int)>, ghost seen: seq<int>, involved0: seq<int>)
      returns (err: Option<Rejection>, pixels: map<int, int>, involved: seq<int>)
      requires involved0 == Dedup(seen)
      ensures err == FirstFailure(EntryErrors(i, numPixels, es))
      ensures err.None? ==> pixels == BuildPixels(es) && involved == Dedup(seen + Keys(es))
    {
      pixels := map[];
      involved := involved0;
      assert seen + Keys(es[..0]) == seen;
      for t := 0 to |es|
        invariant forall u :: 0 <= u < t ==> EntryOk(numPixels, es[u])
        invariant pixels == BuildPixels(es[..t])
        invariant involved == Dedup(seen + Keys(es[..t]))
      {
        var key, colour := es[t].0, es[t].1;
        err := CheckEntry(i, key, colour);
        if err.Some? {
          FirstFailureAt(EntryErrors(i, numPixels, es), t);
          return;
        }
        assert EntryOk(numPixels, es[t]);
        assert forall u :: 0 <= u < t + 1 ==> EntryOk(numPixels, es[u]);
        AbsorbEntry(seen, es, t);
        pixels := pixels[key := colour];
        if IndexOf(involved, key) < 0 {
          involved := involved + [key];
        }
      }
      assert es[..|es|] == es;
      err := None;
    }

    /** The three checks on one pixel entry of frame `i`. */
    method CheckEntry(i: nat, key: int, colour: int) returns (err: Option<Rejection>)
      ensures err.None? <==> 0 <= key < numPixels && 0 <= colour <= MaxColour
      ensures err == EntryError(i, numPixels, (key, colour))
    {
      if key < 0 {
        err := Some(NegativePixelId(i, key));
      } else if key >= numPixels {
        err := Some(UnknownPixelId(i, key, numPixels));
      } else if colour < 0 || colour > MaxColour {
        err := Some(BadColour(i, key));
      } else {
        err := None;
      }
    }
  }
}
