/** The animation model built by the request validator and played by an
    animation: ordered frames, a repeat flag and the pixels it involves. */
module Models {
  import opened Common

  /** Largest packed 24-bit RGB colour. */
  const MaxColour: int := 0xFF_FFFF

  /** One timed partial update: after it is drawn, the next frame follows after
      `duration` time units; `pixels` maps a pixel index to its colour, and
      pixels it does not mention keep their colour. */
  datatype Frame = Frame(duration: nat, pixels: map<int, int>)

  datatype AnimationModel = AnimationModel(frames: seq<Frame>, repeat: bool, involvedPixels: seq<int>)

  /** What a model built from a validated request satisfies on a strip of `n`
      pixels: every index in range, every colour 24-bit, and `involvedPixels`
      listing each mentioned index exactly once. */
  ghost predicate WellFormed(m: AnimationModel, n: nat) {
    && (forall f, p :: f in m.frames && p in f.pixels ==> 0 <= p < n && 0 <= f.pixels[p] <= MaxColour)
    && NoDuplicates(m.involvedPixels)
    && (forall p :: p in m.involvedPixels <==> exists f :: f in m.frames && p in f.pixels)
  }

  /** Models that playback can run: a repeating model with no frames makes the
      cursor arithmetic `index % 0` produce NaN and the frame lookup throw. */
  predicate Playable(m: AnimationModel) {
    m.repeat ==> |m.frames| > 0
  }
}
