// The Sampler interface and the texture wrappers around it: a constant
// colour, the clamp, "mirror repeat" and repeat wrappers, the u/v gradient
// of lab F, and image textures, whose pixel lookup is not part of this model.
module Samplers {
  import opened Numerics
  import opened Linalg

  datatype Sampler =
    | Constant(color: Color)
    | Clamp(content: Sampler, fallback: Color)
    | MirrorRepeat(content: Sampler)
    | Repeat(content: Sampler)
    | RectTexture
    | Picture(lookup: (real, real) -> Color)

  /** lib_cgtools' red and green. */
  const Red: Color := Color(1.0, 0.0, 0.0)
  const Green: Color := Color(0.0, 1.0, 0.0)

  /** u - Math.floor(u). */
  function Frac(u: real): real
  {
    u - u.Floor as real
  }

  /** The integer part that Java's % removes: it rounds toward zero. */
  function Trunc(u: real): int
  {
    if u >= 0.0 then u.Floor else -((-u).Floor)
  }

  /** u % 1 on doubles: the remainder keeps the sign of the dividend. */
  function JavaRem1(u: real): real
  {
    u - Trunc(u) as real
  }

  /** getColor(u, v) of each sampler. */
  function SampleColor(s: Sampler, u: real, v: real): Color
  {
    match s
    case Constant(c) => c
    case Clamp(content, fallback) =>
      if u < 0.0 || u > 1.0 || v < 0.0 || v > 1.0 then fallback else SampleColor(content, u, v)
    case MirrorRepeat(content) => SampleColor(content, Frac(u), Frac(v))
    case Repeat(content) => SampleColor(content, JavaRem1(u), JavaRem1(v))
    case RectTexture => ColorAdd(ColorScale(u, Red), ColorScale(v, Green))
    case Picture(lookup) => lookup(u, v)
  }

  // ---------------------------------------------------------------------
  // The wrap of MirrorRepeatTexture

  lemma FracRange(u: real)
    ensures 0.0 <= Frac(u) < 1.0
  {
  }

  /** Coordinates already in [0, 1) pass through, so the wrap is idempotent. */
  lemma FracFixes(u: real)
    ensures 0.0 <= u < 1.0 <==> Frac(u) == u
    ensures Frac(Frac(u)) == Frac(u)
  {
    FracRange(u);
    assert (Frac(u)).Floor == 0;
  }

  lemma FracShift(u: real)
    ensures Frac(u + 1.0) == Frac(u)
  {
    assert (u + 1.0).Floor == u.Floor + 1;
  }

  /** The wrap is 1-periodic in both coordinates and never mirrors. */
  lemma MirrorRepeatPeriodic(content: Sampler, u: real, v: real)
    ensures SampleColor(MirrorRepeat(content), u + 1.0, v) == SampleColor(MirrorRepeat(content), u, v)
    ensures SampleColor(MirrorRepeat(content), u, v + 1.0) == SampleColor(MirrorRepeat(content), u, v)
    ensures SampleColor(MirrorRepeat(content), u, v) == SampleColor(content, Frac(u), Frac(v))
  {
    FracShift(u);
    FracShift(v);
  }

  lemma MirrorRepeatInside(content: Sampler, u: real, v: real)
    requires 0.0 <= u < 1.0 && 0.0 <= v < 1.0
    ensures SampleColor(MirrorRepeat(content), u, v) == SampleColor(content, u, v)
  {
    FracFixes(u);
    FracFixes(v);
  }

  // ---------------------------------------------------------------------
  // The wrap of RepeatTexture

  /** The Java remainder keeps the sign of u and stays below 1 in size. */
  lemma JavaRem1Range(u: real)
    ensures u >= 0.0 ==> 0.0 <= JavaRem1(u) < 1.0
    ensures u < 0.0 ==> -1.0 < JavaRem1(u) <= 0.0
    ensures -1.0 < JavaRem1(u) < 1.0
  {
  }

  lemma JavaRem1Fixes(u: real)
    requires 0.0 <= u < 1.0
    ensures JavaRem1(u) == u
  {
  }

  /** For non-negative u the remainder is the floor wrap; below zero it differs by one unless u is whole. */
  lemma JavaRem1VersusFrac(u: real)
    ensures u >= 0.0 ==> JavaRem1(u) == Frac(u)
    ensures u < 0.0 && Frac(u) != 0.0 ==> JavaRem1(u) == Frac(u) - 1.0
    ensures u < 0.0 && Frac(u) == 0.0 ==> JavaRem1(u) == 0.0
  {
    if u < 0.0 && Frac(u) != 0.0 {
      assert (-u).Floor == -u.Floor - 1;
    }
    if u < 0.0 && Frac(u) == 0.0 {
      assert (-u).Floor == -u.Floor;
    }
  }

  lemma RepeatDelegates(content: Sampler, u: real, v: real)
    ensures SampleColor(Repeat(content), u, v) == SampleColor(content, JavaRem1(u), JavaRem1(v))
    ensures 0.0 <= u < 1.0 && 0.0 <= v < 1.0 ==> SampleColor(Repeat(content), u, v) == SampleColor(content, u, v)
  {
    if 0.0 <= u < 1.0 && 0.0 <= v < 1.0 {
      JavaRem1Fixes(u);
      JavaRem1Fixes(v);
    }
  }

  // ---------------------------------------------------------------------
  // ClampTexture

  /** Outside the closed unit square the fallback colour comes back. */
  lemma ClampOutside(content: Sampler, fallback: Color, u: real, v: real)
    requires u < 0.0 || u > 1.0 || v < 0.0 || v > 1.0
    ensures SampleColor(Clamp(content, fallback), u, v) == fallback
  {
  }

  /** Inside, boundary included, the content is asked at the same coordinates. */
  lemma ClampInside(content: Sampler, fallback: Color, u: real, v: real)
    requires 0.0 <= u <= 1.0 && 0.0 <= v <= 1.0
    ensures SampleColor(Clamp(content, fallback), u, v) == SampleColor(content, u, v)
  {
  }

  /** The gradient texture: red grows with u, green with v, and blue stays 0. */
  lemma RectTextureChannels(u: real, v: real)
    ensures SampleColor(RectTexture, u, v) == Color(u, v, 0.0)
  {
    ScaleChannel(u, v);
    assert SampleColor(RectTexture, u, v) == ColorAdd(ColorScale(u, Red), ColorScale(v, Green));
  }

  lemma ScaleChannel(u: real, v: real)
    ensures ColorScale(u, Red) == Color(u, 0.0, 0.0)
    ensures ColorScale(v, Green) == Color(0.0, v, 0.0)
  {
  }
}
