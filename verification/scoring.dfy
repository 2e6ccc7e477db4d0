/**
  The arithmetic of the photo score. The image-derived measurements
  (normalised sharpness, brightness, dominant colour, face count, capture
  month) arrive as `Features`; everything computed from them is here.
*/
module Scoring {
  import opened Wrappers

  /** A dominant colour as the integer RGB centroid the analyser returns. */
  datatype Rgb = Rgb(r: int, g: int, b: int)

  predicate InRange(c: Rgb) {
    0 <= c.r <= 255 && 0 <= c.g <= 255 && 0 <= c.b <= 255
  }

  /** Warmth of a colour: positive leans red, negative leans blue. */
  function ColorWarmth(c: Rgb): (w: real)
    ensures w * 255.0 == (c.r - c.b) as real
    ensures w > 0.0 <==> c.r > c.b
    ensures w < 0.0 <==> c.r < c.b
    ensures InRange(c) ==> -1.0 <= w <= 1.0
  {
    (c.r - c.b) as real / 255.0
  }

  /** The capture month, when the timestamp could be converted, is one of `a`, `b`, `c`. */
  predicate MonthIn(month: Option<int>, a: int, b: int, c: int) {
    month.Some? && (month.value == a || month.value == b || month.value == c)
  }

  predicate IsWinter(month: Option<int>) { MonthIn(month, 12, 1, 2) }
  predicate IsSpring(month: Option<int>) { MonthIn(month, 3, 4, 5) }
  predicate IsSummer(month: Option<int>) { MonthIn(month, 6, 7, 8) }
  predicate IsAutumn(month: Option<int>) { MonthIn(month, 9, 10, 11) }

  /** A month for which the piecewise policy has a season. */
  predicate HasSeason(month: Option<int>) {
    IsWinter(month) || IsSpring(month) || IsSummer(month) || IsAutumn(month)
  }

  /**
    How well a warmth suits the capture month: winter favours cool colours,
    summer and autumn warm ones, spring any strong tint; no month, or a
    value outside 1..12, is neutral.
  */
  function SeasonScore(month: Option<int>, warmth: real): (s: real)
    ensures !HasSeason(month) ==> s == 0.5
    ensures -1.0 <= warmth <= 1.0 ==> 0.0 <= s <= 1.0
    ensures IsSpring(month) ==> 0.5 <= s
    ensures IsSpring(month) && -1.0 <= warmth <= 1.0 ==> s <= 0.7
  {
    if IsWinter(month) then 0.5 + (-warmth) * 0.5
    else if IsSpring(month) then 0.5 + (if warmth < 0.0 then -warmth else warmth) * 0.2
    else if IsSummer(month) then 0.5 + warmth * 0.5
    else if IsAutumn(month) then 0.5 + warmth * 0.4
    else 0.5
  }

  /** Season score of a dominant colour for a capture month. */
  function SeasonMatchScore(month: Option<int>, dominant: Rgb): (s: real)
    ensures InRange(dominant) ==> 0.0 <= s <= 1.0
    ensures !HasSeason(month) ==> s == 0.5
  {
    SeasonScore(month, ColorWarmth(dominant))
  }

  /** The slope of each season's line in the warmth, and spring's symmetry. */
  lemma SeasonPreference(month: Option<int>, w1: real, w2: real)
    requires w1 < w2
    ensures IsWinter(month) ==> SeasonScore(month, w1) > SeasonScore(month, w2)
    ensures IsSummer(month) || IsAutumn(month) ==> SeasonScore(month, w1) < SeasonScore(month, w2)
    ensures IsSpring(month) ==> SeasonScore(month, w1) == SeasonScore(month, -w1)
    ensures IsSpring(month) && 0.0 <= w1 ==> SeasonScore(month, w1) < SeasonScore(month, w2)
  {
  }

  /** The piecewise lines, season by season. */
  lemma SeasonLines(month: Option<int>, w: real)
    ensures IsWinter(month) ==> SeasonScore(month, w) == 0.5 - 0.5 * w
    ensures IsSpring(month) && w >= 0.0 ==> SeasonScore(month, w) == 0.5 + 0.2 * w
    ensures IsSpring(month) && w < 0.0 ==> SeasonScore(month, w) == 0.5 - 0.2 * w
    ensures IsSummer(month) ==> SeasonScore(month, w) == 0.5 + 0.5 * w
    ensures IsAutumn(month) ==> SeasonScore(month, w) == 0.5 + 0.4 * w
  {
  }

  /** January with warmth -0.5 scores 0.75; July with warmth 0.4 scores 0.7. */
  lemma SeasonExamples()
    ensures SeasonScore(Some(1), -0.5) == 0.75
    ensures SeasonScore(Some(7), 0.4) == 0.7
    ensures SeasonScore(None, 0.9) == 0.5
  {
  }

  /** Faces normalised for scoring: three or more faces saturate at 1. */
  function FaceNorm(faces: nat): (f: real)
    ensures 0.0 <= f <= 1.0
    ensures f == 1.0 <==> faces >= 3
    ensures faces < 3 ==> f * 3.0 == faces as real
  {
    var ratio := faces as real / 3.0;
    if 1.0 <= ratio then 1.0 else ratio
  }

  const SharpnessWeight: real := 0.55
  const BrightnessWeight: real := 0.2
  const SeasonWeight: real := 0.15
  const FaceWeight: real := 0.1

  lemma WeightsSumToOne()
    ensures SharpnessWeight + BrightnessWeight + SeasonWeight + FaceWeight == 1.0
  {
  }

  predicate Unit(x: real) {
    0.0 <= x <= 1.0
  }

  /** The fixed-weight blend of the four sub-scores. */
  function Composite(sharpness: real, brightness: real, season: real, faceNorm: real): (s: real)
    ensures Unit(sharpness) && Unit(brightness) && Unit(season) && Unit(faceNorm) ==> Unit(s)
  {
    SharpnessWeight * sharpness + BrightnessWeight * brightness
    + SeasonWeight * season + FaceWeight * faceNorm
  }

  /** Raising any sub-score never lowers the composite; it is 0 at all-zero and 1 at all-one. */
  lemma CompositeMonotone(s1: real, b1: real, e1: real, f1: real, s2: real, b2: real, e2: real, f2: real)
    requires s1 <= s2 && b1 <= b2 && e1 <= e2 && f1 <= f2
    ensures Composite(s1, b1, e1, f1) <= Composite(s2, b2, e2, f2)
    ensures Composite(0.0, 0.0, 0.0, 0.0) == 0.0
    ensures Composite(1.0, 1.0, 1.0, 1.0) == 1.0
  {
  }

  /**
    What the image analysis measured: `sharpness` is already the tanh-
    normalised Laplacian variance, `brightness` the mean grey level over
    255, `month` the capture month (None when the timestamp could not be
    converted).
  */
  datatype Features = Features(sharpness: real, brightness: real, dominant: Rgb, faces: nat, month: Option<int>)

  predicate FeaturesInRange(f: Features) {
    Unit(f.sharpness) && Unit(f.brightness) && InRange(f.dominant)
  }

  /** The analysis record: composite score plus the sub-scores behind it. */
  datatype Report = Report(score: real, sharpness: real, brightness: real, dominant: Rgb, faces: nat, season: real)

  /** The combination step of the analyser: season score, face norm, composite. */
  function ComputeScore(f: Features): (rep: Report)
    ensures rep.sharpness == f.sharpness && rep.brightness == f.brightness
    ensures rep.dominant == f.dominant && rep.faces == f.faces
    ensures rep.season == SeasonMatchScore(f.month, rep.dominant)
    ensures rep.score == Composite(rep.sharpness, rep.brightness, rep.season, FaceNorm(rep.faces))
    ensures FeaturesInRange(f) ==> Unit(rep.score) && Unit(rep.season)
  {
    var season := SeasonMatchScore(f.month, f.dominant);
    var faceNorm := FaceNorm(f.faces);
    Report(Composite(f.sharpness, f.brightness, season, faceNorm), f.sharpness, f.brightness, f.dominant, f.faces, season)
  }
}
