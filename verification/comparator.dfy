/** The image comparator's reading of an engine result: `delta` is rounded
    and capped at 1000, then mapped to a band, a verdict and a confidence.
    The thresholds repeat the engine's, but are applied to the rounded
    score rather than to `delta` itself. */
module Comparator {
  import opened Js
  import Trident
  import Hashing

  /** `Math.min(1000, Math.round(delta))`: a whole number, or `NaN` when `delta` is `NaN`. */
  datatype Score = Whole(n: int) | NotANumber

  datatype Verdict = Consistent | Modified | Different

  /** The record the comparator displays. */
  datatype AuditView = AuditView(
    score: Score,
    band: Trident.Band,
    verdict: Verdict,
    confidence: real,
    delta: Number,
    breakdown: Trident.Breakdown,
    config: Trident.TridentConfig)

  const MaxUiScore: int := 1000

  /** The score is capped from above only; below the cap it is the integer
      nearest to `delta` (halves rounded up). */
  function UiScore(delta: Number): (s: Score)
    ensures s.NotANumber? <==> delta.NaN?
    ensures s.Whole? ==> s.n <= MaxUiScore && s.n as real <= delta.v + 0.5
    ensures s.Whole? ==> s.n == MaxUiScore || delta.v - 0.5 < s.n as real
  {
    if delta.NaN? then NotANumber else Whole(MinInt(MaxUiScore, Round(delta.v)))
  }

  /** `score <= 30` and the other tests are all false for `NaN`, which
      therefore falls through to HIGH. */
  function UiBand(s: Score): Trident.Band {
    if s.Whole? && s.n <= 30 then Trident.Minimal
    else if s.Whole? && s.n <= 120 then Trident.Low
    else if s.Whole? && s.n <= 300 then Trident.Moderate
    else Trident.High
  }

  function UiVerdict(s: Score): Verdict {
    if s.Whole? && s.n <= 30 then Consistent
    else if s.Whole? && s.n <= 300 then Modified
    else Different
  }

  /** `Math.max(0, (ssim + 1) / 2)`: the SSIM score rescaled from [-1, 1] to [0, 1]. */
  function Confidence(ssim: real): (c: real)
    ensures c >= 0.0
    ensures -1.0 <= ssim <= 1.0 ==> c == (ssim + 1.0) / 2.0 && c <= 1.0
    ensures ssim <= -1.0 ==> c == 0.0
  {
    MaxReal(0.0, (ssim + 1.0) / 2.0)
  }

  /** Lines 125-132 of the comparison handler. */
  function Classify(t: Trident.TridentScore): (v: AuditView)
    ensures v.delta == t.delta && v.breakdown == t.breakdown && v.config == t.config
    ensures v.score == UiScore(t.delta) && v.confidence == Confidence(t.ssim.score)
    ensures v.band == UiBand(v.score) && v.verdict == UiVerdict(v.score)
  {
    var score := UiScore(t.delta);
    AuditView(score, UiBand(score), UiVerdict(score), Confidence(t.ssim.score), t.delta, t.breakdown, t.config)
  }

  /** The verdict is a coarsening of the band: CONSISTENT exactly for
      MINIMAL, DIFFERENT exactly for HIGH, MODIFIED for the two in between. */
  lemma VerdictFollowsBand(s: Score)
    ensures UiVerdict(s) == Consistent <==> UiBand(s) == Trident.Minimal
    ensures UiVerdict(s) == Different <==> UiBand(s) == Trident.High
    ensures UiVerdict(s) == Modified <==> UiBand(s) == Trident.Low || UiBand(s) == Trident.Moderate
  {
  }

  /** A larger score never gets a lower band, and the band edges are inclusive below. */
  lemma UiBandMonotone(n1: int, n2: int)
    requires n1 <= n2
    ensures Trident.BandRank(UiBand(Whole(n1))) <= Trident.BandRank(UiBand(Whole(n2)))
    ensures UiBand(Whole(30)) == Trident.Minimal && UiBand(Whole(31)) == Trident.Low
    ensures UiBand(Whole(120)) == Trident.Low && UiBand(Whole(121)) == Trident.Moderate
    ensures UiBand(Whole(300)) == Trident.Moderate && UiBand(Whole(301)) == Trident.High
  {
  }

  /** The score never exceeds 1000, whatever `delta` is. */
  lemma ScoreCapped(t: Trident.TridentScore)
    ensures Classify(t).score.Whole? ==> Classify(t).score.n <= MaxUiScore
    ensures Classify(t).score.NotANumber? <==> t.delta.NaN?
  {
  }

  /** With an SSIM score in [-1, 1] the confidence is in [0, 1]. */
  lemma ConfidenceInRange(t: Trident.TridentScore)
    requires -1.0 <= t.ssim.score <= 1.0
    ensures 0.0 <= Classify(t).confidence <= 1.0
  {
  }

  /** QuickScan leaves the SSIM score at 0, so its confidence is always 0.5. */
  lemma QuickScanConfidenceHalf(c: Trident.TridentConfig, imageA: seq<seq<Hashing.Pixel>>, imageB: seq<seq<Hashing.Pixel>>,
                                mssim: real, detector: Option<Trident.Detections>)
    requires c.mode == Trident.QuickScan
    requires Trident.IsGrid(imageA, Trident.Bits) && Trident.IsGrid(imageB, Trident.Bits)
    requires detector.Some? ==> Trident.ValidDetections(detector.value)
    ensures var r := Trident.Compare(c, imageA, imageB, mssim, detector);
            r.Normal? && Classify(r.value).confidence == 0.5
  {
    Trident.ModeGating(c, imageA, imageB, mssim, detector);
  }

  /** Rounding before banding: a `delta` just above 30 (below 30.5) is LOW
      for the engine but MINIMAL and CONSISTENT for the comparator. */
  lemma RoundingGapAtThirty(d: real)
    requires 30.0 < d < 30.5
    ensures Trident.EngineBand(Finite(d)) == Trident.Low
    ensures UiBand(UiScore(Finite(d))) == Trident.Minimal
    ensures UiVerdict(UiScore(Finite(d))) == Consistent
  {
    assert Round(d) == 30;
  }

  /** For a finite `delta` the comparator's band and the engine's band agree
      exactly when `delta` avoids the three open gaps just above 30, 120
      and 300, where rounding down moves it back into the lower band. */
  lemma BandsAgreeIff(d: real)
    ensures UiBand(UiScore(Finite(d))) == Trident.EngineBand(Finite(d))
            <==> !(30.0 < d < 30.5 || 120.0 < d < 120.5 || 300.0 < d < 300.5)
  {
    var n := Round(d);
    assert n <= 30 <==> d < 30.5;
    assert n <= 120 <==> d < 120.5;
    assert n <= 300 <==> d < 300.5;
  }

  /** A `NaN` delta (SemanticAI with no object in either image) is MINIMAL
      for the engine but HIGH and DIFFERENT for the comparator. */
  lemma NaNDeltaDisagrees()
    ensures Trident.EngineBand(NaN) == Trident.Minimal
    ensures UiBand(UiScore(NaN)) == Trident.High
    ensures UiVerdict(UiScore(NaN)) == Different
  {
  }
}
