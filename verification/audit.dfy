/** The multi-frame audit scorer (`computeAuditScore`): every reference
    frame is paired with its nearest candidate frame under a fixed
    0.6 dHash / 0.4 pHash fusion; the best pairing anywhere gives the visual
    signal, the share of references left unmatched gives the temporal signal,
    and the two (plus an optional audio signal) are fused, quantized to
    0..1023 and banded. */
module Audit {
  import opened Js
  import opened Hashing

  datatype FrameCandidate = FrameCandidate(id: string, hashes: DualHash)

  /** A reference frame (`frameLabel` is the source's `label`).  Its declared `weight` takes no part in any of the scoring below. */
  datatype ReferenceFrame = ReferenceFrame(frameLabel: string, hashes: DualHash, weight: real)

  datatype FrameMatchResult = FrameMatchResult(refLabel: string, bestCandId: string, visualDistance: real, isMatch: bool)

  datatype AuditBand = VerifiedOriginal | PlatformConsistent | ModifiedContent | DivergentSource

  datatype AuditResult = AuditResult(
    score: int,
    band: AuditBand,
    dVisual: real,
    dTemporal: real,
    dAudio: Option<real>,
    bestMatchLabel: string,
    bestMatchCandId: Option<string>,
    confidence: real,
    frameDetails: seq<FrameMatchResult>)

  /** Fixed per-pair fusion of the two normalized Hamming distances; distinct from the Trident mode weights. */
  const DHashFusion: real := 0.6
  const PHashFusion: real := 0.4
  /** A reference counts as matched when its best fused distance is at most this. */
  const VisualMatchThreshold: real := 0.25
  /** Neither a candidate nor a global best has been found yet. */
  const NoneLabel: string := "None"
  const MaxScore: int := 1023

  // ---------------------------------------------------------------------
  // Per-pair distance and nearest candidate
  // ---------------------------------------------------------------------

  /** `0.6 * dHamming / 64 + 0.4 * pHamming / 64`.  The divisor is 64 whatever
      the hash lengths, so the distance stays within [0, 1] only for hashes of
      at most 64 characters, as every hash computed by the engine is. */
  function PairDistance(r: ReferenceFrame, c: FrameCandidate): (d: real)
    ensures 0.0 <= d
    ensures |r.hashes.dHash| <= HashBits && |r.hashes.pHash| <= HashBits ==> d <= 1.0
    ensures |c.hashes.dHash| <= HashBits && |c.hashes.pHash| <= HashBits ==> d <= 1.0
  {
    var normD := HammingDistance(r.hashes.dHash, c.hashes.dHash) as real / 64.0;
    var normP := HammingDistance(r.hashes.pHash, c.hashes.pHash) as real / 64.0;
    DHashFusion * normD + PHashFusion * normP
  }

  /** The outcome of a running-minimum scan: the best distance and the
      index that achieved it, if any. */
  datatype Nearest = Nearest(dist: real, at: Option<nat>)

  /** The running-minimum loop both levels of `computeAuditScore` use: the
      best starts at 1.0 with no index and is replaced only on a strictly
      smaller distance.  So the first index achieving the minimum wins, and
      when every distance is 1.0 or more the result stays (1.0, none). */
  function FirstMinimum(ds: seq<real>): (b: Nearest)
    ensures b.dist <= 1.0
    ensures b.at.None? ==> b.dist == 1.0 && forall j :: 0 <= j < |ds| ==> ds[j] >= 1.0
    ensures b.at.Some? ==> b.at.value < |ds| && b.dist == ds[b.at.value] < 1.0
    ensures b.at.Some? ==> forall j :: 0 <= j < b.at.value ==> ds[j] > b.dist
    ensures forall j :: 0 <= j < |ds| ==> b.dist <= ds[j]
  {
    if |ds| == 0 then Nearest(1.0, None)
    else
      var prev := FirstMinimum(ds[..|ds| - 1]);
      var d := ds[|ds| - 1];
      if d < prev.dist then Nearest(d, Some(|ds| - 1)) else prev
  }

  /** The fused distance from one reference to every candidate, in candidate order. */
  function Distances(r: ReferenceFrame, cands: seq<FrameCandidate>): (ds: seq<real>)
    ensures |ds| == |cands|
    ensures forall j :: 0 <= j < |cands| ==> ds[j] == PairDistance(r, cands[j])
  {
    seq(|cands|, j requires 0 <= j < |cands| => PairDistance(r, cands[j]))
  }

  /** The inner loop of `computeAuditScore`: the nearest candidate of one reference. */
  function NearestCandidate(r: ReferenceFrame, cands: seq<FrameCandidate>): (b: Nearest)
    ensures 0.0 <= b.dist <= 1.0
    ensures b.at.None? ==> b.dist == 1.0 && forall j :: 0 <= j < |cands| ==> PairDistance(r, cands[j]) >= 1.0
    ensures b.at.Some? ==> b.at.value < |cands| && b.dist == PairDistance(r, cands[b.at.value]) < 1.0
    ensures b.at.Some? ==> forall j :: 0 <= j < b.at.value ==> PairDistance(r, cands[j]) > b.dist
    ensures forall j :: 0 <= j < |cands| ==> b.dist <= PairDistance(r, cands[j])
  {
    FirstMinimum(Distances(r, cands))
  }

  function CandidateId(cands: seq<FrameCandidate>, i: Option<nat>): string
    requires i.Some? ==> i.value < |cands|
  {
    if i.Some? then cands[i.value].id else NoneLabel
  }

  /** The `frameDetails` entry for one reference. */
  function Detail(r: ReferenceFrame, cands: seq<FrameCandidate>): (m: FrameMatchResult)
    ensures 0.0 <= m.visualDistance <= 1.0
  {
    var b := NearestCandidate(r, cands);
    FrameMatchResult(r.frameLabel, CandidateId(cands, b.at), b.dist, b.dist <= VisualMatchThreshold)
  }

  // ---------------------------------------------------------------------
  // The outer loop over references
  // ---------------------------------------------------------------------

  /** One detail per reference, in reference order. */
  function Details(cands: seq<FrameCandidate>, refs: seq<ReferenceFrame>): (ds: seq<FrameMatchResult>)
    ensures |ds| == |refs|
    ensures forall i :: 0 <= i < |refs| ==> ds[i] == Detail(refs[i], cands)
  {
    seq(|refs|, i requires 0 <= i < |refs| => Detail(refs[i], cands))
  }

  function VisualDistances(details: seq<FrameMatchResult>): (vs: seq<real>)
    ensures |vs| == |details|
    ensures forall i :: 0 <= i < |details| ==> vs[i] == details[i].visualDistance
  {
    seq(|details|, i requires 0 <= i < |details| => details[i].visualDistance)
  }

  /** The labels of the matched references. */
  function MatchedLabels(details: seq<FrameMatchResult>): set<string> {
    set i | 0 <= i < |details| && details[i].isMatch :: details[i].refLabel
  }

  lemma MatchedLabelsSnoc(details: seq<FrameMatchResult>)
    requires details != []
    ensures var n := |details| - 1;
            MatchedLabels(details) == MatchedLabels(details[..n])
              + (if details[n].isMatch then {details[n].refLabel} else {})
  {
    var n := |details| - 1;
    assert MatchedLabels(details) == MatchedLabels(details[..n])
        + (if details[n].isMatch then {details[n].refLabel} else {});
  }

  /** The `satisfiedRefs` set: the label of every matched reference is added
      as the loop reaches it; a label seen twice is stored once. */
  function Satisfied(details: seq<FrameMatchResult>): (s: set<string>)
    ensures s == MatchedLabels(details)
    ensures |s| <= |details|
  {
    if details == [] then {}
    else
      var n := |details| - 1;
      var prev := Satisfied(details[..n]);
      MatchedLabelsSnoc(details);
      if details[n].isMatch then prev + {details[n].refLabel} else prev
  }

  // ---------------------------------------------------------------------
  // Fusion, quantization and bands
  // ---------------------------------------------------------------------

  /** `1 - matched / references`, with the ratio taken as 0 when there are no references. */
  function TemporalDistance(matched: nat, total: nat): (d: real)
    ensures matched <= total ==> 0.0 <= d <= 1.0
    ensures matched == 0 ==> d == 1.0
  {
    if total > 0 then
      RatioAtMostOne(matched as real, total as real);
      1.0 - matched as real / total as real
    else 1.0
  }

  lemma RatioAtMostOne(a: real, b: real)
    requires b > 0.0
    ensures 0.0 <= a <= b ==> 0.0 <= a / b <= 1.0
  {
    if 0.0 <= a <= b {
      assert a / b * b == a;
    }
  }

  /** The audio argument alone selects the formula: `0.65 V + 0.35 T` without
      audio, `0.45 V + 0.35 A + 0.20 T` with it. */
  function FuseSignals(dVisual: real, dTemporal: real, audio: Option<real>): real {
    if audio.None? then 0.65 * dVisual + 0.35 * dTemporal
    else 0.45 * dVisual + 0.35 * audio.value + 0.20 * dTemporal
  }

  /** `Math.min(1023, Math.round(total * 1023))`: clamped from above only. */
  function Quantize(total: real): (score: int)
    ensures score <= MaxScore
    ensures 0.0 <= total ==> 0 <= score
    ensures total <= 1.0 ==> score as real <= total * 1023.0 + 0.5
    ensures total * 1023.0 - 0.5 < score as real || score == MaxScore
  {
    MinInt(MaxScore, Round(total * 1023.0))
  }

  /** `getConfidenceBand`. */
  function ConfidenceBand(score: int): AuditBand {
    if score <= 30 then VerifiedOriginal
    else if score <= 120 then PlatformConsistent
    else if score <= 300 then ModifiedContent
    else DivergentSource
  }

  /** Severity order of the bands. */
  function BandRank(b: AuditBand): nat {
    match b
    case VerifiedOriginal => 0
    case PlatformConsistent => 1
    case ModifiedContent => 2
    case DivergentSource => 3
  }

  /** `computeAuditScore`. */
  function ComputeAuditScore(cands: seq<FrameCandidate>, refs: seq<ReferenceFrame>, audio: Option<real>): (r: AuditResult)
  {
    var details := Details(cands, refs);
    var best := FirstMinimum(VisualDistances(details));
    var dVisual := best.dist;
    var dTemporal := TemporalDistance(|Satisfied(details)|, |refs|);
    var total := FuseSignals(dVisual, dTemporal, audio);
    var score := Quantize(total);
    AuditResult(
      score,
      ConfidenceBand(score),
      dVisual,
      dTemporal,
      if audio.Some? && audio.value != 0.0 then audio else None,
      if best.at.Some? then refs[best.at.value].frameLabel else NoneLabel,
      if best.at.Some? then Some(details[best.at.value].bestCandId) else None,
      MaxReal(0.0, 1.0 - total),
      details)
  }

  // ---------------------------------------------------------------------
  // Properties of the audit result
  // ---------------------------------------------------------------------

  /** `frameDetails` has one entry per reference, in reference order, naming
      the reference, its nearest candidate and distance, and flagging a match
      exactly when that distance is at most 0.25. */
  lemma AuditFrameDetails(cands: seq<FrameCandidate>, refs: seq<ReferenceFrame>, audio: Option<real>)
    ensures var r := ComputeAuditScore(cands, refs, audio);
            && |r.frameDetails| == |refs|
            && forall i :: 0 <= i < |refs| ==>
                 && r.frameDetails[i].refLabel == refs[i].frameLabel
                 && r.frameDetails[i].visualDistance == NearestCandidate(refs[i], cands).dist
                 && r.frameDetails[i].bestCandId == CandidateId(cands, NearestCandidate(refs[i], cands).at)
                 && (r.frameDetails[i].isMatch <==> r.frameDetails[i].visualDistance <= VisualMatchThreshold)
  {
  }

  /** `dVisual` is the minimum of the per-reference best distances, or 1.0
      when none is below 1.0; the best-match fields are filled exactly when
      some reference got below 1.0. */
  lemma VisualIsMinimum(cands: seq<FrameCandidate>, refs: seq<ReferenceFrame>, audio: Option<real>)
    ensures var r := ComputeAuditScore(cands, refs, audio);
            && 0.0 <= r.dVisual <= 1.0
            && (forall i :: 0 <= i < |refs| ==> r.dVisual <= r.frameDetails[i].visualDistance)
            && (r.dVisual == 1.0 || exists i :: 0 <= i < |refs| && r.dVisual == r.frameDetails[i].visualDistance)
            && (r.bestMatchCandId.None? <==> r.dVisual == 1.0)
            && (r.bestMatchCandId.None? ==> r.bestMatchLabel == NoneLabel)
            && (r.bestMatchCandId.Some? ==>
                  exists j :: 0 <= j < |refs|
                    && r.frameDetails[j].visualDistance == r.dVisual
                    && r.bestMatchLabel == refs[j].frameLabel
                    && r.bestMatchCandId == Some(r.frameDetails[j].bestCandId)
                    && forall i :: 0 <= i < j ==> r.frameDetails[i].visualDistance > r.dVisual)
  {
    BestMatchIsFirstReaching(cands, refs, audio);
    var r := ComputeAuditScore(cands, refs, audio);
    var details := Details(cands, refs);
    var vs := VisualDistances(details);
    var best := FirstMinimum(vs);
    assert r.frameDetails == details && r.dVisual == best.dist;
    assert r.bestMatchCandId.None? <==> best.at.None?;
    if best.at.Some? {
      assert details[best.at.value].visualDistance == best.dist;
    } else {
      assert r.bestMatchLabel == NoneLabel;
    }
  }

  /** When some reference gets below 1.0, the best-match fields name the
      first reference that reaches `dVisual` (the update is a strict `<`,
      so a later tie does not replace it) and that reference's nearest
      candidate. */
  lemma BestMatchIsFirstReaching(cands: seq<FrameCandidate>, refs: seq<ReferenceFrame>, audio: Option<real>)
    ensures var r := ComputeAuditScore(cands, refs, audio);
            r.bestMatchCandId.Some? ==>
              exists j :: 0 <= j < |refs|
                && r.frameDetails[j].visualDistance == r.dVisual
                && r.bestMatchLabel == refs[j].frameLabel
                && r.bestMatchCandId == Some(r.frameDetails[j].bestCandId)
                && forall i :: 0 <= i < j ==> r.frameDetails[i].visualDistance > r.dVisual
  {
    var r := ComputeAuditScore(cands, refs, audio);
    var details := Details(cands, refs);
    var best := FirstMinimum(VisualDistances(details));
    assert r.frameDetails == details && r.dVisual == best.dist;
    if best.at.Some? {
      var j := best.at.value;
      FirstReachingDetail(details);
      assert r.bestMatchLabel == refs[j].frameLabel;
      assert r.bestMatchCandId == Some(details[j].bestCandId);
    }
  }

  /** The running minimum over the details stops at the first detail reaching it. */
  lemma FirstReachingDetail(details: seq<FrameMatchResult>)
    ensures var b := FirstMinimum(VisualDistances(details));
            b.at.Some? ==>
              && b.at.value < |details|
              && details[b.at.value].visualDistance == b.dist
              && forall i :: 0 <= i < b.at.value ==> details[i].visualDistance > b.dist
  {
    var vs := VisualDistances(details);
    assert forall i :: 0 <= i < |details| ==> details[i].visualDistance == vs[i];
  }

  /** `dTemporal` lies in [0, 1]: at most one label is added per reference. */
  lemma TemporalInRange(cands: seq<FrameCandidate>, refs: seq<ReferenceFrame>, audio: Option<real>)
    ensures var r := ComputeAuditScore(cands, refs, audio);
            0.0 <= r.dTemporal <= 1.0
  {
    var details := Details(cands, refs);
    var n := |Satisfied(details)|;
    assert ComputeAuditScore(cands, refs, audio).dTemporal == TemporalDistance(n, |refs|);
  }

  /** With the audio signal absent or within [0, 1], the score lies in
      [0, 1023] and the confidence `max(0, 1 - total)` in [0, 1]. */
  lemma AuditScoreInRange(cands: seq<FrameCandidate>, refs: seq<ReferenceFrame>, audio: Option<real>)
    requires audio.None? || 0.0 <= audio.value <= 1.0
    ensures var r := ComputeAuditScore(cands, refs, audio);
            && 0 <= r.score <= MaxScore
            && 0.0 <= r.confidence <= 1.0
            && r.band == ConfidenceBand(r.score)
  {
    VisualIsMinimum(cands, refs, audio);
    TemporalInRange(cands, refs, audio);
  }

  /** Degenerate inputs are defined: with no references, or no candidates at
      all, and no audio, both signals are 1.0 and the score is the maximal
      1023 (DIVERGENT_SOURCE) with confidence 0; nothing divides by zero. */
  lemma EmptyInputsScoreMaximal(cands: seq<FrameCandidate>, refs: seq<ReferenceFrame>)
    requires refs == [] || cands == []
    ensures var r := ComputeAuditScore(cands, refs, None);
            && r.dVisual == 1.0 && r.dTemporal == 1.0
            && r.score == MaxScore && r.band == DivergentSource
            && r.confidence == 0.0 && r.bestMatchLabel == NoneLabel
  {
    var details := Details(cands, refs);
    forall i | 0 <= i < |refs| ensures !details[i].isMatch && details[i].visualDistance == 1.0 {
      assert NearestCandidate(refs[i], cands).at.None?;
    }
    assert MatchedLabels(details) == {};
    assert Round(1023.0) == 1023;
  }

  /** The indices of the matched references. */
  function MatchedIndices(details: seq<FrameMatchResult>): set<nat> {
    set i: nat | i < |details| && details[i].isMatch
  }

  predicate DistinctLabels(details: seq<FrameMatchResult>) {
    forall i, j :: 0 <= i < j < |details| ==> details[i].refLabel != details[j].refLabel
  }

  /** With pairwise distinct labels the satisfied set has one label per matched reference. */
  lemma {:induction false} DistinctLabelsCount(details: seq<FrameMatchResult>)
    requires DistinctLabels(details)
    ensures |MatchedLabels(details)| == |MatchedIndices(details)|
  {
    if details != [] {
      var n := |details| - 1;
      var prefix := details[..n];
      DistinctPrefix(details, n);
      DistinctLabelsCount(prefix);
      MatchedLabelsSnoc(details);
      MatchedIndicesSnoc(details);
      LastLabelIsNew(details);
    }
  }

  lemma DistinctPrefix(details: seq<FrameMatchResult>, n: nat)
    requires DistinctLabels(details) && n <= |details|
    ensures DistinctLabels(details[..n])
  {
    assert forall i :: 0 <= i < n ==> details[..n][i] == details[i];
  }

  lemma MatchedIndicesSnoc(details: seq<FrameMatchResult>)
    requires details != []
    ensures var n := |details| - 1;
            && MatchedIndices(details) == MatchedIndices(details[..n]) + (if details[n].isMatch then {n} else {})
            && n !in MatchedIndices(details[..n])
  {
    var n := |details| - 1;
    assert MatchedIndices(details) == MatchedIndices(details[..n]) + (if details[n].isMatch then {n} else {});
  }

  /** Under distinct labels the last reference's label was not matched before it. */
  lemma LastLabelIsNew(details: seq<FrameMatchResult>)
    requires details != [] && DistinctLabels(details)
    ensures details[|details| - 1].refLabel !in MatchedLabels(details[..|details| - 1])
  {
    var n := |details| - 1;
    var prefix := details[..n];
    forall i | 0 <= i < n ensures prefix[i].refLabel != details[n].refLabel {
      assert prefix[i] == details[i];
    }
  }


  /** With pairwise distinct labels, `dTemporal = 1 - matched / references`. */
  lemma TemporalDistinctLabels(cands: seq<FrameCandidate>, refs: seq<ReferenceFrame>, audio: Option<real>)
    requires forall i, j :: 0 <= i < j < |refs| ==> refs[i].frameLabel != refs[j].frameLabel
    ensures var r := ComputeAuditScore(cands, refs, audio);
            r.dTemporal == TemporalDistance(|MatchedIndices(r.frameDetails)|, |refs|)
  {
    DistinctLabelsCount(Details(cands, refs));
  }

  /** Four references with distinct labels of which exactly one is matched give `dTemporal == 0.75`. */
  lemma OneOfFourMatched(cands: seq<FrameCandidate>, refs: seq<ReferenceFrame>)
    requires |refs| == 4
    requires forall i, j :: 0 <= i < j < |refs| ==> refs[i].frameLabel != refs[j].frameLabel
    requires |MatchedIndices(Details(cands, refs))| == 1
    ensures ComputeAuditScore(cands, refs, None).dTemporal == 0.75
  {
    TemporalDistinctLabels(cands, refs, None);
  }

  lemma SharedLabelCollapses(details: seq<FrameMatchResult>, shared: string)
    requires forall i :: 0 <= i < |details| ==> details[i].refLabel == shared
    requires MatchedIndices(details) != {}
    ensures MatchedLabels(details) == {shared}
  {
    var i :| i in MatchedIndices(details);
    assert shared in MatchedLabels(details);
  }

  /** `dTemporal` is computed from the set of matched labels. */
  lemma TemporalFromLabels(cands: seq<FrameCandidate>, refs: seq<ReferenceFrame>, audio: Option<real>)
    ensures ComputeAuditScore(cands, refs, audio).dTemporal
            == TemporalDistance(|MatchedLabels(Details(cands, refs))|, |refs|)
  {
    var details := Details(cands, refs);
    assert Satisfied(details) == MatchedLabels(details);
  }

  /** Duplicate labels are collapsed by the set: references that all share one
      label count as a single satisfied reference, however many match. */
  lemma SharedLabelSingleSatisfied(cands: seq<FrameCandidate>, refs: seq<ReferenceFrame>, shared: string)
    requires forall i :: 0 <= i < |refs| ==> refs[i].frameLabel == shared
    requires MatchedIndices(Details(cands, refs)) != {}
    ensures |MatchedLabels(Details(cands, refs))| == 1
  {
    var details := Details(cands, refs);
    forall k | 0 <= k < |details| ensures details[k].refLabel == shared {
      assert details[k].refLabel == refs[k].frameLabel;
    }
    SharedLabelCollapses(details, shared);
  }

  /** Hence `dTemporal` is `1 - 1 / references` when at least one of them matches. */
  lemma DuplicateLabelsCountedOnce(cands: seq<FrameCandidate>, refs: seq<ReferenceFrame>, shared: string)
    requires |refs| > 0
    requires forall i :: 0 <= i < |refs| ==> refs[i].frameLabel == shared
    requires MatchedIndices(Details(cands, refs)) != {}
    ensures ComputeAuditScore(cands, refs, None).dTemporal == 1.0 - 1.0 / |refs| as real
  {
    SharedLabelSingleSatisfied(cands, refs, shared);
    TemporalFromLabels(cands, refs, None);
  }

  /** `audioScore || undefined`: an audio distance of exactly 0 selects the
      audio formula but is reported as absent in the signals. */
  lemma ZeroAudioReportedAbsent(cands: seq<FrameCandidate>, refs: seq<ReferenceFrame>)
    ensures var r := ComputeAuditScore(cands, refs, Some(0.0));
            && r.dAudio.None?
            && r.confidence == MaxReal(0.0, 1.0 - (0.45 * r.dVisual + 0.20 * r.dTemporal))
  {
  }

  /** The bands are ordered: a larger score never gets a less severe band. */
  lemma ConfidenceBandMonotone(s1: int, s2: int)
    requires s1 <= s2
    ensures BandRank(ConfidenceBand(s1)) <= BandRank(ConfidenceBand(s2))
  {
  }

  /** The band edges are inclusive on the lower band: 30, 120 and 300 stay in
      the lower band and 31, 121 and 301 move up. */
  lemma ConfidenceBandEdges()
    ensures ConfidenceBand(0) == VerifiedOriginal && ConfidenceBand(30) == VerifiedOriginal
    ensures ConfidenceBand(31) == PlatformConsistent && ConfidenceBand(120) == PlatformConsistent
    ensures ConfidenceBand(121) == ModifiedContent && ConfidenceBand(300) == ModifiedContent
    ensures ConfidenceBand(301) == DivergentSource && ConfidenceBand(MaxScore) == DivergentSource
  {
  }
}
