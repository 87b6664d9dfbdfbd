/** The Trident fusion engine: a mode fixes four weights, a 16x16 gradient
    hash gives a structural-change signal, SSIM and object detections
    (computed by libraries outside the model, so inputs here) give the
    others, and the weighted sum `delta` is banded into four tiers. */
module Trident {
  import opened Js
  import Hashing

  // ---------------------------------------------------------------------
  // Configuration and the mode table
  // ---------------------------------------------------------------------

  datatype Mode = QuickScan | DeepStructural | SemanticAI

  datatype TridentConfig = TridentConfig(
    mode: Mode,
    pHashWeight: real,
    ssimWeight: real,
    featureWeight: real,
    semanticWeight: real)

  /** `Partial<TridentConfig>`: a field left out is `None`. */
  datatype PartialConfig = PartialConfig(
    mode: Option<Mode>,
    pHashWeight: Option<real>,
    ssimWeight: Option<real>,
    featureWeight: Option<real>,
    semanticWeight: Option<real>)

  /** The constructor's defaults, before the mode table is applied. */
  const DefaultConfig: TridentConfig := TridentConfig(DeepStructural, 0.1, 0.5, 0.4, 0.0)

  function WeightSum(c: TridentConfig): real {
    c.pHashWeight + c.ssimWeight + c.featureWeight + c.semanticWeight
  }

  predicate NonNegativeWeights(c: TridentConfig) {
    c.pHashWeight >= 0.0 && c.ssimWeight >= 0.0 && c.featureWeight >= 0.0 && c.semanticWeight >= 0.0
  }

  /** `updateWeightsForMode`: all four weights are overwritten from the mode
      table; every row is non-negative and sums to exactly 1. */
  function UpdateWeightsForMode(c: TridentConfig): (r: TridentConfig)
    ensures r.mode == c.mode
    ensures NonNegativeWeights(r) && WeightSum(r) == 1.0
  {
    match c.mode
    case QuickScan => c.(pHashWeight := 1.0, ssimWeight := 0.0, featureWeight := 0.0, semanticWeight := 0.0)
    case DeepStructural => c.(pHashWeight := 0.3, ssimWeight := 0.7, featureWeight := 0.0, semanticWeight := 0.0)
    case SemanticAI => c.(pHashWeight := 0.1, ssimWeight := 0.2, featureWeight := 0.2, semanticWeight := 0.5)
  }

  /** A configuration the engine can hold: its weights are the table row of its mode. */
  predicate ModeConfig(c: TridentConfig) {
    c == UpdateWeightsForMode(c)
  }

  /** The weights after the table is applied depend on the mode alone. */
  lemma WeightsDependOnlyOnMode(c1: TridentConfig, c2: TridentConfig)
    requires c1.mode == c2.mode
    ensures UpdateWeightsForMode(c1) == UpdateWeightsForMode(c2)
    ensures ModeConfig(UpdateWeightsForMode(c1))
  {
  }

  /** The table itself, row by row. */
  lemma ModeTable(c: TridentConfig)
    ensures var r := UpdateWeightsForMode(c);
            match c.mode
            case QuickScan => (r.pHashWeight, r.ssimWeight, r.featureWeight, r.semanticWeight) == (1.0, 0.0, 0.0, 0.0)
            case DeepStructural => (r.pHashWeight, r.ssimWeight, r.featureWeight, r.semanticWeight) == (0.3, 0.7, 0.0, 0.0)
            case SemanticAI => (r.pHashWeight, r.ssimWeight, r.featureWeight, r.semanticWeight) == (0.1, 0.2, 0.2, 0.5)
  {
  }

  /** `{ ...defaultConfig, ...config }`: a given field replaces the default. */
  function Merge(d: TridentConfig, p: PartialConfig): (r: TridentConfig)
    ensures r.mode == p.mode.GetOr(d.mode)
  {
    TridentConfig(
      p.mode.GetOr(d.mode),
      p.pHashWeight.GetOr(d.pHashWeight),
      p.ssimWeight.GetOr(d.ssimWeight),
      p.featureWeight.GetOr(d.featureWeight),
      p.semanticWeight.GetOr(d.semanticWeight))
  }

  /** The configuration the constructor leaves behind. */
  function NewConfig(p: PartialConfig): (r: TridentConfig)
    ensures r.mode == p.mode.GetOr(DeepStructural)
    ensures ModeConfig(r)
  {
    UpdateWeightsForMode(Merge(DefaultConfig, p))
  }

  /** `setMode(m)`: the mode is replaced and the weights follow it. */
  function SetMode(c: TridentConfig, m: Mode): (r: TridentConfig)
    ensures r.mode == m
    ensures ModeConfig(r)
  {
    UpdateWeightsForMode(c.(mode := m))
  }

  /** Weights passed to the constructor never survive it: only the mode
      (or its default) decides the configuration, which is the one
      `setMode` would produce from any starting point. */
  lemma ConstructorIgnoresWeights(p1: PartialConfig, p2: PartialConfig, c: TridentConfig)
    requires p1.mode == p2.mode
    ensures NewConfig(p1) == NewConfig(p2)
    ensures NewConfig(p1) == SetMode(c, p1.mode.GetOr(DeepStructural))
  {
  }

  /** The configuration after `setMode(m)` depends on `m` only; in
      particular a repeated `setMode(m)` changes nothing. */
  lemma SetModeForgetsHistory(c1: TridentConfig, c2: TridentConfig, m: Mode)
    ensures SetMode(c1, m) == SetMode(c2, m)
    ensures SetMode(SetMode(c1, m), m) == SetMode(c1, m)
  {
  }

  /** The engine object: it holds one configuration, always a table row. */
  class TridentEngine {
    var config: TridentConfig

    constructor(p: PartialConfig)
      ensures config == NewConfig(p)
    {
      config := NewConfig(p);
    }

    method SetEngineMode(m: Mode)
      modifies this
      ensures config == SetMode(old(config), m)
    {
      config := SetMode(config, m);
    }
  }

  // ---------------------------------------------------------------------
  // Hamming distance over the first hash's length
  // ---------------------------------------------------------------------

  /** The positions of `h1` counted by the engine's `hammingDistance`: a
      position past the end of `h2` reads `undefined`, which is never equal
      to a character. */
  function EngineDiffPositions(h1: string, h2: string): set<nat> {
    set i: nat | i < |h1| && (i >= |h2| || h1[i] != h2[i])
  }

  function EngineMismatchesBelow(h1: string, h2: string, n: nat): (d: nat)
    requires n <= |h1|
    ensures d == |set i: nat | i < n && (i >= |h2| || h1[i] != h2[i])|
  {
    if n == 0 then 0
    else
      var prev := EngineMismatchesBelow(h1, h2, n - 1);
      var before := set i: nat | i < n - 1 && (i >= |h2| || h1[i] != h2[i]);
      var all := set i: nat | i < n && (i >= |h2| || h1[i] != h2[i]);
      if n - 1 >= |h2| || h1[n - 1] != h2[n - 1] then
        assert all == before + {n - 1};
        prev + 1
      else
        assert all == before;
        prev
  }

  /** `hammingDistance(hash1, hash2)`: the loop runs over `hash1.length`. */
  function EngineHamming(h1: string, h2: string): (d: nat)
    ensures d == |EngineDiffPositions(h1, h2)|
    ensures d <= |h1|
  {
    Hashing.BoundedSetSize(EngineDiffPositions(h1, h2), |h1|);
    EngineMismatchesBelow(h1, h2, |h1|)
  }

  /** Below the end of `h2` the two loops count the same positions; past it
      every position of `h1` counts. */
  lemma {:induction false} EngineMismatchesSplit(h1: string, h2: string, n: nat)
    requires n <= |h1|
    ensures EngineMismatchesBelow(h1, h2, n)
            == Hashing.MismatchesBelow(h1, h2, MinInt(n, |h2|)) + MaxInt(0, n - |h2|)
  {
    if n > 0 {
      EngineMismatchesSplit(h1, h2, n - 1);
    }
  }

  /** The engine's distance is the audit scorer's distance (which stops at the
      shorter length) plus one for every character `h1` has beyond `h2`. */
  lemma EngineHammingCountsExcess(h1: string, h2: string)
    ensures EngineHamming(h1, h2) == Hashing.HammingDistance(h1, h2) + MaxInt(0, |h1| - |h2|)
  {
    EngineMismatchesSplit(h1, h2, |h1|);
  }

  /** On hashes of equal length the engine's distance is symmetric, bounded
      by the length, and 0 exactly when the hashes are equal. */
  lemma EngineHammingEqualLengths(h1: string, h2: string)
    requires |h1| == |h2|
    ensures EngineHamming(h1, h2) == EngineHamming(h2, h1) <= |h1|
    ensures EngineHamming(h1, h2) == 0 <==> h1 == h2
  {
    EngineHammingCountsExcess(h1, h2);
    EngineHammingCountsExcess(h2, h1);
    Hashing.HammingSymmetric(h1, h2);
    Hashing.HammingZeroIffEqual(h1, h2);
  }

  /** On unequal lengths the distance is not symmetric. */
  lemma EngineHammingAsymmetric()
    ensures EngineHamming("ab", "a") == 1
    ensures EngineHamming("a", "ab") == 0
  {
    EngineHammingCountsExcess("ab", "a");
    EngineHammingCountsExcess("a", "ab");
    assert Hashing.DiffPositions("ab", "a") == {};
    assert Hashing.DiffPositions("a", "ab") == {};
  }

  // ---------------------------------------------------------------------
  // The gray-grid gradient hash
  // ---------------------------------------------------------------------

  /** The hash side used by `compare`. */
  const Bits: nat := 16

  /** The gray value the averaging loop stores: `(r + g + b) / 3` written to a
      clamped byte array, which rounds to the nearest integer (a third never
      ties), so it is the byte nearest to the channel mean. */
  function AverageGray(p: Hashing.Pixel): (g: Hashing.Byte)
    ensures -1 <= p.r + p.g + p.b - 3 * g <= 1
    ensures p.r == p.g == p.b ==> g == p.r
  {
    (p.r + p.g + p.b + 1) / 3
  }

  /** Every row holds `width` pixels. */
  predicate RowsOfWidth(rows: seq<seq<Hashing.Pixel>>, width: nat) {
    forall y :: 0 <= y < |rows| ==> |rows[y]| == width
  }

  /** The canvas the hash reads: `bits` rows of `bits + 1` pixels. */
  predicate IsGrid(rows: seq<seq<Hashing.Pixel>>, bits: nat) {
    |rows| == bits && RowsOfWidth(rows, bits + 1)
  }

  /** The comparison of pixel `x` with its right neighbour. */
  function GradientBit(row: seq<Hashing.Pixel>, x: nat): char
    requires x + 1 < |row|
  {
    if AverageGray(row[x]) < AverageGray(row[x + 1]) then '1' else '0'
  }

  /** The inner loop of `dHash` over one row. */
  function RowBits(row: seq<Hashing.Pixel>): (h: string)
    requires |row| > 0
    ensures |h| == |row| - 1
  {
    seq(|row| - 1, x requires 0 <= x < |row| - 1 => GradientBit(row, x))
  }

  /** The bit loop of `dHash`: the rows' bits appended top to bottom. */
  function GridHash(rows: seq<seq<Hashing.Pixel>>): (h: string)
    requires forall y :: 0 <= y < |rows| ==> |rows[y]| > 0
    ensures forall k :: 0 <= k < |h| ==> Hashing.IsBit(h[k])
  {
    if rows == [] then []
    else
      var n := |rows| - 1;
      GridHash(rows[..n]) + RowBits(rows[n])
  }

  lemma MulMonoNat(a: nat, b: nat, w: nat)
    requires a <= b
    ensures a * w <= b * w
  {
  }

  /** The hash of rows `width + 1` wide has `width` bits per row. */
  lemma {:induction false} GridHashLength(rows: seq<seq<Hashing.Pixel>>, width: nat)
    requires RowsOfWidth(rows, width + 1)
    ensures |GridHash(rows)| == |rows| * width
  {
    if rows != [] {
      var n := |rows| - 1;
      var prefix := rows[..n];
      PrefixRows(rows, width + 1, n);
      GridHashLength(prefix, width);
      assert |GridHash(rows)| == n * width + width;
    }
  }

  lemma IndexBelow(y: nat, n: nat, width: nat, x: nat)
    requires y < n && x < width
    ensures y * width + x < n * width
  {
    MulMonoNat(y + 1, n, width);
    assert (y + 1) * width == y * width + width;
  }

  lemma PrefixRows(rows: seq<seq<Hashing.Pixel>>, width: nat, n: nat)
    requires RowsOfWidth(rows, width) && n <= |rows|
    ensures RowsOfWidth(rows[..n], width)
  {
    assert forall k :: 0 <= k < n ==> rows[..n][k] == rows[k];
  }

  /** Bit `y * width + x` compares pixel `x` of row `y` with its right neighbour. */
  lemma {:induction false} GridHashBit(rows: seq<seq<Hashing.Pixel>>, width: nat, y: nat, x: nat)
    requires RowsOfWidth(rows, width + 1)
    requires y < |rows| && x < width
    ensures y * width + x < |GridHash(rows)|
    ensures GridHash(rows)[y * width + x] == GradientBit(rows[y], x)
  {
    var n := |rows| - 1;
    var prefix := rows[..n];
    PrefixRows(rows, width + 1, n);
    GridHashLength(prefix, width);
    var hp := GridHash(prefix);
    var h := GridHash(rows);
    assert h == hp + RowBits(rows[n]);
    var k := y * width + x;
    if y < n {
      IndexBelow(y, n, width, x);
      GridHashBit(prefix, width, y, x);
      assert prefix[y] == rows[y];
      assert h[k] == hp[k];
    } else {
      assert k == |hp| + x;
      assert h[k] == RowBits(rows[n])[x];
    }
  }

  /** A canvas of one uniform colour hashes to all zeros. */
  lemma {:induction false} UniformGridHash(rows: seq<seq<Hashing.Pixel>>, p: Hashing.Pixel)
    requires forall y :: 0 <= y < |rows| ==> |rows[y]| > 0
    requires forall y, x :: 0 <= y < |rows| && 0 <= x < |rows[y]| ==> rows[y][x] == p
    ensures GridHash(rows) == Repeat('0', |GridHash(rows)|)
  {
    if rows != [] {
      var n := |rows| - 1;
      var prefix := rows[..n];
      assert forall y :: 0 <= y < n ==> prefix[y] == rows[y];
      UniformGridHash(prefix, p);
      assert RowBits(rows[n]) == Repeat('0', |rows[n]| - 1);
    }
  }

  /** The pHash signal of `compare`: the distance between the two grid
      hashes, normalized by `BITS * BITS` to [0, 1000]. */
  datatype HashSignal = HashSignal(distance: nat, normalized: real)

  function HashComparison(imageA: seq<seq<Hashing.Pixel>>, imageB: seq<seq<Hashing.Pixel>>): (s: HashSignal)
    requires IsGrid(imageA, Bits) && IsGrid(imageB, Bits)
    ensures s.distance <= Bits * Bits
    ensures s.normalized == s.distance as real / 256.0 * 1000.0
    ensures 0.0 <= s.normalized <= 1000.0
    ensures s.distance == 0 <==> GridHash(imageA) == GridHash(imageB)
  {
    var hashA := GridHash(imageA);
    var hashB := GridHash(imageB);
    GridHashLength(imageA, Bits);
    GridHashLength(imageB, Bits);
    var d := EngineHamming(hashA, hashB);
    EngineHammingEqualLengths(hashA, hashB);
    var cells := (Bits * Bits) as real;
    assert cells == 256.0;
    RatioBounded(d as real, cells);
    HashSignal(d, d as real / cells * 1000.0)
  }


  // ---------------------------------------------------------------------
  // Semantic comparison: Jaccard over class sets, IoU over boxes
  // ---------------------------------------------------------------------

  /** `intersection.size / union.size`; `0 / 0` is `NaN` when both sets are empty. */
  function Jaccard(s1: set<string>, s2: set<string>): (r: Number)
    ensures r.NaN? <==> s1 == {} && s2 == {}
    ensures r.Finite? ==> 0.0 <= r.v <= 1.0
  {
    SubsetCardinality(s1 * s2, s1 + s2);
    if |s1 + s2| == 0 then NaN
    else Finite(|s1 * s2| as real / |s1 + s2| as real)
  }

  lemma SubsetCardinality<T>(a: set<T>, b: set<T>)
    requires a <= b
    ensures |a| <= |b|
    ensures |a| == |b| ==> a == b
  {
    assert b == a + (b - a);
    assert a * (b - a) == {};
    if a != b {
      var x :| x in b && x !in a;
      assert x in b - a;
    }
  }

  lemma JaccardSymmetric(s1: set<string>, s2: set<string>)
    ensures Jaccard(s1, s2) == Jaccard(s2, s1)
  {
    assert s1 * s2 == s2 * s1 && s1 + s2 == s2 + s1;
  }

  /** On sets not both empty, the similarity is 1 exactly when they are equal. */
  lemma JaccardOneIffEqual(s1: set<string>, s2: set<string>)
    requires s1 != {} || s2 != {}
    ensures Jaccard(s1, s2) == Finite(1.0) <==> s1 == s2
  {
    if Jaccard(s1, s2) == Finite(1.0) {
      RatioOne(|s1 * s2| as real, |s1 + s2| as real);
      SubsetCardinality(s1 * s2, s1 + s2);
      MeetIsJoin(s1, s2);
    }
    if s1 == s2 {
      assert s1 * s2 == s1 + s2;
    }
  }

  lemma RatioOne(a: real, u: real)
    requires u > 0.0 && a / u == 1.0
    ensures a == u
  {
  }

  lemma MeetIsJoin<T>(s1: set<T>, s2: set<T>)
    requires s1 * s2 == s1 + s2
    ensures s1 == s2
  {
    assert forall x :: x in s1 ==> x in s1 + s2;
    assert forall x :: x in s2 ==> x in s1 + s2;
  }

  /** An axis-aligned box `[x, y, width, height]`. */
  datatype Box = Box(x: real, y: real, width: real, height: real)

  /** Boxes from the detector have non-negative sides. */
  predicate ValidBox(b: Box) {
    b.width >= 0.0 && b.height >= 0.0
  }

  function Area(b: Box): real {
    b.width * b.height
  }

  lemma MulMono(a: real, b: real, c: real, d: real)
    requires 0.0 <= a <= c && 0.0 <= b <= d
    ensures 0.0 <= a * b <= c * d
  {
    assert a * b <= c * b;
    assert c * b <= c * d;
  }

  /** The length shared by the intervals `[lo1, lo1 + len1]` and `[lo2, lo2 + len2]`, or 0. */
  function Overlap(lo1: real, len1: real, lo2: real, len2: real): (r: real)
    requires len1 >= 0.0 && len2 >= 0.0
    ensures 0.0 <= r <= len1 && r <= len2
  {
    MaxReal(0.0, MinReal(lo1 + len1, lo2 + len2) - MaxReal(lo1, lo2))
  }

  /** The clamped overlap area; it is never larger than either box. */
  function Intersection(b1: Box, b2: Box): (r: real)
    requires ValidBox(b1) && ValidBox(b2)
    ensures 0.0 <= r <= Area(b1) && r <= Area(b2)
  {
    var w := Overlap(b1.x, b1.width, b2.x, b2.width);
    var h := Overlap(b1.y, b1.height, b2.y, b2.height);
    MulMono(w, h, b1.width, b1.height);
    MulMono(w, h, b2.width, b2.height);
    w * h
  }

  /** `calculateIoU`: `NaN` exactly when both boxes have zero area (then
      the union is 0 and so is the intersection), otherwise in [0, 1]. */
  function IoU(b1: Box, b2: Box): (r: Number)
    requires ValidBox(b1) && ValidBox(b2)
    ensures r.NaN? <==> Area(b1) == 0.0 && Area(b2) == 0.0
    ensures r.Finite? ==> 0.0 <= r.v <= 1.0
  {
    var inter := Intersection(b1, b2);
    var union := Area(b1) + Area(b2) - inter;
    MulMono(0.0, 0.0, b1.width, b1.height);
    MulMono(0.0, 0.0, b2.width, b2.height);
    if union == 0.0 then NaN
    else
      RatioBounded(inter, union);
      Finite(inter / union)
  }

  lemma RatioBounded(a: real, b: real)
    requires 0.0 <= a <= b && b != 0.0
    ensures 0.0 <= a / b <= 1.0
  {
    assert a / b * b == a;
  }

  lemma IoUSymmetric(b1: Box, b2: Box)
    requires ValidBox(b1) && ValidBox(b2)
    ensures IoU(b1, b2) == IoU(b2, b1)
  {
    assert MaxReal(b1.x, b2.x) == MaxReal(b2.x, b1.x) && MaxReal(b1.y, b2.y) == MaxReal(b2.y, b1.y);
    assert MinReal(b1.x + b1.width, b2.x + b2.width) == MinReal(b2.x + b2.width, b1.x + b1.width);
    assert MinReal(b1.y + b1.height, b2.y + b2.height) == MinReal(b2.y + b2.height, b1.y + b1.height);
    assert Intersection(b1, b2) == Intersection(b2, b1);
  }

  /** A box of positive area overlaps itself completely. */
  lemma IoUSelf(b: Box)
    requires ValidBox(b) && Area(b) > 0.0
    ensures IoU(b, b) == Finite(1.0)
  {
    assert Intersection(b, b) == Area(b);
  }

  /** One detected object. */
  datatype Detection = Detection(cls: string, bbox: Box)

  predicate AllValid(ds: seq<Detection>) {
    forall i :: 0 <= i < |ds| ==> ValidBox(ds[i].bbox)
  }

  /** The best same-class IoU of `a` against `objsB`: starts at 0 and is
      replaced on a strictly larger IoU, so a `NaN` IoU is skipped. */
  function BestIoU(a: Detection, objsB: seq<Detection>): (best: real)
    requires ValidBox(a.bbox) && AllValid(objsB)
    ensures 0.0 <= best <= 1.0
  {
    if objsB == [] then 0.0
    else
      var n := |objsB| - 1;
      var prev := BestIoU(a, objsB[..n]);
      if objsB[n].cls == a.cls && Above(IoU(a.bbox, objsB[n].bbox), prev) then IoU(a.bbox, objsB[n].bbox).v
      else prev
  }

  /** The best is at least every finite same-class IoU. */
  lemma {:induction false} BestIoUDominates(a: Detection, objsB: seq<Detection>, j: nat)
    requires ValidBox(a.bbox) && AllValid(objsB)
    requires j < |objsB| && objsB[j].cls == a.cls && IoU(a.bbox, objsB[j].bbox).Finite?
    ensures IoU(a.bbox, objsB[j].bbox).v <= BestIoU(a, objsB)
  {
    var n := |objsB| - 1;
    var prefix := objsB[..n];
    if j < n {
      assert prefix[j] == objsB[j];
      BestIoUDominates(a, prefix, j);
    }
  }

  /** A non-zero best is the IoU of some same-class object of `objsB`. */
  lemma {:induction false} BestIoUAttained(a: Detection, objsB: seq<Detection>)
    requires ValidBox(a.bbox) && AllValid(objsB)
    ensures BestIoU(a, objsB) == 0.0
            || exists j :: 0 <= j < |objsB| && objsB[j].cls == a.cls && IoU(a.bbox, objsB[j].bbox) == Finite(BestIoU(a, objsB))
  {
    if objsB != [] {
      var n := |objsB| - 1;
      var prefix := objsB[..n];
      BestIoUAttained(a, prefix);
      var prev := BestIoU(a, prefix);
      if BestIoU(a, objsB) != prev {
        assert IoU(a.bbox, objsB[n].bbox) == Finite(BestIoU(a, objsB));
      } else if prev != 0.0 {
        var j :| 0 <= j < n && prefix[j].cls == a.cls && IoU(a.bbox, prefix[j].bbox) == Finite(prev);
        assert objsB[j] == prefix[j];
      }
    }
  }

  /** `totalIou`: the best IoUs of `objsA` summed in order. */
  function TotalIoU(objsA: seq<Detection>, objsB: seq<Detection>): (t: real)
    requires AllValid(objsA) && AllValid(objsB)
    ensures 0.0 <= t <= |objsA| as real
  {
    if objsA == [] then 0.0
    else
      var n := |objsA| - 1;
      TotalIoU(objsA[..n], objsB) + BestIoU(objsA[n], objsB)
  }

  /** The feature ratio: 0 unless both lists are non-empty, otherwise the
      mean over `objsA` of the best same-class IoU against `objsB`. */
  function FeatureRatio(objsA: seq<Detection>, objsB: seq<Detection>): (r: real)
    requires AllValid(objsA) && AllValid(objsB)
    ensures 0.0 <= r <= 1.0
    ensures objsA == [] || objsB == [] ==> r == 0.0
  {
    if |objsA| > 0 && |objsB| > 0 then
      RatioBounded(TotalIoU(objsA, objsB), |objsA| as real);
      TotalIoU(objsA, objsB) / |objsA| as real
    else 0.0
  }

  lemma {:induction false} TotalIoUOfOnes(objsA: seq<Detection>, objsB: seq<Detection>)
    requires AllValid(objsA) && AllValid(objsB)
    requires forall i :: 0 <= i < |objsA| ==> BestIoU(objsA[i], objsB) == 1.0
    ensures TotalIoU(objsA, objsB) == |objsA| as real
  {
    if objsA != [] {
      var n := |objsA| - 1;
      assert forall i :: 0 <= i < n ==> objsA[..n][i] == objsA[i];
      TotalIoUOfOnes(objsA[..n], objsB);
    }
  }

  /** An object of positive area present in `objsB` has best IoU 1. */
  lemma BestIoUOfMember(a: Detection, objsB: seq<Detection>, j: nat)
    requires ValidBox(a.bbox) && AllValid(objsB)
    requires j < |objsB| && objsB[j] == a && Area(a.bbox) > 0.0
    ensures BestIoU(a, objsB) == 1.0
  {
    IoUSelf(a.bbox);
    BestIoUDominates(a, objsB, j);
  }

  /** A non-empty list of positive-area detections matches itself perfectly. */
  lemma FeatureRatioSelf(objsA: seq<Detection>)
    requires AllValid(objsA) && |objsA| > 0
    requires forall i :: 0 <= i < |objsA| ==> Area(objsA[i].bbox) > 0.0
    ensures FeatureRatio(objsA, objsA) == 1.0
  {
    TotalIoUSelf(objsA);
    DivSelf(|objsA| as real);
  }

  lemma DivSelf(n: real)
    requires n > 0.0
    ensures n / n == 1.0
  {
  }

  lemma TotalIoUSelf(objsA: seq<Detection>)
    requires AllValid(objsA)
    requires forall i :: 0 <= i < |objsA| ==> Area(objsA[i].bbox) > 0.0
    ensures TotalIoU(objsA, objsA) == |objsA| as real
  {
    AllBestIoUOne(objsA);
    TotalIoUOfOnes(objsA, objsA);
  }

  lemma AllBestIoUOne(objsA: seq<Detection>)
    requires AllValid(objsA)
    requires forall i :: 0 <= i < |objsA| ==> Area(objsA[i].bbox) > 0.0
    ensures forall i :: 0 <= i < |objsA| ==> BestIoU(objsA[i], objsA) == 1.0
  {
    forall i | 0 <= i < |objsA| ensures BestIoU(objsA[i], objsA) == 1.0 {
      BestIoUOfMember(objsA[i], objsA, i);
    }
  }

  /** The ratio is taken over the first list, so swapping the lists can change it. */
  lemma FeatureRatioAsymmetric()
    ensures var cat := Detection("cat", Box(0.0, 0.0, 1.0, 1.0));
            var dog := Detection("dog", Box(0.0, 0.0, 1.0, 1.0));
            FeatureRatio([cat], [cat, dog]) == 1.0 && FeatureRatio([cat, dog], [cat]) == 0.5
  {
    var cat := Detection("cat", Box(0.0, 0.0, 1.0, 1.0));
    var dog := Detection("dog", Box(0.0, 0.0, 1.0, 1.0));
    IoUSelf(cat.bbox);
    assert [cat, dog][..1] == [cat];
    assert [cat, dog][..0] == [];
    assert BestIoU(cat, [cat]) == 1.0 by {
      assert [cat][..0] == [];
    }
    assert BestIoU(cat, [cat, dog]) == 1.0;
    assert BestIoU(dog, [cat]) == 0.0 by {
      assert [cat][..0] == [];
    }
    assert [cat][..0] == [];
    assert TotalIoU([cat, dog], [cat]) == 1.0;
  }

  /** The set of class names in a detection list. */
  function Classes(ds: seq<Detection>): (s: set<string>)
    ensures s == {} <==> ds == []
  {
    var s := set i | 0 <= i < |ds| :: ds[i].cls;
    assert ds != [] ==> ds[0].cls in s;
    s
  }

  // ---------------------------------------------------------------------
  // compare
  // ---------------------------------------------------------------------

  datatype SsimSignal = SsimSignal(score: real, normalized: real)
  datatype FeatureSignal = FeatureSignal(ratio: real, normalized: real)
  datatype SemanticSignal = SemanticSignal(score: Number, normalized: Number)

  datatype Part = Part(weight: real, contribution: Number)
  datatype Breakdown = Breakdown(pHash: Part, ssim: Part, features: Part, semantic: Part)

  datatype Band = Minimal | Low | Moderate | High

  datatype TridentScore = TridentScore(
    delta: Number,
    pHash: HashSignal,
    ssim: SsimSignal,
    features: FeatureSignal,
    semantic: SemanticSignal,
    bands: Band,
    breakdown: Breakdown,
    config: TridentConfig)

  /** The two detection lists the object detector returns for images A and B. */
  datatype Detections = Detections(objectsA: seq<Detection>, objectsB: seq<Detection>)

  predicate ValidDetections(d: Detections) {
    AllValid(d.objectsA) && AllValid(d.objectsB)
  }

  const ModelLoadError: string := "AI Model failed to load and is required for SemanticAI mode."

  /** The tiers of `delta`: strict `>` at 300, 120 and 30; `NaN` fails every
      comparison and stays MINIMAL. */
  function EngineBand(delta: Number): Band {
    if Above(delta, 300.0) then High
    else if Above(delta, 120.0) then Moderate
    else if Above(delta, 30.0) then Low
    else Minimal
  }

  function BandRank(b: Band): nat {
    match b
    case Minimal => 0
    case Low => 1
    case Moderate => 2
    case High => 3
  }

  /** A larger finite `delta` never gets a lower tier; `NaN` is MINIMAL. */
  lemma EngineBandMonotone(d1: real, d2: real)
    requires d1 <= d2
    ensures BandRank(EngineBand(Finite(d1))) <= BandRank(EngineBand(Finite(d2)))
    ensures EngineBand(NaN) == Minimal
  {
  }

  /** The structural signal; only DeepStructural and SemanticAI compute it. */
  function Structural(mode: Mode, mssim: real): (s: SsimSignal)
    ensures mode == QuickScan ==> s == SsimSignal(0.0, 0.0)
    ensures mode != QuickScan ==> s.score == mssim && s.normalized == (1.0 - mssim) / 2.0 * 1000.0
    ensures -1.0 <= mssim <= 1.0 ==> 0.0 <= s.normalized <= 1000.0
  {
    match mode
    case DeepStructural | SemanticAI => SsimSignal(mssim, (1.0 - mssim) / 2.0 * 1000.0)
    case QuickScan => SsimSignal(0.0, 0.0)
  }

  function SemanticOf(d: Detections): (s: SemanticSignal)
    ensures s.score == Jaccard(Classes(d.objectsA), Classes(d.objectsB))
    ensures s.normalized.NaN? <==> d.objectsA == [] && d.objectsB == []
    ensures s.score.Finite? ==> s.normalized == Finite((1.0 - s.score.v) * 1000.0)
    ensures s.normalized.Finite? ==> 0.0 <= s.normalized.v <= 1000.0
  {
    var score := Jaccard(Classes(d.objectsA), Classes(d.objectsB));
    SemanticSignal(score, if score.Finite? then Finite((1.0 - score.v) * 1000.0) else NaN)
  }

  function FeaturesOf(d: Detections): (f: FeatureSignal)
    requires ValidDetections(d)
    ensures f.ratio == FeatureRatio(d.objectsA, d.objectsB)
    ensures f.normalized == (1.0 - f.ratio) * 1000.0
    ensures 0.0 <= f.normalized <= 1000.0
  {
    var ratio := FeatureRatio(d.objectsA, d.objectsB);
    FeatureSignal(ratio, (1.0 - ratio) * 1000.0)
  }

  /** The final synthesis: each contribution is its normalized signal times
      its weight, `delta` their sum taken left to right, then the tier. */
  function Synthesize(c: TridentConfig, p: HashSignal, s: SsimSignal, f: FeatureSignal, sem: SemanticSignal): (r: TridentScore)
    ensures r.pHash == p && r.ssim == s && r.features == f && r.semantic == sem && r.config == c
    ensures r.bands == EngineBand(r.delta)
  {
    var breakdown := Breakdown(
      Part(c.pHashWeight, Times(Finite(p.normalized), c.pHashWeight)),
      Part(c.ssimWeight, Times(Finite(s.normalized), c.ssimWeight)),
      Part(c.featureWeight, Times(Finite(f.normalized), c.featureWeight)),
      Part(c.semanticWeight, Times(sem.normalized, c.semanticWeight)));
    var delta := Plus(Plus(Plus(breakdown.pHash.contribution, breakdown.ssim.contribution),
                           breakdown.features.contribution), breakdown.semantic.contribution);
    TridentScore(delta, p, s, f, sem, EngineBand(delta), breakdown, c)
  }

  /** `compare(imageA, imageB)`.  The images are the two `bits x (bits + 1)`
      canvases the hash reads, `mssim` is what the SSIM library returns,
      and `detector` is the two detection lists, or `None` when the
      detection model could not be loaded. */
  function Compare(c: TridentConfig, imageA: seq<seq<Hashing.Pixel>>, imageB: seq<seq<Hashing.Pixel>>,
                   mssim: real, detector: Option<Detections>): (r: Completion<TridentScore>)
    requires IsGrid(imageA, Bits) && IsGrid(imageB, Bits)
    requires detector.Some? ==> ValidDetections(detector.value)
    ensures r.Throw? <==> c.mode == SemanticAI && detector.None?
    ensures r.Throw? ==> r.message == ModelLoadError
  {
    var p := HashComparison(imageA, imageB);
    var s := Structural(c.mode, mssim);
    if c.mode == SemanticAI then
      if detector.None? then Throw(ModelLoadError)
      else Normal(Synthesize(c, p, s, FeaturesOf(detector.value), SemanticOf(detector.value)))
    else
      Normal(Synthesize(c, p, s, FeatureSignal(0.0, 0.0), SemanticSignal(Finite(0.0), Finite(0.0))))
  }

  // ---------------------------------------------------------------------
  // Properties of compare
  // ---------------------------------------------------------------------

  /** Mode gating: QuickScan leaves SSIM, features and semantics at zero;
      DeepStructural adds SSIM only; SemanticAI computes all of them. */
  lemma ModeGating(c: TridentConfig, imageA: seq<seq<Hashing.Pixel>>, imageB: seq<seq<Hashing.Pixel>>,
                   mssim: real, detector: Option<Detections>)
    requires IsGrid(imageA, Bits) && IsGrid(imageB, Bits)
    requires detector.Some? ==> ValidDetections(detector.value)
    ensures var r := Compare(c, imageA, imageB, mssim, detector);
            r.Normal? ==>
              && r.value.pHash == HashComparison(imageA, imageB)
              && (c.mode == QuickScan ==> r.value.ssim == SsimSignal(0.0, 0.0))
              && (c.mode != QuickScan ==> r.value.ssim.score == mssim)
              && (c.mode != SemanticAI ==>
                    && r.value.features == FeatureSignal(0.0, 0.0)
                    && r.value.semantic == SemanticSignal(Finite(0.0), Finite(0.0)))
              && (c.mode == SemanticAI ==>
                    && r.value.features.ratio == FeatureRatio(detector.value.objectsA, detector.value.objectsB)
                    && r.value.semantic.score == Jaccard(Classes(detector.value.objectsA), Classes(detector.value.objectsB)))
  {
  }

  /** In QuickScan the result does not depend on the SSIM score or the
      detector, and `delta` is the normalized hash distance. */
  lemma QuickScanIsolation(c: TridentConfig, imageA: seq<seq<Hashing.Pixel>>, imageB: seq<seq<Hashing.Pixel>>,
                           m1: real, d1: Option<Detections>, m2: real, d2: Option<Detections>)
    requires ModeConfig(c) && c.mode == QuickScan
    requires IsGrid(imageA, Bits) && IsGrid(imageB, Bits)
    requires d1.Some? ==> ValidDetections(d1.value)
    requires d2.Some? ==> ValidDetections(d2.value)
    ensures Compare(c, imageA, imageB, m1, d1) == Compare(c, imageA, imageB, m2, d2)
    ensures Compare(c, imageA, imageB, m1, d1).value.delta == Finite(HashComparison(imageA, imageB).normalized)
  {
  }

  /** `delta` is the sum of the breakdown's contributions, each the
      normalized signal times the configured weight, and the tier is that
      of `delta`. */
  lemma DeltaIsBreakdownSum(c: TridentConfig, p: HashSignal, s: SsimSignal, f: FeatureSignal, sem: SemanticSignal)
    ensures var t := Synthesize(c, p, s, f, sem);
            var b := t.breakdown;
            && t.delta == Plus(Plus(Plus(b.pHash.contribution, b.ssim.contribution), b.features.contribution), b.semantic.contribution)
            && b.pHash == Part(c.pHashWeight, Finite(p.normalized * c.pHashWeight))
            && b.ssim == Part(c.ssimWeight, Finite(s.normalized * c.ssimWeight))
            && b.features == Part(c.featureWeight, Finite(f.normalized * c.featureWeight))
            && b.semantic == Part(c.semanticWeight, Times(sem.normalized, c.semanticWeight))
            && t.bands == EngineBand(t.delta)
  {
  }

  /** A normal result of `compare` is the synthesis of its own signals. */
  lemma CompareSynthesizes(c: TridentConfig, imageA: seq<seq<Hashing.Pixel>>, imageB: seq<seq<Hashing.Pixel>>,
                           mssim: real, detector: Option<Detections>)
    requires IsGrid(imageA, Bits) && IsGrid(imageB, Bits)
    requires detector.Some? ==> ValidDetections(detector.value)
    ensures var r := Compare(c, imageA, imageB, mssim, detector);
            r.Normal? ==> r.value == Synthesize(c, r.value.pHash, r.value.ssim, r.value.features, r.value.semantic)
  {
  }

  lemma ScaleBound(x: real, w: real)
    requires 0.0 <= x <= 1000.0 && w >= 0.0
    ensures 0.0 <= x * w <= 1000.0 * w
  {
    assert (1000.0 - x) * w >= 0.0;
  }

  lemma ScaledSumBound(w1: real, w2: real, w3: real, w4: real, x1: real, x2: real, x3: real, x4: real)
    requires w1 >= 0.0 && w2 >= 0.0 && w3 >= 0.0 && w4 >= 0.0
    requires 0.0 <= x1 <= 1000.0 && 0.0 <= x2 <= 1000.0 && 0.0 <= x3 <= 1000.0 && 0.0 <= x4 <= 1000.0
    ensures 0.0 <= x1 * w1 + x2 * w2 + x3 * w3 + x4 * w4 <= 1000.0 * w1 + 1000.0 * w2 + 1000.0 * w3 + 1000.0 * w4
  {
    ScaleBound(x1, w1);
    ScaleBound(x2, w2);
    ScaleBound(x3, w3);
    ScaleBound(x4, w4);
    var t1, t2, t3, t4 := x1 * w1, x2 * w2, x3 * w3, x4 * w4;
    var u1, u2, u3, u4 := 1000.0 * w1, 1000.0 * w2, 1000.0 * w3, 1000.0 * w4;
    assert t1 <= u1 && t2 <= u2 && t3 <= u3 && t4 <= u4;
  }

  /** A convex combination of values in [0, 1000] stays in [0, 1000]. */
  lemma WeightedSumBounded(w1: real, w2: real, w3: real, w4: real, x1: real, x2: real, x3: real, x4: real)
    requires w1 >= 0.0 && w2 >= 0.0 && w3 >= 0.0 && w4 >= 0.0 && w1 + w2 + w3 + w4 == 1.0
    requires 0.0 <= x1 <= 1000.0 && 0.0 <= x2 <= 1000.0 && 0.0 <= x3 <= 1000.0 && 0.0 <= x4 <= 1000.0
    ensures 0.0 <= x1 * w1 + x2 * w2 + x3 * w3 + x4 * w4 <= 1000.0
  {
    ScaledSumBound(w1, w2, w3, w4, x1, x2, x3, x4);
  }

  /** With every finite signal in [0, 1000] and weights from the table,
      `delta` is `NaN` exactly when the semantic signal is, and otherwise
      lies in [0, 1000]. */
  lemma SynthesisInRange(c: TridentConfig, p: HashSignal, s: SsimSignal, f: FeatureSignal, sem: SemanticSignal)
    requires NonNegativeWeights(c) && WeightSum(c) == 1.0
    requires 0.0 <= p.normalized <= 1000.0 && 0.0 <= s.normalized <= 1000.0 && 0.0 <= f.normalized <= 1000.0
    requires sem.normalized.Finite? ==> 0.0 <= sem.normalized.v <= 1000.0
    ensures var t := Synthesize(c, p, s, f, sem);
            && (t.delta.NaN? <==> sem.normalized.NaN?)
            && (t.delta.Finite? ==> 0.0 <= t.delta.v <= 1000.0)
  {
    DeltaIsBreakdownSum(c, p, s, f, sem);
    if sem.normalized.Finite? {
      WeightedSumBounded(c.pHashWeight, c.ssimWeight, c.featureWeight, c.semanticWeight,
                         p.normalized, s.normalized, f.normalized, sem.normalized.v);
    }
  }

  /** `delta` is `NaN` exactly in SemanticAI when neither image has a
      detected object (the Jaccard similarity is then `0 / 0`); otherwise,
      with an SSIM score in [-1, 1] and the weights of the mode table, it
      lies in [0, 1000]. */
  lemma DeltaInRange(c: TridentConfig, imageA: seq<seq<Hashing.Pixel>>, imageB: seq<seq<Hashing.Pixel>>,
                     mssim: real, detector: Option<Detections>)
    requires ModeConfig(c)
    requires IsGrid(imageA, Bits) && IsGrid(imageB, Bits)
    requires detector.Some? ==> ValidDetections(detector.value)
    requires -1.0 <= mssim <= 1.0
    ensures var r := Compare(c, imageA, imageB, mssim, detector);
            r.Normal? ==>
              && (r.value.delta.NaN? <==> c.mode == SemanticAI && detector.value.objectsA == [] && detector.value.objectsB == [])
              && (r.value.delta.Finite? ==> 0.0 <= r.value.delta.v <= 1000.0)
  {
    var r := Compare(c, imageA, imageB, mssim, detector);
    if r.Normal? {
      var t := r.value;
      CompareSynthesizes(c, imageA, imageB, mssim, detector);
      ModeGating(c, imageA, imageB, mssim, detector);
      if c.mode == SemanticAI {
        assert t.features == FeaturesOf(detector.value) && t.semantic == SemanticOf(detector.value);
      }
      SynthesisInRange(c, t.pHash, t.ssim, t.features, t.semantic);
    }
  }

  /** All four signals at zero give `delta == 0` and the MINIMAL tier. */
  lemma ZeroSignalsZeroDelta(c: TridentConfig, p: HashSignal, s: SsimSignal, f: FeatureSignal, sem: SemanticSignal)
    requires p.normalized == 0.0 && s.normalized == 0.0 && f.normalized == 0.0 && sem.normalized == Finite(0.0)
    ensures Synthesize(c, p, s, f, sem).delta == Finite(0.0)
    ensures Synthesize(c, p, s, f, sem).bands == Minimal
  {
    DeltaIsBreakdownSum(c, p, s, f, sem);
  }

  /** Identical detection lists of positive-area objects give zero feature
      and semantic signals. */
  lemma IdenticalDetectionsZeroSignals(objects: seq<Detection>)
    requires AllValid(objects) && |objects| > 0
    requires forall i :: 0 <= i < |objects| ==> Area(objects[i].bbox) > 0.0
    ensures FeaturesOf(Detections(objects, objects)).normalized == 0.0
    ensures SemanticOf(Detections(objects, objects)).normalized == Finite(0.0)
  {
    FeatureRatioSelf(objects);
    JaccardOneIffEqual(Classes(objects), Classes(objects));
  }

  /** In QuickScan and DeepStructural, a canvas compared with itself at an
      SSIM of 1 gives `delta == 0` and the MINIMAL tier, whatever the
      detector returns and also when no detection model is loaded. */
  lemma IdenticalImagesZeroDelta(c: TridentConfig, image: seq<seq<Hashing.Pixel>>, detector: Option<Detections>)
    requires c.mode != SemanticAI
    requires IsGrid(image, Bits)
    requires detector.Some? ==> ValidDetections(detector.value)
    ensures var r := Compare(c, image, image, 1.0, detector);
            r.Normal? && r.value.delta == Finite(0.0) && r.value.bands == Minimal
  {
    var p := HashComparison(image, image);
    var s := Structural(c.mode, 1.0);
    assert p.normalized == 0.0;
    assert s.normalized == 0.0;
    ZeroSignalsZeroDelta(c, p, s, FeatureSignal(0.0, 0.0), SemanticSignal(Finite(0.0), Finite(0.0)));
  }

  /** In SemanticAI, a canvas compared with itself at an SSIM of 1, with the
      same non-empty list of positive-area detections on both sides, gives
      `delta == 0` and the MINIMAL tier.  (With no detection at all the
      Jaccard similarity is `0 / 0` and `delta` is `NaN`; see `DeltaInRange`.) */
  lemma IdenticalSemanticImagesZeroDelta(c: TridentConfig, image: seq<seq<Hashing.Pixel>>, objects: seq<Detection>)
    requires c.mode == SemanticAI
    requires IsGrid(image, Bits)
    requires AllValid(objects) && |objects| > 0
    requires forall i :: 0 <= i < |objects| ==> Area(objects[i].bbox) > 0.0
    ensures var r := Compare(c, image, image, 1.0, Some(Detections(objects, objects)));
            r.Normal? && r.value.delta == Finite(0.0) && r.value.bands == Minimal
  {
    var d := Detections(objects, objects);
    var p := HashComparison(image, image);
    var s := Structural(c.mode, 1.0);
    assert p.normalized == 0.0;
    assert s.normalized == 0.0;
    IdenticalDetectionsZeroSignals(objects);
    ZeroSignalsZeroDelta(c, p, s, FeaturesOf(d), SemanticOf(d));
  }
}
