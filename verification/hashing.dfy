/** The hashing utilities of the audit engine: the Hamming distance between
    two hash strings, and the two 64-bit fingerprints (mean-threshold "pHash"
    and gradient "dHash") computed from a 32x32 grayscale sample of an
    image.  The canvas that produces the sample is outside the model: the
    RGBA pixels are an input. */
module Hashing {
  import opened Js

  /** The pair of fingerprints of one image or video frame. */
  datatype DualHash = DualHash(dHash: string, pHash: string)

  // ---------------------------------------------------------------------
  // Hamming distance
  // ---------------------------------------------------------------------

  /** The positions, below the shorter of the two lengths, where `a` and `b` differ. */
  function DiffPositions(a: string, b: string): set<nat> {
    set i: nat | i < |a| && i < |b| && a[i] != b[i]
  }

  /** The number of differing positions among the first `n`. */
  function MismatchesBelow(a: string, b: string, n: nat): (d: nat)
    requires n <= |a| && n <= |b|
    ensures d == |set i: nat | i < n && a[i] != b[i]|
  {
    if n == 0 then 0
    else
      var prev := MismatchesBelow(a, b, n - 1);
      var before := set i: nat | i < n - 1 && a[i] != b[i];
      var all := set i: nat | i < n && a[i] != b[i];
      if a[n - 1] != b[n - 1] then
        assert all == before + {n - 1};
        prev + 1
      else
        assert all == before;
        prev
  }

  /** `getHammingDistance`: the loop runs over the shorter length only, so
      the result counts the differing positions below `min(|a|, |b|)` and
      ignores any excess of the longer string. */
  function HammingDistance(a: string, b: string): (d: nat)
    ensures d == |DiffPositions(a, b)|
    ensures d <= |a| && d <= |b|
  {
    var n := MinInt(|a|, |b|);
    assert (set i: nat | i < n && a[i] != b[i]) == DiffPositions(a, b);
    BoundedSetSize(DiffPositions(a, b), n);
    MismatchesBelow(a, b, n)
  }

  /** A set of naturals below `n` has at most `n` elements. */
  lemma {:induction false} BoundedSetSize(s: set<nat>, n: nat)
    requires forall i :: i in s ==> i < n
    ensures |s| <= n
  {
    if n > 0 {
      var s' := s - {n - 1};
      BoundedSetSize(s', n - 1);
    } else {
      assert s == {};
    }
  }

  /** The distance is symmetric and vanishes on identical strings. */
  lemma HammingSymmetric(a: string, b: string)
    ensures HammingDistance(a, b) == HammingDistance(b, a)
    ensures HammingDistance(a, a) == 0
  {
    assert DiffPositions(a, b) == DiffPositions(b, a);
    assert DiffPositions(a, a) == {};
  }

  /** On strings of equal length the distance is 0 exactly when they are equal. */
  lemma HammingZeroIffEqual(a: string, b: string)
    requires |a| == |b|
    ensures HammingDistance(a, b) == 0 <==> a == b
  {
    if HammingDistance(a, b) == 0 {
      forall i | 0 <= i < |a| ensures a[i] == b[i] {
        assert a[i] != b[i] ==> i in DiffPositions(a, b);
      }
    } else {
      assert DiffPositions(a, a) == {};
    }
  }

  // ---------------------------------------------------------------------
  // Grayscale conversion
  // ---------------------------------------------------------------------

  type Byte = x: int | 0 <= x < 256

  /** One RGBA pixel of the canvas. */
  datatype Pixel = Pixel(r: Byte, g: Byte, b: Byte, a: Byte)

  /** Luminance with the luma coefficients of ITU-R BT.601 (Part A, item 2.5.1);
      the alpha channel is ignored.  Exact rational arithmetic stands for the
      source's floating point. */
  function Luma(p: Pixel): (y: real)
    ensures 0.0 <= y <= 255.0
    ensures p.r == p.g == p.b ==> y == p.r as real
  {
    0.299 * p.r as real + 0.587 * p.g as real + 0.114 * p.b as real
  }

  /** One gray value per pixel, in buffer order. */
  function Grays(pixels: seq<Pixel>): (gs: seq<real>)
    ensures |gs| == |pixels|
    ensures forall i :: 0 <= i < |gs| ==> gs[i] == Luma(pixels[i])
    ensures forall i :: 0 <= i < |gs| ==> 0.0 <= gs[i] <= 255.0
  {
    seq(|pixels|, i requires 0 <= i < |pixels| => Luma(pixels[i]))
  }

  function Sum(xs: seq<real>): real {
    if xs == [] then 0.0 else Sum(xs[..|xs| - 1]) + xs[|xs| - 1]
  }

  /** `totalLum / grays.length`; JavaScript yields `NaN` on an empty buffer,
      which never takes part in a comparison below because every sample index
      is then out of range. */
  function Mean(xs: seq<real>): real
    requires |xs| > 0
  {
    Sum(xs) / |xs| as real
  }

  // ---------------------------------------------------------------------
  // Fingerprints
  // ---------------------------------------------------------------------

  /** The 8x8 sample grid is read at stride 4. */
  const Step: nat := 4
  /** Side of the sample grid; a fingerprint has `GridSide * GridSide` bits. */
  const GridSide: nat := 8
  const HashBits: nat := 64

  /** The buffer index of sample `k` (row `k / 8`, column `k % 8`) in a buffer `width` wide. */
  function SampleIndex(k: nat, width: nat): nat {
    (k / GridSide) * Step * width + (k % GridSide) * Step
  }

  predicate IsBit(c: char) {
    c == '0' || c == '1'
  }

  /** The mean-threshold fingerprint: bit `k` is '1' when sample `k` exists and
      is at least the global mean.  A read past the end of the buffer is
      `undefined` in the source, and `undefined >= mean` is false. */
  function PHash(grays: seq<real>, width: nat): (h: string)
    ensures |h| == HashBits && forall i :: 0 <= i < |h| ==> IsBit(h[i])
  {
    seq(HashBits, k requires 0 <= k < HashBits =>
      var idx := SampleIndex(k, width);
      if idx < |grays| && grays[idx] >= Mean(grays) then '1' else '0')
  }

  /** The gradient fingerprint: bit `k` is '1' when sample `k` is strictly darker
      than its right neighbour in the raw buffer; a missing value compares false. */
  function DHash(grays: seq<real>, width: nat): (h: string)
    ensures |h| == HashBits && forall i :: 0 <= i < |h| ==> IsBit(h[i])
  {
    seq(HashBits, k requires 0 <= k < HashBits =>
      var idx := SampleIndex(k, width);
      if idx + 1 < |grays| && grays[idx] < grays[idx + 1] then '1' else '0')
  }

  /** The pure part of `computeHashFromContext`: grays, then both fingerprints. */
  function ComputeHashes(pixels: seq<Pixel>, width: nat): (h: DualHash)
    ensures |h.dHash| == HashBits && |h.pHash| == HashBits
  {
    var grays := Grays(pixels);
    DualHash(DHash(grays, width), PHash(grays, width))
  }

  /** For the 32-wide canvas the engine uses, every sampled index and its right
      neighbour lie inside a buffer of at least 32x32 grays. */
  lemma SampleIndicesInBounds(k: nat, n: nat)
    requires k < HashBits && n >= 32 * 32
    ensures SampleIndex(k, 32) + 1 < n
    ensures SampleIndex(k, 32) + 1 <= 925
  {
    assert k / GridSide <= 7;
    assert k % GridSide <= 7;
  }

  lemma {:induction false} SumAffine(xs: seq<real>, ys: seq<real>, scale: real, shift: real)
    requires |xs| == |ys|
    requires forall i :: 0 <= i < |xs| ==> ys[i] == scale * xs[i] + shift
    ensures Sum(ys) == scale * Sum(xs) + |xs| as real * shift
  {
    if xs != [] {
      var n := |xs|;
      SumAffine(xs[..n - 1], ys[..n - 1], scale, shift);
    }
  }

  /** The mean follows a uniform brightness and contrast change of the buffer. */
  lemma MeanAffine(xs: seq<real>, ys: seq<real>, scale: real, shift: real)
    requires |xs| == |ys| > 0
    requires forall i :: 0 <= i < |xs| ==> ys[i] == scale * xs[i] + shift
    ensures Mean(ys) == scale * Mean(xs) + shift
  {
    SumAffine(xs, ys, scale, shift);
    AffineQuotient(Sum(xs), |xs| as real, scale, shift);
  }

  lemma AffineQuotient(s: real, n: real, a: real, b: real)
    requires n > 0.0
    ensures (a * s + n * b) / n == a * (s / n) + b
  {
    var q := s / n;
    assert s == q * n;
    assert a * s + n * b == n * (a * q + b);
  }


  /** Both fingerprints are unchanged by a uniform brightness shift and a
      positive contrast stretch of the whole buffer: every comparison they
      make (sample against mean, sample against neighbour) is preserved. */
  lemma HashesInvariantUnderBrightnessAndContrast(xs: seq<real>, ys: seq<real>, scale: real, shift: real, width: nat)
    requires |xs| == |ys|
    requires scale > 0.0
    requires forall i :: 0 <= i < |xs| ==> ys[i] == scale * xs[i] + shift
    ensures PHash(ys, width) == PHash(xs, width)
    ensures DHash(ys, width) == DHash(xs, width)
  {
    PHashInvariant(xs, ys, scale, shift, width);
    DHashInvariant(xs, ys, scale, shift, width);
  }

  lemma PHashInvariant(xs: seq<real>, ys: seq<real>, scale: real, shift: real, width: nat)
    requires |xs| == |ys|
    requires scale > 0.0
    requires forall i :: 0 <= i < |xs| ==> ys[i] == scale * xs[i] + shift
    ensures PHash(ys, width) == PHash(xs, width)
  {
    if |xs| > 0 {
      MeanAffine(xs, ys, scale, shift);
      forall k | 0 <= k < HashBits ensures PHash(ys, width)[k] == PHash(xs, width)[k] {
        var idx := SampleIndex(k, width);
        if idx < |xs| {
          ScaleKeepsOrder(xs[idx], Mean(xs), scale, shift);
        }
      }
    }
  }

  lemma DHashInvariant(xs: seq<real>, ys: seq<real>, scale: real, shift: real, width: nat)
    requires |xs| == |ys|
    requires scale > 0.0
    requires forall i :: 0 <= i < |xs| ==> ys[i] == scale * xs[i] + shift
    ensures DHash(ys, width) == DHash(xs, width)
  {
    forall k | 0 <= k < HashBits ensures DHash(ys, width)[k] == DHash(xs, width)[k] {
      var idx := SampleIndex(k, width);
      if idx + 1 < |xs| {
        ScaleKeepsOrder(xs[idx], xs[idx + 1], scale, shift);
      }
    }
  }


  lemma ScaleKeepsOrder(a: real, b: real, scale: real, shift: real)
    requires scale > 0.0
    ensures (scale * a + shift >= scale * b + shift) <==> (a >= b)
  {
    if a >= b {
      assert scale * (a - b) >= 0.0;
    } else {
      assert scale * (b - a) > 0.0;
    }
  }

  lemma {:induction false} SumConstant(xs: seq<real>, c: real)
    requires forall i :: 0 <= i < |xs| ==> xs[i] == c
    ensures Sum(xs) == |xs| as real * c
  {
    if xs != [] {
      SumConstant(xs[..|xs| - 1], c);
    }
  }

  /** A flat (constant-luminance) 32x32 buffer is accepted and gives the
      low-information fingerprints: every sample equals the mean, so pHash is
      all ones (the test is `>=`), and no sample is strictly below its
      neighbour, so dHash is all zeros. */
  lemma FlatBufferHashes(grays: seq<real>, c: real)
    requires |grays| >= 32 * 32
    requires forall i :: 0 <= i < |grays| ==> grays[i] == c
    ensures PHash(grays, 32) == Repeat('1', HashBits)
    ensures DHash(grays, 32) == Repeat('0', HashBits)
  {
    SumConstant(grays, c);
    assert Mean(grays) == c;
    forall k | 0 <= k < HashBits ensures PHash(grays, 32)[k] == '1' && DHash(grays, 32)[k] == '0' {
      SampleIndicesInBounds(k, |grays|);
    }
  }

  /** The same holds one level up: a canvas whose pixels all carry one gray
      level `v` hashes to all-ones / all-zeros. */
  lemma UniformCanvasHashes(pixels: seq<Pixel>, v: Byte)
    requires |pixels| >= 32 * 32
    requires forall i :: 0 <= i < |pixels| ==> pixels[i].r == pixels[i].g == pixels[i].b == v
    ensures ComputeHashes(pixels, 32) == DualHash(Repeat('0', HashBits), Repeat('1', HashBits))
  {
    FlatBufferHashes(Grays(pixels), v as real);
  }
}
