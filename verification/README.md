# Perceptual-difference scoring and provenance manifests, in Dafny

This project models the scoring and provenance core of the SignetAI web
application. It has four parts, one Dafny module each, plus a module of
JavaScript built-ins:

- `Hashing` (hashing.dfy) covers the hashing utilities of the multi-frame
  audit scorer. It models the Hamming distance between two hash strings.
  It also models the two 64-bit fingerprints built from a 32x32 gray
  buffer: the mean-threshold "pHash" and the gradient "dHash".
- `Audit` (audit.dfy) is the multi-frame audit scorer, `computeAuditScore`.
  - Each reference frame is paired with its nearest candidate frame, using
    a fixed 0.6 dHash / 0.4 pHash fusion.
  - The best pairing anywhere gives the visual signal. The share of labels
    left unmatched gives the temporal signal.
  - The two signals are fused, with or without an audio signal. The result
    is quantized to 0..1023 and put into one of four bands.
- `Trident` (trident.dfy) is the Trident fusion engine.
  - A mode-to-weight table, with the constructor and `setMode` that apply
    it.
  - A 16x16 gradient hash of a gray grid, and the engine's own Hamming
    distance.
  - Jaccard similarity of detected class sets, box IoU, and the
    asymmetric feature ratio.
  - The mode gating inside `compare`, the weighted `delta` with its
    per-signal breakdown, and the four tiers. The engine object is a small
    class around a configuration.
- `Comparator` (comparator.dfy) is how the image comparator reads an
  engine result. It rounds `delta` and caps it at 1000, then derives a
  band, a verdict and a confidence.
- `Batch` (batch.dfy) is the batch verifier.
  - Reading a manifest: a Universal Tail-Wrap (UTW) block between the
    last `%SIGNET_VPR_START` and `%SIGNET_VPR_END` markers in the last
    10 KiB of a file, or an XML `<signet:manifest>` element in an SVG
    image.
  - Classifying each file, and counting the statuses for the summary.
  - Batch signing: which rows are selected, the status transitions, the
    appended UTW block and the SVG metadata insertion.
  - Round trips: what the signer writes, the reader reads back.
- `Js` (js.dfy) holds the JavaScript semantics the code relies on:
  - `NaN`-carrying numbers and `Math.round`;
  - `includes`, `indexOf` and `lastIndexOf`;
  - `substring`, which clamps and swaps its arguments;
  - `trim`, over the ECMAScript whitespace set.

Arithmetic is exact: `real` stands for the source's floating point and
`int`/`nat` for its integers. `NaN` is carried explicitly where the code
can produce it. This happens when Jaccard similarity divides 0 by 0, and
when IoU does so for two boxes of zero area.

The libraries the engine calls are inputs, not models:
- SSIM is the `mssim` parameter.
- The object detector's two detection lists are a parameter. `None`
  means the detection model did not load.
- The canvas reads are the pixel buffer and gray grid parameters.
- JSON parsing is a function parameter that either yields a signer and a
  content hash or fails.
- Each file write is an outcome parameter.

## Model

| member | source | states |
|---|---|---|
| Hashing.HammingDistance | components/scoring.ts:60-67 | The distance is the number of positions below the shorter length where the strings differ; an excess tail of the longer string is ignored, so it is at most either length. |
| Hashing.HammingSymmetric | components/scoring.ts:60-67 | The distance is symmetric and is 0 for identical strings. |
| Hashing.HammingZeroIffEqual | components/scoring.ts:60-67 | On strings of equal length the distance is 0 exactly when they are equal. |
| Hashing.Luma | components/scoring.ts:78 | The BT.601 luminance of a pixel lies in [0, 255], and a gray pixel maps to its own level. |
| Hashing.Grays | components/scoring.ts:76-81 | One luminance per pixel, in buffer order, each in [0, 255]. |
| Hashing.PHash | components/scoring.ts:88-98 | The mean-threshold fingerprint has exactly 64 characters, each '0' or '1', for every buffer and width, including reads past the end. |
| Hashing.DHash | components/scoring.ts:100-108 | The gradient fingerprint has exactly 64 characters, each '0' or '1'. |
| Hashing.ComputeHashes | components/scoring.ts:70-116 | From a pixel buffer, both fingerprints have 64 bits. |
| Hashing.SampleIndicesInBounds | components/scoring.ts:89-108 | For the 32-wide canvas every sampled index `128y + 4x` and its right neighbour lie inside a buffer of 32x32 grays. |
| Hashing.MeanAffine | components/scoring.ts:82 | The mean follows a uniform brightness and contrast change of the buffer. |
| Hashing.HashesInvariantUnderBrightnessAndContrast | components/scoring.ts:85-108 | Both fingerprints are unchanged when every gray is mapped by `scale * g + shift` with a positive scale. |
| Hashing.FlatBufferHashes | components/scoring.ts:85-107 | A constant buffer is accepted and gives pHash = 64 ones (the test is `>=` the mean) and dHash = 64 zeros (the test is strict `<`). |
| Hashing.UniformCanvasHashes | components/scoring.ts:76-108 | A canvas whose pixels all share one gray level hashes to 64 zeros and 64 ones. |
| Audit.PairDistance | components/scoring.ts:273-278 | The fused pair distance is non-negative, and at most 1 when either frame's hashes have at most 64 characters. |
| Audit.FirstMinimum | components/scoring.ts:280-283 | The running minimum, started at 1.0 and replaced only on a strictly smaller value, is the minimum of 1.0 and every distance; the index kept is the first one achieving it, and there is none when no distance is below 1.0. |
| Audit.NearestCandidate | components/scoring.ts:268-284 | A reference's best distance is in [0, 1] and at most the distance to every candidate; the candidate kept is the first nearest one, and there is none (distance 1.0) when no candidate is below 1.0. |
| Audit.Detail | components/scoring.ts:295-306 | A frame detail's visual distance lies in [0, 1]. |
| Audit.Satisfied | components/scoring.ts:294-298 | The satisfied set is the set of labels of matched references, of size at most the number of references. |
| Audit.TemporalDistance | components/scoring.ts:313-315 | The temporal signal is in [0, 1] when at most all references are matched, and is 1.0 with no match or no reference at all. |
| Audit.Quantize | components/scoring.ts:330-331 | The score never exceeds 1023, is non-negative for a non-negative total, and is within one half of `total * 1023` unless capped. |
| Audit.AuditFrameDetails | components/scoring.ts:268-307 | There is one frame detail per reference, in reference order, naming the reference, its nearest candidate and its distance, with a match exactly when the distance is at most 0.25. |
| Audit.VisualIsMinimum | components/scoring.ts:286-309 | dVisual is in [0, 1], at most every reference's best distance, and either equal to one of them or 1.0; the best candidate is absent exactly when dVisual is 1.0, and then the best label is "None"; otherwise the best label and candidate are those of the first reference whose best distance is dVisual. |
| Audit.BestMatchIsFirstReaching | components/scoring.ts:286-292 | When a best match exists, its label is that of the first reference whose best distance equals dVisual (every earlier reference is strictly farther, since the update is a strict `<`), and its candidate id is that reference's nearest candidate. |
| Audit.TemporalInRange | components/scoring.ts:313-315 | dTemporal lies in [0, 1] for all inputs. |
| Audit.AuditScoreInRange | components/scoring.ts:318-344 | With no audio, or audio in [0, 1], the score is in [0, 1023], the confidence in [0, 1], and the band is the band of the score. |
| Audit.EmptyInputsScoreMaximal | components/scoring.ts:255-331 | With no references or no candidates, and no audio, both signals are 1.0, the score is 1023 (DIVERGENT_SOURCE), the confidence 0 and the best label "None"; nothing divides by zero. |
| Audit.DistinctLabelsCount | components/scoring.ts:294-298 | With pairwise distinct labels, the satisfied set has one label per matched reference. |
| Audit.TemporalDistinctLabels | components/scoring.ts:313-315 | With distinct labels, dTemporal is 1 minus the number of matched references over the number of references. |
| Audit.OneOfFourMatched | components/scoring.ts:313-315 | Four references with distinct labels, of which exactly one is matched, give dTemporal = 0.75. |
| Audit.TemporalFromLabels | components/scoring.ts:313-315 | dTemporal is computed from the number of distinct matched labels, not from the number of matched references. |
| Audit.DuplicateLabelsCountedOnce | components/scoring.ts:294-315 | References that all share one label count once: with at least one match, dTemporal is `1 - 1 / references`. |
| Audit.ZeroAudioReportedAbsent | components/scoring.ts:320-344 | An audio distance of exactly 0 still selects the audio formula, but is reported as absent in the signals. |
| Audit.ConfidenceBandMonotone | components/scoring.ts:349-354 | A larger score never gets a less severe band. |
| Audit.ConfidenceBandEdges | components/scoring.ts:349-354 | The edges 30, 120 and 300 stay in the lower band, and 31, 121 and 301 move up. |
| Trident.UpdateWeightsForMode | src/lib/trident-engine.ts:133-139 | The mode is kept and all four weights are replaced by a row that is non-negative and sums to exactly 1. |
| Trident.ModeTable | src/lib/trident-engine.ts:133-139 | The rows: QuickScan (1, 0, 0, 0), DeepStructural (0.3, 0.7, 0, 0), SemanticAI (0.1, 0.2, 0.2, 0.5). |
| Trident.WeightsDependOnlyOnMode | src/lib/trident-engine.ts:133-139 | Two configurations with the same mode get identical weights, and the result is a fixed point of the table. |
| Trident.NewConfig | src/lib/trident-engine.ts:104-108 | The constructed configuration has the given mode (DeepStructural by default) and that mode's table weights. |
| Trident.ConstructorIgnoresWeights | src/lib/trident-engine.ts:104-108 | Weights passed to the constructor never survive it: only the mode decides the result, which equals what `setMode` gives from any configuration. |
| Trident.SetMode | src/lib/trident-engine.ts:127-131 | After `setMode(m)` the mode is `m` and the weights are its table row. |
| Trident.SetModeForgetsHistory | src/lib/trident-engine.ts:127-131 | The configuration after `setMode(m)` depends on `m` alone, so repeating it changes nothing. |
| Trident.EngineHamming | src/lib/trident-engine.ts:62-68 | The engine's distance counts the positions of the first hash that differ from the second or lie past its end, so it is at most the first hash's length. |
| Trident.EngineHammingCountsExcess | src/lib/trident-engine.ts:62-68 | The engine's distance is the audit scorer's distance plus the number of characters by which the first hash is longer. |
| Trident.EngineHammingEqualLengths | src/lib/trident-engine.ts:62-68 | On equal lengths the distance is symmetric, at most the length, and 0 exactly when the hashes are equal. |
| Trident.EngineHammingAsymmetric | src/lib/trident-engine.ts:62-68 | On unequal lengths it is not symmetric: ("ab", "a") gives 1 and ("a", "ab") gives 0. |
| Trident.AverageGray | src/lib/trident-engine.ts:18-21 | The stored gray byte is the byte nearest the channel mean (three times it is within 1 of the channel sum), and a gray pixel keeps its level. |
| Trident.GridHash | src/lib/trident-engine.ts:23-30 | The gradient hash is a string of '0' and '1' characters. |
| Trident.GridHashLength | src/lib/trident-engine.ts:23-30 | Rows `width + 1` pixels wide give `width` bits per row, so 16 rows of 17 give 256 bits. |
| Trident.GridHashBit | src/lib/trident-engine.ts:24-29 | Bit `y * width + x` compares pixel `x` of row `y` with its right neighbour. |
| Trident.UniformGridHash | src/lib/trident-engine.ts:18-30 | A grid of one colour hashes to all zeros. |
| Trident.HashComparison | src/lib/trident-engine.ts:149-154 | The hash distance is at most 256, its normalized value is the distance over 256 times 1000 and so lies in [0, 1000], and the distance is 0 exactly when the two grid hashes are equal. |
| Trident.Jaccard | src/lib/trident-engine.ts:80-84 | The similarity is NaN exactly when both class sets are empty, and otherwise lies in [0, 1]. |
| Trident.JaccardSymmetric | src/lib/trident-engine.ts:80-84 | The similarity is symmetric. |
| Trident.JaccardOneIffEqual | src/lib/trident-engine.ts:80-84 | On sets that are not both empty the similarity is 1 exactly when the sets are equal. |
| Trident.Intersection | src/lib/trident-engine.ts:89-93 | The clamped overlap area is non-negative and never larger than either box's area. |
| Trident.IoU | src/lib/trident-engine.ts:86-98 | For boxes with non-negative sides, IoU is NaN exactly when both boxes have zero area, and otherwise lies in [0, 1]. |
| Trident.IoUSymmetric | src/lib/trident-engine.ts:86-98 | IoU is symmetric. |
| Trident.IoUSelf | src/lib/trident-engine.ts:86-98 | A box of positive area has IoU 1 with itself. |
| Trident.BestIoU | src/lib/trident-engine.ts:207-213 | The best same-class IoU lies in [0, 1]. |
| Trident.BestIoUDominates | src/lib/trident-engine.ts:207-213 | The best is at least every finite same-class IoU; a NaN IoU is skipped. |
| Trident.BestIoUAttained | src/lib/trident-engine.ts:207-213 | A non-zero best is the IoU of some same-class object of the second list. |
| Trident.TotalIoU | src/lib/trident-engine.ts:206-215 | The summed best IoUs lie between 0 and the length of the first list. |
| Trident.FeatureRatio | src/lib/trident-engine.ts:203-217 | The feature ratio lies in [0, 1], and is 0 when either list is empty. |
| Trident.FeatureRatioSelf | src/lib/trident-engine.ts:203-217 | A non-empty list of positive-area detections has feature ratio 1 against itself. |
| Trident.FeatureRatioAsymmetric | src/lib/trident-engine.ts:203-217 | Swapping the lists can change the ratio: [cat] against [cat, dog] gives 1, and [cat, dog] against [cat] gives 0.5. |
| Trident.Classes | src/lib/trident-engine.ts:197-198 | The class set is empty exactly when the detection list is. |
| Trident.Structural | src/lib/trident-engine.ts:158-185 | QuickScan leaves the SSIM signal at zero; the other modes keep `mssim` and normalize it to `(1 - mssim) / 2 * 1000`, which lies in [0, 1000] for `mssim` in [-1, 1]. |
| Trident.SemanticOf | src/lib/trident-engine.ts:197-200 | The semantic score is the Jaccard similarity of the class sets; its normalized value is (1 - score) times 1000, NaN exactly when neither list has an object, and otherwise in [0, 1000]. |
| Trident.FeaturesOf | src/lib/trident-engine.ts:203-218 | The feature signal carries the feature ratio, and its normalized value is (1 - ratio) times 1000, in [0, 1000]. |
| Trident.Synthesize | src/lib/trident-engine.ts:222-256 | The result carries the four signals and the configuration unchanged, and its tier is the tier of its delta. |
| Trident.Compare | src/lib/trident-engine.ts:187-192 | `compare` throws exactly in SemanticAI when the detection model is unavailable, with the model-load message. |
| Trident.EngineBandMonotone | src/lib/trident-engine.ts:230-233 | A larger finite delta never gets a lower tier, and a NaN delta is MINIMAL. |
| Trident.ModeGating | src/lib/trident-engine.ts:158-220 | QuickScan leaves SSIM, features and semantics at zero. DeepStructural adds SSIM only. SemanticAI computes all of them, from the Jaccard similarity and the feature ratio. |
| Trident.QuickScanIsolation | src/lib/trident-engine.ts:158-228 | In QuickScan the result depends neither on the SSIM score nor on the detector, and delta is the normalized hash distance. |
| Trident.DeltaIsBreakdownSum | src/lib/trident-engine.ts:222-240 | delta is the sum of the breakdown's four contributions, each the normalized signal times its configured weight, and the tier is that of delta. |
| Trident.CompareSynthesizes | src/lib/trident-engine.ts:222-256 | A normal result of `compare` is the synthesis of its own signals under its configuration. |
| Trident.SynthesisInRange | src/lib/trident-engine.ts:222-228 | With signals in [0, 1000] and non-negative weights summing to 1, delta is NaN exactly when the semantic signal is, and otherwise lies in [0, 1000]. |
| Trident.DeltaInRange | src/lib/trident-engine.ts:158-228 | For a table configuration and `mssim` in [-1, 1], delta is NaN exactly in SemanticAI with no object in either image, and otherwise lies in [0, 1000]. |
| Trident.ZeroSignalsZeroDelta | src/lib/trident-engine.ts:222-233 | Four zero signals give delta 0 and the MINIMAL tier. |
| Trident.IdenticalDetectionsZeroSignals | src/lib/trident-engine.ts:197-218 | Identical non-empty lists of positive-area detections give zero feature and semantic signals. |
| Trident.IdenticalImagesZeroDelta | src/lib/trident-engine.ts:141-256 | In QuickScan and DeepStructural, an image compared with itself at SSIM 1 gives delta 0 and the MINIMAL tier, whatever the detector returns and also with no detection model at all. |
| Trident.IdenticalSemanticImagesZeroDelta | src/lib/trident-engine.ts:141-256 | In SemanticAI, an image compared with itself at SSIM 1, with the same non-empty list of positive-area detections on both sides, gives delta 0 and the MINIMAL tier; with no detection on either side delta is NaN instead (`Trident.DeltaInRange`). |
| Comparator.UiScore | components/ImageComparator.tsx:125 | The score is NaN exactly when delta is; otherwise it is at most 1000 and is within one half of delta unless capped. |
| Comparator.Confidence | components/ImageComparator.tsx:132 | The confidence is non-negative; for an SSIM score in [-1, 1] it is the rescaled `(ssim + 1) / 2`, at most 1, and it is 0 at or below -1. |
| Comparator.Classify | components/ImageComparator.tsx:125-132 | The view's score is the rounded, capped delta (`Comparator.UiScore`) and its confidence the rescaled SSIM score (`Comparator.Confidence`); it keeps the engine's delta, breakdown and configuration, and its band and verdict are those of its score. |
| Comparator.VerdictFollowsBand | components/ImageComparator.tsx:126-130 | CONSISTENT exactly for MINIMAL, DIFFERENT exactly for HIGH, MODIFIED exactly for LOW or MODERATE. |
| Comparator.UiBandMonotone | components/ImageComparator.tsx:126-130 | A larger score never gets a lower band; 30, 120 and 300 stay in the lower band, and 31, 121 and 301 move up. |
| Comparator.ScoreCapped | components/ImageComparator.tsx:125 | The displayed score never exceeds 1000, and it is NaN exactly when delta is. |
| Comparator.ConfidenceInRange | components/ImageComparator.tsx:132 | With an SSIM score in [-1, 1] the confidence lies in [0, 1]. |
| Comparator.QuickScanConfidenceHalf | components/ImageComparator.tsx:132 | A QuickScan comparison always shows confidence 0.5, since its SSIM score stays 0. |
| Comparator.RoundingGapAtThirty | components/ImageComparator.tsx:125-128 | A delta in (30, 30.5) is LOW for the engine but MINIMAL and CONSISTENT for the comparator. |
| Comparator.BandsAgreeIff | components/ImageComparator.tsx:125-130 | For a finite delta, the comparator's band and the engine's tier agree exactly when delta avoids the open gaps (30, 30.5), (120, 120.5) and (300, 300.5). |
| Comparator.NaNDeltaDisagrees | components/ImageComparator.tsx:125-130 | A NaN delta is MINIMAL for the engine but HIGH and DIFFERENT for the comparator. |
| Batch.Tail | components/BatchVerifier.tsx:25-33 | The tail is the last `min(size, 10240)` characters of the file: the content is some prefix followed by it. |
| Batch.Head | components/BatchVerifier.tsx:34 | The head is the first `min(size, 4096)` characters of the file. |
| Batch.ShortHash | components/BatchVerifier.tsx:58 | The short hash is the first `min(length, 16)` characters of the hash followed by three dots. |
| Batch.ProcessFile | components/BatchVerifier.tsx:24-79 | Name, size and handle are kept, and the status is one of VERIFIED, UNSIGNED or TAMPERED. UNSIGNED means readable with an empty payload. VERIFIED means a non-empty payload that parses, with the signer and short hash. TAMPERED means a read error, or a non-empty payload that fails to parse; each case has its message. |
| Batch.LazyGroupNoneIff | components/BatchVerifier.tsx:49-50 | The manifest pattern fails exactly when no opening tag is followed by a closing tag. |
| Batch.LazyGroupSomeIsFirstShortest | components/BatchVerifier.tsx:49-50 | A match starts at the first opening tag and captures the text up to the first closing tag after it, which holds no closing tag. |
| Batch.StartWithoutEndIsUnsigned | components/BatchVerifier.tsx:39-45 | A tail with a start marker but no end marker gives an empty payload, so the file is UNSIGNED with "No credential found". |
| Batch.EndBeforeStartSwaps | components/BatchVerifier.tsx:40-43 | When the last end marker precedes the last start marker, `substring` swaps its arguments, and the payload is the trimmed text from the end marker to the end of the start marker, which is never empty. |
| Batch.StartBeforeEndSlices | components/BatchVerifier.tsx:40-43 | When the last start marker precedes the last end marker, the payload is the trimmed text strictly between them. |
| Batch.Count | components/BatchVerifier.tsx:83-89 | A status count is at most the number of rows. |
| Batch.CountZeroIff | components/BatchVerifier.tsx:83-89 | A status count is 0 exactly when no row has that status. |
| Batch.UpdateSummary | components/BatchVerifier.tsx:81-91 | The summary's total is the number of rows, and each of its four counts is the number of rows with that status. |
| Batch.CountPartition | components/BatchVerifier.tsx:81-91 | The counts of the six statuses add up to the number of rows. |
| Batch.SummaryShortfall | components/BatchVerifier.tsx:81-91 | The four counted statuses add up to at most the total, with equality exactly when no row is PENDING or ERROR. |
| Batch.InsertSvgMetadata | components/BatchVerifier.tsx:222-228 | With `</svg>` last at k, the output is `text[..k] + block + "\n" + text[k..]`, and deleting the block and line feed again gives back the text; without it, the block is appended. |
| Batch.InsertedBeforeClosingTag | components/BatchVerifier.tsx:222-228 | After insertion the last `</svg>` is still the original one, moved by the block and line feed, so the metadata ends up inside the root element. |
| Batch.SignedContent | components/BatchVerifier.tsx:191-234 | A non-SVG file is rewritten as its old content followed by exactly the UTW injection; an SVG image gets the metadata block inserted before its last closing tag. |
| Batch.UtwRoundTrip | components/BatchVerifier.tsx:39-44 | For a trimmed manifest without a start marker, a tail ending in the injection string of line 232 contains the start marker, and reading it gives back the manifest, whatever precedes the injection. |
| Batch.SignedFileVerifies | components/BatchVerifier.tsx:24-63 | A non-SVG file signed with a non-empty, trimmed manifest whose injection fits in the tail reads back that manifest, and is VERIFIED exactly when the manifest parses. |
| Batch.SvgRoundTrip | components/BatchVerifier.tsx:218-228 | After inserting the metadata block into an image without a manifest element, the manifest pattern captures exactly the inserted manifest, provided it holds no closing tag and the identifier has no `<`. |
| Batch.SignedSvgVerifies | components/BatchVerifier.tsx:46-63 | A signed SVG image whose tail holds no start marker reads back its manifest through the XML pattern, and is VERIFIED exactly when the manifest parses. |
| Batch.SignRecord | components/BatchVerifier.tsx:179-251 | A signed row keeps its name, size, handle and file. It ends SIGNED, with the signer message and short hash, exactly when the write succeeded. Otherwise it ends ERROR with the I/O message and its old hash. |
| Batch.SignedCount | components/BatchVerifier.tsx:245 | The number of files signed is at most the number of rows. |
| Batch.SignAll | components/BatchVerifier.tsx:175-257 | Signing keeps the number of rows. |
| Batch.SignAllAt | components/BatchVerifier.tsx:175-257 | Row `i` after the batch depends only on row `i` before it and on its own write outcome. |
| Batch.SignEach | components/BatchVerifier.tsx:175-257 | The loop produces the signed rows and the number of successful writes. |
| Batch.BatchSign | components/BatchVerifier.tsx:158-261 | The batch does nothing when no row is UNSIGNED with a handle, when no vault is unlocked, or when the user declines, and it changes no row in those cases. Otherwise it signs each selected row and reports the number of successful writes. |
| Batch.SignedCountMatchesSummary | components/BatchVerifier.tsx:242-255 | The count in the completion message is exactly the growth of the summary's SIGNED count. |
| Batch.NoEligibleLeft | components/BatchVerifier.tsx:159-251 | After a batch, a row that is still UNSIGNED with a handle had no file to sign. |
| Batch.UnselectedUnchanged | components/BatchVerifier.tsx:159-177 | A row that is not selected, or is selected but has no file, is left exactly as it was. |
| Js.Round | components/ImageComparator.tsx:125 | `Math.round` gives the integer within one half of its argument, with halves rounded up. |
| Js.LastIndexOf | components/BatchVerifier.tsx:40-41 | `lastIndexOf` is -1 exactly when the pattern does not occur, and otherwise is the index of an occurrence with none after it. |
| Js.IndexOf | components/BatchVerifier.tsx:49 | `indexOf` is -1 exactly when the pattern does not occur, and otherwise is the index of an occurrence with none before it. |
| Js.TrimSpec | components/BatchVerifier.tsx:43 | `trim` returns a contiguous piece of its input with no whitespace at either end, and everything it cuts away is whitespace. |
| Js.TrimNewlines | components/BatchVerifier.tsx:43 | A trimmed string with one line feed on each side is given back by `trim`. |

## Left out

- Canvas, image and video access is not modelled: image loading, `drawImage`, `getImageData`, frame extraction and its 10-second timeout. This is browser I/O, so the pixel buffers and gray grids are inputs.
- The SSIM library and the object detector are foreign code. `mssim` and the two detection lists are inputs, and model loading is reduced to whether a detector is available. The SSIM difference map is display only.
- `JSON.parse` and `JSON.stringify` are foreign calls. Parsing is a parameter returning a signer and content hash, or a failure. The manifest text is an opaque string.
- SHA-256 hashing, the FileSystem handles and writes, `Date.now` and `TextDecoder` are foreign calls.
  - The content hash and the success of each write are one outcome per row.
  - The metadata identifier is a parameter.
  - Bytes are modelled as characters.
- Directory scanning and file selection (`handleDirectorySelect`, `handleFallbackSelect`) are UI input handling. So are the alert and confirm texts, progress callbacks, logging and the React state updates. The user's answer to the confirm prompt is a parameter.
- Floating point and `toFixed(3)` display rounding are not modelled. Exact rationals stand for floats throughout, including the luma coefficients and the weights.
- `ReferenceFrame.weight` is carried in the data but, as in the source, used by no computation.
- Audit.Quantize: the comments at components/scoring.ts:47 and :330 give the audit score's range as [0-1023], but line 331 clamps only from above, with `Math.min(1023, …)`. The model follows the code. Non-negativity is proved as a consequence for signals in [0, 1] (`Audit.AuditScoreInRange`).
- Hashing.ComputeHashes: when the mean is exactly 0 or 255, components/scoring.ts:84-86 only writes a console warning that the hash may be invalid. Nothing downstream flags such an image. The model proves the flat-image fingerprints and has no flag.
- The gradient hash's "could not get 2D context" error is not modelled: it is a canvas failure.
- A partial configuration that sets a field explicitly to `undefined` is not modelled. A field is either given or left out, because an explicit `undefined` would overwrite the default with a non-number.
- Trident.IoU: boxes are required to have non-negative sides, as the detector produces them. Negative sizes, which could make the union 0 with a non-zero intersection, are not modelled.
- Audit.ComputeAuditScore carries no contract of its own. Its properties are stated by the lemmas about it listed above.
- Trident.TridentEngine.SetEngineMode: the engine's configuration is modelled as a value, but in the source it is one shared, mutable object. `setMode` first assigns the new mode into the object that earlier results returned as their `config`, and only then replaces it with a fresh copy carrying the new weights. So after `setMode`, an earlier result's `config` reports the new mode next to the old weights. The model does not show this aliasing.
- Trident.Compare: it takes one configuration for the whole comparison, while the source reads `this.config` again after each `await`. A mode switch during a comparison could therefore gate the signals by one mode and weight them by another. The model does not show this interleaving. The comparator disables its mode selector while a comparison runs (components/ImageComparator.tsx:259), so this interleaving cannot occur from the UI. The aliasing on the previous line does show in the UI: the comparator keeps `result.config` (:141) and its score composition table displays `config.mode` over the breakdown weights. A mode switch after a comparison therefore shows the new mode over the old weights.
- Audit.ComputeAuditScore: the reference frames' `meta` field is not modelled, so `bestMatchMeta` and each frame detail's `refMeta` are left out of the result. They are copied from the chosen reference and take no part in any computation.
- Hashing.ComputeHashes: the optional display fields of a fingerprint pair (`originalSize`, `byteSize`) and of a candidate frame (`timestamp`, `imageUrl`) are not modelled, because no computation reads them.
- Trident.TridentEngine.SetEngineMode states its effect with `old`. Its content is covered by `Trident.SetMode` and `Trident.SetModeForgetsHistory`.
