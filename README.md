# Skin-tone face detector, modelled in Dafny

This project models the detection core of `PicoFaceDetector` (`picoFaceDetector.js`), a lightweight face detector for React Native. It works on an RGBA pixel buffer. It slides square windows over a grid whose side is one eighth of the shorter image side, with a stride of half a window. It scores each window by the fraction of its pixels whose colour passes a skin-tone classifier, and keeps the windows scoring above 0.3. It then groups the kept windows around seed windows: a later window joins a cluster when its corner lies closer to the seed's corner than twice the grid size. Finally, it reports one box for every cluster of at least three windows. The box is the smallest rectangle holding the cluster's squares, and its confidence is the mean window score.

The modules follow the stages of that pipeline:

- `SkinTone` — the per-pixel classifier `isSkinTone`: an RGB threshold rule or a YCbCr threshold rule, on exact rationals.
- `FaceTypes` — the records passed between stages: a scored region (window) and a face box.
- `RegionAnalysis` — `analyzeRegion`, as the imperative method `AnalyzeRegion`. It is proved equal to the specification function `RegionScore`, which is a row-by-row tally of sampled and skin pixels.
- `Clustering` — `clusterRegions`, as the imperative methods `ClusterRegions` and `GrowCluster`, over a `used` set of indices. They are proved equal to the index-level specification `StarClusters`. Lemmas about `StarClusters` show that it partitions the regions and that each cluster obeys the seed rule.
- `FaceBounds` — `computeFaceBounds`, as the imperative method `ComputeFaceBounds`. It is proved equal to `FaceOf` (extreme edges and mean score), which is shown to enclose the cluster exactly.
- `Detector` — `detectFromImageData`, as the imperative method `DetectFromImageData`. Its grid scan (`ScanGrid`, `ScanRow`) and boxing loop (`BoxClusters`) are proved against the specification `Detect`. Lemmas about `Detect` cover:
  - which windows the scan keeps, and in which order;
  - what a reported face is;
  - uniform frames: an all-skin frame yields a face, a frame with no skin pixel yields none.

The source's numbers are used as written: grid divisor 8, stride gridSize / 2, score threshold 0.3, clustering distance gridSize * 2, minimum cluster size 3, and the colour-rule constants.

Clustering is seed-only: a window joins a cluster only when it lies near the cluster's seed (picoFaceDetector.js:111-123). A window near a member but not near the seed does not join that cluster; `Clustering.SeedOnlyExample` exhibits this on three windows in a row.

## Model

| member | source | states |
|---|---|---|
| SkinTone.RgbRule | picoFaceDetector.js:84-87 | the RGB rule reduces to r > 95, g > 40, b > 20, r > b and r - g > 15: its tests r > g and \|r - g\| > 15 never decide, since r - g > 15 implies both |
| SkinTone.YCbCrRule | picoFaceDetector.js:90-96 | the YCbCr rule on exact luma and chroma values is equivalent to the same bands on integers scaled by 1000 |
| SkinTone.IsSkinTone | picoFaceDetector.js:82-98 | every pixel either rule accepts has more red than blue, so no grey and no blue-dominated pixel is skin |
| SkinTone.SkinToneExamples | picoFaceDetector.js:82-98 | (200, 150, 120) passes the RGB rule and is skin; pure blue (0, 0, 255) fails both rules and is not skin |
| RegionAnalysis.Sample | picoFaceDetector.js:64-74 | a pixel is counted exactly when its blue byte lies inside the buffer, and adds at most one skin count |
| RegionAnalysis.RowTally | picoFaceDetector.js:63-75 | a row's skin count never exceeds its sampled count |
| RegionAnalysis.WindowTally | picoFaceDetector.js:62-76 | a window's skin count never exceeds its sampled count |
| RegionAnalysis.Ratio | picoFaceDetector.js:78 | skin / total lies in [0, 1], is 1 exactly when every sampled pixel is skin, and is 0 exactly when none is |
| RegionAnalysis.RegionScore | picoFaceDetector.js:78 | a window's score lies in [0, 1] |
| RegionAnalysis.AnalyzeRegion | picoFaceDetector.js:58-79 | the nested scan with its row guard and per-pixel bounds check returns exactly RegionScore: the fraction of sampled pixels that are skin, or 0 when none is sampled |
| RegionAnalysis.RowGuardExact | picoFaceDetector.js:62 | for width > 0 the integer guard y * width * 4 < length is exactly the guard y < length / width / 4 |
| RegionAnalysis.RowPastBufferEmpty | picoFaceDetector.js:62-65 | a row starting past the buffer end samples no pixel |
| RegionAnalysis.RowsPastBufferAddNothing | picoFaceDetector.js:62 | once a row starts past the buffer end, the rows below add nothing, so stopping the scan at the guard gives the whole window's tally |
| RegionAnalysis.WindowTallyCountsCorner | picoFaceDetector.js:62-74 | a non-empty window whose corner pixel lies in the buffer samples at least one pixel |
| RegionAnalysis.RegionScoreUniform | picoFaceDetector.js:58-79 | on an all-skin buffer a non-empty window with its corner in the buffer scores 1; on a buffer with no skin pixel every window scores 0 |
| FaceBounds.HorizontalExtremes | picoFaceDetector.js:137-139 | the minimum left edge and maximum right edge bound every member and are each attained by a member |
| FaceBounds.VerticalExtremes | picoFaceDetector.js:138-140 | the minimum top edge and maximum bottom edge bound every member and are each attained by a member |
| FaceBounds.EdgesAreExtremes | picoFaceDetector.js:132-142 | all four edges bound every member square and each is attained by a member |
| FaceBounds.FaceOf | picoFaceDetector.js:144-150 | the box of a non-empty cluster encloses every member square, and each of its four edges is some member's edge |
| FaceBounds.ComputeFaceBounds | picoFaceDetector.js:131-151 | the aggregation loop returns FaceOf(cluster): a box enclosing every member square, each edge being some member's edge, with confidence the mean score, in [0, 1] when the scores are |
| FaceBounds.FaceOfProperties | picoFaceDetector.js:144-150 | the box of a non-empty cluster encloses it exactly, and its confidence is in [0, 1] when every score is |
| FaceBounds.FaceOfNonNegative | picoFaceDetector.js:147-148 | members of non-negative size give a box of non-negative width and height |
| FaceBounds.SumScoresBetween | picoFaceDetector.js:141 | scores all in [lo, hi] give a total between lo and hi times the member count |
| FaceBounds.SumScoresAbove | picoFaceDetector.js:141 | scores all above lo give a total above lo times the member count |
| FaceBounds.ConfidenceBetween | picoFaceDetector.js:149 | the confidence is a mean: member scores in [lo, hi] give a confidence in [lo, hi] |
| FaceBounds.ConfidenceAbove | picoFaceDetector.js:149 | member scores all above lo give a confidence above lo |
| Clustering.Near | picoFaceDetector.js:114-119 | two corners pass the distance test only when each coordinate offset lies strictly between -threshold and threshold |
| Clustering.DistanceTestExact | picoFaceDetector.js:114-119 | with dist the exact square root of dx² + dy², the integer test Near is exactly dist < threshold |
| Clustering.AllBetweenMeaning | picoFaceDetector.js:105-111 | the recursive range predicate used for index lists means every index lies strictly between the bounds |
| Clustering.ElemsMembership | picoFaceDetector.js:103 | the `used` set built from an index list holds exactly the list's indices |
| Clustering.AbsorbedRange | picoFaceDetector.js:111 | the seed's partners all lie after the seed and before the scan bound |
| Clustering.AbsorbedMeaning | picoFaceDetector.js:111-123 | k is absorbed by seed i exactly when it comes after i, is not yet used and lies near the seed; partners come in increasing index order |
| Clustering.StarFromShape | picoFaceDetector.js:105-126 | every index in a cluster built from position i on lies in [i, number of regions) |
| Clustering.StarClusters | picoFaceDetector.js:101-129 | every cluster of indices names existing regions |
| Clustering.PickIndex | picoFaceDetector.js:108-120 | the regions picked by an index list are the regions at those indices, in order |
| Clustering.MembersPick | picoFaceDetector.js:125 | region cluster c consists of the regions named by index cluster c |
| Clustering.CoveredMeaning | picoFaceDetector.js:103 | an index is placed by a list of clusters exactly when some cluster holds it |
| Clustering.StarFromSeedRule | picoFaceDetector.js:105-123 | each cluster built from position i on obeys the seed rule for the indices placed before it |
| Clustering.StarFromAvoidsUsed | picoFaceDetector.js:106-112 | no cluster holds an index that was already used |
| Clustering.StarFromDisjoint | picoFaceDetector.js:109-121 | no index appears in two clusters |
| Clustering.StarFromCovers | picoFaceDetector.js:105-126 | every unused index from position i on ends up in some cluster |
| Clustering.StarFromIncreasing | picoFaceDetector.js:108-123 | every cluster is non-empty and lists its indices in increasing order |
| Clustering.ClusterPartition | picoFaceDetector.js:101-129 | the clusters partition the region indices: each is non-empty and increasing, every region is in one, none in two |
| Clustering.ClusterSeedRule | picoFaceDetector.js:105-123 | cluster c's seed is the first region not placed by earlier clusters, and a later region joins it exactly when it is unplaced and near the seed |
| Clustering.ClusterSeedsIncrease | picoFaceDetector.js:105-126 | clusters come out in increasing order of their seeds |
| Clustering.FirstCluster | picoFaceDetector.js:105-125 | the first cluster is seeded by region 0 and holds exactly the later regions near region 0 |
| Clustering.SeedOnlyExample | picoFaceDetector.js:111-123 | for windows at x = 0, 6, 12 and threshold 8, the first and second are near and so are the second and third, yet the clusters are [[0, 1], [2]]: joining is decided by the seed alone |
| Clustering.GrowCluster | picoFaceDetector.js:108-123 | the inner loop returns the seed followed by exactly its partners, and the used set grows by exactly the seed and the partners |
| Clustering.ClusterRegions | picoFaceDetector.js:101-129 | the outer loop returns exactly the region clusters named by StarClusters |
| Detector.GridSize | picoFaceDetector.js:33 | the window side min(width, height) / 8 is exact, at least 2 and even on an admissible grid, so the stride is a positive whole number; it is 0 when the height is 0 |
| Detector.FacesOf | picoFaceDetector.js:48-53 | the boxing never yields more boxes than there are clusters |
| Detector.Detect | picoFaceDetector.js:25-56 | an empty buffer or an image of height 0 yields no face |
| Detector.ScanRow | picoFaceDetector.js:37-42 | one row of the scan appends exactly the row's kept windows, left to right |
| Detector.ScanGrid | picoFaceDetector.js:34-43 | the nested scan produces exactly Rows(..., 0), the kept windows row by row |
| Detector.BoxClusters | picoFaceDetector.js:48-53 | the boxing loop produces exactly one box per cluster of at least three windows, in cluster order |
| Detector.DetectFromImageData | picoFaceDetector.js:25-56 | returns exactly Detect: nothing for an empty buffer or an image of height 0, otherwise scan, cluster at twice the grid size, box |
| Detector.RowFromMembers | picoFaceDetector.js:37-41 | a window is kept by a row scan exactly when it is on that row, on a grid column left of width - gridSize, and scores above 0.3 with the grid size |
| Detector.RowsMembers | picoFaceDetector.js:36-41 | the same for all rows from y down to height - gridSize |
| Detector.ScanMembers | picoFaceDetector.js:36-41 | the scan keeps exactly the candidate windows: on the stride grid, inside the scan bounds, scored above the threshold |
| Detector.RowFromBounds | picoFaceDetector.js:37 | windows kept by a row scan lie on that row, at or right of its start column |
| Detector.RowsBounds | picoFaceDetector.js:36 | windows kept from row y on lie at or below row y |
| Detector.ScanOrder | picoFaceDetector.js:36-40 | the kept windows come in strict row-major order, so none is kept twice |
| Detector.FacesOfMembers | picoFaceDetector.js:48-53 | the boxes are exactly the boxes of clusters with at least three windows |
| Detector.FaceOfCandidates | picoFaceDetector.js:131-151 | a cluster of candidate windows gives a box inside the image, at least a window wide and high, with confidence in (0.3, 1] |
| Detector.ClusterMembersFromInput | picoFaceDetector.js:108-120 | every member of every cluster is one of the clustered windows |
| Detector.CandidateClustersInImage | picoFaceDetector.js:48-53 | clusters made of candidate windows give only boxes inside the image |
| Detector.DetectedFacesInImage | picoFaceDetector.js:25-56 | every reported face lies inside the image, spans at least one window each way and has confidence above 0.3 and at most 1 |
| Detector.NoSkinNoFaces | picoFaceDetector.js:25-56 | a buffer without a single skin-coloured pixel yields no face |
| Detector.KeptHead | picoFaceDetector.js:37-41 | a window scoring above the threshold heads the rest of its row's kept windows |
| Detector.FirstThreeKept | picoFaceDetector.js:36-41 | when the first three windows of the top row score above the threshold, they are the first three kept windows |
| Detector.TopRowInFrame | picoFaceDetector.js:64-65 | the corner pixels of the first three top-row windows lie in a full frame |
| Detector.RowNeighboursNear | picoFaceDetector.js:114-119 | windows of one row at most two strides apart are nearer than twice the grid size |
| Detector.SkinFrameFirstWindows | picoFaceDetector.js:36-46 | on an all-skin full frame the first three kept windows are near the first one at the clustering distance |
| Detector.ThreeNearFormCluster | picoFaceDetector.js:105-125 | when regions 1 and 2 are near region 0, the first cluster has at least three windows |
| Detector.ThreeNearGiveFace | picoFaceDetector.js:46-53 | when regions 1 and 2 are near region 0, the first cluster has at least three windows and its box is among the reported faces |
| Detector.SkinFrameHasFace | picoFaceDetector.js:25-56 | a full frame of skin-coloured pixels yields at least one face |
| Detector.SolidFrameColour | picoFaceDetector.js:64-68 | every pixel of a solid frame has the frame's colour |
| Detector.SkinColouredFrameDetected | picoFaceDetector.js:25-56 | a solid frame of colour (200, 150, 120) yields at least one face |
| Detector.BlueFrameNotDetected | picoFaceDetector.js:25-56 | a solid pure-blue frame yields no face |

## Left out

- `processBase64Image` (picoFaceDetector.js:17-21) decodes nothing: it returns the dimensions with null data. It is left out as an I/O stub with no logic.
- The constructor fields `scaleFactor`, `shiftFactor`, `minSize` and `maxSize` (picoFaceDetector.js:9-14) are never read by detection. They and the class wrapper are left out, and the operations are module-level functions and methods.
- `FACE_CASCADE` (picoFaceDetector.js:5) and the default singleton export (picoFaceDetector.js:154) carry no behaviour.
- A null or undefined `imageData` is represented by the empty buffer. Both yield no face, as in the code.
- Detector.DetectFromImageData: requires a non-empty buffer to have height 0 or dimensions whose shorter side is a positive multiple of 16. For other positive sizes gridSize / 2 is fractional, and the JavaScript scan visits fractional positions in floating point; that is not modelled. Width 0 with a positive height is not modelled either: the grid size and the stride are then 0, and the outer scan loop never ends. Height 0 is modelled: the grid size is 0, the outer loop guard fails at once and no face is reported.
- Detector.Detect: the same precondition. Widths and heights are natural numbers; negative dimensions are not modelled.
- FaceBounds.ComputeFaceBounds: requires a non-empty cluster. For an empty cluster the JavaScript returns a box built from ±Infinity with a NaN confidence; the only caller passes clusters of at least three windows.
- RegionAnalysis.AnalyzeRegion: takes natural-number coordinates and sizes. The detector only calls it that way under the precondition above; fractional or negative coordinates passed by other callers are not modelled.
- Floating point is not modelled:
  - Scores, the luma/chroma transform and the mean confidence are exact rationals; IEEE-754 rounding near a threshold is not captured.
  - The distance test compares squared integer distances instead of calling `Math.sqrt`. `Clustering.DistanceTestExact` shows the two agree for an exact square root.
- Pixel samples are bytes in 0..255, as in a canvas `Uint8ClampedArray`; other array contents are not modelled.
- Regions and faces are values, and a cluster holds copies of its regions. JavaScript object identity plays no part in the detector's behaviour, so it is not modelled.
- `App.js`, the React Native screen that calls the detector, is not part of this model.
