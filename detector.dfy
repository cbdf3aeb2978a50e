/**
 * The face detector's top level: scan a grid of overlapping square windows
 * over an RGBA buffer, keep the windows whose skin score exceeds a fixed
 * threshold, cluster the kept windows around seeds, and report one box for
 * every cluster of at least three windows.
 */
module Detector {
  import opened SkinTone
  import opened FaceTypes
  import opened RegionAnalysis
  import opened Clustering
  import opened FaceBounds

  /** The grid size is min(width, height) divided by this. */
  const GRID_DIVISOR: nat := 8
  /** A window is kept when its score exceeds this. */
  const SCORE_THRESHOLD: real := 0.3
  /** The clustering distance is the grid size times this. */
  const DISTANCE_FACTOR: nat := 2
  /** Clusters with fewer windows than this are dropped. */
  const MIN_CLUSTER_SIZE: nat := 3

  /**
   * Dimensions for which the grid size min(width, height) / 8 and the scan
   * step of half a grid size are whole positive numbers.
   */
  predicate GridOk(width: nat, height: nat) {
    0 < width && 0 < height && Min(width, height) % (2 * GRID_DIVISOR) == 0
  }

  /**
   * Side of a scan window, min(width, height) / 8: exact, even and at least 2
   * on an admissible grid, and 0 for an image of height 0.
   */
  function GridSize(width: nat, height: nat): (g: nat)
    ensures GridOk(width, height) ==> g * GRID_DIVISOR == Min(width, height) && 2 <= g && g % 2 == 0
    ensures height == 0 ==> g == 0
  {
    var m := Min(width, height);
    assert GridOk(width, height) ==> (m / GRID_DIVISOR) * GRID_DIVISOR == m && 2 <= m / GRID_DIVISOR && (m / GRID_DIVISOR) % 2 == 0 by {
      if GridOk(width, height) {
        EighthOfMultipleOf16(m);
      }
    }
    m / GRID_DIVISOR
  }

  /** An eighth of a positive multiple of 16 is an even whole number of at least 2. */
  lemma EighthOfMultipleOf16(m: nat)
    requires 0 < m && m % 16 == 0
    ensures (m / 8) * 8 == m && 2 <= m / 8 && (m / 8) % 2 == 0
  {
    var q := m / 16;
    assert m == 16 * q;
    assert m / 8 == 2 * q;
  }

  /**
   * A scan with window side g terminates: either the step g / 2 is positive,
   * or the image is no taller than a window and no row is scanned.
   */
  predicate ScanStops(height: nat, g: nat) {
    2 <= g || height <= g
  }

  /** The window at (x, y) with its score. */
  function Cell(pixels: seq<byte>, width: nat, g: nat, x: nat, y: nat): Region {
    Region(x, y, g, RegionScore(pixels, width, x, y, g))
  }

  /** The kept windows of row y from column x on, left to right; columns advance by g / 2 while x < width - g. */
  function RowFrom(pixels: seq<byte>, width: nat, g: nat, y: nat, x: nat): seq<Region>
    requires 2 <= g
    decreases width - x
  {
    if x >= width - g then []
    else
      var rest := RowFrom(pixels, width, g, y, x + g / 2);
      if RegionScore(pixels, width, x, y, g) > SCORE_THRESHOLD then [Cell(pixels, width, g, x, y)] + rest else rest
  }

  /** The kept windows of rows y, y + g / 2, ... while the row is below height - g, top to bottom. */
  function Rows(pixels: seq<byte>, width: nat, height: nat, g: nat, y: nat): seq<Region>
    requires ScanStops(height, g)
    decreases height - y
  {
    if y >= height - g then []
    else RowFrom(pixels, width, g, y, 0) + Rows(pixels, width, height, g, y + g / 2)
  }

  /** One face box per cluster of at least MIN_CLUSTER_SIZE windows, in cluster order. */
  function FacesOf(cs: seq<seq<Region>>): (faces: seq<FaceBox>)
    ensures |faces| <= |cs|
  {
    if cs == [] then []
    else
      var before := FacesOf(cs[..|cs| - 1]);
      var c := cs[|cs| - 1];
      if |c| >= MIN_CLUSTER_SIZE then before + [FaceOf(c)] else before
  }

  /**
   * The faces reported for a buffer: nothing for an empty buffer, else scan,
   * cluster and box.  An image of height 0 has grid size 0 and no row to scan.
   */
  function Detect(pixels: seq<byte>, width: nat, height: nat): (faces: seq<FaceBox>)
    requires |pixels| == 0 || height == 0 || GridOk(width, height)
    ensures |pixels| == 0 || height == 0 ==> faces == []
  {
    if |pixels| == 0 then []
    else
      var g := GridSize(width, height);
      var rs := Rows(pixels, width, height, g, 0);
      FacesOf(Members(rs, StarClusters(rs, g * DISTANCE_FACTOR)))
  }

  /**
   * One row of the scan: the windows at columns 0, g / 2, g, ... while
   * x < width - g, each analysed and appended to the kept windows when its
   * score exceeds the threshold.
   */
  method ScanRow(pixels: seq<byte>, width: nat, g: nat, y: nat, kept: seq<Region>) returns (out: seq<Region>)
    requires 2 <= g
    ensures out == kept + RowFrom(pixels, width, g, y, 0)
  {
    out := kept;
    var x: nat := 0;
    while x < width - g
      invariant out + RowFrom(pixels, width, g, y, x) == kept + RowFrom(pixels, width, g, y, 0)
      decreases width - x
    {
      var regionScore := AnalyzeRegion(pixels, width, x, y, g);
      ghost var rest := RowFrom(pixels, width, g, y, x + g / 2);
      if regionScore > SCORE_THRESHOLD {
        assert out + ([Region(x, y, g, regionScore)] + rest) == (out + [Region(x, y, g, regionScore)]) + rest;
        out := out + [Region(x, y, g, regionScore)];
      }
      x := x + g / 2;
    }
  }

  /** The whole scan: rows 0, g / 2, g, ... while y < height - g, top to bottom. */
  method ScanGrid(pixels: seq<byte>, width: nat, height: nat, g: nat) returns (skinRegions: seq<Region>)
    requires ScanStops(height, g)
    ensures skinRegions == Rows(pixels, width, height, g, 0)
  {
    skinRegions := [];
    var y: nat := 0;
    while y < height - g
      invariant skinRegions + Rows(pixels, width, height, g, y) == Rows(pixels, width, height, g, 0)
      decreases height - y
    {
      ghost var row := RowFrom(pixels, width, g, y, 0);
      ghost var below := Rows(pixels, width, height, g, y + g / 2);
      assert Rows(pixels, width, height, g, y) == row + below;
      ConcatAssoc(skinRegions, row, below);
      skinRegions := ScanRow(pixels, width, g, y, skinRegions);
      y := y + g / 2;
    }
  }

  /** The boxing pass: one box per cluster of at least MIN_CLUSTER_SIZE windows. */
  method BoxClusters(clusters: seq<seq<Region>>) returns (faces: seq<FaceBox>)
    ensures faces == FacesOf(clusters)
  {
    faces := [];
    var k := 0;
    while k < |clusters|
      invariant k <= |clusters|
      invariant faces == FacesOf(clusters[..k])
    {
      var cluster := clusters[k];
      assert clusters[..k + 1][..k] == clusters[..k];
      if |cluster| >= MIN_CLUSTER_SIZE {
        var face := ComputeFaceBounds(cluster);
        faces := faces + [face];
      }
      k := k + 1;
    }
    assert clusters[..k] == clusters;
  }

  /**
   * The detection pass: nothing for an empty buffer; otherwise scan the grid,
   * cluster the kept windows at twice the grid size, and box the clusters.
   */
  method DetectFromImageData(imageData: seq<byte>, width: nat, height: nat) returns (faces: seq<FaceBox>)
    requires |imageData| == 0 || height == 0 || GridOk(width, height)
    ensures faces == Detect(imageData, width, height)
    ensures |imageData| == 0 || height == 0 ==> faces == []
  {
    if |imageData| == 0 {
      return [];
    }
    var gridSize := Min(width, height) / GRID_DIVISOR;
    assert gridSize == GridSize(width, height);
    var skinRegions := ScanGrid(imageData, width, height, gridSize);
    var clusters := ClusterRegions(skinRegions, gridSize * DISTANCE_FACTOR);
    faces := BoxClusters(clusters);
  }

  // ---------------------------------------------------------------------
  // What the scan keeps

  /** x is one of the grid positions 0, step, 2 * step, ... */
  predicate OnGrid(x: int, step: nat)
    requires 0 < step
    decreases x
  {
    x == 0 || (step <= x && OnGrid(x - step, step))
  }

  /** Two grid positions are at least a step apart. */
  lemma {:induction false} GridGap(a: int, b: int, step: nat)
    requires 0 < step && OnGrid(a, step) && OnGrid(b, step) && a < b
    decreases a
    ensures a + step <= b
  {
    if a != 0 {
      GridGap(a - step, b - step, step);
    }
  }

  /** Window r has the grid size, the score of its square, and that score exceeds the threshold. */
  predicate Scored(pixels: seq<byte>, width: nat, g: nat, r: Region) {
    0 <= r.x && 0 <= r.y && r.size == g &&
    r.score == RegionScore(pixels, width, r.x, r.y, g) && r.score > SCORE_THRESHOLD
  }

  lemma {:induction false} RowFromSound(pixels: seq<byte>, width: nat, g: nat, y: nat, x: nat)
    requires 2 <= g && OnGrid(x, g / 2)
    decreases width - x
    ensures forall r :: r in RowFrom(pixels, width, g, y, x) ==>
              r.y == y && x <= r.x < width - g && OnGrid(r.x, g / 2) && Scored(pixels, width, g, r)
  {
    if x < width - g {
      RowFromSound(pixels, width, g, y, x + g / 2);
    }
  }

  lemma {:induction false} RowFromComplete(pixels: seq<byte>, width: nat, g: nat, y: nat, x: nat)
    requires 2 <= g && OnGrid(x, g / 2)
    decreases width - x
    ensures forall r: Region :: r.y == y && x <= r.x < width - g && OnGrid(r.x, g / 2) && Scored(pixels, width, g, r)
              ==> r in RowFrom(pixels, width, g, y, x)
  {
    var step := g / 2;
    if x < width - g {
      RowFromComplete(pixels, width, g, y, x + step);
      var rest, here := RowFrom(pixels, width, g, y, x + step), RowFrom(pixels, width, g, y, x);
      var kept := RegionScore(pixels, width, x, y, g) > SCORE_THRESHOLD;
      if kept {
        assert here == [Cell(pixels, width, g, x, y)] + rest;
      } else {
        assert here == rest;
      }
      forall r: Region | r.y == y && x <= r.x < width - g && OnGrid(r.x, step) && Scored(pixels, width, g, r)
        ensures r in here
      {
        if r.x == x {
          assert kept && r == Cell(pixels, width, g, x, y);
        } else {
          GridGap(x, r.x, step);
          assert r in rest;
        }
      }
    }
  }

  /**
   * A window is kept by the scan of row y from column x exactly when it lies
   * on that row, on a grid column from x on and left of width - g, and is
   * scored above the threshold.
   */
  lemma RowFromMembers(pixels: seq<byte>, width: nat, g: nat, y: nat, x: nat)
    requires 2 <= g && OnGrid(x, g / 2)
    ensures forall r :: r in RowFrom(pixels, width, g, y, x) <==>
              (r.y == y && x <= r.x < width - g && OnGrid(r.x, g / 2) && Scored(pixels, width, g, r))
  {
    RowFromSound(pixels, width, g, y, x);
    RowFromComplete(pixels, width, g, y, x);
  }

  lemma {:induction false} RowsSound(pixels: seq<byte>, width: nat, height: nat, g: nat, y: nat)
    requires 2 <= g && OnGrid(y, g / 2)
    decreases height - y
    ensures forall r :: r in Rows(pixels, width, height, g, y) ==>
              y <= r.y < height - g && OnGrid(r.y, g / 2) && r.x < width - g && OnGrid(r.x, g / 2) &&
              Scored(pixels, width, g, r)
  {
    if y < height - g {
      RowFromSound(pixels, width, g, y, 0);
      RowsSound(pixels, width, height, g, y + g / 2);
    }
  }

  lemma {:induction false} RowsComplete(pixels: seq<byte>, width: nat, height: nat, g: nat, y: nat)
    requires 2 <= g && OnGrid(y, g / 2)
    decreases height - y
    ensures forall r: Region :: y <= r.y < height - g && OnGrid(r.y, g / 2) && r.x < width - g && OnGrid(r.x, g / 2) &&
                                Scored(pixels, width, g, r)
              ==> r in Rows(pixels, width, height, g, y)
  {
    var step := g / 2;
    if y < height - g {
      RowFromComplete(pixels, width, g, y, 0);
      RowsComplete(pixels, width, height, g, y + step);
      var row, below := RowFrom(pixels, width, g, y, 0), Rows(pixels, width, height, g, y + step);
      assert Rows(pixels, width, height, g, y) == row + below;
      forall r: Region | y <= r.y < height - g && OnGrid(r.y, step) && r.x < width - g && OnGrid(r.x, step) &&
                         Scored(pixels, width, g, r)
        ensures r in Rows(pixels, width, height, g, y)
      {
        if r.y == y {
          assert r in row;
        } else {
          GridGap(y, r.y, step);
          assert r in below;
        }
        assert r in row + below;
      }
    }
  }

  /** The same for the rows from y down: the kept windows are the grid windows scored above the threshold. */
  lemma RowsMembers(pixels: seq<byte>, width: nat, height: nat, g: nat, y: nat)
    requires 2 <= g && OnGrid(y, g / 2)
    ensures forall r :: r in Rows(pixels, width, height, g, y) <==>
              (y <= r.y < height - g && OnGrid(r.y, g / 2) && r.x < width - g && OnGrid(r.x, g / 2) &&
               Scored(pixels, width, g, r))
  {
    RowsSound(pixels, width, height, g, y);
    RowsComplete(pixels, width, height, g, y);
  }

  /** A window the detector considers a skin region: on the grid, inside the scan bounds, scored above the threshold. */
  predicate Candidate(pixels: seq<byte>, width: nat, height: nat, g: nat, r: Region)
    requires 2 <= g
  {
    r.x < width - g && r.y < height - g && OnGrid(r.x, g / 2) && OnGrid(r.y, g / 2) && Scored(pixels, width, g, r)
  }

  /** The scan keeps exactly the candidate windows. */
  lemma ScanMembers(pixels: seq<byte>, width: nat, height: nat, g: nat)
    requires 2 <= g
    ensures forall r :: r in Rows(pixels, width, height, g, 0) <==> Candidate(pixels, width, height, g, r)
  {
    RowsMembers(pixels, width, height, g, 0);
  }

  /** Window a comes before window b in row-major order. */
  predicate Before(a: Region, b: Region) {
    a.y < b.y || (a.y == b.y && a.x < b.x)
  }

  predicate RowMajor(rs: seq<Region>) {
    forall p, q :: 0 <= p < q < |rs| ==> Before(rs[p], rs[q])
  }

  lemma ConcatRowMajor(a: seq<Region>, b: seq<Region>)
    requires RowMajor(a) && RowMajor(b)
    requires forall ra, rb :: ra in a && rb in b ==> Before(ra, rb)
    ensures RowMajor(a + b)
  {
    forall p, q | 0 <= p < q < |a + b|
      ensures Before((a + b)[p], (a + b)[q])
    {
      if q < |a| {
        assert (a + b)[p] == a[p] && (a + b)[q] == a[q];
      } else if |a| <= p {
        assert (a + b)[p] == b[p - |a|] && (a + b)[q] == b[q - |a|];
      } else {
        assert (a + b)[p] == a[p] && (a + b)[q] == b[q - |a|];
        assert (a + b)[p] in a && (a + b)[q] in b;
      }
    }
  }

  lemma {:induction false} RowFromBounds(pixels: seq<byte>, width: nat, g: nat, y: nat, x: nat)
    requires 2 <= g
    decreases width - x
    ensures forall r :: r in RowFrom(pixels, width, g, y, x) ==> r.y == y && x <= r.x
  {
    if x < width - g {
      RowFromBounds(pixels, width, g, y, x + g / 2);
    }
  }

  lemma {:induction false} RowsBounds(pixels: seq<byte>, width: nat, height: nat, g: nat, y: nat)
    requires 2 <= g
    decreases height - y
    ensures forall r :: r in Rows(pixels, width, height, g, y) ==> y <= r.y
  {
    if y < height - g {
      RowFromBounds(pixels, width, g, y, 0);
      RowsBounds(pixels, width, height, g, y + g / 2);
    }
  }

  lemma {:induction false} RowFromRowMajor(pixels: seq<byte>, width: nat, g: nat, y: nat, x: nat)
    requires 2 <= g
    decreases width - x
    ensures RowMajor(RowFrom(pixels, width, g, y, x))
  {
    var step := g / 2;
    if x < width - g {
      var rest := RowFrom(pixels, width, g, y, x + step);
      RowFromRowMajor(pixels, width, g, y, x + step);
      if RegionScore(pixels, width, x, y, g) > SCORE_THRESHOLD {
        var cell := Cell(pixels, width, g, x, y);
        assert RowMajor([cell] + rest) by {
          assert RowMajor([cell]);
          RowFromBounds(pixels, width, g, y, x + step);
          assert forall rb :: rb in rest ==> Before(cell, rb);
          ConcatRowMajor([cell], rest);
        }
        assert RowFrom(pixels, width, g, y, x) == [cell] + rest;
      } else {
        assert RowFrom(pixels, width, g, y, x) == rest;
      }
    }
  }

  lemma {:induction false} RowsRowMajor(pixels: seq<byte>, width: nat, height: nat, g: nat, y: nat)
    requires 2 <= g
    decreases height - y
    ensures RowMajor(Rows(pixels, width, height, g, y))
  {
    var step := g / 2;
    if y < height - g {
      RowFromRowMajor(pixels, width, g, y, 0);
      RowsRowMajor(pixels, width, height, g, y + step);
      RowFromBounds(pixels, width, g, y, 0);
      RowsBounds(pixels, width, height, g, y + step);
      ConcatRowMajor(RowFrom(pixels, width, g, y, 0), Rows(pixels, width, height, g, y + step));
    }
  }

  /** The kept windows come in row-major scan order, so no window is kept twice. */
  lemma ScanOrder(pixels: seq<byte>, width: nat, height: nat, g: nat)
    requires 2 <= g
    ensures RowMajor(Rows(pixels, width, height, g, 0))
  {
    RowsRowMajor(pixels, width, height, g, 0);
  }

  // ---------------------------------------------------------------------
  // Which clusters become faces

  /**
   * The boxes are exactly the boxes of the clusters having at least
   * MIN_CLUSTER_SIZE windows, and there are never more boxes than clusters.
   */
  lemma {:induction false} FacesOfMembers(cs: seq<seq<Region>>)
    ensures |FacesOf(cs)| <= |cs|
    ensures forall f :: f in FacesOf(cs) <==> exists c :: c in cs && |c| >= MIN_CLUSTER_SIZE && f == FaceOf(c)
  {
    if cs != [] {
      var init, last := cs[..|cs| - 1], cs[|cs| - 1];
      FacesOfMembers(init);
      assert cs == init + [last];
      forall f | f in FacesOf(cs)
        ensures exists c :: c in cs && |c| >= MIN_CLUSTER_SIZE && f == FaceOf(c)
      {
        if f in FacesOf(init) {
          var c :| c in init && |c| >= MIN_CLUSTER_SIZE && f == FaceOf(c);
          assert c in cs;
        } else {
          assert last in cs;
        }
      }
      forall c | c in cs && |c| >= MIN_CLUSTER_SIZE
        ensures FaceOf(c) in FacesOf(cs)
      {
        if c != last {
          assert c in init;
        }
      }
    }
  }

  // ---------------------------------------------------------------------
  // What a detected face is

  /** A box inside the image, at least one window wide and high, with confidence in (threshold, 1]. */
  predicate FaceInImage(f: FaceBox, width: nat, height: nat, g: nat) {
    0 <= f.x && g <= f.width && f.x + f.width < width &&
    0 <= f.y && g <= f.height && f.y + f.height < height &&
    SCORE_THRESHOLD < f.confidence <= 1.0
  }

  lemma FaceOfCandidates(pixels: seq<byte>, width: nat, height: nat, g: nat, c: seq<Region>)
    requires 2 <= g && |c| > 0
    requires forall k :: 0 <= k < |c| ==> Candidate(pixels, width, height, g, c[k])
    ensures FaceInImage(FaceOf(c), width, height, g)
  {
    EdgesAreExtremes(c);
    ConfidenceAbove(c, SCORE_THRESHOLD);
    ConfidenceBetween(c, 0.0, 1.0);
    var kl :| 0 <= kl < |c| && c[kl].x == Left(c);
    var kt :| 0 <= kt < |c| && c[kt].y == Top(c);
    var kr :| 0 <= kr < |c| && c[kr].x + c[kr].size == Right(c);
    var kb :| 0 <= kb < |c| && c[kb].y + c[kb].size == Bottom(c);
    assert c[kl].x + c[kl].size <= Right(c);
    assert c[kt].y + c[kt].size <= Bottom(c);
  }

  /** Every member of every cluster the clustering returns is one of the clustered windows. */
  lemma ClusterMembersFromInput(rs: seq<Region>, threshold: int)
    ensures forall c, k :: 0 <= c < |Members(rs, StarClusters(rs, threshold))| &&
                           0 <= k < |Members(rs, StarClusters(rs, threshold))[c]|
                           ==> Members(rs, StarClusters(rs, threshold))[c][k] in rs
  {
    var cs := StarClusters(rs, threshold);
    MembersPick(rs, cs);
    forall c | 0 <= c < |cs|
      ensures forall k :: 0 <= k < |Members(rs, cs)[c]| ==> Members(rs, cs)[c][k] in rs
    {
      PickIndex(rs, cs[c]);
    }
  }

  /** Clusters made of candidate windows give boxes inside the image. */
  lemma {:induction false} CandidateClustersInImage(pixels: seq<byte>, width: nat, height: nat, g: nat,
                                                  clusters: seq<seq<Region>>)
    requires 2 <= g
    requires forall c, k :: 0 <= c < |clusters| && 0 <= k < |clusters[c]| ==>
               Candidate(pixels, width, height, g, clusters[c][k])
    ensures forall f :: f in FacesOf(clusters) ==> FaceInImage(f, width, height, g)
  {
    if clusters != [] {
      var init, last := clusters[..|clusters| - 1], clusters[|clusters| - 1];
      CandidateClustersInImage(pixels, width, height, g, init);
      if |last| >= MIN_CLUSTER_SIZE {
        FaceOfCandidates(pixels, width, height, g, last);
      }
    }
  }

  /**
   * Every reported face lies strictly inside the image, spans at least one
   * window each way, and has a confidence above the score threshold and at
   * most 1.
   */
  lemma DetectedFacesInImage(pixels: seq<byte>, width: nat, height: nat)
    requires GridOk(width, height)
    ensures forall f :: f in Detect(pixels, width, height) ==> FaceInImage(f, width, height, GridSize(width, height))
  {
    if |pixels| > 0 {
      var g := GridSize(width, height);
      var rs := Rows(pixels, width, height, g, 0);
      ScanMembers(pixels, width, height, g);
      ClusterMembersFromInput(rs, g * DISTANCE_FACTOR);
      CandidateClustersInImage(pixels, width, height, g, Members(rs, StarClusters(rs, g * DISTANCE_FACTOR)));
    }
  }

  // ---------------------------------------------------------------------
  // Uniform buffers

  /** A buffer without a single skin-coloured pixel yields no face. */
  lemma NoSkinNoFaces(pixels: seq<byte>, width: nat, height: nat)
    requires |pixels| == 0 || height == 0 || GridOk(width, height)
    requires NoSkin(pixels)
    ensures Detect(pixels, width, height) == []
  {
    if |pixels| > 0 && height > 0 {
      var g := GridSize(width, height);
      var rs := Rows(pixels, width, height, g, 0);
      ScanMembers(pixels, width, height, g);
      if rs != [] {
        var r := rs[0];
        assert r in rs;
        RegionScoreUniform(pixels, width, r.x, r.y, g);
        assert false;
      }
      assert StarClusters(rs, g * DISTANCE_FACTOR) == [];
    }
  }

  /** A window scoring above the threshold heads the rest of its row. */
  lemma KeptHead(pixels: seq<byte>, width: nat, g: nat, y: nat, x: nat)
    requires 2 <= g && x < width - g && RegionScore(pixels, width, x, y, g) > SCORE_THRESHOLD
    ensures RowFrom(pixels, width, g, y, x) == [Cell(pixels, width, g, x, y)] + RowFrom(pixels, width, g, y, x + g / 2)
  {
  }

  /** When the first three windows of the top row score above the threshold, the scan keeps them first. */
  lemma FirstThreeKept(pixels: seq<byte>, width: nat, height: nat, g: nat)
    requires 2 <= g && g % 2 == 0 && 2 * g < width && g < height
    requires RegionScore(pixels, width, 0, 0, g) > SCORE_THRESHOLD
    requires RegionScore(pixels, width, g / 2, 0, g) > SCORE_THRESHOLD
    requires RegionScore(pixels, width, g, 0, g) > SCORE_THRESHOLD
    ensures var rs := Rows(pixels, width, height, g, 0);
            3 <= |rs| && rs[0] == Cell(pixels, width, g, 0, 0) &&
            rs[1] == Cell(pixels, width, g, g / 2, 0) && rs[2] == Cell(pixels, width, g, g, 0)
  {
    var step := g / 2;
    var c0, c1, c2 := Cell(pixels, width, g, 0, 0), Cell(pixels, width, g, step, 0), Cell(pixels, width, g, g, 0);
    var tail := RowFrom(pixels, width, g, 0, g + step);
    var below := Rows(pixels, width, height, g, step);
    assert Rows(pixels, width, height, g, 0) == ([c0] + ([c1] + ([c2] + tail))) + below by {
      KeptHead(pixels, width, g, 0, g);
      KeptHead(pixels, width, g, 0, step);
      KeptHead(pixels, width, g, 0, 0);
      assert step + step == g;
    }
    ThreeHeads(c0, c1, c2, tail, below);
  }

  lemma ThreeHeads<T>(a: T, b: T, c: T, t: seq<T>, u: seq<T>)
    ensures 3 <= |([a] + ([b] + ([c] + t))) + u|
    ensures (([a] + ([b] + ([c] + t))) + u)[0] == a
    ensures (([a] + ([b] + ([c] + t))) + u)[1] == b
    ensures (([a] + ([b] + ([c] + t))) + u)[2] == c
  {
  }

  /**
   * On a whole frame of skin-coloured pixels the scan keeps the first three
   * windows of the top row first, and the second and third lie within twice
   * the grid size of the first.
   */
  lemma SkinFrameFirstWindows(pixels: seq<byte>, width: nat, height: nat)
    requires GridOk(width, height)
    requires AllSkin(pixels) && |pixels| == 4 * width * height
    ensures var g := GridSize(width, height);
            var rs := Rows(pixels, width, height, g, 0);
            3 <= |rs| && Near(rs[0], rs[1], g * DISTANCE_FACTOR) && Near(rs[0], rs[2], g * DISTANCE_FACTOR)
  {
    var g := GridSize(width, height);
    var step := g / 2;
    assert g == 2 * step;
    assert 8 * g <= width && 8 * g <= height;
    TopRowInFrame(width, height, g);
    RegionScoreUniform(pixels, width, 0, 0, g);
    RegionScoreUniform(pixels, width, step, 0, g);
    RegionScoreUniform(pixels, width, g, 0, g);
    FirstThreeKept(pixels, width, height, g);
    assert g * DISTANCE_FACTOR == 4 * step;
    RowNeighboursNear(Cell(pixels, width, g, 0, 0), Cell(pixels, width, g, step, 0), step);
    RowNeighboursNear(Cell(pixels, width, g, 0, 0), Cell(pixels, width, g, g, 0), step);
  }

  /** The corner pixels of the first windows of the top row lie in a full frame. */
  lemma TopRowInFrame(width: nat, height: nat, g: nat)
    requires 1 <= g && 8 * g <= width && 1 <= height
    ensures Offset(width, g, 0) + 2 < 4 * width * height
  {
    assert Offset(width, g, 0) == 4 * g;
    assert width * 1 <= width * height;
    assert 4 * width * height == 4 * (width * height);
  }

  /** Two windows of one row at most two steps apart are near at a threshold of four steps. */
  lemma RowNeighboursNear(a: Region, b: Region, step: nat)
    requires 0 < step && a.y == b.y && 0 < b.x - a.x <= 2 * step
    ensures Near(a, b, 4 * step)
  {
    var d := b.x - a.x;
    assert (a.x - b.x) * (a.x - b.x) == d * d;
    assert d * d <= d * (2 * step) <= (2 * step) * (2 * step);
    assert (4 * step) * (4 * step) == 4 * ((2 * step) * (2 * step));
  }

  /** When regions 1 and 2 lie near region 0, the first cluster has at least three windows. */
  lemma ThreeNearFormCluster(rs: seq<Region>, threshold: int)
    requires 3 <= |rs| && Near(rs[0], rs[1], threshold) && Near(rs[0], rs[2], threshold)
    ensures |StarClusters(rs, threshold)| > 0 && |StarClusters(rs, threshold)[0]| >= MIN_CLUSTER_SIZE
  {
    FirstCluster(rs, threshold);
    var h := StarClusters(rs, threshold)[0];
    assert 1 in h && 2 in h;
    var p :| 0 <= p < |h| && h[p] == 1;
    var q :| 0 <= q < |h| && h[q] == 2;
  }

  /** When regions 1 and 2 lie near region 0, the first cluster is reported as a face. */
  lemma ThreeNearGiveFace(rs: seq<Region>, threshold: int)
    requires 3 <= |rs| && Near(rs[0], rs[1], threshold) && Near(rs[0], rs[2], threshold)
    ensures |StarClusters(rs, threshold)| > 0 && 3 <= |Members(rs, StarClusters(rs, threshold))[0]|
    ensures FaceOf(Members(rs, StarClusters(rs, threshold))[0]) in FacesOf(Members(rs, StarClusters(rs, threshold)))
    ensures |FacesOf(Members(rs, StarClusters(rs, threshold)))| >= 1
  {
    var cs := StarClusters(rs, threshold);
    ThreeNearFormCluster(rs, threshold);
    var clusters := Members(rs, cs);
    MembersPick(rs, cs);
    FacesOfMembers(clusters);
    assert clusters[0] in clusters;
    assert FaceOf(clusters[0]) in FacesOf(clusters);
  }

  /**
   * A whole frame of skin-coloured pixels yields at least one face: the first
   * three windows form one cluster of at least three windows.
   */
  lemma SkinFrameHasFace(pixels: seq<byte>, width: nat, height: nat)
    requires GridOk(width, height)
    requires AllSkin(pixels) && |pixels| == 4 * width * height
    ensures |Detect(pixels, width, height)| >= 1
  {
    var g := GridSize(width, height);
    SkinFrameFirstWindows(pixels, width, height);
    ThreeNearGiveFace(Rows(pixels, width, height, g, 0), g * DISTANCE_FACTOR);
  }

  /** A frame of n fully opaque pixels of colour (r, g, b). */
  function SolidFrame(r: byte, g: byte, b: byte, n: nat): (s: seq<byte>)
    ensures |s| == 4 * n
  {
    seq(4 * n, i => if i % 4 == 0 then r else if i % 4 == 1 then g else if i % 4 == 2 then b else 255)
  }

  lemma SolidFrameColour(r: byte, g: byte, b: byte, n: nat, p: nat)
    requires 4 * p + 2 < 4 * n
    ensures SolidFrame(r, g, b, n)[4 * p] == r
    ensures SolidFrame(r, g, b, n)[4 * p + 1] == g
    ensures SolidFrame(r, g, b, n)[4 * p + 2] == b
  {
    assert (4 * p) % 4 == 0 && (4 * p + 1) % 4 == 1 && (4 * p + 2) % 4 == 2;
  }

  /** A frame of the skin tone (200, 150, 120) yields at least one face. */
  lemma SkinColouredFrameDetected(width: nat, height: nat)
    requires GridOk(width, height)
    ensures |Detect(SolidFrame(200, 150, 120, width * height), width, height)| >= 1
  {
    var pixels := SolidFrame(200, 150, 120, width * height);
    SkinToneExamples();
    assert AllSkin(pixels) by {
      forall p: nat | 4 * p + 2 < |pixels|
        ensures SkinAt(pixels, p)
      {
        SolidFrameColour(200, 150, 120, width * height, p);
      }
    }
    assert |pixels| == 4 * width * height;
    SkinFrameHasFace(pixels, width, height);
  }

  /** A pure blue frame yields no face. */
  lemma BlueFrameNotDetected(width: nat, height: nat)
    requires GridOk(width, height)
    ensures Detect(SolidFrame(0, 0, 255, width * height), width, height) == []
  {
    var pixels := SolidFrame(0, 0, 255, width * height);
    SkinToneExamples();
    assert NoSkin(pixels) by {
      forall p: nat | 4 * p + 2 < |pixels|
        ensures !SkinAt(pixels, p)
      {
        SolidFrameColour(0, 0, 255, width * height, p);
      }
    }
    NoSkinNoFaces(pixels, width, height);
  }
}
