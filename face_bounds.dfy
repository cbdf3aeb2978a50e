/**
 * Reducing a cluster of scan windows to one face box: the smallest
 * axis-aligned box enclosing every member square, with the mean member score
 * as its confidence.
 */
module FaceBounds {
  import opened FaceTypes

  /** Smallest left edge among the members. */
  function Left(c: seq<Region>): int
    requires |c| > 0
  {
    if |c| == 1 then c[0].x else Min(Left(c[..|c| - 1]), c[|c| - 1].x)
  }

  /** Smallest top edge among the members. */
  function Top(c: seq<Region>): int
    requires |c| > 0
  {
    if |c| == 1 then c[0].y else Min(Top(c[..|c| - 1]), c[|c| - 1].y)
  }

  /** Largest right edge x + size among the members. */
  function Right(c: seq<Region>): int
    requires |c| > 0
  {
    if |c| == 1 then c[0].x + c[0].size else Max(Right(c[..|c| - 1]), c[|c| - 1].x + c[|c| - 1].size)
  }

  /** Largest bottom edge y + size among the members. */
  function Bottom(c: seq<Region>): int
    requires |c| > 0
  {
    if |c| == 1 then c[0].y + c[0].size else Max(Bottom(c[..|c| - 1]), c[|c| - 1].y + c[|c| - 1].size)
  }

  /** The left and right edges bound every member and each is attained by one. */
  lemma {:induction false} HorizontalExtremes(c: seq<Region>)
    requires |c| > 0
    ensures forall k :: 0 <= k < |c| ==> Left(c) <= c[k].x && c[k].x + c[k].size <= Right(c)
    ensures exists k :: 0 <= k < |c| && c[k].x == Left(c)
    ensures exists k :: 0 <= k < |c| && c[k].x + c[k].size == Right(c)
  {
    if |c| > 1 {
      var init := c[..|c| - 1];
      var last := |c| - 1;
      HorizontalExtremes(init);
      assert forall k :: 0 <= k < |init| ==> init[k] == c[k];
      var kl :| 0 <= kl < |init| && init[kl].x == Left(init);
      var kr :| 0 <= kr < |init| && init[kr].x + init[kr].size == Right(init);
      var l := if Left(init) <= c[last].x then kl else last;
      assert c[l].x == Left(c);
      var r := if Right(init) >= c[last].x + c[last].size then kr else last;
      assert c[r].x + c[r].size == Right(c);
    } else {
      assert c[0].x == Left(c) && c[0].x + c[0].size == Right(c);
    }
  }

  /** The top and bottom edges bound every member and each is attained by one. */
  lemma {:induction false} VerticalExtremes(c: seq<Region>)
    requires |c| > 0
    ensures forall k :: 0 <= k < |c| ==> Top(c) <= c[k].y && c[k].y + c[k].size <= Bottom(c)
    ensures exists k :: 0 <= k < |c| && c[k].y == Top(c)
    ensures exists k :: 0 <= k < |c| && c[k].y + c[k].size == Bottom(c)
  {
    if |c| > 1 {
      var init := c[..|c| - 1];
      var last := |c| - 1;
      VerticalExtremes(init);
      assert forall k :: 0 <= k < |init| ==> init[k] == c[k];
      var kt :| 0 <= kt < |init| && init[kt].y == Top(init);
      var kb :| 0 <= kb < |init| && init[kb].y + init[kb].size == Bottom(init);
      var t := if Top(init) <= c[last].y then kt else last;
      assert c[t].y == Top(c);
      var b := if Bottom(init) >= c[last].y + c[last].size then kb else last;
      assert c[b].y + c[b].size == Bottom(c);
    } else {
      assert c[0].y == Top(c) && c[0].y + c[0].size == Bottom(c);
    }
  }

  /** Each edge function bounds every member and is attained by one. */
  lemma EdgesAreExtremes(c: seq<Region>)
    requires |c| > 0
    ensures forall k :: 0 <= k < |c| ==>
              Left(c) <= c[k].x && c[k].x + c[k].size <= Right(c) &&
              Top(c) <= c[k].y && c[k].y + c[k].size <= Bottom(c)
    ensures exists k :: 0 <= k < |c| && c[k].x == Left(c)
    ensures exists k :: 0 <= k < |c| && c[k].y == Top(c)
    ensures exists k :: 0 <= k < |c| && c[k].x + c[k].size == Right(c)
    ensures exists k :: 0 <= k < |c| && c[k].y + c[k].size == Bottom(c)
  {
    HorizontalExtremes(c);
    VerticalExtremes(c);
  }

  /** Sum of the member scores, accumulated front to back. */
  function SumScores(c: seq<Region>): real {
    if c == [] then 0.0 else SumScores(c[..|c| - 1]) + c[|c| - 1].score
  }

  /** The box encloses every member square exactly: each of its four edges is some member's edge. */
  predicate Encloses(f: FaceBox, c: seq<Region>) {
    (forall k :: 0 <= k < |c| ==>
       f.x <= c[k].x && c[k].x + c[k].size <= f.x + f.width &&
       f.y <= c[k].y && c[k].y + c[k].size <= f.y + f.height) &&
    (exists k :: 0 <= k < |c| && c[k].x == f.x) &&
    (exists k :: 0 <= k < |c| && c[k].y == f.y) &&
    (exists k :: 0 <= k < |c| && c[k].x + c[k].size == f.x + f.width) &&
    (exists k :: 0 <= k < |c| && c[k].y + c[k].size == f.y + f.height)
  }

  /** The face box of a non-empty cluster: the smallest box round its squares, with the mean score. */
  function FaceOf(c: seq<Region>): (f: FaceBox)
    requires |c| > 0
    ensures Encloses(f, c)
  {
    EdgesAreExtremes(c);
    FaceBox(Left(c), Top(c), Right(c) - Left(c), Bottom(c) - Top(c), SumScores(c) / (|c| as real))
  }

  /**
   * The aggregation loop: track the extreme edges and the score total over
   * the members, then report the enclosing box and the mean score.  The
   * accumulators start from the first member, which is what starting from
   * +Infinity / -Infinity / 0 and folding in that member gives.
   */
  method ComputeFaceBounds(cluster: seq<Region>) returns (face: FaceBox)
    requires |cluster| > 0
    ensures face == FaceOf(cluster)
    ensures Encloses(face, cluster)
    ensures face.confidence == SumScores(cluster) / (|cluster| as real)
    ensures (forall k :: 0 <= k < |cluster| ==> 0.0 <= cluster[k].score <= 1.0) ==>
            0.0 <= face.confidence <= 1.0
  {
    var minX, minY := cluster[0].x, cluster[0].y;
    var maxX, maxY := cluster[0].x + cluster[0].size, cluster[0].y + cluster[0].size;
    var totalScore := 0.0 + cluster[0].score;
    assert cluster[..1][..0] == [];
    var k := 1;
    while k < |cluster|
      invariant 1 <= k <= |cluster|
      invariant minX == Left(cluster[..k]) && minY == Top(cluster[..k])
      invariant maxX == Right(cluster[..k]) && maxY == Bottom(cluster[..k])
      invariant totalScore == SumScores(cluster[..k])
    {
      var region := cluster[k];
      assert cluster[..k + 1][..k] == cluster[..k];
      minX := Min(minX, region.x);
      minY := Min(minY, region.y);
      maxX := Max(maxX, region.x + region.size);
      maxY := Max(maxY, region.y + region.size);
      totalScore := totalScore + region.score;
      k := k + 1;
    }
    assert cluster[..k] == cluster;
    face := FaceBox(minX, minY, maxX - minX, maxY - minY, totalScore / (|cluster| as real));
    FaceOfProperties(cluster);
  }

  /** The box of a cluster encloses it, and its confidence is a mean of scores in [0, 1] when they are. */
  lemma FaceOfProperties(c: seq<Region>)
    requires |c| > 0
    ensures Encloses(FaceOf(c), c)
    ensures (forall k :: 0 <= k < |c| ==> 0.0 <= c[k].score <= 1.0) ==> 0.0 <= FaceOf(c).confidence <= 1.0
  {
    EdgesAreExtremes(c);
    if forall k :: 0 <= k < |c| ==> 0.0 <= c[k].score <= 1.0 {
      ConfidenceBetween(c, 0.0, 1.0);
    }
  }

  /** A box round members of non-negative size has non-negative width and height. */
  lemma FaceOfNonNegative(c: seq<Region>)
    requires |c| > 0
    requires forall k :: 0 <= k < |c| ==> c[k].size >= 0
    ensures FaceOf(c).width >= 0 && FaceOf(c).height >= 0
  {
    EdgesAreExtremes(c);
    assert c[0].x + c[0].size <= Right(c);
    assert c[0].y + c[0].size <= Bottom(c);
  }

  /** The score total lies between |c| times the smallest and |c| times the largest allowed score. */
  lemma {:induction false} SumScoresBetween(c: seq<Region>, lo: real, hi: real)
    requires forall k :: 0 <= k < |c| ==> lo <= c[k].score <= hi
    ensures lo * (|c| as real) <= SumScores(c) <= hi * (|c| as real)
  {
    if c != [] {
      var init := c[..|c| - 1];
      assert forall k :: 0 <= k < |init| ==> init[k] == c[k];
      SumScoresBetween(init, lo, hi);
      assert lo * (|c| as real) == lo * (|init| as real) + lo;
      assert hi * (|c| as real) == hi * (|init| as real) + hi;
    }
  }

  /** When every score exceeds lo, the total exceeds |c| times lo. */
  lemma {:induction false} SumScoresAbove(c: seq<Region>, lo: real)
    requires |c| > 0
    requires forall k :: 0 <= k < |c| ==> lo < c[k].score
    ensures lo * (|c| as real) < SumScores(c)
  {
    var init := c[..|c| - 1];
    assert forall k :: 0 <= k < |init| ==> init[k] == c[k];
    if |init| > 0 {
      SumScoresAbove(init, lo);
    }
    assert lo * (|c| as real) == lo * (|init| as real) + lo;
  }

  /** The confidence is a mean: scores in [lo, hi] give a confidence in [lo, hi]. */
  lemma ConfidenceBetween(c: seq<Region>, lo: real, hi: real)
    requires |c| > 0
    requires forall k :: 0 <= k < |c| ==> lo <= c[k].score <= hi
    ensures lo <= FaceOf(c).confidence <= hi
  {
    SumScoresBetween(c, lo, hi);
    var n := |c| as real;
    var mean := SumScores(c) / n;
    assert mean * n == SumScores(c);
    assert lo * n <= mean * n <= hi * n;
  }

  /** Scores all above lo give a confidence above lo. */
  lemma ConfidenceAbove(c: seq<Region>, lo: real)
    requires |c| > 0
    requires forall k :: 0 <= k < |c| ==> lo < c[k].score
    ensures lo < FaceOf(c).confidence
  {
    SumScoresAbove(c, lo);
    var n := |c| as real;
    var mean := SumScores(c) / n;
    assert mean * n == SumScores(c);
    assert lo * n < mean * n;
  }
}
