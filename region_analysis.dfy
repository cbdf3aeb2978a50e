/**
 * Scoring one square window of an RGBA buffer: the fraction of the window's
 * pixels, among those whose colour bytes lie inside the buffer, that are
 * skin-coloured.
 */
module RegionAnalysis {
  import opened SkinTone

  /** Running counts of a window scan: skin-coloured pixels and sampled pixels. */
  datatype Tally = Tally(skin: nat, total: nat)

  /** Index of the red byte of pixel (x, y) in a row-major RGBA buffer `width` pixels wide. */
  function Offset(width: nat, x: nat, y: nat): nat {
    (y * width + x) * 4
  }

  /**
   * The row guard of the scan: the first byte of row y lies in the buffer.
   * For width > 0 this is y < |pixels| / width / 4 (see RowGuardExact); for
   * width 0 both forms reduce to "the buffer is not empty".
   */
  predicate RowInBuffer(pixels: seq<byte>, width: nat, y: nat) {
    y * width * 4 < |pixels|
  }

  /** What pixel (x, y) adds to a tally: nothing when its blue byte lies past the buffer end. */
  function Sample(pixels: seq<byte>, width: nat, x: nat, y: nat): (t: Tally)
    ensures t.skin <= t.total <= 1
    ensures t.total == 1 <==> Offset(width, x, y) + 2 < |pixels|
  {
    var idx := Offset(width, x, y);
    if idx + 2 < |pixels| then
      Tally(if IsSkinTone(pixels[idx], pixels[idx + 1], pixels[idx + 2]) then 1 else 0, 1)
    else
      Tally(0, 0)
  }

  /** Tally of the pixels x0 <= x < x1 of row y. */
  function RowTally(pixels: seq<byte>, width: nat, y: nat, x0: nat, x1: nat): (t: Tally)
    decreases x1
    ensures t.skin <= t.total
  {
    if x1 <= x0 then Tally(0, 0)
    else
      var before := RowTally(pixels, width, y, x0, x1 - 1);
      var last := Sample(pixels, width, x1 - 1, y);
      Tally(before.skin + last.skin, before.total + last.total)
  }

  /** Tally of the columns x0 <= x < x0 + size of the rows y0 <= y < y1. */
  function WindowTally(pixels: seq<byte>, width: nat, x0: nat, size: nat, y0: nat, y1: nat): (t: Tally)
    decreases y1
    ensures t.skin <= t.total
  {
    if y1 <= y0 then Tally(0, 0)
    else
      var above := WindowTally(pixels, width, x0, size, y0, y1 - 1);
      var row := RowTally(pixels, width, y1 - 1, x0, x0 + size);
      Tally(above.skin + row.skin, above.total + row.total)
  }

  /** Score of the size-by-size window at (x0, y0): skin / sampled, or 0 when nothing was sampled. */
  function RegionScore(pixels: seq<byte>, width: nat, x0: nat, y0: nat, size: nat): (score: real)
    ensures 0.0 <= score <= 1.0
  {
    var t := WindowTally(pixels, width, x0, size, y0, y0 + size);
    if t.total > 0 then Ratio(t.skin, t.total) else 0.0
  }

  function Ratio(part: nat, whole: nat): (q: real)
    requires 0 < whole && part <= whole
    ensures 0.0 <= q <= 1.0
    ensures q == 1.0 <==> part == whole
    ensures q == 0.0 <==> part == 0
  {
    var q := (part as real) / (whole as real);
    assert q * (whole as real) == part as real;
    q
  }

  /**
   * The window analysis: for each row of the window while the row starts
   * inside the buffer, for each column, count the pixel when its colour
   * bytes lie in the buffer and count it as skin when the classifier says so.
   */
  method AnalyzeRegion(pixels: seq<byte>, width: nat, startX: nat, startY: nat, size: nat)
    returns (score: real)
    ensures score == RegionScore(pixels, width, startX, startY, size)
    ensures 0.0 <= score <= 1.0
  {
    var skinPixels: nat := 0;
    var totalPixels: nat := 0;
    var y := startY;
    while y < startY + size && RowInBuffer(pixels, width, y)
      invariant startY <= y <= startY + size
      invariant skinPixels == WindowTally(pixels, width, startX, size, startY, y).skin
      invariant totalPixels == WindowTally(pixels, width, startX, size, startY, y).total
    {
      var x := startX;
      while x < startX + size
        invariant startX <= x <= startX + size
        invariant skinPixels == WindowTally(pixels, width, startX, size, startY, y).skin
                              + RowTally(pixels, width, y, startX, x).skin
        invariant totalPixels == WindowTally(pixels, width, startX, size, startY, y).total
                               + RowTally(pixels, width, y, startX, x).total
      {
        var idx := Offset(width, x, y);
        if idx + 2 < |pixels| {
          var r, g, b := pixels[idx], pixels[idx + 1], pixels[idx + 2];
          if IsSkinTone(r, g, b) {
            skinPixels := skinPixels + 1;
          }
          totalPixels := totalPixels + 1;
        }
        x := x + 1;
      }
      y := y + 1;
    }
    if y < startY + size {
      RowsPastBufferAddNothing(pixels, width, startX, size, startY, y, startY + size);
    }
    score := if totalPixels > 0 then Ratio(skinPixels, totalPixels) else 0.0;
  }

  /** For width > 0 the integer row guard is exactly the guard y < |pixels| / width / 4. */
  lemma RowGuardExact(pixels: seq<byte>, width: nat, y: nat)
    requires width > 0
    ensures RowInBuffer(pixels, width, y) <==> (y as real) < (|pixels| as real) / (width as real) / 4.0
  {
    var bound := (|pixels| as real) / (width as real) / 4.0;
    var w := width as real;
    assert bound * w * 4.0 == |pixels| as real;
    assert (y * width * 4) as real == (y as real) * w * 4.0;
    if (y as real) < bound {
      assert (y as real) * w < bound * w;
    } else {
      assert bound * w <= (y as real) * w;
    }
  }

  lemma OffsetAtLeastRowStart(width: nat, x: nat, y: nat, y': nat)
    requires y <= y'
    ensures y * width * 4 <= Offset(width, x, y')
  {
    assert y * width <= y' * width by {
      assert y' * width == y * width + (y' - y) * width;
    }
  }

  /** A row that starts past the buffer end contributes an empty tally. */
  lemma {:induction false} RowPastBufferEmpty(pixels: seq<byte>, width: nat, y: nat, x0: nat, x1: nat)
    requires !RowInBuffer(pixels, width, y)
    ensures RowTally(pixels, width, y, x0, x1).total == 0
    decreases x1
  {
    if x1 > x0 {
      RowPastBufferEmpty(pixels, width, y, x0, x1 - 1);
      OffsetAtLeastRowStart(width, x1 - 1, y, y);
    }
  }

  /**
   * Once row y starts past the buffer end, rows y and below add nothing: this
   * is why stopping the scan at the row guard gives the whole window's tally.
   */
  lemma {:induction false} RowsPastBufferAddNothing(pixels: seq<byte>, width: nat, x0: nat, size: nat,
                                                    y0: nat, y: nat, y1: nat)
    requires y0 <= y <= y1
    requires !RowInBuffer(pixels, width, y)
    ensures WindowTally(pixels, width, x0, size, y0, y1).skin == WindowTally(pixels, width, x0, size, y0, y).skin
    ensures WindowTally(pixels, width, x0, size, y0, y1).total == WindowTally(pixels, width, x0, size, y0, y).total
    decreases y1
  {
    if y1 > y {
      RowsPastBufferAddNothing(pixels, width, x0, size, y0, y, y1 - 1);
      assert !RowInBuffer(pixels, width, y1 - 1) by {
        OffsetAtLeastRowStart(width, 0, y, y1 - 1);
      }
      RowPastBufferEmpty(pixels, width, y1 - 1, x0, x0 + size);
    }
  }

  /** The colour of pixel number p (counting row-major from 0) is a skin tone. */
  predicate SkinAt(pixels: seq<byte>, p: nat)
    requires 4 * p + 2 < |pixels|
  {
    IsSkinTone(pixels[4 * p], pixels[4 * p + 1], pixels[4 * p + 2])
  }

  /** Every complete colour triple of the buffer is a skin tone. */
  ghost predicate AllSkin(pixels: seq<byte>) {
    forall p: nat :: 4 * p + 2 < |pixels| ==> SkinAt(pixels, p)
  }

  /** No complete colour triple of the buffer is a skin tone. */
  ghost predicate NoSkin(pixels: seq<byte>) {
    forall p: nat :: 4 * p + 2 < |pixels| ==> !SkinAt(pixels, p)
  }

  lemma SampleUniform(pixels: seq<byte>, width: nat, x: nat, y: nat)
    ensures AllSkin(pixels) ==> Sample(pixels, width, x, y).skin == Sample(pixels, width, x, y).total
    ensures NoSkin(pixels) ==> Sample(pixels, width, x, y).skin == 0
  {
    var p := y * width + x;
    assert Offset(width, x, y) == 4 * p;
    if 4 * p + 2 < |pixels| {
      assert AllSkin(pixels) ==> SkinAt(pixels, p);
      assert NoSkin(pixels) ==> !SkinAt(pixels, p);
    }
  }

  lemma {:induction false} RowTallyUniform(pixels: seq<byte>, width: nat, y: nat, x0: nat, x1: nat)
    ensures AllSkin(pixels) ==> RowTally(pixels, width, y, x0, x1).skin == RowTally(pixels, width, y, x0, x1).total
    ensures NoSkin(pixels) ==> RowTally(pixels, width, y, x0, x1).skin == 0
    decreases x1
  {
    if x1 > x0 {
      RowTallyUniform(pixels, width, y, x0, x1 - 1);
      SampleUniform(pixels, width, x1 - 1, y);
    }
  }

  lemma {:induction false} WindowTallyUniform(pixels: seq<byte>, width: nat, x0: nat, size: nat, y0: nat, y1: nat)
    ensures AllSkin(pixels) ==>
            WindowTally(pixels, width, x0, size, y0, y1).skin == WindowTally(pixels, width, x0, size, y0, y1).total
    ensures NoSkin(pixels) ==> WindowTally(pixels, width, x0, size, y0, y1).skin == 0
    decreases y1
  {
    if y1 > y0 {
      WindowTallyUniform(pixels, width, x0, size, y0, y1 - 1);
      RowTallyUniform(pixels, width, y1 - 1, x0, x0 + size);
    }
  }

  lemma {:induction false} RowTallyCountsFirst(pixels: seq<byte>, width: nat, y: nat, x0: nat, x1: nat)
    requires x0 < x1 && Offset(width, x0, y) + 2 < |pixels|
    ensures RowTally(pixels, width, y, x0, x1).total >= 1
    decreases x1
  {
    if x1 - 1 > x0 {
      RowTallyCountsFirst(pixels, width, y, x0, x1 - 1);
    }
  }

  lemma {:induction false} WindowTallyCountsCorner(pixels: seq<byte>, width: nat, x0: nat, size: nat, y0: nat, y1: nat)
    requires y0 < y1 && 0 < size && Offset(width, x0, y0) + 2 < |pixels|
    ensures WindowTally(pixels, width, x0, size, y0, y1).total >= 1
    decreases y1
  {
    if y1 - 1 > y0 {
      WindowTallyCountsCorner(pixels, width, x0, size, y0, y1 - 1);
    } else {
      RowTallyCountsFirst(pixels, width, y0, x0, x0 + size);
    }
  }

  /**
   * On a buffer whose every pixel is skin-coloured, a non-empty window whose
   * corner pixel lies in the buffer scores exactly 1; on a buffer with no
   * skin-coloured pixel every window scores 0.
   */
  lemma RegionScoreUniform(pixels: seq<byte>, width: nat, x0: nat, y0: nat, size: nat)
    ensures AllSkin(pixels) && 0 < size && Offset(width, x0, y0) + 2 < |pixels| ==>
            RegionScore(pixels, width, x0, y0, size) == 1.0
    ensures NoSkin(pixels) ==> RegionScore(pixels, width, x0, y0, size) == 0.0
  {
    WindowTallyUniform(pixels, width, x0, size, y0, y0 + size);
    if 0 < size && Offset(width, x0, y0) + 2 < |pixels| {
      WindowTallyCountsCorner(pixels, width, x0, size, y0, y0 + size);
    }
  }
}
