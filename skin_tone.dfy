/**
 * The per-pixel classifier of the face detector: a pixel is skin-coloured
 * when its red, green and blue samples pass a fixed RGB threshold rule or a
 * fixed YCbCr threshold rule.  The luma/chroma transform is computed in exact
 * rational arithmetic.
 */
module SkinTone {

  /** One colour sample of an RGBA pixel buffer. */
  type byte = b: int | 0 <= b < 256

  function Abs(v: int): int { if v < 0 then -v else v }

  /**
   * The RGB rule as the detector writes it, with both tests on r - g.  The
   * magnitude test |r - g| > 15 and the test r > g never decide anything:
   * r - g > 15 implies both.
   */
  predicate RgbRule(r: byte, g: byte, b: byte)
    ensures RgbRule(r, g, b) <==> (r > 95 && g > 40 && b > 20 && r > b && r - g > 15)
  {
    r > 95 && g > 40 && b > 20 &&
    r > g && r > b &&
    Abs(r - g) > 15 &&
    r - g > 15
  }

  /** Luma Y = 0.299 r + 0.587 g + 0.114 b. */
  function Luma(r: byte, g: byte, b: byte): real {
    0.299 * (r as real) + 0.587 * (g as real) + 0.114 * (b as real)
  }

  /** Blue-difference chroma Cb = 128 - 0.169 r - 0.331 g + 0.5 b. */
  function BlueChroma(r: byte, g: byte, b: byte): real {
    128.0 - 0.169 * (r as real) - 0.331 * (g as real) + 0.5 * (b as real)
  }

  /** Red-difference chroma Cr = 128 + 0.5 r - 0.419 g - 0.081 b. */
  function RedChroma(r: byte, g: byte, b: byte): real {
    128.0 + 0.5 * (r as real) - 0.419 * (g as real) - 0.081 * (b as real)
  }

  /**
   * The YCbCr rule: bright enough, and both chroma values inside their open
   * bands.  It is the same rule on integers scaled by 1000, the form an
   * implementation on integers would use.
   */
  predicate YCbCrRule(r: byte, g: byte, b: byte)
    ensures YCbCrRule(r, g, b) <==>
            (299 * r + 587 * g + 114 * b > 80000 &&
             77000 < 128000 - 169 * r - 331 * g + 500 * b < 127000 &&
             133000 < 128000 + 500 * r - 419 * g - 81 * b < 173000)
  {
    Luma(r, g, b) > 80.0 &&
    77.0 < BlueChroma(r, g, b) < 127.0 &&
    133.0 < RedChroma(r, g, b) < 173.0
  }

  /**
   * A pixel is skin-coloured when either rule accepts it.  Every skin pixel
   * has more red than blue, so no grey and no blue-dominated pixel is skin.
   */
  predicate IsSkinTone(r: byte, g: byte, b: byte)
    ensures IsSkinTone(r, g, b) ==> r > b
  {
    RgbRule(r, g, b) || YCbCrRule(r, g, b)
  }

  /** A typical skin tone passes through the RGB rule; pure blue fails both rules. */
  lemma SkinToneExamples()
    ensures RgbRule(200, 150, 120) && IsSkinTone(200, 150, 120)
    ensures !RgbRule(0, 0, 255) && !YCbCrRule(0, 0, 255) && !IsSkinTone(0, 0, 255)
  {
  }
}
