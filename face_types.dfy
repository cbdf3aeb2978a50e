/** The records the detector passes between its stages. */
module FaceTypes {

  /**
   * A square scan window: top-left corner (x, y), side length, and the
   * fraction of its sampled pixels that are skin-coloured.
   */
  datatype Region = Region(x: int, y: int, size: int, score: real)

  /** A reported face: an axis-aligned box and the mean score of its regions. */
  datatype FaceBox = FaceBox(x: int, y: int, width: int, height: int, confidence: real)

  function Min(a: int, b: int): int { if a <= b then a else b }

  function Max(a: int, b: int): int { if a >= b then a else b }

  /** Regrouping a concatenation of three sequences. */
  lemma ConcatAssoc<T>(a: seq<T>, b: seq<T>, c: seq<T>)
    ensures a + (b + c) == (a + b) + c
  {
  }
}
