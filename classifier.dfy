/**
 * The PDF density heuristic `is_machine_readable`: the opened document is given as
 * its page texts, `None` standing for a failure to open or read it.
 */
module Classifier {
  import opened Wrappers
  import opened Strings

  const DEFAULT_MIN_TEXT_RATIO: real := 0.01
  const CHARS_PER_PAGE: nat := 1000

  /** Strictly more text than `minTextRatio * pages * 1000` characters, stated without division. */
  predicate DenseEnough(textLength: nat, pageCount: nat, minTextRatio: real) {
    textLength as real > minTextRatio * (pageCount * CHARS_PER_PAGE) as real
  }

  lemma RatioAbove(length: real, size: real, minRatio: real)
    requires size > 0.0
    ensures length / size > minRatio <==> length > minRatio * size
  {
    var q := length / size;
    assert q * size == length;
    if q > minRatio {
      assert (q - minRatio) * size > 0.0;
    } else {
      assert (minRatio - q) * size >= 0.0;
    }
  }

  /**
   * `is_machine_readable(pdf, min_text_ratio)`: the page texts are accumulated with no
   * separator; zero pages divides by zero and, like any reading failure, gives false.
   */
  method IsMachineReadable(pages: Option<seq<string>>, minTextRatio: real) returns (ok: bool)
    ensures ok <==> pages.Some? && |pages.value| > 0 && DenseEnough(TotalLength(pages.value), |pages.value|, minTextRatio)
  {
    if pages.None? {
      return false;
    }
    var doc := pages.value;
    var totalText := "";
    var totalPages := |doc|;
    for i := 0 to |doc|
      invariant totalText == Concat(doc[..i])
    {
      assert doc[..i + 1][..i] == doc[..i];
      totalText := totalText + doc[i];
    }
    assert doc[..|doc|] == doc;
    ConcatLength(doc);
    if totalPages == 0 {
      // the division by zero pages raises, and the handler answers false
      return false;
    }
    var size := (totalPages * CHARS_PER_PAGE) as real;
    RatioAbove(|totalText| as real, size, minTextRatio);
    ok := |totalText| as real / size > minTextRatio;
  }

  /** At the default ratio 0.01 the test is: more than ten characters per page. */
  lemma DefaultDensity(textLength: nat, pageCount: nat)
    ensures DenseEnough(textLength, pageCount, DEFAULT_MIN_TEXT_RATIO) <==> textLength > 10 * pageCount
  {
  }
}
