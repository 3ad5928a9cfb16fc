/**
 * `calculateReadingTime`: the estimate for the trimmed content and an image
 * count, under the application's configuration. Times are exact rationals.
 */
module Estimator {
  import opened Wrappers
  import opened Text
  import opened Words
  import opened Fences

  // The application's configuration.
  const RegularWpm: nat := 200
  const CodeWpm: nat := 100
  const SecondsPerImage: int := 12

  /** The message shown when there is nothing to estimate. */
  const EmptyContentMessage: string := "Please paste some content to estimate reading time."

  /** The figures the results panel shows. */
  datatype Breakdown = Breakdown(
    totalMinutes: int,
    totalWordCount: nat,
    regularWordCount: nat,
    codeBlockCount: nat,
    codeWordCount: nat,
    imageCount: int)

  /**
   * `parseInt(imageCountInput.value) || 0`, given what `parseInt` made of the
   * field: `None` for NaN. Negative counts are kept.
   */
  function ImageCount(parsed: Option<int>): (n: int)
    ensures n == 0 <==> parsed.None? || parsed.value == 0
    ensures n != 0 ==> parsed == Some(n)
  {
    match parsed
    case None => 0
    case Some(n) => n
  }

  /** `Math.ceil` on an exact value: the least integer not below `x`. */
  function Ceil(x: real): (k: int)
    ensures x <= k as real < x + 1.0
  {
    -((-x).Floor)
  }

  /** Reading time in seconds: regular words, code words and images, each at its own rate. */
  function TotalSeconds(regularWords: nat, codeWords: nat, images: int): (secs: real)
    ensures secs == (3 * regularWords + 6 * codeWords + 120 * images) as real / 10.0
  {
    (regularWords as real / RegularWpm as real) * 60.0
      + (codeWords as real / CodeWpm as real) * 60.0
      + (images * SecondsPerImage) as real
  }

  /** The reading time rounded up to whole minutes. */
  function TotalMinutes(regularWords: nat, codeWords: nat, images: int): (m: int)
    ensures (m - 1) as real * 60.0 < TotalSeconds(regularWords, codeWords, images) <= m as real * 60.0
  {
    Ceil(TotalSeconds(regularWords, codeWords, images) / 60.0)
  }

  /**
   * The whole estimate for the raw field text: an error when it is empty after
   * trimming, otherwise the figures for the trimmed content.
   */
  function Estimate(text: string, parsedImages: Option<int>): (res: Result<Breakdown, string>)
    ensures res.Failure? <==> AllSpaces(text)
    ensures res.Failure? ==> res.error == EmptyContentMessage
    ensures res.Success? ==>
      res.value.totalWordCount == res.value.regularWordCount + res.value.codeWordCount
  {
    var content := Trim(text);
    if content == [] then Failure(EmptyContentMessage)
    else
      var parts := Extract(content);
      var regular := CountWords(parts.regularText);
      var code := CountWords(parts.codeText);
      var images := ImageCount(parsedImages);
      Success(Breakdown(TotalMinutes(regular, code, images), regular + code, regular,
                        parts.codeBlockCount, code, images))
  }

  // ---------------------------------------------------------------------
  // Properties of the estimate

  /** Division rounded up, for a positive divisor. */
  function CeilDiv(n: int, d: nat): (k: int)
    requires d > 0
    ensures (k - 1) * d < n <= k * d
  {
    -((-n) / d)
  }

  /** Two integers that both round `x` up are equal. */
  lemma CeilUnique(x: real, k: int, j: int)
    requires x <= k as real < x + 1.0
    requires x <= j as real < x + 1.0
    ensures k == j
  {
  }

  /**
   * Under the configuration above the estimate is ceil((3r + 6c + 120i) / 600)
   * minutes for r regular words, c code words and i images.
   */
  lemma MinutesFormula(regularWords: nat, codeWords: nat, images: int)
    ensures TotalMinutes(regularWords, codeWords, images) ==
      CeilDiv(3 * regularWords + 6 * codeWords + 120 * images, 600)
  {
    var n := 3 * regularWords + 6 * codeWords + 120 * images;
    var secs := TotalSeconds(regularWords, codeWords, images);
    assert secs == n as real / 10.0;
    var k := CeilDiv(n, 600);
    assert (k - 1) as real * 600.0 < n as real <= k as real * 600.0;
    CeilUnique(secs / 60.0, TotalMinutes(regularWords, codeWords, images), k);
  }

  /** Nothing to read and no images take no time; anything to read, and no negative images, take at least a minute. */
  lemma MinutesZeroIff(regularWords: nat, codeWords: nat, images: nat)
    ensures TotalMinutes(regularWords, codeWords, images) == 0 <==>
      regularWords == 0 && codeWords == 0 && images == 0
  {
    MinutesFormula(regularWords, codeWords, images);
  }

  /** More words or more images never shorten the estimate. */
  lemma MinutesMonotone(r: nat, c: nat, i: int, r': nat, c': nat, i': int)
    requires r <= r' && c <= c' && i <= i'
    ensures TotalMinutes(r, c, i) <= TotalMinutes(r', c', i')
  {
    MinutesFormula(r, c, i);
    MinutesFormula(r', c', i');
    var n := 3 * r + 6 * c + 120 * i;
    var n' := 3 * r' + 6 * c' + 120 * i';
    CeilDivMonotone(n, n', 600);
  }

  lemma CeilDivMonotone(n: int, n': int, d: nat)
    requires d > 0 && n <= n'
    ensures CeilDiv(n, d) <= CeilDiv(n', d)
  {
    var k, k' := CeilDiv(n, d), CeilDiv(n', d);
    if k > k' {
      assert (k - 1) * d >= k' * d by {
        assert k - 1 >= k';
        MultiplyMonotone(k', k - 1, d);
      }
    }
  }

  lemma MultiplyMonotone(a: int, b: int, d: nat)
    requires a <= b
    ensures a * d <= b * d
  {
  }

  /**
   * The figures of a successful estimate in terms of the trimmed content: the
   * regular words are the words of the prose left when every region becomes a
   * space, the code words are the words of the blocks summed block by block,
   * and the block count is the number of regions.
   */
  lemma EstimateFigures(text: string, parsedImages: Option<int>)
    requires !AllSpaces(text)
    ensures var content := Trim(text);
      var b := Estimate(text, parsedImages).value;
      b.regularWordCount == Runs(Replaced(content, 0)) &&
      b.codeWordCount == SumOfWords(Codes(content, Regions(content, 0))) &&
      b.codeBlockCount == |Regions(content, 0)| &&
      b.imageCount == ImageCount(parsedImages) &&
      b.totalMinutes == CeilDiv(3 * b.regularWordCount + 6 * b.codeWordCount + 120 * b.imageCount, 600)
  {
    var content := Trim(text);
    var parts := Extract(content);
    CountWordsIsRuns(parts.regularText);
    CountWordsOfJoin(Codes(content, Regions(content, 0)));
    MinutesFormula(CountWords(parts.regularText), CountWords(parts.codeText), ImageCount(parsedImages));
  }

  // ---------------------------------------------------------------------
  // The click handler

  /**
   * `calculateReadingTime()`: trim, validate, extract, count and estimate, in
   * the handler's own order. It differs from `Estimate` only in calling the
   * loop `ExtractCodeBlocks` rather than the function `Extract`, and exists to
   * connect that imperative extraction to the specified estimate.
   */
  method CalculateReadingTime(text: string, parsedImages: Option<int>) returns (res: Result<Breakdown, string>)
    ensures res == Estimate(text, parsedImages)
  {
    var content := Trim(text);
    var imageCount := ImageCount(parsedImages);
    if content == [] {
      return Failure(EmptyContentMessage);
    }
    var parts := ExtractCodeBlocks(content);
    var regularWordCount := CountWords(parts.regularText);
    var codeWordCount := CountWords(parts.codeText);
    var totalWordCount := regularWordCount + codeWordCount;
    var totalMinutes := TotalMinutes(regularWordCount, codeWordCount, imageCount);
    res := Success(Breakdown(totalMinutes, totalWordCount, regularWordCount,
                             parts.codeBlockCount, codeWordCount, imageCount));
    assert Estimate(text, parsedImages).Success?;
    assert Estimate(text, parsedImages).value.totalMinutes == totalMinutes;
    assert Estimate(text, parsedImages).value == res.value;
  }
}
