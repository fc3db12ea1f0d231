/** Page-count estimate and safety ceiling of one conversion run.
    The application never reads the page count of the PDF; it guesses it from
    the upload's size (two pages per mebibyte, at least one) and then never
    processes more than 50 pages. */
module PageEstimate {

  /** Bytes in one mebibyte, the unit the upload size is measured in. */
  const BytesPerMiB: nat := 1024 * 1024

  /** The estimate grants one page per half mebibyte. */
  const BytesPerEstimatedPage: nat := 524288

  /** The hard cap on pages per run. */
  const SafetyCeiling: nat := 50

  /** The upload size in mebibytes, as a real: `len(bytes) / (1024 * 1024)`. */
  function FileSizeMiB(byteLen: nat): real
  {
    byteLen as real / BytesPerMiB as real
  }

  /** `int(file_size * 2)` for a non-negative size is its floor; computed on
      integers this is a division by 524288. */
  lemma {:induction false} TwiceSizeFloor(byteLen: nat)
    ensures (2.0 * FileSizeMiB(byteLen)).Floor == byteLen / BytesPerEstimatedPage
  {
    var q := byteLen / BytesPerEstimatedPage;
    var r := byteLen % BytesPerEstimatedPage;
    assert byteLen == q * BytesPerEstimatedPage + r;
    var x := 2.0 * FileSizeMiB(byteLen);
    assert x == byteLen as real / 524288.0;
    assert x == q as real + r as real / 524288.0;
    assert 0.0 <= r as real / 524288.0 < 1.0;
  }

  /** `max(1, int(file_size * 2))`: the number of pages the run assumes. */
  function EstimatedPages(byteLen: nat): (n: nat)
    ensures n >= 1
    ensures byteLen < BytesPerEstimatedPage ==> n == 1
    ensures byteLen >= BytesPerEstimatedPage ==>
              n * BytesPerEstimatedPage <= byteLen < (n + 1) * BytesPerEstimatedPage
  {
    var twice := byteLen / BytesPerEstimatedPage;
    if twice < 1 then 1 else twice
  }

  /** `min(estimated_pages, 50)`: the last page number the loop may visit. */
  function MaxPagesToProcess(byteLen: nat): (n: nat)
    ensures 1 <= n <= SafetyCeiling
    ensures n <= EstimatedPages(byteLen)
    ensures n == EstimatedPages(byteLen) || n == SafetyCeiling
  {
    var est := EstimatedPages(byteLen);
    if est < SafetyCeiling then est else SafetyCeiling
  }

  /** The estimate agrees with the source's real-valued formula on every size. */
  lemma {:induction false} EstimateMatchesFormula(byteLen: nat)
    ensures EstimatedPages(byteLen) ==
              if (2.0 * FileSizeMiB(byteLen)).Floor < 1 then 1
              else (2.0 * FileSizeMiB(byteLen)).Floor
  {
    TwiceSizeFloor(byteLen);
  }

  /** A larger upload never yields a smaller estimate or a smaller loop bound. */
  lemma {:induction false} EstimateMonotone(a: nat, b: nat)
    requires a <= b
    ensures EstimatedPages(a) <= EstimatedPages(b)
    ensures MaxPagesToProcess(a) <= MaxPagesToProcess(b)
  {
  }

  /** The ceiling binds exactly from 25 MiB on: below it the run visits as many
      pages as estimated, from it on exactly 50. */
  lemma {:induction false} CeilingBindsIff(byteLen: nat)
    ensures MaxPagesToProcess(byteLen) == SafetyCeiling <==>
              byteLen >= SafetyCeiling * BytesPerEstimatedPage
    ensures byteLen < SafetyCeiling * BytesPerEstimatedPage ==>
              MaxPagesToProcess(byteLen) == EstimatedPages(byteLen)
  {
  }
}
