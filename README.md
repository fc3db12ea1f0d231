# pdf_to_web: the conversion core of the PDF-to-WebP converter

This project models the one part of the `app.py` Streamlit script that has
logic in it, and proves properties of that model. It covers:

- **The page estimate and safety ceiling.** The script never reads the page
  count of the PDF. It guesses two pages per mebibyte of upload, at least one
  (`max(1, int(file_size * 2))`). It then never visits a page above
  `min(estimate, 50)`. See `PageEstimate` in `estimate.dfy`.
- **Dimension normalisation.** A rendered page whose longer side exceeds 2000
  pixels is scaled down proportionally. See `ImageNormalizer` in
  `normalize.dfy`.
- **Artifact naming.** Per-page downloads and ZIP members are named
  `"page-" + str(page_num).zfill(3) + ".webp"`. See `ArtifactNaming` in
  `naming.dfy`.
- **The page-at-a-time conversion loop, as a reference definition on values.**
  The rasterizer (`convert_from_bytes` for a single page) is an oracle
  `render` that gives each page number one `Outcome`:
  - a raster of some size;
  - an empty page list;
  - an exception with its message.

  The WebP encoder is an oracle `encode` from the page number and the resized
  size to opaque bytes. `Pipeline(render, encode, k, n)` is the `Trace` the
  loop leaves from page `k` on, with `n` as its last page. A `Trace` holds the
  stored records, the pages tried, the errors shown, and whether the
  "maximum safe limit" warning appeared. See `PagePipeline` in `pipeline.dfy`.
- **The session.** Class `Session` in `session.dfy` holds the keys the script
  keeps across reruns: `converted_images`, `total_pages`,
  `processing_complete`, `temp_files` and `previous_file`. These methods
  update it:
  - `Upload` is a rerun with a file in the uploader; a new name resets the results.
  - `Convert` is the "Start Conversion" run. Its `for` loop is written as a
    `while` loop in `ConvertPages`, and the loop body is `ConvertPage`.
  - `ClearAll` is the "Clear All Pages" button.
  - `ZipEntries` lists the ZIP members.

  `Convert` is proved to leave exactly the state that `Pipeline` describes.
  It also keeps the session invariant `Valid`: the stored pages are strictly
  ascending, lie in `1..50`, and each has its spool file listed, and no PDF
  spool outlives a run.

Behaviours of the code worth knowing:

- The size estimate is the hard loop bound. A small file with many pages is
  truncated at its estimate, not read to its true end.
- The estimate uses `int(...)`, which is a floor, not rounding.
- The stored `size` is the size before resizing, not after.
- There are no batches. Every call renders one page.
- There is no exact page-count reader.
- No rasterizer failure aborts the run. Every exception inside the loop that
  does not mention `first_page`/`last_page` skips its page.
- `total_pages` is never set to anything but 0. `Valid` records this.
- The "maximum safe limit" warning appears whenever page `min(estimate, 50)`
  itself is stored. That includes a document that has exactly that many
  pages. It is not limited to runs that were actually truncated.
- The safety check `page_num >= max_pages_to_process` sits after the
  `continue` of the error branch. A failing last page therefore ends the run
  by exhausting the `for` loop, without the warning.

## Model

| member | source | states |
|---|---|---|
| PageEstimate.EstimatedPages | app.py:158 | the estimate is at least 1; it is 1 below 524288 bytes, and otherwise the floor of bytes / 524288 (two pages per MiB) |
| PageEstimate.TwiceSizeFloor | app.py:134 | `int(file_size * 2)` with `file_size = len / 2^20` as a real is exactly the integer quotient `len / 524288` |
| PageEstimate.EstimateMatchesFormula | app.py:158 | the integer estimate equals `max(1, floor(2 * len / 2^20))` computed on reals, for every length |
| PageEstimate.MaxPagesToProcess | app.py:168 | the loop bound lies in 1..50, never exceeds the estimate, and is the estimate or 50 |
| PageEstimate.EstimateMonotone | app.py:158-168 | a larger upload never gives a smaller estimate or a smaller loop bound |
| PageEstimate.CeilingBindsIff | app.py:168 | the bound is 50 exactly when the upload has at least 50 * 524288 bytes; below that it is the estimate |
| ImageNormalizer.ScaleSide | app.py:196-198 | the scaled side is the floor of `side * 2000 / longer` (bracketed between the two products) |
| ImageNormalizer.Normalize | app.py:195-199 | within the cap the size is unchanged; above it each side is the floor of its share of 2000 |
| ImageNormalizer.NormalizeCapsLongerSide | app.py:195-199 | above the cap both sides shrink or stay, the longer side becomes exactly 2000, and the longer side stays the longer one |
| ImageNormalizer.NormalizeWithinCap | app.py:193-199 | every normalised size has its longer side at most 2000 |
| ImageNormalizer.NormalizeIdempotent | app.py:195-199 | normalising a normalised size changes nothing |
| ImageNormalizer.NormalizeKeepsAspect | app.py:196-198 | the cross products `new_w * h` and `new_h * w` differ by less than the original longer side (aspect kept up to rounding) |
| ArtifactNaming.DecimalString | app.py:276 | `str(n)` is a non-empty digit string without a leading zero, one digit exactly for n < 10 |
| ArtifactNaming.DecimalRoundTrip | app.py:276 | the digits of `str(n)` denote n |
| ArtifactNaming.ZFill | app.py:276 | `zfill(width)` has length `max(len, width)` |
| ArtifactNaming.ZFillPads | app.py:276 | `zfill` only prepends `'0'` characters; the original string is the tail of the result |
| ArtifactNaming.PaddedPageNumber | app.py:276 | the padded page number has at least 3 digits, exactly 3 below 1000, and still denotes the page number |
| ArtifactNaming.PageFileNameRoundTrip | app.py:281 | every name is `page-`, at least three digits and `.webp`, and parsing it gives the page number back |
| ArtifactNaming.PageFileNameInjective | app.py:297-299 | distinct pages get distinct file names |
| PagePipeline.Pipeline | app.py:171-241 | the reference definition of the loop from page k to page n: one pass per page in order, joined with the rest of the run while the pass does not break; every `Convert*` contract is stated against it, and the `PagePipeline` lemmas state its properties |
| PagePipeline.StepTrace | app.py:174-241 | one pass of the loop body: the page is tried; a raster stores its record, any other failure shows its error, and a stored page at or past n raises the limit warning |
| PagePipeline.Continues | app.py:186-241 | the loop goes on after page k unless the page ended the document (empty result or end-of-document exception) or was stored at or past n |
| PagePipeline.Classify | app.py:186-232 | an empty result or an exception mentioning `first_page`/`last_page` ends the document, any other exception skips the page, a raster is kept |
| PagePipeline.SignalsEndOfDocument | app.py:226 | the message contains `"first_page"` or `"last_page"` |
| PagePipeline.Contains | app.py:226 | Python's substring test `sub in s`: `sub` occurs at some index of `s` |
| PagePipeline.Record | app.py:212-216 | the stored record holds the page number, the encoding of the normalised size and the size before resizing |
| ArtifactNaming.PageFileName | app.py:281 | `"page-" + str(page_num).zfill(3) + ".webp"`, the name of the download and of the ZIP member (app.py:297-299) |
| ConversionSession.Spools | app.py:202-205 | the spool list a run appends: one page spool per stored record, in list order (its contract gives the length; `SpoolsOfPages` and `SpoolsConcat` give contents and order) |
| ConversionSession.SpoolsOfPages | app.py:205 | every stored page has its own spool among the run's spools, and none of them is a PDF spool |
| ConversionSession.SpoolsConcat | app.py:205 | the spools of two consecutive parts of a run are the first part's followed by the second's |
| ConversionSession.Consistent | app.py:165-253 | the session invariant on values: stored pages ascending, within 1..50, each with its spool listed, and no PDF spool left |
| ConversionSession.Session.Valid | app.py:97-105 | the class invariant: `Consistent` on the stored pages and spool list, and `total_pages` is 0 (it is never set to anything else) |
| PagePipeline.AttemptedIsPrefixOfRange | app.py:171 | pages are tried in order k, k+1, … without gaps, never past n, and at least page k is tried when k <= n |
| PagePipeline.ImagesAreRecords | app.py:190-216 | each stored record was tried, lies in k..n, rendered at its recorded (pre-resize) size, and holds the encoding of its normalised size |
| PagePipeline.ImagesAscending | app.py:212-216 | stored page numbers are strictly ascending, hence unique |
| PagePipeline.ImagesAscendingInRange | app.py:171-216 | stored pages are ascending and within k..n |
| PagePipeline.StoredIffRendered | app.py:186-232 | a page is stored exactly when tried and rendered; an error is shown for it exactly when tried and failed without an end-of-document message |
| PagePipeline.EndOfDocumentStops | app.py:186-188 | after an empty result or an end-of-document exception on page j, no later page is tried and every stored page is below j |
| PagePipeline.AttemptCountToEnd | app.py:226-228 | when page j ends the document, at most the pages k..j are tried |
| PagePipeline.FailureSkipsOnlyItsPage | app.py:225-232 | any other exception on a tried page j is reported with its message, and the loop still tries j+1 when j < n |
| PagePipeline.FailedPageNotStored | app.py:225-232 | nothing is stored for a page whose conversion raised |
| PagePipeline.RunEndsByRule | app.py:171-241 | some page is tried exactly when k <= n, and the last page tried is n or a page that ends the document |
| PagePipeline.LimitWarningIffLastPageStored | app.py:238-241 | the "maximum safe limit" warning is shown exactly when page n itself was stored |
| PagePipeline.StoredPagesUpToEnd | app.py:171-232 | up to the first page e that ends the document (or n), the stored pages are exactly the rendered ones, and the pages tried are exactly k..e |
| PagePipeline.NoFailuresStoresEveryPage | app.py:167-241 | with no failure on k..n, the stored pages are exactly k..n, no error is shown, and the limit warning is raised |
| ConversionSession.Session.constructor | app.py:98-105 | the first run initialises empty results, `total_pages` 0, not complete, no spool files, no previous file |
| ConversionSession.Session.Reset | app.py:116-126 | results, completion flag, `total_pages` and spool list are cleared; the remembered file name is kept |
| ConversionSession.Session.Upload | app.py:114-131 | a known previous name that differs resets the session and otherwise nothing changes; the new name is remembered and the invariant kept |
| ConversionSession.Session.ClearAll | app.py:322-334 | with stored pages the session is reset, without them (no button) nothing changes; the invariant is kept |
| ConversionSession.Session.Convert | app.py:151-253 | the run leaves exactly `Pipeline(1, min(estimate, 50))`'s records, tried pages, errors and warning; the success counter equals the number of records; `processing_complete` is set whichever way the loop ended; one spool per stored page is added while the PDF spool is gone again; the invariant is kept |
| ConversionSession.Session.ConvertPages | app.py:165-241 | starting from an emptied list, the loop produces `Pipeline(1, maxPages)` exactly with the success count and one spool per stored page |
| ConversionSession.Session.ConvertPage | app.py:174-232 | one loop pass appends exactly the step's record, spool and error, and stops exactly when the loop breaks |
| ConversionSession.AdvanceLoop | app.py:171-241 | after one pass the rest of the reference run is the run from page k+1, or, when the loop breaks, the reference run is what was produced |
| ConversionSession.RunIsConsistent | app.py:165-216 | a run's records are ascending, within 1..50, each with its spool file listed, and no PDF spool among the page spools |
| ConversionSession.FinishKeepsConsistent | app.py:247-253 | removing the run's PDF spool leaves the earlier spools followed by one per stored page, in a consistent session |
| ConversionSession.RunStaysWithinCeiling | app.py:168-171 | no run tries a page above 50 or above the estimate |
| ConversionSession.ArchiveEntries | app.py:296-301 | one ZIP member per stored page, in list order, named like the page download and holding its bytes |
| ConversionSession.Session.ZipEntries | app.py:294-301 | the listed members are exactly `ArchiveEntries` of the stored pages; the session is not modified |
| ConversionSession.ArchiveNamesDistinct | app.py:296-301 | for ascending pages the ZIP member names are pairwise distinct |
| ConversionSession.ArchiveNamesReadBack | app.py:297-299 | each member name parses back to the page number of the record it holds |

## Left out

- The Streamlit UI is not modelled because it is presentation only: page configuration, CSS, status text, the progress bar and its float fraction, `st.image`, download buttons, `st.rerun`, and the large-file warning and MB formatting.
- The ad HTML snippets are not modelled because they contain no logic.
- `convert_from_bytes` (pdf2image/pdftocairo) is a foreign library, so it appears only as the per-page oracle `render`. The DPI slider and the uploaded bytes are its hidden arguments.
- PIL resampling and WebP encoding are foreign pixel work, so they appear only as the oracle `encode` giving opaque bytes. The quality slider is its hidden argument.
- Exceptions raised by the resize, the encoder or the file reads inside the loop's `try` are not modelled separately. Only the rasterizer's outcome can fail a page.
- A page whose aspect ratio is above 2000:1 is not modelled faithfully. Its shorter side scales to 0. The model stores a record with a 0 side, while in the source `page.resize` raises, so the page gets an error shown for it and is skipped.
- Temporary files, `os.remove`, `os.path.exists`, file reads and `gc.collect` are I/O and memory handling. `temp_files` is kept as an abstract list of `TempFile` values that the session appends to, removes the PDF spool from, and clears on reset. Deleting files from disk is not modelled, and the PDF spool is assumed to exist when it is removed.
- The `zipfile` binary format is not modelled. Only the ordered list of (name, bytes) members is.
- The outer `try` that reports a "Critical Error" is not modelled: the modelled operations do not raise.
- ImageNormalizer.Normalize: uses exact integer floor division, while the source computes `int(w * (2000 / max(w, h)))` in floating point, which may be one pixel lower than the exact value.
- ArtifactNaming.ZFill: models `zfill` for strings without a sign only; page numbers are never negative.
- Concurrency and Streamlit's rerun model are not modelled. Each method is one rerun's effect on the session.
