/** The conversion session: the state the application keeps across reruns of
    its script (`converted_images`, `total_pages`, `processing_complete`,
    `temp_files`, `previous_file`), the conversion run that fills it, the reset
    on a new upload or on "Clear All", and the ZIP entry listing. */
module ConversionSession {
  import opened Wrappers
  import opened ImageNormalizer
  import opened PagePipeline
  import opened PageEstimate
  import opened ArtifactNaming

  /** A file spooled to disk, identified by what it holds: the uploaded PDF
      or the WebP of one page. */
  datatype TempFile = PdfSpool | PageSpool(pageNum: nat)

  /** One member of the ZIP archive. */
  datatype ZipEntry = ZipEntry(name: string, data: Bytes)

  /** The spool files a list of stored pages leaves behind, in order. */
  function Spools(images: seq<ConvertedImage>): (r: seq<TempFile>)
    ensures |r| == |images|
  {
    if images == [] then [] else [PageSpool(images[0].pageNum)] + Spools(images[1..])
  }

  /** The archive entries for a list of stored pages: one per page, in list
      order, named like the page's own download. */
  function ArchiveEntries(images: seq<ConvertedImage>): (entries: seq<ZipEntry>)
    ensures |entries| == |images|
    ensures forall i :: 0 <= i < |images| ==>
              entries[i] == ZipEntry(PageFileName(images[i].pageNum), images[i].imageData)
  {
    if images == [] then [] else
      [ZipEntry(PageFileName(images[0].pageNum), images[0].imageData)] + ArchiveEntries(images[1..])
  }

  /** What a session keeps true between reruns: stored pages are ascending,
      within the safety ceiling and each backed by a listed spool file, and
      no spooled PDF outlives a run. */
  ghost predicate Consistent(images: seq<ConvertedImage>, files: seq<TempFile>)
  {
    Ascending(images) &&
    (forall img :: img in images ==> 1 <= img.pageNum <= SafetyCeiling) &&
    (forall img :: img in images ==> PageSpool(img.pageNum) in files) &&
    PdfSpool !in files
  }

  class Session {
    var convertedImages: seq<ConvertedImage>
    /** Never assigned anything but 0 by the application. */
    var totalPages: nat
    var processingComplete: bool
    var tempFiles: seq<TempFile>
    var previousFile: Option<string>

    ghost predicate Valid()
      reads this
    {
      Consistent(convertedImages, tempFiles) && totalPages == 0
    }

    /** The first run of the script initialises the missing session keys. */
    constructor ()
      ensures Valid()
      ensures convertedImages == [] && totalPages == 0 && !processingComplete
      ensures tempFiles == [] && previousFile == None
    {
      convertedImages := [];
      totalPages := 0;
      processingComplete := false;
      tempFiles := [];
      previousFile := None;
    }

    /** Empties the result list and forgets the spool files (deleting them
        from disk is not modelled). */
    method Reset()
      modifies this
      ensures convertedImages == [] && !processingComplete && totalPages == 0 && tempFiles == []
      ensures previousFile == old(previousFile)
    {
      convertedImages := [];
      processingComplete := false;
      totalPages := 0;
      tempFiles := [];
    }

    /** A rerun with a file in the uploader: a name different from the one
        remembered resets the session, and the name is remembered. */
    method Upload(name: string)
      requires Valid()
      modifies this
      ensures Valid()
      ensures previousFile == Some(name)
      ensures old(previousFile).Some? && old(previousFile).value != name ==>
                convertedImages == [] && !processingComplete && totalPages == 0 && tempFiles == []
      ensures !(old(previousFile).Some? && old(previousFile).value != name) ==>
                convertedImages == old(convertedImages) && processingComplete == old(processingComplete) &&
                totalPages == old(totalPages) && tempFiles == old(tempFiles)
    {
      if previousFile.Some? && previousFile.value != name {
        Reset();
      }
      previousFile := Some(name);
    }

    /** "Clear All Pages", a button shown only while there are stored pages. */
    method ClearAll()
      requires Valid()
      modifies this
      ensures Valid()
      ensures previousFile == old(previousFile)
      ensures old(convertedImages) != [] ==>
                convertedImages == [] && !processingComplete && totalPages == 0 && tempFiles == []
      ensures old(convertedImages) == [] ==>
                convertedImages == [] && processingComplete == old(processingComplete) &&
                totalPages == old(totalPages) && tempFiles == old(tempFiles)
    {
      if convertedImages != [] {
        Reset();
      }
    }

    /** "Start Conversion" on an upload of `byteLen` bytes. Returns the count
        of converted pages, the pages tried, the per-page errors shown and
        whether the "maximum safe limit" warning was shown. */
    method Convert(byteLen: nat, render: nat -> Outcome, encode: (nat, Dims) -> Bytes)
      returns (successes: nat, attempted: seq<nat>, failed: seq<PageError>, limitWarning: bool)
      requires Valid()
      modifies this`convertedImages, this`tempFiles, this`processingComplete
      ensures Valid()
      ensures var t := Pipeline(render, encode, 1, MaxPagesToProcess(byteLen));
                convertedImages == t.images && attempted == t.attempted &&
                failed == t.failed && limitWarning == t.limitReached
      ensures successes == |convertedImages|
      ensures processingComplete
      ensures tempFiles == old(tempFiles) + Spools(convertedImages)
      ensures totalPages == old(totalPages) && previousFile == old(previousFile)
    {
      var pdfIndex := |tempFiles|;
      tempFiles := tempFiles + [PdfSpool];
      convertedImages := [];
      var maxPages := MaxPagesToProcess(byteLen);
      successes, attempted, failed, limitWarning := ConvertPages(maxPages, render, encode);
      processingComplete := true;
      FinishKeepsConsistent(byteLen, render, encode, old(tempFiles), convertedImages, tempFiles);
      tempFiles := tempFiles[..pdfIndex] + tempFiles[pdfIndex + 1..];
      assert Consistent(convertedImages, tempFiles);
    }

    /** The `for page_num in range(1, max_pages_to_process + 1)` loop: one
        page at a time, appending to the (emptied) result list and to the
        spool files, and counting the successes. */
    method ConvertPages(maxPages: nat, render: nat -> Outcome, encode: (nat, Dims) -> Bytes)
      returns (successes: nat, attempted: seq<nat>, failed: seq<PageError>, limitWarning: bool)
      requires convertedImages == []
      modifies this`convertedImages, this`tempFiles
      ensures var t := Pipeline(render, encode, 1, maxPages);
                convertedImages == t.images && attempted == t.attempted &&
                failed == t.failed && limitWarning == t.limitReached
      ensures successes == |convertedImages|
      ensures tempFiles == old(tempFiles) + Spools(convertedImages)
    {
      successes := 0;
      attempted, failed, limitWarning := [], [], false;
      ghost var full := Pipeline(render, encode, 1, maxPages);
      var pageNum := 1;
      while pageNum <= maxPages
        invariant 1 <= pageNum <= maxPages + 1
        invariant full == Join(Trace(convertedImages, attempted, failed, false),
                               Pipeline(render, encode, pageNum, maxPages))
        invariant successes == |convertedImages|
        invariant tempFiles == old(tempFiles) + Spools(convertedImages)
        invariant !limitWarning
        decreases maxPages + 1 - pageNum
      {
        ghost var before := Trace(convertedImages, attempted, failed, false);
        ghost var step := StepTrace(render, encode, pageNum, maxPages);
        var stored, pageErrors, stop, limit := ConvertPage(pageNum, maxPages, render, encode);
        attempted := attempted + [pageNum];
        failed := failed + pageErrors;
        if stored {
          successes := successes + 1;
        }
        SpoolsExtend(old(tempFiles), before.images, step.images);
        ghost var after := Trace(convertedImages, attempted, failed, limit);
        AdvanceLoop(render, encode, pageNum, maxPages, full, before, after);
        if stop {
          limitWarning := limit;
          break;
        }
        pageNum := pageNum + 1;
      }
      JoinEmpty(Trace(convertedImages, attempted, failed, limitWarning));
    }

    /** One pass of the loop body: render page `pageNum`; on success resize,
        encode, spool and append it; on a failure report it unless it says
        the document has ended. Returns the errors shown for this page,
        whether the loop stops here and whether the limit warning is shown. */
    method ConvertPage(pageNum: nat, maxPages: nat, render: nat -> Outcome, encode: (nat, Dims) -> Bytes)
      returns (stored: bool, pageErrors: seq<PageError>, stop: bool, limit: bool)
      modifies this`convertedImages, this`tempFiles
      ensures var step := StepTrace(render, encode, pageNum, maxPages);
                convertedImages == old(convertedImages) + step.images &&
                tempFiles == old(tempFiles) + Spools(step.images) &&
                pageErrors == step.failed && limit == step.limitReached
      ensures stored == render(pageNum).Rendered?
      ensures stop == !Continues(render, pageNum, maxPages)
    {
      stored, pageErrors, stop, limit := false, [], false, false;
      match render(pageNum) {
        case NoPages =>
          stop := true;
        case Failed(msg) =>
          if SignalsEndOfDocument(msg) {
            stop := true;
          } else {
            pageErrors := [PageError(pageNum, msg)];
          }
        case Rendered(size) =>
          var resized := Normalize(size);
          var data := encode(pageNum, resized);
          tempFiles := tempFiles + [PageSpool(pageNum)];
          convertedImages := convertedImages + [ConvertedImage(pageNum, data, size)];
          stored := true;
          if pageNum >= maxPages {
            stop, limit := true, true;
          }
      }
    }

    /** "Download All Pages as ZIP": lists the archive members in list order;
        the session is left as it was. */
    method ZipEntries() returns (entries: seq<ZipEntry>)
      ensures entries == ArchiveEntries(convertedImages)
    {
      var images := convertedImages;
      entries := [];
      var i := 0;
      while i < |images|
        invariant 0 <= i <= |images|
        invariant entries == ArchiveEntries(images[..i])
      {
        var img := images[i];
        ArchiveEntriesPrefix(images, i);
        entries := entries + [ZipEntry(PageFileName(img.pageNum), img.imageData)];
        i := i + 1;
      }
      assert images[..i] == images;
    }
  }

  /** One iteration of the conversion loop against the reference run `full`:
      when the loop goes on, the rest of `full` is the run from page `k + 1`;
      when it stops, `full` is what the loop has produced so far. */
  lemma {:induction false} AdvanceLoop(render: nat -> Outcome, encode: (nat, Dims) -> Bytes, k: nat, n: nat,
                                       full: Trace, before: Trace, after: Trace)
    requires k <= n && !before.limitReached
    requires full == Join(before, Pipeline(render, encode, k, n))
    requires after == Join(before, StepTrace(render, encode, k, n))
    ensures Continues(render, k, n) ==>
              !after.limitReached &&
              full == Join(Trace(after.images, after.attempted, after.failed, false), Pipeline(render, encode, k + 1, n))
    ensures !Continues(render, k, n) ==> full == after
  {
    var step := StepTrace(render, encode, k, n);
    if Continues(render, k, n) {
      JoinAssoc(before, step, Pipeline(render, encode, k + 1, n));
    } else {
      JoinEmpty(after);
    }
  }

  lemma {:induction false} JoinEmpty(a: Trace)
    ensures Join(a, Trace([], [], [], false)) == a
  {
    assert a.images + [] == a.images;
    assert a.attempted + [] == a.attempted;
    assert a.failed + [] == a.failed;
  }

  /** Removing the PDF spool appended at the start leaves the earlier spool
      files followed by one per stored page, and the session consistent. */
  lemma {:induction false} FinishKeepsConsistent(byteLen: nat, render: nat -> Outcome, encode: (nat, Dims) -> Bytes,
                                                 earlier: seq<TempFile>, images: seq<ConvertedImage>,
                                                 files: seq<TempFile>)
    requires PdfSpool !in earlier
    requires images == Pipeline(render, encode, 1, MaxPagesToProcess(byteLen)).images
    requires files == earlier + [PdfSpool] + Spools(images)
    ensures files[..|earlier|] + files[|earlier| + 1..] == earlier + Spools(images)
    ensures Consistent(images, files[..|earlier|] + files[|earlier| + 1..])
  {
    assert files[..|earlier|] == earlier;
    assert files[|earlier| + 1..] == Spools(images);
    RunIsConsistent(byteLen, render, encode, earlier);
  }

  /** A conversion run started from a consistent session leaves one: the
      pages it stores are ascending, within the safety ceiling, and each has
      its spool file listed after the earlier ones. */
  lemma {:induction false} RunIsConsistent(byteLen: nat, render: nat -> Outcome, encode: (nat, Dims) -> Bytes,
                                           earlier: seq<TempFile>)
    requires PdfSpool !in earlier
    ensures var images := Pipeline(render, encode, 1, MaxPagesToProcess(byteLen)).images;
      Consistent(images, earlier + Spools(images))
  {
    var n := MaxPagesToProcess(byteLen);
    var images := Pipeline(render, encode, 1, n).images;
    ImagesAscendingInRange(render, encode, 1, n);
    SpoolsOfPages(images);
  }

  /** No run tries a page above the estimate or above the safety ceiling. */
  lemma {:induction false} RunStaysWithinCeiling(byteLen: nat, render: nat -> Outcome, encode: (nat, Dims) -> Bytes)
    ensures forall p :: p in Pipeline(render, encode, 1, MaxPagesToProcess(byteLen)).attempted ==>
              1 <= p <= SafetyCeiling && p <= EstimatedPages(byteLen)
  {
    var n := MaxPagesToProcess(byteLen);
    var t := Pipeline(render, encode, 1, n);
    AttemptedIsPrefixOfRange(render, encode, 1, n);
    forall p | p in t.attempted ensures 1 <= p <= SafetyCeiling && p <= EstimatedPages(byteLen) {
      var i :| 0 <= i < |t.attempted| && t.attempted[i] == p;
    }
  }

  /** Ascending pages give pairwise distinct archive member names, so no
      member of the ZIP shadows another. */
  lemma {:induction false} ArchiveNamesDistinct(images: seq<ConvertedImage>)
    requires Ascending(images)
    ensures forall i, j :: 0 <= i < j < |images| ==> ArchiveEntries(images)[i].name != ArchiveEntries(images)[j].name
  {
    var entries := ArchiveEntries(images);
    forall i, j | 0 <= i < j < |images| ensures entries[i].name != entries[j].name {
      PageFileNameInjective(images[i].pageNum, images[j].pageNum);
    }
  }

  /** Each archive member's name reads back as the page number it holds. */
  lemma {:induction false} ArchiveNamesReadBack(images: seq<ConvertedImage>)
    ensures forall i :: 0 <= i < |images| ==>
              ParsePageFileName(ArchiveEntries(images)[i].name) == Some(images[i].pageNum)
  {
    var entries := ArchiveEntries(images);
    forall i | 0 <= i < |images| ensures ParsePageFileName(entries[i].name) == Some(images[i].pageNum) {
      PageFileNameRoundTrip(images[i].pageNum);
    }
  }

  /** Every stored page has its own spool file among `Spools(images)`, and
      none of them is a PDF spool. */
  lemma {:induction false} SpoolsOfPages(images: seq<ConvertedImage>)
    ensures forall img :: img in images ==> PageSpool(img.pageNum) in Spools(images)
    ensures PdfSpool !in Spools(images)
  {
    if images != [] {
      SpoolsOfPages(images[1..]);
      assert Spools(images) == [PageSpool(images[0].pageNum)] + Spools(images[1..]);
      forall img | img in images ensures PageSpool(img.pageNum) in Spools(images) {
        if img != images[0] {
          assert img in images[1..];
        }
      }
    }
  }

  lemma {:induction false} JoinAssoc(a: Trace, b: Trace, c: Trace)
    ensures Join(a, Join(b, c)) == Join(Join(a, b), c)
  {
    assert a.images + (b.images + c.images) == (a.images + b.images) + c.images;
    assert a.attempted + (b.attempted + c.attempted) == (a.attempted + b.attempted) + c.attempted;
    assert a.failed + (b.failed + c.failed) == (a.failed + b.failed) + c.failed;
  }

  lemma {:induction false} SpoolsConcat(a: seq<ConvertedImage>, b: seq<ConvertedImage>)
    ensures Spools(a + b) == Spools(a) + Spools(b)
  {
    if a != [] {
      assert (a + b)[1..] == a[1..] + b;
      SpoolsConcat(a[1..], b);
    } else {
      assert a + b == b;
    }
  }

  /** Spooling a run so far and then one more step's pages. */
  lemma {:induction false} SpoolsExtend(base: seq<TempFile>, a: seq<ConvertedImage>, b: seq<ConvertedImage>)
    ensures (base + Spools(a)) + Spools(b) == base + Spools(a + b)
  {
    SpoolsConcat(a, b);
    assert (base + Spools(a)) + Spools(b) == base + (Spools(a) + Spools(b));
  }

  /** One more stored page adds its entry at the end of the archive listing. */
  lemma {:induction false} ArchiveEntriesPrefix(images: seq<ConvertedImage>, i: nat)
    requires i < |images|
    ensures ArchiveEntries(images[..i + 1]) ==
              ArchiveEntries(images[..i]) + [ZipEntry(PageFileName(images[i].pageNum), images[i].imageData)]
  {
    assert images[..i + 1] == images[..i] + [images[i]];
    ArchiveEntriesAppend(images[..i], images[i]);
  }

  lemma {:induction false} ArchiveEntriesAppend(images: seq<ConvertedImage>, img: ConvertedImage)
    ensures ArchiveEntries(images + [img]) ==
              ArchiveEntries(images) + [ZipEntry(PageFileName(img.pageNum), img.imageData)]
  {
  }
}
