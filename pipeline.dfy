/** The page-at-a-time conversion loop, as a reference definition on values.
    The rasterizer is an oracle `render` that gives one outcome per page number,
    and the WebP encoder an oracle `encode` from a page number and the size it
    was resized to to opaque bytes. `Pipeline(render, encode, k, n)` is what the
    loop does from page `k` on when `n` is its last page; the session's `Convert`
    method runs the same loop step by step and is proved equal to it. */
module PagePipeline {
  import opened ImageNormalizer

  type Bytes = seq<bv8>

  /** What converting one page yields: a raster of the given size, an empty
      page list, or an exception with its message. */
  datatype Outcome = Rendered(size: Dims) | NoPages | Failed(message: string)

  /** One entry of `converted_images`; `size` is the raster's size before
      normalisation. */
  datatype ConvertedImage = ConvertedImage(pageNum: nat, imageData: Bytes, size: Dims)

  /** An error shown for one page, which the loop then skips. */
  datatype PageError = PageError(pageNum: nat, message: string)

  /** What one outcome makes the loop do. */
  datatype Step = EndOfDocument | SkipPage(message: string) | KeepPage(size: Dims)

  /** What a run leaves behind: the stored images, the pages it tried (one
      status line each), the errors it showed, and whether it emitted the
      "maximum safe limit" warning. */
  datatype Trace = Trace(images: seq<ConvertedImage>, attempted: seq<nat>,
                         failed: seq<PageError>, limitReached: bool)

  /** `sub` occurs in `s` starting at index `i`. */
  predicate OccursAt(s: string, sub: string, i: nat)
  {
    i + |sub| <= |s| && s[i..i + |sub|] == sub
  }

  /** Python's `sub in s` on strings. */
  predicate Contains(s: string, sub: string)
  {
    exists i: nat | i <= |s| :: OccursAt(s, sub, i)
  }

  /** The message test that turns an exception into a normal end of the PDF. */
  predicate SignalsEndOfDocument(message: string)
  {
    Contains(message, "first_page") || Contains(message, "last_page")
  }

  function Classify(o: Outcome): Step
  {
    match o
    case NoPages => EndOfDocument
    case Failed(msg) => if SignalsEndOfDocument(msg) then EndOfDocument else SkipPage(msg)
    case Rendered(size) => KeepPage(size)
  }

  predicate EndsDocument(o: Outcome)
  {
    Classify(o).EndOfDocument?
  }

  /** The record stored for a page that rendered at `size`. */
  function Record(encode: (nat, Dims) -> Bytes, pageNum: nat, size: Dims): ConvertedImage
  {
    ConvertedImage(pageNum, encode(pageNum, Normalize(size)), size)
  }

  /** What the loop body does for page `k` when `n` is the last page: it
      shows page `k` as tried, then stores it, reports its error, or stops;
      a page stored at `n` or later raises the limit warning. */
  function StepTrace(render: nat -> Outcome, encode: (nat, Dims) -> Bytes, k: nat, n: nat): Trace
  {
    var o := render(k);
    Trace(if o.Rendered? then [Record(encode, k, o.size)] else [],
          [k],
          if Classify(o).SkipPage? then [PageError(k, o.message)] else [],
          o.Rendered? && k >= n)
  }

  /** Whether the loop goes on after page `k`: it breaks at the end of the
      document and, after a stored page, once `k >= n`. */
  predicate Continues(render: nat -> Outcome, k: nat, n: nat)
  {
    !EndsDocument(render(k)) && !(render(k).Rendered? && k >= n)
  }

  /** Concatenates two parts of a run. */
  function Join(a: Trace, b: Trace): Trace
  {
    Trace(a.images + b.images, a.attempted + b.attempted, a.failed + b.failed,
          a.limitReached || b.limitReached)
  }

  /** The loop from page `k` to page `n`. */
  function Pipeline(render: nat -> Outcome, encode: (nat, Dims) -> Bytes, k: nat, n: nat): Trace
    decreases n + 1 - k
  {
    if k > n then Trace([], [], [], false)
    else if Continues(render, k, n) then
      Join(StepTrace(render, encode, k, n), Pipeline(render, encode, k + 1, n))
    else StepTrace(render, encode, k, n)
  }

  /** The page numbers of stored records, in order. */
  function PageNums(images: seq<ConvertedImage>): (ps: seq<nat>)
    ensures |ps| == |images| && forall i :: 0 <= i < |images| ==> ps[i] == images[i].pageNum
  {
    if images == [] then [] else [images[0].pageNum] + PageNums(images[1..])
  }

  /** The page numbers of the errors shown, in order. */
  function ErrorPages(errors: seq<PageError>): (ps: seq<nat>)
    ensures |ps| == |errors| && forall i :: 0 <= i < |errors| ==> ps[i] == errors[i].pageNum
  {
    seq(|errors|, i requires 0 <= i < |errors| => errors[i].pageNum)
  }

  /** `[lo, lo + 1, ..., hi - 1]`, like `range(lo, hi)`. */
  function Range(lo: nat, hi: nat): (r: seq<nat>)
    ensures |r| == if lo <= hi then hi - lo else 0
    ensures forall i :: 0 <= i < |r| ==> r[i] == lo + i
    decreases hi - lo
  {
    if lo >= hi then [] else [lo] + Range(lo + 1, hi)
  }

  /** The pages among `k..n` whose outcome is a raster, in order. */
  function RenderedPages(render: nat -> Outcome, k: nat, n: nat): seq<nat>
    decreases n + 1 - k
  {
    if k > n then []
    else (if render(k).Rendered? then [k] else []) + RenderedPages(render, k + 1, n)
  }

  /** The loop tries pages `k, k+1, ...` in order without gaps, never one past
      `n`, and tries at least page `k` when there is one. */
  lemma {:induction false} AttemptedIsPrefixOfRange(render: nat -> Outcome, encode: (nat, Dims) -> Bytes, k: nat, n: nat)
    ensures var t := Pipeline(render, encode, k, n);
      (forall i :: 0 <= i < |t.attempted| ==> t.attempted[i] == k + i) &&
      (k <= n ==> 1 <= |t.attempted| <= n + 1 - k) &&
      (k > n ==> t.attempted == [])
    decreases n + 1 - k
  {
    var t := Pipeline(render, encode, k, n);
    if k > n {
      assert t.attempted == [];
    } else if !Continues(render, k, n) {
      assert t.attempted == [k];
    } else {
      var t' := Pipeline(render, encode, k + 1, n);
      AttemptedIsPrefixOfRange(render, encode, k + 1, n);
      assert t.attempted == [k] + t'.attempted;
      forall i | 0 <= i < |t.attempted| ensures t.attempted[i] == k + i {
        if i > 0 {
          assert t.attempted[i] == t'.attempted[i - 1];
        }
      }
    }
  }

  /** Page numbers strictly ascending along a list of records. */
  predicate Ascending(images: seq<ConvertedImage>)
  {
    forall i, j :: 0 <= i < j < |images| ==> images[i].pageNum < images[j].pageNum
  }

  lemma {:induction false} AscendingCons(x: ConvertedImage, ys: seq<ConvertedImage>)
    requires Ascending(ys)
    requires forall y :: y in ys ==> x.pageNum < y.pageNum
    ensures Ascending([x] + ys)
  {
    var zs := [x] + ys;
    forall i, j | 0 <= i < j < |zs| ensures zs[i].pageNum < zs[j].pageNum {
      assert zs[j] == ys[j - 1];
      if i > 0 {
        assert zs[i] == ys[i - 1];
      }
    }
  }

  /** Every stored page was tried, lies in `k..n` and rendered, and its
      record holds the raster's own size and the bytes encoded from the
      normalised size. */
  lemma {:induction false} ImagesAreRecords(render: nat -> Outcome, encode: (nat, Dims) -> Bytes, k: nat, n: nat)
    ensures var t := Pipeline(render, encode, k, n);
      forall img :: img in t.images ==>
        k <= img.pageNum <= n && img.pageNum in t.attempted &&
        render(img.pageNum) == Rendered(img.size) &&
        img == Record(encode, img.pageNum, img.size)
    decreases n + 1 - k
  {
    var t := Pipeline(render, encode, k, n);
    if k > n {
      assert t.images == [];
    } else {
      var s := StepTrace(render, encode, k, n);
      if Continues(render, k, n) {
        var t' := Pipeline(render, encode, k + 1, n);
        ImagesAreRecords(render, encode, k + 1, n);
        assert t.images == s.images + t'.images;
        assert t.attempted == [k] + t'.attempted;
        forall img | img in t.images
          ensures k <= img.pageNum <= n && img.pageNum in t.attempted
          ensures render(img.pageNum) == Rendered(img.size) && img == Record(encode, img.pageNum, img.size)
        {
          if img !in s.images {
            assert img in t'.images;
          }
        }
      } else {
        assert t == s;
      }
    }
  }

  /** The stored pages are strictly ascending, so no page is stored twice. */
  lemma {:induction false} ImagesAscending(render: nat -> Outcome, encode: (nat, Dims) -> Bytes, k: nat, n: nat)
    ensures Ascending(Pipeline(render, encode, k, n).images)
    decreases n + 1 - k
  {
    var t := Pipeline(render, encode, k, n);
    if k > n {
      assert t.images == [];
    } else {
      var s := StepTrace(render, encode, k, n);
      if !Continues(render, k, n) {
        assert t == s;
        assert |t.images| <= 1;
      } else {
        var t' := Pipeline(render, encode, k + 1, n);
        ImagesAscending(render, encode, k + 1, n);
        ImagesAreRecords(render, encode, k + 1, n);
        assert t.images == s.images + t'.images;
        if render(k).Rendered? {
          var x := Record(encode, k, render(k).size);
          assert forall y :: y in t'.images ==> x.pageNum < y.pageNum;
          AscendingCons(x, t'.images);
          assert t.images == [x] + t'.images;
        } else {
          assert t.images == t'.images;
        }
      }
    }
  }

  /** The facts about stored pages the session invariant needs. */
  lemma {:induction false} ImagesAscendingInRange(render: nat -> Outcome, encode: (nat, Dims) -> Bytes, k: nat, n: nat)
    ensures var t := Pipeline(render, encode, k, n);
      Ascending(t.images) && forall img :: img in t.images ==> k <= img.pageNum <= n
  {
    ImagesAscending(render, encode, k, n);
    ImagesAreRecords(render, encode, k, n);
  }

  /** A page is stored exactly when it was tried and rendered; an error is
      shown for a page exactly when it was tried and failed with a message
      that does not signal the end of the document. */
  lemma {:induction false} StoredIffRendered(render: nat -> Outcome, encode: (nat, Dims) -> Bytes, k: nat, n: nat, p: nat)
    ensures var t := Pipeline(render, encode, k, n);
      (p in PageNums(t.images) <==> p in t.attempted && render(p).Rendered?) &&
      (p in ErrorPages(t.failed) <==> p in t.attempted && Classify(render(p)).SkipPage?)
    decreases n + 1 - k
  {
    var t := Pipeline(render, encode, k, n);
    if k > n {
      assert t.images == [] && t.failed == [] && t.attempted == [];
    } else {
      var s := StepTrace(render, encode, k, n);
      var storedHere := PageNums(s.images);
      var failedHere := ErrorPages(s.failed);
      assert storedHere == if render(k).Rendered? then [k] else [];
      assert failedHere == if Classify(render(k)).SkipPage? then [k] else [];
      if Continues(render, k, n) {
        var t' := Pipeline(render, encode, k + 1, n);
        StoredIffRendered(render, encode, k + 1, n, p);
        AttemptedIsPrefixOfRange(render, encode, k + 1, n);
        assert t.images == s.images + t'.images && t.failed == s.failed + t'.failed;
        assert t.attempted == [k] + t'.attempted;
        PageNumsAppend(s.images, t'.images);
        ErrorPagesAppend(s.failed, t'.failed);
        assert k !in t'.attempted;
      } else {
        assert t == s;
      }
    }
  }

  lemma {:induction false} PageNumsAppend(a: seq<ConvertedImage>, b: seq<ConvertedImage>)
    ensures PageNums(a + b) == PageNums(a) + PageNums(b)
  {
    if a != [] {
      assert (a + b)[1..] == a[1..] + b;
      PageNumsAppend(a[1..], b);
    } else {
      assert a + b == b;
    }
  }

  lemma {:induction false} ErrorPagesAppend(a: seq<PageError>, b: seq<PageError>)
    ensures ErrorPages(a + b) == ErrorPages(a) + ErrorPages(b)
  {
    var l, r := ErrorPages(a + b), ErrorPages(a) + ErrorPages(b);
    forall i | 0 <= i < |l| ensures l[i] == r[i] {
      if i >= |a| {
        assert (a + b)[i] == b[i - |a|];
      }
    }
  }

  /** A page that ends the document is the last one tried: the loop never
      gets past it, and every stored page comes before it. */
  lemma EndOfDocumentStops(render: nat -> Outcome, encode: (nat, Dims) -> Bytes, k: nat, n: nat, j: nat)
    requires k <= j && EndsDocument(render(j))
    ensures var t := Pipeline(render, encode, k, n);
      (forall p :: p in t.attempted ==> p <= j) &&
      (forall img :: img in t.images ==> img.pageNum < j)
  {
    var t := Pipeline(render, encode, k, n);
    AttemptCountToEnd(render, encode, k, n, j);
    AttemptedIsPrefixOfRange(render, encode, k, n);
    ImagesAreRecords(render, encode, k, n);
    forall p | p in t.attempted ensures p <= j {
      var i :| 0 <= i < |t.attempted| && t.attempted[i] == p;
    }
  }

  /** At most the pages `k..j` are tried when page `j` ends the document. */
  lemma {:induction false} AttemptCountToEnd(render: nat -> Outcome, encode: (nat, Dims) -> Bytes, k: nat, n: nat, j: nat)
    requires k <= j && EndsDocument(render(j))
    ensures |Pipeline(render, encode, k, n).attempted| <= j + 1 - k
    decreases n + 1 - k
  {
    var t := Pipeline(render, encode, k, n);
    if k > n {
      assert t.attempted == [];
    } else if !Continues(render, k, n) {
      assert t.attempted == [k];
    } else {
      var t' := Pipeline(render, encode, k + 1, n);
      assert k < j;
      AttemptCountToEnd(render, encode, k + 1, n, j);
      assert t.attempted == [k] + t'.attempted;
    }
  }


  /** A failure that does not signal the end of the document is reported and
      does not stop the run: the loop goes on to the next page when there is
      one (and, by `FailedPageNotStored`, stores nothing for it). */
  lemma {:induction false} FailureSkipsOnlyItsPage(render: nat -> Outcome, encode: (nat, Dims) -> Bytes, k: nat, n: nat, j: nat)
    requires Classify(render(j)).SkipPage?
    requires j in Pipeline(render, encode, k, n).attempted
    ensures var t := Pipeline(render, encode, k, n);
      PageError(j, render(j).message) in t.failed &&
      (j < n ==> j + 1 in t.attempted)
    decreases n + 1 - k
  {
    var t := Pipeline(render, encode, k, n);
    if k > n {
      assert false;
    } else {
      var s := StepTrace(render, encode, k, n);
      assert Continues(render, k, n);
      var t' := Pipeline(render, encode, k + 1, n);
      assert t.attempted == [k] + t'.attempted;
      assert t.failed == s.failed + t'.failed;
      if k == j {
        assert s.failed == [PageError(j, render(j).message)];
        if j < n {
          AttemptedIsPrefixOfRange(render, encode, k + 1, n);
          assert t'.attempted[0] == j + 1;
        }
      } else {
        assert j in t'.attempted;
        FailureSkipsOnlyItsPage(render, encode, k + 1, n, j);
      }
    }
  }

  /** Nothing is stored for a page whose conversion failed. */
  lemma {:induction false} FailedPageNotStored(render: nat -> Outcome, encode: (nat, Dims) -> Bytes, k: nat, n: nat, j: nat)
    requires render(j).Failed?
    ensures forall img :: img in Pipeline(render, encode, k, n).images ==> img.pageNum != j
  {
    ImagesAreRecords(render, encode, k, n);
  }

  /** The run ends on page `n`, on a page that ends the document, or (only
      when there is no page to try) without trying anything; the limit warning
      is emitted exactly when page `n` itself was stored. */
  lemma {:induction false} RunEndsByRule(render: nat -> Outcome, encode: (nat, Dims) -> Bytes, k: nat, n: nat)
    ensures var t := Pipeline(render, encode, k, n);
      (t.attempted == [] <==> k > n) &&
      (t.attempted != [] ==>
        var last := t.attempted[|t.attempted| - 1];
        last == n || EndsDocument(render(last)))
    decreases n + 1 - k
  {
    var t := Pipeline(render, encode, k, n);
    AttemptedIsPrefixOfRange(render, encode, k, n);
    if k <= n {
      var s := StepTrace(render, encode, k, n);
      if Continues(render, k, n) {
        var t' := Pipeline(render, encode, k + 1, n);
        RunEndsByRule(render, encode, k + 1, n);
        assert t == Join(s, t');
        if t'.attempted == [] {
          assert k == n;
          assert t.attempted == [k];
        } else {
          assert t.attempted[|t.attempted| - 1] == t'.attempted[|t'.attempted| - 1];
        }
      } else {
        assert t == s;
      }
    }
  }

  /** The "maximum safe limit" warning is shown exactly when page `n` itself
      was stored. */
  lemma {:induction false} LimitWarningIffLastPageStored(render: nat -> Outcome, encode: (nat, Dims) -> Bytes, k: nat, n: nat)
    ensures var t := Pipeline(render, encode, k, n);
      t.limitReached <==> n in PageNums(t.images)
    decreases n + 1 - k
  {
    var t := Pipeline(render, encode, k, n);
    if k > n {
      assert PageNums(t.images) == [];
    } else {
      var s := StepTrace(render, encode, k, n);
      var head := PageNums(s.images);
      assert n in head <==> render(k).Rendered? && k == n by {
        if render(k).Rendered? {
          assert head == [k];
        } else {
          assert head == [];
        }
      }
      if Continues(render, k, n) {
        var t' := Pipeline(render, encode, k + 1, n);
        LimitWarningIffLastPageStored(render, encode, k + 1, n);
        PageNumsAppend(s.images, t'.images);
        assert PageNums(t.images) == head + PageNums(t'.images);
        assert t.limitReached == t'.limitReached;
      } else {
        assert t == s;
      }
    }
  }

  /** Up to the first page `e` that ends the document (or up to `n` when none
      does), the stored pages are exactly the pages that rendered, in order:
      pages that failed are simply missing, and nothing after `e` is tried. */
  lemma {:induction false} StoredPagesUpToEnd(render: nat -> Outcome, encode: (nat, Dims) -> Bytes, k: nat, n: nat, e: nat)
    requires 1 <= k <= e
    requires forall p :: k <= p < e ==> !EndsDocument(render(p))
    requires e <= n ==> EndsDocument(render(e))
    ensures var t := Pipeline(render, encode, k, n);
      PageNums(t.images) == RenderedPages(render, k, if e <= n then e - 1 else n) &&
      t.attempted == Range(k, if e <= n then e + 1 else n + 1)
    decreases n + 1 - k
  {
    var t := Pipeline(render, encode, k, n);
    var hi := if e <= n then e - 1 else n;
    if k <= n {
      var s := StepTrace(render, encode, k, n);
      if k == e {
        assert t == s;
        assert RenderedPages(render, k, hi) == [];
        assert Range(k, e + 1) == [k];
      } else if !Continues(render, k, n) {
        assert t == s && k == n && e > n;
        assert RenderedPages(render, k + 1, n) == [];
        assert PageNums(t.images) == [k];
        assert Range(k, n + 1) == [k];
      } else {
        var t' := Pipeline(render, encode, k + 1, n);
        StoredPagesUpToEnd(render, encode, k + 1, n, e);
        assert t == Join(s, t');
        PageNumsAppend(s.images, t'.images);
        assert RenderedPages(render, k, hi) ==
          (if render(k).Rendered? then [k] else []) + RenderedPages(render, k + 1, hi);
        assert PageNums(s.images) == if render(k).Rendered? then [k] else [];
        var top := if e <= n then e + 1 else n + 1;
        assert Range(k, top) == [k] + Range(k + 1, top);
      }
    }
  }

  /** When no failures occur and the document has at least `n` pages, the run
      stores exactly pages `k..n`, shows no error, and ends with the limit
      warning. */
  lemma {:induction false} NoFailuresStoresEveryPage(render: nat -> Outcome, encode: (nat, Dims) -> Bytes, k: nat, n: nat)
    requires k <= n
    requires forall p :: k <= p <= n ==> render(p).Rendered?
    ensures var t := Pipeline(render, encode, k, n);
      PageNums(t.images) == Range(k, n + 1) && t.failed == [] && t.limitReached
    decreases n + 1 - k
  {
    var t := Pipeline(render, encode, k, n);
    var s := StepTrace(render, encode, k, n);
    assert PageNums(s.images) == [k];
    if k < n {
      var t' := Pipeline(render, encode, k + 1, n);
      NoFailuresStoresEveryPage(render, encode, k + 1, n);
      assert t == Join(s, t');
      PageNumsAppend(s.images, t'.images);
      assert Range(k, n + 1) == [k] + Range(k + 1, n + 1);
    } else {
      assert t == s;
    }
  }
}
