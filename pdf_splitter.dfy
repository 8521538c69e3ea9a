/**
 * PdfSplitter: splitting a PDF by pages (the pages are copied as they are)
 * or by characters of its extracted text (each piece of text becomes a new
 * PDF). A page is its identity and what text extraction gives for it.
 */
module PdfSplitter {
  import opened Strings
  import opened Documents
  import opened FileHandler
  import opened SplitPlan

  /** `_write_pdf`: the pages `start` to `end` (exclusive) added one by one to a new document. */
  method WritePdf(pages: seq<PdfPage>, start: nat, end: nat) returns (written: seq<PdfPage>)
    requires start <= end <= |pages|
    ensures written == pages[start..end]
  {
    written := [];
    for pageNum := start to end
      invariant written == pages[start..pageNum]
    {
      written := written + [pages[pageNum]];
    }
  }

  /**
   * `split_by_pages`: the checks, then one file with every page when the
   * split size reaches the page count (even for a PDF without pages), else a
   * file per window of pages.
   */
  method SplitByPages(inputPath: string, present: bool, pages: seq<PdfPage>, pagesPerSplit: SplitValue)
    returns (r: Result<seq<OutputFile<seq<PdfPage>>>>)
    ensures r.Err? <==> CheckSplitInput(inputPath, present, ".pdf", pagesPerSplit).Some?
    ensures r.Err? ==> Some(r.error) == CheckSplitInput(inputPath, present, ".pdf", pagesPerSplit)
    ensures r.Ok? ==> pagesPerSplit.IsInt() && FixedSplit(inputPath, ".pdf", pages, pagesPerSplit.AsInt(), r.value)
  {
    var check := CheckSplitInput(inputPath, present, ".pdf", pagesPerSplit);
    if check.Some? {
      return Err(check.value);
    }
    var n: nat := pagesPerSplit.AsInt();
    var totalPages: nat := |pages|;
    if n >= totalPages {
      var outputPath := GenerateOutputFilename(inputPath, 1, Some(".pdf"));
      var written := WritePdf(pages, 0, totalPages);
      assert written == pages;
      return Ok([OutputFile(outputPath, written)]);
    }
    var outputs := WritePageWindows(inputPath, pages, n);
    return Ok(outputs);
  }

  /** The loop `for start_page in range(0, total_pages, pages_per_split)` writing each window of pages. */
  method WritePageWindows(inputPath: string, pages: seq<PdfPage>, n: nat) returns (outputs: seq<OutputFile<seq<PdfPage>>>)
    requires n > 0
    ensures Paths(outputs) == PartPaths(inputPath, ".pdf", |outputs|)
    ensures Contents(outputs) == Chunks(pages, n)
  {
    outputs := [];
    var partNum := 1;
    var startPage: nat := 0;
    while startPage < |pages|
      invariant partNum == |outputs| + 1
      invariant Paths(outputs) == PartPaths(inputPath, ".pdf", |outputs|)
      invariant Contents(outputs) + Slices(pages, WindowsFrom(startPage, |pages|, n)) == Chunks(pages, n)
    {
      var endPage := Min(startPage + n, |pages|);
      var outputPath := GenerateOutputFilename(inputPath, partNum, Some(".pdf"));
      var written := WritePdf(pages, startPage, endPage);
      var o := OutputFile(outputPath, written);
      ChunksStep(pages, Contents(outputs), startPage, n);
      PartPathsAppend(inputPath, ".pdf", |outputs|);
      OutputsAppend(outputs, o);
      outputs := outputs + [o];
      partNum := partNum + 1;
      startPage := startPage + n;
    }
    ChunksDone(pages, Contents(outputs), startPage, n);
  }

  /** Every page before `k` has a text. */
  predicate ReadableUpTo(pages: seq<PdfPage>, k: nat)
    requires k <= |pages|
  {
    forall j :: 0 <= j < k ==> pages[j].text.Extracted?
  }

  /** The texts of pages that all have one. */
  function PageStrings(pages: seq<PdfPage>): (r: seq<string>)
    requires ReadableUpTo(pages, |pages|)
    ensures |r| == |pages| && forall j :: 0 <= j < |pages| ==> r[j] == pages[j].text.text
  {
    seq(|pages|, j requires 0 <= j < |pages| => pages[j].text.text)
  }

  /**
   * The text `split_by_chars` assembles: each page's text followed by a
   * newline, or the failure of the first page whose text cannot be extracted.
   */
  function ExtractText(pages: seq<PdfPage>): (r: Result<string>)
    ensures r.Ok? <==> ReadableUpTo(pages, |pages|)
    ensures r.Err? ==> exists k :: 0 <= k < |pages| && ReadableUpTo(pages, k)
                                   && pages[k].text.ExtractionFails? && r.error == PageTextUnavailable(k)
  {
    if pages == [] then Ok([])
    else
      var init := pages[..|pages| - 1];
      assert forall j :: 0 <= j < |init| ==> init[j] == pages[j];
      match ExtractText(init)
      case Err(e) => Err(e)
      case Ok(t) =>
        match pages[|pages| - 1].text
        case ExtractionFails => Err(PageTextUnavailable(|pages| - 1))
        case Extracted(s) => Ok(t + s + "\n")
  }

  /** The assembled text is the page texts joined by newlines, with a final newline. */
  lemma {:induction false} ExtractTextJoin(pages: seq<PdfPage>)
    requires ReadableUpTo(pages, |pages|)
    ensures ExtractText(pages) == Ok(Join(PageStrings(pages) + [""], "\n"))
    decreases |pages|
  {
    if pages != [] {
      var init := pages[..|pages| - 1];
      var s := pages[|pages| - 1].text.text;
      assert ReadableUpTo(init, |init|) by {
        assert forall j :: 0 <= j < |init| ==> init[j] == pages[j];
      }
      ExtractTextJoin(init);
      var xs := PageStrings(init);
      assert PageStrings(pages) == xs + [s];
      assert ExtractText(pages) == Ok(Join(xs + [""], "\n") + s + "\n");
      var ys := xs + [s] + [""];
      assert ys[..|ys| - 1] == xs + [s];
      assert PageStrings(pages) + [""] == ys;
      if xs == [] {
        assert Join(xs + [""], "\n") == [];
        assert Join(ys, "\n") == Join([s], "\n") + "\n" + "";
        assert Join(ys, "\n") == s + "\n";
      } else {
        var zs := xs + [""];
        assert zs[..|zs| - 1] == xs;
        assert Join(zs, "\n") == Join(xs, "\n") + "\n";
        assert (xs + [s])[..|xs|] == xs;
        assert Join(xs + [s], "\n") == Join(xs, "\n") + "\n" + s;
        assert Join(ys, "\n") == Join(xs + [s], "\n") + "\n" + "";
      }
      assert Join(ys, "\n") == Join(xs + [""], "\n") + s + "\n";
    }
  }

  /**
   * When no page text holds a newline, splitting the assembled text at
   * newlines gives the page texts back, followed by the empty remainder after
   * the final newline.
   */
  lemma PageTextsRecoverable(pages: seq<PdfPage>)
    requires ReadableUpTo(pages, |pages|)
    requires forall j :: 0 <= j < |pages| ==> '\n' !in pages[j].text.text
    ensures ExtractText(pages).Ok?
    ensures Split(ExtractText(pages).value, '\n') == PageStrings(pages) + [""]
  {
    ExtractTextJoin(pages);
    var xs := PageStrings(pages) + [""];
    assert forall i :: 0 <= i < |xs| ==> '\n' !in xs[i] by {
      forall i | 0 <= i < |xs| ensures '\n' !in xs[i] {
        if i < |pages| {
          assert xs[i] == pages[i].text.text;
        }
      }
    }
    SplitJoin(xs, '\n');
  }

  /** The loop `for page in reader.pages: text_content += page.extract_text() + "\n"`. */
  method AssembleText(pages: seq<PdfPage>) returns (r: Result<string>)
    ensures r == ExtractText(pages)
  {
    var textContent := "";
    for k := 0 to |pages|
      invariant ExtractText(pages[..k]) == Ok(textContent)
    {
      assert pages[..k + 1][..k] == pages[..k];
      match pages[k].text
      case ExtractionFails =>
        PrefixFails(pages, k + 1);
        return Err(PageTextUnavailable(k));
      case Extracted(s) =>
        textContent := textContent + s + "\n";
    }
    assert pages[..|pages|] == pages;
    return Ok(textContent);
  }

  /** Once a prefix fails to extract, the whole document fails with the same error. */
  lemma {:induction false} PrefixFails(pages: seq<PdfPage>, k: nat)
    requires k <= |pages| && ExtractText(pages[..k]).Err?
    ensures ExtractText(pages) == ExtractText(pages[..k])
    decreases |pages| - k
  {
    if k < |pages| {
      assert pages[..k + 1][..k] == pages[..k];
      PrefixFails(pages, k + 1);
    } else {
      assert pages[..k] == pages;
    }
  }

  /**
   * `split_by_chars`: the checks, the assembled text, then fixed chunks of it.
   * The contents are the text parts handed to the PDF writer, not what the
   * written PDFs hold: that writer keeps a header and at most 20 lines of at
   * most 80 characters of each part, or writes a blank page. Unlike the text
   * splitters there is no single copy for a short text, and a PDF without
   * pages gives no parts.
   */
  method SplitByChars(inputPath: string, present: bool, pages: seq<PdfPage>, charsPerSplit: SplitValue)
    returns (r: Result<seq<OutputFile<string>>>)
    ensures CheckSplitInput(inputPath, present, ".pdf", charsPerSplit).Some? ==>
              r == Err(CheckSplitInput(inputPath, present, ".pdf", charsPerSplit).value)
    ensures CheckSplitInput(inputPath, present, ".pdf", charsPerSplit).None? && ExtractText(pages).Err? ==>
              r == Err(ExtractText(pages).error)
    ensures r.Ok? <==> CheckSplitInput(inputPath, present, ".pdf", charsPerSplit).None? && ExtractText(pages).Ok?
    ensures r.Ok? ==> charsPerSplit.IsInt() && charsPerSplit.AsInt() > 0
                      && Paths(r.value) == PartPaths(inputPath, ".pdf", |r.value|)
                      && Contents(r.value) == Chunks(ExtractText(pages).value, charsPerSplit.AsInt())
  {
    var check := CheckSplitInput(inputPath, present, ".pdf", charsPerSplit);
    if check.Some? {
      return Err(check.value);
    }
    var n := charsPerSplit.AsInt();
    var text := AssembleText(pages);
    if text.Err? {
      return Err(text.error);
    }
    var textParts := ChunkLoop(text.value, n);
    var outputs := WriteParts(inputPath, ".pdf", textParts);
    return Ok(outputs);
  }

  /** Every page adds its text and one newline, so a document with pages never gives an empty text. */
  lemma {:induction false} ExtractTextLength(pages: seq<PdfPage>)
    requires ReadableUpTo(pages, |pages|)
    ensures |ExtractText(pages).value| >= |pages|
    decreases |pages|
  {
    if pages != [] {
      var init := pages[..|pages| - 1];
      assert ReadableUpTo(init, |init|) by {
        assert forall j :: 0 <= j < |init| ==> init[j] == pages[j];
      }
      ExtractTextLength(init);
    }
  }
}
