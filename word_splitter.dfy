/**
 * WordSplitter: splitting a `.docx` document by characters of its text (with
 * an option to move cuts onto nearby chapter headings), by paragraphs (with
 * an option to start a part at each heading), into equal parts, and merging
 * documents. A document is its paragraphs and its tables; what a part is
 * written as is a document again.
 */
module WordSplitter {
  import opened Strings
  import opened Documents
  import opened FileHandler
  import opened SplitPlan
  import opened ChapterDetector

  /* ---------- The text of a document ---------- */

  /** The texts collected for a character split: each paragraph's, then each table cell's, table by table, row by row. */
  function FullText(doc: WordDocument): seq<string> {
    ParagraphTexts(doc.paragraphs) + Concat(Concat(doc.tables))
  }

  /** `'\n'.join(full_text)` */
  function TextOf(doc: WordDocument): string {
    Join(FullText(doc), "\n")
  }

  /** The loops over `doc.paragraphs` and over the cells of `doc.tables` that build `text_content`. */
  method TextContent(doc: WordDocument) returns (text: string)
    ensures text == TextOf(doc)
  {
    var fullText: seq<string> := [];
    for k := 0 to |doc.paragraphs|
      invariant fullText == ParagraphTexts(doc.paragraphs[..k])
    {
      assert doc.paragraphs[..k + 1] == doc.paragraphs[..k] + [doc.paragraphs[k]];
      ParagraphTextsSnoc(doc.paragraphs[..k], doc.paragraphs[k]);
      fullText := fullText + [doc.paragraphs[k].text];
    }
    assert doc.paragraphs[..|doc.paragraphs|] == doc.paragraphs;
    ghost var paragraphTexts := fullText;
    for t := 0 to |doc.tables|
      invariant fullText == paragraphTexts + Concat(Concat(doc.tables[..t]))
    {
      fullText := AppendTable(fullText, doc.tables[t]);
      TablesTextStep(doc.tables, t);
    }
    assert doc.tables[..|doc.tables|] == doc.tables;
    text := Join(fullText, "\n");
  }

  /** The loop over the rows of a table and, in each, over its cells, appending each cell's text. */
  method AppendTable(texts: seq<string>, table: Table) returns (r: seq<string>)
    ensures r == texts + Concat(table)
  {
    r := texts;
    for ri := 0 to |table|
      invariant r == texts + Concat(table[..ri])
    {
      var row := table[ri];
      ghost var rowStart := r;
      for ci := 0 to |row|
        invariant r == rowStart + row[..ci]
      {
        assert row[..ci + 1] == row[..ci] + [row[ci]];
        r := r + [row[ci]];
      }
      assert row[..|row|] == row;
      assert table[..ri + 1] == table[..ri] + [row];
      ConcatSnoc(table[..ri], row);
    }
    assert table[..|table|] == table;
  }

  /** One more table adds its cells after those of the tables before it. */
  lemma TablesTextStep(tables: seq<Table>, t: nat)
    requires t < |tables|
    ensures Concat(Concat(tables[..t + 1])) == Concat(Concat(tables[..t])) + Concat(tables[t])
  {
    assert tables[..t + 1] == tables[..t] + [tables[t]];
    ConcatSnoc(tables[..t], tables[t]);
    ConcatSplit(Concat(tables[..t]), tables[t]);
  }

  /* ---------- Documents written for a character split ---------- */

  /** The paragraphs' texts without their styles and without the tables: what a short document is copied as. */
  function PlainCopy(doc: WordDocument): (r: WordDocument)
    ensures r.tables == [] && |r.paragraphs| == |doc.paragraphs|
    ensures forall k :: 0 <= k < |doc.paragraphs| ==> r.paragraphs[k] == Paragraph(doc.paragraphs[k].text, None)
  {
    WordDocument(seq(|doc.paragraphs|, k requires 0 <= k < |doc.paragraphs| => Paragraph(doc.paragraphs[k].text, None)), [])
  }

  /** The loop `for para in doc.paragraphs: new_doc.add_paragraph(para.text)`. */
  method CopyTexts(doc: WordDocument) returns (copy: WordDocument)
    ensures copy == PlainCopy(doc)
  {
    var paragraphs: seq<Paragraph> := [];
    for k := 0 to |doc.paragraphs|
      invariant |paragraphs| == k
      invariant forall j :: 0 <= j < k ==> paragraphs[j] == Paragraph(doc.paragraphs[j].text, None)
    {
      paragraphs := paragraphs + [Paragraph(doc.paragraphs[k].text, None)];
    }
    copy := WordDocument(paragraphs, []);
  }

  /** The lines of a text part that are not blank, each as an unstyled paragraph. */
  function NonBlankParagraphs(lines: seq<string>): (r: seq<Paragraph>)
    ensures |r| <= |lines|
  {
    if lines == [] then []
    else
      var last := lines[|lines| - 1];
      NonBlankParagraphs(lines[..|lines| - 1]) + (if Strip(last) != [] then [Paragraph(last, None)] else [])
  }

  /** Every paragraph kept is an unstyled, non-blank line of the part. */
  lemma {:induction false} NonBlankParagraphsFacts(lines: seq<string>)
    ensures forall k :: 0 <= k < |NonBlankParagraphs(lines)| ==>
              NonBlankParagraphs(lines)[k].style == None && Strip(NonBlankParagraphs(lines)[k].text) != []
              && NonBlankParagraphs(lines)[k].text in lines
    decreases |lines|
  {
    if lines != [] {
      var init := lines[..|lines| - 1];
      NonBlankParagraphsFacts(init);
      assert forall j :: 0 <= j < |init| ==> init[j] == lines[j];
    }
  }

  /** With no blank line, every line becomes a paragraph. */
  lemma {:induction false} NoBlankLineDropped(lines: seq<string>)
    requires forall j :: 0 <= j < |lines| ==> Strip(lines[j]) != []
    ensures ParagraphTexts(NonBlankParagraphs(lines)) == lines
    decreases |lines|
  {
    if lines != [] {
      var init := lines[..|lines| - 1];
      var last := lines[|lines| - 1];
      assert Strip(last) != [];
      assert forall j :: 0 <= j < |init| ==> init[j] == lines[j];
      NoBlankLineDropped(init);
      var prev := NonBlankParagraphs(init);
      assert NonBlankParagraphs(lines) == prev + [Paragraph(last, None)];
      ParagraphTextsSnoc(prev, Paragraph(last, None));
      assert lines == init + [last];
    }
  }

  lemma ParagraphTextsSnoc(ps: seq<Paragraph>, p: Paragraph)
    ensures ParagraphTexts(ps + [p]) == ParagraphTexts(ps) + [p.text]
  {
  }

  /** The document a text part is written as: its non-blank lines as paragraphs. */
  function TextDocument(part: string): WordDocument {
    WordDocument(NonBlankParagraphs(Split(part, '\n')), [])
  }

  /** The document of a part has no table, and its paragraphs are unstyled, non-blank and without newline. */
  lemma TextDocumentShape(part: string)
    ensures TextDocument(part).tables == []
    ensures forall k :: 0 <= k < |TextDocument(part).paragraphs| ==>
              TextDocument(part).paragraphs[k].style == None && Strip(TextDocument(part).paragraphs[k].text) != []
              && '\n' !in TextDocument(part).paragraphs[k].text
  {
    var lines := Split(part, '\n');
    var ps := NonBlankParagraphs(lines);
    NonBlankParagraphsFacts(lines);
    forall k | 0 <= k < |ps| ensures '\n' !in ps[k].text {
      var j :| 0 <= j < |lines| && lines[j] == ps[k].text;
    }
  }

  /** A part with no blank line is written without loss: its paragraphs joined by newlines give it back. */
  lemma TextDocumentKeepsLines(part: string)
    requires forall j :: 0 <= j < |Split(part, '\n')| ==> Strip(Split(part, '\n')[j]) != []
    ensures Join(ParagraphTexts(TextDocument(part).paragraphs), "\n") == part
  {
    NoBlankLineDropped(Split(part, '\n'));
    JoinSplit(part, '\n');
  }

  /** The loop `for para_text in text_part.split('\n'): if para_text.strip(): new_doc.add_paragraph(para_text)`. */
  method BuildTextDocument(part: string) returns (doc: WordDocument)
    ensures doc == TextDocument(part)
  {
    var lines := Split(part, '\n');
    var paragraphs: seq<Paragraph> := [];
    for i := 0 to |lines|
      invariant paragraphs == NonBlankParagraphs(lines[..i])
    {
      assert lines[..i + 1][..i] == lines[..i];
      if Strip(lines[i]) != [] {
        paragraphs := paragraphs + [Paragraph(lines[i], None)];
      }
    }
    assert lines[..|lines|] == lines;
    doc := WordDocument(paragraphs, []);
  }

  function TextDocuments(parts: seq<string>): (r: seq<WordDocument>)
    ensures |r| == |parts| && forall k :: 0 <= k < |parts| ==> r[k] == TextDocument(parts[k])
  {
    seq(|parts|, k requires 0 <= k < |parts| => TextDocument(parts[k]))
  }

  /** The loop `for idx, text_part in enumerate(text_parts, 1)` writing each part as a document. */
  method WriteTextParts(path: string, parts: seq<string>) returns (outputs: seq<OutputFile<WordDocument>>)
    ensures Paths(outputs) == PartPaths(path, ".docx", |parts|)
    ensures Contents(outputs) == TextDocuments(parts)
  {
    outputs := [];
    ghost var docs := TextDocuments(parts);
    for idx := 0 to |parts|
      invariant Paths(outputs) == PartPaths(path, ".docx", idx)
      invariant Contents(outputs) == docs[..idx]
    {
      var outputPath := GenerateOutputFilename(path, idx + 1, Some(".docx"));
      var doc := BuildTextDocument(parts[idx]);
      var o := OutputFile(outputPath, doc);
      WriteStep(path, ".docx", docs, outputs, o);
      outputs := outputs + [o];
    }
    assert docs[..|parts|] == docs;
  }

  /* ---------- Cuts that keep chapters together ---------- */

  /** Chapter breaks of a text: offsets into it. */
  predicate BreaksOf(breaks: seq<nat>, text: string) {
    forall k :: 0 <= k < |breaks| ==> breaks[k] <= |text|
  }

  /**
   * The next cut after `current`: the target `min(current + n, len)` moved by
   * `adjust_split_point` (at most `n // 2` away), or the target itself when the
   * moved cut would not advance.
   */
  function NextCut(text: string, breaks: seq<nat>, n: nat, current: nat): (r: nat)
    requires n > 0 && current < |text| && BreaksOf(breaks, text)
    ensures current < r <= |text|
    ensures var target := Min(current + n, |text|);
            r == target || Distance(r, target) <= n / 2
    ensures r - current <= n + n / 2
  {
    var target := Min(current + n, |text|);
    var adjusted := AdjustAmong(breaks, target, text, n / 2);
    AdjustStaysInWindow(breaks, target, text, n / 2);
    if adjusted <= current then target else adjusted
  }

  /** The pieces the chapter-preserving loop cuts from `text[current:]`. */
  function ChapterParts(text: string, breaks: seq<nat>, n: nat, current: nat): (r: seq<string>)
    requires n > 0 && current <= |text| && BreaksOf(breaks, text)
    ensures Concat(r) == text[current..]
    ensures forall k :: 0 <= k < |r| ==> 0 < |r[k]| <= n + n / 2
    decreases |text| - current
  {
    if current == |text| then []
    else
      var c := NextCut(text, breaks, n, current);
      var piece := text[current..c];
      var rest := ChapterParts(text, breaks, n, c);
      ConcatCons(piece, rest);
      assert text[current..] == piece + text[c..];
      [piece] + rest
  }

  lemma ConcatCons(x: string, rest: seq<string>)
    ensures Concat([x] + rest) == x + Concat(rest)
  {
    assert ([x] + rest)[1..] == rest;
  }

  /**
   * One turn of the chapter-preserving loop: the cut it makes from what
   * `adjust_split_point` returns (the target again when that would not
   * advance) is `NextCut`, and the piece it keeps is the first of the parts
   * left.
   */
  lemma ChapterLoopStep(text: string, breaks: seq<nat>, n: nat, done: seq<string>, current: nat, adjusted: int)
    requires n > 0 && current < |text| && BreaksOf(breaks, text)
    requires done + ChapterParts(text, breaks, n, current) == ChapterParts(text, breaks, n, 0)
    requires adjusted == AdjustAmong(breaks, Min(current + n, |text|), text, n / 2)
    ensures var c := if adjusted <= current then Min(current + n, |text|) else adjusted;
            c == NextCut(text, breaks, n, current)
            && (done + [text[current..c]]) + ChapterParts(text, breaks, n, c) == ChapterParts(text, breaks, n, 0)
  {
    var c := NextCut(text, breaks, n, current);
    var piece := text[current..c];
    var rest := ChapterParts(text, breaks, n, c);
    assert ChapterParts(text, breaks, n, current) == [piece] + rest;
    assert done + ([piece] + rest) == (done + [piece]) + rest;
  }

  /** The loop `while current_pos < len(text_content)` of a chapter-preserving split. */
  method ChapterSplitLoop(text: string, n: nat) returns (textParts: seq<string>)
    requires n > 0
    ensures textParts == ChapterParts(text, ChapterBreaks(text, "cn"), n, 0)
  {
    ghost var breaks := ChapterBreaks(text, "cn");
    textParts := [];
    var currentPos: nat := 0;
    while currentPos < |text|
      invariant currentPos <= |text|
      invariant textParts + ChapterParts(text, breaks, n, currentPos) == ChapterParts(text, breaks, n, 0)
      decreases |text| - currentPos
    {
      var targetPos := Min(currentPos + n, |text|);
      var adjustedPos := AdjustSplitPoint(targetPos, text, "cn", n / 2);
      ChapterLoopStep(text, breaks, n, textParts, currentPos, adjustedPos);
      if adjustedPos <= currentPos {
        adjustedPos := targetPos;
      }
      textParts := textParts + [text[currentPos..adjustedPos]];
      currentPos := adjustedPos;
    }
  }

  /** Without a heading anywhere, the chapter-preserving cuts are the fixed ones. */
  lemma {:induction false} ChapterPartsWithoutHeadings(text: string, n: nat, current: nat)
    requires n > 0 && current <= |text|
    ensures ChapterParts(text, [], n, current) == Slices(text, WindowsFrom(current, |text|, n))
    decreases |text| - current
  {
    if current < |text| {
      var target := Min(current + n, |text|);
      assert NextCut(text, [], n, current) == target;
      if target < |text| {
        ChapterPartsWithoutHeadings(text, n, target);
        assert target == current + n;
      } else {
        assert WindowsFrom(current + n, |text|, n) == [];
      }
      SlicesFrom(text, current, n);
    }
  }

  /** The text parts of a split of `text` into parts of `n` characters. */
  function CharParts(text: string, n: nat, preserveChapter: bool): (r: seq<string>)
    requires n > 0
    ensures Concat(r) == text
    ensures forall k :: 0 <= k < |r| ==> 0 < |r[k]| <= n + n / 2
    ensures !preserveChapter ==> forall k :: 0 <= k < |r| ==> |r[k]| <= n
  {
    if preserveChapter then ChapterParts(text, ChapterBreaks(text, "cn"), n, 0)
    else
      ChunksPartition(text, n);
      Chunks(text, n)
  }

  /** The documents a character split writes: a plain copy when the text fits, else one document per text part. */
  function CharSplitDocs(doc: WordDocument, n: nat, preserveChapter: bool): seq<WordDocument>
    requires n > 0
  {
    var text := TextOf(doc);
    if |text| <= n then [PlainCopy(doc)] else TextDocuments(CharParts(text, n, preserveChapter))
  }

  /**
   * `split_by_chars`: the checks, then a plain copy when the text fits, else
   * the text cut into parts (fixed or chapter-preserving), each written as a
   * document of its non-blank lines.
   */
  method SplitByChars(inputPath: string, present: bool, doc: WordDocument, charsPerSplit: SplitValue, preserveChapter: bool)
    returns (r: Result<seq<OutputFile<WordDocument>>>)
    ensures r.Err? <==> CheckSplitInput(inputPath, present, ".docx", charsPerSplit).Some?
    ensures r.Err? ==> Some(r.error) == CheckSplitInput(inputPath, present, ".docx", charsPerSplit)
    ensures r.Ok? ==> charsPerSplit.IsInt() && charsPerSplit.AsInt() > 0
                      && Paths(r.value) == PartPaths(inputPath, ".docx", |r.value|)
                      && Contents(r.value) == CharSplitDocs(doc, charsPerSplit.AsInt(), preserveChapter)
  {
    var check := CheckSplitInput(inputPath, present, ".docx", charsPerSplit);
    if check.Some? {
      return Err(check.value);
    }
    var n := charsPerSplit.AsInt();
    var textContent := TextContent(doc);
    if |textContent| <= n {
      var outputPath := GenerateOutputFilename(inputPath, 1, Some(".docx"));
      var copy := CopyTexts(doc);
      return Ok([OutputFile(outputPath, copy)]);
    }
    var textParts;
    if preserveChapter {
      textParts := ChapterSplitLoop(textContent, n);
    } else {
      textParts := ChunkLoop(textContent, n);
    }
    var outputs := WriteTextParts(inputPath, textParts);
    return Ok(outputs);
  }

  /**
   * What a character split of a long document gives: text parts that put
   * together give its text, each non-empty and at most `n` characters (one and
   * a half times that when cuts move to headings), `ceil(len / n)` of them
   * without chapter adjustment.
   */
  lemma CharSplitMeaning(doc: WordDocument, n: nat, preserveChapter: bool)
    requires n > 0 && |TextOf(doc)| > n
    ensures var parts := CharParts(TextOf(doc), n, preserveChapter);
            CharSplitDocs(doc, n, preserveChapter) == TextDocuments(parts)
            && Concat(parts) == TextOf(doc)
            && (!preserveChapter ==> |parts| == CeilDiv(|TextOf(doc)|, n))
  {
    if !preserveChapter {
      ChunksPartition(TextOf(doc), n);
    }
  }

  /**
   * `split_by_equal_parts`: the file checks, a positive count, then a
   * character split with `EqualPartSize` characters per part; without chapter
   * adjustment it never makes more parts than asked for.
   */
  method SplitByEqualParts(inputPath: string, present: bool, doc: WordDocument, partsCount: int, preserveChapter: bool)
    returns (r: Result<seq<OutputFile<WordDocument>>>)
    ensures r.Err? <==> CheckInput(inputPath, present, ".docx").Some? || partsCount <= 0
    ensures CheckInput(inputPath, present, ".docx").Some? ==> r == Err(CheckInput(inputPath, present, ".docx").value)
    ensures CheckInput(inputPath, present, ".docx").None? && partsCount <= 0 ==> r == Err(InvalidPartsCount(partsCount))
    ensures r.Ok? ==> partsCount > 0
                      && Paths(r.value) == PartPaths(inputPath, ".docx", |r.value|)
                      && Contents(r.value) == CharSplitDocs(doc, EqualPartSize(|TextOf(doc)|, partsCount), preserveChapter)
    ensures r.Ok? && !preserveChapter ==> 1 <= |r.value| <= partsCount
  {
    var check := CheckInput(inputPath, present, ".docx");
    if check.Some? {
      return Err(check.value);
    }
    if partsCount <= 0 {
      return Err(InvalidPartsCount(partsCount));
    }
    var textContent := TextContent(doc);
    var charsPerPart := EqualPartSize(|textContent|, partsCount);
    r := SplitByChars(inputPath, present, doc, IntValue(charsPerPart), preserveChapter);
    if r.Ok? && !preserveChapter {
      EqualPartsAtMost(|textContent|, partsCount);
      if |textContent| > charsPerPart {
        CharSplitMeaning(doc, charsPerPart, false);
        CeilDivStep(|textContent|, charsPerPart);
      }
    }
  }

  /* ---------- Splitting by paragraphs ---------- */

  /** The indices of the paragraphs `find_paragraph_chapter_positions` reports as headings, in order. */
  function HeadingIndices(paragraphs: seq<Paragraph>): seq<nat> {
    Ats(Collect(UnitTitles(ParagraphTexts(paragraphs)), |paragraphs|))
  }

  /** The heading indices are increasing, and are exactly the paragraphs whose text is a heading. */
  lemma HeadingIndicesExact(paragraphs: seq<Paragraph>)
    ensures StrictlyIncreasing(HeadingIndices(paragraphs))
    ensures forall j :: 0 <= j < |paragraphs| ==> (j in HeadingIndices(paragraphs) <==> IsAnyTitle(paragraphs[j].text))
    ensures forall x :: x in HeadingIndices(paragraphs) ==> x < |paragraphs|
  {
    var texts := ParagraphTexts(paragraphs);
    var r := Collect(UnitTitles(texts), |texts|);
    CollectFacts(UnitTitles(texts), |texts|);
    forall j | 0 <= j < |paragraphs|
      ensures j in HeadingIndices(paragraphs) <==> IsAnyTitle(paragraphs[j].text)
    {
      UnitChaptersExact(texts, j);
    }
  }

  /**
   * The loop over `chapter_para_indices` from position `k` on: the first index
   * strictly between `lo` and `hi`, found in list order.
   */
  function FirstBetween(indices: seq<nat>, lo: nat, hi: nat, k: nat): (r: Option<nat>)
    requires k <= |indices|
    ensures r.Some? ==> lo < r.value < hi && r.value in indices[k..]
    decreases |indices| - k
  {
    if k == |indices| then None
    else if lo < indices[k] < hi then Some(indices[k])
    else FirstBetween(indices, lo, hi, k + 1)
  }

  /**
   * Over increasing indices, the one found is the least strictly between `lo`
   * and `hi`, and none is found exactly when there is none.
   */
  lemma {:induction false} FirstBetweenIsLeast(indices: seq<nat>, lo: nat, hi: nat, k: nat)
    requires k <= |indices| && StrictlyIncreasing(indices)
    ensures FirstBetween(indices, lo, hi, k).None? <==> forall j :: k <= j < |indices| ==> !(lo < indices[j] < hi)
    ensures FirstBetween(indices, lo, hi, k).Some? ==>
              forall j :: k <= j < |indices| && lo < indices[j] < hi ==> FirstBetween(indices, lo, hi, k).value <= indices[j]
    decreases |indices| - k
  {
    if k < |indices| && !(lo < indices[k] < hi) {
      FirstBetweenIsLeast(indices, lo, hi, k + 1);
    }
  }

  /** The inner `for chapter_para in chapter_para_indices` loop, which breaks at the first index inside the window. */
  method FindNextChapter(indices: seq<nat>, currentPara: nat, targetEnd: nat) returns (next: Option<nat>)
    ensures next == FirstBetween(indices, currentPara, targetEnd, 0)
  {
    for k := 0 to |indices|
      invariant FirstBetween(indices, currentPara, targetEnd, 0) == FirstBetween(indices, currentPara, targetEnd, k)
    {
      if currentPara < indices[k] < targetEnd {
        return Some(indices[k]);
      }
    }
    return None;
  }

  /**
   * Where the part starting at `current` ends: `min(current + n, total)`, or,
   * when chapters are kept, the first heading strictly inside that window.
   */
  function ParagraphCut(indices: seq<nat>, preserveChapter: bool, current: nat, total: nat, n: nat): (r: nat)
    requires n > 0 && current < total
    ensures current < r <= Min(current + n, total)
  {
    var target := Min(current + n, total);
    if preserveChapter && indices != [] then
      match FirstBetween(indices, current, target, 0)
      case Some(x) => x
      case None => target
    else target
  }

  /** The ranges of paragraphs the loop `while current_para < len(all_paragraphs)` writes from `current` on. */
  function ParagraphRanges(indices: seq<nat>, preserveChapter: bool, total: nat, n: nat, current: nat): (r: seq<Range>)
    requires n > 0 && current <= total
    ensures forall k :: 0 <= k < |r| ==> current <= r[k].start < r[k].end <= total && r[k].end - r[k].start <= n
    decreases total - current
  {
    if current == total then []
    else
      var c := ParagraphCut(indices, preserveChapter, current, total, n);
      [Range(current, c)] + ParagraphRanges(indices, preserveChapter, total, n, c)
  }

  /** The ranges tile the paragraphs from `current` to the end: non-empty, back to back, none left out. */
  lemma {:induction false} ParagraphRangesTile(indices: seq<nat>, preserveChapter: bool, total: nat, n: nat, current: nat)
    requires n > 0 && current <= total
    ensures Tiles(ParagraphRanges(indices, preserveChapter, total, n, current), current, total)
    decreases total - current
  {
    if current < total {
      var c := ParagraphCut(indices, preserveChapter, current, total, n);
      ParagraphRangesTile(indices, preserveChapter, total, n, c);
      TilesCons(Range(current, c), ParagraphRanges(indices, preserveChapter, total, n, c), total);
    }
  }

  /** One turn of the loop: the first range ends at the cut, and the rest start there. */
  lemma ParagraphRangesStep(indices: seq<nat>, preserveChapter: bool, total: nat, n: nat, current: nat)
    requires n > 0 && current < total
    ensures var c := ParagraphCut(indices, preserveChapter, current, total, n);
            ParagraphRanges(indices, preserveChapter, total, n, current)
            == [Range(current, c)] + ParagraphRanges(indices, preserveChapter, total, n, c)
  {
  }

  /** Without chapter preservation the ranges are the fixed windows of `n` paragraphs. */
  lemma {:induction false} ParagraphRangesFixed(indices: seq<nat>, total: nat, n: nat, current: nat)
    requires n > 0 && current <= total
    ensures ParagraphRanges(indices, false, total, n, current) == WindowsFrom(current, total, n)
    decreases total - current
  {
    if current < total {
      var c := Min(current + n, total);
      if c < total {
        ParagraphRangesFixed(indices, total, n, c);
        assert c == current + n;
      } else {
        assert WindowsFrom(current + n, total, n) == [];
      }
    }
  }

  /** With chapter preservation over increasing heading indices, no heading lies strictly inside a range. */
  lemma {:induction false} NoHeadingInside(indices: seq<nat>, total: nat, n: nat, current: nat)
    requires n > 0 && current <= total && StrictlyIncreasing(indices)
    ensures forall k, j :: 0 <= k < |ParagraphRanges(indices, true, total, n, current)|
              && ParagraphRanges(indices, true, total, n, current)[k].start < j < ParagraphRanges(indices, true, total, n, current)[k].end
              ==> j !in indices
    decreases total - current
  {
    if current < total {
      var c := ParagraphCut(indices, true, current, total, n);
      var rest := ParagraphRanges(indices, true, total, n, c);
      var rs := ParagraphRanges(indices, true, total, n, current);
      NoHeadingInside(indices, total, n, c);
      assert rs == [Range(current, c)] + rest;
      var target := Min(current + n, total);
      FirstBetweenIsLeast(indices, current, target, 0);
      forall i | 0 <= i < |indices| ensures !(current < indices[i] < c) {
      }
      forall k, j | 0 <= k < |rs| && rs[k].start < j < rs[k].end ensures j !in indices {
        if k > 0 {
          assert rs[k] == rest[k - 1];
        }
      }
    }
  }

  /** With chapter preservation, every heading after the first paragraph starts a part. */
  lemma HeadingStartsPart(indices: seq<nat>, total: nat, n: nat, x: nat)
    requires n > 0 && StrictlyIncreasing(indices)
    requires x in indices && 0 < x < total
    ensures exists k :: 0 <= k < |ParagraphRanges(indices, true, total, n, 0)|
                        && ParagraphRanges(indices, true, total, n, 0)[k].start == x
  {
    var rs := ParagraphRanges(indices, true, total, n, 0);
    ParagraphRangesTile(indices, true, total, n, 0);
    TilesCover(rs, 0, total, x);
    NoHeadingInside(indices, total, n, 0);
    var k :| 0 <= k < |rs| && rs[k].start <= x < rs[k].end;
    assert rs[k].start == x;
  }

  /** The heading indices a split uses: computed only when chapters are kept. */
  function SplitIndices(paragraphs: seq<Paragraph>, preserveChapter: bool): seq<nat> {
    if preserveChapter then HeadingIndices(paragraphs) else []
  }

  /** The paragraph ranges of a split of a document with more than `n` paragraphs. */
  function SplitRanges(paragraphs: seq<Paragraph>, n: nat, preserveChapter: bool): (r: seq<Range>)
    requires n > 0
    ensures forall k :: 0 <= k < |r| ==> r[k].start <= r[k].end <= |paragraphs|
  {
    ParagraphRanges(SplitIndices(paragraphs, preserveChapter), preserveChapter, |paragraphs|, n, 0)
  }

  /** The paragraphs of each part. */
  function ParagraphParts(paragraphs: seq<Paragraph>, n: nat, preserveChapter: bool): seq<seq<Paragraph>>
    requires n > 0
  {
    Slices(paragraphs, SplitRanges(paragraphs, n, preserveChapter))
  }

  /** Each part written as a document of its paragraphs (styles kept) and no table. */
  function PartDocuments(parts: seq<seq<Paragraph>>): (r: seq<WordDocument>)
    ensures |r| == |parts| && forall k :: 0 <= k < |parts| ==> r[k] == WordDocument(parts[k], [])
  {
    seq(|parts|, k requires 0 <= k < |parts| => WordDocument(parts[k], []))
  }

  /** The documents a paragraph split writes: a plain copy when the paragraphs fit, else one document per range. */
  function ParagraphSplitDocs(doc: WordDocument, n: nat, preserveChapter: bool): seq<WordDocument>
    requires n > 0
  {
    if |doc.paragraphs| <= n then [PlainCopy(doc)]
    else PartDocuments(ParagraphParts(doc.paragraphs, n, preserveChapter))
  }

  /** The loop `for i in range(current_para, end_para)` copying each paragraph's text and, when it has one, its style. */
  method CopyParagraphs(paragraphs: seq<Paragraph>, start: nat, end: nat) returns (part: seq<Paragraph>)
    requires start <= end <= |paragraphs|
    ensures part == paragraphs[start..end]
  {
    part := [];
    for i := start to end
      invariant part == paragraphs[start..i]
    {
      var para := paragraphs[i];
      var newPara := Paragraph(para.text, None);
      if para.style.Some? {
        newPara := newPara.(style := para.style);
      }
      part := part + [newPara];
    }
  }

  /**
   * `split_by_paragraphs`: the checks, then a plain copy when the paragraphs
   * fit, else the ranges of at most `n` paragraphs written as documents; with
   * `preserve_chapter` a range also ends before the first heading inside it.
   */
  method SplitByParagraphs(inputPath: string, present: bool, doc: WordDocument, parasPerSplit: SplitValue, preserveChapter: bool)
    returns (r: Result<seq<OutputFile<WordDocument>>>)
    ensures r.Err? <==> CheckSplitInput(inputPath, present, ".docx", parasPerSplit).Some?
    ensures r.Err? ==> Some(r.error) == CheckSplitInput(inputPath, present, ".docx", parasPerSplit)
    ensures r.Ok? ==> parasPerSplit.IsInt() && parasPerSplit.AsInt() > 0
                      && Paths(r.value) == PartPaths(inputPath, ".docx", |r.value|)
                      && Contents(r.value) == ParagraphSplitDocs(doc, parasPerSplit.AsInt(), preserveChapter)
  {
    var check := CheckSplitInput(inputPath, present, ".docx", parasPerSplit);
    if check.Some? {
      return Err(check.value);
    }
    var n := parasPerSplit.AsInt();
    var allParagraphs := doc.paragraphs;
    if |allParagraphs| <= n {
      var outputPath := GenerateOutputFilename(inputPath, 1, Some(".docx"));
      var copy := CopyTexts(doc);
      return Ok([OutputFile(outputPath, copy)]);
    }
    var indices: seq<nat> := [];
    if preserveChapter {
      var chapterParas := FindParagraphChapterPositions(allParagraphs);
      indices := Ats(chapterParas);
    }
    var outputs := WriteParagraphRanges(inputPath, allParagraphs, indices, preserveChapter, n);
    return Ok(outputs);
  }

  /** The loop `while current_para < len(all_paragraphs)`: each range is cut, copied and written as part 1, 2, ... */
  method WriteParagraphRanges(inputPath: string, paragraphs: seq<Paragraph>, indices: seq<nat>, preserveChapter: bool, n: nat)
    returns (outputs: seq<OutputFile<WordDocument>>)
    requires n > 0
    ensures Paths(outputs) == PartPaths(inputPath, ".docx", |outputs|)
    ensures Contents(outputs) == PartDocuments(Slices(paragraphs, ParagraphRanges(indices, preserveChapter, |paragraphs|, n, 0)))
  {
    var total := |paragraphs|;
    ghost var ranges := ParagraphRanges(indices, preserveChapter, total, n, 0);
    ghost var docs := PartDocuments(Slices(paragraphs, ranges));
    outputs := [];
    var partNum := 1;
    var currentPara: nat := 0;
    while currentPara < total
      invariant currentPara <= total && partNum == |outputs| + 1 && |outputs| <= |ranges|
      invariant ranges[|outputs|..] == ParagraphRanges(indices, preserveChapter, total, n, currentPara)
      invariant Paths(outputs) == PartPaths(inputPath, ".docx", |outputs|)
      invariant Contents(outputs) == docs[..|outputs|]
      decreases total - currentPara
    {
      var targetEndPara := Min(currentPara + n, total);
      var endPara := targetEndPara;
      if preserveChapter && indices != [] {
        var nextChapterPara := FindNextChapter(indices, currentPara, targetEndPara);
        if nextChapterPara.Some? {
          endPara := nextChapterPara.value;
        }
      }
      assert endPara == ParagraphCut(indices, preserveChapter, currentPara, total, n);
      var outputPath := GenerateOutputFilename(inputPath, partNum, Some(".docx"));
      var part := CopyParagraphs(paragraphs, currentPara, endPara);
      var o := OutputFile(outputPath, WordDocument(part, []));
      RangeWriteStep(inputPath, paragraphs, indices, preserveChapter, n, outputs, currentPara, o);
      outputs := outputs + [o];
      partNum := partNum + 1;
      currentPara := endPara;
    }
    assert docs[..|outputs|] == docs;
  }

  /** Writing the range that starts at `current` keeps the invariant of the loop writing the ranges in order. */
  lemma RangeWriteStep(inputPath: string, paragraphs: seq<Paragraph>, indices: seq<nat>, preserveChapter: bool, n: nat,
                       outputs: seq<OutputFile<WordDocument>>, current: nat, o: OutputFile<WordDocument>)
    requires n > 0 && current < |paragraphs|
    requires var ranges := ParagraphRanges(indices, preserveChapter, |paragraphs|, n, 0);
             |outputs| <= |ranges| && ranges[|outputs|..] == ParagraphRanges(indices, preserveChapter, |paragraphs|, n, current)
    requires Paths(outputs) == PartPaths(inputPath, ".docx", |outputs|)
    requires Contents(outputs) == PartDocuments(Slices(paragraphs, ParagraphRanges(indices, preserveChapter, |paragraphs|, n, 0)))[..|outputs|]
    requires o == OutputFile(GenerateOutputFilename(inputPath, |outputs| + 1, Some(".docx")),
                             WordDocument(paragraphs[current..ParagraphCut(indices, preserveChapter, current, |paragraphs|, n)], []))
    ensures var ranges := ParagraphRanges(indices, preserveChapter, |paragraphs|, n, 0);
            var c := ParagraphCut(indices, preserveChapter, current, |paragraphs|, n);
            |outputs| + 1 <= |ranges| && ranges[|outputs| + 1..] == ParagraphRanges(indices, preserveChapter, |paragraphs|, n, c)
    ensures Paths(outputs + [o]) == PartPaths(inputPath, ".docx", |outputs| + 1)
    ensures Contents(outputs + [o]) == PartDocuments(Slices(paragraphs, ParagraphRanges(indices, preserveChapter, |paragraphs|, n, 0)))[..|outputs| + 1]
  {
    var ranges := ParagraphRanges(indices, preserveChapter, |paragraphs|, n, 0);
    var docs := PartDocuments(Slices(paragraphs, ranges));
    var i := |outputs|;
    ParagraphRangesStep(indices, preserveChapter, |paragraphs|, n, current);
    assert ranges[i] == ranges[i..][0];
    assert ranges[i + 1..] == ranges[i..][1..];
    SliceAt(paragraphs, ranges, i);
    WriteStep(inputPath, ".docx", docs, outputs, o);
  }

  /** Part `k` holds the paragraphs of range `k`. */
  lemma ParagraphPartAt(paragraphs: seq<Paragraph>, n: nat, preserveChapter: bool, k: nat)
    requires n > 0 && k < |SplitRanges(paragraphs, n, preserveChapter)|
    ensures ParagraphParts(paragraphs, n, preserveChapter)[k]
            == paragraphs[SplitRanges(paragraphs, n, preserveChapter)[k].start..SplitRanges(paragraphs, n, preserveChapter)[k].end]
  {
    SliceAt(paragraphs, SplitRanges(paragraphs, n, preserveChapter), k);
  }

  /**
   * The ranges of a paragraph split tile the paragraphs, so the parts put back
   * together give every paragraph once, in order.
   */
  lemma ParagraphSplitCovers(paragraphs: seq<Paragraph>, n: nat, preserveChapter: bool)
    requires n > 0
    ensures Tiles(SplitRanges(paragraphs, n, preserveChapter), 0, |paragraphs|)
    ensures Concat(ParagraphParts(paragraphs, n, preserveChapter)) == paragraphs
  {
    ParagraphRangesTile(SplitIndices(paragraphs, preserveChapter), preserveChapter, |paragraphs|, n, 0);
    ConcatSlices(paragraphs, SplitRanges(paragraphs, n, preserveChapter), 0, |paragraphs|);
    assert paragraphs[0..|paragraphs|] == paragraphs;
  }

  /** Each part of a paragraph split is non-empty and holds at most `n` paragraphs. */
  lemma ParagraphPartSizes(paragraphs: seq<Paragraph>, n: nat, preserveChapter: bool)
    requires n > 0
    ensures forall k :: 0 <= k < |ParagraphParts(paragraphs, n, preserveChapter)| ==>
              0 < |ParagraphParts(paragraphs, n, preserveChapter)[k]| <= n
  {
    var parts := ParagraphParts(paragraphs, n, preserveChapter);
    forall k | 0 <= k < |parts| ensures 0 < |parts[k]| <= n {
      ParagraphPartAt(paragraphs, n, preserveChapter, k);
    }
  }

  /** Without chapter preservation the parts are the fixed chunks of `n` paragraphs. */
  lemma ParagraphSplitFixed(paragraphs: seq<Paragraph>, n: nat)
    requires n > 0
    ensures ParagraphParts(paragraphs, n, false) == Chunks(paragraphs, n)
  {
    ParagraphRangesFixed([], |paragraphs|, n, 0);
  }

  /** With chapter preservation, a heading paragraph can only be the first paragraph of its part. */
  lemma ParagraphSplitKeepsChapters(paragraphs: seq<Paragraph>, n: nat, k: nat, j: nat)
    requires n > 0 && k < |ParagraphParts(paragraphs, n, true)|
    requires 0 < j < |ParagraphParts(paragraphs, n, true)[k]|
    ensures !IsAnyTitle(ParagraphParts(paragraphs, n, true)[k][j].text)
  {
    var indices := HeadingIndices(paragraphs);
    var rs := SplitRanges(paragraphs, n, true);
    HeadingIndicesExact(paragraphs);
    assert rs == ParagraphRanges(indices, true, |paragraphs|, n, 0);
    ParagraphPartAt(paragraphs, n, true, k);
    var part := ParagraphParts(paragraphs, n, true)[k];
    var p := rs[k].start + j;
    assert part[j] == paragraphs[rs[k].start..rs[k].end][j];
    NoHeadingInside(indices, |paragraphs|, n, 0);
    assert p !in indices;
  }

  /** With chapter preservation, each heading paragraph after the first paragraph begins a part. */
  lemma HeadingParagraphStartsPart(paragraphs: seq<Paragraph>, n: nat, j: nat)
    requires n > 0 && 0 < j < |paragraphs| && IsAnyTitle(paragraphs[j].text)
    ensures exists k :: 0 <= k < |SplitRanges(paragraphs, n, true)| && SplitRanges(paragraphs, n, true)[k].start == j
  {
    HeadingIndicesExact(paragraphs);
    assert SplitRanges(paragraphs, n, true) == ParagraphRanges(HeadingIndices(paragraphs), true, |paragraphs|, n, 0);
    HeadingStartsPart(HeadingIndices(paragraphs), |paragraphs|, n, j);
  }

  /* ---------- Merging documents ---------- */

  /** The paragraphs a merge keeps from a document: those whose stripped text is not empty, in order. */
  function KeptParagraphs(ps: seq<Paragraph>): (r: seq<Paragraph>)
    ensures |r| <= |ps|
  {
    if ps == [] then []
    else
      var last := ps[|ps| - 1];
      KeptParagraphs(ps[..|ps| - 1]) + (if Strip(last.text) != [] then [last] else [])
  }

  /** A merge keeps exactly the non-blank paragraphs: every one it keeps is one, and it keeps every one. */
  lemma {:induction false} KeptParagraphsExact(ps: seq<Paragraph>)
    ensures forall k :: 0 <= k < |KeptParagraphs(ps)| ==> Strip(KeptParagraphs(ps)[k].text) != [] && KeptParagraphs(ps)[k] in ps
    ensures forall j :: 0 <= j < |ps| && Strip(ps[j].text) != [] ==> ps[j] in KeptParagraphs(ps)
    decreases |ps|
  {
    if ps != [] {
      var init := ps[..|ps| - 1];
      KeptParagraphsExact(init);
      assert forall j :: 0 <= j < |init| ==> init[j] == ps[j];
    }
  }

  /** Keeping the non-blank paragraphs of two runs one after the other is keeping those of each, in order. */
  lemma {:induction false} KeptParagraphsAppend(a: seq<Paragraph>, b: seq<Paragraph>)
    ensures KeptParagraphs(a + b) == KeptParagraphs(a) + KeptParagraphs(b)
    decreases |b|
  {
    if b == [] {
      assert a + b == a;
    } else {
      var init := b[..|b| - 1];
      var last := b[|b| - 1];
      assert (a + b)[..|a + b| - 1] == a + init;
      KeptParagraphsAppend(a, init);
    }
  }

  /** A document without blank paragraphs is merged whole. */
  lemma {:induction false} KeptParagraphsNoBlank(ps: seq<Paragraph>)
    requires forall j :: 0 <= j < |ps| ==> Strip(ps[j].text) != []
    ensures KeptParagraphs(ps) == ps
    decreases |ps|
  {
    if ps != [] {
      var init := ps[..|ps| - 1];
      KeptParagraphsNoBlank(init);
      assert ps == init + [ps[|ps| - 1]];
    }
  }

  /** The paragraphs of a merge: each input's kept paragraphs, input after input. */
  function MergedParagraphs(files: seq<InputFile<WordDocument>>): seq<Paragraph> {
    if files == [] then []
    else MergedParagraphs(files[..|files| - 1]) + KeptParagraphs(files[|files| - 1].content.paragraphs)
  }

  /** The tables of a merge: each input's tables, input after input. */
  function MergedTables(files: seq<InputFile<WordDocument>>): seq<Table> {
    if files == [] then []
    else MergedTables(files[..|files| - 1]) + files[|files| - 1].content.tables
  }

  /** The document `merge_docs` writes. */
  function MergedDocument(files: seq<InputFile<WordDocument>>): WordDocument {
    WordDocument(MergedParagraphs(files), MergedTables(files))
  }

  /** Every paragraph of the inputs, input after input. */
  function AllParagraphs(files: seq<InputFile<WordDocument>>): (r: seq<Paragraph>)
    ensures files != [] ==> r == AllParagraphs(files[..|files| - 1]) + files[|files| - 1].content.paragraphs
  {
    if files == [] then []
    else AllParagraphs(files[..|files| - 1]) + files[|files| - 1].content.paragraphs
  }

  /** Merging keeps, in order, exactly the non-blank paragraphs of all inputs taken together. */
  lemma {:induction false} MergedParagraphsFilter(files: seq<InputFile<WordDocument>>)
    ensures MergedParagraphs(files) == KeptParagraphs(AllParagraphs(files))
    decreases |files|
  {
    if files != [] {
      var init := files[..|files| - 1];
      MergedParagraphsFilter(init);
      KeptParagraphsAppend(AllParagraphs(init), files[|files| - 1].content.paragraphs);
    }
  }

  /** The loop `for paragraph in doc.paragraphs: if paragraph.text.strip(): ...` adding a copy (text and style) of each non-blank paragraph. */
  method AppendKept(merged: seq<Paragraph>, ps: seq<Paragraph>) returns (r: seq<Paragraph>)
    ensures r == merged + KeptParagraphs(ps)
  {
    r := merged;
    for k := 0 to |ps|
      invariant r == merged + KeptParagraphs(ps[..k])
    {
      assert ps[..k + 1][..k] == ps[..k];
      var paragraph := ps[k];
      if Strip(paragraph.text) != [] {
        var newPara := Paragraph(paragraph.text, None);
        if paragraph.style.Some? {
          newPara := newPara.(style := paragraph.style);
        }
        r := r + [newPara];
      }
    }
    assert ps[..|ps|] == ps;
  }

  /** The loops over the rows and cells of a table, setting each cell of the new table to the old cell's text. */
  method CopyTable(table: Table) returns (copy: Table)
    ensures copy == table
  {
    copy := [];
    for i := 0 to |table|
      invariant copy == table[..i]
    {
      var row := table[i];
      var newRow: seq<string> := [];
      for j := 0 to |row|
        invariant newRow == row[..j]
      {
        newRow := newRow + [row[j]];
      }
      assert row[..|row|] == row;
      copy := copy + [newRow];
    }
    assert table[..|table|] == table;
  }

  /** The loop `for table in doc.tables` adding a copy of each table. */
  method AppendTables(merged: seq<Table>, tables: seq<Table>) returns (r: seq<Table>)
    ensures r == merged + tables
  {
    r := merged;
    for t := 0 to |tables|
      invariant r == merged + tables[..t]
    {
      var newTable := CopyTable(tables[t]);
      assert tables[..t + 1] == tables[..t] + [tables[t]];
      r := r + [newTable];
    }
    assert tables[..|tables|] == tables;
  }

  /** One more input adds its kept paragraphs and its tables after those of the inputs before it. */
  lemma MergeStep(files: seq<InputFile<WordDocument>>, i: nat)
    requires i < |files|
    ensures MergedParagraphs(files[..i + 1]) == MergedParagraphs(files[..i]) + KeptParagraphs(files[i].content.paragraphs)
    ensures MergedTables(files[..i + 1]) == MergedTables(files[..i]) + files[i].content.tables
  {
    assert files[..i + 1][..i] == files[..i];
  }

  /**
   * `merge_docs`: a non-empty list, every input present and of type `.docx`
   * (the first failure is raised), an output path (without one the call
   * fails, as the naming helper it calls is not defined), then the merged
   * document.
   */
  method MergeDocs(files: seq<InputFile<WordDocument>>, outputPath: Option<string>) returns (r: Result<OutputFile<WordDocument>>)
    ensures files == [] ==> r == Err(EmptyFileList)
    ensures files != [] && FirstInvalid(files, ".docx", 0).Some? ==> r == Err(FirstInvalid(files, ".docx", 0).value)
    ensures files != [] && FirstInvalid(files, ".docx", 0).None? && outputPath.None? ==> r == Err(NoMergeNameHelper)
    ensures r.Ok? <==> files != [] && FirstInvalid(files, ".docx", 0).None? && outputPath.Some?
    ensures r.Ok? ==> r.value == OutputFile(outputPath.value, MergedDocument(files))
  {
    if files == [] {
      return Err(EmptyFileList);
    }
    var error := ValidateInputs(files, ".docx");
    if error.Some? {
      return Err(error.value);
    }
    if outputPath.None? {
      return Err(NoMergeNameHelper);
    }
    var paragraphs: seq<Paragraph> := [];
    var tables: seq<Table> := [];
    for i := 0 to |files|
      invariant paragraphs == MergedParagraphs(files[..i])
      invariant tables == MergedTables(files[..i])
    {
      MergeStep(files, i);
      var doc := files[i].content;
      paragraphs := AppendKept(paragraphs, doc.paragraphs);
      tables := AppendTables(tables, doc.tables);
    }
    assert files[..|files|] == files;
    return Ok(OutputFile(outputPath.value, WordDocument(paragraphs, tables)));
  }
}
