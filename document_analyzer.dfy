/**
 * DocumentAnalyzer: the character and page counts of PDF, Word and text
 * files, and the box-drawn table that lists them. A file is given by its
 * path, whether it exists, and what the reader for its extension finds in it.
 */
module DocumentAnalyzer {
  import opened Strings
  import opened Documents
  import opened FileHandler
  import opened WordSplitter
  import opened PdfSplitter

  /** What a file holds, as the library that reads it sees it. */
  datatype FileData =
    | PdfData(pages: seq<PdfPage>)
    | WordData(doc: WordDocument)
    | TextData(utf8: Option<string>, gbk: Option<string>)  // the text decoded as UTF-8 and as GBK; None where decoding fails
    | Unreadable                                           // the reader for the file's extension cannot open it

  /** The page column of a result: a count, or `'-'` for a text file. */
  datatype PageCount = Counted(pages: nat) | NoCount

  /** The `info` dictionary of one file. */
  datatype FileInfo = FileInfo(fileName: string, charCount: nat, pageCount: PageCount)

  /* ---------- Counting ---------- */

  /** The Word page estimate `max(1, (total_chars + 1999) // 2000)`: the least number of 2000-character pages that holds the text, and at least one. */
  function EstimatedPages(totalChars: nat): (r: nat)
    ensures r >= 1
    ensures totalChars <= r * 2000
    ensures r == 1 || (r - 1) * 2000 < totalChars
  {
    var pages := (totalChars + 1999) / 2000;
    if pages < 1 then 1 else pages
  }

  /** The characters of a PDF: the length of every page's extracted text, or None when a page's text cannot be extracted. */
  function PdfChars(pages: seq<PdfPage>): Option<nat> {
    if pages == [] then Some(0)
    else
      match PdfChars(pages[..|pages| - 1])
      case None => None
      case Some(c) =>
        match pages[|pages| - 1].text
        case ExtractionFails => None
        case Extracted(s) => Some(c + |s|)
  }

  /**
   * The analyzer counts exactly what the PDF splitter extracts, less the
   * newline the splitter adds after each page, and fails on the same PDFs.
   */
  lemma {:induction false} PdfCharsMatchText(pages: seq<PdfPage>)
    ensures PdfChars(pages).Some? <==> ExtractText(pages).Ok?
    ensures PdfChars(pages).Some? ==> PdfChars(pages).value + |pages| == |ExtractText(pages).value|
    decreases |pages|
  {
    if pages != [] {
      var init := pages[..|pages| - 1];
      assert forall j :: 0 <= j < |init| ==> init[j] == pages[j];
      PdfCharsMatchText(init);
    }
  }

  /** `count_chars_and_pages_in_pdf`: the page count, and the loop adding up the length of each page's text. */
  method CountPdf(path: string, pages: seq<PdfPage>) returns (r: Result<(nat, nat)>)
    ensures r.Ok? <==> PdfChars(pages).Some?
    ensures r.Ok? ==> r.value == (PdfChars(pages).value, |pages|)
    ensures r.Err? ==> r.error == ReadFailed(path)
  {
    var totalChars: nat := 0;
    var totalPages: nat := |pages|;
    for k := 0 to |pages|
      invariant PdfChars(pages[..k]) == Some(totalChars)
    {
      assert pages[..k + 1][..k] == pages[..k];
      match pages[k].text
      case ExtractionFails =>
        PdfCharsFails(pages, k + 1);
        return Err(ReadFailed(path));
      case Extracted(s) =>
        totalChars := totalChars + |s|;
    }
    assert pages[..|pages|] == pages;
    return Ok((totalChars, totalPages));
  }

  /** Once a prefix of the pages cannot be counted, neither can the whole PDF. */
  lemma {:induction false} PdfCharsFails(pages: seq<PdfPage>, k: nat)
    requires k <= |pages| && PdfChars(pages[..k]).None?
    ensures PdfChars(pages).None?
    decreases |pages| - k
  {
    if k < |pages| {
      assert pages[..k + 1][..k] == pages[..k];
      PdfCharsFails(pages, k + 1);
    } else {
      assert pages[..k] == pages;
    }
  }

  /** The characters of a Word document: every paragraph's text and every table cell's text. */
  function WordChars(doc: WordDocument): nat {
    TotalLength(FullText(doc))
  }

  /**
   * The Word count is the length of the text the Word splitter joins, less
   * the newlines that join its pieces.
   */
  lemma WordCharsMatchText(doc: WordDocument)
    ensures FullText(doc) == [] ==> WordChars(doc) == |TextOf(doc)| == 0
    ensures FullText(doc) != [] ==> WordChars(doc) + |FullText(doc)| - 1 == |TextOf(doc)|
  {
    JoinLength(FullText(doc), "\n");
  }

  /** The loop `for cell in row.cells: total_chars += len(cell.text)`. */
  method AddCells(total: nat, row: seq<string>) returns (r: nat)
    ensures r == total + TotalLength(row)
  {
    r := total;
    for c := 0 to |row|
      invariant r == total + TotalLength(row[..c])
    {
      TotalLengthSnoc(row[..c], row[c]);
      assert row[..c + 1] == row[..c] + [row[c]];
      r := r + |row[c]|;
    }
    assert row[..|row|] == row;
  }

  /** The loop `for row in table.rows`, adding the cells of each row. */
  method AddTable(total: nat, table: Table) returns (r: nat)
    ensures r == total + TotalLength(Concat(table))
  {
    r := total;
    for ri := 0 to |table|
      invariant r == total + TotalLength(Concat(table[..ri]))
    {
      r := AddCells(r, table[ri]);
      assert table[..ri + 1] == table[..ri] + [table[ri]];
      ConcatSnoc(table[..ri], table[ri]);
      TotalLengthAppend(Concat(table[..ri]), table[ri]);
    }
    assert table[..|table|] == table;
  }

  /** `count_chars_and_pages_in_word`: the paragraph loop, the table loop, then the page estimate. */
  method CountWord(doc: WordDocument) returns (chars: nat, pages: nat)
    ensures chars == WordChars(doc)
    ensures pages == EstimatedPages(chars)
  {
    var totalChars: nat := 0;
    for k := 0 to |doc.paragraphs|
      invariant totalChars == TotalLength(ParagraphTexts(doc.paragraphs[..k]))
    {
      assert doc.paragraphs[..k + 1] == doc.paragraphs[..k] + [doc.paragraphs[k]];
      ParagraphTextsSnoc(doc.paragraphs[..k], doc.paragraphs[k]);
      TotalLengthSnoc(ParagraphTexts(doc.paragraphs[..k]), doc.paragraphs[k].text);
      totalChars := totalChars + |doc.paragraphs[k].text|;
    }
    assert doc.paragraphs[..|doc.paragraphs|] == doc.paragraphs;
    ghost var paragraphChars := totalChars;
    for t := 0 to |doc.tables|
      invariant totalChars == paragraphChars + TotalLength(Concat(Concat(doc.tables[..t])))
    {
      totalChars := AddTable(totalChars, doc.tables[t]);
      TablesStep(doc.tables, t);
    }
    assert doc.tables[..|doc.tables|] == doc.tables;
    TotalLengthAppend(ParagraphTexts(doc.paragraphs), Concat(Concat(doc.tables)));
    chars := totalChars;
    pages := EstimatedPages(totalChars);
  }

  /** One more table adds the length of its cells. */
  lemma TablesStep(tables: seq<Table>, t: nat)
    requires t < |tables|
    ensures TotalLength(Concat(Concat(tables[..t + 1])))
            == TotalLength(Concat(Concat(tables[..t]))) + TotalLength(Concat(tables[t]))
  {
    assert tables[..t + 1] == tables[..t] + [tables[t]];
    ConcatSnoc(tables[..t], tables[t]);
    ConcatSplit(Concat(tables[..t]), tables[t]);
    TotalLengthAppend(Concat(Concat(tables[..t])), Concat(tables[t]));
  }

  /** `count_chars_in_txt`: the length of the text read as UTF-8, or else as GBK, or None when neither decodes. */
  function TxtChars(utf8: Option<string>, gbk: Option<string>): (r: Option<nat>)
    ensures r.None? <==> utf8.None? && gbk.None?
    ensures utf8.Some? ==> r == Some(|utf8.value|)
    ensures utf8.None? && gbk.Some? ==> r == Some(|gbk.value|)
  {
    match utf8
    case Some(text) => Some(|text|)
    case None =>
      match gbk
      case Some(text) => Some(|text|)
      case None => None
  }

  /* ---------- One file ---------- */

  /**
   * `get_file_info`: the name, then by the lower-cased extension the PDF
   * counts (characters and pages), the Word counts (characters and the page
   * estimate) or the text count (characters, page column `'-'`); any other
   * extension, Markdown included, is refused, and a reader that fails makes
   * the whole call fail.
   */
  function FileInfoOf(path: string, data: FileData): Result<FileInfo> {
    var ext := Extension(path);
    if ext == ".pdf" then
      match data
      case PdfData(pages) =>
        (match PdfChars(pages)
         case Some(c) => Ok(FileInfo(Name(path), c, Counted(|pages|)))
         case None => Err(ReadFailed(path)))
      case _ => Err(ReadFailed(path))
    else if ext == ".docx" then
      match data
      case WordData(doc) =>
        var c := WordChars(doc);
        Ok(FileInfo(Name(path), c, Counted(EstimatedPages(c))))
      case _ => Err(ReadFailed(path))
    else if ext == ".txt" then
      match data
      case TextData(utf8, gbk) =>
        (match TxtChars(utf8, gbk)
         case Some(c) => Ok(FileInfo(Name(path), c, NoCount))
         case None => Err(ReadFailed(path)))
      case _ => Err(ReadFailed(path))
    else Err(UnsupportedFormat(ext))
  }

  /** The extensions `get_file_info` counts. */
  predicate Countable(ext: string) {
    ext == ".pdf" || ext == ".docx" || ext == ".txt"
  }

  /**
   * An extension other than the three is refused with that extension; with
   * one of them the only error is a failed read.
   */
  lemma FileInfoOfErrors(path: string, data: FileData)
    ensures !Countable(Extension(path)) ==> FileInfoOf(path, data) == Err(UnsupportedFormat(Extension(path)))
    ensures Countable(Extension(path)) && FileInfoOf(path, data).Err? ==> FileInfoOf(path, data) == Err(ReadFailed(path))
  {
  }

  /** A result names the file, and has a page column exactly when the file is not a text file. */
  lemma FileInfoOfFacts(path: string, data: FileData)
    requires FileInfoOf(path, data).Ok?
    ensures Countable(Extension(path))
    ensures FileInfoOf(path, data).value.fileName == Name(path)
    ensures FileInfoOf(path, data).value.pageCount.NoCount? <==> Extension(path) == ".txt"
  {
    var ext := Extension(path);
    if ext == ".pdf" {
      assert ext != ".txt";
    } else if ext == ".docx" {
      assert ext != ".txt";
    }
  }

  /** A Word result's page column is the estimate from its characters; a PDF result's is the page count. */
  lemma FileInfoOfPages(path: string, data: FileData)
    requires FileInfoOf(path, data).Ok?
    ensures Extension(path) == ".docx" ==>
              data.WordData?
              && FileInfoOf(path, data).value == FileInfo(Name(path), WordChars(data.doc), Counted(EstimatedPages(WordChars(data.doc))))
    ensures Extension(path) == ".pdf" ==>
              data.PdfData? && PdfChars(data.pages).Some?
              && FileInfoOf(path, data).value == FileInfo(Name(path), PdfChars(data.pages).value, Counted(|data.pages|))
    ensures Extension(path) == ".txt" ==>
              data.TextData? && TxtChars(data.utf8, data.gbk).Some?
              && FileInfoOf(path, data).value == FileInfo(Name(path), TxtChars(data.utf8, data.gbk).value, NoCount)
  {
  }

  /** `get_file_info`, calling the counting routines. */
  method GetFileInfo(path: string, data: FileData) returns (r: Result<FileInfo>)
    ensures r == FileInfoOf(path, data)
  {
    var ext := Extension(path);
    if ext == ".pdf" {
      if !data.PdfData? {
        return Err(ReadFailed(path));
      }
      var counts := CountPdf(path, data.pages);
      if counts.Err? {
        return Err(counts.error);
      }
      return Ok(FileInfo(Name(path), counts.value.0, Counted(counts.value.1)));
    } else if ext == ".docx" {
      if !data.WordData? {
        return Err(ReadFailed(path));
      }
      var chars, pages := CountWord(data.doc);
      return Ok(FileInfo(Name(path), chars, Counted(pages)));
    } else if ext == ".txt" {
      if !data.TextData? {
        return Err(ReadFailed(path));
      }
      var chars := TxtChars(data.utf8, data.gbk);
      if chars.None? {
        return Err(ReadFailed(path));
      }
      return Ok(FileInfo(Name(path), chars.value, NoCount));
    }
    return Err(UnsupportedFormat(ext));
  }

  /* ---------- Several files ---------- */

  /** The values of the present entries, in order. */
  function Somes<T>(xs: seq<Option<T>>): (r: seq<T>)
    ensures |r| <= |xs|
  {
    if xs == [] then []
    else
      var prev := Somes(xs[..|xs| - 1]);
      if xs[|xs| - 1].Some? then prev + [xs[|xs| - 1].value] else prev
  }

  /** The indices of the present entries, in order. */
  function SomeAt<T>(xs: seq<Option<T>>): (r: seq<nat>)
    ensures |r| == |Somes(xs)|
    ensures forall k :: 0 <= k < |r| ==> r[k] < |xs|
  {
    if xs == [] then []
    else
      var prev := SomeAt(xs[..|xs| - 1]);
      if xs[|xs| - 1].Some? then prev + [|xs| - 1] else prev
  }

  /** The `k`-th value kept is the entry at the `k`-th kept index. */
  lemma {:induction false} SomeAtSound<T>(xs: seq<Option<T>>)
    ensures forall k :: 0 <= k < |SomeAt(xs)| ==> xs[SomeAt(xs)[k]] == Some(Somes(xs)[k])
  {
    if xs != [] {
      var init := xs[..|xs| - 1];
      SomeAtSound(init);
      assert forall j :: 0 <= j < |init| ==> init[j] == xs[j];
    }
  }

  /** The kept indices increase, so the values keep the order of the entries. */
  lemma {:induction false} SomeAtIncreasing<T>(xs: seq<Option<T>>)
    ensures forall k, l :: 0 <= k < l < |SomeAt(xs)| ==> SomeAt(xs)[k] < SomeAt(xs)[l]
  {
    if xs != [] {
      SomeAtIncreasing(xs[..|xs| - 1]);
    }
  }

  /** Every present entry is kept. */
  lemma {:induction false} SomeAtComplete<T>(xs: seq<Option<T>>)
    ensures forall j :: 0 <= j < |xs| && xs[j].Some? ==> j in SomeAt(xs)
  {
    if xs != [] {
      var init := xs[..|xs| - 1];
      SomeAtComplete(init);
      assert forall j :: 0 <= j < |init| ==> init[j] == xs[j];
    }
  }

  /** What `analyze_documents` makes of one file: its information when it exists and its counts succeed, else nothing. */
  function Outcome(f: InputFile<FileData>): Option<FileInfo> {
    if !f.present then None
    else
      match FileInfoOf(f.path, f.content)
      case Ok(info) => Some(info)
      case Err(_) => None
  }

  function Outcomes(files: seq<InputFile<FileData>>): (r: seq<Option<FileInfo>>)
    ensures |r| == |files| && forall j :: 0 <= j < |files| ==> r[j] == Outcome(files[j])
  {
    seq(|files|, j requires 0 <= j < |files| => Outcome(files[j]))
  }

  /** The results of `analyze_documents`: the information of every file that exists and can be counted, in order. */
  function Analyzed(files: seq<InputFile<FileData>>): seq<FileInfo> {
    Somes(Outcomes(files))
  }

  /** The indices of the files that are reported. */
  function Kept(files: seq<InputFile<FileData>>): seq<nat> {
    SomeAt(Outcomes(files))
  }

  /**
   * The results are the information of exactly the files that exist and can
   * be counted, in the order of the inputs: a missing file or a failing count
   * drops that file and nothing else.
   */
  lemma AnalyzedExact(files: seq<InputFile<FileData>>)
    ensures |Kept(files)| == |Analyzed(files)|
    ensures forall k :: 0 <= k < |Kept(files)| ==>
              Kept(files)[k] < |files| && files[Kept(files)[k]].present
              && FileInfoOf(files[Kept(files)[k]].path, files[Kept(files)[k]].content) == Ok(Analyzed(files)[k])
    ensures forall k, l :: 0 <= k < l < |Kept(files)| ==> Kept(files)[k] < Kept(files)[l]
    ensures forall j :: 0 <= j < |files| && files[j].present && FileInfoOf(files[j].path, files[j].content).Ok? ==> j in Kept(files)
  {
    var xs := Outcomes(files);
    SomeAtSound(xs);
    SomeAtIncreasing(xs);
    SomeAtComplete(xs);
    forall k | 0 <= k < |Kept(files)|
      ensures files[Kept(files)[k]].present
      ensures FileInfoOf(files[Kept(files)[k]].path, files[Kept(files)[k]].content) == Ok(Analyzed(files)[k])
    {
      var f := files[Kept(files)[k]];
      assert Outcome(f) == Some(Analyzed(files)[k]);
    }
  }

  /** One more entry adds its value, when it has one. */
  lemma SomesStep<T>(xs: seq<Option<T>>, i: nat)
    requires i < |xs|
    ensures Somes(xs[..i + 1]) == Somes(xs[..i]) + (if xs[i].Some? then [xs[i].value] else [])
  {
    assert xs[..i + 1][..i] == xs[..i];
  }

  /** `analyze_documents`: the loop that skips missing files and files whose counting fails. */
  method AnalyzeDocuments(files: seq<InputFile<FileData>>) returns (results: seq<FileInfo>)
    ensures results == Analyzed(files)
  {
    ghost var outcomes := Outcomes(files);
    results := [];
    for i := 0 to |files|
      invariant results == Somes(outcomes[..i])
    {
      SomesStep(outcomes, i);
      assert outcomes[i] == Outcome(files[i]);
      if !files[i].present {
        continue;
      }
      var info := GetFileInfo(files[i].path, files[i].content);
      if info.Ok? {
        results := results + [info.value];
      }
    }
    assert outcomes[..|files|] == outcomes;
  }

  /* ---------- The table ---------- */

  const NameWidth: nat := 30
  const CharWidth: nat := 12
  const PageWidth: nat := 8

  /** What `format_table` returns when there is nothing to list. */
  const NoResults: string := "没有找到有效的文件或所有文件都无法处理"

  /**
   * The displayed file name: names of up to 27 characters as they are, longer
   * ones cut to 27 characters followed by `...`, so a name never exceeds its column.
   */
  function ShortName(name: string): (r: string)
    ensures |r| <= NameWidth
    ensures |name| <= NameWidth - 3 ==> r == name
    ensures |name| > NameWidth - 3 ==> |r| == NameWidth && r[..NameWidth - 3] == name[..NameWidth - 3] && r[NameWidth - 3..] == "..."
  {
    if |name| > NameWidth - 3 then name[..NameWidth - 3] + "..." else name
  }

  /** Three decimal digits of `d`, with leading zeros. */
  function ThreeDigits(d: nat): (r: string)
    requires d < 1000
    ensures |r| == 3 && forall i :: 0 <= i < 3 ==> IsDigit(r[i])
  {
    [DigitChar(d / 100), DigitChar(d / 10 % 10), DigitChar(d % 10)]
  }

  /** The `{:,}` format: the decimal digits with a comma before each group of three from the right. */
  function GroupThousands(n: nat): (r: string)
    ensures r != [] && IsDigit(r[0])
    ensures forall i :: 0 <= i < |r| ==> IsDigit(r[i]) || r[i] == ','
  {
    if n < 1000 then NatToString(n) else GroupThousands(n / 1000) + "," + ThreeDigits(n % 1000)
  }

  /** The text without its commas. */
  function DropCommas(s: string): (r: string)
    ensures ',' !in r
  {
    if s == [] then [] else (if s[0] == ',' then [] else [s[0]]) + DropCommas(s[1..])
  }

  lemma {:induction false} DropCommasAppend(a: string, b: string)
    ensures DropCommas(a + b) == DropCommas(a) + DropCommas(b)
    decreases |a|
  {
    if a != [] {
      assert (a + b)[1..] == a[1..] + b;
      DropCommasAppend(a[1..], b);
    } else {
      assert a + b == b;
    }
  }

  lemma {:induction false} DropCommasDigits(s: string)
    requires forall i :: 0 <= i < |s| ==> IsDigit(s[i])
    ensures DropCommas(s) == s
    decreases |s|
  {
    if s != [] {
      DropCommasDigits(s[1..]);
    }
  }

  /** The last three digits of a number of at least four digits are those of `n % 1000`. */
  lemma NatToStringThousands(n: nat)
    requires n >= 1000
    ensures NatToString(n) == NatToString(n / 1000) + ThreeDigits(n % 1000)
  {
    ThousandsDigits(n);
    assert NatToString(n) == NatToString(n / 10) + [DigitChar(n % 10)];
    assert NatToString(n / 10) == NatToString(n / 10 / 10) + [DigitChar(n / 10 % 10)];
    assert NatToString(n / 10 / 10) == NatToString(n / 10 / 10 / 10) + [DigitChar(n / 10 / 10 % 10)];
  }

  /** The three last decimal digits of `n`, read off one division by ten at a time. */
  lemma ThousandsDigits(n: nat)
    ensures n / 10 / 10 / 10 == n / 1000
    ensures n % 1000 / 100 == n / 10 / 10 % 10
    ensures n % 1000 / 10 % 10 == n / 10 % 10
    ensures n % 1000 % 10 == n % 10
  {
    var q, r := n / 1000, n % 1000;
    assert n == 1000 * q + r;
    assert n / 10 == 100 * q + r / 10;
    assert n / 10 / 10 == 10 * q + r / 100;
  }

  /** Removing the thousands separators gives `str(n)` back. */
  lemma {:induction false} GroupThousandsDigits(n: nat)
    ensures DropCommas(GroupThousands(n)) == NatToString(n)
    decreases n
  {
    if n < 1000 {
      DropCommasDigits(NatToString(n));
    } else {
      var head := GroupThousands(n / 1000);
      var tail := ThreeDigits(n % 1000);
      assert GroupThousands(n) == head + "," + tail;
      GroupThousandsDigits(n / 1000);
      DropCommasAppend(head + ",", tail);
      DropCommasAppend(head, ",");
      assert DropCommas(",") == [];
      DropCommasDigits(tail);
      NatToStringThousands(n);
    }
  }

  /** So the grouped count, read without its separators, is the count. */
  lemma GroupThousandsReads(n: nat)
    ensures DropCommas(GroupThousands(n)) == NatToString(n)
    ensures ParseNat(DropCommas(GroupThousands(n))) == n
  {
    GroupThousandsDigits(n);
    ParseNatToString(n);
  }

  /** `str(page_count)`: the count, or `-`. */
  function PageText(p: PageCount): (r: string)
    ensures p.NoCount? ==> r == "-"
    ensures p.Counted? ==> r == NatToString(p.pages)
  {
    match p
    case Counted(n) => NatToString(n)
    case NoCount => "-"
  }

  /** The horizontal rule between the corners of a border line. */
  function Separator(): string {
    Repeat('─', NameWidth) + "─┼─" + Repeat('─', CharWidth) + "─┼─" + Repeat('─', PageWidth)
  }

  /** The column titles, padded to their widths. */
  function Header(): string {
    PadRight("文件名", NameWidth) + " │ " + PadLeft("字符数", CharWidth) + " │ " + PadLeft("页数", PageWidth)
  }

  /** The table line of one file. */
  function Row(info: FileInfo): string {
    "│ " + PadRight(ShortName(info.fileName), NameWidth) + " │ " + PadLeft(GroupThousands(info.charCount), CharWidth)
    + " │ " + PadLeft(PageText(info.pageCount), PageWidth) + " │"
  }

  /** The table lines of the results, in order. */
  function Rows(results: seq<FileInfo>): (r: seq<string>)
    ensures |r| == |results|
  {
    if results == [] then [] else Rows(results[..|results| - 1]) + [Row(results[|results| - 1])]
  }

  /** The `k`-th line of the rows is the line of the `k`-th result. */
  lemma {:induction false} RowsAt(results: seq<FileInfo>, k: nat)
    requires k < |results|
    ensures Rows(results)[k] == Row(results[k])
    decreases |results|
  {
    if k < |results| - 1 {
      var init := results[..|results| - 1];
      RowsAt(init, k);
    }
  }

  function TopBorder(): string {
    "┌" + Separator() + "┐"
  }

  function HeaderLine(): string {
    "│ " + Header() + " │"
  }

  function MiddleBorder(): string {
    "├" + Separator() + "┤"
  }

  function BottomBorder(): string {
    "└" + Separator() + "┘"
  }

  /** The lines of the table: top border, header, separator, a line per result, bottom border. */
  function TableLines(results: seq<FileInfo>): seq<string> {
    [TopBorder(), HeaderLine(), MiddleBorder()] + Rows(results) + [BottomBorder()]
  }

  lemma RowsStep(results: seq<FileInfo>, i: nat)
    requires i < |results|
    ensures Rows(results[..i + 1]) == Rows(results[..i]) + [Row(results[i])]
  {
    assert results[..i + 1][..i] == results[..i];
  }

  lemma AppendAssoc<T>(a: seq<T>, b: seq<T>, c: seq<T>)
    ensures (a + b) + c == a + (b + c)
  {
  }

  /** `format_table`: the fixed message for no results, else the lines appended one by one and joined by newlines. */
  method FormatTable(results: seq<FileInfo>) returns (s: string)
    ensures results == [] ==> s == NoResults
    ensures results != [] ==> s == Join(TableLines(results), "\n")
  {
    if results == [] {
      return NoResults;
    }
    var table: seq<string> := [];
    table := table + [TopBorder()];
    table := table + [HeaderLine()];
    table := table + [MiddleBorder()];
    for i := 0 to |results|
      invariant table == [TopBorder(), HeaderLine(), MiddleBorder()] + Rows(results[..i])
    {
      RowsStep(results, i);
      AppendAssoc([TopBorder(), HeaderLine(), MiddleBorder()], Rows(results[..i]), [Row(results[i])]);
      table := table + [Row(results[i])];
    }
    assert results[..|results|] == results;
    table := table + [BottomBorder()];
    return Join(table, "\n");
  }

  /**
   * The table has four lines more than there are results: the top border,
   * the header, the separator, one line per result in order, the bottom border.
   */
  lemma TableFrame(results: seq<FileInfo>)
    ensures |TableLines(results)| == |results| + 4
    ensures TableLines(results)[0] == TopBorder()
    ensures TableLines(results)[1] == HeaderLine()
    ensures TableLines(results)[2] == MiddleBorder()
    ensures TableLines(results)[|results| + 3] == BottomBorder()
  {
    var body := [TopBorder(), HeaderLine(), MiddleBorder()] + Rows(results);
    assert TableLines(results) == body + [BottomBorder()];
    assert body[0] == TopBorder() && body[1] == HeaderLine() && body[2] == MiddleBorder();
  }

  /** Line `k + 3` of the table is the line of the `k`-th result. */
  lemma TableRow(results: seq<FileInfo>, k: nat)
    requires k < |results|
    ensures TableLines(results)[k + 3] == Row(results[k])
  {
    var body := [TopBorder(), HeaderLine(), MiddleBorder()] + Rows(results);
    assert TableLines(results)[k + 3] == body[k + 3] == Rows(results)[k];
    RowsAt(results, k);
  }

  /**
   * A row whose counts fit their columns is exactly as wide as the header
   * line, so its column separators fall under the header's.
   */
  lemma RowWidth(info: FileInfo)
    requires |GroupThousands(info.charCount)| <= CharWidth && |PageText(info.pageCount)| <= PageWidth
    ensures |Row(info)| == |HeaderLine()| == NameWidth + CharWidth + PageWidth + 10
  {
  }

  /**
   * The border lines are two characters narrower than the header line: each
   * border joint `┼` stands one column left of the header's `│`, and the
   * closing corner one column left of the header's closing `│`.
   */
  lemma BorderWidth()
    ensures |TopBorder()| == |MiddleBorder()| == |BottomBorder()| == |HeaderLine()| - 2
    ensures |TopBorder()| == NameWidth + CharWidth + PageWidth + 8
    ensures TopBorder()[NameWidth + 2] == '┼' && HeaderLine()[NameWidth + 3] == '│'
    ensures TopBorder()[NameWidth + CharWidth + 5] == '┼' && HeaderLine()[NameWidth + CharWidth + 6] == '│'
  {
    var name := PadRight("文件名", NameWidth);
    var chars := PadLeft("字符数", CharWidth);
    assert Header() == name + " │ " + chars + " │ " + PadLeft("页数", PageWidth);
    assert Header()[NameWidth + 1] == '│';
    assert Header()[NameWidth + CharWidth + 4] == '│';
    assert Separator()[NameWidth + 1] == '┼';
    assert Separator()[NameWidth + CharWidth + 4] == '┼';
  }

  /** No line of the table holds a newline when no file name does. */
  lemma TableLinesOneLine(results: seq<FileInfo>)
    requires forall k :: 0 <= k < |results| ==> '\n' !in results[k].fileName
    ensures forall i :: 0 <= i < |TableLines(results)| ==> '\n' !in TableLines(results)[i]
  {
    var head := [TopBorder(), HeaderLine(), MiddleBorder()];
    BordersOneLine();
    assert SingleLines(head);
    RowsOneLine(results);
    SingleLinesAppend(head, Rows(results));
    SingleLinesAppend(head + Rows(results), [BottomBorder()]);
    assert TableLines(results) == head + Rows(results) + [BottomBorder()];
  }

  /** Lines none of which holds a newline. */
  predicate SingleLines(lines: seq<string>)
  {
    forall i :: 0 <= i < |lines| ==> '\n' !in lines[i]
  }

  lemma SingleLinesAppend(a: seq<string>, b: seq<string>)
    requires SingleLines(a) && SingleLines(b)
    ensures SingleLines(a + b)
  {
    forall i | 0 <= i < |a + b|
      ensures '\n' !in (a + b)[i]
    {
      if i >= |a| {
        assert (a + b)[i] == b[i - |a|];
      }
    }
  }

  lemma RowsOneLine(results: seq<FileInfo>)
    requires forall k :: 0 <= k < |results| ==> '\n' !in results[k].fileName
    ensures SingleLines(Rows(results))
  {
    forall k | 0 <= k < |Rows(results)|
      ensures '\n' !in Rows(results)[k]
    {
      RowsAt(results, k);
      RowOneLine(results[k]);
    }
  }

  lemma BordersOneLine()
    ensures '\n' !in TopBorder() && '\n' !in HeaderLine() && '\n' !in MiddleBorder() && '\n' !in BottomBorder()
  {
  }

  lemma RowOneLine(info: FileInfo)
    requires '\n' !in info.fileName
    ensures '\n' !in Row(info)
  {
    var name := ShortName(info.fileName);
    var chars := GroupThousands(info.charCount);
    var pages := PageText(info.pageCount);
    ShortNameOneLine(info.fileName);
    PadOneLine(name, NameWidth);
    assert '\n' !in chars by {
      assert forall i :: 0 <= i < |chars| ==> chars[i] != '\n';
    }
    PadOneLine(chars, CharWidth);
    assert '\n' !in pages;
    PadOneLine(pages, PageWidth);
    assert '\n' !in "│ " && '\n' !in " │ " && '\n' !in " │";
  }

  lemma ShortNameOneLine(name: string)
    requires '\n' !in name
    ensures '\n' !in ShortName(name)
  {
    if |name| > NameWidth - 3 {
      var head := name[..NameWidth - 3];
      assert forall i :: 0 <= i < |head| ==> head[i] == name[i];
      assert '\n' !in head;
      assert '\n' !in "...";
    }
  }

  /** Padding adds only spaces. */
  lemma PadOneLine(s: string, w: nat)
    requires '\n' !in s
    ensures '\n' !in PadRight(s, w) && '\n' !in PadLeft(s, w)
  {
    if |s| < w {
      var spaces := Repeat(' ', w - |s|);
      assert '\n' !in spaces;
    }
  }

  /**
   * Splitting the table at newlines gives its lines back: line `k + 3` is
   * the line of the `k`-th result, whatever the file names, as long as none
   * holds a newline.
   */
  lemma TableRecoverable(results: seq<FileInfo>)
    requires results != []
    requires forall k :: 0 <= k < |results| ==> '\n' !in results[k].fileName
    ensures Split(Join(TableLines(results), "\n"), '\n') == TableLines(results)
  {
    TableFrame(results);
    TableLinesOneLine(results);
    SplitJoin(TableLines(results), '\n');
  }
}
