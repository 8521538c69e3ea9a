# DocumentSplitter, modelled in Dafny

DocumentSplitter is a desktop tool that cuts `.txt`, `.md`, `.pdf` and `.docx`
files into parts and merges files of one type back together. A split works
by characters, lines, pages or paragraphs, or makes a given number of equal
parts. A Word split can move its cuts onto chapter headings. A separate
analyser counts the characters and pages of files and prints them as a table.

This project models the tool's core:
- `FileHandler`: file types, split sizes and part names;
- `ChapterDetector`: heading recognition and positions, and moving a cut;
- `TxtSplitter`, `MdSplitter`, `PdfSplitter` and `WordSplitter`;
- `DocumentAnalyzer`: counting and the result table.

Every split and merge is a method. It returns either the exception raised
by its own checks (and, for a PDF split by characters, by text extraction),
or the list of files it writes, each as a path and its content. The model
proves what those files hold:
- put back together, the parts give the input (for a PDF split by characters, the parts are the texts handed to the PDF writer);
- how many parts there are, and how large each is;
- parts are named `<stem>_partN<ext>` in the input's directory, all distinct;
- which check fails first;
- where chapter-preserving cuts fall.

The files:

- `strings.dfy`: the Python string built-ins the code relies on:
  - `strip`, `lower`, `split`, `join`, `find`/`rfind`;
  - `str(int)`, `ljust`/`rjust`.
- `documents.dfy`: the values passed around once the document libraries are
  abstracted away:
  - the raised errors;
  - paragraphs, tables and Word documents;
  - PDF pages and output files.
- `file_handler.dfy`: `FileHandler`.
- `split_plan.dfy`: the shared machinery of the splitters:
  - fixed windows and chunks and the tilings they form;
  - part paths and the writing loops;
  - the input checks and the merge-input validation;
  - the equal-part size.
- `chapter_detector.dfy`: `ChapterDetector`, with each heading regular
  expression as a hand-written prefix recogniser.
- `txt_splitter.dfy`, `md_splitter.dfy`, `pdf_splitter.dfy` and
  `word_splitter.dfy`: the splitters.
- `document_analyzer.dfy`: the analyser's counting functions, its loop over
  files and `format_table`.

I/O is replaced by parameters:
- whether a file exists is a `bool`;
- what reading a file gives is a value: a text, lines, a Word document,
  PDF pages, or the decode outcomes of a text file;
- writing a file is returning an `OutputFile(path, content)`.

## Model

| member | source | states |
|---|---|---|
| Strings.StripLeftShape | function/chapter_detector.py:56-59 | the left strip is a suffix of the text after white space only, and does not start with white space |
| Strings.StripRightShape | function/chapter_detector.py:56-59 | the right strip is a prefix of the text before white space only, and does not end with white space |
| Strings.StripShape | function/chapter_detector.py:56-59 | `strip()` is the middle of the text between two white-space runs, and neither of its ends is white space |
| Strings.StripBlank | function/chapter_detector.py:56 | `text.strip()` is empty exactly when the text is white space only |
| Strings.Lower | function/file_handler.py:37 | lower-casing keeps the length and lower-cases each character |
| Strings.LowerCharKeeps | function/chapter_detector.py:66 | case folding changes no white space, no digit and nothing outside `A`..`Z`, and is idempotent |
| Strings.StripLeftLower | function/chapter_detector.py:56-66 | left-stripping and lower-casing commute |
| Strings.StripRightLower | function/chapter_detector.py:56-66 | right-stripping and lower-casing commute |
| Strings.StripLower | function/chapter_detector.py:56-66 | stripping and lower-casing commute |
| Strings.IndexOf | function/chapter_detector.py:85 | `find` gives -1 exactly when the character is absent, else its first occurrence |
| Strings.LastIndexBefore | function/chapter_detector.py:234 | `rfind(c, 0, end)` gives -1 exactly when `c` is absent before `end`, else its last occurrence there |
| Strings.RFind | function/chapter_detector.py:234 | `rfind(c, 0, end)` with any end gives -1 or an index before the end holding `c` |
| Strings.LastIndexIs | function/chapter_detector.py:234 | a `c` with no other `c` after it up to `end` is what `rfind` finds |
| Strings.Split | function/chapter_detector.py:85 | `split` gives at least one piece, and no piece holds the separator |
| Strings.JoinSplit | function/chapter_detector.py:85 | joining the pieces of a split with the separator gives the text back |
| Strings.SplitJoin | function/word_splitter.py:80 | splitting a join of separator-free pieces gives the pieces back |
| Strings.SplitFirst | function/chapter_detector.py:85 | a split is the text before the first separator followed by the split of the rest |
| Strings.ConcatSplit | function/txt_splitter.py:76-77 | concatenating two runs of pieces is concatenating each, one after the other |
| Strings.ConcatSnoc | function/txt_splitter.py:76-77 | one more piece is appended to the concatenation |
| Strings.PadRight | function/document_analyzer.py:225 | the `{:<w}` format keeps the text and pads it with spaces up to width `w` |
| Strings.PadLeft | function/document_analyzer.py:225 | the `{:>w}` format pads with spaces up to width `w` and ends with the text |
| Strings.NatToString | function/file_handler.py:97 | `str(n)` is a non-empty run of digits with no leading zero |
| Strings.ParseNatToString | function/file_handler.py:97 | reading `str(n)` back gives `n` |
| Strings.IntToString | function/file_handler.py:97 | `str(i)` holds only digits and a minus sign |
| Strings.IntToStringRoundTrip | function/file_handler.py:97 | `str(i)` for any integer is a well-formed numeral that reads back as `i` |
| Strings.IntToStringInjective | function/file_handler.py:97 | distinct part numbers print differently |
| Strings.TotalLengthSnoc | function/document_analyzer.py:86-87 | one more text adds its length |
| Strings.TotalLengthAppend | function/document_analyzer.py:86-93 | the total length of two runs of texts is the sum of theirs |
| Strings.Repeat | function/document_analyzer.py:213 | `c * n` is `n` copies of `c` |
| Strings.JoinLength | function/md_splitter.py:266 | `sep.join(xs)` is as long as the texts plus one separator between each two |
| Documents.ParagraphTexts | function/chapter_detector.py:145-146 | the texts of the paragraphs, one per paragraph, in order |
| Documents.Paths | function/txt_splitter.py:81-91 | the paths of the written files, in order |
| Documents.Contents | function/txt_splitter.py:81-91 | the contents of the written files, in order |
| Documents.OutputsAppend | function/txt_splitter.py:91 | appending an output file appends its path and its content |
| FileHandler.Name | function/file_handler.py:37 | `Path.name` holds no `/` |
| FileHandler.DotIndex | function/file_handler.py:37 | the suffix starts at the name's last dot, and a dot that starts or ends the name is no suffix |
| FileHandler.StemSuffix | function/file_handler.py:37 | a name is its stem followed by its suffix; the suffix is empty or a dot followed by dot-free text |
| FileHandler.SupportedFormatShape | function/file_handler.py:15 | every supported format is a dot and lower-case letters |
| FileHandler.FileTypeByEnding | function/file_handler.py:22-39 | `get_file_type` gives a format exactly when the file name is longer than the format and ends with it in any case |
| FileHandler.FileTypeHasEnding | function/file_handler.py:22-39 | a recognised file name ends, case-insensitively, with its format |
| FileHandler.EndingHasFileType | function/file_handler.py:22-39 | a name ending, case-insensitively, with a supported format has that type |
| FileHandler.EndingDot | function/file_handler.py:37 | a name ending with a supported format has its suffix dot where the format starts |
| FileHandler.ValidateSplitRule | function/file_handler.py:42-67 | a split size is valid exactly when it is a positive `int` (`True` included) and the type is supported |
| FileHandler.OutputExtension | function/file_handler.py:88-94 | the extension used is the original suffix when none is given, else the given one with a dot put in front when it lacks one |
| FileHandler.NoSlashInOutputName | function/file_handler.py:97 | the new file name holds no `/` when the extension holds none |
| FileHandler.DirPrefixEndsAtSlash | function/file_handler.py:99 | the directory prefix ends at the path's last `/` |
| FileHandler.AppendToDirectory | function/file_handler.py:99 | `parent / name` keeps the directory and names the file `name` |
| FileHandler.OutputFilenameShape | function/file_handler.py:70-99 | the output lies in the input's directory and is named `<stem>_part<N><ext>` |
| FileHandler.OutputFilenamesDistinct | function/file_handler.py:70-99 | distinct part numbers give distinct paths |
| FileHandler.OutputKeepsFileType | function/file_handler.py:70-99 | a part written with a supported extension is recognised as that type again |
| SplitPlan.CeilDiv | function/md_splitter.py:219 | `(a + n - 1) // n` is the least number of `n`-sized windows that cover `a` |
| SplitPlan.CeilDivUnique | function/md_splitter.py:219 | that count is the only one that covers `a` without an empty window |
| SplitPlan.TilesCons | function/md_splitter.py:153-169 | a first range followed by a tiling of the rest tiles the whole |
| SplitPlan.TilesOrdered | function/md_splitter.py:153-169 | tiling ranges come in order and never overlap |
| SplitPlan.TilesInside | function/md_splitter.py:153-169 | tiling ranges lie inside the tiled interval |
| SplitPlan.TilesCover | function/md_splitter.py:153-169 | every unit lies in exactly one range of a tiling |
| SplitPlan.WindowsFrom | function/txt_splitter.py:76-77 | each window of `range(start, total, n)` lies within the total |
| SplitPlan.Windows | function/txt_splitter.py:76-77 | the fixed windows from 0 lie within the total |
| SplitPlan.WindowsFromTiles | function/txt_splitter.py:76-77 | the windows from `start` tile `[start, total)` |
| SplitPlan.WindowsFromCount | function/txt_splitter.py:76-77 | there are `ceil((total - start) / n)` windows |
| SplitPlan.WindowsFromSizes | function/txt_splitter.py:76-77 | each window holds at most `n` units, and all but the last exactly `n` |
| SplitPlan.WindowsTile | function/txt_splitter.py:76-77 | the windows from 0 tile the input: `ceil(total / n)` of them, `n` units each but the last |
| SplitPlan.Slices | function/md_splitter.py:165 | one slice per range |
| SplitPlan.SliceAt | function/md_splitter.py:165 | slice `k` is `xs[start:end]` of range `k` |
| SplitPlan.ConcatSlices | function/md_splitter.py:153-169 | the slices of a tiling, put back together, give the tiled part of the input |
| SplitPlan.ChunksPartition | function/txt_splitter.py:75-77 | the chunks give the input back; there are `ceil(len / n)` of them, non-empty, at most `n` long, all but the last exactly `n` |
| SplitPlan.ChunkSizes | function/txt_splitter.py:76-77 | each chunk is non-empty and at most `n` long, and all but the last exactly `n` |
| SplitPlan.ChunkLengths | function/txt_splitter.py:76-77 | each chunk is as long as its window |
| SplitPlan.SlicesFrom | function/txt_splitter.py:76-77 | the slices still to take are the next window's slice followed by those after it |
| SplitPlan.ChunksStep | function/txt_splitter.py:76-77 | one more window appends the next chunk and leaves the rest to do |
| SplitPlan.ChunksDone | function/txt_splitter.py:76-77 | past the end the appended pieces are all the chunks |
| SplitPlan.ChunkLoop | function/txt_splitter.py:75-77 | the loop appending `xs[i:i + n]` produces exactly the chunks |
| SplitPlan.PartPaths | function/txt_splitter.py:81-85 | part `k + 1` is written to `generate_output_filename(path, k + 1, ext)` |
| SplitPlan.PartPathsAppend | function/txt_splitter.py:81-85 | one more part takes the next number |
| SplitPlan.PartPathShape | function/txt_splitter.py:81-85 | every part lies in the input's directory and has the input's type |
| SplitPlan.PartPathsDistinct | function/txt_splitter.py:81-85 | no two parts share a path; each lies in the input's directory and has its type |
| SplitPlan.WriteParts | function/txt_splitter.py:79-93 | the writing loop writes part `k` to the `k`-th part path with the `k`-th content, in order |
| SplitPlan.WriteStep | function/txt_splitter.py:81-91 | writing the next part keeps the paths and contents written so far in order |
| SplitPlan.WriteWindows | function/md_splitter.py:148-171 | the window loop that writes as it cuts writes exactly the chunks, to the part paths |
| SplitPlan.FixedSplitMeaning | function/txt_splitter.py:65-93 | a fixed split gives the input back, in one part when it fits and `ceil(len / n)` otherwise; parts are at most `n` long, all but the last exactly `n`, none empty unless the input is |
| SplitPlan.FixedSplitPaths | function/txt_splitter.py:65-93 | the parts go to distinct paths, each of the input's type and in its directory |
| SplitPlan.FixedParts | function/txt_splitter.py:65-77 | the content half of a fixed split, on the parts alone |
| SplitPlan.CheckInputMeaning | function/txt_splitter.py:50-55 | the checks pass exactly for an existing input of the right type; a missing input is reported before a mistyped one |
| SplitPlan.CheckSplitInput | function/txt_splitter.py:50-59 | the checks of a sized split: existence, then type, then the size; passing ones leave a size of at least 1 |
| SplitPlan.Checks | function/md_splitter.py:246-250 | one check outcome per merge input |
| SplitPlan.FirstSomeStep | function/md_splitter.py:246-250 | the validation stops at a failing input and moves past an accepted one |
| SplitPlan.FirstSomeNone | function/md_splitter.py:246-250 | the validation finds no failure exactly when no check fails |
| SplitPlan.FirstSomeSkips | function/md_splitter.py:246-250 | accepted inputs before a point do not change what the validation reports |
| SplitPlan.FirstInvalidNone | function/md_splitter.py:246-250 | a merge's validation passes exactly when every input exists and has the merge's type |
| SplitPlan.FirstInvalidStep | function/md_splitter.py:246-250 | the first failing input's error is the one raised, and an accepted input is passed over |
| SplitPlan.ValidateInputs | function/md_splitter.py:246-250 | the validation loop returns the first failure, existence checked before type, file by file |
| SplitPlan.FirstInvalidIsFirst | function/md_splitter.py:246-250 | when the first unacceptable input is the `j`-th, its own check's error is raised |
| SplitPlan.EqualPartSize | function/md_splitter.py:212-219 | the equal-part chunk size is at least 1 |
| SplitPlan.EqualPartsAtMost | function/md_splitter.py:212-222 | an equal-parts split never makes more parts than asked for |
| SplitPlan.EqualPartsExample | function/md_splitter.py:212-222 | 1000 characters in 3 parts are cut 334, 334 and 332 long |
| ChapterDetector.RunLength | function/chapter_detector.py:24-40 | a greedy `[...]+` run covers only characters of its class and stops at one outside it |
| ChapterDetector.AnyMatchesMeaning | function/chapter_detector.py:65-69 | trying the patterns in order succeeds exactly when one of them matches |
| ChapterDetector.BlankIsNotTitle | function/chapter_detector.py:56-57 | empty and white-space-only texts are never headings |
| ChapterDetector.OtherLanguagesAreEnglish | function/chapter_detector.py:62 | every language other than `'cn'` uses the English patterns |
| ChapterDetector.DigitDotMeaning | function/chapter_detector.py:28 | `^\d+\.` matches exactly when some non-empty run of digits at the start is followed by a dot |
| ChapterDetector.RunCovers | function/chapter_detector.py:24-40 | a run of class characters is consumed whole by the greedy run |
| ChapterDetector.MultiLevelIsDigitDot | function/chapter_detector.py:28-30 | the multi-level pattern accepts nothing `^\d+\.` rejects |
| ChapterDetector.DigitDotIsTitle | function/chapter_detector.py:28-40 | a stripped text starting with digits and a dot is a heading in every language |
| ChapterDetector.RunLengthLower | function/chapter_detector.py:66 | run lengths do not see ASCII case |
| ChapterDetector.KeywordMatchesLower | function/chapter_detector.py:36-66 | `Chapter`/`Section`/`Part` followed by spaces and a digit matches regardless of case |
| ChapterDetector.SpacesThenDigitLower | function/chapter_detector.py:36-66 | `\s+\d` matches regardless of case |
| ChapterDetector.MatchesLower | function/chapter_detector.py:66 | every pattern matches a text exactly when it matches the lower-cased text |
| ChapterDetector.RunThenLower | function/chapter_detector.py:66 | a run and the character after it are the same in the lower-cased text, up to case |
| ChapterDetector.NumberedChapterLower | function/chapter_detector.py:24-66 | `^第...[章节篇]` matches regardless of case |
| ChapterDetector.LowerKeepsNonLetters | function/chapter_detector.py:66 | lower-casing neither creates nor removes a character outside the ASCII letters |
| ChapterDetector.TitleIgnoresCase | function/chapter_detector.py:43-69 | headings are recognised case-insensitively |
| ChapterDetector.Ats | function/chapter_detector.py:193 | the positions of the found headings, in order |
| ChapterDetector.Collect | function/chapter_detector.py:145-153 | a scan over the first `i` units records only units before `i` |
| ChapterDetector.CollectFacts | function/chapter_detector.py:145-153 | a scan records only units whose test found a title, with that title, in increasing order, and records every such unit |
| ChapterDetector.CollectSound | function/chapter_detector.py:145-151 | every recorded unit passed the test, with the recorded title |
| ChapterDetector.CollectIncreasing | function/chapter_detector.py:145-151 | recorded units are in increasing order |
| ChapterDetector.CollectComplete | function/chapter_detector.py:145-151 | every unit that passed the test is recorded |
| ChapterDetector.CollectAtMostOnce | function/chapter_detector.py:145-151 | a scan records at most one entry per unit |
| ChapterDetector.CollectStep | function/chapter_detector.py:145-151 | one more unit adds its entry when it passes the test, and nothing otherwise |
| ChapterDetector.AtLeastIndex | function/chapter_detector.py:145-151 | the `l`-th of increasing indices is at least `l` |
| ChapterDetector.LineTitles | function/chapter_detector.py:88-90 | a line's entry is its stripped text exactly when that is a heading |
| ChapterDetector.AtOffsets | function/chapter_detector.py:87-95 | each recorded line index is replaced by its stripped offset |
| ChapterDetector.AtOffsetsAppend | function/chapter_detector.py:87-95 | one more recorded line adds its entry at its offset |
| ChapterDetector.FindChapterPositions | function/chapter_detector.py:71-97 | the line scan accumulating `len(stripped line) + 1` finds the headings at those offsets |
| ChapterDetector.ScannedStep | function/chapter_detector.py:88-95 | one more line adds its heading at the current offset, or nothing |
| ChapterDetector.ScannedPositionsAre | function/chapter_detector.py:84-97 | the headings found so far are the heading lines, each at its stripped offset |
| ChapterDetector.PositionsStep | function/chapter_detector.py:88-95 | one more scanned line adds its heading at its stripped offset, or nothing |
| ChapterDetector.StrippedOffsetIncreases | function/chapter_detector.py:95 | the accumulated offset strictly increases line by line |
| ChapterDetector.StrippedOffsetFits | function/chapter_detector.py:95 | a stripped line ends no later than the original line does in the text |
| ChapterDetector.JoinPrefixLength | function/chapter_detector.py:85 | a prefix of the lines, joined, is no longer than all of them joined |
| ChapterDetector.ChapterPositionsOrdered | function/chapter_detector.py:71-97 | positions strictly increase, each heading's text fits in the text from its position, and each is a heading |
| ChapterDetector.PositionsIncrease | function/chapter_detector.py:71-97 | positions strictly increase |
| ChapterDetector.PositionsInside | function/chapter_detector.py:71-97 | each reported heading fits inside the text and is a heading |
| ChapterDetector.PositionInside | function/chapter_detector.py:71-97 | the `k`-th reported heading fits inside the text and is a heading |
| ChapterDetector.ChapterPositionsComplete | function/chapter_detector.py:71-97 | every heading line is reported, at its stripped offset, with its stripped text |
| ChapterDetector.PositionCanLagLineStart | function/chapter_detector.py:89-95 | the reported position of a heading after an indented line is before the heading's real start (here 2, not 3) |
| ChapterDetector.FirstTitleLine | function/chapter_detector.py:117-125 | the first line of a page that is a heading in either language, or none |
| ChapterDetector.PageTitles | function/chapter_detector.py:113-127 | one entry per page: the first heading line of a page whose text extracts |
| ChapterDetector.FindPageChapterPositions | function/chapter_detector.py:99-129 | the page scan records each page's first heading line and skips pages that fail |
| ChapterDetector.PageChaptersOrdered | function/chapter_detector.py:99-129 | at most one heading per page, pages increasing, each extracted and a heading |
| ChapterDetector.UnitTitles | function/chapter_detector.py:145-147 | a paragraph or line is recorded exactly when its stripped text is non-empty and a heading in either language |
| ChapterDetector.FindLineChapterPositions | function/chapter_detector.py:155-177 | the line scan records the heading lines, in order |
| ChapterDetector.FindParagraphChapterPositions | function/chapter_detector.py:131-153 | the paragraph scan records the heading paragraphs, in order |
| ChapterDetector.UnitChaptersExact | function/chapter_detector.py:131-177 | the recorded indices increase, are exactly the headings, and carry their stripped texts |
| ChapterDetector.StripIdempotent | function/chapter_detector.py:146-147 | stripping twice is stripping once |
| ChapterDetector.ChapterBreaks | function/chapter_detector.py:179-193 | the breaks are increasing positions within the text |
| ChapterDetector.Nearest | function/chapter_detector.py:222-226 | the chosen break lies within `max_adjustment` of the target |
| ChapterDetector.NearestIsNearest | function/chapter_detector.py:222-226 | the chosen break is at least as close as any within reach, strictly closer than every earlier one, and none is chosen exactly when none is within reach |
| ChapterDetector.AdjustSplitPoint | function/chapter_detector.py:195-215 | with no breaks the target itself, else the scan over the breaks |
| ChapterDetector.ScanBreaks | function/chapter_detector.py:219-240 | the loop keeping the closest break so far computes the adjusted point |
| ChapterDetector.AdjustStaysInWindow | function/chapter_detector.py:195-240 | the cut is the target when no break is within reach, otherwise within `max_adjustment` of it and no later than the chosen break, and stays within the text |
| TxtSplitter.SplitByChars | function/txt_splitter.py:26-93 | errors exactly when a check fails, the first failing check's error; else one copy when the text fits, otherwise the fixed chunks, to the part paths |
| TxtSplitter.SplitByLines | function/txt_splitter.py:95-164 | errors exactly when a check fails; else one copy when the lines fit, otherwise the fixed windows of lines, to the part paths |
| MdSplitter.SplitByChars | function/md_splitter.py:27-97 | errors exactly when a check fails; else one copy when the text fits, otherwise the fixed chunks, to the part paths |
| MdSplitter.SplitByLines | function/md_splitter.py:99-171 | errors exactly when a check fails; else one copy when the lines fit, otherwise the windows the `while` loop writes, to the part paths |
| MdSplitter.SplitByEqualParts | function/md_splitter.py:173-222 | the file checks, then a positive count, then a character split of the equal-part size, with no more parts than asked for |
| MdSplitter.NonEmptyContents | function/md_splitter.py:257-262 | every kept content is non-empty and is some input's, and every non-empty input's content is kept |
| MdSplitter.MergeMds | function/md_splitter.py:224-268 | an empty list, the first invalid input, or a missing output path raise, in that order; else the non-empty contents joined by the `---` rule |
| MdSplitter.MergeSkipsEmpty | function/md_splitter.py:261 | an empty file adds nothing to a merge |
| MdSplitter.MergeAppends | function/md_splitter.py:261-266 | a non-empty file is appended after a rule, or is the whole merge when all before it were empty |
| MdSplitter.MergedLength | function/md_splitter.py:266 | a merge is as long as its non-empty files plus one rule between each two |
| PdfSplitter.WritePdf | function/pdf_splitter.py:163-185 | `_write_pdf` copies exactly pages `start` to `end` |
| PdfSplitter.SplitByPages | function/pdf_splitter.py:27-98 | errors exactly when a check fails; else all pages in one file when the size reaches the page count, otherwise fixed windows of pages |
| PdfSplitter.WritePageWindows | function/pdf_splitter.py:76-98 | the page-window loop writes exactly the chunks of pages, to the part paths |
| PdfSplitter.PageStrings | function/pdf_splitter.py:141-142 | the texts of pages that all extract |
| PdfSplitter.ExtractText | function/pdf_splitter.py:136-142 | the assembled text exists exactly when every page extracts; otherwise the first failing page raises |
| PdfSplitter.ExtractTextJoin | function/pdf_splitter.py:141-142 | the assembled text is the page texts joined by newlines, with a final newline |
| PdfSplitter.PageTextsRecoverable | function/pdf_splitter.py:141-142 | splitting the assembled text at newlines gives the page texts back when they hold none |
| PdfSplitter.AssembleText | function/pdf_splitter.py:138-142 | the page loop assembles exactly that text, or stops at the first failing page |
| PdfSplitter.PrefixFails | function/pdf_splitter.py:141-142 | once a prefix of the pages fails, the whole document fails with the same error |
| PdfSplitter.SplitByChars | function/pdf_splitter.py:100-161 | check errors first, then extraction errors; otherwise the chunks of the assembled text, handed to the PDF writer with the part paths, without a single-copy case |
| PdfSplitter.ExtractTextLength | function/pdf_splitter.py:141-142 | a document with pages never gives an empty text |
| WordSplitter.TextContent | function/word_splitter.py:66-80 | the paragraph and table-cell loops collect every text, then join them by newlines |
| WordSplitter.AppendTable | function/word_splitter.py:74-77 | the row and cell loops append every cell of a table, row by row |
| WordSplitter.TablesTextStep | function/word_splitter.py:74-77 | one more table adds its cells after those of the tables before it |
| WordSplitter.PlainCopy | function/word_splitter.py:87-89 | a short document is copied as its paragraph texts, unstyled and without tables |
| WordSplitter.CopyTexts | function/word_splitter.py:87-89 | the copy loop makes exactly that copy |
| WordSplitter.NonBlankParagraphs | function/word_splitter.py:131-134 | no more paragraphs than lines |
| WordSplitter.NonBlankParagraphsFacts | function/word_splitter.py:131-134 | every paragraph made is an unstyled non-blank line of the part |
| WordSplitter.NoBlankLineDropped | function/word_splitter.py:131-134 | with no blank line every line becomes a paragraph |
| WordSplitter.ParagraphTextsSnoc | function/word_splitter.py:70-71 | one more paragraph adds its text |
| WordSplitter.TextDocumentShape | function/word_splitter.py:127-134 | a text part's document has no table, and its paragraphs are unstyled, non-blank and without newline |
| WordSplitter.TextDocumentKeepsLines | function/word_splitter.py:127-134 | a part with no blank line is written without loss |
| WordSplitter.BuildTextDocument | function/word_splitter.py:131-134 | the loop over the lines adds exactly the non-blank ones |
| WordSplitter.TextDocuments | function/word_splitter.py:120-137 | one document per text part |
| WordSplitter.WriteTextParts | function/word_splitter.py:118-139 | the writing loop writes each text part's document to its part path |
| WordSplitter.NextCut | function/word_splitter.py:99-112 | each chapter-preserving cut advances, stays within the text, and lies within `n // 2` of the target when moved |
| WordSplitter.ChapterParts | function/word_splitter.py:96-112 | the chapter-preserving pieces give the text back, each non-empty and at most one and a half times `n` |
| WordSplitter.ChapterLoopStep | function/word_splitter.py:99-112 | one turn of the loop makes the next cut and keeps the pieces in order |
| WordSplitter.ChapterSplitLoop | function/word_splitter.py:96-112 | the `while` loop produces exactly the chapter-preserving pieces |
| WordSplitter.ChapterPartsWithoutHeadings | function/word_splitter.py:96-116 | without headings the chapter-preserving cuts are the fixed ones |
| WordSplitter.CharParts | function/word_splitter.py:93-116 | the text parts give the text back, each non-empty, at most `n` long without chapter preservation and one and a half times `n` with it |
| WordSplitter.SplitByChars | function/word_splitter.py:29-139 | errors exactly when a check fails; else a plain copy when the text fits, otherwise one document per text part, to the part paths |
| WordSplitter.CharSplitMeaning | function/word_splitter.py:93-139 | a long document's parts give its text back, `ceil(len / n)` of them without chapter preservation |
| WordSplitter.SplitByEqualParts | function/word_splitter.py:249-311 | the file checks, a positive count, then a character split of the equal-part size; without chapter preservation no more parts than asked for |
| WordSplitter.HeadingIndicesExact | function/word_splitter.py:194-196 | the heading indices increase, lie within the document, and are exactly the paragraphs whose text is a heading |
| WordSplitter.FirstBetween | function/word_splitter.py:209-214 | the index found lies strictly inside the window and is one of the headings |
| WordSplitter.FirstBetweenIsLeast | function/word_splitter.py:209-214 | over increasing indices, the one found is the least inside the window, and none is found exactly when none lies inside it |
| WordSplitter.FindNextChapter | function/word_splitter.py:210-214 | the loop that breaks at the first heading inside the window finds that heading |
| WordSplitter.ParagraphCut | function/word_splitter.py:205-222 | each part ends after it starts and no later than `min(current + n, total)` |
| WordSplitter.ParagraphRanges | function/word_splitter.py:203-245 | every range lies within the paragraphs, is non-empty and holds at most `n` paragraphs |
| WordSplitter.ParagraphRangesTile | function/word_splitter.py:203-245 | the ranges tile the paragraphs: back to back from the start to the end |
| WordSplitter.ParagraphRangesStep | function/word_splitter.py:203-245 | one turn of the loop writes the range up to the cut and continues from there |
| WordSplitter.ParagraphRangesFixed | function/word_splitter.py:205-222 | without chapter preservation the ranges are the fixed windows of `n` paragraphs |
| WordSplitter.NoHeadingInside | function/word_splitter.py:208-219 | with chapter preservation no heading lies strictly inside a range |
| WordSplitter.HeadingStartsPart | function/word_splitter.py:208-219 | with chapter preservation every heading after the first paragraph starts a range |
| WordSplitter.SplitRanges | function/word_splitter.py:192-245 | the split's ranges lie within the paragraphs |
| WordSplitter.PartDocuments | function/word_splitter.py:230-242 | each range is written as a document of its paragraphs and no table |
| WordSplitter.CopyParagraphs | function/word_splitter.py:234-240 | the copy loop copies each paragraph's text and style, so the part is exactly the range |
| WordSplitter.SplitByParagraphs | function/word_splitter.py:141-247 | errors exactly when a check fails; else a plain copy when the paragraphs fit, otherwise the paragraph ranges, to the part paths |
| WordSplitter.WriteParagraphRanges | function/word_splitter.py:198-247 | the `while` loop writes exactly the range documents, to the part paths |
| WordSplitter.RangeWriteStep | function/word_splitter.py:203-245 | writing the range at the current paragraph keeps the loop's invariant |
| WordSplitter.ParagraphPartAt | function/word_splitter.py:234-236 | part `k` holds the paragraphs of range `k` |
| WordSplitter.ParagraphSplitCovers | function/word_splitter.py:198-247 | the ranges tile the paragraphs, so the parts give every paragraph back once, in order |
| WordSplitter.ParagraphPartSizes | function/word_splitter.py:203-222 | every part is non-empty and holds at most `n` paragraphs |
| WordSplitter.ParagraphSplitFixed | function/word_splitter.py:203-206 | without chapter preservation the parts are the fixed chunks of `n` paragraphs |
| WordSplitter.ParagraphSplitKeepsChapters | function/word_splitter.py:208-222 | with chapter preservation a heading paragraph is never inside a part, only at its start |
| WordSplitter.HeadingParagraphStartsPart | function/word_splitter.py:208-222 | with chapter preservation each heading paragraph after the first begins a part |
| WordSplitter.KeptParagraphs | function/word_splitter.py:353-354 | a merge keeps no more paragraphs than a document has |
| WordSplitter.KeptParagraphsExact | function/word_splitter.py:353-358 | a merge keeps exactly the non-blank paragraphs: each kept one is non-blank and from the document, and each non-blank one is kept |
| WordSplitter.KeptParagraphsAppend | function/word_splitter.py:349-358 | keeping the non-blank paragraphs of two runs is keeping those of each, in order |
| WordSplitter.KeptParagraphsNoBlank | function/word_splitter.py:353-358 | a document without blank paragraphs is merged whole |
| WordSplitter.AllParagraphs | function/word_splitter.py:349-353 | all the inputs' paragraphs, input after input |
| WordSplitter.MergedParagraphsFilter | function/word_splitter.py:349-358 | a merge keeps exactly the non-blank paragraphs of all inputs together, in order |
| WordSplitter.AppendKept | function/word_splitter.py:353-358 | the paragraph loop appends copies, text and style, of exactly the non-blank paragraphs |
| WordSplitter.CopyTable | function/word_splitter.py:361-366 | the row and cell loops copy every cell's text |
| WordSplitter.AppendTables | function/word_splitter.py:361-366 | the table loop appends a copy of every table, in order |
| WordSplitter.MergeStep | function/word_splitter.py:349-366 | one more input adds its kept paragraphs and its tables after those before it |
| WordSplitter.MergeDocs | function/word_splitter.py:313-371 | an empty list, the first invalid input, or a missing output path raise, in that order; else the merged document |
| DocumentAnalyzer.EstimatedPages | function/document_analyzer.py:96 | the page estimate is the least number of 2000-character pages that holds the text, and at least one |
| DocumentAnalyzer.PdfCharsMatchText | function/document_analyzer.py:56-68 | a PDF is counted exactly when every page extracts, and its count is the assembled text's length less one newline per page |
| DocumentAnalyzer.CountPdf | function/document_analyzer.py:46-68 | the counting loop gives the character and page counts, or the read error |
| DocumentAnalyzer.PdfCharsFails | function/document_analyzer.py:62-68 | once a page cannot be counted, neither can the PDF |
| DocumentAnalyzer.WordCharsMatchText | function/document_analyzer.py:81-98 | a Word count is the length of the text a split sees, less its joining newlines |
| DocumentAnalyzer.AddCells | function/document_analyzer.py:92-93 | the cell loop adds the length of every cell |
| DocumentAnalyzer.AddTable | function/document_analyzer.py:91-93 | the row loop adds the length of every cell of the table |
| DocumentAnalyzer.CountWord | function/document_analyzer.py:71-98 | the paragraph and table loops count every character, then the page estimate follows |
| DocumentAnalyzer.TablesStep | function/document_analyzer.py:90-93 | one more table adds the length of its cells |
| DocumentAnalyzer.TxtChars | function/document_analyzer.py:103-126 | the length of the text read as UTF-8, else as GBK, and an error when neither decodes |
| DocumentAnalyzer.FileInfoOfErrors | function/document_analyzer.py:139-160 | an extension other than `.pdf`, `.docx` and `.txt` is unsupported; a failed count raises a read error |
| DocumentAnalyzer.FileInfoOfFacts | function/document_analyzer.py:139-162 | a result names the file and has a page column exactly when the file is not a text file |
| DocumentAnalyzer.FileInfoOfPages | function/document_analyzer.py:148-158 | a Word result's page column is the estimate, a PDF result's the page count, a text file's `-` |
| DocumentAnalyzer.GetFileInfo | function/document_analyzer.py:129-162 | `get_file_info` dispatches to the counting routines by extension |
| DocumentAnalyzer.Somes | function/document_analyzer.py:177-189 | no more results than entries |
| DocumentAnalyzer.SomeAt | function/document_analyzer.py:177-189 | one index per result, each an entry of the input |
| DocumentAnalyzer.SomeAtSound | function/document_analyzer.py:183-184 | the `k`-th result is the value at the `k`-th kept index |
| DocumentAnalyzer.SomeAtIncreasing | function/document_analyzer.py:177-184 | the kept indices increase |
| DocumentAnalyzer.SomeAtComplete | function/document_analyzer.py:177-184 | every present entry is kept |
| DocumentAnalyzer.Outcomes | function/document_analyzer.py:177-187 | one outcome per file |
| DocumentAnalyzer.AnalyzedExact | function/document_analyzer.py:165-189 | the results are the information of exactly the files that exist and can be counted, in order |
| DocumentAnalyzer.SomesStep | function/document_analyzer.py:177-187 | one more file adds its result when it has one |
| DocumentAnalyzer.AnalyzeDocuments | function/document_analyzer.py:165-189 | the loop skipping missing files and failed counts gives exactly those results |
| DocumentAnalyzer.ShortName | function/document_analyzer.py:221 | a name longer than 27 characters is cut to 27 and gets `...`; a shorter one is kept |
| DocumentAnalyzer.ThreeDigits | function/document_analyzer.py:222 | three decimal digits |
| DocumentAnalyzer.GroupThousands | function/document_analyzer.py:222 | the `{:,}` format starts with a digit and holds only digits and commas |
| DocumentAnalyzer.DropCommas | function/document_analyzer.py:222 | no comma is left |
| DocumentAnalyzer.DropCommasAppend | function/document_analyzer.py:222 | dropping commas distributes over concatenation |
| DocumentAnalyzer.DropCommasDigits | function/document_analyzer.py:222 | digits have no comma to drop |
| DocumentAnalyzer.NatToStringThousands | function/document_analyzer.py:222 | the last three digits of a four-digit-or-longer number are those of `n % 1000` |
| DocumentAnalyzer.ThousandsDigits | function/document_analyzer.py:222 | the three last digits read off one division by ten at a time |
| DocumentAnalyzer.GroupThousandsDigits | function/document_analyzer.py:222 | removing the separators from `{:,}` gives `str(n)` |
| DocumentAnalyzer.GroupThousandsReads | function/document_analyzer.py:222 | so the grouped count, read without its separators, is the count |
| DocumentAnalyzer.PageText | function/document_analyzer.py:223 | the page column is the count or `-` |
| DocumentAnalyzer.Rows | function/document_analyzer.py:219-226 | one line per result |
| DocumentAnalyzer.RowsAt | function/document_analyzer.py:219-226 | the `k`-th line is that of the `k`-th result |
| DocumentAnalyzer.RowsStep | function/document_analyzer.py:219-226 | one more result appends its line |
| DocumentAnalyzer.FormatTable | function/document_analyzer.py:192-230 | the fixed message when there are no results, else the table lines joined by newlines |
| DocumentAnalyzer.TableFrame | function/document_analyzer.py:211-228 | the table has four lines more than results: top border, header, separator first, bottom border last |
| DocumentAnalyzer.TableRow | function/document_analyzer.py:219-226 | line `k + 3` is the `k`-th result's row |
| DocumentAnalyzer.RowWidth | function/document_analyzer.py:206-225 | a row whose counts fit their columns is as wide as the header line |
| DocumentAnalyzer.TableLinesOneLine | function/document_analyzer.py:211-228 | no table line holds a newline when no file name does |
| DocumentAnalyzer.BordersOneLine | function/document_analyzer.py:212-217 | the borders and header are single lines |
| DocumentAnalyzer.RowOneLine | function/document_analyzer.py:221-225 | a row is a single line when the file name is |
| DocumentAnalyzer.ShortNameOneLine | function/document_analyzer.py:221 | shortening adds no newline |
| DocumentAnalyzer.PadOneLine | function/document_analyzer.py:225 | padding adds only spaces |
| DocumentAnalyzer.BorderWidth | function/document_analyzer.py:212-217 | the three border lines are equally wide and two characters narrower than the header line and the rows (58 against 60 columns); each `┼` joint stands one column left of the header's `│` |
| DocumentAnalyzer.TableRecoverable | function/document_analyzer.py:230 | the printed table splits back into its lines |

The equal-parts split cuts chunks of `ceil(total / parts)`, so 1000 characters in 3 parts give 334, 334 and 332 (`SplitPlan.EqualPartsExample`).

## Left out

- The GUI (`gui/`), the settings (`function/config.py`) and PDF combining (`function/pdf_combine.py`) are not part of this model.
- The document libraries are replaced by values:
  - python-docx: a document is its paragraphs (text and style name) and its tables (cell texts, row by row);
  - PyPDF2: a page is an identity and what text extraction gives for it;
  - reportlab: a PDF split by characters is modelled up to the text parts handed to `_create_pdf_from_text` (`PdfSplitter.SplitByChars`). The PDF that function writes holds the header line and at most the first 20 lines of the part, each cut to 80 characters. Without reportlab it holds a blank page. Neither is modelled.
- Writing files is returning `OutputFile(path, content)`. Disk errors and partial writes are not modelled.
- `output_dir` is never used by the code to place parts (they go next to the input), so it is not a parameter.
- The heading regular expressions read `\d` as ASCII digits, and `re.IGNORECASE` as ASCII case folding. `\s` and `strip()` use Python's white-space set; Unicode case folding is not modelled.
- Paths are POSIX paths split at `/`, taken in normal form. `pathlib`'s normalisation of `.` components and of doubled and trailing `/` is not modelled, and neither are Windows separators and drive letters.
- For the analyser, a text file's contents are given as what decoding them as UTF-8 and as GBK gives; decoding itself is not modelled.
- The splitters and merges take each input as read successfully: a `.txt` or `.md` file as decoded from UTF-8, a Word file as opened by python-docx, a PDF as parsed by PyPDF2. The exceptions those reads raise (a `UnicodeDecodeError` for a GBK text file, a corrupt `.docx` or `.pdf`) are not modelled; only PDF text extraction in the split by characters, and the analyser's readers, model a failed read.
- Merged and ragged table cells are not modelled: a table is a grid of cell texts, copied cell by cell.
- WordSplitter.MergeDocs: the merged document lists all paragraphs, then all tables. The interleaving of paragraphs and tables in the document body is not modelled.
- `get_file_size_mb` works on the file system and floating point, and is left out.
- `count_chars_in_pdf` (function/document_analyzer.py:22-44) is never called; `get_file_info` counts PDFs with `count_chars_and_pages_in_pdf`, which the model covers (`DocumentAnalyzer.CountPdf`), and its loop is the same.
- `generate_merge_output_filename`, which both merges call without an output path, is not defined anywhere in the code. Such a call raises an attribute error, modelled as `NoMergeNameHelper`.
- `find_chapter_positions` advances its offset by the stripped length of each line, so a position can lag the line's real start after indented lines. The model keeps this as written (`ChapterDetector.PositionCanLagLineStart`).
- The analyser's `main`, its command-line arguments and its printed warnings are left out; a skipped file is simply absent from the results.
