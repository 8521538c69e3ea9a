/**
 * The values the splitters pass around once the document libraries are
 * abstracted away: what a Word document or a PDF page holds, the outcome of
 * a call (a value or the exception it raises), and an output file as the
 * pair of its path and what is written to it.
 */
module Documents {

  datatype Option<T> = None | Some(value: T)

  /** The argument given as a split size: Python accepts anything here and checks it at run time. */
  datatype SplitValue =
    | IntValue(i: int)
    | BoolValue(b: bool)   // `bool` is a subclass of `int` in Python: True is 1
    | OtherValue           // a float, a string, None, ...
  {
    /** `isinstance(value, int)` */
    predicate IsInt() {
      !OtherValue?
    }

    function AsInt(): int
      requires IsInt()
    {
      if IntValue? then i else if b then 1 else 0
    }
  }

  /** The exceptions a split or merge call raises. */
  datatype Error =
    | FileNotFound(path: string)         // FileNotFoundError: the input does not exist
    | WrongFormat(path: string)          // ValueError: the extension is not the splitter's own
    | InvalidSplitRule(value: SplitValue) // ValueError: the split size is rejected
    | InvalidPartsCount(count: int)      // ValueError: an equal-parts count <= 0
    | EmptyFileList                      // ValueError: nothing to merge
    | NoMergeNameHelper                  // AttributeError: generate_merge_output_filename is not defined
    | PageTextUnavailable(page: nat)     // the PDF library raised while extracting a page's text
    | UnsupportedFormat(ext: string)     // document_analyzer: extension it cannot count
    | ReadFailed(path: string)           // document_analyzer: the counting library raised

  datatype Result<T> = Ok(value: T) | Err(error: Error)

  /** A file written by a splitter: its path and what was written to it. */
  datatype OutputFile<C> = OutputFile(path: string, content: C)

  /** A Word paragraph: its text and, when it has one, the name of its style. */
  datatype Paragraph = Paragraph(text: string, style: Option<string>)

  /** A Word table, row by row, as the texts of its cells. */
  type Table = seq<seq<string>>

  datatype WordDocument = WordDocument(paragraphs: seq<Paragraph>, tables: seq<Table>)

  /** The texts of some paragraphs, in order. */
  function ParagraphTexts(paragraphs: seq<Paragraph>): (r: seq<string>)
    ensures |r| == |paragraphs| && forall j :: 0 <= j < |r| ==> r[j] == paragraphs[j].text
  {
    seq(|paragraphs|, j requires 0 <= j < |paragraphs| => paragraphs[j].text)
  }

  /** What `page.extract_text()` gives for a PDF page: a text, or an exception. */
  datatype PageText = Extracted(text: string) | ExtractionFails

  /** A PDF page: `id` stands for its content, which is copied but never inspected. */
  datatype PdfPage = PdfPage(id: nat, text: PageText)

  /** An input of a merge: its path, whether it exists, and what reading it gives. */
  datatype InputFile<C> = InputFile(path: string, present: bool, content: C)

  function Paths<C>(outputs: seq<OutputFile<C>>): (r: seq<string>)
    ensures |r| == |outputs| && forall k :: 0 <= k < |r| ==> r[k] == outputs[k].path
  {
    seq(|outputs|, k requires 0 <= k < |outputs| => outputs[k].path)
  }

  function Contents<C>(outputs: seq<OutputFile<C>>): (r: seq<C>)
    ensures |r| == |outputs| && forall k :: 0 <= k < |r| ==> r[k] == outputs[k].content
  {
    seq(|outputs|, k requires 0 <= k < |outputs| => outputs[k].content)
  }

  lemma OutputsAppend<C>(outputs: seq<OutputFile<C>>, o: OutputFile<C>)
    ensures Paths(outputs + [o]) == Paths(outputs) + [o.path]
    ensures Contents(outputs + [o]) == Contents(outputs) + [o.content]
  {
  }
}
