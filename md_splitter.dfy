/**
 * MdSplitter: splitting a Markdown file by characters, by lines or into a
 * number of equal parts, and merging Markdown files with a `---` rule
 * between them.
 */
module MdSplitter {
  import opened Strings
  import opened Documents
  import opened FileHandler
  import opened SplitPlan

  /** `split_by_chars`: the checks, then one copy when the text fits, else chunks written as parts. */
  method SplitByChars(inputPath: string, present: bool, content: string, charsPerSplit: SplitValue)
    returns (r: Result<seq<OutputFile<string>>>)
    ensures r.Err? <==> CheckSplitInput(inputPath, present, ".md", charsPerSplit).Some?
    ensures r.Err? ==> Some(r.error) == CheckSplitInput(inputPath, present, ".md", charsPerSplit)
    ensures r.Ok? ==> charsPerSplit.IsInt() && FixedSplit(inputPath, ".md", content, charsPerSplit.AsInt(), r.value)
  {
    var check := CheckSplitInput(inputPath, present, ".md", charsPerSplit);
    if check.Some? {
      return Err(check.value);
    }
    var n := charsPerSplit.AsInt();
    if |content| <= n {
      var outputPath := GenerateOutputFilename(inputPath, 1, Some(".md"));
      return Ok([OutputFile(outputPath, content)]);
    }
    var textParts := ChunkLoop(content, n);
    var outputs := WriteParts(inputPath, ".md", textParts);
    return Ok(outputs);
  }

  /** `split_by_lines`: one copy when the lines fit, else `while current_line < len(lines)` writing each window. */
  method SplitByLines(inputPath: string, present: bool, lines: seq<string>, linesPerSplit: SplitValue)
    returns (r: Result<seq<OutputFile<seq<string>>>>)
    ensures r.Err? <==> CheckSplitInput(inputPath, present, ".md", linesPerSplit).Some?
    ensures r.Err? ==> Some(r.error) == CheckSplitInput(inputPath, present, ".md", linesPerSplit)
    ensures r.Ok? ==> linesPerSplit.IsInt() && FixedSplit(inputPath, ".md", lines, linesPerSplit.AsInt(), r.value)
  {
    var check := CheckSplitInput(inputPath, present, ".md", linesPerSplit);
    if check.Some? {
      return Err(check.value);
    }
    var n := linesPerSplit.AsInt();
    if |lines| <= n {
      var outputPath := GenerateOutputFilename(inputPath, 1, Some(".md"));
      return Ok([OutputFile(outputPath, lines)]);
    }
    var outputs := WriteWindows(inputPath, ".md", lines, n);
    return Ok(outputs);
  }

  /**
   * `split_by_equal_parts`: the file checks, then a count that must be
   * positive, then a character split with `EqualPartSize` characters per part.
   * It never makes more parts than asked for.
   */
  method SplitByEqualParts(inputPath: string, present: bool, content: string, partsCount: int)
    returns (r: Result<seq<OutputFile<string>>>)
    ensures r.Err? <==> CheckInput(inputPath, present, ".md").Some? || partsCount <= 0
    ensures CheckInput(inputPath, present, ".md").Some? ==> r == Err(CheckInput(inputPath, present, ".md").value)
    ensures CheckInput(inputPath, present, ".md").None? && partsCount <= 0 ==> r == Err(InvalidPartsCount(partsCount))
    ensures r.Ok? ==> partsCount > 0 && FixedSplit(inputPath, ".md", content, EqualPartSize(|content|, partsCount), r.value)
    ensures r.Ok? ==> 1 <= |r.value| <= partsCount
  {
    var check := CheckInput(inputPath, present, ".md");
    if check.Some? {
      return Err(check.value);
    }
    if partsCount <= 0 {
      return Err(InvalidPartsCount(partsCount));
    }
    var charsPerPart := EqualPartSize(|content|, partsCount);
    r := SplitByChars(inputPath, present, content, IntValue(charsPerPart));
    EqualPartsAtMost(|content|, partsCount);
    FixedSplitMeaning(inputPath, ".md", content, charsPerPart, r.value);
  }

  /** The rule `merge_mds` puts between two merged files. */
  const Divider: string := "\n\n---\n\n"

  /** The contents of the files that are not empty, in order. */
  function NonEmptyContents(files: seq<InputFile<string>>): (r: seq<string>)
    ensures |r| <= |files|
    ensures forall k :: 0 <= k < |r| ==> r[k] != []
    ensures forall k :: 0 <= k < |files| && files[k].content != [] ==> files[k].content in r
    ensures forall k :: 0 <= k < |r| ==> exists j :: 0 <= j < |files| && files[j].content == r[k]
  {
    if files == [] then []
    else
      var init := files[..|files| - 1];
      var prev := NonEmptyContents(init);
      assert forall k :: 0 <= k < |init| ==> init[k] == files[k];
      var last := files[|files| - 1].content;
      if last == [] then prev else prev + [last]
  }

  /** The text `merge_mds` writes: the non-empty contents joined by the divider. */
  function Merged(files: seq<InputFile<string>>): string {
    Join(NonEmptyContents(files), Divider)
  }

  /**
   * `merge_mds`: a non-empty list, every file present and of type `.md` (the
   * first failure is raised), an output path (without one the call fails, as
   * the naming helper it calls is not defined), then the merged text.
   */
  method MergeMds(files: seq<InputFile<string>>, outputPath: Option<string>) returns (r: Result<OutputFile<string>>)
    ensures files == [] ==> r == Err(EmptyFileList)
    ensures files != [] && FirstInvalid(files, ".md", 0).Some? ==> r == Err(FirstInvalid(files, ".md", 0).value)
    ensures files != [] && FirstInvalid(files, ".md", 0).None? && outputPath.None? ==> r == Err(NoMergeNameHelper)
    ensures r.Ok? <==> files != [] && FirstInvalid(files, ".md", 0).None? && outputPath.Some?
    ensures r.Ok? ==> r.value == OutputFile(outputPath.value, Merged(files))
  {
    if files == [] {
      return Err(EmptyFileList);
    }
    var error := ValidateInputs(files, ".md");
    if error.Some? {
      return Err(error.value);
    }
    if outputPath.None? {
      return Err(NoMergeNameHelper);
    }
    var mergedContent: seq<string> := [];
    for i := 0 to |files|
      invariant mergedContent == NonEmptyContents(files[..i])
    {
      assert files[..i + 1][..i] == files[..i];
      var content := files[i].content;
      if content != [] {
        mergedContent := mergedContent + [content];
      }
    }
    assert files[..|files|] == files;
    return Ok(OutputFile(outputPath.value, Join(mergedContent, Divider)));
  }

  /** An empty file adds nothing to a merge. */
  lemma MergeSkipsEmpty(files: seq<InputFile<string>>, f: InputFile<string>)
    requires f.content == []
    ensures Merged(files + [f]) == Merged(files)
  {
    assert (files + [f])[..|files|] == files;
  }

  /**
   * A non-empty file is appended after a divider, or is the whole merge when
   * everything before it was empty.
   */
  lemma MergeAppends(files: seq<InputFile<string>>, f: InputFile<string>)
    requires f.content != []
    ensures Merged(files + [f]) == if NonEmptyContents(files) == [] then f.content
                                   else Merged(files) + Divider + f.content
  {
    var xs := NonEmptyContents(files);
    assert (files + [f])[..|files|] == files;
    assert NonEmptyContents(files + [f]) == xs + [f.content];
    if xs != [] {
      assert (xs + [f.content])[..|xs|] == xs;
    }
  }

  /**
   * Nothing is lost or added in a merge but the dividers: its length is the
   * files' lengths plus one divider between each two non-empty files.
   */
  lemma {:induction false} MergedLength(files: seq<InputFile<string>>)
    ensures var xs := NonEmptyContents(files);
            |Merged(files)| == TotalLength(xs) + (if xs == [] then 0 else (|xs| - 1) * |Divider|)
  {
    JoinLength(NonEmptyContents(files), Divider);
  }
}
