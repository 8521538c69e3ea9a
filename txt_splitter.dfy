/**
 * TxtSplitter: splitting a `.txt` file into parts of a fixed number of
 * characters or of lines. The file is given by its path, whether it exists,
 * and what reading it gives (its text, or its `readlines()`); each part is the
 * path it is written to and what is written there.
 */
module TxtSplitter {
  import opened Strings
  import opened Documents
  import opened FileHandler
  import opened SplitPlan

  /** `split_by_chars`: the checks, then one copy when the text fits, else chunks written as parts. */
  method SplitByChars(inputPath: string, present: bool, content: string, charsPerSplit: SplitValue)
    returns (r: Result<seq<OutputFile<string>>>)
    ensures r.Err? <==> CheckSplitInput(inputPath, present, ".txt", charsPerSplit).Some?
    ensures r.Err? ==> Some(r.error) == CheckSplitInput(inputPath, present, ".txt", charsPerSplit)
    ensures r.Ok? ==> charsPerSplit.IsInt() && FixedSplit(inputPath, ".txt", content, charsPerSplit.AsInt(), r.value)
  {
    var check := CheckSplitInput(inputPath, present, ".txt", charsPerSplit);
    if check.Some? {
      return Err(check.value);
    }
    var n := charsPerSplit.AsInt();
    if |content| <= n {
      var outputPath := GenerateOutputFilename(inputPath, 1, Some(".txt"));
      return Ok([OutputFile(outputPath, content)]);
    }
    var textParts := ChunkLoop(content, n);
    var outputs := WriteParts(inputPath, ".txt", textParts);
    return Ok(outputs);
  }

  /** `split_by_lines`: the checks, then one copy when the lines fit, else windows of lines written as they are cut. */
  method SplitByLines(inputPath: string, present: bool, lines: seq<string>, linesPerSplit: SplitValue)
    returns (r: Result<seq<OutputFile<seq<string>>>>)
    ensures r.Err? <==> CheckSplitInput(inputPath, present, ".txt", linesPerSplit).Some?
    ensures r.Err? ==> Some(r.error) == CheckSplitInput(inputPath, present, ".txt", linesPerSplit)
    ensures r.Ok? ==> linesPerSplit.IsInt() && FixedSplit(inputPath, ".txt", lines, linesPerSplit.AsInt(), r.value)
  {
    var check := CheckSplitInput(inputPath, present, ".txt", linesPerSplit);
    if check.Some? {
      return Err(check.value);
    }
    var n := linesPerSplit.AsInt();
    if |lines| <= n {
      var outputPath := GenerateOutputFilename(inputPath, 1, Some(".txt"));
      return Ok([OutputFile(outputPath, lines)]);
    }
    var outputs := WriteWindows(inputPath, ".txt", lines, n);
    return Ok(outputs);
  }
}
