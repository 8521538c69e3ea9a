/**
 * FileHandler: file-type recognition from the extension, validation of a
 * split size, and the `<stem>_part<N><ext>` naming of split outputs.
 *
 * Paths are POSIX paths in normal form (no trailing or doubled `/`, no `.`
 * components), for which `pathlib` splits a path at its last `/`.
 */
module FileHandler {
  import opened Strings
  import opened Documents

  /** `FileHandler.SUPPORTED_FORMATS` */
  const SupportedFormats: seq<string> := [".pdf", ".docx", ".txt", ".md"]

  /** Index of the last `/` of a path, or -1. */
  function LastSlash(path: string): int {
    LastIndexBefore(path, '/', |path|)
  }

  /** `Path(path).name`: the part after the last `/`. */
  function Name(path: string): (r: string)
    ensures '/' !in r
  {
    var k := LastSlash(path);
    path[k + 1..]
  }

  /** What `Path(path).parent / name` puts before `name`: the path up to and including its last `/`. */
  function DirPrefix(path: string): string {
    var k := LastSlash(path);
    path[..k + 1]
  }

  /** Where `Path.suffix` and `Path.stem` cut a file name: its last `.`, unless that dot starts or ends the name. */
  function DotIndex(name: string): (r: int)
    ensures r == -1 || (0 < r < |name| - 1 && name[r] == '.' && '.' !in name[r + 1..])
  {
    var i := LastIndexBefore(name, '.', |name|);
    if 0 < i < |name| - 1 then i else -1
  }

  /** `Path.suffix` of a file name. */
  function Suffix(name: string): string {
    var i := DotIndex(name);
    if i < 0 then [] else name[i..]
  }

  /** `Path.stem` of a file name. */
  function Stem(name: string): string {
    var i := DotIndex(name);
    if i < 0 then name else name[..i]
  }

  /** A file name is its stem followed by its suffix, and the suffix is empty or a dot with no further dot. */
  lemma StemSuffix(name: string)
    ensures Stem(name) + Suffix(name) == name
    ensures Suffix(name) == [] || (Suffix(name)[0] == '.' && '.' !in Suffix(name)[1..] && |Suffix(name)| >= 2)
  {
    var i := DotIndex(name);
    if i >= 0 {
      assert name == name[..i] + name[i..];
      assert name[i..][1..] == name[i + 1..];
    }
  }

  /** `Path(path).suffix.lower()`: the lower-cased extension of the file name, dot included. */
  function Extension(path: string): string {
    Lower(Suffix(Name(path)))
  }

  /** `get_file_type`: the lower-cased suffix when it is a supported format, else None. */
  function GetFileType(path: string): (r: Option<string>)
  {
    var ext := Extension(path);
    if ext in SupportedFormats then Some(ext) else None
  }

  lemma SupportedFormatShape(e: string)
    requires e in SupportedFormats
    ensures |e| >= 3 && e[0] == '.' && Lower(e) == e
    ensures forall j :: 1 <= j < |e| ==> 'a' <= e[j] <= 'z'
  {
  }

  lemma FileTypeHasEnding(path: string, e: string)
    requires e in SupportedFormats && GetFileType(path) == Some(e)
    ensures var name := Name(path);
            |name| > |e| && Lower(name[|name| - |e|..]) == e
  {
    var name := Name(path);
    var i := DotIndex(name);
    SupportedFormatShape(e);
    assert |Lower(Suffix(name))| == |e| > 0;
    assert i > 0;
    assert Suffix(name) == name[i..];
    assert i == |name| - |e|;
  }

  lemma EndingHasFileType(path: string, e: string)
    requires e in SupportedFormats
    requires |Name(path)| > |e| && Lower(Name(path)[|Name(path)| - |e|..]) == e
    ensures GetFileType(path) == Some(e)
  {
    var name := Name(path);
    EndingDot(name, e);
    var ext := Lower(Suffix(name));
    assert ext == e by {
      assert Suffix(name) == name[|name| - |e|..];
    }
  }

  /** A name ending with a supported extension, in any case, has its suffix dot where that extension starts. */
  lemma EndingDot(name: string, e: string)
    requires e in SupportedFormats
    requires |name| > |e| && Lower(name[|name| - |e|..]) == e
    ensures DotIndex(name) == |name| - |e|
  {
    var n := |e|;
    var t := name[|name| - n..];
    SupportedFormatShape(e);
    assert forall j :: |name| - n < j < |name| ==> name[j] != '.' by {
      forall j | |name| - n < j < |name| ensures name[j] != '.' {
        assert name[j] == t[j - (|name| - n)];
        assert LowerChar(t[j - (|name| - n)]) == e[j - (|name| - n)];
      }
    }
    assert name[|name| - n] == '.' by { assert LowerChar(t[0]) == e[0]; }
    LastIndexIs(name, '.', |name|, |name| - n);
  }

  /**
   * The file type is recognised from how the name ends: a path has a supported
   * type `e` exactly when its name, lower-cased, ends with `e` and has at least
   * one character before it.
   */
  lemma FileTypeByEnding(path: string, e: string)
    requires e in SupportedFormats
    ensures var name := Name(path);
            GetFileType(path) == Some(e) <==> |name| > |e| && Lower(name[|name| - |e|..]) == e
  {
    var name := Name(path);
    if GetFileType(path) == Some(e) {
      FileTypeHasEnding(path, e);
    }
    if |name| > |e| && Lower(name[|name| - |e|..]) == e {
      EndingHasFileType(path, e);
    }
  }

  /** `validate_split_rule`: a positive `int` for one of the supported types. */
  function ValidateSplitRule(value: SplitValue, fileType: string): (r: bool)
    ensures r <==> value.IsInt() && value.AsInt() > 0 && fileType in SupportedFormats
  {
    if !value.IsInt() || value.AsInt() <= 0 then false
    else if fileType in [".pdf"] then value.AsInt() >= 1
    else if fileType in [".docx", ".txt", ".md"] then value.AsInt() >= 1
    else false
  }

  /** The extension `generate_output_filename` uses: the original suffix, or the given one with a leading dot. */
  function OutputExtension(original: string, extension: Option<string>): (r: string)
    ensures extension.None? ==> r == Suffix(Name(original))
    ensures extension.Some? ==> |r| > 0 && r[0] == '.' && (r == extension.value || r == "." + extension.value)
    ensures extension.Some? && extension.value != [] && extension.value[0] == '.' ==> r == extension.value
  {
    match extension
    case None => Suffix(Name(original))
    case Some(e) => if |e| > 0 && e[0] == '.' then e else "." + e
  }

  /** The file name of part `partNumber`: `<stem>_part<N><ext>`. */
  function OutputName(original: string, partNumber: int, extension: Option<string>): string {
    Stem(Name(original)) + "_part" + IntToString(partNumber) + OutputExtension(original, extension)
  }

  /** What every output path of one input starts with: its directory, its stem and `_part`. */
  function PartPrefix(original: string): string {
    DirPrefix(original) + Stem(Name(original)) + "_part"
  }

  /** `generate_output_filename`: `<stem>_part<N><ext>` in the original's directory. */
  function GenerateOutputFilename(original: string, partNumber: int, extension: Option<string>): string {
    PartPrefix(original) + IntToString(partNumber) + OutputExtension(original, extension)
  }

  lemma NoSlashInOutputName(original: string, partNumber: int, extension: Option<string>)
    requires extension.Some? ==> '/' !in extension.value
    ensures '/' !in OutputName(original, partNumber, extension)
  {
    var name := Name(original);
    var ext := OutputExtension(original, extension);
    var digits := IntToString(partNumber);
    StemSuffix(name);
    assert '/' !in Stem(name) && '/' !in Suffix(name) by {
      assert name == Stem(name) + Suffix(name);
    }
    assert '/' !in ext by {
      if extension.Some? && ext != extension.value {
        assert ext == "." + extension.value;
      }
    }
    assert '/' !in digits by {
      assert forall j :: 0 <= j < |digits| ==> digits[j] != '/';
    }
  }

  /** Appending text without `/` leaves the last `/` where it was. */
  lemma LastSlashAppend(d: string, n: string)
    requires '/' !in n
    ensures LastSlash(d + n) == LastSlash(d)
  {
    var r := d + n;
    var k := LastSlash(d);
    if k >= 0 {
      assert forall j :: k < j < |r| ==> r[j] != '/' by {
        forall j | k < j < |r| ensures r[j] != '/' {
          if j < |d| {
            assert r[j] == d[..|d|][j];
          } else {
            assert r[j] == n[j - |d|];
          }
        }
      }
      LastIndexIs(r, '/', |r|, k);
    } else {
      assert r[..|r|] == d[..|d|] + n;
    }
  }

  /** The last `/` of a directory prefix is its final character. */
  lemma DirPrefixEndsAtSlash(original: string)
    ensures LastSlash(DirPrefix(original)) == LastSlash(original)
  {
    var k := LastSlash(original);
    var d := DirPrefix(original);
    if k >= 0 {
      assert d[k] == '/';
      LastIndexIs(d, '/', |d|, k);
    }
  }

  /** Appending a name without `/` to a directory prefix keeps the directory and gives that name. */
  lemma AppendToDirectory(original: string, n: string)
    requires '/' !in n
    ensures DirPrefix(DirPrefix(original) + n) == DirPrefix(original)
    ensures Name(DirPrefix(original) + n) == n
  {
    var d := DirPrefix(original);
    var k := LastSlash(original);
    LastSlashAppend(d, n);
    DirPrefixEndsAtSlash(original);
    assert (d + n)[..k + 1] == d;
    assert (d + n)[k + 1..] == n;
  }

  lemma Regroup(d: string, s: string, x: string, e: string)
    ensures d + s + "_part" + x + e == d + (s + "_part" + x + e)
  {
  }

  /** The output lies in the original's directory and its name is `<stem>_part<N><ext>`. */
  lemma OutputFilenameShape(original: string, partNumber: int, extension: Option<string>)
    requires extension.Some? ==> '/' !in extension.value
    ensures var r := GenerateOutputFilename(original, partNumber, extension);
            DirPrefix(r) == DirPrefix(original) && Name(r) == OutputName(original, partNumber, extension)
  {
    NoSlashInOutputName(original, partNumber, extension);
    AppendToDirectory(original, OutputName(original, partNumber, extension));
    Regroup(DirPrefix(original), Stem(Name(original)), IntToString(partNumber), OutputExtension(original, extension));
  }

  /** Distinct part numbers give distinct output paths for the same input. */
  lemma OutputFilenamesDistinct(original: string, a: int, b: int, extension: Option<string>)
    requires a != b
    ensures GenerateOutputFilename(original, a, extension) != GenerateOutputFilename(original, b, extension)
  {
    var p := PartPrefix(original);
    var e := OutputExtension(original, extension);
    var x, y := IntToString(a), IntToString(b);
    if x == y {
      IntToStringInjective(a, b);
    }
    if p + x + e == p + y + e {
      CancelAffixes(p, x, y, e);
    }
  }

  /** A part written with a supported extension is recognised as a file of that type again. */
  lemma OutputKeepsFileType(original: string, partNumber: int, e: string)
    requires e in SupportedFormats
    ensures GetFileType(GenerateOutputFilename(original, partNumber, Some(e))) == Some(e)
  {
    var r := GenerateOutputFilename(original, partNumber, Some(e));
    SupportedFormatShape(e);
    assert '/' !in e by {
      assert forall j :: 0 <= j < |e| ==> e[j] != '/';
    }
    OutputFilenameShape(original, partNumber, Some(e));
    var pre := Stem(Name(original)) + "_part" + IntToString(partNumber);
    assert OutputExtension(original, Some(e)) == e;
    assert Name(r) == pre + e;
    EndsWith(pre, e);
    EndingHasFileType(r, e);
  }

  lemma EndsWith(pre: string, e: string)
    ensures (pre + e)[|pre + e| - |e|..] == e
  {
  }
}
