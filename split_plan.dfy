/**
 * SplitPlan: the range planning every splitter repeats. A split of `total`
 * units (characters, lines or pages) into parts of `n` is the run of windows
 * `[s, min(s + n, total))` for `s` in `range(0, total, n)`; the parts are the
 * slices of those windows, and part `k` is written to `<stem>_part<k><ext>`.
 */
module SplitPlan {
  import opened Strings
  import opened Documents
  import opened FileHandler

  function Min(a: int, b: int): int {
    if a <= b then a else b
  }

  /** `(a + n - 1) // n`: the number of windows of size `n` needed to cover `a` units. */
  function CeilDiv(a: nat, n: nat): (r: nat)
    requires n > 0
    ensures a <= r * n
    ensures r > 0 ==> (r - 1) * n < a
  {
    var q := (a + n - 1) / n;
    DivBounds(a + n - 1, n);
    q
  }

  lemma DivBounds(a: nat, n: nat)
    requires n > 0
    ensures (a / n) * n <= a < (a / n) * n + n
  {
  }

  /** The number of windows is the only one whose windows cover `a` without an empty one. */
  lemma CeilDivUnique(a: nat, n: nat, r: nat)
    requires n > 0
    requires a <= r * n && (r > 0 ==> (r - 1) * n < a)
    ensures r == CeilDiv(a, n)
  {
    var c := CeilDiv(a, n);
    if r < c {
      MulMonotone(r, c - 1, n);
    } else if r > c {
      MulMonotone(c, r - 1, n);
    }
  }

  lemma MulMonotone(x: nat, y: nat, n: nat)
    requires x <= y
    ensures x * n <= y * n
  {
  }

  lemma MulCancel(x: nat, y: nat, n: nat)
    requires x * n < y * n
    ensures x < y
  {
    if x >= y {
      MulMonotone(y, x, n);
    }
  }

  /** A half-open range `[start, end)` of units. */
  datatype Range = Range(start: nat, end: nat)

  /** Ranges that tile `[lo, hi)`: non-empty, back to back, from `lo` to `hi`. */
  predicate Tiles(rs: seq<Range>, lo: nat, hi: nat) {
    && lo <= hi
    && (rs == [] <==> lo == hi)
    && (rs != [] ==> rs[0].start == lo && rs[|rs| - 1].end == hi)
    && (forall k :: 0 <= k < |rs| ==> rs[k].start < rs[k].end)
    && (forall k :: 0 <= k < |rs| - 1 ==> rs[k].end == rs[k + 1].start)
  }

  /** A first range followed by a tiling of the rest is a tiling. */
  lemma TilesCons(r: Range, rs: seq<Range>, hi: nat)
    requires r.start < r.end && Tiles(rs, r.end, hi)
    ensures Tiles([r] + rs, r.start, hi)
  {
    var t := [r] + rs;
    forall k | 0 <= k < |t| - 1 ensures t[k].end == t[k + 1].start {
      if k > 0 {
        assert t[k] == rs[k - 1] && t[k + 1] == rs[k];
      }
    }
  }

  /** Tiling ranges come in order and never overlap. */
  lemma {:induction false} TilesOrdered(rs: seq<Range>, lo: nat, hi: nat, k: nat, l: nat)
    requires Tiles(rs, lo, hi) && k < l < |rs|
    ensures rs[k].end <= rs[l].start
    decreases l - k
  {
    if k + 1 < l {
      TilesOrdered(rs, lo, hi, k + 1, l);
    }
  }

  /** Tiling ranges lie inside `[lo, hi]`. */
  lemma TilesInside(rs: seq<Range>, lo: nat, hi: nat)
    requires Tiles(rs, lo, hi)
    ensures forall k :: 0 <= k < |rs| ==> lo <= rs[k].start <= rs[k].end <= hi
  {
    forall k | 0 <= k < |rs| ensures lo <= rs[k].start <= rs[k].end <= hi {
      if k > 0 {
        TilesOrdered(rs, lo, hi, 0, k);
      }
      if k < |rs| - 1 {
        TilesOrdered(rs, lo, hi, k, |rs| - 1);
      }
    }
  }

  /** Every unit of `[lo, hi)` lies in exactly one range of a tiling. */
  lemma TilesCover(rs: seq<Range>, lo: nat, hi: nat, p: nat)
    requires Tiles(rs, lo, hi) && lo <= p < hi
    ensures exists k :: 0 <= k < |rs| && rs[k].start <= p < rs[k].end
    ensures forall k, l :: 0 <= k < l < |rs| ==> rs[k].end <= rs[l].start
  {
    forall k, l | 0 <= k < l < |rs| ensures rs[k].end <= rs[l].start {
      TilesOrdered(rs, lo, hi, k, l);
    }
    var i := 0;
    while rs[i].end <= p
      invariant 0 <= i < |rs| && rs[i].start <= p
      decreases |rs| - i
    {
      i := i + 1;
    }
  }

  /** The windows of `range(start, total, n)`, each ending at `min(s + n, total)`. */
  function WindowsFrom(start: nat, total: nat, n: nat): (r: seq<Range>)
    requires n > 0
    ensures forall k :: 0 <= k < |r| ==> r[k].start <= r[k].end <= total
    decreases if start < total then total - start else 0
  {
    if start >= total then [] else [Range(start, Min(start + n, total))] + WindowsFrom(start + n, total, n)
  }

  function Windows(total: nat, n: nat): (r: seq<Range>)
    requires n > 0
    ensures forall k :: 0 <= k < |r| ==> r[k].start <= r[k].end <= total
  {
    WindowsFrom(0, total, n)
  }

  lemma CeilDivStep(a: nat, n: nat)
    requires n > 0 && a > 0
    ensures CeilDiv(a, n) == 1 + (if a <= n then 0 else CeilDiv(a - n, n))
  {
    if a <= n {
      CeilDivUnique(a, n, 1);
    } else {
      var c := CeilDiv(a - n, n);
      CeilDivUnique(a, n, c + 1);
    }
  }

  /** The windows from `start` tile `[start, total)`. */
  lemma {:induction false} WindowsFromTiles(start: nat, total: nat, n: nat)
    requires n > 0 && start <= total
    ensures Tiles(WindowsFrom(start, total, n), start, total)
    decreases total - start
  {
    if start < total {
      var r := Range(start, Min(start + n, total));
      if start + n < total {
        WindowsFromTiles(start + n, total, n);
        TilesCons(r, WindowsFrom(start + n, total, n), total);
      } else {
        assert WindowsFrom(start, total, n) == [r];
      }
    }
  }

  /** There are `ceil((total - start) / n)` windows from `start`. */
  lemma {:induction false} WindowsFromCount(start: nat, total: nat, n: nat)
    requires n > 0 && start <= total
    ensures |WindowsFrom(start, total, n)| == CeilDiv(total - start, n)
    decreases total - start
  {
    if start < total {
      CeilDivStep(total - start, n);
      if start + n < total {
        WindowsFromCount(start + n, total, n);
      }
    } else {
      CeilDivUnique(0, n, 0);
    }
  }

  /** Each window from `start` is at most `n` long, and all but the last exactly `n` long. */
  lemma {:induction false} WindowsFromSizes(start: nat, total: nat, n: nat)
    requires n > 0
    ensures forall k :: 0 <= k < |WindowsFrom(start, total, n)| ==> WindowsFrom(start, total, n)[k].end - WindowsFrom(start, total, n)[k].start <= n
    ensures forall k :: 0 <= k < |WindowsFrom(start, total, n)| - 1 ==> WindowsFrom(start, total, n)[k].end - WindowsFrom(start, total, n)[k].start == n
    decreases if start < total then total - start else 0
  {
    if start < total {
      var w := WindowsFrom(start, total, n);
      var rest := WindowsFrom(start + n, total, n);
      WindowsFromSizes(start + n, total, n);
      assert w == [Range(start, Min(start + n, total))] + rest;
      forall k | 0 <= k < |w| ensures w[k].end - w[k].start <= n && (k < |w| - 1 ==> w[k].end - w[k].start == n) {
        if k > 0 {
          assert w[k] == rest[k - 1];
        } else if |w| > 1 {
          assert rest != [];
        }
      }
    }
  }

  /** The fixed windows tile `[0, total)`, `ceil(total / n)` of them, of `n` units each but the last. */
  lemma WindowsTile(total: nat, n: nat)
    requires n > 0
    ensures Tiles(Windows(total, n), 0, total) && |Windows(total, n)| == CeilDiv(total, n)
    ensures forall k :: 0 <= k < |Windows(total, n)| ==> Windows(total, n)[k].end - Windows(total, n)[k].start <= n
    ensures forall k :: 0 <= k < |Windows(total, n)| - 1 ==> Windows(total, n)[k].end - Windows(total, n)[k].start == n
  {
    WindowsFromTiles(0, total, n);
    WindowsFromCount(0, total, n);
    WindowsFromSizes(0, total, n);
  }

  /** The slices `xs[r.start:r.end]` of the given ranges. */
  function Slices<T>(xs: seq<T>, rs: seq<Range>): (r: seq<seq<T>>)
    requires forall k :: 0 <= k < |rs| ==> rs[k].start <= rs[k].end <= |xs|
    ensures |r| == |rs|
  {
    if rs == [] then [] else [xs[rs[0].start..rs[0].end]] + Slices(xs, rs[1..])
  }

  /** Slice `k` is `xs[rs[k].start:rs[k].end]`. */
  lemma {:induction false} SliceAt<T>(xs: seq<T>, rs: seq<Range>, k: nat)
    requires forall j :: 0 <= j < |rs| ==> rs[j].start <= rs[j].end <= |xs|
    requires k < |rs|
    ensures Slices(xs, rs)[k] == xs[rs[k].start..rs[k].end]
    decreases k
  {
    if k > 0 {
      SliceAt(xs, rs[1..], k - 1);
    }
  }

  /** Putting the slices of a tiling of `[lo, hi)` back together gives `xs[lo:hi]`. */
  lemma {:induction false} ConcatSlices<T>(xs: seq<T>, rs: seq<Range>, lo: nat, hi: nat)
    requires Tiles(rs, lo, hi) && hi <= |xs|
    requires forall k :: 0 <= k < |rs| ==> rs[k].start <= rs[k].end <= |xs|
    ensures Concat(Slices(xs, rs)) == xs[lo..hi]
    decreases |rs|
  {
    if rs != [] {
      var m := rs[0].end;
      var rest := rs[1..];
      TilesInside(rs, lo, hi);
      assert Tiles(rest, m, hi) by {
        forall k | 0 <= k < |rest| - 1 ensures rest[k].end == rest[k + 1].start {
          assert rest[k] == rs[k + 1] && rest[k + 1] == rs[k + 2];
        }
      }
      ConcatSlices(xs, rest, m, hi);
      assert xs[lo..hi] == xs[lo..m] + xs[m..hi];
    }
  }

  /** The pieces `xs[i:i + n]` for `i` in `range(0, len(xs), n)`. */
  function Chunks<T>(xs: seq<T>, n: nat): seq<seq<T>>
    requires n > 0
  {
    Slices(xs, Windows(|xs|, n))
  }

  /**
   * Fixed-size chunks put back together give the input; there are
   * `ceil(len / n)` of them, each non-empty and at most `n` long, and all but
   * the last exactly `n` long.
   */
  lemma ChunksPartition<T>(xs: seq<T>, n: nat)
    requires n > 0
    ensures Concat(Chunks(xs, n)) == xs && |Chunks(xs, n)| == CeilDiv(|xs|, n)
    ensures forall k :: 0 <= k < |Chunks(xs, n)| ==> 0 < |Chunks(xs, n)[k]| <= n
    ensures forall k :: 0 <= k < |Chunks(xs, n)| - 1 ==> |Chunks(xs, n)[k]| == n
  {
    WindowsTile(|xs|, n);
    ConcatSlices(xs, Windows(|xs|, n), 0, |xs|);
    assert xs[0..|xs|] == xs;
    ChunkSizes(xs, n);
  }

  /** Each chunk is non-empty and at most `n` long, and all but the last exactly `n` long. */
  lemma ChunkSizes<T>(xs: seq<T>, n: nat)
    requires n > 0
    ensures forall k :: 0 <= k < |Chunks(xs, n)| ==> 0 < |Chunks(xs, n)[k]| <= n
    ensures forall k :: 0 <= k < |Chunks(xs, n)| - 1 ==> |Chunks(xs, n)[k]| == n
  {
    var w := Windows(|xs|, n);
    var c := Chunks(xs, n);
    WindowsTile(|xs|, n);
    ChunkLengths(xs, n);
    forall k | 0 <= k < |c| ensures 0 < |c[k]| <= n && (k < |c| - 1 ==> |c[k]| == n) {
      assert |c[k]| == w[k].end - w[k].start;
      assert w[k].start < w[k].end;
    }
  }

  /** Each chunk is as long as its window. */
  lemma ChunkLengths<T>(xs: seq<T>, n: nat)
    requires n > 0
    ensures forall k :: 0 <= k < |Chunks(xs, n)| ==> |Chunks(xs, n)[k]| == Windows(|xs|, n)[k].end - Windows(|xs|, n)[k].start
  {
    var w := Windows(|xs|, n);
    forall k | 0 <= k < |Chunks(xs, n)| ensures |Chunks(xs, n)[k]| == w[k].end - w[k].start {
      SliceAt(xs, w, k);
    }
  }

  /** The slices of the windows from `i` on, as the loop still has to append them. */
  lemma SlicesFrom<T>(xs: seq<T>, i: nat, n: nat)
    requires n > 0 && i < |xs|
    ensures Slices(xs, WindowsFrom(i, |xs|, n)) == [xs[i..Min(i + n, |xs|)]] + Slices(xs, WindowsFrom(i + n, |xs|, n))
  {
  }

  /** One more window: the loop invariant `parts + <windows still to do> == Chunks(xs, n)` is kept. */
  lemma ChunksStep<T>(xs: seq<T>, parts: seq<seq<T>>, start: nat, n: nat)
    requires n > 0 && start < |xs|
    requires parts + Slices(xs, WindowsFrom(start, |xs|, n)) == Chunks(xs, n)
    ensures (parts + [xs[start..Min(start + n, |xs|)]]) + Slices(xs, WindowsFrom(start + n, |xs|, n)) == Chunks(xs, n)
  {
    SlicesFrom(xs, start, n);
    var rest := Slices(xs, WindowsFrom(start + n, |xs|, n));
    var piece := xs[start..Min(start + n, |xs|)];
    assert parts + ([piece] + rest) == (parts + [piece]) + rest;
  }

  /** Past the end no window is left, so the invariant gives all the chunks. */
  lemma ChunksDone<T>(xs: seq<T>, parts: seq<seq<T>>, start: nat, n: nat)
    requires n > 0 && start >= |xs|
    requires parts + Slices(xs, WindowsFrom(start, |xs|, n)) == Chunks(xs, n)
    ensures parts == Chunks(xs, n)
  {
    assert WindowsFrom(start, |xs|, n) == [];
    assert parts + [] == parts;
  }

  /** The loop `for i in range(0, len(xs), n): parts.append(xs[i:i + n])`. */
  method ChunkLoop<T>(xs: seq<T>, n: nat) returns (parts: seq<seq<T>>)
    requires n > 0
    ensures parts == Chunks(xs, n)
  {
    parts := [];
    var i: nat := 0;
    while i < |xs|
      invariant parts + Slices(xs, WindowsFrom(i, |xs|, n)) == Chunks(xs, n)
    {
      ChunksStep(xs, parts, i, n);
      parts := parts + [xs[i..Min(i + n, |xs|)]];
      i := i + n;
    }
    ChunksDone(xs, parts, i, n);
  }

  /** The paths of parts 1, 2, ..., `count` of `path`, written with extension `ext`. */
  function PartPaths(path: string, ext: string, count: nat): (r: seq<string>)
    ensures |r| == count
    ensures forall k :: 0 <= k < count ==> r[k] == GenerateOutputFilename(path, k + 1, Some(ext))
  {
    seq(count, k requires 0 <= k < count => GenerateOutputFilename(path, k + 1, Some(ext)))
  }

  /** One more part: its path is the next in the numbering. */
  lemma PartPathsAppend(path: string, ext: string, count: nat)
    ensures PartPaths(path, ext, count + 1) == PartPaths(path, ext, count) + [GenerateOutputFilename(path, count + 1, Some(ext))]
  {
  }

  /** Part `k` lies in the input's directory and has the input's type. */
  lemma PartPathShape(path: string, ext: string, k: nat)
    requires ext in SupportedFormats
    ensures var p := GenerateOutputFilename(path, k + 1, Some(ext));
            GetFileType(p) == Some(ext) && DirPrefix(p) == DirPrefix(path)
  {
    OutputKeepsFileType(path, k + 1, ext);
    SupportedFormatShape(ext);
    assert '/' !in ext by {
      assert forall j :: 0 <= j < |ext| ==> ext[j] != '/';
    }
    OutputFilenameShape(path, k + 1, Some(ext));
  }

  /** Different parts never share a path, and each lies in the input's directory with the input's type. */
  lemma PartPathsDistinct(path: string, ext: string, count: nat)
    requires ext in SupportedFormats
    ensures var p := PartPaths(path, ext, count);
            (forall k, l :: 0 <= k < l < count ==> p[k] != p[l])
            && (forall k :: 0 <= k < count ==> GetFileType(p[k]) == Some(ext) && DirPrefix(p[k]) == DirPrefix(path))
  {
    var p := PartPaths(path, ext, count);
    forall k, l | 0 <= k < l < count ensures p[k] != p[l] {
      OutputFilenamesDistinct(path, k + 1, l + 1, Some(ext));
    }
    forall k | 0 <= k < count ensures GetFileType(p[k]) == Some(ext) && DirPrefix(p[k]) == DirPrefix(path) {
      PartPathShape(path, ext, k);
    }
  }

  /** The loop `for idx, part in enumerate(parts, 1)` that names and writes each part. */
  method WriteParts<C>(path: string, ext: string, parts: seq<C>) returns (outputs: seq<OutputFile<C>>)
    ensures Paths(outputs) == PartPaths(path, ext, |parts|)
    ensures Contents(outputs) == parts
  {
    outputs := [];
    for idx := 0 to |parts|
      invariant Paths(outputs) == PartPaths(path, ext, idx)
      invariant Contents(outputs) == parts[..idx]
    {
      var outputPath := GenerateOutputFilename(path, idx + 1, Some(ext));
      var o := OutputFile(outputPath, parts[idx]);
      WriteStep(path, ext, parts, outputs, o);
      outputs := outputs + [o];
    }
    assert parts[..|parts|] == parts;
  }

  /** Writing part `idx + 1` keeps the invariant of a loop writing the parts in order. */
  lemma WriteStep<C>(path: string, ext: string, parts: seq<C>, outputs: seq<OutputFile<C>>, o: OutputFile<C>)
    requires |outputs| < |parts|
    requires Paths(outputs) == PartPaths(path, ext, |outputs|) && Contents(outputs) == parts[..|outputs|]
    requires o == OutputFile(GenerateOutputFilename(path, |outputs| + 1, Some(ext)), parts[|outputs|])
    ensures Paths(outputs + [o]) == PartPaths(path, ext, |outputs| + 1)
    ensures Contents(outputs + [o]) == parts[..|outputs| + 1]
  {
    var idx := |outputs|;
    PartPathsAppend(path, ext, idx);
    OutputsAppend(outputs, o);
    assert parts[..idx + 1] == parts[..idx] + [parts[idx]];
  }

  /**
   * The loop `for start in range(0, len(xs), n)` (or `while start < len(xs)`)
   * that writes `xs[start:min(start + n, len(xs))]` as part 1, 2, ... as it goes.
   */
  method WriteWindows<T>(path: string, ext: string, xs: seq<T>, n: nat) returns (outputs: seq<OutputFile<seq<T>>>)
    requires n > 0
    ensures Paths(outputs) == PartPaths(path, ext, |outputs|)
    ensures Contents(outputs) == Chunks(xs, n)
  {
    outputs := [];
    var partNum := 1;
    var start: nat := 0;
    while start < |xs|
      invariant partNum == |outputs| + 1
      invariant Paths(outputs) == PartPaths(path, ext, |outputs|)
      invariant Contents(outputs) + Slices(xs, WindowsFrom(start, |xs|, n)) == Chunks(xs, n)
    {
      var end := Min(start + n, |xs|);
      var o := OutputFile(GenerateOutputFilename(path, partNum, Some(ext)), xs[start..end]);
      ChunksStep(xs, Contents(outputs), start, n);
      PartPathsAppend(path, ext, |outputs|);
      OutputsAppend(outputs, o);
      outputs := outputs + [o];
      partNum := partNum + 1;
      start := start + n;
    }
    ChunksDone(xs, Contents(outputs), start, n);
  }

  /**
   * The outcome of a split into parts of `n` units: a single part holding
   * everything when it fits, else the fixed chunks; part `k` is written to the
   * `k`-th part path.
   */
  predicate FixedSplit<T(==)>(path: string, ext: string, xs: seq<T>, n: nat, outputs: seq<OutputFile<seq<T>>>) {
    && n > 0
    && Paths(outputs) == PartPaths(path, ext, |outputs|)
    && Contents(outputs) == (if |xs| <= n then [xs] else Chunks(xs, n))
  }

  /**
   * What a fixed split promises about its parts: put back together they give
   * the input; there is one part when the input fits and `ceil(len / n)`
   * otherwise; every part is at most `n` long, all but the last exactly `n`,
   * and none is empty unless the input is.
   */
  lemma FixedSplitMeaning<T>(path: string, ext: string, xs: seq<T>, n: nat, outputs: seq<OutputFile<seq<T>>>)
    requires FixedSplit(path, ext, xs, n, outputs)
    ensures Concat(Contents(outputs)) == xs
    ensures |outputs| == (if |xs| <= n then 1 else CeilDiv(|xs|, n))
    ensures forall k :: 0 <= k < |outputs| ==> |outputs[k].content| <= n
    ensures forall k :: 0 <= k < |outputs| - 1 ==> |outputs[k].content| == n
    ensures xs != [] ==> forall k :: 0 <= k < |outputs| ==> outputs[k].content != []
  {
    FixedParts(xs, n, Contents(outputs));
  }

  /** The parts of a split are written to distinct paths, each of the input's type and in its directory. */
  lemma FixedSplitPaths<T>(path: string, ext: string, xs: seq<T>, n: nat, outputs: seq<OutputFile<seq<T>>>)
    requires FixedSplit(path, ext, xs, n, outputs) && ext in SupportedFormats
    ensures forall k, l :: 0 <= k < l < |outputs| ==> outputs[k].path != outputs[l].path
    ensures forall k :: 0 <= k < |outputs| ==>
              GetFileType(outputs[k].path) == Some(ext) && DirPrefix(outputs[k].path) == DirPrefix(path)
  {
    PartPathsDistinct(path, ext, |outputs|);
    assert forall k :: 0 <= k < |outputs| ==> outputs[k].path == Paths(outputs)[k];
  }

  /** The content half of `FixedSplitMeaning`, on the parts alone. */
  lemma FixedParts<T>(xs: seq<T>, n: nat, c: seq<seq<T>>)
    requires n > 0 && c == (if |xs| <= n then [xs] else Chunks(xs, n))
    ensures Concat(c) == xs
    ensures |c| == (if |xs| <= n then 1 else CeilDiv(|xs|, n))
    ensures forall k :: 0 <= k < |c| ==> |c[k]| <= n
    ensures forall k :: 0 <= k < |c| - 1 ==> |c[k]| == n
    ensures xs != [] ==> forall k :: 0 <= k < |c| ==> c[k] != []
  {
    if |xs| <= n {
      assert c[1..] == [];
    } else {
      ChunksPartition(xs, n);
    }
  }

  /**
   * The checks every split makes before reading anything: the input exists,
   * has the splitter's type, and (for the size-based splits) a valid size.
   */
  function CheckInput(path: string, present: bool, ext: string): Option<Error> {
    if !present then Some(FileNotFound(path))
    else if GetFileType(path) != Some(ext) then Some(WrongFormat(path))
    else None
  }

  /** The checks pass exactly for an existing input of the right type; a missing input is reported before a mistyped one. */
  lemma CheckInputMeaning(path: string, present: bool, ext: string)
    ensures CheckInput(path, present, ext).None? <==> present && GetFileType(path) == Some(ext)
    ensures !present ==> CheckInput(path, present, ext) == Some(FileNotFound(path))
    ensures present && GetFileType(path) != Some(ext) ==> CheckInput(path, present, ext) == Some(WrongFormat(path))
  {
  }

  /** The checks of a size-based split: existence, then type, then the split size. */
  function CheckSplitInput(path: string, present: bool, ext: string, value: SplitValue): (r: Option<Error>)
    ensures r.None? <==> present && GetFileType(path) == Some(ext) && ValidateSplitRule(value, ext)
    ensures r.None? ==> value.IsInt() && value.AsInt() >= 1
    ensures CheckInput(path, present, ext).Some? ==> r == CheckInput(path, present, ext)
    ensures CheckInput(path, present, ext).None? && !ValidateSplitRule(value, ext) ==> r == Some(InvalidSplitRule(value))
  {
    match CheckInput(path, present, ext)
    case Some(e) => Some(e)
    case None => if !ValidateSplitRule(value, ext) then Some(InvalidSplitRule(value)) else None
  }

  /** An input a merge accepts: it exists and has the merge's type. */
  predicate Acceptable<C>(f: InputFile<C>, ext: string) {
    f.present && GetFileType(f.path) == Some(ext)
  }

  /** What checking each input of a merge gives, in order. */
  function Checks<C>(files: seq<InputFile<C>>, ext: string): (r: seq<Option<Error>>)
    ensures |r| == |files|
  {
    seq(|files|, k requires 0 <= k < |files| => CheckInput(files[k].path, files[k].present, ext))
  }

  /** The first failure from index `i` on, or None. */
  function FirstSome<T>(xs: seq<Option<T>>, i: nat): Option<T>
    requires i <= |xs|
    decreases |xs| - i
  {
    if i == |xs| then None else if xs[i].Some? then xs[i] else FirstSome(xs, i + 1)
  }

  /** The search stops at a failure and moves past a success. */
  lemma FirstSomeStep<T>(xs: seq<Option<T>>, i: nat)
    requires i < |xs|
    ensures xs[i].Some? ==> FirstSome(xs, i) == xs[i]
    ensures xs[i].None? ==> FirstSome(xs, i) == FirstSome(xs, i + 1)
  {
  }

  lemma {:induction false} FirstSomeNone<T>(xs: seq<Option<T>>, i: nat)
    requires i <= |xs|
    ensures FirstSome(xs, i).None? <==> forall j :: i <= j < |xs| ==> xs[j].None?
    decreases |xs| - i
  {
    if i < |xs| {
      FirstSomeNone(xs, i + 1);
    }
  }

  lemma {:induction false} FirstSomeSkips<T>(xs: seq<Option<T>>, i: nat, j: nat)
    requires i <= j <= |xs|
    requires forall k :: i <= k < j ==> xs[k].None?
    ensures FirstSome(xs, i) == FirstSome(xs, j)
    decreases j - i
  {
    if i < j {
      FirstSomeSkips(xs, i + 1, j);
    }
  }

  /** The first failure among the inputs of a merge from the `i`-th on, checking existence before type, file by file. */
  function FirstInvalid<C>(files: seq<InputFile<C>>, ext: string, i: nat): Option<Error>
    requires i <= |files|
  {
    FirstSome(Checks(files, ext), i)
  }

  /** A merge finds no failure exactly when every input from `i` on is acceptable. */
  lemma FirstInvalidNone<C>(files: seq<InputFile<C>>, ext: string, i: nat)
    requires i <= |files|
    ensures FirstInvalid(files, ext, i).None? <==> forall j :: i <= j < |files| ==> Acceptable(files[j], ext)
  {
    var xs := Checks(files, ext);
    FirstSomeNone(xs, i);
    forall j | i <= j < |files| ensures xs[j].None? <==> Acceptable(files[j], ext) {
      assert xs[j] == CheckInput(files[j].path, files[j].present, ext);
    }
  }

  /** The validation loop of a merge: the existence and type checks file by file; the first failure raises. */
  method ValidateInputs<C>(files: seq<InputFile<C>>, ext: string) returns (error: Option<Error>)
    ensures error == FirstInvalid(files, ext, 0)
  {
    var i := 0;
    while i < |files|
      invariant 0 <= i <= |files|
      invariant FirstInvalid(files, ext, 0) == FirstInvalid(files, ext, i)
    {
      var check := CheckInput(files[i].path, files[i].present, ext);
      FirstInvalidStep(files, ext, i);
      if check.Some? {
        return check;
      }
      i := i + 1;
    }
    return None;
  }

  /** The search stops at the first failing input and moves past an acceptable one. */
  lemma FirstInvalidStep<C>(files: seq<InputFile<C>>, ext: string, i: nat)
    requires i < |files|
    ensures CheckInput(files[i].path, files[i].present, ext).Some? ==>
              FirstInvalid(files, ext, i) == CheckInput(files[i].path, files[i].present, ext)
    ensures CheckInput(files[i].path, files[i].present, ext).None? ==>
              FirstInvalid(files, ext, i) == FirstInvalid(files, ext, i + 1)
  {
    var xs := Checks(files, ext);
    assert xs[i] == CheckInput(files[i].path, files[i].present, ext);
    FirstSomeStep(xs, i);
  }

  /** What a missing or mistyped input raises is about that input, and only the first one is reported. */
  lemma FirstInvalidIsFirst<C>(files: seq<InputFile<C>>, ext: string, j: nat)
    requires j < |files|
    requires forall i :: 0 <= i < j ==> Acceptable(files[i], ext)
    requires !Acceptable(files[j], ext)
    ensures FirstInvalid(files, ext, 0) == CheckInput(files[j].path, files[j].present, ext)
  {
    var xs := Checks(files, ext);
    forall k | 0 <= k < j ensures xs[k].None? {
      assert Acceptable(files[k], ext);
    }
    FirstSomeSkips(xs, 0, j);
  }

  /**
   * The chunk size of an equal-parts split: 1 when there are at least as many
   * parts as characters, else `ceil(total / parts)`.
   */
  function EqualPartSize(total: nat, partsCount: nat): (r: nat)
    requires partsCount > 0
    ensures r >= 1
  {
    if partsCount >= total then 1 else CeilDiv(total, partsCount)
  }

  /** An equal-parts split never makes more parts than asked for (without chapter adjustment). */
  lemma EqualPartsAtMost(total: nat, partsCount: nat)
    requires partsCount > 0
    ensures var size := EqualPartSize(total, partsCount);
            (if total <= size then 1 else CeilDiv(total, size)) <= partsCount
  {
    var size := EqualPartSize(total, partsCount);
    if total > size {
      assert total <= size * partsCount;
      var c := CeilDiv(total, size);
      if c > partsCount {
        MulMonotone(partsCount, c - 1, size);
      }
    }
  }

  /** 1000 characters in 3 equal parts are cut 334, 334 and 332 long. */
  lemma EqualPartsExample()
    ensures EqualPartSize(1000, 3) == 334
    ensures Windows(1000, 334) == [Range(0, 334), Range(334, 668), Range(668, 1000)]
  {
    CeilDivUnique(1000, 3, 334);
    CeilDivUnique(1000, 334, 3);
  }
}
