/**
 * ChapterDetector: recognising chapter headings and locating them in a text,
 * in PDF pages, in Word paragraphs and in text lines, and moving a planned cut
 * onto a nearby heading.
 *
 * Each heading grammar is a regular expression anchored at the start of the
 * stripped text; here each one is a hand-written prefix recogniser. `\d` is
 * read as the ASCII digits and case-insensitive matching as ASCII folding.
 */
module ChapterDetector {
  import opened Strings
  import opened Documents

  /** The character classes the heading grammars repeat with `+`. */
  datatype CharClass = CnNumerals | CnNumeralsOrDigits | Digits | Spaces

  const CnNumeralChars: string := "一二三四五六七八九十百千"

  predicate InClass(c: char, k: CharClass) {
    match k
    case CnNumerals => c in CnNumeralChars
    case CnNumeralsOrDigits => c in CnNumeralChars || IsDigit(c)
    case Digits => IsDigit(c)
    case Spaces => IsSpace(c)
  }

  /** The length of the longest run of class `k` starting at `i`: what a greedy `[...]+` consumes. */
  function RunLength(s: string, i: nat, k: CharClass): (r: nat)
    requires i <= |s|
    ensures i + r <= |s|
    ensures forall j :: i <= j < i + r ==> InClass(s[j], k)
    ensures i + r == |s| || !InClass(s[i + r], k)
    decreases |s| - i
  {
    if i < |s| && InClass(s[i], k) then 1 + RunLength(s, i + 1, k) else 0
  }

  /** The heading grammars. */
  datatype Pattern =
    | NumberedChapter  // ^第[一二三四五六七八九十百千0-9]+[章节篇]
    | CnNumeral        // ^[一二三四五六七八九十百千]+[、\.]
    | DigitDot         // ^\d+\.
    | MultiLevel       // ^\d+\.\d+(\.\d+)*\.?
    | EnglishKeyword   // ^(Chapter|Section|Part)\s+\d+

  const CnPatterns: seq<Pattern> := [NumberedChapter, CnNumeral, DigitDot, MultiLevel]
  const EnPatterns: seq<Pattern> := [EnglishKeyword, DigitDot, MultiLevel]

  /** The rule set a language selects: `'cn'` the Chinese one, any other value the English one. */
  function Patterns(language: string): seq<Pattern> {
    if language == "cn" then CnPatterns else EnPatterns
  }

  /** `^w\s+\d`, with `w` matched case-insensitively. */
  predicate KeywordMatches(s: string, w: string) {
    |w| <= |s| && Lower(s[..|w|]) == w && SpacesThenDigit(s, |w|)
  }

  /** `\s+\d` at `i`. */
  predicate SpacesThenDigit(s: string, i: nat)
    requires i <= |s|
  {
    var m := RunLength(s, i, Spaces);
    m >= 1 && i + m < |s| && IsDigit(s[i + m])
  }

  /** Whether `re.match(p, s, re.IGNORECASE)` succeeds. */
  predicate Matches(p: Pattern, s: string) {
    match p
    case NumberedChapter =>
      |s| >= 1 && s[0] == '第'
      && var k := RunLength(s, 1, CnNumeralsOrDigits);
         k >= 1 && 1 + k < |s| && s[1 + k] in "章节篇"
    case CnNumeral =>
      var k := RunLength(s, 0, CnNumerals);
      k >= 1 && k < |s| && s[k] in "、."
    case DigitDot =>
      var k := RunLength(s, 0, Digits);
      k >= 1 && k < |s| && s[k] == '.'
    case MultiLevel =>
      var k := RunLength(s, 0, Digits);
      k >= 1 && k < |s| && s[k] == '.' && RunLength(s, k + 1, Digits) >= 1
    case EnglishKeyword =>
      KeywordMatches(s, "chapter") || KeywordMatches(s, "section") || KeywordMatches(s, "part")
  }

  /** The loop of `is_chapter_title`: the patterns are tried in order until one matches. */
  predicate AnyMatches(patterns: seq<Pattern>, t: string) {
    |patterns| > 0 && (Matches(patterns[0], t) || AnyMatches(patterns[1..], t))
  }

  /** Trying the patterns in order succeeds exactly when one of them matches. */
  lemma {:induction false} AnyMatchesMeaning(patterns: seq<Pattern>, t: string)
    ensures AnyMatches(patterns, t) <==> exists p :: p in patterns && Matches(p, t)
  {
    if |patterns| > 0 {
      AnyMatchesMeaning(patterns[1..], t);
      assert forall p :: p in patterns <==> p == patterns[0] || p in patterns[1..];
    }
  }

  /** `is_chapter_title`: the stripped text is non-empty and one of the language's grammars matches its start. */
  predicate IsChapterTitle(text: string, language: string) {
    var t := Strip(text);
    t != [] && AnyMatches(Patterns(language), t)
  }

  /** Empty and white-space-only texts are never headings. */
  lemma BlankIsNotTitle(text: string, language: string)
    requires AllSpace(text)
    ensures !IsChapterTitle(text, language)
  {
    StripBlank(text);
  }

  /** Every language other than `'cn'` uses the English rules. */
  lemma OtherLanguagesAreEnglish(text: string, language: string)
    requires language != "cn"
    ensures IsChapterTitle(text, language) == IsChapterTitle(text, "en")
  {
  }

  /** `^\d+\.` with backtracking: some non-empty run of digits is followed by a dot. */
  lemma {:induction false} DigitDotMeaning(s: string)
    ensures Matches(DigitDot, s) <==>
            exists k :: 1 <= k < |s| && s[k] == '.' && forall j :: 0 <= j < k ==> IsDigit(s[j])
  {
    var m := RunLength(s, 0, Digits);
    if k :| 1 <= k < |s| && s[k] == '.' && forall j :: 0 <= j < k ==> IsDigit(s[j]) {
      RunCovers(s, 0, Digits, k);
      assert m <= k;
    }
    if Matches(DigitDot, s) {
      assert forall j :: 0 <= j < m ==> InClass(s[j], Digits);
    }
  }

  /** A run of `n` characters of class `k` at `i` is consumed by the greedy run. */
  lemma {:induction false} RunCovers(s: string, i: nat, k: CharClass, n: nat)
    requires i + n <= |s|
    requires forall j :: i <= j < i + n ==> InClass(s[j], k)
    ensures RunLength(s, i, k) >= n
    decreases n
  {
    if n > 0 {
      RunCovers(s, i + 1, k, n - 1);
    }
  }

  /** The multi-level grammar accepts nothing that `^\d+\.` rejects. */
  lemma MultiLevelIsDigitDot(s: string)
    requires Matches(MultiLevel, s)
    ensures Matches(DigitDot, s)
  {
  }

  /** A stripped text starting with digits and a dot is a heading in every language. */
  lemma DigitDotIsTitle(text: string, language: string)
    requires Matches(DigitDot, Strip(text))
    ensures IsChapterTitle(text, language)
  {
    assert DigitDot in Patterns(language);
    AnyMatchesMeaning(Patterns(language), Strip(text));
  }

  /** The run lengths do not see ASCII case. */
  lemma {:induction false} RunLengthLower(s: string, i: nat, k: CharClass)
    requires i <= |s|
    ensures RunLength(Lower(s), i, k) == RunLength(s, i, k)
    decreases |s| - i
  {
    if i < |s| {
      LowerCharKeeps(s[i]);
      assert InClass(Lower(s)[i], k) <==> InClass(s[i], k);
      RunLengthLower(s, i + 1, k);
    }
  }

  lemma KeywordMatchesLower(s: string, w: string)
    ensures KeywordMatches(Lower(s), w) <==> KeywordMatches(s, w)
  {
    var t := Lower(s);
    if |w| <= |s| {
      SpacesThenDigitLower(s, |w|);
      assert Lower(t[..|w|]) == Lower(s[..|w|]) by {
        forall j | 0 <= j < |w| ensures Lower(t[..|w|])[j] == Lower(s[..|w|])[j] {
          LowerCharKeeps(s[j]);
        }
      }
    }
  }

  lemma SpacesThenDigitLower(s: string, i: nat)
    requires i <= |s|
    ensures SpacesThenDigit(Lower(s), i) <==> SpacesThenDigit(s, i)
  {
    RunThenLower(s, i, Spaces);
    var m := RunLength(s, i, Spaces);
    if i + m < |s| {
      LowerCharKeeps(s[i + m]);
      assert IsDigit(Lower(s)[i + m]) <==> IsDigit(s[i + m]);
    }
  }

  lemma MatchesLower(p: Pattern, s: string)
    ensures Matches(p, Lower(s)) <==> Matches(p, s)
  {
    match p {
      case NumberedChapter => NumberedChapterLower(s);
      case CnNumeral => RunThenLower(s, 0, CnNumerals);
      case DigitDot => RunThenLower(s, 0, Digits);
      case MultiLevel =>
        RunThenLower(s, 0, Digits);
        var k := RunLength(s, 0, Digits);
        if k < |s| {
          RunLengthLower(s, k + 1, Digits);
        }
      case EnglishKeyword =>
        KeywordMatchesLower(s, "chapter");
        KeywordMatchesLower(s, "section");
        KeywordMatchesLower(s, "part");
    }
  }

  /** A run of class `k` at `i` and the character after it are the same in the lower-cased text. */
  lemma RunThenLower(s: string, i: nat, k: CharClass)
    requires i <= |s|
    ensures RunLength(Lower(s), i, k) == RunLength(s, i, k)
    ensures i + RunLength(s, i, k) < |s| ==> Lower(s)[i + RunLength(s, i, k)] == LowerChar(s[i + RunLength(s, i, k)])
    ensures i + RunLength(s, i, k) < |s| ==>
              (Lower(s)[i + RunLength(s, i, k)] == s[i + RunLength(s, i, k)]
               || 'A' <= s[i + RunLength(s, i, k)] <= 'Z')
  {
    RunLengthLower(s, i, k);
    if i + RunLength(s, i, k) < |s| {
      LowerCharKeeps(s[i + RunLength(s, i, k)]);
    }
  }

  lemma NumberedChapterLower(s: string)
    ensures Matches(NumberedChapter, Lower(s)) <==> Matches(NumberedChapter, s)
  {
    if |s| >= 1 {
      var t := Lower(s);
      LowerKeepsNonLetters(s[0], "第");
      assert t[0] == LowerChar(s[0]);
      RunThenLower(s, 1, CnNumeralsOrDigits);
      var k := RunLength(s, 1, CnNumeralsOrDigits);
      if 1 + k < |s| {
        LowerKeepsNonLetters(s[1 + k], "章节篇");
        assert t[1 + k] == LowerChar(s[1 + k]);
      }
    }
  }

  /** Lower-casing neither creates nor removes a character outside the ASCII letters. */
  lemma LowerKeepsNonLetters(c: char, cs: string)
    requires forall i :: 0 <= i < |cs| ==> !('A' <= cs[i] <= 'Z') && !('a' <= cs[i] <= 'z')
    ensures LowerChar(c) in cs <==> c in cs
  {
  }

  /** Headings are recognised case-insensitively: lower-casing the text does not change the answer. */
  lemma TitleIgnoresCase(text: string, language: string)
    ensures IsChapterTitle(Lower(text), language) <==> IsChapterTitle(text, language)
  {
    StripLower(text);
    var t := Strip(text);
    forall p | p in Patterns(language)
      ensures Matches(p, Lower(t)) <==> Matches(p, t)
    {
      MatchesLower(p, t);
    }
    AnyMatchesMeaning(Patterns(language), t);
    AnyMatchesMeaning(Patterns(language), Lower(t));
  }

  /** A heading found by a scan: where it is (character position, page, paragraph or line index) and its stripped text. */
  datatype Chapter = Chapter(at: nat, title: string)

  function Ats(chapters: seq<Chapter>): (r: seq<nat>)
    ensures |r| == |chapters| && forall k :: 0 <= k < |r| ==> r[k] == chapters[k].at
  {
    seq(|chapters|, k requires 0 <= k < |chapters| => chapters[k].at)
  }

  predicate StrictlyIncreasing(xs: seq<int>) {
    forall k, l :: 0 <= k < l < |xs| ==> xs[k] < xs[l]
  }

  /**
   * What a scan over `found[..i]` appends: `Chapter(j, t)` for each unit `j`
   * whose test gave `Some(t)`, in order.
   */
  function Collect(found: seq<Option<string>>, i: nat): (r: seq<Chapter>)
    requires i <= |found|
    ensures forall k :: 0 <= k < |r| ==> r[k].at < i
  {
    if i == 0 then []
    else
      var prev := Collect(found, i - 1);
      if found[i - 1].Some? then prev + [Chapter(i - 1, found[i - 1].value)] else prev
  }

  /**
   * A scan records only units whose test gave a title, with that title, in
   * increasing order, and records every such unit.
   */
  lemma CollectFacts(found: seq<Option<string>>, i: nat)
    requires i <= |found|
    ensures var r := Collect(found, i);
            (forall k :: 0 <= k < |r| ==> r[k].at < i && found[r[k].at] == Some(r[k].title))
            && StrictlyIncreasing(Ats(r))
            && (forall j :: 0 <= j < i && found[j].Some? ==> j in Ats(r))
  {
    CollectSound(found, i);
    CollectIncreasing(found, i);
    CollectComplete(found, i);
  }

  lemma {:induction false} CollectSound(found: seq<Option<string>>, i: nat)
    requires i <= |found|
    ensures forall k :: 0 <= k < |Collect(found, i)| ==> found[Collect(found, i)[k].at] == Some(Collect(found, i)[k].title)
  {
    if i > 0 {
      CollectSound(found, i - 1);
    }
  }

  lemma {:induction false} CollectIncreasing(found: seq<Option<string>>, i: nat)
    requires i <= |found|
    ensures StrictlyIncreasing(Ats(Collect(found, i)))
  {
    if i > 0 {
      CollectIncreasing(found, i - 1);
      var prev := Collect(found, i - 1);
      if found[i - 1].Some? {
        var r := prev + [Chapter(i - 1, found[i - 1].value)];
        assert Ats(r) == Ats(prev) + [i - 1];
      }
    }
  }

  lemma {:induction false} CollectComplete(found: seq<Option<string>>, i: nat)
    requires i <= |found|
    ensures forall j :: 0 <= j < i && found[j].Some? ==> j in Ats(Collect(found, i))
  {
    if i > 0 {
      CollectComplete(found, i - 1);
      var prev := Collect(found, i - 1);
      if found[i - 1].Some? {
        var r := prev + [Chapter(i - 1, found[i - 1].value)];
        assert Ats(r) == Ats(prev) + [i - 1];
      }
    }
  }

  /** A scan records at most one entry per unit. */
  lemma CollectAtMostOnce(found: seq<Option<string>>, i: nat)
    requires i <= |found|
    ensures |Collect(found, i)| <= i
  {
    var r := Collect(found, i);
    CollectFacts(found, i);
    if |r| > 0 {
      AtLeastIndex(Ats(r), |r| - 1);
    }
  }

  lemma {:induction false} AtLeastIndex(xs: seq<nat>, l: nat)
    requires l < |xs| && StrictlyIncreasing(xs)
    ensures xs[l] >= l
  {
    if l > 0 {
      AtLeastIndex(xs, l - 1);
    }
  }

  // find_chapter_positions

  /**
   * The position `find_chapter_positions` gives line `i`: the lengths of the
   * lines before it AFTER stripping, plus one per newline.
   */
  function StrippedOffset(lines: seq<string>, i: nat): nat
    requires i <= |lines|
  {
    if i == 0 then 0 else StrippedOffset(lines, i - 1) + |Strip(lines[i - 1])| + 1
  }

  /** Which lines are headings in `language`, and their stripped text. */
  function LineTitles(lines: seq<string>, language: string): (r: seq<Option<string>>)
    ensures |r| == |lines|
    ensures forall j :: 0 <= j < |lines| ==>
              r[j] == if IsChapterTitle(Strip(lines[j]), language) then Some(Strip(lines[j])) else None
  {
    seq(|lines|, j requires 0 <= j < |lines| =>
      if IsChapterTitle(Strip(lines[j]), language) then Some(Strip(lines[j])) else None)
  }

  /** The line-indexed headings, with each line index replaced by its stripped offset. */
  function AtOffsets(lines: seq<string>, found: seq<Chapter>): (r: seq<Chapter>)
    requires forall k :: 0 <= k < |found| ==> found[k].at < |lines|
    ensures |r| == |found|
    ensures forall k :: 0 <= k < |r| ==> r[k] == Chapter(StrippedOffset(lines, found[k].at), found[k].title)
  {
    seq(|found|, k requires 0 <= k < |found| => Chapter(StrippedOffset(lines, found[k].at), found[k].title))
  }

  lemma AtOffsetsAppend(lines: seq<string>, found: seq<Chapter>, c: Chapter)
    requires forall k :: 0 <= k < |found| ==> found[k].at < |lines|
    requires c.at < |lines|
    ensures AtOffsets(lines, found + [c]) == AtOffsets(lines, found) + [Chapter(StrippedOffset(lines, c.at), c.title)]
  {
  }

  /** The result of `find_chapter_positions(text, language)`. */
  function ChapterPositions(text: string, language: string): seq<Chapter> {
    var lines := Split(text, '\n');
    CollectFacts(LineTitles(lines, language), |lines|);
    AtOffsets(lines, Collect(LineTitles(lines, language), |lines|))
  }

  /** `find_chapter_positions`: scans the lines, accumulating the stripped offset. */
  method FindChapterPositions(text: string, language: string) returns (chapters: seq<Chapter>)
    ensures chapters == ChapterPositions(text, language)
  {
    var lines := Split(text, '\n');
    chapters := [];
    var currentPos: nat := 0;
    for i := 0 to |lines|
      invariant chapters == ScannedPositions(lines, language, i)
      invariant currentPos == StrippedOffset(lines, i)
    {
      var line := Strip(lines[i]);
      ScannedStep(lines, language, i);
      if IsChapterTitle(line, language) {
        chapters := chapters + [Chapter(currentPos, line)];
      }
      currentPos := currentPos + |line| + 1;
    }
    ScannedPositionsAre(lines, language, |lines|);
  }

  /** The headings among the first `i` lines, each at its stripped offset, as the scan appends them. */
  function ScannedPositions(lines: seq<string>, language: string, i: nat): seq<Chapter>
    requires i <= |lines|
  {
    if i == 0 then []
    else
      var line := Strip(lines[i - 1]);
      ScannedPositions(lines, language, i - 1)
      + (if IsChapterTitle(line, language) then [Chapter(StrippedOffset(lines, i - 1), line)] else [])
  }

  lemma ScannedStep(lines: seq<string>, language: string, i: nat)
    requires i < |lines|
    ensures IsChapterTitle(Strip(lines[i]), language) ==>
              ScannedPositions(lines, language, i + 1)
              == ScannedPositions(lines, language, i) + [Chapter(StrippedOffset(lines, i), Strip(lines[i]))]
    ensures !IsChapterTitle(Strip(lines[i]), language) ==>
              ScannedPositions(lines, language, i + 1) == ScannedPositions(lines, language, i)
  {
    assert ScannedPositions(lines, language, i) + [] == ScannedPositions(lines, language, i);
  }

  lemma {:induction false} ScannedPositionsAre(lines: seq<string>, language: string, i: nat)
    requires i <= |lines|
    ensures ScannedPositions(lines, language, i) == AtOffsets(lines, Collect(LineTitles(lines, language), i))
  {
    if i > 0 {
      ScannedPositionsAre(lines, language, i - 1);
      PositionsStep(lines, language, i - 1);
    }
  }

  /** One more line scanned adds its heading, at its stripped offset, or nothing. */
  lemma PositionsStep(lines: seq<string>, language: string, i: nat)
    requires i < |lines|
    ensures var line := Strip(lines[i]);
            AtOffsets(lines, Collect(LineTitles(lines, language), i + 1))
            == AtOffsets(lines, Collect(LineTitles(lines, language), i))
               + (if IsChapterTitle(line, language) then [Chapter(StrippedOffset(lines, i), line)] else [])
  {
    var titles := LineTitles(lines, language);
    var line := Strip(lines[i]);
    var prev := Collect(titles, i);
    if IsChapterTitle(line, language) {
      assert Collect(titles, i + 1) == prev + [Chapter(i, line)];
      AtOffsetsAppend(lines, prev, Chapter(i, line));
    } else {
      assert Collect(titles, i + 1) == prev;
    }
  }

  lemma {:induction false} StrippedOffsetIncreases(lines: seq<string>, i: nat, j: nat)
    requires i < j <= |lines|
    ensures StrippedOffset(lines, i) < StrippedOffset(lines, j)
    decreases j
  {
    if i < j - 1 {
      StrippedOffsetIncreases(lines, i, j - 1);
    }
  }

  /** The stripped line `i` ends no later than line `i` does in the joined text. */
  lemma {:induction false} StrippedOffsetFits(lines: seq<string>, i: nat)
    requires i < |lines|
    ensures StrippedOffset(lines, i) + |Strip(lines[i])| <= |Join(lines[..i + 1], "\n")|
    decreases i
  {
    if i > 0 {
      StrippedOffsetFits(lines, i - 1);
      assert lines[..i + 1][..i] == lines[..i];
    } else {
      assert lines[..1] == [lines[0]];
    }
  }

  lemma {:induction false} JoinPrefixLength(xs: seq<string>, sep: string, i: nat)
    requires 1 <= i <= |xs|
    ensures |Join(xs[..i], sep)| <= |Join(xs, sep)|
    decreases |xs| - i
  {
    if i < |xs| {
      assert xs[..i + 1][..i] == xs[..i];
      JoinPrefixLength(xs, sep, i + 1);
    } else {
      assert xs[..i] == xs;
    }
  }

  /**
   * `find_chapter_positions` reports headings in text order: positions strictly
   * increase, each title is a stripped line that is a heading, and the title
   * fits inside the text from its position on.
   */
  lemma ChapterPositionsOrdered(text: string, language: string)
    ensures var r := ChapterPositions(text, language);
            StrictlyIncreasing(Ats(r))
            && forall k :: 0 <= k < |r| ==> r[k].at + |r[k].title| <= |text| && IsChapterTitle(r[k].title, language)
  {
    PositionsIncrease(text, language);
    PositionsInside(text, language);
  }

  lemma PositionsIncrease(text: string, language: string)
    ensures StrictlyIncreasing(Ats(ChapterPositions(text, language)))
  {
    var lines := Split(text, '\n');
    var found := Collect(LineTitles(lines, language), |lines|);
    CollectFacts(LineTitles(lines, language), |lines|);
    var r := ChapterPositions(text, language);
    forall k, l | 0 <= k < l < |r| ensures r[k].at < r[l].at {
      assert Ats(found)[k] < Ats(found)[l];
      StrippedOffsetIncreases(lines, found[k].at, found[l].at);
    }
  }

  lemma PositionsInside(text: string, language: string)
    ensures var r := ChapterPositions(text, language);
            forall k :: 0 <= k < |r| ==> r[k].at + |r[k].title| <= |text| && IsChapterTitle(r[k].title, language)
  {
    var r := ChapterPositions(text, language);
    forall k | 0 <= k < |r| ensures r[k].at + |r[k].title| <= |text| && IsChapterTitle(r[k].title, language) {
      PositionInside(text, language, k);
    }
  }

  lemma PositionInside(text: string, language: string, k: nat)
    requires k < |ChapterPositions(text, language)|
    ensures var c := ChapterPositions(text, language)[k];
            c.at + |c.title| <= |text| && IsChapterTitle(c.title, language)
  {
    var lines := Split(text, '\n');
    var found := Collect(LineTitles(lines, language), |lines|);
    CollectFacts(LineTitles(lines, language), |lines|);
    var j := found[k].at;
    assert ChapterPositions(text, language)[k] == Chapter(StrippedOffset(lines, j), Strip(lines[j]));
    StrippedOffsetFits(lines, j);
    JoinPrefixLength(lines, "\n", j + 1);
    JoinSplit(text, '\n');
  }

  /** Every line that is a heading is reported, at its stripped offset. */
  lemma ChapterPositionsComplete(text: string, language: string, j: nat)
    requires j < |Split(text, '\n')| && IsChapterTitle(Strip(Split(text, '\n')[j]), language)
    ensures var lines := Split(text, '\n');
            Chapter(StrippedOffset(lines, j), Strip(lines[j])) in ChapterPositions(text, language)
  {
    var lines := Split(text, '\n');
    var found := Collect(LineTitles(lines, language), |lines|);
    CollectFacts(LineTitles(lines, language), |lines|);
    assert j in Ats(found);
    var k :| 0 <= k < |found| && found[k].at == j;
    assert ChapterPositions(text, language)[k] == Chapter(StrippedOffset(lines, j), Strip(lines[j]));
  }

  /**
   * Because offsets add up stripped lengths, a position can fall short of where
   * its line starts: after the line " x", the heading "1. A" starts at offset 3
   * of the text but is reported at position 2.
   */
  lemma PositionCanLagLineStart()
    ensures ChapterPositions(" x\n1. A", "cn") == [Chapter(2, "1. A")]
  {
    ExampleLines();
    ExampleLineTitles();
    ExampleCollect();
    ExampleOffset();
  }

  lemma ExampleLines()
    ensures Split(" x\n1. A", '\n') == [" x", "1. A"]
    ensures " x\n1. A"[3..] == "1. A"
  {
    var text := " x\n1. A";
    ExampleNewline();
    SplitFirst(text, '\n');
    ExampleLastLine();
  }

  lemma ExampleNewline()
    ensures IndexOf(" x\n1. A", '\n') == 2
    ensures " x\n1. A"[..2] == " x" && " x\n1. A"[3..] == "1. A"
  {
    var text := " x\n1. A";
    assert text[2] == '\n' && text[..2] == " x";
  }

  lemma ExampleLastLine()
    ensures Split("1. A", '\n') == ["1. A"]
  {
    assert '\n' !in "1. A";
  }

  lemma ExampleCollect()
    ensures Collect([None, Some("1. A")], 2) == [Chapter(1, "1. A")]
  {
    assert Collect([None, Some("1. A")], 1) == [];
  }

  lemma ExampleOffset()
    ensures StrippedOffset([" x", "1. A"], 1) == 2
  {
    ExampleStrips();
  }

  lemma ExampleLineTitles()
    ensures LineTitles([" x", "1. A"], "cn") == [None, Some("1. A")]
  {
    ExampleStrips();
    ExampleTitles();
  }

  lemma ExampleStrips()
    ensures Strip(" x") == "x" && Strip("1. A") == "1. A"
  {
    assert StripLeft(" x") == StripLeft("x") == "x";
    assert StripRight("x") == "x";
    assert StripLeft("1. A") == "1. A";
    assert StripRight("1. A") == "1. A";
  }

  lemma ExampleTitles()
    ensures !IsChapterTitle("x", "cn") && IsChapterTitle("1. A", "cn")
  {
    ExampleNotTitle();
    assert Strip("1. A") == "1. A" by { ExampleStrips(); }
    assert Matches(DigitDot, "1. A") by {
      assert RunLength("1. A", 1, Digits) == 0;
      assert RunLength("1. A", 0, Digits) == 1;
    }
    DigitDotIsTitle("1. A", "cn");
  }

  lemma ExampleNotTitle()
    ensures !IsChapterTitle("x", "cn")
  {
    assert StripLeft("x") == "x" && StripRight("x") == "x";
    assert RunLength("x", 0, CnNumerals) == 0;
    assert RunLength("x", 0, Digits) == 0;
    assert !Matches(NumberedChapter, "x");
    assert !Matches(CnNumeral, "x");
    assert !Matches(DigitDot, "x");
    assert !Matches(MultiLevel, "x");
    assert !AnyMatches(CnPatterns[3..], "x");
  }

  // find_page_chapter_positions, find_paragraph_chapter_positions, find_line_chapter_positions

  /** The test the page, paragraph and line scans share: a heading in either language. */
  predicate IsAnyTitle(text: string) {
    IsChapterTitle(text, "cn") || IsChapterTitle(text, "en")
  }

  /** The index of the first line of `lines[i..]` that is a heading once stripped. */
  function FirstTitleLine(lines: seq<string>, i: nat): (r: Option<nat>)
    requires i <= |lines|
    ensures r.Some? ==> i <= r.value < |lines| && IsAnyTitle(Strip(lines[r.value]))
    ensures r.Some? ==> forall j :: i <= j < r.value ==> !IsAnyTitle(Strip(lines[j]))
    ensures r.None? ==> forall j :: i <= j < |lines| ==> !IsAnyTitle(Strip(lines[j]))
    decreases |lines| - i
  {
    if i == |lines| then None
    else if IsAnyTitle(Strip(lines[i])) then Some(i)
    else FirstTitleLine(lines, i + 1)
  }

  /**
   * What `find_page_chapter_positions` records for one page: the first heading
   * line, stripped; nothing when extraction raises or gives an empty text.
   */
  function PageTitle(page: PageText): Option<string> {
    match page
    case ExtractionFails => None
    case Extracted(text) =>
      if text == [] then None
      else
        var lines := Split(text, '\n');
        match FirstTitleLine(lines, 0)
        case None => None
        case Some(j) => Some(Strip(lines[j]))
  }

  function PageTitles(pages: seq<PageText>): (r: seq<Option<string>>)
    ensures |r| == |pages| && forall j :: 0 <= j < |pages| ==> r[j] == PageTitle(pages[j])
  {
    seq(|pages|, j requires 0 <= j < |pages| => PageTitle(pages[j]))
  }

  lemma CollectStep(found: seq<Option<string>>, i: nat)
    requires i < |found|
    ensures Collect(found, i + 1)
            == if found[i].Some? then Collect(found, i) + [Chapter(i, found[i].value)] else Collect(found, i)
  {
  }

  /** `find_page_chapter_positions`: for each page the first heading line, stopping at it. */
  method FindPageChapterPositions(pages: seq<PageText>) returns (chapters: seq<Chapter>)
    ensures chapters == Collect(PageTitles(pages), |pages|)
  {
    ghost var titles := PageTitles(pages);
    chapters := [];
    for pageNum := 0 to |pages|
      invariant chapters == Collect(titles, pageNum)
    {
      CollectStep(titles, pageNum);
      match pages[pageNum] {
        case ExtractionFails =>
        case Extracted(text) =>
          if text != [] {
            var lines := Split(text, '\n');
            var i := 0;
            while i < |lines|
              invariant 0 <= i <= |lines|
              invariant FirstTitleLine(lines, 0) == FirstTitleLine(lines, i)
              invariant chapters == Collect(titles, pageNum)
            {
              var line := Strip(lines[i]);
              if IsChapterTitle(line, "cn") || IsChapterTitle(line, "en") {
                chapters := chapters + [Chapter(pageNum, line)];
                break;
              }
              i := i + 1;
            }
          }
      }
    }
  }

  /**
   * Pages are reported in order, each at most once, with a heading line of that
   * page; a page whose text cannot be extracted is never reported.
   */
  lemma PageChaptersOrdered(pages: seq<PageText>)
    ensures var r := Collect(PageTitles(pages), |pages|);
            StrictlyIncreasing(Ats(r)) && |r| <= |pages|
            && forall k :: 0 <= k < |r| ==> r[k].at < |pages| && pages[r[k].at].Extracted? && IsAnyTitle(r[k].title)
  {
    var found := PageTitles(pages);
    CollectFacts(found, |pages|);
    CollectAtMostOnce(found, |pages|);
  }

  /** Which paragraphs or lines the two unit scans record: those whose stripped text is non-empty and a heading. */
  function UnitTitles(texts: seq<string>): (r: seq<Option<string>>)
    ensures |r| == |texts|
    ensures forall j :: 0 <= j < |texts| ==>
              r[j] == if Strip(texts[j]) != [] && IsAnyTitle(Strip(texts[j])) then Some(Strip(texts[j])) else None
  {
    seq(|texts|, j requires 0 <= j < |texts| =>
      if Strip(texts[j]) != [] && IsAnyTitle(Strip(texts[j])) then Some(Strip(texts[j])) else None)
  }

  /** `find_line_chapter_positions`: the indices of the heading lines. */
  method FindLineChapterPositions(lines: seq<string>) returns (chapters: seq<Chapter>)
    ensures chapters == Collect(UnitTitles(lines), |lines|)
  {
    ghost var titles := UnitTitles(lines);
    chapters := [];
    for lineIndex := 0 to |lines|
      invariant chapters == Collect(titles, lineIndex)
    {
      CollectStep(titles, lineIndex);
      var text := Strip(lines[lineIndex]);
      assert titles[lineIndex] == if text != [] && IsAnyTitle(text) then Some(text) else None;
      if text != [] && (IsChapterTitle(text, "cn") || IsChapterTitle(text, "en")) {
        chapters := chapters + [Chapter(lineIndex, text)];
      }
    }
  }

  /** `find_paragraph_chapter_positions`: the indices of the heading paragraphs. */
  method FindParagraphChapterPositions(paragraphs: seq<Paragraph>) returns (chapters: seq<Chapter>)
    ensures chapters == Collect(UnitTitles(ParagraphTexts(paragraphs)), |paragraphs|)
  {
    ghost var texts := ParagraphTexts(paragraphs);
    ghost var titles := UnitTitles(texts);
    chapters := [];
    for paraIndex := 0 to |paragraphs|
      invariant chapters == Collect(titles, paraIndex)
    {
      CollectStep(titles, paraIndex);
      var text := Strip(paragraphs[paraIndex].text);
      assert titles[paraIndex] == if text != [] && IsAnyTitle(text) then Some(text) else None;
      if text != [] && (IsChapterTitle(text, "cn") || IsChapterTitle(text, "en")) {
        chapters := chapters + [Chapter(paraIndex, text)];
      }
    }
  }

  /**
   * The unit scans record exactly the units whose stripped text is a heading
   * in either language, in order, each with its stripped text.
   */
  lemma UnitChaptersExact(texts: seq<string>, j: nat)
    requires j < |texts|
    ensures var r := Collect(UnitTitles(texts), |texts|);
            StrictlyIncreasing(Ats(r))
            && (j in Ats(r) <==> IsAnyTitle(texts[j]))
            && forall k :: 0 <= k < |r| ==> r[k].title == Strip(texts[r[k].at])
  {
    var found := UnitTitles(texts);
    var r := Collect(found, |texts|);
    CollectFacts(found, |texts|);
    StripIdempotent(texts[j]);
    if j in Ats(r) {
      var k :| 0 <= k < |r| && Ats(r)[k] == j;
      assert found[j].Some?;
    }
  }

  lemma StripIdempotent(s: string)
    ensures Strip(Strip(s)) == Strip(s)
  {
    var t := Strip(s);
    StripShape(s);
    if t != [] {
      assert StripLeft(t) == t;
      assert StripRight(t) == t;
    }
  }

  // get_chapter_breaks and adjust_split_point

  /** `get_chapter_breaks`: the heading positions, increasing and within the text. */
  function ChapterBreaks(text: string, language: string): (r: seq<nat>)
    ensures StrictlyIncreasing(r) && forall k :: 0 <= k < |r| ==> r[k] <= |text|
  {
    ChapterPositionsOrdered(text, language);
    Ats(ChapterPositions(text, language))
  }

  function Distance(a: int, b: int): nat {
    if a >= b then a - b else b - a
  }

  /**
   * The break `adjust_split_point` settles on among `breaks[..i]`: the first
   * one at the smallest distance from `target`, among those at most
   * `maxAdjustment` away; None when there is none.
   */
  function Nearest(breaks: seq<nat>, target: int, maxAdjustment: int, i: nat): (r: Option<nat>)
    requires i <= |breaks|
    ensures r.Some? ==> r.value < i && Distance(breaks[r.value], target) <= maxAdjustment
  {
    if i == 0 then None
    else
      var prev := Nearest(breaks, target, maxAdjustment, i - 1);
      var d := Distance(breaks[i - 1], target);
      if d <= maxAdjustment && (prev.None? || d < Distance(breaks[prev.value], target)) then Some(i - 1)
      else prev
  }

  /**
   * The break settled on is at the smallest distance among those in reach,
   * and every earlier break is farther: ties go to the first. There is none
   * exactly when every break is out of reach.
   */
  lemma {:induction false} NearestIsNearest(breaks: seq<nat>, target: int, maxAdjustment: int, i: nat)
    requires i <= |breaks|
    ensures Nearest(breaks, target, maxAdjustment, i).Some? ==>
              forall j :: 0 <= j < i && Distance(breaks[j], target) <= maxAdjustment ==>
                Distance(breaks[Nearest(breaks, target, maxAdjustment, i).value], target) <= Distance(breaks[j], target)
    ensures Nearest(breaks, target, maxAdjustment, i).Some? ==>
              forall j :: 0 <= j < Nearest(breaks, target, maxAdjustment, i).value ==>
                Distance(breaks[j], target) > Distance(breaks[Nearest(breaks, target, maxAdjustment, i).value], target)
    ensures Nearest(breaks, target, maxAdjustment, i).None? <==>
              forall j :: 0 <= j < i ==> Distance(breaks[j], target) > maxAdjustment
  {
    if i > 0 {
      NearestIsNearest(breaks, target, maxAdjustment, i - 1);
    }
  }

  /**
   * Where the cut goes for a chosen break: at the break when it is not after
   * the target; otherwise at the last newline before the break if that is not
   * more than `maxAdjustment` before the target, else at the break.
   */
  function CutAt(text: string, target: int, maxAdjustment: int, chapterPos: nat): int {
    if chapterPos <= target then chapterPos
    else
      var newlinePos := RFind(text, '\n', chapterPos);
      if newlinePos != -1 && newlinePos >= target - maxAdjustment then newlinePos else chapterPos
  }

  /** Where `adjust_split_point` cuts, given the chapter breaks of the text. */
  function AdjustAmong(breaks: seq<nat>, target: int, text: string, maxAdjustment: int): int {
    match Nearest(breaks, target, maxAdjustment, |breaks|)
    case None => target
    case Some(b) => CutAt(text, target, maxAdjustment, breaks[b])
  }

  /** The result of `adjust_split_point`. */
  function AdjustedSplitPoint(target: int, text: string, language: string, maxAdjustment: int): int {
    AdjustAmong(ChapterBreaks(text, language), target, text, maxAdjustment)
  }

  /** `adjust_split_point`: the text's chapter breaks, then the target itself when there is none. */
  method AdjustSplitPoint(target: int, text: string, language: string, maxAdjustment: int) returns (bestPosition: int)
    ensures bestPosition == AdjustedSplitPoint(target, text, language, maxAdjustment)
  {
    var chapterBreaks := ChapterBreaks(text, language);
    if chapterBreaks == [] {
      return target;
    }
    bestPosition := ScanBreaks(chapterBreaks, target, text, maxAdjustment);
  }

  /** The loop of `adjust_split_point`: one pass over the breaks, keeping the closest so far. */
  method ScanBreaks(chapterBreaks: seq<nat>, target: int, text: string, maxAdjustment: int) returns (bestPosition: int)
    ensures bestPosition == AdjustAmong(chapterBreaks, target, text, maxAdjustment)
  {
    bestPosition := target;
    var minDistance: Option<nat> := None;  // None stands for float('inf')
    for i := 0 to |chapterBreaks|
      invariant var n := Nearest(chapterBreaks, target, maxAdjustment, i);
                (n.None? ==> minDistance.None? && bestPosition == target)
                && (n.Some? ==> minDistance == Some(Distance(chapterBreaks[n.value], target))
                                && bestPosition == CutAt(text, target, maxAdjustment, chapterBreaks[n.value]))
    {
      var chapterPos := chapterBreaks[i];
      var distance := Distance(chapterPos, target);
      if distance <= maxAdjustment && (minDistance.None? || distance < minDistance.value) {
        minDistance := Some(distance);
        if chapterPos <= target {
          bestPosition := chapterPos;
        } else {
          var newlinePos := RFind(text, '\n', chapterPos);
          if newlinePos != -1 && newlinePos >= target - maxAdjustment {
            bestPosition := newlinePos;
          } else {
            bestPosition := chapterPos;
          }
        }
      }
    }
  }

  /**
   * The adjusted cut is the target itself when no heading lies within
   * `maxAdjustment` of it; otherwise it is at most `maxAdjustment` away from the
   * target and no later than the chosen heading.
   */
  lemma AdjustStaysInWindow(breaks: seq<nat>, target: int, text: string, maxAdjustment: int)
    requires forall k :: 0 <= k < |breaks| ==> breaks[k] <= |text|
    ensures var r := AdjustAmong(breaks, target, text, maxAdjustment);
            ((forall j :: 0 <= j < |breaks| ==> Distance(breaks[j], target) > maxAdjustment) ==> r == target)
            && (r == target || Distance(r, target) <= maxAdjustment)
            && (0 <= target <= |text| ==> 0 <= r <= |text|)
            && (Nearest(breaks, target, maxAdjustment, |breaks|).Some? ==>
                  r <= breaks[Nearest(breaks, target, maxAdjustment, |breaks|).value])
  {
    NearestIsNearest(breaks, target, maxAdjustment, |breaks|);
  }
}
