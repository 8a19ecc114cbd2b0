/**
 * The local Markmap view (`orca-mindmap-local.ts`): `blocksToMarkdown`
 * turns the flat list of page blocks into one ATX heading per non-blank
 * block, breaking long text into lines of at most fifty characters.
 *
 * The two regular expressions of the long-text branch are scanners:
 * `replace(/(.{50})/g, '$1\n')` is `InsertBreaks` and
 * `replace(/\n\s+/g, '\n')` is `DropIndent`.
 */
module OrcaMindmapLocal {
  import opened Text
  import opened Seqs
  import opened Markdown

  const EmptyPage: string := "# 页面内容为空"

  /** A character that `trim` and `\s` leave alone. */
  predicate Visible(c: char) {
    !IsWhite(c)
  }

  // ---------------------------------------------------------------------
  // Line width

  /**
   * Every line of `s` has at most fifty characters, and the first at most
   * `budget`: a line terminator resets the budget, any other character
   * uses one unit of it.
   */
  predicate FitsWidth(s: string, budget: nat)
    decreases |s|
  {
    if s == [] then true
    else if IsLineTerminator(s[0]) then FitsWidth(s[1..], 50)
    else budget > 0 && FitsWidth(s[1..], budget - 1)
  }

  lemma {:induction false} FitsWidthMore(s: string, b1: nat, b2: nat)
    requires FitsWidth(s, b1) && b1 <= b2
    ensures FitsWidth(s, b2)
    decreases |s|
  {
    if s != [] && !IsLineTerminator(s[0]) {
      FitsWidthMore(s[1..], b1 - 1, b2 - 1);
    }
  }

  /** Text of at most `budget` characters fits. */
  lemma {:induction false} ShortFits(s: string, budget: nat)
    requires |s| <= budget <= 50
    ensures FitsWidth(s, budget)
    decreases |s|
  {
    if s != [] {
      ShortFits(s[1..], budget - 1);
      if IsLineTerminator(s[0]) {
        FitsWidthMore(s[1..], budget - 1, 50);
      }
    }
  }

  /** Every line of a suffix is part of a line of the whole. */
  lemma {:induction false} FitsWidthSuffix(s: string, budget: nat, j: nat)
    requires FitsWidth(s, budget) && budget <= 50 && j <= |s|
    ensures FitsWidth(s[j..], 50)
    decreases j
  {
    if j == 0 {
      FitsWidthMore(s, budget, 50);
    } else {
      assert s[1..][j - 1..] == s[j..];
      if IsLineTerminator(s[0]) {
        FitsWidthSuffix(s[1..], 50, j - 1);
      } else {
        FitsWidthSuffix(s[1..], budget - 1, j - 1);
      }
    }
  }

  /** Characters free of line terminators in front of text that fits in what is left. */
  lemma {:induction false} ChunkFits(a: string, t: string, budget: nat)
    requires forall i :: 0 <= i < |a| ==> !IsLineTerminator(a[i])
    requires |a| <= budget && FitsWidth(t, budget - |a|)
    ensures FitsWidth(a + t, budget)
    decreases |a|
  {
    if a != [] {
      assert (a + t)[0] == a[0] && (a + t)[1..] == a[1..] + t;
      ChunkFits(a[1..], t, budget - 1);
    } else {
      assert a + t == t;
    }
  }

  // ---------------------------------------------------------------------
  // replace(/(.{50})/g, '$1\n')

  /** The number of characters before the first line terminator. */
  function LeadRun(s: string): (r: nat)
    ensures r <= |s|
    ensures r < |s| ==> IsLineTerminator(s[r])
  {
    if s == [] || IsLineTerminator(s[0]) then 0 else 1 + LeadRun(s[1..])
  }

  /** No line terminator comes before the one `LeadRun` stops at. */
  lemma {:induction false} LeadRunSpec(s: string)
    ensures forall i :: 0 <= i < LeadRun(s) ==> !IsLineTerminator(s[i])
    decreases |s|
  {
    if s != [] && !IsLineTerminator(s[0]) {
      LeadRunSpec(s[1..]);
      assert forall i :: 1 <= i < LeadRun(s) ==> s[i] == s[1..][i - 1];
    }
  }

  /**
   * The global replace scans from the left: where fifty characters other
   * than line terminators follow, it copies them and adds a line feed,
   * then goes on after them; elsewhere it copies one character.
   */
  function InsertBreaks(s: string): string
    decreases |s|
  {
    if s == [] then []
    else if LeadRun(s) >= 50 then s[..50] + "\n" + InsertBreaks(s[50..])
    else [s[0]] + InsertBreaks(s[1..])
  }

  /** Only line feeds are inserted: a filter that drops line feeds sees the same characters before and after. */
  lemma {:induction false} BreaksKeep(s: string, p: char -> bool)
    requires !p('\n')
    ensures Filter(InsertBreaks(s), p) == Filter(s, p)
    decreases |s|
  {
    if s != [] {
      if LeadRun(s) >= 50 {
        var rest := InsertBreaks(s[50..]);
        BreaksKeep(s[50..], p);
        assert InsertBreaks(s) == s[..50] + (['\n'] + rest);
        FilterAppend(s[..50], ['\n'] + rest, p);
        FilterCons('\n', rest, p);
        FilterAppend(s[..50], s[50..], p);
        assert s == s[..50] + s[50..];
      } else {
        BreaksKeep(s[1..], p);
        FilterCons(s[0], InsertBreaks(s[1..]), p);
        FilterCons(s[0], s[1..], p);
        assert s == [s[0]] + s[1..];
      }
    }
  }

  /**
   * After the breaks no line is longer than fifty characters; the first is
   * no longer than `budget` when the text starts with fewer than `budget`
   * characters before a line terminator.
   */
  lemma {:induction false} BreaksFit(s: string, budget: nat)
    requires budget <= 50 && (budget == 50 || LeadRun(s) < budget)
    ensures FitsWidth(InsertBreaks(s), budget)
    decreases |s|
  {
    if s != [] {
      if LeadRun(s) >= 50 {
        LeadRunSpec(s);
        BreaksFit(s[50..], 50);
        assert FitsWidth("\n" + InsertBreaks(s[50..]), 0) by {
          assert ("\n" + InsertBreaks(s[50..]))[1..] == InsertBreaks(s[50..]);
        }
        ChunkFits(s[..50], "\n" + InsertBreaks(s[50..]), 50);
        assert s[..50] + "\n" + InsertBreaks(s[50..]) == s[..50] + ("\n" + InsertBreaks(s[50..]));
      } else {
        var r := InsertBreaks(s);
        assert r[0] == s[0] && r[1..] == InsertBreaks(s[1..]);
        if IsLineTerminator(s[0]) {
          BreaksFit(s[1..], 50);
        } else {
          BreaksFit(s[1..], budget - 1);
        }
      }
    }
  }

  // ---------------------------------------------------------------------
  // replace(/\n\s+/g, '\n')

  /** A line feed followed by whitespace loses that whitespace; everything else is copied. */
  function DropIndent(s: string): (r: string)
    ensures |r| <= |s|
    ensures s != [] ==> r != [] && r[0] == s[0]
    decreases |s|
  {
    if s == [] then []
    else if s[0] == '\n' && |s| > 1 && IsWhite(s[1]) then "\n" + DropIndent(TrimStart(s[1..]))
    else [s[0]] + DropIndent(s[1..])
  }

  /** Only whitespace is removed: a filter that ignores whitespace sees the same characters. */
  lemma {:induction false} DropIndentKeeps(s: string, p: char -> bool)
    requires forall c :: IsWhite(c) ==> !p(c)
    ensures Filter(DropIndent(s), p) == Filter(s, p)
    decreases |s|
  {
    if s != [] {
      FilterCons(s[0], s[1..], p);
      assert s == [s[0]] + s[1..];
      if s[0] == '\n' && |s| > 1 && IsWhite(s[1]) {
        var t := TrimStart(s[1..]);
        TrimStartKeeps(s[1..], p);
        DropIndentKeeps(t, p);
        FilterCons('\n', DropIndent(t), p);
      } else {
        DropIndentKeeps(s[1..], p);
        FilterCons(s[0], DropIndent(s[1..]), p);
      }
    }
  }

  /** No line feed of the result is followed by whitespace. */
  lemma {:induction false} DropIndentClean(s: string)
    ensures var r := DropIndent(s);
            forall i :: 0 <= i < |r| - 1 && r[i] == '\n' ==> !IsWhite(r[i + 1])
    decreases |s|
  {
    if s != [] {
      var r := DropIndent(s);
      if s[0] == '\n' && |s| > 1 && IsWhite(s[1]) {
        var t := TrimStart(s[1..]);
        DropIndentClean(t);
        assert r[1..] == DropIndent(t);
      } else {
        DropIndentClean(s[1..]);
        assert r[1..] == DropIndent(s[1..]);
      }
    }
  }

  /** Removing whitespace after line feeds never lengthens a line. */
  lemma {:induction false} DropIndentFits(s: string, budget: nat)
    requires FitsWidth(s, budget) && budget <= 50
    ensures FitsWidth(DropIndent(s), budget)
    decreases |s|
  {
    if s != [] {
      var r := DropIndent(s);
      if s[0] == '\n' && |s| > 1 && IsWhite(s[1]) {
        var t := TrimStart(s[1..]);
        TrimStartSpec(s[1..]);
        FitsWidthSuffix(s[1..], 50, |s[1..]| - |t|);
        DropIndentFits(t, 50);
        assert r[1..] == DropIndent(t);
      } else {
        assert r[1..] == DropIndent(s[1..]);
        if IsLineTerminator(s[0]) {
          DropIndentFits(s[1..], 50);
        } else {
          DropIndentFits(s[1..], budget - 1);
        }
      }
    }
  }

  // ---------------------------------------------------------------------
  // blocksToMarkdown

  /**
   * The text a block contributes: `content.trim()`, and when that is longer
   * than fifty characters, the two replaces.
   */
  function FormatContent(content: string): string
  {
    var c := Trim(content);
    if |c| > 50 then DropIndent(InsertBreaks(c)) else c
  }

  /** Formatting gives the empty string exactly for blank content. */
  lemma FormatEmpty(content: string)
    ensures FormatContent(content) == [] <==> AllWhite(content)
  {
    TrimEmpty(content);
  }

  /**
   * Formatting keeps every visible character in order, is empty exactly for
   * blank content, and leaves no line longer than fifty characters.
   */
  lemma FormatContentMeaning(content: string)
    ensures var r := FormatContent(content);
            && Filter(r, Visible) == Filter(content, Visible)
            && (r == [] <==> AllWhite(content))
            && FitsWidth(r, 50)
  {
    var c := Trim(content);
    TrimKeeps(content, Visible);
    TrimEmpty(content);
    if |c| > 50 {
      BreaksKeep(c, Visible);
      DropIndentKeeps(InsertBreaks(c), Visible);
      BreaksFit(c, 50);
      DropIndentFits(InsertBreaks(c), 50);
    } else {
      ShortFits(c, 50);
    }
  }

  /** `${indent} ${content}\n\n` with `indent` the `#`s of level + 1, or nothing for blank content. */
  function EmittedLine(b: PageBlock): string {
    var c := FormatContent(b.content);
    if c == "" then "" else Heading(b.level + 1) + c + "\n\n"
  }

  predicate HasText(b: PageBlock) {
    !AllWhite(b.content)
  }

  /** The global replace never drops or moves the first character. */
  lemma BreaksFirst(s: string)
    requires s != []
    ensures InsertBreaks(s) != [] && InsertBreaks(s)[0] == s[0]
  {
  }

  /** Formatted text that is not empty starts with a visible character. */
  lemma FormatStartsVisible(content: string)
    ensures FormatContent(content) != [] ==> Visible(FormatContent(content)[0])
  {
    var c := Trim(content);
    if |c| > 50 {
      BreaksFirst(c);
    }
  }

  /**
   * `blocksToMarkdown(blocks)`: the placeholder heading for an empty list;
   * otherwise the blocks' lines in input order, trimmed.
   */
  method BlocksToMarkdown(blocks: seq<PageBlock>) returns (md: string)
    ensures blocks == [] ==> md == EmptyPage
    ensures blocks != [] ==> md == Trim(ConcatMap(blocks, EmittedLine))
  {
    if |blocks| == 0 {
      return EmptyPage;
    }
    var markdown := "";
    var i := 0;
    while i < |blocks|
      invariant 0 <= i <= |blocks|
      invariant markdown == ConcatMap(blocks[..i], EmittedLine)
    {
      ConcatMapStep(blocks, i, EmittedLine);
      markdown := AppendBlock(markdown, blocks[i]);
      i := i + 1;
    }
    assert blocks[..i] == blocks;
    md := Trim(markdown);
  }

  /** The body of the `for (const block of blocks)` loop: the block's line, if it has one, appended to the markdown. */
  method AppendBlock(markdown: string, b: PageBlock) returns (r: string)
    ensures r == markdown + EmittedLine(b)
  {
    var content := Trim(b.content);
    if |content| > 50 {
      content := DropIndent(InsertBreaks(content));
    }
    r := markdown;
    if content != "" {
      r := r + (Heading(b.level + 1) + content + "\n\n");
    }
  }

  /** A block emits nothing exactly when its content is blank. */
  lemma EmittedLineBlank(b: PageBlock)
    ensures EmittedLine(b) == "" <==> !HasText(b)
  {
    FormatEmpty(b.content);
  }

  /**
   * The line of a block with text ends with a blank line, and what sits
   * between its heading and that blank line keeps the block's visible
   * characters in order and has no line over fifty characters.
   */
  lemma EmittedLineContent(b: PageBlock)
    requires HasText(b)
    ensures var hd := Heading(b.level + 1);
            var line := EmittedLine(b);
            && |line| >= |hd| + 3
            && line[|line| - 2..] == "\n\n"
            && Filter(line[|hd|..|line| - 2], Visible) == Filter(b.content, Visible)
            && FitsWidth(line[|hd|..|line| - 2], 50)
  {
    FormatContentMeaning(b.content);
    HeadedLine(b.level + 1, FormatContent(b.content));
  }

  /** Blank blocks emit nothing: the markdown is that of the blocks with text, in input order. */
  lemma BlankBlocksSkipped(blocks: seq<PageBlock>)
    ensures ConcatMap(blocks, EmittedLine) == ConcatMap(Filter(blocks, HasText), EmittedLine)
  {
    forall i | 0 <= i < |blocks| ensures !HasText(blocks[i]) ==> EmittedLine(blocks[i]) == [] {
      EmittedLineBlank(blocks[i]);
    }
    ConcatMapSkipEmpty(blocks, EmittedLine, HasText);
  }

  /**
   * The line of a block with text starts with its heading (`#` repeated
   * `min(level + 1, 6)` times and a space), followed by a character that is
   * not whitespace.
   */
  lemma EmittedLineStart(b: PageBlock)
    requires HasText(b)
    ensures LeadsWith(EmittedLine(b), Heading(b.level + 1))
  {
    FormatEmpty(b.content);
    FormatStartsVisible(b.content);
    HeadedLine(b.level + 1, FormatContent(b.content));
  }

  /** Blocks that are all blank emit nothing. */
  lemma BlankPrefix(blocks: seq<PageBlock>, j: nat)
    requires j <= |blocks| && forall i :: 0 <= i < j ==> !HasText(blocks[i])
    ensures ConcatMap(blocks[..j], EmittedLine) == []
  {
    forall i | 0 <= i < j ensures EmittedLine(blocks[i]) == [] {
      EmittedLineBlank(blocks[i]);
    }
    ConcatMapNonePrefix(blocks, EmittedLine, j);
  }

  /** The markdown starts with the heading of the first block that has text. */
  lemma MarkdownStartsWithHeading(blocks: seq<PageBlock>, j: nat)
    requires j < |blocks| && HasText(blocks[j])
    requires forall i :: 0 <= i < j ==> !HasText(blocks[i])
    ensures StartsWith(Trim(ConcatMap(blocks, EmittedLine)), Heading(blocks[j].level + 1))
  {
    BlankPrefix(blocks, j);
    EmittedLineStart(blocks[j]);
    TrimmedConcatHead(blocks, EmittedLine, j, Heading(blocks[j].level + 1));
  }

  /**
   * A non-empty list whose blocks are all blank gives the empty string, not
   * the placeholder heading.
   */
  lemma AllBlankGivesEmptyString(blocks: seq<PageBlock>)
    requires forall i :: 0 <= i < |blocks| ==> !HasText(blocks[i])
    ensures Trim(ConcatMap(blocks, EmittedLine)) == ""
  {
    BlankBlocksSkipped(blocks);
    FilterNone(blocks, HasText);
  }
}
