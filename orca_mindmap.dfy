/**
 * The Markmap view of `orca-mindmap.ts`: `generateMindMapHTML` shows a
 * placeholder for an empty block list; otherwise its nested
 * `blocksToMarkdown` turns the blocks into one ATX heading per non-blank
 * block, and the markdown is embedded in a template literal of the page
 * script with every backtick escaped.
 *
 * Unlike the local view, this serialiser only trims the content: it never
 * breaks long lines (`SameAsLocalWhenShort` relates the two).
 */
module OrcaMindmap {
  import opened Text
  import opened Seqs
  import opened Markdown
  import OrcaMindmapLocal

  // ---------------------------------------------------------------------
  // blocksToMarkdown (nested in generateMindMapHTML)

  /** `${indent} ${content}\n\n` with `indent` the `#`s of level + 1 and `content` the trimmed text, or nothing for blank content. */
  function EmittedLine(b: PageBlock): string {
    var c := Trim(b.content);
    if c == "" then "" else Heading(b.level + 1) + c + "\n\n"
  }

  predicate HasText(b: PageBlock) {
    !AllWhite(b.content)
  }

  /** The `for (const block of blocks)` loop followed by `markdown.trim()`. */
  method BlocksToMarkdown(blocks: seq<PageBlock>) returns (md: string)
    ensures md == Trim(ConcatMap(blocks, EmittedLine))
  {
    var markdown := "";
    var i := 0;
    while i < |blocks|
      invariant 0 <= i <= |blocks|
      invariant markdown == ConcatMap(blocks[..i], EmittedLine)
    {
      ConcatMapStep(blocks, i, EmittedLine);
      markdown := AppendBlock(markdown, blocks[i]);
      i := i + 1;
    }
    assert blocks[..i] == blocks;
    md := Trim(markdown);
  }

  /** The body of the `for (const block of blocks)` loop: the block's line, if it has one, appended to the markdown. */
  method AppendBlock(markdown: string, b: PageBlock) returns (r: string)
    ensures r == markdown + EmittedLine(b)
  {
    var content := Trim(b.content);
    r := markdown;
    if content != "" {
      r := r + (Heading(b.level + 1) + content + "\n\n");
    }
  }

  /** A block emits nothing exactly when its content is blank. */
  lemma EmittedLineBlank(b: PageBlock)
    ensures EmittedLine(b) == "" <==> !HasText(b)
  {
    TrimEmpty(b.content);
  }

  /** The line of a block with text leads with its heading: `#` repeated `min(level + 1, 6)` times and a space. */
  lemma EmittedLineStart(b: PageBlock)
    requires HasText(b)
    ensures LeadsWith(EmittedLine(b), Heading(b.level + 1))
  {
    TrimEmpty(b.content);
    HeadedLine(b.level + 1, Trim(b.content));
  }

  /**
   * After the heading comes the content with the surrounding whitespace
   * removed, and then a blank line.
   */
  lemma EmittedLineParts(b: PageBlock)
    requires HasText(b)
    ensures var hd := Heading(b.level + 1);
            var line := EmittedLine(b);
            && |line| == |hd| + |Trim(b.content)| + 2
            && line[|hd|..|line| - 2] == Trim(b.content) && line[|line| - 2..] == "\n\n"
  {
    TrimEmpty(b.content);
    HeadedLine(b.level + 1, Trim(b.content));
  }

  /** Blocks that are all blank emit nothing. */
  lemma BlankPrefix(blocks: seq<PageBlock>, j: nat)
    requires j <= |blocks| && forall i :: 0 <= i < j ==> !HasText(blocks[i])
    ensures ConcatMap(blocks[..j], EmittedLine) == []
  {
    forall i | 0 <= i < j ensures EmittedLine(blocks[i]) == [] {
      EmittedLineBlank(blocks[i]);
    }
    ConcatMapNonePrefix(blocks, EmittedLine, j);
  }

  /** Blank blocks are skipped: the markdown is that of the blocks with text, in input order. */
  lemma BlankBlocksSkipped(blocks: seq<PageBlock>)
    ensures ConcatMap(blocks, EmittedLine) == ConcatMap(Filter(blocks, HasText), EmittedLine)
  {
    forall i | 0 <= i < |blocks| ensures !HasText(blocks[i]) ==> EmittedLine(blocks[i]) == [] {
      EmittedLineBlank(blocks[i]);
    }
    ConcatMapSkipEmpty(blocks, EmittedLine, HasText);
  }

  /** The markdown starts with the heading of the first block that has text. */
  lemma MarkdownStartsWithHeading(blocks: seq<PageBlock>, j: nat)
    requires j < |blocks| && HasText(blocks[j])
    requires forall i :: 0 <= i < j ==> !HasText(blocks[i])
    ensures StartsWith(Trim(ConcatMap(blocks, EmittedLine)), Heading(blocks[j].level + 1))
  {
    BlankPrefix(blocks, j);
    EmittedLineStart(blocks[j]);
    TrimmedConcatHead(blocks, EmittedLine, j, Heading(blocks[j].level + 1));
  }

  /** Blocks that are all blank give the empty markdown. */
  lemma AllBlankGivesEmptyMarkdown(blocks: seq<PageBlock>)
    requires forall i :: 0 <= i < |blocks| ==> !HasText(blocks[i])
    ensures Trim(ConcatMap(blocks, EmittedLine)) == ""
  {
    BlankPrefix(blocks, |blocks|);
    assert blocks[..|blocks|] == blocks;
  }

  /**
   * Where no block's trimmed content is longer than fifty characters, this
   * view emits the same line as the local view, which only breaks longer
   * content.
   */
  lemma SameLineWhenShort(b: PageBlock)
    requires |Trim(b.content)| <= 50
    ensures EmittedLine(b) == OrcaMindmapLocal.EmittedLine(b)
  {
  }

  /**
   * For blocks whose trimmed contents are at most fifty characters long, the
   * markdown, before and so also after the final trim, is that of the local
   * view.
   */
  lemma SameAsLocalWhenShort(blocks: seq<PageBlock>)
    requires forall i :: 0 <= i < |blocks| ==> |Trim(blocks[i].content)| <= 50
    ensures ConcatMap(blocks, EmittedLine) == ConcatMap(blocks, OrcaMindmapLocal.EmittedLine)
  {
    forall i | 0 <= i < |blocks| ensures EmittedLine(blocks[i]) == OrcaMindmapLocal.EmittedLine(blocks[i]) {
      SameLineWhenShort(blocks[i]);
    }
    ConcatMapAgree(blocks, EmittedLine, OrcaMindmapLocal.EmittedLine);
  }

  // ---------------------------------------------------------------------
  // Escaping for the template literal

  predicate IsBacktick(c: char) {
    c == '`'
  }

  /** The number of backticks in `s`. */
  function Backticks(s: string): nat {
    |Filter(s, IsBacktick)|
  }

  /** `markdown.replace(/`/g, '\\`')`: a backslash in front of every backtick, everything else copied. */
  function EscapeBackticks(s: string): (r: string)
    ensures |r| == |s| + Backticks(s)
    decreases |s|
  {
    if s == [] then []
    else
      FilterCons(s[0], s[1..], IsBacktick);
      assert s == [s[0]] + s[1..];
      (if s[0] == '`' then "\\`" else [s[0]]) + EscapeBackticks(s[1..])
  }

  /** Every backtick of the escaped text directly follows a backslash. */
  lemma {:induction false} EscapedBackticksFollowBackslash(s: string)
    ensures var r := EscapeBackticks(s);
            forall i :: 0 <= i < |r| && r[i] == '`' ==> 0 < i && r[i - 1] == '\\'
    decreases |s|
  {
    if s != [] {
      EscapedBackticksFollowBackslash(s[1..]);
      var head := if s[0] == '`' then "\\`" else [s[0]];
      var tail := EscapeBackticks(s[1..]);
      var r := head + tail;
      assert EscapeBackticks(s) == r;
      EscapedStart(s[1..]);
      forall i | 0 <= i < |r| && r[i] == '`' ensures 0 < i && r[i - 1] == '\\' {
        if i >= |head| {
          assert r[i] == tail[i - |head|];
          if i > |head| {
            assert r[i - 1] == tail[i - |head| - 1];
          }
        }
      }
    }
  }

  /** The escaped text never starts with a backtick. */
  lemma EscapedStart(s: string)
    ensures EscapeBackticks(s) == [] || EscapeBackticks(s)[0] != '`'
  {
  }

  /** Text without backticks is embedded unchanged. */
  lemma {:induction false} NoBackticksUnchanged(s: string)
    requires '`' !in s
    ensures EscapeBackticks(s) == s
    decreases |s|
  {
    if s != [] {
      assert '`' !in s[1..] by {
        forall c | c in s[1..] ensures c in s { }
      }
      NoBackticksUnchanged(s[1..]);
      assert s == [s[0]] + s[1..];
    }
  }

  /** Reads escaped text back: a backslash followed by a backtick stands for the backtick. */
  function UnescapeBackticks(t: string): string
    decreases |t|
  {
    if t == [] then []
    else if |t| >= 2 && t[0] == '\\' && t[1] == '`' then "`" + UnescapeBackticks(t[2..])
    else [t[0]] + UnescapeBackticks(t[1..])
  }

  /** The first character's piece of the escaped text, then the escaped rest. */
  lemma EscapeFirst(s: string)
    requires s != []
    ensures EscapeBackticks(s) == (if s[0] == '`' then "\\`" else [s[0]]) + EscapeBackticks(s[1..])
  {
  }

  /** An escaped backtick reads back as a backtick. */
  lemma UnescapeBacktick(t: string)
    ensures UnescapeBackticks("\\`" + t) == "`" + UnescapeBackticks(t)
  {
    assert ("\\`" + t)[2..] == t;
  }

  /** Any other character reads back as itself. */
  lemma UnescapePlain(c: char, t: string)
    requires !(c == '\\' && t != [] && t[0] == '`')
    ensures UnescapeBackticks([c] + t) == [c] + UnescapeBackticks(t)
  {
    assert ([c] + t)[1..] == t;
  }

  /** Escaping loses nothing: reading the escaped text back gives the markdown. */
  lemma {:induction false} EscapeRoundTrip(s: string)
    ensures UnescapeBackticks(EscapeBackticks(s)) == s
    decreases |s|
  {
    if s != [] {
      EscapeRoundTrip(s[1..]);
      EscapeFirst(s);
      var tail := EscapeBackticks(s[1..]);
      if s[0] == '`' {
        UnescapeBacktick(tail);
      } else {
        EscapedStart(s[1..]);
        UnescapePlain(s[0], tail);
      }
      assert s == [s[0]] + s[1..];
    }
  }

  // ---------------------------------------------------------------------
  // generateMindMapHTML

  /** What `generateMindMapHTML` shows: the placeholder, or a page whose script embeds the markdown. */
  datatype View =
    | EmptyView
    | MarkmapView(markdown: string, embedded: string)

  /**
   * `generateMindMapHTML(blocks)`: the placeholder exactly for an empty list;
   * otherwise the markdown of the blocks and its escaped form, which is what
   * the template literal holds. Container ids from the clock and the random
   * generator are not modelled.
   */
  method GenerateMindMapHTML(blocks: seq<PageBlock>) returns (v: View)
    ensures v.EmptyView? <==> blocks == []
    ensures v.MarkmapView? ==>
              && v.markdown == Trim(ConcatMap(blocks, EmittedLine))
              && v.embedded == EscapeBackticks(v.markdown)
  {
    if |blocks| == 0 {
      return EmptyView;
    }
    var markdown := BlocksToMarkdown(blocks);
    v := MarkmapView(markdown, EscapeBackticks(markdown));
  }
}
