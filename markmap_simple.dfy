/**
 * The standalone mind-map view (`markmap-simple.ts`): a recursive Markdown
 * serialiser that strips `#` and `*` from the text, and the nested
 * `renderTree` of `createSimpleMindMap`, which prints one `<div>` per block
 * in pre-order. Both walk the block map from one id and are proved equal to
 * a function of `Blocks.Preorder`; its node total, `countTotalBlocks`, is
 * `Blocks.CountBlocks`, and `CountMatchesRendered` shows that the total the
 * panel reports is the number of `<div>`s it renders.
 */
module MarkmapSimple {
  import opened Text
  import opened Seqs
  import opened Blocks
  import opened Styles
  import opened Markdown

  // ---------------------------------------------------------------------
  // blockToMarkdown

  predicate IsMark(c: char) {
    c == '#' || c == '*'
  }

  /**
   * `text.replace(/[#*]/g, '')`: every `#` and `*` removed, the rest kept in
   * order. The three clauses together pin the result down: a subsequence of
   * unmarked characters as long as the text less its marks.
   */
  function StripMarks(s: string): (r: string)
    ensures forall c :: c in r <==> c in s && c != '#' && c != '*'
    ensures IsSubsequence(r, s)
    ensures |r| == |s| - |Filter(s, IsMark)|
  {
    FilterIsSubsequence(s, c => c != '#' && c != '*');
    FilterComplement(s, c => c != '#' && c != '*', IsMark);
    Filter(s, c => c != '#' && c != '*')
  }

  /** Text without `#` and `*` is left alone. */
  lemma {:induction false} StripMarksUnmarked(s: string)
    requires '#' !in s && '*' !in s
    ensures StripMarks(s) == s
    decreases |s|
  {
    if s != [] {
      assert '#' !in s[1..] && '*' !in s[1..] by {
        forall c | c in s[1..] ensures c in s { }
      }
      StripMarksUnmarked(s[1..]);
      assert s == [s[0]] + s[1..];
    }
  }

  /** The block's own piece: heading, cleaned text (or `未命名块`), blank line. */
  function OwnLine(v: Visit): string {
    Heading(v.level) + StripMarks(OrDefault(v.block.text, "未命名块")) + "\n\n"
  }

  /**
   * `blockToMarkdown(blockId, allBlocks, level)`: the pieces of the blocks
   * the walk from `id` reaches, in pre-order; `""` when `id` does not resolve.
   */
  method BlockToMarkdown(blocks: BlockMap, id: string, level: nat, path: set<string>) returns (md: string)
    ensures md == ConcatMap(Preorder(blocks, id, level, path), OwnLine)
    decreases blocks.Keys - path, 0
  {
    if !Resolves(blocks, id, path) {
      return "";
    }
    PathShrinks(blocks, id, path);
    var v := Visit(id, blocks[id], level);
    var rest := ChildrenToMarkdown(blocks, blocks[id].children, level + 1, path + {id});
    ConcatMapCons(v, PreorderAll(blocks, blocks[id].children, level + 1, path + {id}), OwnLine);
    md := OwnLine(v) + rest;
  }

  /** The `for (const childId of block.children)` loop: each child id present in the map, in order. */
  method ChildrenToMarkdown(blocks: BlockMap, ids: seq<string>, level: nat, path: set<string>) returns (md: string)
    ensures md == ConcatMap(PreorderAll(blocks, ids, level, path), OwnLine)
    decreases blocks.Keys - path, 1
  {
    md := "";
    var i := 0;
    while i < |ids|
      invariant 0 <= i <= |ids|
      invariant md == ConcatMap(PreorderAll(blocks, ids[..i], level, path), OwnLine)
    {
      PreorderAllAppend(blocks, ids, i, level, path);
      ConcatMapAppend(PreorderAll(blocks, ids[..i], level, path), Preorder(blocks, ids[i], level, path), OwnLine);
      if ids[i] in blocks {
        var sub := BlockToMarkdown(blocks, ids[i], level, path);
        md := md + sub;
      } else {
        assert PreorderAll(blocks, ids[..i], level, path) + [] == PreorderAll(blocks, ids[..i], level, path);
      }
      i := i + 1;
    }
    assert ids[..i] == ids;
  }

  /**
   * The serialisation of a resolving block starts with its own piece: a
   * heading of `min(level, 6)` `#`s and a space, then text without `#` or
   * `*`, then a blank line; the pieces of its children follow.
   */
  lemma MarkdownStartsWithOwnLine(blocks: BlockMap, id: string, level: nat, path: set<string>)
    requires Resolves(blocks, id, path)
    ensures var md := ConcatMap(Preorder(blocks, id, level, path), OwnLine);
            var text := StripMarks(OrDefault(blocks[id].text, "未命名块"));
            var own := Heading(level) + text + "\n\n";
            && StartsWith(md, own)
            && |own| == Min(level, 6) + 1 + |text| + 2
            && '#' !in text && '*' !in text
            && md[|own|..] == ConcatMap(PreorderAll(blocks, blocks[id].children, level + 1, path + {id}), OwnLine)
  {
    var rest := PreorderAll(blocks, blocks[id].children, level + 1, path + {id});
    ConcatMapCons(Visit(id, blocks[id], level), rest, OwnLine);
  }

  // ---------------------------------------------------------------------
  // renderTree (nested in createSimpleMindMap)

  const Bullets: seq<string> := ["●", "○", "▪", "▫", "‣"]

  /**
   * One node `<div>` of `renderTree`: what it interpolates is determined by
   * the level and the text. The font size is `16 - level` with no floor.
   */
  datatype Div = Div(level: nat, text: string) {
    function Content(): string { Take(OrDefault(text, "未命名"), 100) }
    function Bullet(): string { Bullets[TierIndex(level)] }
    function PaddingLeft(): int { 24 * level }
    function FontSize(): int { 16 - level }
  }

  function DivOf(v: Visit): Div {
    Div(v.level, v.block.text)
  }

  /** `renderTree(nodeId, level)`: one `<div>` per block the walk reaches, in pre-order. */
  method RenderTree(blocks: BlockMap, id: string, level: nat, path: set<string>) returns (html: seq<Div>)
    ensures html == Map(Preorder(blocks, id, level, path), DivOf)
    decreases blocks.Keys - path, 0
  {
    if !Resolves(blocks, id, path) {
      return [];
    }
    PathShrinks(blocks, id, path);
    var v := Visit(id, blocks[id], level);
    var rest := RenderChildren(blocks, blocks[id].children, level + 1, path + {id});
    MapCons(v, PreorderAll(blocks, blocks[id].children, level + 1, path + {id}), DivOf);
    html := [DivOf(v)] + rest;
  }

  /** The `html += renderTree(childId, level + 1)` loop over all child ids. */
  method RenderChildren(blocks: BlockMap, ids: seq<string>, level: nat, path: set<string>) returns (html: seq<Div>)
    ensures html == Map(PreorderAll(blocks, ids, level, path), DivOf)
    decreases blocks.Keys - path, 1
  {
    html := [];
    var i := 0;
    while i < |ids|
      invariant 0 <= i <= |ids|
      invariant html == Map(PreorderAll(blocks, ids[..i], level, path), DivOf)
    {
      var sub := RenderTree(blocks, ids[i], level, path);
      PreorderAllAppend(blocks, ids, i, level, path);
      MapAppend(PreorderAll(blocks, ids[..i], level, path), Preorder(blocks, ids[i], level, path), DivOf);
      html := html + sub;
      i := i + 1;
    }
    assert ids[..i] == ids;
  }

  /**
   * The node total the panel reports (`countTotalBlocks`) is the number of
   * `<div>`s `renderTree` emits for the same id; each shows at most 100
   * characters and a bullet from the five.
   */
  lemma CountMatchesRendered(blocks: BlockMap, id: string, level: nat, path: set<string>)
    ensures |Map(Preorder(blocks, id, level, path), DivOf)| == SubtreeCount(blocks, id, path)
    ensures forall d :: d in Map(Preorder(blocks, id, level, path), DivOf) ==>
              |d.Content()| <= 100 && d.Bullet() in Bullets && d.level >= level
  {
    CountIsPreorderLength(blocks, id, level, path);
    PreorderVisitsResolve(blocks, id, level, path);
  }
}
