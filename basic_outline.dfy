/**
 * The outline dialog (`basic-outline.ts`): `generateOutlineHTML` renders
 * the subtree of one block as nested `<div>`s whose styling depends only on
 * the level, with a header and the node count from `countBlocks`
 * (`Blocks.CountBlocks`); an id missing from the map yields an error box.
 */
module BasicOutline {
  import opened Text
  import opened Seqs
  import opened Blocks
  import opened Styles
  import opened Markdown

  const Bullets: seq<string> := ["●", "○", "▪", "▫", "‣"]

  /** The three style tiers: the root level, the level below it, and everything deeper. */
  function Tier(level: nat): (r: nat)
    ensures r <= 2 && (level <= 2 ==> r == level) && (level >= 2 ==> r == 2)
  {
    if level <= 2 then level else 2
  }

  /**
   * One node `<div>` of `renderNode`: what it interpolates is determined by
   * the level and the text.
   */
  datatype Div = Div(level: nat, text: string) {
    function PaddingLeft(): int { level * 24 }
    function FontSize(): int { Styles.FontSize(12, 16, level) }
    function Bullet(): string { Bullets[TierIndex(level)] }
    function Content(): string { Take(OrDefault(text, "未命名"), 150) }
    function TextColor(): string { if level == 0 then "#2563eb" else if level == 1 then "#374151" else "#6b7280" }
    function Margin(): string { if level == 0 then "12px" else "6px" }
    function FontWeight(): string { if level == 0 then "600" else if level == 1 then "500" else "normal" }
  }

  function DivOf(v: Visit): Div {
    Div(v.level, v.block.text)
  }

  /** `renderNode(nodeId, level)`: one `<div>` per block the walk reaches, in pre-order; none for a missing id. */
  method RenderNode(blocks: BlockMap, id: string, level: nat, path: set<string>) returns (html: seq<Div>)
    ensures html == Map(Preorder(blocks, id, level, path), DivOf)
    decreases blocks.Keys - path, 0
  {
    if !Resolves(blocks, id, path) {
      return [];
    }
    PathShrinks(blocks, id, path);
    var v := Visit(id, blocks[id], level);
    var rest := RenderChildren(blocks, blocks[id].children, level + 1, path + {id});
    MapCons(v, PreorderAll(blocks, blocks[id].children, level + 1, path + {id}), DivOf);
    html := [DivOf(v)] + rest;
  }

  /** The `html += renderNode(childId, level + 1)` loop over all child ids. */
  method RenderChildren(blocks: BlockMap, ids: seq<string>, level: nat, path: set<string>) returns (html: seq<Div>)
    ensures html == Map(PreorderAll(blocks, ids, level, path), DivOf)
    decreases blocks.Keys - path, 1
  {
    html := [];
    var i := 0;
    while i < |ids|
      invariant 0 <= i <= |ids|
      invariant html == Map(PreorderAll(blocks, ids[..i], level, path), DivOf)
    {
      var sub := RenderNode(blocks, ids[i], level, path);
      PreorderAllAppend(blocks, ids, i, level, path);
      MapAppend(PreorderAll(blocks, ids[..i], level, path), Preorder(blocks, ids[i], level, path), DivOf);
      html := html + sub;
      i := i + 1;
    }
    assert ids[..i] == ids;
  }

  /**
   * The level rules of a rendered node: font size at least 12 and two pixels
   * smaller per level down to that floor, a bullet from the five, at most
   * 150 characters of content, and colour, weight and margin that depend on
   * the tier alone.
   */
  lemma DivRules(d: Div, e: Div)
    ensures 12 <= d.FontSize() <= 16 && (d.level <= 2 ==> d.FontSize() == 16 - 2 * d.level)
    ensures d.Bullet() in Bullets && d.PaddingLeft() == 24 * d.level
    ensures |d.Content()| <= 150 && (d.text != "" ==> d.Content() == d.text[..|d.Content()|])
    ensures Tier(d.level) == Tier(e.level) ==>
              d.TextColor() == e.TextColor() && d.FontWeight() == e.FontWeight() && d.Margin() == e.Margin()
  {
  }

  /** What `generateOutlineHTML` shows: the error box, or the title, the rendered nodes and the count. */
  datatype Outline =
    | NotFound
    | Outline(title: string, nodes: seq<Div>, count: nat)

  /**
   * `generateOutlineHTML(blockId)`: the error box when the id is not in the
   * map; otherwise the first 60 characters of the text (or `思维导图`) as the
   * title, the rendered subtree, and its node count, which equals the number
   * of rendered nodes. The time of day in the footer is not modelled.
   */
  method GenerateOutlineHTML(blocks: BlockMap, id: string) returns (r: Outline)
    ensures r.NotFound? <==> id !in blocks
    ensures r.Outline? ==> r.title == Take(OrDefault(blocks[id].text, "思维导图"), 60)
    ensures r.Outline? ==> r.nodes == Map(Preorder(blocks, id, 0, {}), DivOf)
    ensures r.Outline? ==> r.count == |r.nodes| && r.nodes[0] == Div(0, blocks[id].text)
  {
    if id !in blocks {
      return NotFound;
    }
    var nodes := RenderNode(blocks, id, 0, {});
    var count := CountBlocks(blocks, id, {});
    CountIsPreorderLength(blocks, id, 0, {});
    r := Outline(Take(OrDefault(blocks[id].text, "思维导图"), 60), nodes, count);
  }
}
