/**
 * The whole-page mind map (`page-mindmap.ts`): the page's root blocks are
 * the blocks without a parent in the map, and each is rendered with its
 * subtree as nested `<div>`s whose styling is a function of the level; an
 * empty root list shows the "empty page" box instead. The host's block map
 * may be absent (`orca.state.blocks` falsy), which is `None` here.
 */
module PageMindmap {
  import opened Wrappers
  import opened Text
  import opened Seqs
  import opened Blocks
  import opened Styles
  import opened Markdown

  /**
   * `getPageRootBlocks()`: no roots without a block map; otherwise the keys,
   * in enumeration order, of exactly the blocks whose `parent` is empty or
   * not in the map, each once.
   */
  function GetPageRootBlocks(state: Option<Graph>): (r: seq<string>)
    requires state.Some? ==> state.value.Valid()
    ensures state.None? ==> r == []
    ensures state.Some? ==>
              && (forall k :: k in r <==> k in state.value.blocks && HasNoParentInMap(state.value.blocks, state.value.blocks[k]))
              && IsSubsequence(r, state.value.keys) && NoDuplicates(r)
  {
    match state
    case None => []
    case Some(g) => Parentless(g)
  }

  // ---------------------------------------------------------------------
  // renderNode

  /** The text style `getNodeStyle(level)` picks; weights and sizes are the numbers the CSS strings spell. */
  datatype NodeStyle = NodeStyle(color: string, fontWeight: int, fontSize: int)

  /** `getNodeStyle(level)`: four tiers, the last for every level from 3 on. */
  function GetNodeStyle(level: nat): (r: NodeStyle)
    ensures 400 <= r.fontWeight <= 700 && 16 <= r.fontSize <= 24
    ensures level >= 3 ==> r == NodeStyle("var(--orca-color-text-2, #6b7280)", 400, 16)
  {
    if level == 0 then NodeStyle("var(--orca-color-primary, #2563eb)", 700, 24)
    else if level == 1 then NodeStyle("var(--orca-color-text-1, #1f2937)", 600, 20)
    else if level == 2 then NodeStyle("var(--orca-color-text-1, #374151)", 500, 18)
    else NodeStyle("var(--orca-color-text-2, #6b7280)", 400, 16)
  }

  /**
   * Deeper levels are never heavier or larger, and down to level 3 every
   * step down is strictly lighter and smaller.
   */
  lemma NodeStyleRanks(l1: nat, l2: nat)
    requires l1 <= l2
    ensures GetNodeStyle(l2).fontWeight <= GetNodeStyle(l1).fontWeight
    ensures GetNodeStyle(l2).fontSize <= GetNodeStyle(l1).fontSize
    ensures l1 < l2 && l1 < 3 ==>
              GetNodeStyle(l2).fontWeight < GetNodeStyle(l1).fontWeight
              && GetNodeStyle(l2).fontSize < GetNodeStyle(l1).fontSize
  {
  }

  const Bullets: seq<string> := ["🔵", "⚪", "🔸", "🔹", "▫️"]

  /**
   * One node `<div>` of `renderNode`: what it interpolates is determined by
   * the level and the text. At level 0 the extra `border-left` rule comes
   * with a second `padding-left`, which wins over the first.
   */
  datatype Div = Div(level: nat, text: string) {
    function Indent(): int { level * 32 }
    function HasBorder(): bool { level == 0 }
    function PaddingLeft(): int { if level == 0 then Indent() + 16 else Indent() }
    function Margin(): string { if level == 0 then "20px" else "12px" }
    function BulletSize(): int { Styles.FontSize(14, 20, level) }
    function Bullet(): string { Bullets[TierIndex(level)] }
    function Content(): string { Take(OrDefault(text, "无标题"), 200) }
    function Style(): NodeStyle { GetNodeStyle(level) }
  }

  function DivOf(v: Visit): Div {
    Div(v.level, v.block.text)
  }

  /**
   * The level rules of a rendered node: the bullet is one of the five and
   * between 14 and 20 pixels, the text beside it is always larger than the
   * bullet (by 4 pixels at the root, 2 below), only the root has the border,
   * and at most 200 characters of content are shown.
   */
  lemma DivRules(d: Div)
    ensures d.Bullet() in Bullets && 14 <= d.BulletSize() <= 20
    ensures d.Style().fontSize == d.BulletSize() + (if d.level == 0 then 4 else 2)
    ensures d.HasBorder() <==> d.level == 0
    ensures d.PaddingLeft() == 32 * d.level + (if d.level == 0 then 16 else 0)
    ensures |d.Content()| <= 200 && (d.text != "" ==> d.Content() == d.text[..|d.Content()|])
  {
  }

  /** `renderNode(nodeId, level)`: one `<div>` per block the walk reaches, in pre-order; none for a missing id. */
  method RenderNode(blocks: BlockMap, id: string, level: nat, path: set<string>) returns (html: seq<Div>)
    ensures html == Map(Preorder(blocks, id, level, path), DivOf)
    decreases blocks.Keys - path, 0
  {
    if !Resolves(blocks, id, path) {
      return [];
    }
    PathShrinks(blocks, id, path);
    var v := Visit(id, blocks[id], level);
    var rest := RenderChildren(blocks, blocks[id].children, level + 1, path + {id});
    MapCons(v, PreorderAll(blocks, blocks[id].children, level + 1, path + {id}), DivOf);
    html := [DivOf(v)] + rest;
  }

  /** The `html += renderNode(childId, level + 1)` loop over all child ids. */
  method RenderChildren(blocks: BlockMap, ids: seq<string>, level: nat, path: set<string>) returns (html: seq<Div>)
    ensures html == Map(PreorderAll(blocks, ids, level, path), DivOf)
    decreases blocks.Keys - path, 1
  {
    html := [];
    var i := 0;
    while i < |ids|
      invariant 0 <= i <= |ids|
      invariant html == Map(PreorderAll(blocks, ids[..i], level, path), DivOf)
    {
      var sub := RenderNode(blocks, ids[i], level, path);
      PreorderAllAppend(blocks, ids, i, level, path);
      MapAppend(PreorderAll(blocks, ids[..i], level, path), Preorder(blocks, ids[i], level, path), DivOf);
      html := html + sub;
      i := i + 1;
    }
    assert ids[..i] == ids;
  }

  // ---------------------------------------------------------------------
  // generatePageMindMapHTML

  /** The `<div>`s of one root's subtree, rendered from level 0. */
  function RootDivs(blocks: BlockMap, root: string): seq<Div> {
    Map(Preorder(blocks, root, 0, {}), DivOf)
  }

  /** The `mindMapHTML += renderNode(rootId)` loop's output: the roots' subtrees in turn. */
  function PageDivs(blocks: BlockMap, roots: seq<string>): seq<Div> {
    if roots == [] then [] else PageDivs(blocks, roots[..|roots| - 1]) + RootDivs(blocks, roots[|roots| - 1])
  }

  predicate IsTop(d: Div) {
    d.level == 0
  }

  /** What `generatePageMindMapHTML` shows: the empty-page box, or the nodes with the two header counts. */
  datatype Page =
    | EmptyPage
    | Page(nodes: seq<Div>, totalBlocks: nat, rootCount: nat)

  /** The `for (const rootId of rootBlocks)` loop. */
  method RenderRoots(blocks: BlockMap, roots: seq<string>) returns (html: seq<Div>)
    ensures html == PageDivs(blocks, roots)
  {
    html := [];
    var i := 0;
    while i < |roots|
      invariant 0 <= i <= |roots|
      invariant html == PageDivs(blocks, roots[..i])
    {
      var sub := RenderNode(blocks, roots[i], 0, {});
      assert roots[..i + 1][..i] == roots[..i];
      html := html + sub;
      i := i + 1;
    }
    assert roots[..i] == roots;
  }

  /**
   * `generatePageMindMapHTML()`: the empty-page box exactly when there is no
   * root block; otherwise the subtrees of the roots in order, the number of
   * blocks in the map and the number of roots. The time of day in the
   * header is not modelled.
   */
  method GeneratePageMindMapHTML(state: Option<Graph>) returns (r: Page)
    requires state.Some? ==> state.value.Valid()
    ensures r.EmptyPage? <==> GetPageRootBlocks(state) == []
    ensures r.Page? ==>
              && state.Some?
              && r.nodes == PageDivs(state.value.blocks, GetPageRootBlocks(state))
              && r.totalBlocks == |state.value.blocks|
              && r.rootCount == |GetPageRootBlocks(state)|
  {
    var roots := GetPageRootBlocks(state);
    if |roots| == 0 {
      return EmptyPage;
    }
    var g := state.value;
    KeysCountBlocks(g);
    var html := RenderRoots(g.blocks, roots);
    r := Page(html, |g.keys|, |roots|);
  }

  /** A root's subtree has exactly one level-0 `<div>`, its own, first. */
  lemma TopOfRoot(blocks: BlockMap, root: string)
    requires root in blocks
    ensures Filter(RootDivs(blocks, root), IsTop) == [Div(0, blocks[root].text)]
  {
    var kids := PreorderAll(blocks, blocks[root].children, 1, {root});
    PreorderAllVisitsResolve(blocks, blocks[root].children, 1, {root});
    assert Preorder(blocks, root, 0, {}) == [Visit(root, blocks[root], 0)] + kids by {
      assert {} + {root} == {root};
    }
    MapCons(Visit(root, blocks[root], 0), kids, DivOf);
    var below := Map(kids, DivOf);
    forall i | 0 <= i < |below| ensures !IsTop(below[i]) {
      assert kids[i] in kids;
    }
    FilterNone(below, IsTop);
    FilterCons(Div(0, blocks[root].text), below, IsTop);
  }

  /**
   * Every root is in the map, so each one contributes exactly one level-0
   * `<div>` (the bordered one): the level-0 nodes of the page are the roots'
   * own, in root order.
   */
  lemma {:induction false} TopDivsAreRoots(blocks: BlockMap, roots: seq<string>)
    requires forall k :: k in roots ==> k in blocks
    ensures var tops := Filter(PageDivs(blocks, roots), IsTop);
            |tops| == |roots| && forall i :: 0 <= i < |roots| ==> tops[i] == Div(0, blocks[roots[i]].text)
    decreases |roots|
  {
    if roots != [] {
      var front, last := roots[..|roots| - 1], roots[|roots| - 1];
      assert forall k :: k in front ==> k in roots;
      TopDivsAreRoots(blocks, front);
      FilterAppend(PageDivs(blocks, front), RootDivs(blocks, last), IsTop);
      TopOfRoot(blocks, last);
      assert PageDivs(blocks, roots) == PageDivs(blocks, front) + RootDivs(blocks, last);
      TopsSnoc(blocks, roots, Filter(PageDivs(blocks, roots), IsTop), Filter(PageDivs(blocks, front), IsTop));
    }
  }

  /** One more root adds its own top node at the end. */
  lemma TopsSnoc(blocks: BlockMap, roots: seq<string>, t: seq<Div>, tops: seq<Div>)
    requires roots != [] && forall k :: k in roots ==> k in blocks
    requires t == tops + [Div(0, blocks[roots[|roots| - 1]].text)]
    requires |tops| == |roots| - 1
    requires forall i :: 0 <= i < |roots[..|roots| - 1]| ==> tops[i] == Div(0, blocks[roots[..|roots| - 1][i]].text)
    ensures |t| == |roots| && forall i :: 0 <= i < |roots| ==> t[i] == Div(0, blocks[roots[i]].text)
  {
    forall i | 0 <= i < |roots| ensures t[i] == Div(0, blocks[roots[i]].text) {
      if i < |roots| - 1 {
        assert roots[..|roots| - 1][i] == roots[i] && t[i] == tops[i];
      }
    }
  }

  /** The number of bordered nodes on the page is the root count in its header. */
  lemma BorderedNodesMatchHeader(state: Option<Graph>, page: Page)
    requires state.Some? && state.value.Valid()
    requires page.Page? && page.nodes == PageDivs(state.value.blocks, GetPageRootBlocks(state))
    requires page.rootCount == |GetPageRootBlocks(state)|
    ensures |Filter(page.nodes, IsTop)| == page.rootCount
  {
    TopDivsAreRoots(state.value.blocks, GetPageRootBlocks(state));
  }
}
