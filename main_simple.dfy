/**
 * The simplified plugin (`main-simple.ts`): a tree builder that keeps every
 * child id that resolves and cuts the text to 200 characters without
 * cleaning it, and a renderer that prints one `<div>` line per node in
 * pre-order. Root discovery is `Blocks.Parentless`.
 */
module MainSimple {
  import opened Wrappers
  import opened Text
  import opened Seqs
  import opened Blocks
  import opened Styles

  /**
   * `buildTree(blockId, allBlocks, level)`: `null` for a block that does not
   * resolve, otherwise the node with the trees of the resolving children.
   * The nodes of this variant carry no `parent` (it is `""` here).
   */
  function BuildTree(blocks: BlockMap, id: string, level: int, path: set<string>): (r: Option<TreeNode>)
    ensures r.None? <==> !Resolves(blocks, id, path)
    ensures r.Some? ==> r.value.id == blocks[id].id && r.value.level == level
    ensures r.Some? ==> var text := blocks[id].text;
              |r.value.content| == Min(|text|, 200) && r.value.content == text[..|r.value.content|]
    decreases blocks.Keys - path, 0
  {
    if !Resolves(blocks, id, path) then None
    else
      PathShrinks(blocks, id, path);
      var b := blocks[id];
      Some(TreeNode(b.id, Take(b.text, 200), BuildChildren(blocks, b.children, level + 1, path + {id}), level, ""))
  }

  /** `children.map(c => buildTree(c, allBlocks, level)).filter(Boolean)`. */
  function BuildChildren(blocks: BlockMap, ids: seq<string>, level: int, path: set<string>): (r: seq<TreeNode>)
    ensures |r| <= |ids|
    decreases blocks.Keys - path, |ids|
  {
    if ids == [] then []
    else
      var front := BuildChildren(blocks, ids[..|ids| - 1], level, path);
      match BuildTree(blocks, ids[|ids| - 1], level, path)
      case None => front
      case Some(t) => front + [t]
  }

  /**
   * The children are the trees of exactly the child ids that resolve, in
   * `children` order: the `i`-th child is the tree of the `i`-th such id.
   */
  lemma {:induction false} ChildrenOfResolvingIds(blocks: BlockMap, ids: seq<string>, level: int, path: set<string>)
    ensures var kept := Filter(ids, c => Resolves(blocks, c, path));
            var r := BuildChildren(blocks, ids, level, path);
            |r| == |kept| && forall i :: 0 <= i < |kept| ==> BuildTree(blocks, kept[i], level, path) == Some(r[i])
    decreases |ids|
  {
    if ids != [] {
      var p := c => Resolves(blocks, c, path);
      var n := |ids| - 1;
      ChildrenOfResolvingIds(blocks, ids[..n], level, path);
      assert ids == ids[..n] + [ids[n]];
      FilterAppend(ids[..n], [ids[n]], p);
      assert Filter([ids[n]], p) == if p(ids[n]) then [ids[n]] else [] by {
        assert [ids[n]][1..] == [];
      }
    }
  }

  /** Every child sits one level below its parent, all the way down. */
  predicate Levelled(t: TreeNode)
    decreases t
  {
    forall c :: c in t.children ==> c.level == t.level + 1 && Levelled(c)
  }

  lemma {:induction false} BuildTreeLevelled(blocks: BlockMap, id: string, level: int, path: set<string>)
    ensures BuildTree(blocks, id, level, path).Some? ==> Levelled(BuildTree(blocks, id, level, path).value)
    decreases blocks.Keys - path, 0
  {
    if Resolves(blocks, id, path) {
      PathShrinks(blocks, id, path);
      BuildChildrenLevelled(blocks, blocks[id].children, level + 1, path + {id});
    }
  }

  lemma {:induction false} BuildChildrenLevelled(blocks: BlockMap, ids: seq<string>, level: int, path: set<string>)
    ensures forall c :: c in BuildChildren(blocks, ids, level, path) ==> c.level == level && Levelled(c)
    decreases blocks.Keys - path, |ids|
  {
    if ids != [] {
      BuildChildrenLevelled(blocks, ids[..|ids| - 1], level, path);
      BuildTreeLevelled(blocks, ids[|ids| - 1], level, path);
    }
  }

  /** The built tree has one node per block the walk reaches: nothing that resolves is dropped. */
  lemma {:induction false} BuildTreeSize(blocks: BlockMap, id: string, level: int, path: set<string>)
    ensures BuildTree(blocks, id, level, path).Some? ==>
              Size(BuildTree(blocks, id, level, path).value) == SubtreeCount(blocks, id, path)
    decreases blocks.Keys - path, 0
  {
    if Resolves(blocks, id, path) {
      PathShrinks(blocks, id, path);
      BuildChildrenSize(blocks, blocks[id].children, level + 1, path + {id});
    }
  }

  lemma {:induction false} BuildChildrenSize(blocks: BlockMap, ids: seq<string>, level: int, path: set<string>)
    ensures SizeAll(BuildChildren(blocks, ids, level, path)) == ChildrenCount(blocks, ids, path)
    decreases blocks.Keys - path, |ids|
  {
    if ids != [] {
      var front := BuildChildren(blocks, ids[..|ids| - 1], level, path);
      BuildChildrenSize(blocks, ids[..|ids| - 1], level, path);
      BuildTreeSize(blocks, ids[|ids| - 1], level, path);
      match BuildTree(blocks, ids[|ids| - 1], level, path)
      case None =>
      case Some(t) =>
        assert (front + [t])[..|front|] == front;
    }
  }

  // ---------------------------------------------------------------------
  // The recursion as written, without a cycle guard

  function BuildTreeFuel(blocks: BlockMap, id: string, level: int, fuel: nat): Option<TreeNode>
    decreases fuel, 0
  {
    if fuel == 0 || id !in blocks then None
    else
      var b := blocks[id];
      Some(TreeNode(b.id, Take(b.text, 200), BuildChildrenFuel(blocks, b.children, level + 1, fuel - 1), level, ""))
  }

  function BuildChildrenFuel(blocks: BlockMap, ids: seq<string>, level: int, fuel: nat): seq<TreeNode>
    decreases fuel, |ids|
  {
    if ids == [] then []
    else
      var front := BuildChildrenFuel(blocks, ids[..|ids| - 1], level, fuel);
      match BuildTreeFuel(blocks, ids[|ids| - 1], level, fuel)
      case None => front
      case Some(t) => front + [t]
  }

  /** On acyclic input the guarded builder is the plugin's builder. */
  lemma {:induction false} BuildTreeUnguarded(blocks: BlockMap, id: string, level: int, path: set<string>, fuel: nat)
    requires AcyclicFrom(blocks, id, path)
    requires fuel > |blocks.Keys - path|
    ensures BuildTreeFuel(blocks, id, level, fuel) == BuildTree(blocks, id, level, path)
    decreases blocks.Keys - path, 0
  {
    if id in blocks {
      PathShrinks(blocks, id, path);
      BuildChildrenUnguarded(blocks, blocks[id].children, level + 1, path + {id}, fuel - 1);
    }
  }

  lemma {:induction false} BuildChildrenUnguarded(blocks: BlockMap, ids: seq<string>, level: int, path: set<string>, fuel: nat)
    requires AcyclicAll(blocks, ids, path)
    requires fuel > |blocks.Keys - path|
    ensures BuildChildrenFuel(blocks, ids, level, fuel) == BuildChildren(blocks, ids, level, path)
    decreases blocks.Keys - path, |ids|
  {
    if ids != [] {
      BuildChildrenUnguarded(blocks, ids[..|ids| - 1], level, path, fuel);
      BuildTreeUnguarded(blocks, ids[|ids| - 1], level, path, fuel);
    }
  }

  // ---------------------------------------------------------------------
  // renderTree

  const Bullets: seq<string> := ["● ", "○ ", "▪ ", "▫ ", "‣ "]

  /**
   * One `<div>` line of `renderTree`: everything it interpolates is
   * determined by the node's content and its depth.
   */
  datatype Line = Line(depth: nat, content: string) {
    function Indent(): string { Styles.Indent(depth) }
    function FontSize(): int { Styles.FontSize(12, 16, depth) }
    function PaddingLeft(): int { 20 * depth }
    function Bullet(): string { Bullets[TierIndex(depth)] }
  }

  function LineOf(p: Placed): Line {
    Line(p.depth, p.node.content)
  }

  /** `renderTree(node, depth)`: the node's line, then each child's lines in order. */
  method RenderTree(t: TreeNode, depth: nat) returns (html: seq<Line>)
    ensures html == Map(Flatten(t, depth), LineOf)
    decreases t, 1
  {
    var rest := RenderChildren(t.children, depth + 1);
    MapCons(Placed(t, depth), FlattenAll(t.children, depth + 1), LineOf);
    html := [LineOf(Placed(t, depth))] + rest;
  }

  /** The `for (const child of node.children) html += renderTree(child, depth + 1)` loop. */
  method RenderChildren(ts: seq<TreeNode>, depth: nat) returns (html: seq<Line>)
    ensures html == Map(FlattenAll(ts, depth), LineOf)
    decreases ts, 0
  {
    html := [];
    var i := 0;
    while i < |ts|
      invariant 0 <= i <= |ts|
      invariant html == Map(FlattenAll(ts[..i], depth), LineOf)
    {
      var sub := RenderTree(ts[i], depth);
      FlattenAllAppend(ts, i, depth);
      MapAppend(FlattenAll(ts[..i], depth), Flatten(ts[i], depth), LineOf);
      html := html + sub;
      i := i + 1;
    }
    assert ts[..i] == ts;
  }

  /**
   * The rendered lines: one per node, the first is the root's own at the
   * starting depth, the font size stays between 12 and 16, the bullet is one
   * of the five, and the padding is 20 pixels a level.
   */
  lemma RenderedLines(t: TreeNode, depth: nat)
    ensures var html := Map(Flatten(t, depth), LineOf);
            && |html| == Size(t)
            && html[0].content == t.content && html[0].PaddingLeft() == 20 * depth
            && forall i :: 0 <= i < |html| ==>
                 && 12 <= html[i].FontSize() <= 16
                 && html[i].Bullet() in Bullets
                 && html[i].PaddingLeft() == 20 * Flatten(t, depth)[i].depth
                 && |html[i].Indent()| == 2 * Flatten(t, depth)[i].depth
  {
    FlattenLength(t, depth);
  }

  /** In a levelled tree rendered from its own level, every line's depth is its node's level. */
  lemma {:induction false} FlattenLevelled(t: TreeNode, depth: nat)
    requires Levelled(t) && t.level == depth
    ensures forall p :: p in Flatten(t, depth) ==> p.node.level == p.depth
    decreases t, 1
  {
    FlattenAllLevelled(t.children, depth + 1);
  }

  lemma {:induction false} FlattenAllLevelled(ts: seq<TreeNode>, depth: nat)
    requires forall c :: c in ts ==> Levelled(c) && c.level == depth
    ensures forall p :: p in FlattenAll(ts, depth) ==> p.node.level == p.depth
    decreases ts, 0
  {
    if ts != [] {
      FlattenAllLevelled(ts[..|ts| - 1], depth);
      FlattenLevelled(ts[|ts| - 1], depth);
    }
  }
}
