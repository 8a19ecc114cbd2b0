/**
 * `buildTree` and `findRootBlocks` of src/utils/helpers.ts: the outline tree
 * of a block, with noise blocks emptied and blank children dropped, and the
 * blocks an outline starts from.
 *
 * Everything `buildTree` asks of one block (its cleaned content, whether it
 * is noise, whether it may appear as a child) depends on that block alone, so
 * the model computes it once per block as an `Entry` and the walk reads the
 * entries. The walk carries the ids on its recursion path (see `Blocks`); an
 * id on the path is treated as missing. `BuildTreeFuel` is the unguarded
 * recursion of the plugin, and `BuildTreeUnguarded` shows the two agree on
 * acyclic input.
 */
module TreeBuilder {
  import opened Text
  import opened Seqs
  import opened Blocks
  import opened Sanitizer
  import opened NoiseFilter

  /** `sanitizeInput(block.text || '')`. */
  function Content(b: Block): string {
    SanitizeInput(Str(b.text))
  }

  /** `!content.trim() || block.type === 'table2' || isTableRelatedBlock(block)`: `buildTree` empties the node. */
  predicate IsNoise(b: Block) {
    AllWhite(Content(b)) || b.blockType == "table2" || IsTableRelated(b.text)
  }

  /** `child && child.id && child.text && child.text.trim()`: the child filter, once the block is found. */
  predicate Listed(b: Block) {
    b.id != "" && !AllWhite(b.text)
  }

  /** What the walk reads of one block. */
  datatype Entry = Entry(id: string, content: string, noise: bool, listed: bool, children: seq<string>, parent: string)

  type EntryMap = map<string, Entry>

  function EntryOf(b: Block): Entry {
    Entry(b.id, Content(b), IsNoise(b), Listed(b), b.children, b.parent)
  }

  function Entries(blocks: BlockMap): EntryMap {
    map k | k in blocks :: EntryOf(blocks[k])
  }

  /** The entry map has the keys, ids, children and parents of the block map. */
  predicate Mirrors(m: EntryMap, blocks: BlockMap) {
    && m.Keys == blocks.Keys
    && forall k :: k in m ==> m[k].id == blocks[k].id && m[k].children == blocks[k].children && m[k].parent == blocks[k].parent
  }

  lemma EntriesMirror(blocks: BlockMap)
    ensures Mirrors(Entries(blocks), blocks)
  {
  }

  // ---------------------------------------------------------------------
  // The walk

  lemma EntryPathShrinks(m: EntryMap, id: string, path: set<string>)
    requires id in m && id !in path
    ensures m.Keys - (path + {id}) < m.Keys - path
  {
    assert id in m.Keys - path;
  }

  /** The node for an id that resolves to no usable block. */
  function Placeholder(id: string, level: int): TreeNode {
    TreeNode(if id == "" then "unknown" else id, "", [], level, "")
  }

  /** `buildTree(id, blocks, level)`. */
  function BuildTree(m: EntryMap, id: string, level: int, path: set<string>): TreeNode
    decreases m.Keys - path, 0
  {
    if id !in m || id in path || m[id].id == "" then Placeholder(id, level)
    else
      var e := m[id];
      if e.noise then TreeNode(e.id, "", [], level, e.parent)
      else
        EntryPathShrinks(m, id, path);
        TreeNode(e.id, e.content, BuildChildren(m, e.children, level + 1, path + {id}), level, e.parent)
  }

  /** The child filter: the child is present, not on the path, and listed. */
  predicate ChildPasses(m: EntryMap, c: string, path: set<string>) {
    c in m && c !in path && m[c].listed
  }

  /** `t.content.trim().length > 0`. */
  predicate HasText(t: TreeNode) {
    !AllWhite(t.content)
  }

  /**
   * `ids.filter(passes).map(c => buildTree(c, blocks, level)).filter(hasText)`,
   * one id at a time from the back.
   */
  function BuildChildren(m: EntryMap, ids: seq<string>, level: int, path: set<string>): seq<TreeNode>
    decreases m.Keys - path, |ids|
  {
    if ids == [] then []
    else
      var front := BuildChildren(m, ids[..|ids| - 1], level, path);
      var c := ids[|ids| - 1];
      if !ChildPasses(m, c, path) then front
      else
        var t := BuildTree(m, c, level, path);
        if HasText(t) then front + [t] else front
  }

  /** `buildTree(blockId, blocks, level)` on the plugin's block map. */
  function BuildTreeAt(blocks: BlockMap, id: string, level: int): TreeNode {
    BuildTree(Entries(blocks), id, level, {})
  }

  /** The fused definition is the plugin's filter-map-filter chain. */
  lemma {:induction false} BuildChildrenIsChain(m: EntryMap, ids: seq<string>, level: int, path: set<string>)
    ensures BuildChildren(m, ids, level, path)
         == Filter(Map(Filter(ids, c => ChildPasses(m, c, path)), c => BuildTree(m, c, level, path)), HasText)
    decreases |ids|
  {
    if ids != [] {
      var front, c := ids[..|ids| - 1], ids[|ids| - 1];
      BuildChildrenIsChain(m, front, level, path);
      assert ids == front + [c];
      FilterMapFilterSnoc(front, c, c => ChildPasses(m, c, path), c => BuildTree(m, c, level, path), HasText);
    }
  }

  // ---------------------------------------------------------------------
  // The node of one block

  /** A missing id, or a block with an empty id, gives an empty childless node named after the id (or `unknown`). */
  lemma MissingBlock(blocks: BlockMap, id: string, level: int)
    requires id !in blocks || blocks[id].id == ""
    ensures var t := BuildTreeAt(blocks, id, level);
            && t.id == (if id == "" then "unknown" else id)
            && t.content == "" && t.children == [] && t.level == level && t.parent == ""
  {
  }

  /** A noise block keeps its id and parent but loses its content and children. */
  lemma NoiseBlock(blocks: BlockMap, id: string, level: int)
    requires id in blocks && blocks[id].id != "" && IsNoise(blocks[id])
    ensures var t := BuildTreeAt(blocks, id, level);
            && t.id == blocks[id].id && t.parent == blocks[id].parent
            && t.content == "" && t.children == [] && t.level == level
  {
  }

  /** Any other block keeps its id and parent, and its content is its cleaned text, which is not blank. */
  lemma ContentBlock(blocks: BlockMap, id: string, level: int)
    requires id in blocks && blocks[id].id != "" && !IsNoise(blocks[id])
    ensures var t := BuildTreeAt(blocks, id, level);
            && t.id == blocks[id].id && t.parent == blocks[id].parent && t.level == level
            && t.content == SanitizeInput(Str(blocks[id].text)) && HasText(t)
  {
  }

  // ---------------------------------------------------------------------
  // Shape of the whole tree

  /** Text as `sanitizeInput` leaves it. */
  predicate Cleaned(s: string) {
    |s| <= 200 && IsTrimmed(s) && NoAdjacentWhite(s) && TagFree(s)
  }

  /** An entry as `EntryOf` builds it: cleaned content, not blank unless the block is noise. */
  predicate WellFormed(e: Entry) {
    Cleaned(e.content) && (e.noise || !AllWhite(e.content))
  }

  lemma EntriesWellFormed(blocks: BlockMap)
    ensures forall k :: k in Entries(blocks) ==> WellFormed(Entries(blocks)[k])
  {
    forall k | k in blocks ensures WellFormed(EntryOf(blocks[k])) {
      SanitizedShape(Str(blocks[k].text));
    }
  }

  /**
   * `t` is an outline at `level`: cleaned content, no children under an
   * empty node, and children that are outlines with text one level deeper.
   */
  predicate Outline(t: TreeNode, level: int)
    decreases t
  {
    && t.level == level
    && Cleaned(t.content)
    && (t.content == "" ==> t.children == [])
    && forall i :: 0 <= i < |t.children| ==> HasText(t.children[i]) && Outline(t.children[i], level + 1)
  }

  lemma {:induction false} BuildTreeIsOutline(m: EntryMap, id: string, level: int, path: set<string>)
    requires forall k :: k in m ==> WellFormed(m[k])
    ensures Outline(BuildTree(m, id, level, path), level)
    decreases m.Keys - path, 0
  {
    if id in m && id !in path && m[id].id != "" && !m[id].noise {
      EntryPathShrinks(m, id, path);
      BuildChildrenAreOutlines(m, m[id].children, level + 1, path + {id});
      assert WellFormed(m[id]);
    }
  }

  lemma {:induction false} BuildChildrenAreOutlines(m: EntryMap, ids: seq<string>, level: int, path: set<string>)
    requires forall k :: k in m ==> WellFormed(m[k])
    ensures var r := BuildChildren(m, ids, level, path);
            && |r| <= |ids|
            && forall i :: 0 <= i < |r| ==> HasText(r[i]) && Outline(r[i], level)
    decreases m.Keys - path, |ids|
  {
    if ids != [] {
      var front := BuildChildren(m, ids[..|ids| - 1], level, path);
      BuildChildrenAreOutlines(m, ids[..|ids| - 1], level, path);
      var c := ids[|ids| - 1];
      if ChildPasses(m, c, path) {
        var t := BuildTree(m, c, level, path);
        BuildTreeIsOutline(m, c, level, path);
        if HasText(t) {
          var r := front + [t];
          forall i | 0 <= i < |r| ensures HasText(r[i]) && Outline(r[i], level) {
            if i < |front| { assert r[i] == front[i]; }
          }
        }
      }
    }
  }

  /** The tree `buildTree` returns for any block of any block map is an outline. */
  lemma BuildTreeAtIsOutline(blocks: BlockMap, id: string, level: int)
    ensures Outline(BuildTreeAt(blocks, id, level), level)
  {
    EntriesWellFormed(blocks);
    BuildTreeIsOutline(Entries(blocks), id, level, {});
  }

  // ---------------------------------------------------------------------
  // The unguarded recursion

  /** The plugin's `buildTree`, without a cycle guard; `fuel` bounds its depth. */
  function BuildTreeFuel(m: EntryMap, id: string, level: int, fuel: nat): TreeNode
    decreases fuel, 0
  {
    if fuel == 0 || id !in m || m[id].id == "" then Placeholder(id, level)
    else
      var e := m[id];
      if e.noise then TreeNode(e.id, "", [], level, e.parent)
      else TreeNode(e.id, e.content, BuildChildrenFuel(m, e.children, level + 1, fuel - 1), level, e.parent)
  }

  function BuildChildrenFuel(m: EntryMap, ids: seq<string>, level: int, fuel: nat): seq<TreeNode>
    decreases fuel, |ids|
  {
    if ids == [] then []
    else
      var front := BuildChildrenFuel(m, ids[..|ids| - 1], level, fuel);
      var c := ids[|ids| - 1];
      if !ChildPasses(m, c, {}) then front
      else
        var t := BuildTreeFuel(m, c, level, fuel);
        if HasText(t) then front + [t] else front
  }

  /** On acyclic input, with more fuel than blocks, the guarded tree is the plugin's tree. */
  lemma {:induction false} BuildTreeUnguarded(m: EntryMap, blocks: BlockMap, id: string, level: int, path: set<string>, fuel: nat)
    requires Mirrors(m, blocks) && AcyclicFrom(blocks, id, path)
    requires fuel > |blocks.Keys - path|
    ensures BuildTreeFuel(m, id, level, fuel) == BuildTree(m, id, level, path)
    decreases blocks.Keys - path, 0
  {
    if id in m && m[id].id != "" && !m[id].noise {
      PathShrinks(blocks, id, path);
      BuildChildrenUnguarded(m, blocks, m[id].children, level + 1, path + {id}, fuel - 1);
    }
  }

  lemma {:induction false} BuildChildrenUnguarded(m: EntryMap, blocks: BlockMap, ids: seq<string>, level: int, path: set<string>, fuel: nat)
    requires Mirrors(m, blocks) && AcyclicAll(blocks, ids, path)
    requires fuel > |blocks.Keys - path|
    ensures BuildChildrenFuel(m, ids, level, fuel) == BuildChildren(m, ids, level, path)
    decreases blocks.Keys - path, |ids|
  {
    if ids != [] {
      var c := ids[|ids| - 1];
      BuildChildrenUnguarded(m, blocks, ids[..|ids| - 1], level, path, fuel);
      assert ChildPasses(m, c, {}) == ChildPasses(m, c, path);
      if ChildPasses(m, c, path) {
        BuildTreeUnguarded(m, blocks, c, level, path, fuel);
      }
    }
  }

  /** `buildTree` on a block map whose `children` links form no cycle below `id`. */
  lemma BuildTreeAtUnguarded(blocks: BlockMap, id: string, level: int)
    requires AcyclicFrom(blocks, id, {})
    ensures BuildTreeFuel(Entries(blocks), id, level, |blocks| + 1) == BuildTreeAt(blocks, id, level)
  {
    EntriesMirror(blocks);
    assert blocks.Keys - {} == blocks.Keys;
    BuildTreeUnguarded(Entries(blocks), blocks, id, level, {}, |blocks| + 1);
  }

  // ---------------------------------------------------------------------
  // Roots

  /** The test `findRootBlocks` applies to each block. */
  predicate IsRootBlock(blocks: BlockMap, b: Block) {
    && b.id != "" && !AllWhite(b.text)
    && b.blockType != "table2" && !IsTableRelated(b.text)
    && HasNoParentInMap(blocks, b)
  }

  /** `findRootBlocks(blocks)`: `Object.keys(blocks).filter(...)`. */
  function FindRootBlocks(g: Graph): (r: seq<string>)
    requires g.Valid()
    ensures forall k :: k in r <==> k in g.blocks && IsRootBlock(g.blocks, g.blocks[k])
    ensures IsSubsequence(r, g.keys) && NoDuplicates(r)
  {
    var r := Filter(g.keys, k => k in g.blocks && IsRootBlock(g.blocks, g.blocks[k]));
    FilterIsSubsequence(g.keys, k => k in g.blocks && IsRootBlock(g.blocks, g.blocks[k]));
    SubsequenceNoDuplicates(r, g.keys);
    r
  }

  /** The roots are determined by their membership and key order. */
  lemma RootsUnique(g: Graph, r: seq<string>)
    requires g.Valid() && IsSubsequence(r, g.keys)
    requires forall k :: k in r <==> k in g.blocks && IsRootBlock(g.blocks, g.blocks[k])
    ensures r == FindRootBlocks(g)
  {
    var p := k => k in g.blocks && IsRootBlock(g.blocks, g.blocks[k]);
    forall k ensures k in r <==> k in g.keys && p(k) { }
    FilterUnique(g.keys, p, r);
  }

  /** A root block's tree is its own node, never the placeholder of a missing block. */
  lemma RootHasId(g: Graph, k: string)
    requires g.Valid() && k in FindRootBlocks(g)
    ensures BuildTreeAt(g.blocks, k, 0).id == g.blocks[k].id != ""
  {
  }
}
