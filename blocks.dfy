/**
 * The host's block graph and the traversals every outline variant shares.
 *
 * A block map is a `map<string, Block>`; the order in which `Object.keys`
 * enumerates it is kept beside it as a duplicate-free key sequence (a
 * `Graph`). Absent optional fields (`text`, `parent`, `type`) are the empty
 * string: every use in the plugin tests them for falsiness, where
 * `undefined` and `""` behave alike.
 *
 * None of the plugin's recursive walks guards against cyclic `children`.
 * Here every walk carries `path`, the ids on the current recursion path, and
 * treats an id on it exactly like an id missing from the map; the walk
 * terminates because `blocks.Keys - path` shrinks at each level. The
 * unguarded walk is `PreorderFuel`; `PreorderUnguarded` shows the two agree
 * on input whose reachable `children` graph has no cycle.
 */
module Blocks {
  import opened Seqs

  datatype Block = Block(id: string, text: string, children: seq<string>, parent: string, blockType: string)

  type BlockMap = map<string, Block>

  /** A block map with its key enumeration order. */
  datatype Graph = Graph(blocks: BlockMap, keys: seq<string>) {
    ghost predicate Valid() {
      NoDuplicates(keys) && forall k :: k in blocks <==> k in keys
    }
  }

  /** The node of a derived outline tree. */
  datatype TreeNode = TreeNode(id: string, content: string, children: seq<TreeNode>, level: int, parent: string)

  /** `Object.keys(blocks).length` is the number of blocks in the map. */
  lemma KeysCountBlocks(g: Graph)
    requires g.Valid()
    ensures |g.keys| == |g.blocks|
  {
    DistinctCardinality(g.keys);
    assert g.blocks.Keys == set k | k in g.keys;
  }

  /** `!block.parent || !blocks[block.parent]`: the block has no parent inside the map. */
  predicate HasNoParentInMap(blocks: BlockMap, b: Block) {
    b.parent == "" || b.parent !in blocks
  }

  /**
   * `Object.keys(blocks).filter(id => !blocks[id].parent || !blocks[blocks[id].parent])`:
   * the keys, in enumeration order, of the blocks without a parent in the map.
   */
  function Parentless(g: Graph): (r: seq<string>)
    requires g.Valid()
    ensures forall k :: k in r <==> k in g.blocks && HasNoParentInMap(g.blocks, g.blocks[k])
    ensures IsSubsequence(r, g.keys) && NoDuplicates(r)
  {
    var p := k => k in g.blocks && HasNoParentInMap(g.blocks, g.blocks[k]);
    FilterIsSubsequence(g.keys, p);
    SubsequenceNoDuplicates(Filter(g.keys, p), g.keys);
    Filter(g.keys, p)
  }

  /** `blocks[id]` is present and `id` is not already being expanded higher up. */
  predicate Resolves(blocks: BlockMap, id: string, path: set<string>) {
    id in blocks && id !in path
  }

  lemma PathShrinks(blocks: BlockMap, id: string, path: set<string>)
    requires Resolves(blocks, id, path)
    ensures blocks.Keys - (path + {id}) < blocks.Keys - path
    ensures |blocks.Keys - (path + {id})| == |blocks.Keys - path| - 1
  {
    assert blocks.Keys - (path + {id}) == (blocks.Keys - path) - {id};
  }

  // ---------------------------------------------------------------------
  // Pre-order walk of the block graph

  /** One block reached by the walk, with the level it is rendered at. */
  datatype Visit = Visit(id: string, block: Block, level: nat)

  /**
   * The blocks a recursive `for (const childId of block.children)` walk from
   * `id` reaches, in the order it reaches them; a missing id contributes nothing.
   */
  function Preorder(blocks: BlockMap, id: string, level: nat, path: set<string>): seq<Visit>
    decreases blocks.Keys - path, 0
  {
    if !Resolves(blocks, id, path) then []
    else
      PathShrinks(blocks, id, path);
      [Visit(id, blocks[id], level)] + PreorderAll(blocks, blocks[id].children, level + 1, path + {id})
  }

  /** The walks from each of `ids` in turn, at the same level. */
  function PreorderAll(blocks: BlockMap, ids: seq<string>, level: nat, path: set<string>): seq<Visit>
    decreases blocks.Keys - path, |ids|
  {
    if ids == [] then []
    else PreorderAll(blocks, ids[..|ids| - 1], level, path) + Preorder(blocks, ids[|ids| - 1], level, path)
  }

  lemma PreorderAllAppend(blocks: BlockMap, ids: seq<string>, i: nat, level: nat, path: set<string>)
    requires i < |ids|
    ensures PreorderAll(blocks, ids[..i + 1], level, path)
         == PreorderAll(blocks, ids[..i], level, path) + Preorder(blocks, ids[i], level, path)
  {
    assert ids[..i + 1][..i] == ids[..i];
  }

  /** Every block the walk reaches is in the map, and its level is at least the starting level. */
  lemma {:induction false} PreorderVisitsResolve(blocks: BlockMap, id: string, level: nat, path: set<string>)
    ensures forall v :: v in Preorder(blocks, id, level, path) ==>
              v.id in blocks && v.block == blocks[v.id] && v.id !in path && v.level >= level
    decreases blocks.Keys - path, 0
  {
    if Resolves(blocks, id, path) {
      PathShrinks(blocks, id, path);
      PreorderAllVisitsResolve(blocks, blocks[id].children, level + 1, path + {id});
    }
  }

  lemma {:induction false} PreorderAllVisitsResolve(blocks: BlockMap, ids: seq<string>, level: nat, path: set<string>)
    ensures forall v :: v in PreorderAll(blocks, ids, level, path) ==>
              v.id in blocks && v.block == blocks[v.id] && v.id !in path && v.level >= level
    decreases blocks.Keys - path, |ids|
  {
    if ids != [] {
      PreorderAllVisitsResolve(blocks, ids[..|ids| - 1], level, path);
      PreorderVisitsResolve(blocks, ids[|ids| - 1], level, path);
    }
  }

  // ---------------------------------------------------------------------
  // Subtree counting: `countTotalBlocks` / `countBlocks`

  /** 0 for a missing id, otherwise 1 plus the counts of all child ids. */
  function SubtreeCount(blocks: BlockMap, id: string, path: set<string>): nat
    decreases blocks.Keys - path, 0
  {
    if !Resolves(blocks, id, path) then 0
    else
      PathShrinks(blocks, id, path);
      1 + ChildrenCount(blocks, blocks[id].children, path + {id})
  }

  function ChildrenCount(blocks: BlockMap, ids: seq<string>, path: set<string>): nat
    decreases blocks.Keys - path, |ids|
  {
    if ids == [] then 0
    else ChildrenCount(blocks, ids[..|ids| - 1], path) + SubtreeCount(blocks, ids[|ids| - 1], path)
  }

  lemma ChildrenCountAppend(blocks: BlockMap, ids: seq<string>, i: nat, path: set<string>)
    requires i < |ids|
    ensures ChildrenCount(blocks, ids[..i + 1], path)
         == ChildrenCount(blocks, ids[..i], path) + SubtreeCount(blocks, ids[i], path)
  {
    assert ids[..i + 1][..i] == ids[..i];
  }

  /** The count of a subtree is the number of blocks the pre-order walk visits. */
  lemma {:induction false} CountIsPreorderLength(blocks: BlockMap, id: string, level: nat, path: set<string>)
    ensures SubtreeCount(blocks, id, path) == |Preorder(blocks, id, level, path)|
    decreases blocks.Keys - path, 0
  {
    if Resolves(blocks, id, path) {
      PathShrinks(blocks, id, path);
      CountAllIsPreorderLength(blocks, blocks[id].children, level + 1, path + {id});
    }
  }

  lemma {:induction false} CountAllIsPreorderLength(blocks: BlockMap, ids: seq<string>, level: nat, path: set<string>)
    ensures ChildrenCount(blocks, ids, path) == |PreorderAll(blocks, ids, level, path)|
    decreases blocks.Keys - path, |ids|
  {
    if ids != [] {
      CountAllIsPreorderLength(blocks, ids[..|ids| - 1], level, path);
      CountIsPreorderLength(blocks, ids[|ids| - 1], level, path);
    }
  }

  // ---------------------------------------------------------------------
  // Subtree counting as the plugin writes it: `countTotalBlocks` and `countBlocks`

  /**
   * `countTotalBlocks(blockId, allBlocks)` and the identical `countBlocks`:
   * 0 for a missing id, else 1 plus the counts of all child ids.
   */
  method CountBlocks(blocks: BlockMap, id: string, path: set<string>) returns (count: nat)
    ensures count == SubtreeCount(blocks, id, path)
    decreases blocks.Keys - path, 0
  {
    if !Resolves(blocks, id, path) {
      return 0;
    }
    PathShrinks(blocks, id, path);
    var sub := CountChildBlocks(blocks, blocks[id].children, path + {id});
    count := 1 + sub;
  }

  /** The `count += countBlocks(childId, allBlocks)` loop over all child ids. */
  method CountChildBlocks(blocks: BlockMap, ids: seq<string>, path: set<string>) returns (count: nat)
    ensures count == ChildrenCount(blocks, ids, path)
    decreases blocks.Keys - path, 1
  {
    count := 0;
    var i := 0;
    while i < |ids|
      invariant 0 <= i <= |ids|
      invariant count == ChildrenCount(blocks, ids[..i], path)
    {
      var sub := CountBlocks(blocks, ids[i], path);
      ChildrenCountAppend(blocks, ids, i, path);
      count := count + sub;
      i := i + 1;
    }
    assert ids[..i] == ids;
  }

  // ---------------------------------------------------------------------
  // Acyclic input and the unguarded recursion

  /** No walk from `id` along `children` meets an id already on its path. */
  predicate AcyclicFrom(blocks: BlockMap, id: string, path: set<string>)
    decreases blocks.Keys - path, 0
  {
    id !in blocks ||
    (id !in path &&
     (PathShrinks(blocks, id, path);
      AcyclicAll(blocks, blocks[id].children, path + {id})))
  }

  predicate AcyclicAll(blocks: BlockMap, ids: seq<string>, path: set<string>)
    decreases blocks.Keys - path, |ids|
  {
    ids == [] ||
    (AcyclicAll(blocks, ids[..|ids| - 1], path) && AcyclicFrom(blocks, ids[|ids| - 1], path))
  }

  lemma AcyclicAllEach(blocks: BlockMap, ids: seq<string>, path: set<string>)
    requires AcyclicAll(blocks, ids, path)
    ensures forall i :: 0 <= i < |ids| ==> AcyclicFrom(blocks, ids[i], path)
  {
    if ids != [] {
      AcyclicAllEach(blocks, ids[..|ids| - 1], path);
      forall i | 0 <= i < |ids| - 1 ensures AcyclicFrom(blocks, ids[i], path) {
        assert ids[..|ids| - 1][i] == ids[i];
      }
    }
  }

  /**
   * The walk as the plugin writes it, without a cycle guard. The recursion has
   * no bound of its own; `fuel` caps its depth so that it can be stated at all.
   */
  function PreorderFuel(blocks: BlockMap, id: string, level: nat, fuel: nat): seq<Visit>
    decreases fuel, 0
  {
    if fuel == 0 || id !in blocks then []
    else [Visit(id, blocks[id], level)] + PreorderAllFuel(blocks, blocks[id].children, level + 1, fuel - 1)
  }

  function PreorderAllFuel(blocks: BlockMap, ids: seq<string>, level: nat, fuel: nat): seq<Visit>
    decreases fuel, |ids|
  {
    if ids == [] then []
    else PreorderAllFuel(blocks, ids[..|ids| - 1], level, fuel) + PreorderFuel(blocks, ids[|ids| - 1], level, fuel)
  }

  /**
   * On acyclic input the guarded walk is the plugin's walk: with more fuel than
   * there are blocks left to expand, the unguarded recursion bottoms out by
   * itself and yields exactly the guarded result.
   */
  lemma {:induction false} PreorderUnguarded(blocks: BlockMap, id: string, level: nat, path: set<string>, fuel: nat)
    requires AcyclicFrom(blocks, id, path)
    requires fuel > |blocks.Keys - path|
    ensures PreorderFuel(blocks, id, level, fuel) == Preorder(blocks, id, level, path)
    decreases blocks.Keys - path, 0
  {
    if id in blocks {
      PathShrinks(blocks, id, path);
      PreorderAllUnguarded(blocks, blocks[id].children, level + 1, path + {id}, fuel - 1);
    }
  }

  lemma {:induction false} PreorderAllUnguarded(blocks: BlockMap, ids: seq<string>, level: nat, path: set<string>, fuel: nat)
    requires AcyclicAll(blocks, ids, path)
    requires fuel > |blocks.Keys - path|
    ensures PreorderAllFuel(blocks, ids, level, fuel) == PreorderAll(blocks, ids, level, path)
    decreases blocks.Keys - path, |ids|
  {
    if ids != [] {
      PreorderAllUnguarded(blocks, ids[..|ids| - 1], level, path, fuel);
      PreorderUnguarded(blocks, ids[|ids| - 1], level, path, fuel);
    }
  }

  /**
   * Without the guard a block listed among its own children is expanded
   * again at every level: the walk is as long as the fuel allows, so the
   * plugin's recursion does not terminate on it.
   */
  lemma {:induction false} SelfLoopNeverBottomsOut(blocks: BlockMap, id: string, level: nat, fuel: nat)
    requires id in blocks && blocks[id].children == [id]
    ensures |PreorderFuel(blocks, id, level, fuel)| == fuel
    decreases fuel
  {
    if fuel > 0 {
      SelfLoopNeverBottomsOut(blocks, id, level + 1, fuel - 1);
      assert [id][..0] == [];
      assert PreorderAllFuel(blocks, [id], level + 1, fuel - 1) == PreorderFuel(blocks, id, level + 1, fuel - 1);
    }
  }

  /** The guarded walk expands a self-listed block once. */
  lemma SelfLoopGuarded(blocks: BlockMap, id: string, level: nat)
    requires id in blocks && blocks[id].children == [id]
    ensures Preorder(blocks, id, level, {}) == [Visit(id, blocks[id], level)]
  {
    assert [id][..0] == [];
    assert {} + {id} == {id};
    assert PreorderAll(blocks, [id], level + 1, {id}) == Preorder(blocks, id, level + 1, {id}) == [];
  }

  // ---------------------------------------------------------------------
  // Pre-order layout of a derived tree

  /** A tree node together with the depth it is rendered at. */
  datatype Placed = Placed(node: TreeNode, depth: nat)

  /** Number of nodes of a tree. */
  function Size(t: TreeNode): nat
    decreases t, 1
  {
    1 + SizeAll(t.children)
  }

  function SizeAll(ts: seq<TreeNode>): nat
    decreases ts, 0
  {
    if ts == [] then 0 else SizeAll(ts[..|ts| - 1]) + Size(ts[|ts| - 1])
  }

  /** The nodes of `t` in pre-order, each with its depth below `t` plus `depth`. */
  function Flatten(t: TreeNode, depth: nat): seq<Placed>
    decreases t, 1
  {
    [Placed(t, depth)] + FlattenAll(t.children, depth + 1)
  }

  function FlattenAll(ts: seq<TreeNode>, depth: nat): seq<Placed>
    decreases ts, 0
  {
    if ts == [] then [] else FlattenAll(ts[..|ts| - 1], depth) + Flatten(ts[|ts| - 1], depth)
  }

  lemma FlattenAllAppend(ts: seq<TreeNode>, i: nat, depth: nat)
    requires i < |ts|
    ensures FlattenAll(ts[..i + 1], depth) == FlattenAll(ts[..i], depth) + Flatten(ts[i], depth)
  {
    assert ts[..i + 1][..i] == ts[..i];
  }

  /** The pre-order layout has exactly one entry per node. */
  lemma {:induction false} FlattenLength(t: TreeNode, depth: nat)
    ensures |Flatten(t, depth)| == Size(t)
    decreases t, 1
  {
    FlattenAllLength(t.children, depth + 1);
  }

  lemma {:induction false} FlattenAllLength(ts: seq<TreeNode>, depth: nat)
    ensures |FlattenAll(ts, depth)| == SizeAll(ts)
    decreases ts, 0
  {
    if ts != [] {
      FlattenAllLength(ts[..|ts| - 1], depth);
      FlattenLength(ts[|ts| - 1], depth);
    }
  }

  /** Every entry of the layout sits at the starting depth or deeper. */
  lemma {:induction false} FlattenDeeper(t: TreeNode, depth: nat)
    ensures forall p :: p in Flatten(t, depth) ==> p.depth >= depth
    decreases t, 1
  {
    FlattenAllDeeper(t.children, depth + 1);
  }

  lemma {:induction false} FlattenAllDeeper(ts: seq<TreeNode>, depth: nat)
    ensures forall p :: p in FlattenAll(ts, depth) ==> p.depth >= depth
    decreases ts, 0
  {
    if ts != [] {
      FlattenAllDeeper(ts[..|ts| - 1], depth);
      FlattenDeeper(ts[|ts| - 1], depth);
    }
  }
}
