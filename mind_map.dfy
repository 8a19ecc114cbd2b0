/**
 * The panel renderer (`components/MindMap.ts`, class `MindMapRenderer`):
 * `renderTreeAsHTML` prints one `<div class="mindmap-node">` per tree node
 * in pre-order, all of them siblings in one container, with the depth in
 * `data-level`; the click handler recovers a node's children from that flat
 * list by scanning the following siblings' levels, and toggles their
 * display.
 */
module MindMap {
  import opened Text
  import opened Seqs
  import opened Blocks
  import opened Styles

  const Colors: seq<string> := [
    "var(--orca-color-text-1)", "var(--orca-color-text-2)", "var(--orca-color-text-3)",
    "var(--orca-color-primary)", "var(--orca-color-secondary)"
  ]

  const Bullets: seq<string> := ["● ", "○ ", "▪ ", "▫ ", "‣ "]

  /**
   * One node `<div>`: what it interpolates is determined by the depth, the
   * node's id and its content.
   */
  datatype NodeLine = NodeLine(depth: nat, id: string, content: string) {
    function Indent(): string { Styles.Indent(depth) }
    function FontSize(): int { Styles.FontSize(12, 16, depth) }
    /** `getTextColor(depth)`. */
    function Color(): string { Colors[TierIndex(depth)] }
    /** `getBullet(depth)`. */
    function Bullet(): string { Bullets[TierIndex(depth)] }
    function Text(): string { Bullet() + content }
  }

  function LineOf(p: Placed): NodeLine {
    NodeLine(p.depth, p.node.id, p.node.content)
  }

  /** `renderTreeAsHTML(node, depth)`: the node's line, then each child's lines in order. */
  method RenderTreeAsHTML(t: TreeNode, depth: nat) returns (html: seq<NodeLine>)
    ensures html == Map(Flatten(t, depth), LineOf)
    decreases t, 1
  {
    var rest := RenderChildren(t.children, depth + 1);
    MapCons(Placed(t, depth), FlattenAll(t.children, depth + 1), LineOf);
    html := [LineOf(Placed(t, depth))] + rest;
  }

  /**
   * The lines of `ts` rendered one after the other at `depth`: the
   * `for (const child of node.children)` loop, and at depth 0 the
   * `for (const tree of trees)` loop of `generateMindMapHTML`.
   */
  method RenderChildren(ts: seq<TreeNode>, depth: nat) returns (html: seq<NodeLine>)
    ensures html == Map(FlattenAll(ts, depth), LineOf)
    decreases ts, 0
  {
    html := [];
    var i := 0;
    while i < |ts|
      invariant 0 <= i <= |ts|
      invariant html == Map(FlattenAll(ts[..i], depth), LineOf)
    {
      var sub := RenderTreeAsHTML(ts[i], depth);
      FlattenAllAppend(ts, i, depth);
      MapAppend(FlattenAll(ts[..i], depth), Flatten(ts[i], depth), LineOf);
      html := html + sub;
      i := i + 1;
    }
    assert ts[..i] == ts;
  }

  /** What `generateMindMapHTML` fills in: the node lines and the footer's block total. */
  datatype Panel = Panel(lines: seq<NodeLine>, totalBlocks: int)

  /** `generateMindMapHTML(trees, totalBlocks)`: every tree from depth 0, in order, and the total as given. */
  method GenerateMindMapHTML(trees: seq<TreeNode>, totalBlocks: int) returns (panel: Panel)
    ensures panel.lines == Map(FlattenAll(trees, 0), LineOf)
    ensures panel.totalBlocks == totalBlocks
  {
    var lines := RenderChildren(trees, 0);
    panel := Panel(lines, totalBlocks);
  }

  /**
   * The rendered lines: one per node, with a 12-16 pixel font, an indent of
   * two spaces a level, and a colour and a bullet from the five, the last one
   * for every depth from 4 on.
   */
  lemma PanelLines(trees: seq<TreeNode>)
    ensures var lines := Map(FlattenAll(trees, 0), LineOf);
            && |lines| == SizeAll(trees)
            && forall i :: 0 <= i < |lines| ==>
                 && 12 <= lines[i].FontSize() <= 16
                 && |lines[i].Indent()| == 2 * lines[i].depth
                 && lines[i].Color() in Colors && lines[i].Bullet() in Bullets
                 && (lines[i].depth >= 4 ==> lines[i].Color() == Colors[4] && lines[i].Bullet() == Bullets[4])
  {
    FlattenAllLength(trees, 0);
  }

  // ---------------------------------------------------------------------
  // The click handler of addInteractivity

  /**
   * Where the sibling scan stops: the first following node whose level is
   * not deeper than `current`, or the end of the list.
   */
  function ScanEnd(after: seq<nat>, current: nat): (r: nat)
    ensures r <= |after|
    ensures forall k :: 0 <= k < r ==> after[k] > current
    ensures r < |after| ==> after[r] <= current
  {
    if after == [] || after[0] <= current then 0
    else
      var r := ScanEnd(after[1..], current);
      assert forall k :: 1 <= k < 1 + r ==> after[k] == after[1..][k - 1];
      1 + r
  }

  /** The scan stops at `n` when everything before `n` is deeper and `n` is not (or is the end). */
  lemma {:induction false} ScanEndAt(after: seq<nat>, current: nat, n: nat)
    requires n <= |after|
    requires forall k :: 0 <= k < n ==> after[k] > current
    requires n == |after| || after[n] <= current
    ensures ScanEnd(after, current) == n
    decreases n
  {
    if n > 0 {
      ScanEndAt(after[1..], current, n - 1);
    }
  }

  /** The positions among the first `n` following nodes whose level is `current + 1`, in order. */
  function ChildPositions(after: seq<nat>, current: nat, n: nat): seq<nat>
    requires n <= |after|
  {
    if n == 0 then []
    else ChildPositions(after, current, n - 1) + (if after[n - 1] == current + 1 then [n - 1] else [])
  }

  /**
   * The collected positions are, in increasing order, exactly the positions
   * before `n` whose level is `current + 1`.
   */
  lemma {:induction false} ChildPositionsExact(after: seq<nat>, current: nat, n: nat)
    requires n <= |after|
    ensures var r := ChildPositions(after, current, n);
            && (forall j :: 0 <= j < |r| ==> r[j] < n && after[r[j]] == current + 1)
            && (forall k :: 0 <= k < n && after[k] == current + 1 ==> k in r)
            && (forall j, j' :: 0 <= j < j' < |r| ==> r[j] < r[j'])
    decreases n
  {
    if n > 0 {
      ChildPositionsExact(after, current, n - 1);
    }
  }

  /**
   * The `while (nextSibling && ...)` scan: collects, in order, the positions
   * of the following nodes one level deeper than the clicked one, up to the
   * first node that is not deeper.
   */
  method CollectChildren(after: seq<nat>, current: nat) returns (kids: seq<nat>)
    ensures kids == ChildPositions(after, current, ScanEnd(after, current))
  {
    kids := [];
    var i := 0;
    while i < |after| && after[i] > current
      invariant 0 <= i <= |after|
      invariant forall k :: 0 <= k < i ==> after[k] > current
      invariant kids == ChildPositions(after, current, i)
    {
      if after[i] == current + 1 {
        kids := kids + [i];
      }
      i := i + 1;
    }
    ScanEndAt(after, current, i);
  }

  /** The number of `v`s in `xs`. */
  function CountLevel(xs: seq<nat>, v: nat): nat {
    if xs == [] then 0 else CountLevel(xs[..|xs| - 1], v) + (if xs[|xs| - 1] == v then 1 else 0)
  }

  lemma {:induction false} CountLevelAppend(a: seq<nat>, b: seq<nat>, v: nat)
    ensures CountLevel(a + b, v) == CountLevel(a, v) + CountLevel(b, v)
    decreases |b|
  {
    if b == [] {
      assert a + b == a;
    } else {
      assert (a + b)[..|a + b| - 1] == a + b[..|b| - 1];
      CountLevelAppend(a, b[..|b| - 1], v);
    }
  }

  lemma {:induction false} CountLevelNone(xs: seq<nat>, v: nat)
    requires forall k :: 0 <= k < |xs| ==> xs[k] != v
    ensures CountLevel(xs, v) == 0
    decreases |xs|
  {
    if xs != [] {
      CountLevelNone(xs[..|xs| - 1], v);
    }
  }

  /** There are as many collected positions as nodes at `current + 1` before the stop. */
  lemma {:induction false} ChildPositionsCount(after: seq<nat>, current: nat, n: nat)
    requires n <= |after|
    ensures |ChildPositions(after, current, n)| == CountLevel(after[..n], current + 1)
    decreases n
  {
    if n > 0 {
      ChildPositionsCount(after, current, n - 1);
      assert after[..n][..n - 1] == after[..n - 1];
    }
  }

  function DepthOf(p: Placed): nat {
    p.depth
  }

  /** Every line of a layout started at `depth` is at `depth` or deeper. */
  lemma LevelsDeeper(ts: seq<TreeNode>, depth: nat)
    ensures forall k :: 0 <= k < |Map(FlattenAll(ts, depth), DepthOf)| ==> Map(FlattenAll(ts, depth), DepthOf)[k] >= depth
  {
    var flat := FlattenAll(ts, depth);
    FlattenAllDeeper(ts, depth);
    forall k | 0 <= k < |flat| ensures flat[k].depth >= depth {
      assert flat[k] in flat;
    }
  }

  /** A node's own layout has one line at its own depth: the first. */
  lemma OneLineAtOwnDepth(t: TreeNode, depth: nat)
    ensures CountLevel(Map(Flatten(t, depth), DepthOf), depth) == 1
  {
    var below := Map(FlattenAll(t.children, depth + 1), DepthOf);
    assert Map(Flatten(t, depth), DepthOf) == [depth] + below by {
      MapCons(Placed(t, depth), FlattenAll(t.children, depth + 1), DepthOf);
    }
    LevelsDeeper(t.children, depth + 1);
    CountLevelNone(below, depth);
    CountLevelAppend([depth], below, depth);
    assert [depth][..0] == [];
  }

  /** The children's layouts hold exactly one line at the children's own depth per child. */
  lemma {:induction false} OneLinePerChild(ts: seq<TreeNode>, depth: nat)
    ensures CountLevel(Map(FlattenAll(ts, depth), DepthOf), depth) == |ts|
    decreases |ts|
  {
    if ts != [] {
      var front, last := ts[..|ts| - 1], ts[|ts| - 1];
      OneLinePerChild(front, depth);
      MapAppend(FlattenAll(front, depth), Flatten(last, depth), DepthOf);
      CountLevelAppend(Map(FlattenAll(front, depth), DepthOf), Map(Flatten(last, depth), DepthOf), depth);
      OneLineAtOwnDepth(last, depth);
    }
  }

  /**
   * Clicking a rendered node finds exactly its children: when the levels
   * after the clicked node are those of its subtree followed by nodes no
   * deeper than it (a sibling, an ancestor's sibling, the next tree) or
   * nothing, the scan stops at the end of the subtree and collects one
   * position per child.
   */
  lemma ScanFindsEveryChild(t: TreeNode, depth: nat, following: seq<nat>)
    requires following == [] || following[0] <= depth
    ensures var after := Map(FlattenAll(t.children, depth + 1), DepthOf) + following;
            var end := ScanEnd(after, depth);
            && end == Size(t) - 1
            && |ChildPositions(after, depth, end)| == |t.children|
  {
    var sub := Map(FlattenAll(t.children, depth + 1), DepthOf);
    var after := sub + following;
    FlattenAllLength(t.children, depth + 1);
    LevelsDeeper(t.children, depth + 1);
    assert forall k :: 0 <= k < |sub| ==> after[k] == sub[k] > depth;
    ScanEndAt(after, depth, |sub|);
    var end := |sub|;
    ChildPositionsCount(after, depth, end);
    assert after[..end] == sub;
    OneLinePerChild(t.children, depth + 1);
  }

  /**
   * The `childNodes.forEach` toggle: the flags at `base + o` for each offset
   * `o` flipped, every other flag kept.
   */
  method FlipEach(flags: seq<bool>, offsets: seq<nat>, base: nat) returns (r: seq<bool>)
    requires forall j :: 0 <= j < |offsets| ==> base + offsets[j] < |flags|
    requires forall j, j' :: 0 <= j < j' < |offsets| ==> offsets[j] < offsets[j']
    ensures |r| == |flags|
    ensures forall k :: 0 <= k < |flags| ==> r[k] == (flags[k] != (k >= base && k - base in offsets))
  {
    r := flags;
    var j := 0;
    while j < |offsets|
      invariant 0 <= j <= |offsets| && |r| == |flags|
      invariant forall k :: 0 <= k < |flags| ==> r[k] == (flags[k] != (k >= base && k - base in offsets[..j]))
    {
      var k := base + offsets[j];
      assert offsets[j] !in offsets[..j];
      r := r[k := !r[k]];
      assert offsets[..j + 1] == offsets[..j] + [offsets[j]];
      j := j + 1;
    }
    assert offsets[..j] == offsets;
  }

  /**
   * The display state of the rendered node `<div>`s: `levels` holds each
   * one's `data-level`, `hidden` whether its `style.display` is `none`,
   * `collapsed` whether it carries the `collapsed` class, and `hovered`
   * whether it carries `hover`.
   */
  class NodeList {
    const levels: seq<nat>
    var hidden: seq<bool>
    var collapsed: seq<bool>
    var hovered: seq<bool>

    ghost predicate Valid()
      reads this
    {
      |hidden| == |levels| && |collapsed| == |levels| && |hovered| == |levels|
    }

    /** Freshly rendered: nothing hidden, collapsed or hovered. */
    constructor (levels: seq<nat>)
      ensures Valid() && this.levels == levels
      ensures forall k :: 0 <= k < |levels| ==> !hidden[k] && !collapsed[k] && !hovered[k]
    {
      this.levels := levels;
      hidden := seq(|levels|, _ => false);
      collapsed := seq(|levels|, _ => false);
      hovered := seq(|levels|, _ => false);
    }

    /** The levels of the nodes after node `i`, in document order. */
    function After(i: nat): seq<nat>
      requires i < |levels|
    {
      levels[i + 1..]
    }

    /**
     * A click on node `i`: nothing on a level-0 node; otherwise every node
     * the sibling scan collects has its display flipped, and the clicked
     * node's `collapsed` class is flipped; nothing else changes.
     */
    method Click(i: nat)
      requires Valid() && i < |levels|
      modifies this
      ensures Valid() && hovered == old(hovered)
      ensures levels[i] == 0 ==> hidden == old(hidden) && collapsed == old(collapsed)
      ensures levels[i] != 0 ==>
                && collapsed == old(collapsed)[i := !old(collapsed)[i]]
                && var kids := ChildPositions(After(i), levels[i], ScanEnd(After(i), levels[i]));
                   forall k :: 0 <= k < |levels| ==>
                     hidden[k] == (old(hidden)[k] != (k >= i + 1 && k - (i + 1) in kids))
    {
      if levels[i] == 0 {
        return;
      }
      var kids := CollectChildren(After(i), levels[i]);
      ChildPositionsExact(After(i), levels[i], ScanEnd(After(i), levels[i]));
      hidden := FlipEach(hidden, kids, i + 1);
      collapsed := collapsed[i := !collapsed[i]];
    }

    /** `mouseover` on node `i`: it gets the `hover` class. */
    method MouseOver(i: nat)
      requires Valid() && i < |levels|
      modifies this
      ensures Valid() && hovered == old(hovered)[i := true]
      ensures hidden == old(hidden) && collapsed == old(collapsed)
    {
      hovered := hovered[i := true];
    }

    /** `mouseout` from node `i`: it loses the `hover` class. */
    method MouseOut(i: nat)
      requires Valid() && i < |levels|
      modifies this
      ensures Valid() && hovered == old(hovered)[i := false]
      ensures hidden == old(hidden) && collapsed == old(collapsed)
    {
      hovered := hovered[i := false];
    }
  }

  lemma SliceAfter<T>(a: seq<T>, x: T, b: seq<T>, c: seq<T>)
    ensures (a + ([x] + b) + c)[|a| + 1..] == b + c
  {
  }

  /**
   * The positions the scan collects after a node's own line are one per
   * child, each one level deeper and inside the node's subtree.
   */
  lemma ScanCollectsChildren(after: seq<nat>, t: TreeNode, depth: nat, following: seq<nat>)
    requires following == [] || following[0] <= depth
    requires after == Map(FlattenAll(t.children, depth + 1), DepthOf) + following
    ensures var kids := ChildPositions(after, depth, ScanEnd(after, depth));
            && |kids| == |t.children|
            && forall j :: 0 <= j < |kids| ==> kids[j] < Size(t) - 1 <= |after| && after[kids[j]] == depth + 1
  {
    var sub := Map(FlattenAll(t.children, depth + 1), DepthOf);
    ScanFindsEveryChild(t, depth, following);
    FlattenAllLength(t.children, depth + 1);
    ChildPositionsExact(sub + following, depth, |sub|);
  }

  /**
   * On a rendered panel, clicking a node below the top level flips the
   * display of exactly as many nodes as it has children, all of them one
   * level deeper and inside its own subtree.
   */
  lemma ClickTogglesChildren(before: seq<nat>, t: TreeNode, depth: nat, following: seq<nat>)
    requires following == [] || following[0] <= depth
    ensures var levels := before + Map(Flatten(t, depth), DepthOf) + following;
            var after := levels[|before| + 1..];
            var kids := ChildPositions(after, depth, ScanEnd(after, depth));
            && |kids| == |t.children|
            && forall j :: 0 <= j < |kids| ==> kids[j] < Size(t) - 1 <= |after| && after[kids[j]] == depth + 1
  {
    var sub := Map(FlattenAll(t.children, depth + 1), DepthOf);
    var levels := before + Map(Flatten(t, depth), DepthOf) + following;
    assert levels[|before| + 1..] == sub + following by {
      MapCons(Placed(t, depth), FlattenAll(t.children, depth + 1), DepthOf);
      SliceAfter(before, DepthOf(Placed(t, depth)), sub, following);
    }
    ScanCollectsChildren(levels[|before| + 1..], t, depth, following);
  }

}
