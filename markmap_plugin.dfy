/**
 * The markmap-library view (`markmap-plugin.ts`): the same recursive
 * Markdown serialiser as the standalone view, except that the block text is
 * copied unaltered. Loading the library and drawing the SVG are not part of
 * this model.
 */
module MarkmapPlugin {
  import opened Text
  import opened Seqs
  import opened Blocks
  import opened Markdown
  import MarkmapSimple

  /** The block's own piece: heading, text as it is (or `未命名块`), blank line. */
  function OwnLine(v: Visit): string {
    Heading(v.level) + OrDefault(v.block.text, "未命名块") + "\n\n"
  }

  /**
   * `blockToMarkdown(blockId, allBlocks, level)`: the pieces of the blocks
   * the walk from `id` reaches, in pre-order; `""` when `id` does not resolve.
   */
  method BlockToMarkdown(blocks: BlockMap, id: string, level: nat, path: set<string>) returns (md: string)
    ensures md == ConcatMap(Preorder(blocks, id, level, path), OwnLine)
    decreases blocks.Keys - path, 0
  {
    if !Resolves(blocks, id, path) {
      return "";
    }
    PathShrinks(blocks, id, path);
    var v := Visit(id, blocks[id], level);
    var rest := ChildrenToMarkdown(blocks, blocks[id].children, level + 1, path + {id});
    ConcatMapCons(v, PreorderAll(blocks, blocks[id].children, level + 1, path + {id}), OwnLine);
    md := OwnLine(v) + rest;
  }

  /** The `for (const childId of block.children)` loop: each child id present in the map, in order. */
  method ChildrenToMarkdown(blocks: BlockMap, ids: seq<string>, level: nat, path: set<string>) returns (md: string)
    ensures md == ConcatMap(PreorderAll(blocks, ids, level, path), OwnLine)
    decreases blocks.Keys - path, 1
  {
    md := "";
    var i := 0;
    while i < |ids|
      invariant 0 <= i <= |ids|
      invariant md == ConcatMap(PreorderAll(blocks, ids[..i], level, path), OwnLine)
    {
      PreorderAllAppend(blocks, ids, i, level, path);
      ConcatMapAppend(PreorderAll(blocks, ids[..i], level, path), Preorder(blocks, ids[i], level, path), OwnLine);
      if ids[i] in blocks {
        var sub := BlockToMarkdown(blocks, ids[i], level, path);
        md := md + sub;
      } else {
        assert PreorderAll(blocks, ids[..i], level, path) + [] == PreorderAll(blocks, ids[..i], level, path);
      }
      i := i + 1;
    }
    assert ids[..i] == ids;
  }

  /**
   * The serialisation of a resolving block starts with its own line, the
   * heading and the unaltered text (or `未命名块`) followed by a blank line;
   * the serialisations of its children follow at `level + 1`.
   */
  lemma OwnLineIsPrefix(blocks: BlockMap, id: string, level: nat, path: set<string>)
    requires Resolves(blocks, id, path)
    ensures var md := ConcatMap(Preorder(blocks, id, level, path), OwnLine);
            var own := Heading(level) + OrDefault(blocks[id].text, "未命名块") + "\n\n";
            && StartsWith(md, own)
            && md[|own|..] == ConcatMap(PreorderAll(blocks, blocks[id].children, level + 1, path + {id}), OwnLine)
  {
    var rest := PreorderAll(blocks, blocks[id].children, level + 1, path + {id});
    ConcatMapCons(Visit(id, blocks[id], level), rest, OwnLine);
  }

  /**
   * When no block the walk reaches has `#` or `*` in its text, the two
   * serialisers produce the same Markdown: stripping is their only difference.
   */
  lemma SameAsSimpleWithoutMarks(blocks: BlockMap, id: string, level: nat, path: set<string>)
    requires forall v :: v in Preorder(blocks, id, level, path) ==> '#' !in v.block.text && '*' !in v.block.text
    ensures ConcatMap(Preorder(blocks, id, level, path), OwnLine)
         == ConcatMap(Preorder(blocks, id, level, path), MarkmapSimple.OwnLine)
  {
    var vs := Preorder(blocks, id, level, path);
    forall i | 0 <= i < |vs| ensures OwnLine(vs[i]) == MarkmapSimple.OwnLine(vs[i]) {
      var text := OrDefault(vs[i].block.text, "未命名块");
      assert vs[i] in vs;
      assert '#' !in "未命名块" && '*' !in "未命名块";
      MarkmapSimple.StripMarksUnmarked(text);
    }
    ConcatMapAgree(vs, OwnLine, MarkmapSimple.OwnLine);
  }
}
