# Orca outline / mind-map plugin — a verified model

This project models the part of the Orca note-taking plugin "orca-mindmap-plugin"
that does its real work. The plugin takes the host's block map
(`orca.state.blocks`: ids mapped to blocks with text, child ids, a parent id
and a type) and derives several views from it:

- an outline tree, through `buildTree` and `findRootBlocks`. These clean the
  text with `sanitizeInput`, drop table noise and drop blank children;
- a simpler tree builder and renderer (`main-simple.ts`);
- two recursive Markdown serialisers for Markmap (`markmap-simple.ts`,
  `markmap-plugin.ts`), with the node counter `countTotalBlocks`;
- an outline dialog (`basic-outline.ts`) and a whole-page mind map
  (`page-mindmap.ts`), each rendered as nested `<div>`s whose style depends on
  the level;
- the panel renderer `MindMapRenderer` (`components/MindMap.ts`), whose click
  handler scans the following sibling nodes to find a node's children;
- two flat serialisers from page blocks to Markdown (`orca-mindmap-local.ts`,
  `orca-mindmap.ts`). The second one escapes backticks before embedding the
  Markdown in a script;
- the host version check and the tree filter of the plugin's entry point
  (`main.ts`).

The block map is a `map<string, Block>` together with the sequence of its keys
in `Object.keys` order (`Blocks.Graph`). Root discovery depends on that order.

None of the plugin's recursive walks guards against cycles in `children`.
The model's walks carry the set of ids on the current recursion path, and an
id already on the path is treated as missing. For each walk, a fuel-bounded
copy of the unguarded recursion is proved to give the same result on acyclic
input (`Blocks.PreorderUnguarded`, `TreeBuilder.BuildTreeAtUnguarded`,
`MainSimple.BuildTreeUnguarded`). `Blocks.SelfLoopNeverBottomsOut` shows that
the unguarded walk never bottoms out on a block that lists itself.

Regular expressions are modelled as scanning functions. JavaScript `.` does
not match line terminators, `\s` is the Unicode whitespace class, and the
script and iframe patterns are lazy and ignore ASCII case. HTML output is
modelled as records (`Div`, `NodeLine`, `Line`) that hold exactly the values
a template interpolates, so the level rules are stated about those values.
Loops that accumulate (`html +=`, `count +=`, `markdown +=`, the sibling
scan) are methods with `while` loops, each proved equal to a specification
function. The panel's per-node display and class state is a class,
`MindMap.NodeList`, whose event handlers update it in place.

Where the code and its tests or comments disagree, the model follows the code:

- For a missing block, `buildTree` returns the content `''`
  (src/utils/helpers.ts:49-57), while src/__tests__/helpers.test.ts:72
  expects `'未知块'`. See `TreeBuilder.MissingBlock`.
- `sanitizeInput` only strips tags. Table text such as `阶段` survives it,
  although helpers.test.ts:76-115 expects it to be removed.
- In the local Markdown view, a non-empty list whose blocks are all blank
  gives `""`, not the placeholder heading
  (`OrcaMindmapLocal.AllBlankGivesEmptyString`).
- `checkCompatibility` accepts a version with no minor part, such as `1`,
  because an `undefined` minor compares false (`PluginMain.MajorOnly`).

Two behaviours of `sanitizeInput` worth knowing:

- A second pass can remove more, so it is not idempotent: `java<b>script:x;`
  gives `javascript:x;`, which a second pass removes
  (`SanitizerExamples.NotIdempotent`).
- An unclosed `<script` passes through unchanged, because the element and
  tag patterns only match complete tags (`SanitizerExamples.UnclosedScriptKept`).

## Model

| member | source | states |
|---|---|---|
| Blocks.KeysCountBlocks | src/main.ts:21 | `Object.keys(blocks).length` is the number of blocks in the map |
| Blocks.Parentless | src/page-mindmap.ts:20-23 | exactly the keys whose block has no parent, or a parent not in the map, in key order and without duplicates |
| Blocks.CountBlocks | src/basic-outline.ts:102-113 | `countBlocks`: its loop computes `SubtreeCount`, which is 0 for a missing id and otherwise 1 plus the counts of all child ids |
| Blocks.CountChildBlocks | src/basic-outline.ts:106-111 | the `count +=` loop over the child ids is the sum of their subtree counts |
| Blocks.CountIsPreorderLength | src/markmap-simple.ts:161-172 | the subtree count equals the number of blocks the pre-order walk visits |
| Blocks.PreorderVisitsResolve | src/page-mindmap.ts:117-121 | every block the walk reaches is in the map, at the starting level or deeper |
| Blocks.PreorderUnguarded | src/markmap-simple.ts:23-29 | on acyclic input, the recursion as written (no cycle guard) bottoms out and gives the guarded walk |
| Blocks.SelfLoopNeverBottomsOut | src/basic-outline.ts:102-113 | a block listing itself as a child makes the unguarded recursion run out of any depth bound |
| Blocks.SelfLoopGuarded | src/basic-outline.ts:102-113 | the guarded walk expands a self-listed block once |
| Blocks.FlattenLength | src/components/MindMap.ts:12-27 | the pre-order layout of a tree has one entry per node |
| Blocks.FlattenDeeper | src/components/MindMap.ts:22-24 | every entry of a layout started at depth `d` is at depth `d` or deeper |
| Styles.TierIndex | src/components/MindMap.ts:140 | `Math.min(depth, 4)` is always a valid index into a five-element array |
| Styles.FontSizeShrinks | src/components/MindMap.ts:14 | `Math.max(floor, top - 2·depth)` never grows with depth |
| Styles.FontSizeSteps | src/basic-outline.ts:26 | above the floor, each level is two pixels smaller than the one before |
| Styles.Indent | src/components/MindMap.ts:13 | `'  '.repeat(depth)` is 2·depth spaces |
| Text.TrimStartSpec | src/orca-mindmap.ts:81 | `trimStart` removes exactly the leading whitespace: a suffix is left, and what is dropped is all whitespace |
| Text.TrimEndSpec | src/orca-mindmap.ts:81 | `trimEnd` removes exactly the trailing whitespace |
| Text.Trim | src/orca-mindmap.ts:81 | `trim()` gives a trimmed string that is no longer than its input |
| Text.TrimEmpty | src/main.ts:38 | `s.trim()` is empty exactly when `s` is all whitespace |
| Text.TrimPadded | src/utils/helpers.ts:42 | trimming removes exactly the whitespace padding around trimmed, non-empty text |
| Text.Take | src/main-simple.ts:24 | `substring(0, n)` is the first `min(n, len)` characters |
| Text.RepeatChars | src/orca-mindmap.ts:80 | `'#'.repeat(n)` is `n` copies of `#` |
| Markdown.Heading | src/markmap-simple.ts:18 | the heading marker for a level is `min(level, 6)` characters and a space long |
| Markdown.HeadingShape | src/orca-mindmap-local.ts:96 | the marker is `#`s up to its last character, a space, and from level 1 on it starts with `#` |
| Markdown.HeadedLine | src/orca-mindmap-local.ts:105 | `${indent} ${content}\n\n` splits into the marker, the content and a blank line |
| Sanitizer.FindOnLine | src/utils/helpers.ts:27 | a position the lazy `.*?>` scan finds holds `>`, and no line terminator comes before it |
| Sanitizer.FindCloserOnLine | src/utils/helpers.ts:27 | a position the lazy scan finds starts the closing tag, ignoring ASCII case, and no line terminator comes before it |
| Sanitizer.FindFirst | src/utils/helpers.ts:32 | `[^>]*>` reaches the first `>`, line terminators included, or finds none when there is none |
| Sanitizer.MatchAt | src/utils/helpers.ts:27-32 | an anchored match of one of the four patterns is non-empty, lies within the text and begins with `<` (or `j`/`J` for `javascript:`) |
| Sanitizer.DelimitedMatchAt | src/utils/helpers.ts:27-28 | an element match is longer than its opener and lies within the text |
| Sanitizer.ScriptUriMatchAt | src/utils/helpers.ts:29 | a `javascript:[^;]*;?` match is non-empty and lies within the text |
| Sanitizer.TagMatchAt | src/utils/helpers.ts:32 | a `<[^>]*>` match is non-empty and lies within the text |
| Sanitizer.RemoveAll | src/utils/helpers.ts:27-32 | a global replace with `''` never lengthens the text and brings in no new character |
| Sanitizer.DelimitedMatchInLanguage | src/utils/helpers.ts:27-28 | what the element matcher returns is a full match of `<name.*?>.*?</name>`, case-insensitive |
| Sanitizer.ElementMatchIsShortest | src/utils/helpers.ts:27-28 | the element matcher returns the shortest full match, as lazy backtracking does |
| Sanitizer.RemoveTagsIsTagFree | src/utils/helpers.ts:32 | after tag stripping, no `<` is followed later by a `>` |
| Sanitizer.CollapseWhite | src/utils/helpers.ts:35 | `/\s+/g → ' '` never lengthens the text and empties only empty text; the result starts with `' '` exactly when the text starts with whitespace, and holds only `' '` and the text's non-whitespace characters (`CollapseKeeps` states that those are all kept, in order) |
| Sanitizer.CollapseKeeps | src/utils/helpers.ts:35 | collapsing whitespace changes only whitespace: any filter that ignores whitespace sees the same characters in the same order, so the visible text is kept exactly |
| Sanitizer.CollapseNoAdjacentWhite | src/utils/helpers.ts:35 | after collapsing, no two whitespace characters are adjacent |
| Sanitizer.CollapseKeepsTagFree | src/utils/helpers.ts:35 | collapsing whitespace cannot put a `>` after a `<` |
| Sanitizer.Truncated | src/utils/helpers.ts:38-40 | the truncated text has at most 200 characters |
| Sanitizer.SanitizeInput | src/utils/helpers.ts:19-43 | `""` for a non-string or empty input; the result is at most 200 characters and trimmed |
| Sanitizer.SanitizedShape | src/utils/helpers.ts:32-42 | the result has no adjacent whitespace and no `<` followed later by `>` |
| Sanitizer.LongTextIsTruncated | src/utils/helpers.ts:37-42 | collapsed text over 200 characters gives its first 197 characters, less at most a leading space, then `...` |
| Sanitizer.ShortTextIsKept | src/utils/helpers.ts:37-42 | short collapsed text without whitespace at its ends is the result |
| Sanitizer.PlainTextCollapsed | src/utils/helpers.ts:24-35 | text without `<`, `j`, `J` and whitespace passes every removal unchanged |
| Sanitizer.PlainLongText | src/__tests__/helpers.test.ts:34-40 | such text over 200 characters gives exactly 200 characters ending in `...` |
| SanitizerExamples.RemovesScriptAndIframe | src/__tests__/helpers.test.ts:25-32 | `<script>alert("xss")</script>正常内容<iframe>test</iframe>` gives `正常内容` |
| SanitizerExamples.TextAroundIframeKept | src/utils/helpers.ts:27-28 | `<script>a</script>b<iframe>c</iframe>d` gives `bd` |
| SanitizerExamples.ScriptTextIframe | src/utils/helpers.ts:27-32 | a script element, plain text, an iframe element and plain text leave the two texts |
| SanitizerExamples.NotIdempotent | src/utils/helpers.ts:29-32 | `java<b>script:x;` gives `javascript:x;`, and a second pass gives `""` |
| SanitizerExamples.UnclosedOpenerKept | src/utils/helpers.ts:27-35 | an unclosed opener without whitespace passes every removal |
| SanitizerExamples.UnclosedScriptKept | src/utils/helpers.ts:27 | `<script` is its own sanitised output |
| NoiseFilter.CellScanIsCellText | src/utils/helpers.ts:13 | the scan accepts exactly digits, `.`, optional whitespace, then one or more U+4E00–U+9FFF characters |
| NoiseFilter.IsTableRelated | src/utils/helpers.ts:5-16 | true exactly for a keyword anywhere in the text, or for trimmed text of the cell shape |
| NoiseFilter.EmptyTextNotTableRelated | src/utils/helpers.ts:6 | absent or empty text is never table-related |
| NoiseFilter.KeywordAnywhere | src/utils/helpers.ts:9-10 | text containing `阶段` is table-related wherever the word occurs |
| NoiseFilter.CellTextShape | src/utils/helpers.ts:13 | a cell text has at least three characters, starts with a digit and ends with an ideograph |
| NoiseFilter.PaddedCellText | src/utils/helpers.ts:13 | whitespace around a cell text does not change the verdict |
| TreeBuilder.BuildChildrenIsChain | src/utils/helpers.ts:72-78 | the children are the `filter` → `map(buildTree)` → `filter(non-blank)` chain over `block.children`, in order |
| TreeBuilder.MissingBlock | src/utils/helpers.ts:47-58 | a missing id, or a block with an empty id, gives `{id: blockId or 'unknown', content: '', children: [], level}` |
| TreeBuilder.NoiseBlock | src/utils/helpers.ts:61-70 | a blank-after-cleaning, `table2` or table-related block keeps its id and parent but has empty content and no children |
| TreeBuilder.ContentBlock | src/utils/helpers.ts:61-86 | any other block's content is `sanitizeInput(text)`, which is not blank |
| TreeBuilder.EntriesWellFormed | src/utils/helpers.ts:61-62 | each block's cleaned content is short, trimmed and tag-free, and not blank unless the block is noise |
| TreeBuilder.BuildTreeIsOutline | src/utils/helpers.ts:46-87 | when every entry is well formed, the built tree is an outline: cleaned content at every node, no children under an empty node, and children that have text and sit one level deeper |
| TreeBuilder.BuildTreeAtIsOutline | src/utils/helpers.ts:46-87 | so is the tree `buildTree` returns for any block of any map |
| TreeBuilder.BuildTreeAtUnguarded | src/utils/helpers.ts:72-77 | on acyclic input the recursion as written gives the guarded tree |
| TreeBuilder.FindRootBlocks | src/utils/helpers.ts:90-104 | exactly the keys of blocks that have an id and non-blank text, are neither `table2` nor table-related, and have no parent in the map; in key order, without duplicates |
| TreeBuilder.RootsUnique | src/utils/helpers.ts:90-104 | membership and key order determine the roots |
| TreeBuilder.RootHasId | src/__tests__/helpers.test.ts:42-55 | a root's tree is its own node, never the placeholder of a missing block |
| MainSimple.BuildTree | src/main-simple.ts:14-28 | `null` exactly for an id that does not resolve; otherwise its id, its level, and its text cut to `min(len, 200)` |
| MainSimple.BuildChildren | src/main-simple.ts:18-20 | no more children than child ids |
| MainSimple.ChildrenOfResolvingIds | src/main-simple.ts:18-20 | the children are the trees of exactly the child ids that resolve, in order |
| MainSimple.BuildTreeLevelled | src/main-simple.ts:19-26 | every child sits one level below its parent, all the way down |
| MainSimple.BuildTreeSize | src/main-simple.ts:14-28 | the tree has one node per block the walk reaches |
| MainSimple.BuildTreeUnguarded | src/main-simple.ts:14-28 | on acyclic input the recursion as written gives the guarded tree |
| MainSimple.RenderTree | src/main-simple.ts:39-51 | `renderTree` emits the node's line, then its children's lines: the pre-order layout |
| MainSimple.RenderChildren | src/main-simple.ts:46-48 | the `html +=` loop emits the children's layouts in order |
| MainSimple.RenderedLines | src/main-simple.ts:40-44 | one line per node, the first the root's; font 12–16, a bullet of the five, padding 20·depth, indent 2·depth |
| MainSimple.FlattenLevelled | src/main-simple.ts:26 | in a built tree rendered from its level, each line's depth is its node's level |
| MarkmapSimple.StripMarks | src/markmap-simple.ts:19 | `replace(/[#*]/g, '')` leaves no `#` or `*`, and gives a subsequence of the text as long as the text less its marks, so every other character is kept, in order and with its repetitions |
| MarkmapSimple.StripMarksUnmarked | src/markmap-simple.ts:19 | text without `#` and `*` is unchanged |
| MarkmapSimple.BlockToMarkdown | src/markmap-simple.ts:14-32 | the pieces of the blocks the walk reaches, in pre-order; `""` for a missing id |
| MarkmapSimple.ChildrenToMarkdown | src/markmap-simple.ts:23-29 | the loop appends each present child's serialisation in order and skips missing ids |
| MarkmapSimple.MarkdownStartsWithOwnLine | src/markmap-simple.ts:18-20 | the output starts with `min(level, 6)` `#`s, a space, the stripped text (or `未命名块`) and a blank line; the children's serialisation follows |
| MarkmapSimple.RenderTree | src/markmap-simple.ts:46-66 | one `<div>` per block the walk reaches, in pre-order |
| MarkmapSimple.RenderChildren | src/markmap-simple.ts:59-63 | the child loop emits each child's `<div>`s in order |
| MarkmapSimple.CountMatchesRendered | src/markmap-simple.ts:118-119 | `countTotalBlocks` equals the number of `<div>`s rendered; each has at most 100 characters and a bullet of the five |
| MarkmapPlugin.BlockToMarkdown | src/markmap-plugin.ts:47-64 | the pieces of the blocks the walk reaches, in pre-order; `""` for a missing id |
| MarkmapPlugin.ChildrenToMarkdown | src/markmap-plugin.ts:55-61 | each present child at level + 1, in order; missing ids skipped |
| MarkmapPlugin.OwnLineIsPrefix | src/markmap-plugin.ts:51-52 | heading, unaltered text (or `未命名块`) and a blank line start the output, and the children's serialisation follows |
| MarkmapPlugin.SameAsSimpleWithoutMarks | src/markmap-plugin.ts:52 | without `#` or `*` in any text, the two serialisers agree |
| BasicOutline.Tier | src/basic-outline.ts:29 | the three style tiers: level 0, level 1, and level 2 or deeper |
| BasicOutline.RenderNode | src/basic-outline.ts:21-49 | one `<div>` per block the walk reaches, in pre-order; none for a missing id |
| BasicOutline.RenderChildren | src/basic-outline.ts:42-46 | the `html +=` loop renders each child id in order |
| BasicOutline.DivRules | src/basic-outline.ts:25-39 | font 12–16 and `16 - 2·level` down to the floor; bullet of five; padding 24·level; at most 150 characters; colour, weight and margin depend on the tier alone |
| BasicOutline.GenerateOutlineHTML | src/basic-outline.ts:13-99 | the error box exactly for a missing id; otherwise a 60-character title, the rendered subtree, and a node count equal to the number of rendered nodes |
| PageMindmap.GetPageRootBlocks | src/page-mindmap.ts:15-24 | `[]` without a block map; otherwise the parentless keys in key order |
| PageMindmap.GetNodeStyle | src/page-mindmap.ts:60-86 | weights between 400 and 700 and sizes between 16 and 24; from level 3 on, the secondary colour, weight 400 and size 16 |
| PageMindmap.NodeStyleRanks | src/page-mindmap.ts:60-86 | deeper levels are never heavier or larger, and strictly lighter and smaller down to level 3 |
| PageMindmap.DivRules | src/page-mindmap.ts:53-57 | bullet of five, bullet size 14–20, text larger than the bullet, border only at the root, padding 32·level (+16 at the root), at most 200 characters |
| PageMindmap.RenderNode | src/page-mindmap.ts:49-124 | one `<div>` per block the walk reaches, in pre-order; none for a missing id |
| PageMindmap.RenderChildren | src/page-mindmap.ts:117-121 | every child id is rendered after its parent, in order, at level + 1 |
| PageMindmap.RenderRoots | src/page-mindmap.ts:130-132 | the roots' subtrees, one after another |
| PageMindmap.GeneratePageMindMapHTML | src/page-mindmap.ts:27-167 | the empty box exactly when there is no root; otherwise the roots' subtrees, the block total and the root count |
| PageMindmap.TopDivsAreRoots | src/page-mindmap.ts:95 | the level-0 (bordered) nodes are the roots' own, in root order |
| PageMindmap.BorderedNodesMatchHeader | src/page-mindmap.ts:167 | the number of bordered nodes is the root count in the header |
| MindMap.RenderTreeAsHTML | src/components/MindMap.ts:12-27 | one node line per tree node, in pre-order, with its depth |
| MindMap.RenderChildren | src/components/MindMap.ts:22-24 | the child loop renders each child's lines in order |
| MindMap.GenerateMindMapHTML | src/components/MindMap.ts:30-59 | every tree from depth 0, in the given order, and the footer total as given |
| MindMap.PanelLines | src/components/MindMap.ts:13-16 | one line per node; font 12–16; indent 2·depth; colour and bullet of the five, the last from depth 4 on |
| MindMap.ScanEnd | src/components/MindMap.ts:85-91 | the scan stops at the first following node that is not deeper, or at the end |
| MindMap.ChildPositionsExact | src/components/MindMap.ts:92-94 | the collected positions are, in order, exactly those before the stop at level + 1 |
| MindMap.CollectChildren | src/components/MindMap.ts:82-97 | the `while` scan collects exactly those positions |
| MindMap.FlipEach | src/components/MindMap.ts:100-103 | the collected nodes' display flags are flipped and no others |
| MindMap.NodeList.constructor | src/components/MindMap.ts:62-69 | a fresh panel: nothing hidden, collapsed or hovered |
| MindMap.NodeList.Click | src/components/MindMap.ts:75-108 | nothing changes for a level-0 node; otherwise exactly the scanned children flip display and the node flips `collapsed` |
| MindMap.NodeList.MouseOver | src/components/MindMap.ts:111-118 | the node gains `hover`; nothing else changes |
| MindMap.NodeList.MouseOut | src/components/MindMap.ts:120-127 | the node loses `hover`; nothing else changes |
| MindMap.ScanFindsEveryChild | src/components/MindMap.ts:85-97 | after a node's own line the scan stops at the end of its subtree and finds one position per child |
| MindMap.ClickTogglesChildren | src/components/MindMap.ts:79-103 | on a rendered panel, the scan from a node's line collects one position per child of the node, each one level deeper and inside the node's subtree |
| OrcaMindmapLocal.LeadRunSpec | src/orca-mindmap-local.ts:101 | `.{50}` cannot cross a line terminator: no terminator precedes the one the run stops at |
| OrcaMindmapLocal.BreaksKeep | src/orca-mindmap-local.ts:101 | `replace(/(.{50})/g, '$1\n')` only inserts line feeds |
| OrcaMindmapLocal.BreaksFit | src/orca-mindmap-local.ts:101 | after the insertion no line is longer than 50 characters |
| OrcaMindmapLocal.DropIndent | src/orca-mindmap-local.ts:101 | `replace(/\n\s+/g, '\n')` never lengthens the text |
| OrcaMindmapLocal.DropIndentKeeps | src/orca-mindmap-local.ts:101 | it removes only whitespace |
| OrcaMindmapLocal.DropIndentClean | src/orca-mindmap-local.ts:101 | afterwards no line feed is followed by whitespace |
| OrcaMindmapLocal.DropIndentFits | src/orca-mindmap-local.ts:101 | it never lengthens a line |
| OrcaMindmapLocal.FormatEmpty | src/orca-mindmap-local.ts:97-104 | the formatted content is empty exactly for blank content |
| OrcaMindmapLocal.FormatContentMeaning | src/orca-mindmap-local.ts:97-102 | the formatted content keeps exactly the content's visible characters, in order; it is empty exactly for blank content and has no line over 50 characters |
| OrcaMindmapLocal.FormatStartsVisible | src/orca-mindmap-local.ts:97-102 | non-empty formatted content starts with a visible character |
| OrcaMindmapLocal.BlocksToMarkdown | src/orca-mindmap-local.ts:85-114 | `# 页面内容为空` exactly for an empty list; otherwise the blocks' lines in input order, trimmed |
| OrcaMindmapLocal.AppendBlock | src/orca-mindmap-local.ts:96-108 | one loop step appends the block's line, or nothing for blank content |
| OrcaMindmapLocal.EmittedLineBlank | src/orca-mindmap-local.ts:104 | a block emits nothing exactly when its content is blank |
| OrcaMindmapLocal.EmittedLineContent | src/orca-mindmap-local.ts:97-105 | an emitted line keeps the content's visible characters in order and has no line over 50 characters |
| OrcaMindmapLocal.EmittedLineStart | src/orca-mindmap-local.ts:96-105 | a block's line starts with `min(level + 1, 6)` `#`s and a space, followed by a non-whitespace character |
| OrcaMindmapLocal.BlankBlocksSkipped | src/orca-mindmap-local.ts:95-108 | the markdown is that of the blocks with text, in input order |
| OrcaMindmapLocal.MarkdownStartsWithHeading | src/orca-mindmap-local.ts:105-111 | the trimmed markdown starts with the heading of the first block with text |
| OrcaMindmapLocal.AllBlankGivesEmptyString | src/orca-mindmap-local.ts:88-111 | blank blocks give the empty trimmed markdown, which a non-empty list then returns instead of the placeholder |
| OrcaMindmap.BlocksToMarkdown | src/orca-mindmap.ts:76-88 | the trimmed concatenation of the blocks' lines in input order |
| OrcaMindmap.AppendBlock | src/orca-mindmap.ts:80-84 | one loop step appends heading, trimmed content and a blank line, or nothing for blank content |
| OrcaMindmap.EmittedLineBlank | src/orca-mindmap.ts:82 | a block emits nothing exactly when its content is blank |
| OrcaMindmap.EmittedLineStart | src/orca-mindmap.ts:80-83 | a block's line starts with `min(level + 1, 6)` `#`s and a space, followed by a non-whitespace character |
| OrcaMindmap.EmittedLineParts | src/orca-mindmap.ts:83 | after the heading come exactly the trimmed content and `\n\n` |
| OrcaMindmap.BlankBlocksSkipped | src/orca-mindmap.ts:79-85 | the markdown is that of the blocks with text, in input order |
| OrcaMindmap.MarkdownStartsWithHeading | src/orca-mindmap.ts:83-87 | the trimmed markdown starts with the heading of the first block with text |
| OrcaMindmap.AllBlankGivesEmptyMarkdown | src/orca-mindmap.ts:79-87 | blank blocks give the empty markdown |
| OrcaMindmap.SameAsLocalWhenShort | src/orca-mindmap.ts:79-85 | when no trimmed content exceeds 50 characters, both views build the same markdown |
| OrcaMindmap.EscapeBackticks | src/orca-mindmap.ts:209 | the escaped text is longer by exactly the number of backticks |
| OrcaMindmap.EscapedBackticksFollowBackslash | src/orca-mindmap.ts:209 | every backtick of the escaped text directly follows a backslash |
| OrcaMindmap.NoBackticksUnchanged | src/orca-mindmap.ts:209 | text without backticks is embedded unchanged |
| OrcaMindmap.EscapeRoundTrip | src/orca-mindmap.ts:209 | reading the escaped text back gives the markdown |
| OrcaMindmap.GenerateMindMapHTML | src/orca-mindmap.ts:58-93 | the placeholder exactly for an empty list; otherwise the markdown and its escaped form |
| PluginMain.Split | src/main.ts:126 | `split('.')` gives at least one piece, and none contains `.` |
| PluginMain.SplitJoin | src/main.ts:126 | joining the pieces with the separator gives the text back |
| PluginMain.SplitAt | src/main.ts:126 | a piece without the separator, then the separator: that piece comes first and the rest is split on its own |
| PluginMain.ToNumber | src/main.ts:126 | `Number` of blank text is 0 |
| PluginMain.ToNumberDigits | src/main.ts:126 | `Number` of a digit string is its decimal value |
| PluginMain.ToNumberShow | src/main.ts:126 | a decimal rendering of a whole number, with whitespace around it, reads back as that number |
| PluginMain.CheckCompatibility | src/main.ts:119-134 | false when `orca`, `orca.state` or `orca.commands` is missing; true when the version is absent or empty |
| PluginMain.VersionRule | src/main.ts:125-130 | for a `major.minor[.rest]` version, accepted exactly when major > 1, or major = 1 and minor ≥ 5 |
| PluginMain.MajorOnly | src/main.ts:126-130 | a version without `.` is accepted exactly when its major is at least 1 |
| PluginMain.NaNMajorAccepted | src/main.ts:127 | a major that is not a number fails both comparisons and is accepted |
| PluginMain.CurrentVersionAccepted | src/__tests__/setup.ts:7 | `1.5.0` is accepted |
| PluginMain.OlderMinorRejected | src/main.ts:127 | `1.4.9` is rejected |
| PluginMain.OlderMajorRejected | src/main.ts:127 | `0.9.0` is rejected |
| PluginMain.RootTrees | src/main.ts:35 | the `i`-th tree is `buildTree` of the `i`-th root |
| PluginMain.ValidTrees | src/main.ts:38 | a subsequence of the trees holding exactly the trees with non-empty trimmed content, as long as the trees less the blank ones, so repeated trees are kept as often as they occur |
| PluginMain.ShowMindMap | src/main.ts:17-64 | the no-blocks warning exactly for an absent or empty map; the no-roots warning exactly for a non-empty map with no root block; shown trees are never empty and come with the block total |
| PluginMain.ShowWithRoots | src/main.ts:35-43 | once there are roots, the outcome is the filtered trees, or the warning when none is left |
| PluginMain.RootTreeHasText | src/main.ts:38 | a root's tree has text exactly when the root's cleaned text is not blank |
| PluginMain.RootShownIff | src/main.ts:35-38 | a root's tree is shown exactly when its cleaned text is not blank |
| PluginMain.ShownTrees | src/main.ts:35-43 | the shown trees are in root order, all have text, and include every root with non-blank cleaned text |
| PluginMain.NoValidTreesWhenAllBlank | src/main.ts:40-43 | with roots present, the "no valid blocks" warning comes exactly when every root's cleaned text is blank |

## Left out

- Host glue is not modelled: plugin load and unload; command, shortcut and
  toolbar registration; `orca.notify`; panels; mode switching; buttons. These
  are calls into a host API whose code is not part of this model.
  `PluginMain.ShowMindMap` returns the outcome instead of notifying or
  opening a panel.
- DOM extraction (`extractPageStructure`) is not modelled. Its output, a list
  of page blocks with a level and content, is the input of the flat
  serialisers. `innerHTML`, event dispatch and `closest` are not modelled
  either. The click handler is modelled on the panel's list of node levels.
- The click scan stops at the first element that is not a `mindmap-node`.
  The model's panel holds only node elements, so that stop is not
  represented.
- `data-level` is parsed with `parseInt`. The model stores levels as
  naturals, so NaN or negative levels do not arise.
- Asynchronous and network code is not modelled: CDN script loading, Markmap
  initialisation, timers, `debounce`, `withErrorBoundary`, and the saved
  layout record.
- Floating-point layout code (zoom factors, hit testing) and theme detection
  are not modelled.
- Clock and random values (container ids, timestamps, the time of day in
  headers and footers) are not modelled.
- HTML text is not modelled: every view is a record of the values its
  template interpolates. Emoji and other strings are sequences of code
  points, not UTF-16 units, so `substring` lengths count code points.
- `OrcaMindmap.UnescapeBackticks` is only the inverse of the backtick
  escaping. It does not model what a template literal does with `\\` or
  `${` in the markdown.
- PluginMain.ToNumber: only whitespace, an optional sign, and `Infinity` or
  decimal digits are read. Hexadecimal, octal and binary literals, exponents
  and fractions become NaN here, although `Number` gives them finite values.
  No piece of a `.`-split version can hold a fraction.
- PluginMain.CheckCompatibility: `apiVersion` is modelled as an optional
  string, so a truthy non-string value is not represented.
- The unguarded recursions are modelled with a fuel bound
  (`Blocks.PreorderFuel`, `TreeBuilder.BuildTreeFuel`,
  `MainSimple.BuildTreeFuel`). They agree with the guarded walks on acyclic
  input, but what they would do on cyclic input is captured only by
  `Blocks.SelfLoopNeverBottomsOut`.
- Blocks.Parentless, TreeBuilder.FindRootBlocks, MainSimple.BuildTree and
  the `Resolves` child tests of the recursive renderers and serialisers look
  ids up with `in blocks`. The source indexes a plain object, and that also
  finds inherited `Object.prototype` members. So a parent id such as
  `constructor` or `toString` with no block under it keeps a block from
  being a root in the source but not in the model. A child id such as
  `toString` renders a node (Markmap: `未命名块`) in the source, and the model
  skips it. Keys and ids that name inherited properties are treated as absent.
- OrcaMindmapLocal.BlocksToMarkdown and OrcaMindmap.BlocksToMarkdown take
  levels as naturals. The source reads them with `parseInt` of `data-indent`,
  which can be NaN or negative. `'#'.repeat(Math.min(level + 1, 6))` then
  gives an empty marker for NaN or -1, and throws `RangeError` for -2 or
  less. Those cases are not modelled.
