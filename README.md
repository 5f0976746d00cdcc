# Markdown block and topic utilities, in Dafny

This project models the markdown utility module of a note-taking
application, `src/lib/markdown/utils.ts`, and proves what its functions
promise. The module:

- classifies a markdown block by its first line (`getBlockType`);
- reads the heading level of a block (`getHeadingLevel`);
- extracts a document's description (`getDescription`);
- collects the distinct tree paths and topics of a document (`getTrees`, `getTopics`);
- builds a forest of topics from `/`-separated paths and flattens it (`createTopicTree`, `flattenTopicTree`);
- tags a parsed block forest with ids and flattens it for storage (`assignIds`, `flattenMdBlocks`);
- writes a block tree back out as markdown (`createMarkdownFromBlocks`).

Modules, one file each:

| file | module | models |
|---|---|---|
| `text.dfy` | `Text` | the JavaScript string operations used: `startsWith`, `split`, `join`, `trim` |
| `order.dfy` | `Order` | the default string order of `Array.prototype.sort()` and sorting a duplicate-free array |
| `types.dfy` | `Types` | `MdBlock`, `MdBlockWithId`, `FlatMdBlock`, `TreeNode`, `FlatTreeNode`, the block types |
| `classify.dfy` | `Classify` | `getBlockType`, `getHeadingLevel` |
| `description.dfy` | `Description` | `getDescription` |
| `topic_sets.dfy` | `TopicSets` | `getTrees`, `getTopics` |
| `topic_tree.dfy` | `TopicTree` | `createTopicTree` |
| `topic_flatten.dfy` | `TopicFlatten` | `flattenTopicTree` |
| `block_ids.dfy` | `BlockIds` | `assignIds` and the id generator |
| `block_flatten.dfy` | `BlockFlatten` | `flattenMdBlocks` |
| `serialize.dfy` | `Serialize` | `createMarkdownFromBlocks` |

How the source's state is modelled:

- **Pure functions.** The prefix tests, `getDescription` and the
  recursive `map` of `assignIds` are Dafny functions.
- **Loops and recursion with mutation.** The functions that change
  things step by step are methods with loops, each proved equal to a
  specification function:
  - the `Set` that `getTrees` and `getTopics` fill;
  - the nested `children` arrays `createTopicTree` pushes onto;
  - the accumulator arrays the two `flatten` helpers push onto;
  - the string `createMarkdownFromBlocks` extends with `+=`.
- **JavaScript `Set`.** It keeps each element once, in insertion order.
  Here it is a duplicate-free sequence, and `add` appends a missing
  element.
- **The `currentLevel` pointer of `createTopicTree`.** It points into
  the forest being built. Here the forest is a value, and the pointer is
  an address: the list of child indices leading to the level it points
  at.
- **The accumulator of the recursive `flatten` helpers.** The array
  every call pushes onto is passed into each call, and the extended
  array is handed back.
- **`id()`.** The id capability is an `IdGenerator` object, created
  from a supply `ids: nat -> string`; its `n`-th draw yields `ids(n)`.
  "Fresh ids" means the supply never repeats, i.e. `ids` is injective.

## Model

| member | source | states |
|---|---|---|
| Text.Split | src/lib/markdown/utils.ts:67 | `split` on a one-character separator gives at least one part; no part contains the separator; the first part is the text up to the first separator |
| Text.StartsWith | src/lib/markdown/utils.ts:10-18 | `startsWith` holds exactly when the prefix is no longer than the string and agrees with it at every position |
| Text.JoinSplit | src/lib/markdown/utils.ts:28-41 | joining the parts of a split with the separator gives back the original string |
| Text.SplitJoin | src/lib/markdown/utils.ts:28-41 | splitting the join of separator-free parts gives back the parts |
| Text.Join | src/lib/markdown/utils.ts:41-44 | `join` starts with the first part, and its length is the parts' total length plus one separator between each two neighbours |
| Text.TrimStart | src/lib/markdown/utils.ts:41 | `trimStart` leaves no leading whitespace |
| Text.TrimEnd | src/lib/markdown/utils.ts:41 | `trimEnd` returns a prefix with no trailing whitespace |
| Text.Trim | src/lib/markdown/utils.ts:41 | the result of `trim` neither starts nor ends with whitespace |
| Text.TrimIsSlice | src/lib/markdown/utils.ts:44 | `trim` removes only whitespace, and only at the two ends: the result is a contiguous slice of the input with whitespace on both sides |
| Text.TrimIdempotent | src/lib/markdown/utils.ts:69 | trimming twice is trimming once |
| Text.TrimKeepsAbsent | src/lib/markdown/utils.ts:69 | trimming introduces no character that was not in the input |
| Text.TrimAllWhitespace | src/lib/markdown/utils.ts:41 | a string made of whitespace trims to the empty string |
| Order.LessIrreflexive | src/lib/markdown/utils.ts:60 | no string sorts before itself |
| Order.LessTransitive | src/lib/markdown/utils.ts:60 | the string order is transitive |
| Order.LessTotal | src/lib/markdown/utils.ts:60 | any two different strings are ordered one way or the other |
| Order.LessAsymmetric | src/lib/markdown/utils.ts:60 | two strings are never each before the other |
| Order.AscendingIsDistinct | src/lib/markdown/utils.ts:60 | a strictly ascending list has no duplicates |
| Order.Insert | src/lib/markdown/utils.ts:60 | inserting into an ascending list adds exactly that element and keeps the list strictly ascending when the element was absent |
| Order.SortStrings | src/lib/markdown/utils.ts:60 | `sort()` returns a permutation of its input, and a strictly ascending one when the input has no duplicates |
| Order.AscendingUnique | src/lib/markdown/utils.ts:73 | two strictly ascending lists with the same elements are equal |
| Classify.FirstLine | src/lib/markdown/utils.ts:8 | `text.split('\n')[0]` is the prefix of the text before its first line feed, and holds no line feed |
| Classify.LeadingDigits | src/lib/markdown/utils.ts:15 | the length of the maximal run of ASCII digits the line starts with |
| Classify.NumberedItemIsPattern | src/lib/markdown/utils.ts:15 | deciding `/^\d+\.\s/` on the maximal digit run accepts exactly the lines the pattern matches |
| Classify.GetBlockType | src/lib/markdown/utils.ts:7-20 | the type returned is the first entry of the order heading, task list, unordered list, ordered list, blockquote, code block, image, paragraph whose test accepts the first line; paragraph accepts anything, so every text has a type |
| Classify.BlockTypeOfFirstLine | src/lib/markdown/utils.ts:8 | text after the first line feed never changes the block type |
| Classify.TaskItemIsTaskList | src/lib/markdown/utils.ts:11-14 | a block starting `- [ ] ` or `- [x] ` is a task list, never an unordered list |
| Classify.HeadingIffHash | src/lib/markdown/utils.ts:10 | a block is a heading exactly when its text starts with `#` |
| Classify.LeadingHashes | src/lib/markdown/utils.ts:23 | the length of the maximal run of `#` the text starts with |
| Classify.GetHeadingLevel | src/lib/markdown/utils.ts:22-25 | the level is at most 6; the text starts with `k` hashes followed by whitespace, for `k` in 1..6, exactly when the level is that `k`; otherwise the level is 0 |
| Classify.LevelImpliesHeading | src/lib/markdown/utils.ts:22-25 | a text with a non-zero heading level is classified as a heading |
| Classify.HeadingWithoutLevel | src/lib/markdown/utils.ts:22-25 | the converse fails: `#x` is a heading with level 0 |
| Description.FindHeading | src/lib/markdown/utils.ts:29 | `findIndex` of a `#` line: the index of the first line starting with `#`, or -1 exactly when there is none |
| Description.FindHeadingFrom | src/lib/markdown/utils.ts:29 | the first `#` line at or after a position, or -1 when there is none |
| Description.GetDescription | src/lib/markdown/utils.ts:27-45 | the description is empty when no line but the last starts with `#`, and it never starts or ends with whitespace |
| Description.Lines | src/lib/markdown/utils.ts:28 | `markdown.split('\n')` gives at least one line, none holds a line break, and joining them with line breaks gives the document back |
| Description.DescriptionOfLines | src/lib/markdown/utils.ts:29-44 | the same two facts, for a document already split into lines |
| Description.SpanDetermined | src/lib/markdown/utils.ts:29-38 | a description span starts at the first `#` line and ends at the next `#` line, or at the end of the document |
| Description.DescriptionBetweenHeadings | src/lib/markdown/utils.ts:27-45 | the description is the trimmed newline-join of the lines strictly between the first `#` line and the next one, or the end |
| Description.DescriptionAt | src/lib/markdown/utils.ts:35-44 | the same, with the span given by the two `findIndex` results |
| Description.DescriptionSpanExists | src/lib/markdown/utils.ts:29-38 | a document with a `#` line has a description span |
| TopicSets.EmptyTreeNotCollected | src/lib/markdown/utils.ts:52 | the empty path is never collected |
| TopicSets.Traverse | src/lib/markdown/utils.ts:50-57 | `traverse` keeps the set duplicate-free and adds exactly the non-empty `tree` fields of the blocks, at any depth |
| TopicSets.TraverseChildren | src/lib/markdown/utils.ts:55 | the recursive call adds exactly the non-empty `tree` fields below a block |
| TopicSets.GetTrees | src/lib/markdown/utils.ts:47-61 | the result is strictly ascending, holds exactly the non-empty `tree` fields of the forest, and is empty for an empty forest |
| TopicSets.TrimAll | src/lib/markdown/utils.ts:85 | `map((part) => part.trim())` trims each part and keeps their number |
| TopicSets.TopicSetMeans | src/lib/markdown/utils.ts:66-71 | the set collected over the first paths holds exactly the trimmed segments of those paths |
| TopicSets.GetTopics | src/lib/markdown/utils.ts:63-74 | the result is strictly ascending, holds exactly the trimmed `/`-segments of the paths, and is empty for no paths |
| TopicSets.AddSegments | src/lib/markdown/utils.ts:67-70 | the inner loop keeps the set duplicate-free and adds exactly the trimmed segments of one path |
| TopicSets.AddStep | src/lib/markdown/utils.ts:69 | one `add` extends the collected set by one segment and keeps it duplicate-free |
| TopicSets.TopicIsTrimmedSegment | src/lib/markdown/utils.ts:67-69 | every topic is already trimmed and holds no `/` |
| TopicSets.TopicsIgnoreInputOrder | src/lib/markdown/utils.ts:63-74 | reordering or repeating the input paths does not change the result |
| TopicTree.FindLabel | src/lib/markdown/utils.ts:90 | `find` by label: the index of the first node with the label, or -1 when there is none |
| TopicTree.InsertStep | src/lib/markdown/utils.ts:89-99 | one pass of the inner loop, finding or pushing the node and moving `currentLevel` below it, leaves the same forest to be built from the rest of the path |
| TopicTree.ReplaceSame | src/lib/markdown/utils.ts:86 | writing back the level an address points at changes nothing |
| TopicTree.CreateTopicTree | src/lib/markdown/utils.ts:81-104 | the loops build the forest obtained by adding the trimmed segments of each path in turn; no paths give the empty forest |
| TopicTree.InsertKeepsSiblingsDistinct | src/lib/markdown/utils.ts:88-100 | adding a path keeps sibling labels distinct |
| TopicTree.SiblingsDistinct | src/lib/markdown/utils.ts:81-104 | at every level of the result, no two siblings share a label |
| TopicTree.InsertChains | src/lib/markdown/utils.ts:88-100 | adding a path creates exactly the label chains that are prefixes of the path and keeps every existing chain |
| TopicTree.ForestChains | src/lib/markdown/utils.ts:81-104 | a label chain runs down from a root of the result exactly when it is a prefix of the trimmed segments of some input path: every path is in the forest and every node is on some path |
| TopicTree.InsertExisting | src/lib/markdown/utils.ts:88-100 | adding a path already in the forest changes nothing |
| TopicTree.RepeatedPath | src/lib/markdown/utils.ts:84-101 | repeating an input path leaves the forest unchanged |
| TopicTree.InsertLabels | src/lib/markdown/utils.ts:90-95 | adding a path never reorders a level: the labels stay, and a missing first label is appended at the end |
| TopicTree.RootOrder | src/lib/markdown/utils.ts:84-95 | the roots are the first segments of the paths in order of first occurrence, not sorted |
| TopicTree.InsertBelow | src/lib/markdown/utils.ts:88-99 | adding a path changes the labels of one level only below each proper prefix of the path, by appending the next label when it was missing; no level is reordered |
| TopicTree.SiblingOrder | src/lib/markdown/utils.ts:84-101 | at every depth, the children reached by a chain of labels are the next segments of the paths that extend that chain, in order of first occurrence across the paths, not sorted |
| TopicTree.InsertAddsMissingSuffix | src/lib/markdown/utils.ts:88-100 | adding a path creates one node per label after the part already present, and no other node |
| TopicTree.MatchedIsLongestChain | src/lib/markdown/utils.ts:88-100 | the part of a path found already present is the longest prefix of the path that is a chain of the forest |
| TopicFlatten.Flatten | src/lib/markdown/utils.ts:114-120 | the inner `flatten` appends the node's entry and then the entries of its children, in pre-order |
| TopicFlatten.FlattenTopicTree | src/lib/markdown/utils.ts:111-127 | the result is the pre-order list of entries of the forest |
| TopicFlatten.FlatNodeLength | src/lib/markdown/utils.ts:114-120 | a node yields one entry for itself and one per node below it |
| TopicFlatten.FlatLevelLength | src/lib/markdown/utils.ts:111-127 | the number of entries is the number of nodes in the forest |
| TopicFlatten.ChildEntriesHaveParent | src/lib/markdown/utils.ts:117-119 | no entry below a root has a `null` parent |
| TopicFlatten.RootsHaveNoParent | src/lib/markdown/utils.ts:122-124 | the entries with a `null` parent are exactly the roots, in order |
| TopicFlatten.NodeParentsEarlier | src/lib/markdown/utils.ts:114-120 | each entry `flatten(node, parent)` pushes has the parent `parent`, or names as its parent a label carried by an earlier entry |
| TopicFlatten.ParentComesFirst | src/lib/markdown/utils.ts:111-127 | every entry is a root, or its parent's label is carried by an earlier entry |
| BlockIds.IdGenerator.Next | src/lib/markdown/utils.ts:134 | `id()` hands out the next id of the supply and counts the draw |
| BlockIds.AssignIdRecursively | src/lib/markdown/utils.ts:130-144 | the block gets the next id and the given parent id, and its children are tagged after it with its id as their parent |
| BlockIds.AssignChildren | src/lib/markdown/utils.ts:139-141 | the `map` tags the blocks one after the other, drawing ids in order |
| BlockIds.AssignIds | src/lib/markdown/utils.ts:129-147 | `assignIds` tags the forest with `null` as the roots' parent; no blocks give no blocks |
| BlockIds.BlockShapeKept | src/lib/markdown/utils.ts:135-142 | tagging a block keeps its text, type, tree, order and children |
| BlockIds.ForestShapeKept | src/lib/markdown/utils.ts:129-147 | removing the ids from the result gives back the input forest |
| BlockIds.BlockIdsDrawn | src/lib/markdown/utils.ts:134-141 | a block draws one id for itself before the ids of its children |
| BlockIds.ForestIdsDrawn | src/lib/markdown/utils.ts:129-147 | one id is drawn per block: the ids of the result, read in pre-order, are the next ids of the supply |
| BlockIds.IdsDistinct | src/lib/markdown/utils.ts:134 | with a supply that never repeats, all ids in the result are distinct |
| BlockIds.BlockParentLinks | src/lib/markdown/utils.ts:137-140 | a tagged block has the given parent id, and its children have its id |
| BlockIds.ForestParentLinks | src/lib/markdown/utils.ts:146 | roots get a `null` parent id, and every other block the id of its parent |
| BlockFlatten.Flatten | src/lib/markdown/utils.ts:152-159 | the inner `flatten` appends the block without its children, then the entries of its children, in pre-order |
| BlockFlatten.FlattenMdBlocks | src/lib/markdown/utils.ts:149-166 | the result is the pre-order list of the blocks without their children |
| BlockFlatten.Entry | src/lib/markdown/utils.ts:153 | the entry is the block without `children`: putting the children back gives the block again |
| BlockFlatten.BlockEntryIds | src/lib/markdown/utils.ts:152-159 | a block's entries carry its id, then the ids below it in pre-order |
| BlockFlatten.ForestEntryIds | src/lib/markdown/utils.ts:149-166 | one entry per block, in pre-order: the entry ids are the forest's ids read in pre-order |
| BlockFlatten.StoredIds | src/lib/markdown/utils.ts:149-166 | after `assignIds`, there is one entry per parsed block, the entries carry the next ids of the supply in order, and the ids are distinct when the supply never repeats |
| BlockFlatten.ForestParentsEarlier | src/lib/markdown/utils.ts:149-166 | with consistent parent links, every entry has the roots' parent id or the id of an earlier entry |
| BlockFlatten.StoredParentsFirst | src/lib/markdown/utils.ts:149-166 | after `assignIds`, every entry is a root or names as parent an entry stored before it |
| BlockFlatten.BlockEntriesAreBlocks | src/lib/markdown/utils.ts:153-154 | each entry of a block is that block, or a block below it, without its `children` |
| BlockFlatten.ForestEntriesAreBlocks | src/lib/markdown/utils.ts:149-166 | each entry is one of the forest's blocks, at some depth, without its `children` |
| Serialize.InsertByOrder | src/lib/markdown/utils.ts:175-177 | inserting a child after every child of no greater `order` adds exactly that child and keeps the list sorted |
| Serialize.SortByOrder | src/lib/markdown/utils.ts:175-177 | the sort by `order` is a permutation of the children, sorted by `order` |
| Serialize.SortedAreChildren | src/lib/markdown/utils.ts:175-177 | the sorted children are children of the block |
| Serialize.BuildMarkdown | src/lib/markdown/utils.ts:171-185 | `buildMarkdown` writes the text, then a blank line and each child's markdown in ascending `order` |
| Serialize.AppendChildren | src/lib/markdown/utils.ts:179-181 | the loop appends a blank line and each child's markdown, child after child |
| Serialize.CreateMarkdownFromBlocks | src/lib/markdown/utils.ts:168-188 | the result is the trimmed markdown of the root, and it neither starts nor ends with whitespace |
| Serialize.LeafMarkdown | src/lib/markdown/utils.ts:172-174 | a block without children is written as its trimmed text |
| Serialize.SortedUnchanged | src/lib/markdown/utils.ts:175-177 | children already in ascending `order` keep their positions, since the sort is stable |
| Serialize.WithOrderMembers | src/lib/markdown/utils.ts:175-177 | the blocks picked for one `order` value are exactly the blocks with that order |
| Serialize.InsertStable | src/lib/markdown/utils.ts:175-177 | inserting a block into a sorted list puts it after every block of its own order |
| Serialize.SortStable | src/lib/markdown/utils.ts:175-177 | the sort is stable: for every `order` value, the children with that order come out in the order they went in |
| Serialize.InsertLast | src/lib/markdown/utils.ts:175-177 | a child whose `order` is not below any earlier one stays after them |
| Serialize.SortedStrictly | src/lib/markdown/utils.ts:175-177 | with distinct orders, the sorted children are strictly ascending in `order` |
| Serialize.AscendingOrderUnique | src/lib/markdown/utils.ts:175-177 | two lists of the same children, each strictly ascending in `order`, are equal |
| Serialize.ChildOrderIrrelevant | src/lib/markdown/utils.ts:168-188 | when no two children share an `order`, the order the children come in does not change the markdown |

## Left out

- **Whitespace set.** `trim()` and the regular-expression class `\s`
  cover the Unicode whitespace and line-terminator characters. The model
  uses a fixed set: space, tab, line feed, vertical tab, form feed,
  carriage return, no-break space and the byte-order mark. Other Unicode
  space separators are not whitespace here.
- **String order.** JavaScript compares strings by UTF-16 code units;
  the model compares characters (Unicode scalar values). The two orders
  differ only between characters above U+FFFF and characters from U+E000
  to U+FFFF.
- **The sort algorithm.** `sort()` on strings is modelled by an insertion
  sort. The model proves only what the output must be (a permutation,
  strictly ascending for duplicate-free input), not how the engine gets
  there.
- **`id()` internals.** `id()` from `@instantdb/react` is not part of
  this model. It is an abstract supply `ids: nat -> string`. Freshness is
  the assumption that `ids` is injective, stated as a precondition where
  it is needed. The id client failing is not modelled.
- **Markdown parsing.** The parser that builds `MdBlock` trees from
  markdown is not part of this model, and neither is any
  parse-then-serialise round trip. The model takes block trees as input.
- **The `Block` type from `@/db/types`.** It is not part of this model.
  - `createMarkdownFromBlocks` reads only `text`, `order` and `children`.
  - Its input is therefore an `MdBlock`.
  - An `MdBlockWithId` is written as its `BlockIds.StripIds` image, which
    has the same three fields.
- **Missing fields.** `block?.text || ''` and `block.children?.length`
  guard against an absent block, text or children. In the model every
  block has a text and a list of children, so these guards always take
  the present branch.
- **`order` values.** `order` is a JavaScript number. Here it is an
  integer, so NaN, infinities and fractions are not modelled. Neither is
  rounding in `a.order - b.order`.
- **Heap aliasing in `createTopicTree`.** The forest is a value, and
  `currentLevel` is an address into it, not a shared reference. Pushing
  through the pointer is modelled as replacing the level at that address.
- **The shared `flatNodes` / `flatBlocks` arrays.** These are passed into
  each recursive call and returned, rather than captured by the closure.
- **Whitespace after `#` and after a list number.** The patterns
  `/^(#{1,6})\s/` and `/^\d+\.\s/` accept any `\s` character after the
  `#` run and after the list number (tab, line feed and the rest), and the
  model does the same.
