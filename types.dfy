/**
 * The shapes exchanged by the markdown utilities: parsed blocks, blocks
 * tagged with ids, their flat storage projection, and the topic forest with
 * its flat projection. `type` and `label` are Dafny keywords, so the block
 * type field is `kind` and a topic node's label is `name`.
 */
module Types {

  datatype Option<T> = None | Some(value: T)

  datatype BlockType =
    | Heading
    | Paragraph
    | UnorderedList
    | OrderedList
    | TaskList
    | Blockquote
    | Codeblock
    | Image

  /** A parsed block before ids are assigned. */
  datatype MdBlock = MdBlock(text: string, kind: BlockType, tree: string, order: int,
                             children: seq<MdBlock>)

  /** A block with its own id and the id of its parent (`None` for a root). */
  datatype MdBlockWithId = MdBlockWithId(id: string, parentId: Option<string>,
                                         text: string, kind: BlockType, tree: string, order: int,
                                         children: seq<MdBlockWithId>)

  /** A block with id, without its `children`. */
  datatype FlatMdBlock = FlatMdBlock(id: string, parentId: Option<string>,
                                     text: string, kind: BlockType, tree: string, order: int)

  /** A node of the topic forest. */
  datatype TreeNode = TreeNode(name: string, children: seq<TreeNode>)

  /** A topic node with the label of its parent (`None` for a root). */
  datatype FlatTreeNode = FlatTreeNode(name: string, parent: Option<string>)
}
