/**
 * `assignIds`: tags every block of a parsed forest with a fresh id and with
 * the id of its parent (`None` for a root), drawing one id per block in
 * pre-order: a block's id is drawn before those of its children.
 *
 * The id capability (`id()` from the database client) is modelled as a
 * generator object whose `n`-th draw yields `ids(n)`; the model knows
 * nothing more about the ids than what a lemma assumes of `ids`.
 */
module BlockIds {
  import opened Types
  import opened Order

  /** The source of fresh ids: `Next` hands out `ids(0)`, `ids(1)`, ... */
  class IdGenerator {
    const ids: nat -> string
    var drawn: nat

    constructor (ids: nat -> string)
      ensures this.ids == ids && drawn == 0
    {
      this.ids := ids;
      drawn := 0;
    }

    /** `id()` */
    method Next() returns (id: string)
      modifies this
      ensures id == ids(old(drawn)) && drawn == old(drawn) + 1
    {
      id := ids(drawn);
      drawn := drawn + 1;
    }
  }

  /** The block `assignIdRecursively(block, parentId)` returns when `n` ids
      have been drawn before, and the number drawn after it. */
  function WithIds(block: MdBlock, parentId: Option<string>, ids: nat -> string, n: nat)
    : (MdBlockWithId, nat)
    decreases block, 1
  {
    var id := ids(n);
    var (children, next) := ForestWithIds(block.children, Some(id), ids, n + 1);
    (MdBlockWithId(id, parentId, block.text, block.kind, block.tree, block.order, children), next)
  }

  /** The blocks `blocks.map((b) => assignIdRecursively(b, parentId))`
      returns, and the number of ids drawn after them. */
  function ForestWithIds(blocks: seq<MdBlock>, parentId: Option<string>, ids: nat -> string, n: nat)
    : (seq<MdBlockWithId>, nat)
    decreases blocks, 0
  {
    if blocks == [] then ([], n)
    else
      var (front, m) := ForestWithIds(blocks[..|blocks| - 1], parentId, ids, n);
      var (last, next) := WithIds(blocks[|blocks| - 1], parentId, ids, m);
      (front + [last], next)
  }

  /** `assignIdRecursively` */
  method AssignIdRecursively(block: MdBlock, parentId: Option<string>, gen: IdGenerator)
    returns (r: MdBlockWithId)
    modifies gen
    ensures (r, gen.drawn) == WithIds(block, parentId, gen.ids, old(gen.drawn))
    decreases block, 1
  {
    var newId := gen.Next();
    var children := AssignChildren(block.children, Some(newId), gen);
    r := MdBlockWithId(newId, parentId, block.text, block.kind, block.tree, block.order, children);
  }

  /** `blocks.map((b) => assignIdRecursively(b, parentId))` */
  method AssignChildren(blocks: seq<MdBlock>, parentId: Option<string>, gen: IdGenerator)
    returns (r: seq<MdBlockWithId>)
    modifies gen
    ensures (r, gen.drawn) == ForestWithIds(blocks, parentId, gen.ids, old(gen.drawn))
    decreases blocks, 0
  {
    r := [];
    for i := 0 to |blocks|
      invariant (r, gen.drawn) == ForestWithIds(blocks[..i], parentId, gen.ids, old(gen.drawn))
    {
      assert blocks[..i + 1][..i] == blocks[..i];
      var block := AssignIdRecursively(blocks[i], parentId, gen);
      r := r + [block];
    }
    assert blocks[..|blocks|] == blocks;
  }

  /** `assignIds` */
  method AssignIds(blocks: seq<MdBlock>, gen: IdGenerator) returns (r: seq<MdBlockWithId>)
    modifies gen
    ensures (r, gen.drawn) == ForestWithIds(blocks, None, gen.ids, old(gen.drawn))
    ensures blocks == [] ==> r == []
  {
    r := AssignChildren(blocks, None, gen);
  }

  // Shape and fields.

  /** A block with its ids removed. */
  function StripIds(b: MdBlockWithId): MdBlock
    decreases b, 1
  {
    MdBlock(b.text, b.kind, b.tree, b.order, StripAllIds(b.children))
  }

  function StripAllIds(bs: seq<MdBlockWithId>): seq<MdBlock>
    decreases bs, 0
  {
    if bs == [] then [] else StripAllIds(bs[..|bs| - 1]) + [StripIds(bs[|bs| - 1])]
  }

  lemma {:induction false} BlockShapeKept(block: MdBlock, parentId: Option<string>, ids: nat -> string, n: nat)
    ensures StripIds(WithIds(block, parentId, ids, n).0) == block
    decreases block, 1
  {
    ForestShapeKept(block.children, Some(ids(n)), ids, n + 1);
  }

  /** Assigning ids keeps the shape of the forest and the text, type, tree
      and order of every block. */
  lemma {:induction false} ForestShapeKept(blocks: seq<MdBlock>, parentId: Option<string>, ids: nat -> string, n: nat)
    ensures StripAllIds(ForestWithIds(blocks, parentId, ids, n).0) == blocks
    decreases blocks, 0
  {
    if blocks != [] {
      var front := blocks[..|blocks| - 1];
      var (f, m) := ForestWithIds(front, parentId, ids, n);
      ForestShapeKept(front, parentId, ids, n);
      BlockShapeKept(blocks[|blocks| - 1], parentId, ids, m);
      var r := ForestWithIds(blocks, parentId, ids, n).0;
      assert r[..|r| - 1] == f;
      assert blocks == front + [blocks[|blocks| - 1]];
    }
  }

  // Ids.

  /** The number of blocks of a forest. */
  function Count(blocks: seq<MdBlock>): nat
    decreases blocks
  {
    if blocks == [] then 0
    else Count(blocks[..|blocks| - 1]) + 1 + Count(blocks[|blocks| - 1].children)
  }

  /** The ids of a tagged forest, in pre-order. */
  function IdsOf(bs: seq<MdBlockWithId>): seq<string>
    decreases bs
  {
    if bs == [] then []
    else
      var last := bs[|bs| - 1];
      IdsOf(bs[..|bs| - 1]) + [last.id] + IdsOf(last.children)
  }

  /** `ids(n)`, ..., `ids(n + count - 1)`. */
  function Drawn(ids: nat -> string, n: nat, count: nat): (r: seq<string>)
    ensures |r| == count && forall k :: 0 <= k < count ==> r[k] == ids(n + k)
  {
    seq(count, k requires 0 <= k < count => ids(n + k))
  }

  lemma {:induction false} BlockIdsDrawn(block: MdBlock, parentId: Option<string>, ids: nat -> string, n: nat)
    ensures WithIds(block, parentId, ids, n).1 == n + 1 + Count(block.children)
    ensures var b := WithIds(block, parentId, ids, n).0;
            [b.id] + IdsOf(b.children) == Drawn(ids, n, 1 + Count(block.children))
    decreases block, 1
  {
    ForestIdsDrawn(block.children, Some(ids(n)), ids, n + 1);
  }

  /** One id is drawn per block, in pre-order: the ids of the tagged forest,
      read in pre-order, are the next `Count(blocks)` ids of the supply. */
  lemma {:induction false} ForestIdsDrawn(blocks: seq<MdBlock>, parentId: Option<string>, ids: nat -> string, n: nat)
    ensures ForestWithIds(blocks, parentId, ids, n).1 == n + Count(blocks)
    ensures IdsOf(ForestWithIds(blocks, parentId, ids, n).0) == Drawn(ids, n, Count(blocks))
    decreases blocks, 0
  {
    if blocks != [] {
      var front, lastBlock := blocks[..|blocks| - 1], blocks[|blocks| - 1];
      var before := ForestWithIds(front, parentId, ids, n);
      ForestIdsDrawn(front, parentId, ids, n);
      var after := WithIds(lastBlock, parentId, ids, before.1);
      BlockIdsDrawn(lastBlock, parentId, ids, before.1);
      ForestWithIdsLast(blocks, parentId, ids, n);
      IdsDrawnStep(before.0, after.0, ids, n, Count(front), Count(lastBlock.children));
    }
  }

  lemma IdsDrawnStep(front: seq<MdBlockWithId>, b: MdBlockWithId, ids: nat -> string, n: nat, a: nat, c: nat)
    requires IdsOf(front) == Drawn(ids, n, a)
    requires [b.id] + IdsOf(b.children) == Drawn(ids, n + a, 1 + c)
    ensures IdsOf(front + [b]) == Drawn(ids, n, a + 1 + c)
  {
    IdsOfSnoc(front, b);
    DrawnSplit(ids, n, a, 1 + c);
  }

  lemma ForestWithIdsLast(blocks: seq<MdBlock>, parentId: Option<string>, ids: nat -> string, n: nat)
    requires blocks != []
    ensures var before := ForestWithIds(blocks[..|blocks| - 1], parentId, ids, n);
            var after := WithIds(blocks[|blocks| - 1], parentId, ids, before.1);
            ForestWithIds(blocks, parentId, ids, n) == (before.0 + [after.0], after.1)
  {
  }

  lemma IdsOfSnoc(bs: seq<MdBlockWithId>, b: MdBlockWithId)
    ensures IdsOf(bs + [b]) == IdsOf(bs) + ([b.id] + IdsOf(b.children))
  {
    assert (bs + [b])[..|bs|] == bs;
  }

  lemma DrawnSplit(ids: nat -> string, n: nat, a: nat, b: nat)
    ensures Drawn(ids, n, a + b) == Drawn(ids, n, a) + Drawn(ids, n + a, b)
  {
  }

  /** With a supply that never repeats an id, all ids in the forest are
      distinct. */
  lemma IdsDistinct(blocks: seq<MdBlock>, ids: nat -> string, n: nat)
    requires forall a: nat, b: nat :: ids(a) == ids(b) ==> a == b
    ensures Distinct(IdsOf(ForestWithIds(blocks, None, ids, n).0))
  {
    ForestIdsDrawn(blocks, None, ids, n);
  }

  // Parent links.

  /** Every block of `bs` has the parent id `parentId`, and every block
      below one of them has the id of its own parent. */
  ghost predicate ParentLinks(bs: seq<MdBlockWithId>, parentId: Option<string>)
  {
    forall i :: 0 <= i < |bs| ==> bs[i].parentId == parentId && ParentLinks(bs[i].children, Some(bs[i].id))
  }

  lemma {:induction false} BlockParentLinks(block: MdBlock, parentId: Option<string>, ids: nat -> string, n: nat)
    ensures var b := WithIds(block, parentId, ids, n).0;
            b.parentId == parentId && ParentLinks(b.children, Some(b.id))
    decreases block, 1
  {
    ForestParentLinks(block.children, Some(ids(n)), ids, n + 1);
  }

  /** Roots get a `null` parent id and every other block the id of its
      parent. */
  lemma {:induction false} ForestParentLinks(blocks: seq<MdBlock>, parentId: Option<string>, ids: nat -> string, n: nat)
    ensures ParentLinks(ForestWithIds(blocks, parentId, ids, n).0, parentId)
    decreases blocks, 0
  {
    if blocks != [] {
      var front := blocks[..|blocks| - 1];
      var (f, m) := ForestWithIds(front, parentId, ids, n);
      ForestParentLinks(front, parentId, ids, n);
      BlockParentLinks(blocks[|blocks| - 1], parentId, ids, m);
    }
  }
}
