/**
 * `flattenMdBlocks`: a tagged block forest as the list of its blocks
 * without their `children`, in pre-order, the form in which blocks are
 * stored. The recursive `flatten` pushes onto an array shared by all its
 * calls; here that array is passed in and the extended array handed back.
 */
module BlockFlatten {
  import opened Types
  import opened Order
  import opened BlockIds

  /** `const { children, ...flatBlock } = block`: the block without its
      children, which with the children put back is the block again. */
  function Entry(b: MdBlockWithId): (e: FlatMdBlock)
    ensures b == MdBlockWithId(e.id, e.parentId, e.text, e.kind, e.tree, e.order, b.children)
  {
    FlatMdBlock(b.id, b.parentId, b.text, b.kind, b.tree, b.order)
  }

  /** The entries `flatten(block)` pushes: the block, then the entries of
      its children, in order. */
  function FlatBlock(b: MdBlockWithId): seq<FlatMdBlock>
    decreases b, 1
  {
    [Entry(b)] + FlatBlocks(b.children)
  }

  /** The entries of the blocks of `bs`, one block after the other. */
  function FlatBlocks(bs: seq<MdBlockWithId>): seq<FlatMdBlock>
    decreases bs, 0
  {
    if bs == [] then [] else FlatBlocks(bs[..|bs| - 1]) + FlatBlock(bs[|bs| - 1])
  }

  /** The inner `flatten`. */
  method Flatten(block: MdBlockWithId, flatBlocks: seq<FlatMdBlock>) returns (out: seq<FlatMdBlock>)
    ensures out == flatBlocks + FlatBlock(block)
    decreases block, 1
  {
    out := flatBlocks + [Entry(block)];
    for i := 0 to |block.children|
      invariant out == flatBlocks + [Entry(block)] + FlatBlocks(block.children[..i])
    {
      assert block.children[..i + 1][..i] == block.children[..i];
      out := Flatten(block.children[i], out);
    }
    assert block.children[..|block.children|] == block.children;
  }

  /** `flattenMdBlocks` */
  method FlattenMdBlocks(blocks: seq<MdBlockWithId>) returns (flatBlocks: seq<FlatMdBlock>)
    ensures flatBlocks == FlatBlocks(blocks)
  {
    flatBlocks := [];
    for i := 0 to |blocks|
      invariant flatBlocks == FlatBlocks(blocks[..i])
    {
      assert blocks[..i + 1][..i] == blocks[..i];
      flatBlocks := Flatten(blocks[i], flatBlocks);
    }
    assert blocks[..|blocks|] == blocks;
  }

  /** The ids of the entries, in order. */
  function EntryIds(flat: seq<FlatMdBlock>): (r: seq<string>)
    ensures |r| == |flat| && forall i :: 0 <= i < |flat| ==> r[i] == flat[i].id
  {
    seq(|flat|, i requires 0 <= i < |flat| => flat[i].id)
  }

  lemma EntryIdsAppend(a: seq<FlatMdBlock>, b: seq<FlatMdBlock>)
    ensures EntryIds(a + b) == EntryIds(a) + EntryIds(b)
  {
  }

  lemma {:induction false} BlockEntryIds(b: MdBlockWithId)
    ensures EntryIds(FlatBlock(b)) == [b.id] + IdsOf(b.children)
    decreases b, 1
  {
    ForestEntryIds(b.children);
    EntryIdsAppend([Entry(b)], FlatBlocks(b.children));
  }

  /** One entry per block, in pre-order: the entry ids are the ids of the
      forest read in pre-order. */
  lemma {:induction false} ForestEntryIds(bs: seq<MdBlockWithId>)
    ensures EntryIds(FlatBlocks(bs)) == IdsOf(bs)
    decreases bs, 0
  {
    if bs != [] {
      var front, last := bs[..|bs| - 1], bs[|bs| - 1];
      ForestEntryIds(front);
      BlockEntryIds(last);
      EntryIdsAppend(FlatBlocks(front), FlatBlock(last));
    }
  }

  /** Stored after `assignIds`, the forest gives one entry per parsed block,
      and the entries carry the next ids of the supply in order; with a
      supply that never repeats, no two entries share an id. */
  lemma StoredIds(blocks: seq<MdBlock>, ids: nat -> string, n: nat)
    ensures var flat := FlatBlocks(ForestWithIds(blocks, None, ids, n).0);
            |flat| == Count(blocks) && forall i :: 0 <= i < |flat| ==> flat[i].id == ids(n + i)
    ensures (forall a: nat, b: nat :: ids(a) == ids(b) ==> a == b)
            ==> Distinct(EntryIds(FlatBlocks(ForestWithIds(blocks, None, ids, n).0)))
  {
    var r := ForestWithIds(blocks, None, ids, n).0;
    ForestIdsDrawn(blocks, None, ids, n);
    ForestEntryIds(r);
  }

  /** Every entry has the parent id `parentId`, or the parent id of an
      earlier entry's id. */
  ghost predicate ParentsEarlier(flat: seq<FlatMdBlock>, parentId: Option<string>)
  {
    forall i :: 0 <= i < |flat| ==>
      flat[i].parentId == parentId || exists j :: 0 <= j < i && flat[i].parentId == Some(flat[j].id)
  }

  lemma ParentsEarlierAppend(a: seq<FlatMdBlock>, b: seq<FlatMdBlock>, parentId: Option<string>)
    requires ParentsEarlier(a, parentId) && ParentsEarlier(b, parentId)
    ensures ParentsEarlier(a + b, parentId)
  {
    var ab := a + b;
    forall i | 0 <= i < |a| && ab[i].parentId != parentId
      ensures exists j :: 0 <= j < i && ab[i].parentId == Some(ab[j].id)
    {
      var j :| 0 <= j < i && a[i].parentId == Some(a[j].id);
      assert ab[j] == a[j];
    }
    forall i | |a| <= i < |ab| && ab[i].parentId != parentId
      ensures exists j :: 0 <= j < i && ab[i].parentId == Some(ab[j].id)
    {
      var j :| 0 <= j < i - |a| && b[i - |a|].parentId == Some(b[j].id);
      assert ab[|a| + j] == b[j];
    }
  }

  lemma {:induction false} BlockParentsEarlier(b: MdBlockWithId, parentId: Option<string>)
    requires b.parentId == parentId && ParentLinks(b.children, Some(b.id))
    ensures ParentsEarlier(FlatBlock(b), parentId)
    decreases b, 1
  {
    var below := FlatBlocks(b.children);
    ForestParentsEarlier(b.children, Some(b.id));
    var flat := FlatBlock(b);
    forall i | 1 <= i < |flat| && flat[i].parentId != parentId
      ensures exists j :: 0 <= j < i && flat[i].parentId == Some(flat[j].id)
    {
      assert flat[i] == below[i - 1];
      if below[i - 1].parentId != Some(b.id) {
        var j :| 0 <= j < i - 1 && below[i - 1].parentId == Some(below[j].id);
        assert flat[j + 1] == below[j];
      } else {
        assert flat[0].id == b.id;
      }
    }
  }

  lemma {:induction false} ForestParentsEarlier(bs: seq<MdBlockWithId>, parentId: Option<string>)
    requires ParentLinks(bs, parentId)
    ensures ParentsEarlier(FlatBlocks(bs), parentId)
    decreases bs, 0
  {
    if bs != [] {
      var front, last := bs[..|bs| - 1], bs[|bs| - 1];
      assert ParentLinks(front, parentId);
      ForestParentsEarlier(front, parentId);
      BlockParentsEarlier(last, parentId);
      ParentsEarlierAppend(FlatBlocks(front), FlatBlock(last), parentId);
    }
  }

  /** Stored after `assignIds`, every entry is a root (`null` parent id) or
      names as its parent the id of an entry stored before it. */
  lemma StoredParentsFirst(blocks: seq<MdBlock>, ids: nat -> string, n: nat)
    ensures ParentsEarlier(FlatBlocks(ForestWithIds(blocks, None, ids, n).0), None)
  {
    ForestParentLinks(blocks, None, ids, n);
    ForestParentsEarlier(ForestWithIds(blocks, None, ids, n).0, None);
  }

  /** `b` is a block of `bs`, at any depth. */
  ghost predicate IsBlockOf(b: MdBlockWithId, bs: seq<MdBlockWithId>)
    decreases bs
  {
    exists i :: 0 <= i < |bs| && (bs[i] == b || IsBlockOf(b, bs[i].children))
  }

  lemma {:induction false} BlockEntriesAreBlocks(b: MdBlockWithId)
    ensures forall e :: e in FlatBlock(b) ==> e == Entry(b) || exists c :: IsBlockOf(c, b.children) && e == Entry(c)
    decreases b, 1
  {
    ForestEntriesAreBlocks(b.children);
  }

  /** Each entry is one of the forest's blocks without its `children`. */
  lemma {:induction false} ForestEntriesAreBlocks(bs: seq<MdBlockWithId>)
    ensures forall e :: e in FlatBlocks(bs) ==> exists c :: IsBlockOf(c, bs) && e == Entry(c)
    decreases bs, 0
  {
    if bs != [] {
      var front, last := bs[..|bs| - 1], bs[|bs| - 1];
      ForestEntriesAreBlocks(front);
      BlockEntriesAreBlocks(last);
      forall e | e in FlatBlocks(bs) ensures exists c :: IsBlockOf(c, bs) && e == Entry(c) {
        if e in FlatBlocks(front) {
          var c :| IsBlockOf(c, front) && e == Entry(c);
          var i :| 0 <= i < |front| && (front[i] == c || IsBlockOf(c, front[i].children));
          assert bs[i] == front[i];
          assert IsBlockOf(c, bs);
        } else if e == Entry(last) {
          assert bs[|bs| - 1] == last;
          assert IsBlockOf(last, bs);
        } else {
          assert e in FlatBlock(last);
          var c :| IsBlockOf(c, last.children) && e == Entry(c);
          assert bs[|bs| - 1] == last;
          assert IsBlockOf(c, bs);
        }
      }
    }
  }
}
