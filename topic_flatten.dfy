/**
 * `flattenTopicTree`: the topic forest as a list of (label, parent label)
 * entries, one per node, in pre-order. The recursive `flatten` pushes onto
 * an array shared by all its calls; here that array is passed in and the
 * extended array handed back.
 */
module TopicFlatten {
  import opened Types
  import opened TopicTree

  /** The entries `flatten(node, parent)` pushes: the node, then the
      entries of its children, in order. */
  function FlatNode(node: TreeNode, parent: Option<string>): seq<FlatTreeNode>
    decreases node, 1
  {
    [FlatTreeNode(node.name, parent)] + FlatLevel(node.children, Some(node.name))
  }

  /** The entries of the nodes of `level`, one node after the other. */
  function FlatLevel(level: seq<TreeNode>, parent: Option<string>): seq<FlatTreeNode>
    decreases level, 0
  {
    if level == [] then []
    else FlatLevel(level[..|level| - 1], parent) + FlatNode(level[|level| - 1], parent)
  }

  /** The inner `flatten`: pushes the entry of `node` and then, child by
      child, the entries below it. */
  method Flatten(node: TreeNode, parent: Option<string>, flatNodes: seq<FlatTreeNode>)
    returns (out: seq<FlatTreeNode>)
    ensures out == flatNodes + FlatNode(node, parent)
    decreases node, 1
  {
    out := flatNodes + [FlatTreeNode(node.name, parent)];
    for i := 0 to |node.children|
      invariant out == flatNodes + [FlatTreeNode(node.name, parent)]
                       + FlatLevel(node.children[..i], Some(node.name))
    {
      assert node.children[..i + 1][..i] == node.children[..i];
      out := Flatten(node.children[i], Some(node.name), out);
    }
    assert node.children[..|node.children|] == node.children;
  }

  /** `flattenTopicTree` */
  method FlattenTopicTree(tree: seq<TreeNode>) returns (flatNodes: seq<FlatTreeNode>)
    ensures flatNodes == FlatLevel(tree, None)
  {
    flatNodes := [];
    for i := 0 to |tree|
      invariant flatNodes == FlatLevel(tree[..i], None)
    {
      assert tree[..i + 1][..i] == tree[..i];
      flatNodes := Flatten(tree[i], None, flatNodes);
    }
    assert tree[..|tree|] == tree;
  }

  /** One entry per node. */
  lemma {:induction false} FlatNodeLength(node: TreeNode, parent: Option<string>)
    ensures |FlatNode(node, parent)| == 1 + Size(node.children)
    decreases node, 1
  {
    FlatLevelLength(node.children, Some(node.name));
  }

  lemma {:induction false} FlatLevelLength(level: seq<TreeNode>, parent: Option<string>)
    ensures |FlatLevel(level, parent)| == Size(level)
    decreases level, 0
  {
    if level != [] {
      FlatLevelLength(level[..|level| - 1], parent);
      FlatNodeLength(level[|level| - 1], parent);
    }
  }

  /** The labels of the entries without a parent, in order. */
  function RootLabels(flat: seq<FlatTreeNode>): seq<string>
  {
    if flat == [] then []
    else
      var last := flat[|flat| - 1];
      RootLabels(flat[..|flat| - 1]) + if last.parent == None then [last.name] else []
  }

  lemma {:induction false} RootLabelsAppend(a: seq<FlatTreeNode>, b: seq<FlatTreeNode>)
    ensures RootLabels(a + b) == RootLabels(a) + RootLabels(b)
    decreases |b|
  {
    if b != [] {
      var n := |b| - 1;
      assert (a + b)[..|a + b| - 1] == a + b[..n];
      assert (a + b)[|a + b| - 1] == b[n];
      RootLabelsAppend(a, b[..n]);
    } else {
      assert a + b == a;
    }
  }

  /** Below a root, no entry is without a parent. */
  lemma {:induction false} ChildEntriesHaveParent(level: seq<TreeNode>, parentName: string)
    ensures RootLabels(FlatLevel(level, Some(parentName))) == []
    decreases level
  {
    if level != [] {
      var last := level[|level| - 1];
      ChildEntriesHaveParent(level[..|level| - 1], parentName);
      ChildEntriesHaveParent(last.children, last.name);
      RootLabelsAppend(FlatLevel(level[..|level| - 1], Some(parentName)), FlatNode(last, Some(parentName)));
      RootLabelsAppend([FlatTreeNode(last.name, Some(parentName))], FlatLevel(last.children, Some(last.name)));
    }
  }

  /** The entries with a `null` parent are exactly the roots, in order. */
  lemma {:induction false} RootsHaveNoParent(tree: seq<TreeNode>)
    ensures RootLabels(FlatLevel(tree, None)) == Labels(tree)
  {
    if tree != [] {
      var front, last := tree[..|tree| - 1], tree[|tree| - 1];
      RootsHaveNoParent(front);
      RootLabelsAppend(FlatLevel(front, None), FlatNode(last, None));
      RootEntryLabel(last);
      LabelsSnoc(tree);
    }
  }

  /** A root contributes its own label and nothing below it. */
  lemma RootEntryLabel(node: TreeNode)
    ensures RootLabels(FlatNode(node, None)) == [node.name]
  {
    ChildEntriesHaveParent(node.children, node.name);
    RootLabelsAppend([FlatTreeNode(node.name, None)], FlatLevel(node.children, Some(node.name)));
    assert RootLabels([FlatTreeNode(node.name, None)]) == [node.name];
  }

  lemma LabelsSnoc(level: seq<TreeNode>)
    requires level != []
    ensures Labels(level) == Labels(level[..|level| - 1]) + [level[|level| - 1].name]
  {
  }

  /** Every entry has the parent `parent`, or names a parent label that an
      earlier entry carries. */
  ghost predicate ParentsEarlier(flat: seq<FlatTreeNode>, parent: Option<string>)
  {
    forall i :: 0 <= i < |flat| ==>
      flat[i].parent == parent
      || (flat[i].parent.Some? && exists j :: 0 <= j < i && flat[j].name == flat[i].parent.value)
  }

  lemma ParentsEarlierAppend(a: seq<FlatTreeNode>, b: seq<FlatTreeNode>, parent: Option<string>)
    requires ParentsEarlier(a, parent) && ParentsEarlier(b, parent)
    ensures ParentsEarlier(a + b, parent)
  {
    var ab := a + b;
    forall i | 0 <= i < |a| && ab[i].parent != parent
      ensures exists j :: 0 <= j < i && ab[j].name == ab[i].parent.value
    {
      var j :| 0 <= j < i && a[j].name == a[i].parent.value;
      assert ab[j] == a[j];
    }
    forall i | |a| <= i < |ab| && ab[i].parent != parent
      ensures exists j :: 0 <= j < i && ab[j].name == ab[i].parent.value
    {
      var j :| 0 <= j < i - |a| && b[j].name == b[i - |a|].parent.value;
      assert ab[|a| + j] == b[j];
    }
  }

  lemma {:induction false} NodeParentsEarlier(node: TreeNode, parent: Option<string>)
    ensures ParentsEarlier(FlatNode(node, parent), parent)
    decreases node, 1
  {
    var below := FlatLevel(node.children, Some(node.name));
    LevelParentsEarlier(node.children, Some(node.name));
    var flat := FlatNode(node, parent);
    forall i | 1 <= i < |flat| && flat[i].parent != parent
      ensures flat[i].parent.Some? && exists j :: 0 <= j < i && flat[j].name == flat[i].parent.value
    {
      assert flat[i] == below[i - 1];
      if below[i - 1].parent != Some(node.name) {
        var j :| 0 <= j < i - 1 && below[j].name == below[i - 1].parent.value;
        assert flat[j + 1] == below[j];
      } else {
        assert flat[0].name == node.name;
      }
    }
  }

  lemma {:induction false} LevelParentsEarlier(level: seq<TreeNode>, parent: Option<string>)
    ensures ParentsEarlier(FlatLevel(level, parent), parent)
    decreases level, 0
  {
    if level != [] {
      LevelParentsEarlier(level[..|level| - 1], parent);
      NodeParentsEarlier(level[|level| - 1], parent);
      ParentsEarlierAppend(FlatLevel(level[..|level| - 1], parent), FlatNode(level[|level| - 1], parent), parent);
    }
  }

  /** Pre-order: every entry of the flattened forest is a root, or its
      parent's label is carried by an earlier entry. */
  lemma ParentComesFirst(tree: seq<TreeNode>)
    ensures ParentsEarlier(FlatLevel(tree, None), None)
  {
    LevelParentsEarlier(tree, None);
  }
}
