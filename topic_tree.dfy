/**
 * `createTopicTree`: the forest of topics spelled by a list of `/`-paths.
 * Each path is split on `/` and its parts trimmed; the parts are followed
 * from the roots down, reusing the first sibling with the same label and
 * appending a new node where there is none.
 *
 * The source walks a `currentLevel` pointer into the nested `children`
 * arrays and pushes onto the array it points to. Here the forest is a
 * value and the pointer is an address: the sequence of child indices that
 * leads from the roots to the level it points to.
 */
module TopicTree {
  import opened Text
  import opened Types
  import opened TopicSets

  /** `level.find((node) => node.label === name)`, as an index: the first
      node with that label, or -1 when there is none. */
  function FindLabel(level: seq<TreeNode>, name: string): (k: int)
    ensures -1 <= k < |level|
    ensures k == -1 ==> forall j :: 0 <= j < |level| ==> level[j].name != name
    ensures 0 <= k ==> level[k].name == name && forall j :: 0 <= j < k ==> level[j].name != name
  {
    if level == [] then -1
    else if level[0].name == name then 0
    else
      var k := FindLabel(level[1..], name);
      if k == -1 then -1 else k + 1
  }

  /** The level `level` after the labels `parts` are added below it: the
      first label goes to the first node that has it, or to a new node
      appended at the end, and the rest go below that node. */
  function InsertPath(level: seq<TreeNode>, parts: seq<string>): seq<TreeNode>
    decreases parts
  {
    if parts == [] then level
    else
      var k := FindLabel(level, parts[0]);
      if k == -1 then level + [TreeNode(parts[0], InsertPath([], parts[1..]))]
      else level[k := TreeNode(parts[0], InsertPath(level[k].children, parts[1..]))]
  }

  /** The forest the paths build, one path after the other. */
  function TopicForest(trees: seq<string>): seq<TreeNode>
  {
    if trees == [] then []
    else InsertPath(TopicForest(trees[..|trees| - 1]), Segments(trees[|trees| - 1]))
  }

  // Addresses of levels inside a forest.

  /** `addr` leads through existing nodes. */
  predicate ValidAddress(forest: seq<TreeNode>, addr: seq<nat>)
    decreases addr
  {
    addr == [] || (addr[0] < |forest| && ValidAddress(forest[addr[0]].children, addr[1..]))
  }

  /** The level `addr` leads to. */
  function LevelAt(forest: seq<TreeNode>, addr: seq<nat>): seq<TreeNode>
    requires ValidAddress(forest, addr)
    decreases addr
  {
    if addr == [] then forest else LevelAt(forest[addr[0]].children, addr[1..])
  }

  /** The forest with the level `addr` leads to replaced by `level`. */
  function ReplaceAt(forest: seq<TreeNode>, addr: seq<nat>, level: seq<TreeNode>): seq<TreeNode>
    requires ValidAddress(forest, addr)
    decreases addr
  {
    if addr == [] then level
    else
      var n := forest[addr[0]];
      forest[addr[0] := TreeNode(n.name, ReplaceAt(n.children, addr[1..], level))]
  }

  /** The forest after the labels `parts` are added below the level `addr`
      leads to. */
  function InsertAt(forest: seq<TreeNode>, addr: seq<nat>, parts: seq<string>): seq<TreeNode>
    requires ValidAddress(forest, addr)
  {
    ReplaceAt(forest, addr, InsertPath(LevelAt(forest, addr), parts))
  }

  lemma {:induction false} LevelAppend(forest: seq<TreeNode>, addr: seq<nat>, k: nat)
    requires ValidAddress(forest, addr) && k < |LevelAt(forest, addr)|
    ensures ValidAddress(forest, addr + [k])
    ensures LevelAt(forest, addr + [k]) == LevelAt(forest, addr)[k].children
    decreases addr
  {
    if addr != [] {
      assert (addr + [k])[1..] == addr[1..] + [k];
      LevelAppend(forest[addr[0]].children, addr[1..], k);
    }
  }

  lemma {:induction false} ReplaceAppend(forest: seq<TreeNode>, addr: seq<nat>, k: nat, level: seq<TreeNode>)
    requires ValidAddress(forest, addr) && k < |LevelAt(forest, addr)|
    ensures ValidAddress(forest, addr + [k])
    ensures var n := LevelAt(forest, addr)[k];
            ReplaceAt(forest, addr + [k], level)
            == ReplaceAt(forest, addr, LevelAt(forest, addr)[k := TreeNode(n.name, level)])
    decreases addr
  {
    LevelAppend(forest, addr, k);
    if addr != [] {
      assert (addr + [k])[1..] == addr[1..] + [k];
      ReplaceAppend(forest[addr[0]].children, addr[1..], k, level);
    }
  }

  lemma {:induction false} ReplaceThenLevel(forest: seq<TreeNode>, addr: seq<nat>, level: seq<TreeNode>)
    requires ValidAddress(forest, addr)
    ensures ValidAddress(ReplaceAt(forest, addr, level), addr)
    ensures LevelAt(ReplaceAt(forest, addr, level), addr) == level
    decreases addr
  {
    if addr != [] {
      ReplaceThenLevel(forest[addr[0]].children, addr[1..], level);
    }
  }

  lemma {:induction false} ReplaceTwice(forest: seq<TreeNode>, addr: seq<nat>, l1: seq<TreeNode>, l2: seq<TreeNode>)
    requires ValidAddress(forest, addr)
    ensures ValidAddress(ReplaceAt(forest, addr, l1), addr)
    ensures ReplaceAt(ReplaceAt(forest, addr, l1), addr, l2) == ReplaceAt(forest, addr, l2)
    decreases addr
  {
    ReplaceThenLevel(forest, addr, l1);
    if addr != [] {
      ReplaceTwice(forest[addr[0]].children, addr[1..], l1, l2);
    }
  }

  lemma {:induction false} ReplaceSame(forest: seq<TreeNode>, addr: seq<nat>)
    requires ValidAddress(forest, addr)
    ensures ReplaceAt(forest, addr, LevelAt(forest, addr)) == forest
    decreases addr
  {
    if addr != [] {
      ReplaceSame(forest[addr[0]].children, addr[1..]);
    }
  }

  /** One pass of the inner loop: the first label is found or appended at
      the level `addr` leads to, and what is left to add goes below it. */
  lemma InsertStep(forest: seq<TreeNode>, addr: seq<nat>, parts: seq<string>,
                   level': seq<TreeNode>, k: nat)
    requires ValidAddress(forest, addr) && parts != []
    requires var level := LevelAt(forest, addr);
             var found := FindLabel(level, parts[0]);
             if found == -1 then level' == level + [TreeNode(parts[0], [])] && k == |level|
             else level' == level && k == found
    ensures ValidAddress(ReplaceAt(forest, addr, level'), addr)
    ensures ValidAddress(ReplaceAt(forest, addr, level'), addr + [k])
    ensures InsertAt(ReplaceAt(forest, addr, level'), addr + [k], parts[1..])
            == InsertAt(forest, addr, parts)
  {
    var level := LevelAt(forest, addr);
    var forest' := ReplaceAt(forest, addr, level');
    ReplaceThenLevel(forest, addr, level');
    LevelAppend(forest', addr, k);
    var below := InsertPath(level'[k].children, parts[1..]);
    ReplaceAppend(forest', addr, k, below);
    ReplaceTwice(forest, addr, level', level'[k := TreeNode(level'[k].name, below)]);
    assert InsertPath(level, parts) == level'[k := TreeNode(level'[k].name, below)];
  }

  /** `createTopicTree` */
  method CreateTopicTree(trees: seq<string>) returns (root: seq<TreeNode>)
    ensures root == TopicForest(trees)
    ensures trees == [] ==> root == []
  {
    root := [];
    for t := 0 to |trees|
      invariant root == TopicForest(trees[..t])
    {
      assert trees[..t + 1][..t] == trees[..t];
      var parts := TrimAll(Split(trees[t], '/'));
      ghost var start := root;
      var current: seq<nat> := [];  // the address of `currentLevel`
      ReplaceSame(root, current);
      for i := 0 to |parts|
        invariant ValidAddress(root, current)
        invariant InsertAt(root, current, parts[i..]) == InsertPath(start, parts)
      {
        var part := parts[i];
        var level := LevelAt(root, current);
        var k := FindLabel(level, part);
        ghost var before := root;
        ghost var level' := level;
        if k == -1 {
          k := |level|;
          root := ReplaceAt(root, current, level + [TreeNode(part, [])]);  // `currentLevel.push`
          level' := level + [TreeNode(part, [])];
        } else {
          ReplaceSame(root, current);
        }
        assert root == ReplaceAt(before, current, level');
        InsertStep(before, current, parts[i..], level', k);
        assert parts[i..][1..] == parts[i + 1..];
        if i < |parts| - 1 {
          current := current + [k];
        } else {
          ReplaceSame(root, current + [k]);
          ReplaceSame(root, current);
        }
      }
      ReplaceSame(root, current);
    }
    assert trees[..|trees|] == trees;
  }

  // What the forest is.

  /** At every level, no two siblings have the same label. */
  ghost predicate DistinctSiblings(forest: seq<TreeNode>)
  {
    && (forall i, j :: 0 <= i < j < |forest| ==> forest[i].name != forest[j].name)
    && (forall i :: 0 <= i < |forest| ==> DistinctSiblings(forest[i].children))
  }

  lemma {:induction false} InsertKeepsSiblingsDistinct(level: seq<TreeNode>, parts: seq<string>)
    requires DistinctSiblings(level)
    ensures DistinctSiblings(InsertPath(level, parts))
    decreases parts
  {
    if parts != [] {
      var k := FindLabel(level, parts[0]);
      if k == -1 {
        InsertKeepsSiblingsDistinct([], parts[1..]);
      } else {
        InsertKeepsSiblingsDistinct(level[k].children, parts[1..]);
      }
    }
  }

  /** The forest `createTopicTree` builds never has two siblings with the
      same label. */
  lemma {:induction false} SiblingsDistinct(trees: seq<string>)
    ensures DistinctSiblings(TopicForest(trees))
  {
    if trees != [] {
      SiblingsDistinct(trees[..|trees| - 1]);
      InsertKeepsSiblingsDistinct(TopicForest(trees[..|trees| - 1]), Segments(trees[|trees| - 1]));
    }
  }

  /** The labels `chain` spell a path from a root of `forest` down. */
  ghost predicate HasChain(forest: seq<TreeNode>, chain: seq<string>)
    decreases chain
  {
    chain == [] ||
    exists k :: 0 <= k < |forest| && forest[k].name == chain[0] && HasChain(forest[k].children, chain[1..])
  }

  /** Adding `parts` creates exactly the chains that are prefixes of
      `parts`, and keeps every chain that was there. */
  lemma {:induction false} InsertChains(level: seq<TreeNode>, parts: seq<string>, chain: seq<string>)
    requires chain != []
    ensures HasChain(InsertPath(level, parts), chain) <==> HasChain(level, chain) || chain <= parts
    decreases parts
  {
    if parts != [] {
      var p, rest := parts[0], parts[1..];
      var tail := chain[1..];
      assert chain <= parts <==> chain[0] == p && tail <= rest;
      var r := InsertPath(level, parts);
      var k := FindLabel(level, p);
      var below := if k == -1 then [] else level[k].children;
      var at := if k == -1 then |level| else k;
      if tail != [] {
        InsertChains(below, rest, tail);
      }
      assert r[at] == TreeNode(p, InsertPath(below, rest));
      assert forall j :: 0 <= j < |level| && j != at ==> r[j] == level[j];
      if HasChain(r, chain) {
        var j :| 0 <= j < |r| && r[j].name == chain[0] && HasChain(r[j].children, tail);
        if j != at {
          assert HasChain(level, chain);
        }
      }
      if HasChain(level, chain) {
        var j :| 0 <= j < |level| && level[j].name == chain[0] && HasChain(level[j].children, tail);
        if j != at {
          assert r[j] == level[j];
        } else {
          assert HasChain(r[at].children, tail);
        }
      }
      if chain <= parts {
        assert HasChain(r[at].children, tail);
      }
    }
  }

  /** A non-empty chain of labels runs down the forest exactly when it is a
      prefix of the trimmed segments of one of the paths: every path is in
      the forest, and every node of the forest is on some path. */
  lemma {:induction false} ForestChains(trees: seq<string>, chain: seq<string>)
    requires chain != []
    ensures HasChain(TopicForest(trees), chain) <==> exists t :: t in trees && chain <= Segments(t)
  {
    if trees != [] {
      var front, last := trees[..|trees| - 1], trees[|trees| - 1];
      ForestChains(front, chain);
      InsertChains(TopicForest(front), Segments(last), chain);
      ForestLast(trees);
      OnPathLast(trees, chain);
    }
  }

  lemma OnPathLast(trees: seq<string>, chain: seq<string>)
    requires trees != []
    ensures (exists t :: t in trees && chain <= Segments(t))
            <==> (exists t :: t in trees[..|trees| - 1] && chain <= Segments(t))
                 || chain <= Segments(trees[|trees| - 1])
  {
    var front, last := trees[..|trees| - 1], trees[|trees| - 1];
    assert trees == front + [last];
    assert last in trees;
    forall t | t in trees ensures t in front || t == last {
    }
  }

  lemma ForestLast(trees: seq<string>)
    requires trees != []
    ensures TopicForest(trees) == InsertPath(TopicForest(trees[..|trees| - 1]), Segments(trees[|trees| - 1]))
  {
  }

  /** Adding a path that is already in the forest changes nothing. */
  lemma {:induction false} InsertExisting(level: seq<TreeNode>, parts: seq<string>)
    requires DistinctSiblings(level) && HasChain(level, parts)
    ensures InsertPath(level, parts) == level
    decreases parts
  {
    if parts != [] {
      var j :| 0 <= j < |level| && level[j].name == parts[0] && HasChain(level[j].children, parts[1..]);
      var k := FindLabel(level, parts[0]);
      assert k == j;
      InsertExisting(level[k].children, parts[1..]);
    }
  }

  /** Repeating a path leaves the forest as it is. */
  lemma RepeatedPath(trees: seq<string>, t: string)
    requires t in trees
    ensures TopicForest(trees + [t]) == TopicForest(trees)
  {
    assert (trees + [t])[..|trees|] == trees;
    ForestChains(trees, Segments(t));
    SiblingsDistinct(trees);
    InsertExisting(TopicForest(trees), Segments(t));
  }

  // Sibling order.

  /** The labels of a level, in order. */
  function Labels(level: seq<TreeNode>): (names: seq<string>)
    ensures |names| == |level|
    ensures forall i :: 0 <= i < |level| ==> names[i] == level[i].name
  {
    seq(|level|, i requires 0 <= i < |level| => level[i].name)
  }

  /** Adding a path never reorders a level: it keeps the labels it had, and
      appends the first label of the path when it was missing. */
  lemma InsertLabels(level: seq<TreeNode>, parts: seq<string>)
    ensures Labels(InsertPath(level, parts))
            == if parts == [] || parts[0] in Labels(level) then Labels(level)
               else Labels(level) + [parts[0]]
  {
    if parts != [] && parts[0] in Labels(level) {
      var j :| 0 <= j < |level| && Labels(level)[j] == parts[0];
    }
  }

  /** `xs` with every repeated element after its first occurrence removed. */
  function FirstOccurrences(xs: seq<string>): (r: seq<string>)
    ensures forall x :: x in r <==> x in xs
  {
    if xs == [] then []
    else
      var r := FirstOccurrences(xs[..|xs| - 1]);
      assert xs == xs[..|xs| - 1] + [xs[|xs| - 1]];
      if xs[|xs| - 1] in r then r else r + [xs[|xs| - 1]]
  }

  /** The first segment of each path. */
  function FirstSegments(trees: seq<string>): (firsts: seq<string>)
    ensures |firsts| == |trees|
  {
    seq(|trees|, i requires 0 <= i < |trees| => Segments(trees[i])[0])
  }

  /** The roots are the first segments of the paths, in the order of their
      first occurrence, and not sorted. */
  lemma {:induction false} RootOrder(trees: seq<string>)
    ensures Labels(TopicForest(trees)) == FirstOccurrences(FirstSegments(trees))
  {
    if trees != [] {
      var front := trees[..|trees| - 1];
      RootOrder(front);
      InsertLabels(TopicForest(front), Segments(trees[|trees| - 1]));
      assert FirstSegments(trees)[..|trees| - 1] == FirstSegments(front);
    }
  }

  /** The children of the node the labels `chain` lead to from `level`,
      each label taken at its first node; the empty level when the chain
      breaks off. */
  function Below(level: seq<TreeNode>, chain: seq<string>): seq<TreeNode>
    decreases chain
  {
    if chain == [] then level
    else
      var k := FindLabel(level, chain[0]);
      if k == -1 then [] else Below(level[k].children, chain[1..])
  }

  /** `FindLabel` is pinned down by its contract. */
  lemma FindLabelIs(level: seq<TreeNode>, name: string, k: int)
    requires -1 <= k < |level|
    requires forall j :: 0 <= j < |level| && (k == -1 || j < k) ==> level[j].name != name
    requires 0 <= k ==> level[k].name == name
    ensures FindLabel(level, name) == k
  {
  }

  lemma FirstOccurrencesSnoc(xs: seq<string>, x: string)
    ensures FirstOccurrences(xs + [x])
            == if x in FirstOccurrences(xs) then FirstOccurrences(xs) else FirstOccurrences(xs) + [x]
  {
    assert (xs + [x])[..|xs|] == xs;
  }

  lemma {:induction false} BelowEmpty(chain: seq<string>)
    ensures Below([], chain) == []
  {
  }

  /** Adding a path changes the labels of one level below each proper
      prefix of the path, and there only by appending the next label when
      it was missing; every other level keeps its labels. */
  lemma {:induction false} InsertBelow(level: seq<TreeNode>, parts: seq<string>, chain: seq<string>)
    ensures Labels(Below(InsertPath(level, parts), chain))
            == if |chain| < |parts| && chain <= parts && parts[|chain|] !in Labels(Below(level, chain))
               then Labels(Below(level, chain)) + [parts[|chain|]]
               else Labels(Below(level, chain))
    decreases chain
  {
    if chain == [] {
      InsertLabels(level, parts);
    } else if parts != [] {
      var r := InsertPath(level, parts);
      var k := FindLabel(level, parts[0]);
      if chain[0] == parts[0] {
        var below := if k == -1 then [] else level[k].children;
        var at := if k == -1 then |level| else k;
        assert forall j :: 0 <= j < |level| && j != at ==> r[j] == level[j];
        FindLabelIs(r, chain[0], at);
        assert r[at].children == InsertPath(below, parts[1..]);
        assert Below(level, chain) == Below(below, chain[1..]) by {
          if k == -1 {
            BelowEmpty(chain[1..]);
          }
        }
        InsertBelow(below, parts[1..], chain[1..]);
        assert (|chain| < |parts| && chain <= parts)
               == (|chain[1..]| < |parts[1..]| && chain[1..] <= parts[1..]);
      } else {
        var j := FindLabel(level, chain[0]);
        assert forall i :: 0 <= i < |level| && i != k ==> r[i] == level[i];
        assert |r| == |level| || (|r| == |level| + 1 && r[|level|].name == parts[0]);
        assert 0 <= k ==> r[k].name == parts[0];
        FindLabelIs(r, chain[0], j);
        if j != -1 {
          assert r[j] == level[j];
        }
      }
    }
  }

  /** The label below `chain` of each path that strictly extends `chain`,
      in the order of the paths. */
  function NextSegments(trees: seq<string>, chain: seq<string>): seq<string>
  {
    if trees == [] then []
    else
      var s := Segments(trees[|trees| - 1]);
      NextSegments(trees[..|trees| - 1], chain)
        + if |chain| < |s| && chain <= s then [s[|chain|]] else []
  }

  /** Every level of the forest lists its labels in the order they first
      occur, in the order of the paths, right below its chain of labels. */
  lemma {:induction false} SiblingOrder(trees: seq<string>, chain: seq<string>)
    ensures Labels(Below(TopicForest(trees), chain)) == FirstOccurrences(NextSegments(trees, chain))
  {
    if trees == [] {
      BelowEmpty(chain);
    } else {
      var front, s := trees[..|trees| - 1], Segments(trees[|trees| - 1]);
      SiblingOrder(front, chain);
      InsertBelow(TopicForest(front), s, chain);
      if |chain| < |s| && chain <= s {
        FirstOccurrencesSnoc(NextSegments(front, chain), s[|chain|]);
      } else {
        assert NextSegments(trees, chain) == NextSegments(front, chain);
      }
    }
  }

  // What a new path adds.

  /** The number of nodes of a forest. */
  function Size(forest: seq<TreeNode>): nat
  {
    if forest == [] then 0
    else Size(forest[..|forest| - 1]) + 1 + Size(forest[|forest| - 1].children)
  }

  lemma {:induction false} SizeUpdate(forest: seq<TreeNode>, k: nat, node: TreeNode)
    requires k < |forest|
    ensures Size(forest[k := node]) + Size(forest[k].children) == Size(forest) + Size(node.children)
  {
    var n := |forest| - 1;
    if k < n {
      SizeUpdate(forest[..n], k, node);
      assert forest[k := node][..n] == forest[..n][k := node];
    } else {
      assert forest[k := node][..n] == forest[..n];
    }
  }

  /** How many leading labels of `parts` already run down `level`, followed
      the way `InsertPath` follows them. */
  function Matched(level: seq<TreeNode>, parts: seq<string>): (m: nat)
    ensures m <= |parts|
    decreases parts
  {
    if parts == [] then 0
    else
      var k := FindLabel(level, parts[0]);
      if k == -1 then 0 else 1 + Matched(level[k].children, parts[1..])
  }

  /** Adding a path creates one node per label past the matched prefix,
      and no other. */
  lemma {:induction false} InsertAddsMissingSuffix(level: seq<TreeNode>, parts: seq<string>)
    ensures Size(InsertPath(level, parts)) == Size(level) + |parts| - Matched(level, parts)
    decreases parts
  {
    if parts != [] {
      var k := FindLabel(level, parts[0]);
      if k == -1 {
        InsertAddsMissingSuffix([], parts[1..]);
        var r := InsertPath(level, parts);
        assert r[..|level|] == level;
      } else {
        InsertAddsMissingSuffix(level[k].children, parts[1..]);
        SizeUpdate(level, k, TreeNode(parts[0], InsertPath(level[k].children, parts[1..])));
      }
    }
  }

  /** When siblings are distinct, the matched prefix is the longest prefix
      of the path that is already in the forest. */
  lemma {:induction false} MatchedIsLongestChain(level: seq<TreeNode>, parts: seq<string>, m: nat)
    requires DistinctSiblings(level) && m <= |parts|
    ensures HasChain(level, parts[..m]) <==> m <= Matched(level, parts)
    decreases parts
  {
    if parts != [] && m > 0 {
      var k := FindLabel(level, parts[0]);
      assert parts[..m][1..] == parts[1..][..m - 1];
      if k != -1 {
        MatchedIsLongestChain(level[k].children, parts[1..], m - 1);
      }
      if HasChain(level, parts[..m]) {
        var j :| 0 <= j < |level| && level[j].name == parts[0] && HasChain(level[j].children, parts[..m][1..]);
        assert k == j;
      }
    }
  }
}
