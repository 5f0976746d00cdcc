/**
 * `getTrees` and `getTopics`: the distinct tree paths of a block forest and
 * the distinct topics (trimmed path segments) of a list of paths, each
 * collected into a JavaScript `Set` and returned sorted.
 *
 * A JavaScript `Set` keeps its elements once each, in insertion order; it is
 * modelled as a duplicate-free sequence to which `add` appends an element
 * not yet present. `Array.from(set).sort()` is `SortStrings` of that
 * sequence.
 */
module TopicSets {
  import opened Text
  import opened Order
  import opened Types

  /** The non-empty `tree` fields of a block and of all blocks below it. */
  ghost function BlockTrees(b: MdBlock): set<string>
    decreases b, 1
  {
    (if b.tree != "" then {b.tree} else {}) + TreeSet(b.children)
  }

  /** The non-empty `tree` fields of all blocks of a forest, at any depth. */
  ghost function TreeSet(blocks: seq<MdBlock>): set<string>
    decreases blocks, 0
  {
    if blocks == [] then {}
    else TreeSet(blocks[..|blocks| - 1]) + BlockTrees(blocks[|blocks| - 1])
  }

  /** The empty path is never collected. */
  lemma {:induction false} EmptyTreeNotCollected(blocks: seq<MdBlock>)
    ensures "" !in TreeSet(blocks)
    decreases blocks, 0
  {
    if blocks != [] {
      EmptyTreeNotCollected(blocks[..|blocks| - 1]);
      EmptyTreeNotCollected(blocks[|blocks| - 1].children);
    }
  }

  /** The inner `traverse` of `getTrees`: adds to `trees` every non-empty
      `tree` field of `blocks`, depth first. */
  method Traverse(blocks: seq<MdBlock>, trees: seq<string>) returns (out: seq<string>)
    requires Distinct(trees)
    ensures Distinct(out)
    ensures forall s :: s in out <==> s in trees || s in TreeSet(blocks)
    decreases blocks, 0
  {
    out := trees;
    for i := 0 to |blocks|
      invariant Distinct(out)
      invariant forall s :: s in out <==> s in trees || s in TreeSet(blocks[..i])
    {
      var block := blocks[i];
      assert blocks[..i + 1][..i] == blocks[..i];
      if block.tree != "" && block.tree !in out {
        out := out + [block.tree];
      }
      out := TraverseChildren(block, out);
    }
    assert blocks[..|blocks|] == blocks;
  }

  /** The recursive call `traverse(block.children)`. */
  method TraverseChildren(block: MdBlock, trees: seq<string>) returns (out: seq<string>)
    requires Distinct(trees)
    ensures Distinct(out)
    ensures forall s :: s in out <==> s in trees || s in TreeSet(block.children)
    decreases block, 1
  {
    out := Traverse(block.children, trees);
  }

  /** `getTrees`: the distinct non-empty tree paths of the forest, ascending. */
  method GetTrees(parsedMd: seq<MdBlock>) returns (r: seq<string>)
    ensures StrictlyAscending(r)
    ensures forall s :: s in r <==> s in TreeSet(parsedMd)
    ensures parsedMd == [] ==> r == []
  {
    var trees := Traverse(parsedMd, []);
    r := SortStrings(trees);
    assert forall s :: s in r <==> s in multiset(trees);
  }

  /** `xs.map((x) => x.trim())` */
  function TrimAll(xs: seq<string>): (r: seq<string>)
    ensures |r| == |xs|
    ensures forall k :: 0 <= k < |xs| ==> r[k] == Trim(xs[k])
  {
    if xs == [] then [] else [Trim(xs[0])] + TrimAll(xs[1..])
  }

  /** The topics of one path: its trimmed `/`-segments. */
  function Segments(path: string): seq<string>
  {
    TrimAll(Split(path, '/'))
  }

  /** The elements of a sequence, as a set. */
  ghost function Elems(xs: seq<string>): set<string>
  {
    set s | s in xs
  }

  /** The topics of the first `n` paths, collected path by path. */
  ghost function TopicSet(paths: seq<string>, n: nat): set<string>
    requires n <= |paths|
  {
    if n == 0 then {}
    else TopicSet(paths, n - 1) + Elems(Segments(paths[n - 1]))
  }

  /** `s` is a trimmed `/`-segment of one of the paths. */
  ghost predicate IsTopic(s: string, paths: seq<string>)
  {
    exists p :: p in paths && s in Segments(p)
  }

  /** The collected set holds exactly the segments of the paths. */
  lemma {:induction false} TopicSetMeans(paths: seq<string>, n: nat)
    requires n <= |paths|
    ensures forall s :: s in TopicSet(paths, n) <==> IsTopic(s, paths[..n])
  {
    if n > 0 {
      TopicSetMeans(paths, n - 1);
      assert paths[..n] == paths[..n - 1] + [paths[n - 1]];
      assert forall p :: p in paths[..n] <==> p in paths[..n - 1] || p == paths[n - 1];
    }
  }

  /** `getTopics`: the distinct trimmed segments of the paths, ascending. */
  method GetTopics(paths: seq<string>) returns (r: seq<string>)
    ensures StrictlyAscending(r)
    ensures forall s :: s in r <==> IsTopic(s, paths)
    ensures paths == [] ==> r == []
  {
    var topics: seq<string> := [];
    for i := 0 to |paths|
      invariant Distinct(topics)
      invariant forall s :: s in topics <==> s in TopicSet(paths, i)
    {
      topics := AddSegments(topics, paths[i]);
    }
    r := SortStrings(topics);
    SortedTopics(paths, topics, r);
    if r != [] {
      assert IsTopic(r[0], paths);
      var p :| p in paths && r[0] in Segments(p);
      assert paths != [];
    }
  }

  /** The inner loop of `getTopics`: `topics.add(part.trim())` for every
      part of `path.split('/')`. */
  method AddSegments(topics: seq<string>, path: string) returns (out: seq<string>)
    requires Distinct(topics)
    ensures Distinct(out)
    ensures forall s :: s in out <==> s in topics || s in Segments(path)
  {
    out := topics;
    var parts := Split(path, '/');
    ghost var segments := Segments(path);
    for j := 0 to |parts|
      invariant Distinct(out)
      invariant forall s :: s in out <==> s in topics || s in segments[..j]
    {
      var topic := Trim(parts[j]);
      ghost var before := out;
      if topic !in out {
        out := out + [topic];
      }
      AddStep(topics, before, segments, j, out);
    }
    assert segments[..|parts|] == segments;
  }

  /** One `add` of the next segment keeps the set equal to the segments
      added so far. */
  lemma AddStep(topics: seq<string>, out: seq<string>, segs: seq<string>, j: nat, out': seq<string>)
    requires j < |segs| && Distinct(out)
    requires forall s :: s in out <==> s in topics || s in segs[..j]
    requires out' == if segs[j] in out then out else out + [segs[j]]
    ensures Distinct(out')
    ensures forall s :: s in out' <==> s in topics || s in segs[..j + 1]
  {
    assert segs[..j + 1] == segs[..j] + [segs[j]];
  }

  lemma SortedTopics(paths: seq<string>, topics: seq<string>, r: seq<string>)
    requires forall s :: s in topics <==> s in TopicSet(paths, |paths|)
    requires multiset(r) == multiset(topics)
    ensures forall s :: s in r <==> IsTopic(s, paths)
  {
    assert paths[..|paths|] == paths;
    assert forall s :: s in r <==> s in multiset(topics);
    TopicSetMeans(paths, |paths|);
  }

  /** Every topic is trimmed and holds no `/`. */
  lemma TopicIsTrimmedSegment(s: string, paths: seq<string>)
    requires IsTopic(s, paths)
    ensures Trim(s) == s
    ensures '/' !in s
  {
    var p :| p in paths && s in Segments(p);
    var parts := Split(p, '/');
    var k :| 0 <= k < |parts| && Segments(p)[k] == s;
    TrimIdempotent(parts[k]);
    TrimKeepsAbsent(parts[k], '/');
  }

  /** Two lists of paths with the same elements have the same topics. */
  lemma TopicsOfSameElements(p1: seq<string>, p2: seq<string>)
    requires forall p :: p in p1 <==> p in p2
    ensures forall s :: IsTopic(s, p1) <==> IsTopic(s, p2)
  {
  }

  /** The order of the input paths, and repetitions among them, do not
      change the output of `getTopics`. */
  lemma TopicsIgnoreInputOrder(p1: seq<string>, p2: seq<string>, r1: seq<string>, r2: seq<string>)
    requires forall p :: p in p1 <==> p in p2
    requires StrictlyAscending(r1) && forall s :: s in r1 <==> IsTopic(s, p1)
    requires StrictlyAscending(r2) && forall s :: s in r2 <==> IsTopic(s, p2)
    ensures r1 == r2
  {
    TopicsOfSameElements(p1, p2);
    AscendingUnique(r1, r2);
  }
}
