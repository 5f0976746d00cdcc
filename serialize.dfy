/**
 * `createMarkdownFromBlocks`: a block tree back to markdown. A block is
 * written as its text followed, for each child in ascending `order`, by a
 * blank line and the child written the same way; only the whole result is
 * trimmed.
 *
 * `[...children].sort((a, b) => a.order - b.order)` is a stable sort (as
 * ECMAScript requires of `Array.prototype.sort`): children with equal
 * `order` keep their relative position.
 */
module Serialize {
  import opened Text
  import opened Types

  /** Orders never decrease along `bs`. */
  predicate Sorted(bs: seq<MdBlock>)
  {
    forall i, j :: 0 <= i < j < |bs| ==> bs[i].order <= bs[j].order
  }

  /** Places `c` after every block of the `order`-sorted `sorted` whose
      order is not greater than its own. */
  function InsertByOrder(c: MdBlock, sorted: seq<MdBlock>): (r: seq<MdBlock>)
    ensures multiset(r) == multiset(sorted) + multiset{c}
    ensures Sorted(sorted) ==> Sorted(r)
  {
    if sorted == [] then [c]
    else if c.order < sorted[0].order then
      InsertBefore(c, sorted); [c] + sorted
    else
      var t := InsertByOrder(c, sorted[1..]);
      InsertAfter(c, sorted, t); [sorted[0]] + t
  }

  lemma InsertBefore(c: MdBlock, sorted: seq<MdBlock>)
    requires sorted != [] && c.order < sorted[0].order
    ensures multiset([c] + sorted) == multiset(sorted) + multiset{c}
    ensures Sorted(sorted) ==> Sorted([c] + sorted)
  {
  }

  lemma InsertAfter(c: MdBlock, sorted: seq<MdBlock>, t: seq<MdBlock>)
    requires sorted != [] && sorted[0].order <= c.order
    requires multiset(t) == multiset(sorted[1..]) + multiset{c}
    ensures multiset([sorted[0]] + t) == multiset(sorted) + multiset{c}
    ensures Sorted(sorted) && Sorted(t) ==> Sorted([sorted[0]] + t)
  {
    assert sorted == [sorted[0]] + sorted[1..];
    if Sorted(sorted) && Sorted(t) {
      forall j | 0 <= j < |t| ensures sorted[0].order <= t[j].order {
        assert t[j] in multiset(t);
        if t[j] != c {
          assert t[j] in sorted[1..];
        }
      }
    }
  }

  /** `[...bs].sort((a, b) => a.order - b.order)` */
  function SortByOrder(bs: seq<MdBlock>): (r: seq<MdBlock>)
    ensures multiset(r) == multiset(bs)
    ensures Sorted(r)
  {
    if bs == [] then []
    else
      assert bs == bs[..|bs| - 1] + [bs[|bs| - 1]];
      InsertByOrder(bs[|bs| - 1], SortByOrder(bs[..|bs| - 1]))
  }

  /** The blocks of `bs` whose order is `v`, in the order of `bs`. */
  function WithOrder(bs: seq<MdBlock>, v: int): seq<MdBlock>
  {
    if bs == [] then []
    else (if bs[0].order == v then [bs[0]] else []) + WithOrder(bs[1..], v)
  }

  lemma {:induction false} WithOrderAppend(a: seq<MdBlock>, b: seq<MdBlock>, v: int)
    ensures WithOrder(a + b, v) == WithOrder(a, v) + WithOrder(b, v)
  {
    if a != [] {
      assert (a + b)[1..] == a[1..] + b;
      WithOrderAppend(a[1..], b, v);
    } else {
      assert a + b == b;
    }
  }

  /** `WithOrder` keeps exactly the blocks of order `v`. */
  lemma {:induction false} WithOrderMembers(bs: seq<MdBlock>, v: int)
    ensures forall c :: c in WithOrder(bs, v) <==> c in bs && c.order == v
  {
    if bs != [] {
      WithOrderMembers(bs[1..], v);
      assert bs == [bs[0]] + bs[1..];
    }
  }

  lemma {:induction false} WithOrderNone(bs: seq<MdBlock>, v: int)
    requires forall i :: 0 <= i < |bs| ==> bs[i].order != v
    ensures WithOrder(bs, v) == []
  {
    if bs != [] {
      WithOrderNone(bs[1..], v);
    }
  }

  /** Inserting `c` into a sorted sequence adds it after every block of its
      own order that was there before. */
  lemma {:induction false} InsertStable(c: MdBlock, sorted: seq<MdBlock>, v: int)
    requires Sorted(sorted)
    ensures WithOrder(InsertByOrder(c, sorted), v) == WithOrder(sorted + [c], v)
  {
    if sorted == [] {
      assert sorted + [c] == [c];
    } else if c.order < sorted[0].order {
      assert forall i :: 0 <= i < |sorted| ==> c.order < sorted[i].order by {
        forall i | 0 <= i < |sorted| ensures c.order < sorted[i].order {
          assert sorted[0].order <= sorted[i].order;
        }
      }
      BeforeAll(c, sorted, v);
      assert InsertByOrder(c, sorted) == [c] + sorted;
    } else {
      assert Sorted(sorted[1..]);
      InsertStable(c, sorted[1..], v);
      SameAfter(sorted[0], InsertByOrder(c, sorted[1..]), sorted[1..] + [c], v);
      assert InsertByOrder(c, sorted) == [sorted[0]] + InsertByOrder(c, sorted[1..]);
      assert sorted + [c] == [sorted[0]] + (sorted[1..] + [c]);
    }
  }

  /** A block ordered before all of `bs` is the only one of its order. */
  lemma BeforeAll(c: MdBlock, bs: seq<MdBlock>, v: int)
    requires forall i :: 0 <= i < |bs| ==> c.order < bs[i].order
    ensures WithOrder([c] + bs, v) == WithOrder(bs + [c], v)
  {
    WithOrderAppend([c], bs, v);
    WithOrderAppend(bs, [c], v);
    if c.order == v {
      WithOrderNone(bs, v);
    }
  }

  lemma SameAfter(b: MdBlock, t: seq<MdBlock>, u: seq<MdBlock>, v: int)
    requires WithOrder(t, v) == WithOrder(u, v)
    ensures WithOrder([b] + t, v) == WithOrder([b] + u, v)
  {
    WithOrderAppend([b], t, v);
    WithOrderAppend([b], u, v);
  }

  /** The sort is stable: for every order value, the blocks with that order
      come out in the sequence they went in. */
  lemma {:induction false} SortStable(bs: seq<MdBlock>, v: int)
    ensures WithOrder(SortByOrder(bs), v) == WithOrder(bs, v)
  {
    if bs != [] {
      var front, last := bs[..|bs| - 1], bs[|bs| - 1];
      assert bs == front + [last];
      SortStable(front, v);
      InsertStable(last, SortByOrder(front), v);
      WithOrderAppend(SortByOrder(front), [last], v);
      WithOrderAppend(front, [last], v);
    }
  }

  /** The sorted children are children. */
  lemma SortedAreChildren(block: MdBlock)
    ensures forall c :: c in SortByOrder(block.children) ==> c in block.children
  {
    var r := SortByOrder(block.children);
    forall c | c in r ensures c in block.children {
      assert c in multiset(r);
    }
  }

  /** The markdown `buildMarkdown(block)` returns: the text, then a blank
      line and the markdown of each child, in ascending `order`. */
  function Unserialized(block: MdBlock): string
    decreases block, 1
  {
    SortedAreChildren(block);
    block.text + Appended(block, SortByOrder(block.children))
  }

  /** `"\n\n" + buildMarkdown(child)` for each of `cs`, in turn. */
  function Appended(block: MdBlock, cs: seq<MdBlock>): string
    requires forall c :: c in cs ==> c in block.children
    decreases block, 0, |cs|
  {
    if cs == [] then ""
    else
      var child := cs[|cs| - 1];
      assert child in block.children;
      Appended(block, cs[..|cs| - 1]) + "\n\n" + Unserialized(child)
  }

  lemma AppendedStep(block: MdBlock, cs: seq<MdBlock>, i: nat, text: string, child: string)
    requires i < |cs| && forall c :: c in cs ==> c in block.children
    requires child == Unserialized(cs[i])
    ensures forall c :: c in cs[..i] ==> c in block.children
    ensures forall c :: c in cs[..i + 1] ==> c in block.children
    ensures text + Appended(block, cs[..i + 1]) == text + Appended(block, cs[..i]) + "\n\n" + child
  {
    assert cs[..i + 1][..i] == cs[..i];
  }

  /** `buildMarkdown` */
  method BuildMarkdown(block: MdBlock) returns (markdown: string)
    ensures markdown == Unserialized(block)
    decreases block, 1
  {
    markdown := block.text;
    if |block.children| > 0 {
      var sortedChildren := SortByOrder(block.children);
      SortedAreChildren(block);
      markdown := AppendChildren(block, sortedChildren, markdown);
    }
  }

  /** The loop of `buildMarkdown`: `markdown += '\n\n' + buildMarkdown(child)`
      for each child of `sortedChildren`, in turn. */
  method AppendChildren(block: MdBlock, sortedChildren: seq<MdBlock>, text: string)
    returns (markdown: string)
    requires forall c :: c in sortedChildren ==> c in block.children
    ensures markdown == text + Appended(block, sortedChildren)
    decreases block, 0
  {
    markdown := text;
    for i := 0 to |sortedChildren|
      invariant markdown == text + Appended(block, sortedChildren[..i])
    {
      assert sortedChildren[i] in block.children;
      var child := BuildMarkdown(sortedChildren[i]);
      AppendedStep(block, sortedChildren, i, text, child);
      markdown := markdown + "\n\n" + child;
    }
    assert sortedChildren[..|sortedChildren|] == sortedChildren;
  }

  /** `createMarkdownFromBlocks` */
  method CreateMarkdownFromBlocks(rootBlock: MdBlock) returns (markdown: string)
    ensures markdown == Trim(Unserialized(rootBlock))
    ensures markdown == [] || (!IsWhitespace(markdown[0]) && !IsWhitespace(markdown[|markdown| - 1]))
  {
    markdown := BuildMarkdown(rootBlock);
    markdown := Trim(markdown);
  }

  /** A block without children is written as its trimmed text. */
  lemma LeafMarkdown(block: MdBlock)
    requires block.children == []
    ensures Trim(Unserialized(block)) == Trim(block.text)
  {
    assert block.text + "" == block.text;
  }

  /** Already sorted children are not reordered: a block whose children are
      in ascending `order` is written child after child. */
  lemma {:induction false} SortedUnchanged(bs: seq<MdBlock>)
    requires Sorted(bs)
    ensures SortByOrder(bs) == bs
  {
    if bs != [] {
      SortedFront(bs);
      SortedUnchanged(bs[..|bs| - 1]);
      SortLast(bs);
    }
  }

  /** A block whose order is not below any of an already sorted front
      stays last. */
  lemma SortLast(bs: seq<MdBlock>)
    requires bs != []
    requires SortByOrder(bs[..|bs| - 1]) == bs[..|bs| - 1]
    requires AtMost(bs[..|bs| - 1], bs[|bs| - 1].order)
    ensures SortByOrder(bs) == bs
  {
    InsertLast(bs[|bs| - 1], bs[..|bs| - 1]);
    SnocLast(bs);
  }

  lemma SnocLast(bs: seq<MdBlock>)
    requires bs != []
    ensures bs[..|bs| - 1] + [bs[|bs| - 1]] == bs
  {
  }

  /** No block of `bs` has an order above `k`. */
  predicate AtMost(bs: seq<MdBlock>, k: int)
  {
    forall i :: 0 <= i < |bs| ==> bs[i].order <= k
  }

  lemma SortedFront(bs: seq<MdBlock>)
    requires bs != [] && Sorted(bs)
    ensures Sorted(bs[..|bs| - 1]) && AtMost(bs[..|bs| - 1], bs[|bs| - 1].order)
  {
    var front := bs[..|bs| - 1];
    forall i | 0 <= i < |front| ensures front[i] == bs[i] {
    }
  }

  lemma {:induction false} InsertLast(c: MdBlock, sorted: seq<MdBlock>)
    requires AtMost(sorted, c.order)
    ensures InsertByOrder(c, sorted) == sorted + [c]
  {
    if sorted != [] {
      assert AtMost(sorted[1..], c.order);
      InsertLast(c, sorted[1..]);
      assert sorted == [sorted[0]] + sorted[1..];
    }
  }

  /** No two of the blocks share an `order` (and none occurs twice). */
  ghost predicate DistinctOrders(bs: seq<MdBlock>)
  {
    && (forall x, y :: x in multiset(bs) && y in multiset(bs) && x != y ==> x.order != y.order)
    && (forall x :: multiset(bs)[x] <= 1)
  }

  lemma TwiceCountsTwice(bs: seq<MdBlock>, i: nat, j: nat)
    requires i < j < |bs|
    ensures multiset(bs)[bs[i]] >= 1 + multiset(bs[j..])[bs[i]]
  {
    assert bs == bs[..j] + bs[j..];
    assert bs[i] in bs[..j];
  }

  /** Orders strictly increase along `bs`. */
  predicate Ascending(bs: seq<MdBlock>)
  {
    forall i, j :: 0 <= i < j < |bs| ==> bs[i].order < bs[j].order
  }

  /** With distinct orders, a sorted sequence is strictly ascending. */
  lemma SortedStrictly(bs: seq<MdBlock>)
    requires Sorted(bs) && DistinctOrders(bs)
    ensures Ascending(bs)
  {
    forall i, j | 0 <= i < j < |bs| ensures bs[i].order < bs[j].order {
      if bs[i] == bs[j] {
        TwiceCountsTwice(bs, i, j);
      }
    }
  }

  /** Two strictly ascending sequences of the same blocks start alike. */
  lemma AscendingSameFirst(a: seq<MdBlock>, b: seq<MdBlock>)
    requires a != [] && b != []
    requires Ascending(a) && Ascending(b)
    requires multiset(a) == multiset(b)
    ensures a[0] == b[0]
  {
    assert a[0] in multiset(b) && b[0] in multiset(a);
    var k :| 0 <= k < |b| && b[k] == a[0];
    var m :| 0 <= m < |a| && a[m] == b[0];
    assert a[0].order <= a[m].order && b[0].order <= b[k].order;
  }

  /** Two strictly ascending sequences of the same blocks are equal. */
  lemma {:induction false} AscendingOrderUnique(a: seq<MdBlock>, b: seq<MdBlock>)
    requires Ascending(a) && Ascending(b)
    requires multiset(a) == multiset(b)
    ensures a == b
  {
    assert |multiset(a)| == |a| && |multiset(b)| == |b|;
    if a != [] {
      AscendingSameFirst(a, b);
      DropFirst(a);
      DropFirst(b);
      AscendingOrderUnique(a[1..], b[1..]);
      ConsEqual(a, b);
    }
  }

  lemma DropFirst(a: seq<MdBlock>)
    requires a != []
    ensures multiset(a[1..]) == multiset(a) - multiset{a[0]}
    ensures Ascending(a) ==> Ascending(a[1..])
  {
    assert a == [a[0]] + a[1..];
  }

  lemma ConsEqual(a: seq<MdBlock>, b: seq<MdBlock>)
    requires a != [] && b != [] && a[0] == b[0] && a[1..] == b[1..]
    ensures a == b
  {
    assert a == [a[0]] + a[1..] && b == [b[0]] + b[1..];
  }

  lemma {:induction false} AppendedSame(b1: MdBlock, b2: MdBlock, cs: seq<MdBlock>)
    requires forall c :: c in cs ==> c in b1.children && c in b2.children
    ensures Appended(b1, cs) == Appended(b2, cs)
    decreases |cs|
  {
    if cs != [] {
      AppendedSame(b1, b2, cs[..|cs| - 1]);
    }
  }

  /** The order in which the children come does not matter when no two of
      them share an `order`. */
  lemma ChildOrderIrrelevant(b1: MdBlock, b2: MdBlock)
    requires b1.text == b2.text && multiset(b1.children) == multiset(b2.children)
    requires DistinctOrders(b1.children)
    ensures Unserialized(b1) == Unserialized(b2)
  {
    var s1, s2 := SortByOrder(b1.children), SortByOrder(b2.children);
    assert s1 == s2 by {
      SortedStrictly(s1);
      SortedStrictly(s2);
      AscendingOrderUnique(s1, s2);
    }
    SortedAreChildren(b1);
    SortedAreChildren(b2);
    AppendedSame(b1, b2, s1);
  }
}
