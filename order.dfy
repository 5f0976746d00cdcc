/**
 * The order JavaScript's `Array.prototype.sort()` uses when it is given no
 * comparator and the elements are strings: lexicographic comparison of the
 * character sequences. Also the sorting of a duplicate-free array of
 * strings, which is all the markdown utilities sort.
 */
module Order {

  /** `a < b` on JavaScript strings: `a` is a proper prefix of `b`, or at
      the first position where they differ `a` has the smaller character. */
  predicate Less(a: string, b: string)
  {
    |b| > 0 && (|a| == 0 || a[0] < b[0] || (a[0] == b[0] && Less(a[1..], b[1..])))
  }

  lemma {:induction false} LessIrreflexive(a: string)
    ensures !Less(a, a)
  {
    if |a| > 0 {
      LessIrreflexive(a[1..]);
    }
  }

  lemma {:induction false} LessTransitive(a: string, b: string, c: string)
    requires Less(a, b) && Less(b, c)
    ensures Less(a, c)
  {
    if |a| > 0 && a[0] == b[0] && b[0] == c[0] {
      LessTransitive(a[1..], b[1..], c[1..]);
    }
  }

  /** Any two different strings are ordered one way or the other. */
  lemma {:induction false} LessTotal(a: string, b: string)
    ensures a == b || Less(a, b) || Less(b, a)
  {
    if |a| > 0 && |b| > 0 && a[0] == b[0] {
      LessTotal(a[1..], b[1..]);
      if a[1..] == b[1..] {
        assert a == [a[0]] + a[1..] && b == [b[0]] + b[1..];
      }
    }
  }

  lemma LessAsymmetric(a: string, b: string)
    requires Less(a, b)
    ensures !Less(b, a)
  {
    if Less(b, a) {
      LessTransitive(a, b, a);
      LessIrreflexive(a);
    }
  }

  /** Every element comes before every later element; the shape of the
      output of `Array.from(set).sort()`. */
  ghost predicate StrictlyAscending(xs: seq<string>)
  {
    forall i, j :: 0 <= i < j < |xs| ==> Less(xs[i], xs[j])
  }

  ghost predicate Distinct<T>(xs: seq<T>)
  {
    forall i, j :: 0 <= i < j < |xs| ==> xs[i] != xs[j]
  }

  lemma AscendingIsDistinct(xs: seq<string>)
    requires StrictlyAscending(xs)
    ensures Distinct(xs)
  {
    forall i, j | 0 <= i < j < |xs| ensures xs[i] != xs[j] {
      LessIrreflexive(xs[i]);
    }
  }

  /** Inserts `x` into an ascending sequence at its place. */
  function Insert(x: string, xs: seq<string>): (r: seq<string>)
    ensures multiset(r) == multiset(xs) + multiset{x}
    ensures StrictlyAscending(xs) && x !in xs ==> StrictlyAscending(r)
  {
    if xs == [] then [x]
    else if !Less(xs[0], x) then
      InsertFirst(x, xs); [x] + xs
    else
      var t := Insert(x, xs[1..]);
      assert xs == [xs[0]] + xs[1..];
      InsertLater(x, xs, t); [xs[0]] + t
  }

  lemma InsertFirst(x: string, xs: seq<string>)
    requires xs != [] && !Less(xs[0], x)
    ensures StrictlyAscending(xs) && x !in xs ==> StrictlyAscending([x] + xs)
  {
    if !StrictlyAscending(xs) || x in xs { return; }
    LessTotal(x, xs[0]);
    forall j | 0 < j < |xs| ensures Less(x, xs[j]) {
      LessTransitive(x, xs[0], xs[j]);
    }
  }

  lemma InsertLater(x: string, xs: seq<string>, t: seq<string>)
    requires xs != [] && Less(xs[0], x)
    requires multiset(t) == multiset(xs[1..]) + multiset{x}
    ensures StrictlyAscending(xs) && StrictlyAscending(t) ==> StrictlyAscending([xs[0]] + t)
  {
    if !StrictlyAscending(xs) || !StrictlyAscending(t) { return; }
    forall j | 0 <= j < |t| ensures Less(xs[0], t[j]) {
      assert t[j] in multiset(t);
      if t[j] != x {
        assert t[j] in xs[1..];
      }
    }
  }

  /** `xs.sort()`: a rearrangement of `xs` that, when `xs` has no
      duplicates, is strictly ascending. */
  function SortStrings(xs: seq<string>): (r: seq<string>)
    ensures multiset(r) == multiset(xs)
    ensures Distinct(xs) ==> StrictlyAscending(r)
  {
    if xs == [] then []
    else
      var t := SortStrings(xs[1..]);
      assert xs == [xs[0]] + xs[1..];
      assert Distinct(xs) ==> Distinct(xs[1..]) && xs[0] !in multiset(t);
      Insert(xs[0], t)
  }

  lemma SameElementsEmpty(a: seq<string>, b: seq<string>)
    requires forall s :: s in a <==> s in b
    ensures a == [] <==> b == []
  {
    if a != [] {
      assert a[0] in b;
    }
    if b != [] {
      assert b[0] in a;
    }
  }

  /** A strictly ascending sequence is determined by its elements, so the
      sorted output does not depend on the order the elements came in. */
  lemma {:induction false} AscendingUnique(a: seq<string>, b: seq<string>)
    requires StrictlyAscending(a) && StrictlyAscending(b)
    requires forall s :: s in a <==> s in b
    ensures a == b
  {
    SameElementsEmpty(a, b);
    if a != [] {
      assert a[0] in b && b[0] in a;
      var k :| 0 <= k < |b| && b[k] == a[0];
      var j :| 0 <= j < |a| && a[j] == b[0];
      if k > 0 && j > 0 {
        LessAsymmetric(b[0], a[0]);
        assert false;
      }
      assert a[0] == b[0];
      forall s | s in a[1..] ensures s in b[1..] {
        var i :| 1 <= i < |a| && a[i] == s;
        assert Less(a[0], a[i]);
        LessIrreflexive(s);
        assert s in b;
        var m :| 0 <= m < |b| && b[m] == s;
        assert m != 0;
      }
      forall s | s in b[1..] ensures s in a[1..] {
        var i :| 1 <= i < |b| && b[i] == s;
        assert Less(b[0], b[i]);
        LessIrreflexive(s);
        assert s in a;
        var m :| 0 <= m < |a| && a[m] == s;
        assert m != 0;
      }
      AscendingUnique(a[1..], b[1..]);
      assert a == [a[0]] + a[1..] && b == [b[0]] + b[1..];
    }
  }
}
