/** Sequence operations behind pandas' row selection, `sort_values`, `head` and group-key
    collection. pandas' default sort is not stable, so nothing here promises an order among ties. */
module Sequences {

  /** `a` is `b` with some elements deleted, the rest kept in order. */
  predicate Subsequence<T(==)>(a: seq<T>, b: seq<T>) {
    a == [] || (b != [] && ((a[0] == b[0] && Subsequence(a[1..], b[1..])) || Subsequence(a, b[1..])))
  }

  /** `before` orders every pair and is transitive: a total preorder. */
  ghost predicate TotalPreorder<T(!new)>(before: (T, T) -> bool) {
    && (forall a, b :: before(a, b) || before(b, a))
    && (forall a, b, c :: before(a, b) && before(b, c) ==> before(a, c))
  }

  ghost predicate SortedBy<T>(s: seq<T>, before: (T, T) -> bool) {
    forall i, j :: 0 <= i < j < |s| ==> before(s[i], s[j])
  }

  predicate NoDuplicates<T(==)>(s: seq<T>) {
    forall i, j :: 0 <= i < j < |s| ==> s[i] != s[j]
  }

  /** Inserts `x` before the first element it may precede. */
  function InsertBy<T(!new)>(x: T, s: seq<T>, before: (T, T) -> bool): (r: seq<T>)
    requires TotalPreorder(before)
    requires SortedBy(s, before)
    ensures multiset(r) == multiset(s) + multiset{x}
    ensures SortedBy(r, before)
  {
    if s == [] then [x]
    else if before(x, s[0]) then [x] + s
    else
      var tail := InsertBy(x, s[1..], before);
      InsertedAfterHead(x, s, tail, before);
      [s[0]] + tail
  }

  /** What is inserted into the tail of a sorted sequence, behind its head, stays behind the head. */
  lemma InsertedAfterHead<T(!new)>(x: T, s: seq<T>, tail: seq<T>, before: (T, T) -> bool)
    requires s != [] && before(s[0], x)
    requires SortedBy(s, before) && SortedBy(tail, before)
    requires multiset(tail) == multiset(s[1..]) + multiset{x}
    ensures multiset([s[0]] + tail) == multiset(s) + multiset{x}
    ensures SortedBy([s[0]] + tail, before)
  {
    assert s == [s[0]] + s[1..];
    forall k | 0 <= k < |tail| ensures before(s[0], tail[k]) {
      var y := tail[k];
      assert y in multiset(tail);
      if y != x {
        assert y in multiset(s[1..]);
        var i :| 0 <= i < |s[1..]| && s[1..][i] == y;
        assert s[i + 1] == y;
      }
    }
    var r := [s[0]] + tail;
    forall i, j | 0 <= i < j < |r| ensures before(r[i], r[j]) {
      if i > 0 { assert r[i] == tail[i - 1] && r[j] == tail[j - 1]; }
      else { assert r[j] == tail[j - 1]; }
    }
  }

  /** Insertion sort: a permutation of `s`, ordered by `before`. */
  function SortBy<T(!new)>(s: seq<T>, before: (T, T) -> bool): (r: seq<T>)
    requires TotalPreorder(before)
    ensures multiset(r) == multiset(s)
    ensures SortedBy(r, before)
  {
    if s == [] then []
    else
      assert s == [s[0]] + s[1..];
      InsertBy(s[0], SortBy(s[1..], before), before)
  }

  /** pandas' `head(n)`: the first `n` elements, or all of them when there are fewer. */
  function Head<T>(s: seq<T>, n: nat): (r: seq<T>)
    ensures |r| == if |s| < n then |s| else n
    ensures r == s[..|r|]
  {
    if |s| <= n then s else s[..n]
  }

  /** `Head` of a sorted sequence is sorted and takes nothing the sequence does not hold. */
  lemma HeadOfSorted<T>(s: seq<T>, n: nat, before: (T, T) -> bool)
    requires SortedBy(s, before)
    ensures SortedBy(Head(s, n), before)
    ensures multiset(Head(s, n)) <= multiset(s)
  {
    var h := Head(s, n);
    assert s == h + s[|h|..];
    assert multiset(s) == multiset(h) + multiset(s[|h|..]);
  }

  /** In a sorted sequence, everything left out by `Head` comes after everything kept. */
  lemma HeadKeepsFirst<T>(s: seq<T>, n: nat, before: (T, T) -> bool)
    requires SortedBy(s, before)
    ensures forall x, y :: x in Head(s, n) && y in multiset(s) - multiset(Head(s, n)) ==> before(x, y)
  {
    var h := Head(s, n);
    assert s == h + s[|h|..];
    forall x, y | x in h && y in multiset(s) - multiset(h) ensures before(x, y) {
      var i :| 0 <= i < |h| && h[i] == x;
      assert multiset(s) == multiset(h) + multiset(s[|h|..]);
      assert y in s[|h|..];
      var j :| 0 <= j < |s[|h|..]| && s[|h|..][j] == y;
      assert s[i] == x && s[|h| + j] == y;
    }
  }

  /** The distinct elements of `s`, each once, in order of first occurrence. */
  function Distinct<T(==)>(s: seq<T>): (r: seq<T>)
    ensures NoDuplicates(r)
    ensures forall i :: 0 <= i < |r| ==> r[i] in s
    ensures forall i :: 0 <= i < |s| ==> s[i] in r
    ensures |r| <= |s|
  {
    if s == [] then []
    else
      var d := Distinct(s[..|s| - 1]);
      var last := s[|s| - 1];
      assert s == s[..|s| - 1] + [last];
      if last in d then d else d + [last]
  }

  /** A sequence without duplicates has as many elements as its set. */
  lemma DistinctSameElements<T>(s: seq<T>)
    ensures forall x :: x in Distinct(s) <==> x in s
  {
    var r := Distinct(s);
    forall x ensures x in r <==> x in s {
      if x in r { var i :| 0 <= i < |r| && r[i] == x; }
      if x in s { var i :| 0 <= i < |s| && s[i] == x; }
    }
  }

  /** Two sequences holding the same multiset hold the same elements. */
  lemma SameElements<T>(a: seq<T>, b: seq<T>)
    requires multiset(a) == multiset(b)
    ensures forall x :: x in a <==> x in b
  {
    forall x ensures x in a <==> x in b {
      assert x in a <==> x in multiset(a);
      assert x in b <==> x in multiset(b);
    }
  }

  lemma {:induction false} NoDuplicatesCardinality<T>(s: seq<T>)
    requires NoDuplicates(s)
    ensures |set x | x in s| == |s|
  {
    if s != [] {
      var t := s[1..];
      NoDuplicatesCardinality(t);
      assert (set x | x in s) == (set x | x in t) + {s[0]};
    }
  }

  /** A permutation of a sequence without duplicates has none either. */
  lemma PermutationNoDuplicates<T>(s: seq<T>, r: seq<T>)
    requires NoDuplicates(s) && multiset(r) == multiset(s)
    ensures NoDuplicates(r)
  {
    forall i, j | 0 <= i < j < |r| ensures r[i] != r[j] {
      if r[i] == r[j] {
        assert r == r[..i] + [r[i]] + r[i + 1..j] + [r[j]] + r[j + 1..];
        assert multiset(r)[r[i]] >= 2;
        MultiplicityAtMostOne(s, r[i]);
      }
    }
  }

  lemma {:induction false} MultiplicityAtMostOne<T>(s: seq<T>, x: T)
    requires NoDuplicates(s)
    ensures multiset(s)[x] <= 1
  {
    if s != [] {
      var t := s[1..];
      assert s == [s[0]] + t;
      assert NoDuplicates(t) by {
        forall i, j | 0 <= i < j < |t| ensures t[i] != t[j] { assert t[i] == s[i + 1] && t[j] == s[j + 1]; }
      }
      MultiplicityAtMostOne(t, x);
      if s[0] == x {
        assert x !in t;
      }
    }
  }
}
