/** Orderings given as a "greater than" relation, the way the source's sort
    compares records (`curVal > nextVal`), and what it means for a sequence
    to be sorted under one. */
module Order {

  /** gt never holds both ways: at most one of two values is the greater. */
  ghost predicate Asymmetric<T(!new)>(gt: (T, T) -> bool) {
    forall x, y :: gt(x, y) ==> !gt(y, x)
  }

  /** "Not greater" is transitive, so gt is a strict weak order. */
  ghost predicate NegTransitive<T(!new)>(gt: (T, T) -> bool) {
    forall x, y, z :: !gt(x, y) && !gt(y, z) ==> !gt(x, z)
  }

  /** No neighbouring pair is out of order: what a bubble pass that swaps
      nothing has checked. */
  ghost predicate AdjacentSorted<T>(s: seq<T>, gt: (T, T) -> bool) {
    forall k :: 0 <= k < |s| - 1 ==> !gt(s[k], s[k + 1])
  }

  /** No pair is out of order: the sequence is non-decreasing. */
  ghost predicate Sorted<T>(s: seq<T>, gt: (T, T) -> bool) {
    forall i, j :: 0 <= i < j < |s| ==> !gt(s[i], s[j])
  }

  /** s with the values at k and k + 1 exchanged. */
  function Swap<T>(s: seq<T>, k: int): (r: seq<T>)
    requires 0 <= k < |s| - 1
    ensures |r| == |s|
  {
    s[k := s[k + 1]][k + 1 := s[k]]
  }

  /** How many values of s are below x. */
  function CountBelow<T>(x: T, s: seq<T>, gt: (T, T) -> bool): nat {
    if s == [] then 0 else (if gt(x, s[0]) then 1 else 0) + CountBelow(x, s[1..], gt)
  }

  /** The number of out-of-order pairs i < j of s. */
  function Inversions<T>(s: seq<T>, gt: (T, T) -> bool): nat {
    if s == [] then 0 else CountBelow(s[0], s[1..], gt) + Inversions(s[1..], gt)
  }

  // ---------------------------------------------------------------------
  // Adjacent swaps
  // ---------------------------------------------------------------------

  /** A swap only reorders values. */
  lemma SwapPermutes<T>(s: seq<T>, k: int)
    requires 0 <= k < |s| - 1
    ensures multiset(Swap(s, k)) == multiset(s)
  {
    var a, c := s[..k], s[k + 2..];
    assert s == a + [s[k], s[k + 1]] + c;
    assert Swap(s, k) == a + [s[k + 1], s[k]] + c;
    assert multiset([s[k], s[k + 1]]) == multiset([s[k + 1], s[k]]);
  }

  /** Counting values below x does not depend on their order. */
  lemma {:induction false} CountBelowSwap<T>(x: T, s: seq<T>, k: int, gt: (T, T) -> bool)
    requires 0 <= k < |s| - 1
    ensures CountBelow(x, Swap(s, k), gt) == CountBelow(x, s, gt)
    decreases k
  {
    var r := Swap(s, k);
    if k == 0 {
      assert r[1..][1..] == s[1..][1..];
      assert r[0] == s[1] && r[1..][0] == s[0];
    } else {
      assert r[0] == s[0];
      assert r[1..] == Swap(s[1..], k - 1);
      CountBelowSwap(x, s[1..], k - 1, gt);
    }
  }

  /** Swapping an out-of-order neighbouring pair removes exactly one inversion. */
  lemma {:induction false} SwapRemovesInversion<T>(s: seq<T>, k: int, gt: (T, T) -> bool)
    requires 0 <= k < |s| - 1
    requires gt(s[k], s[k + 1]) && !gt(s[k + 1], s[k])
    ensures Inversions(Swap(s, k), gt) == Inversions(s, gt) - 1
    decreases k
  {
    var r := Swap(s, k);
    if k == 0 {
      var t := s[2..];
      assert s[1..] == [s[1]] + t && s[1..][1..] == t;
      assert r[1..] == [s[0]] + t && r[1..][1..] == t;
    } else {
      assert r[0] == s[0];
      assert r[1..] == Swap(s[1..], k - 1);
      CountBelowSwap(s[0], s[1..], k - 1, gt);
      SwapRemovesInversion(s[1..], k - 1, gt);
    }
  }

  /** With a strict weak order, checking neighbours is enough. */
  lemma AdjacentSortedIsSorted<T(!new)>(s: seq<T>, gt: (T, T) -> bool)
    requires NegTransitive(gt)
    requires AdjacentSorted(s, gt)
    ensures Sorted(s, gt)
  {
    forall i, j | 0 <= i < j < |s| ensures !gt(s[i], s[j]) {
      var m := i;
      while m < j
        invariant i <= m <= j
        invariant !gt(s[i], s[m]) || m == i
      {
        if m > i {
          assert !gt(s[m], s[m + 1]);
        }
        m := m + 1;
      }
    }
  }

  // ---------------------------------------------------------------------
  // An in-memory sort
  // ---------------------------------------------------------------------

  /** Inserts x into sorted s before the first value not below it. */
  function InsertSorted<T>(x: T, s: seq<T>, gt: (T, T) -> bool): (r: seq<T>)
    ensures multiset(r) == multiset(s) + multiset{x}
  {
    if s == [] then [x]
    else if !gt(x, s[0]) then [x] + s
    else
      assert s == [s[0]] + s[1..];
      [s[0]] + InsertSorted(x, s[1..], gt)
  }

  /** Insertion sort. */
  function SortSeq<T>(s: seq<T>, gt: (T, T) -> bool): (r: seq<T>)
    ensures multiset(r) == multiset(s)
  {
    if s == [] then []
    else
      assert s == [s[0]] + s[1..];
      InsertSorted(s[0], SortSeq(s[1..], gt), gt)
  }

  lemma {:induction false} InsertSortedSorted<T(!new)>(x: T, s: seq<T>, gt: (T, T) -> bool)
    requires Asymmetric(gt) && NegTransitive(gt)
    requires Sorted(s, gt)
    ensures Sorted(InsertSorted(x, s, gt), gt)
    decreases |s|
  {
    if s != [] && gt(x, s[0]) {
      var t := InsertSorted(x, s[1..], gt);
      InsertSortedSorted(x, s[1..], gt);
      var r := [s[0]] + t;
      forall j | 0 < j < |r| ensures !gt(s[0], r[j]) {
        var y := r[j];
        assert y in multiset(t);
        assert y in multiset(s[1..]) || y == x;
        if y == x {
        } else {
          var m :| 0 <= m < |s[1..]| && s[1..][m] == y;
          assert s[m + 1] == y;
        }
      }
    }
  }

  /** SortSeq produces a sorted permutation. */
  lemma {:induction false} SortSeqSorted<T(!new)>(s: seq<T>, gt: (T, T) -> bool)
    requires Asymmetric(gt) && NegTransitive(gt)
    ensures Sorted(SortSeq(s, gt), gt)
    ensures multiset(SortSeq(s, gt)) == multiset(s)
    decreases |s|
  {
    if s != [] {
      SortSeqSorted(s[1..], gt);
      InsertSortedSorted(s[0], SortSeq(s[1..], gt), gt);
    }
  }

  /** Sorting what is already sorted changes nothing. */
  lemma {:induction false} SortSeqOfSorted<T>(s: seq<T>, gt: (T, T) -> bool)
    requires Sorted(s, gt)
    ensures SortSeq(s, gt) == s
    decreases |s|
  {
    if s != [] {
      SortSeqOfSorted(s[1..], gt);
      if |s| > 1 {
        assert !gt(s[0], s[1]);
        assert s[1..][0] == s[1];
      }
      assert s == [s[0]] + s[1..];
    }
  }

  /** gt relates any two different values one way or the other. */
  ghost predicate Total<T(!new)>(gt: (T, T) -> bool) {
    forall x, y :: x != y ==> gt(x, y) || gt(y, x)
  }

  /** Removing the same value from both sides keeps two multisets equal. */
  lemma MultisetCancel<T>(x: T, m: multiset<T>, n: multiset<T>)
    requires multiset{x} + m == multiset{x} + n
    ensures m == n
  {
    forall y ensures m[y] == n[y] {
      assert (multiset{x} + m)[y] == (multiset{x} + n)[y];
    }
  }

  /** Under a total order there is only one sorted arrangement of a multiset,
      so every sorting algorithm, stable or not, produces the same sequence. */
  lemma {:induction false} SortedPermutationUnique<T(!new)>(a: seq<T>, b: seq<T>, gt: (T, T) -> bool)
    requires Total(gt)
    requires Sorted(a, gt) && Sorted(b, gt)
    requires multiset(a) == multiset(b)
    ensures a == b
    decreases |a|
  {
    if a != [] {
      assert |b| == |multiset(b)| == |a|;
      assert a[0] in multiset(b) && b[0] in multiset(a);
      var j :| 0 <= j < |b| && b[j] == a[0];
      var i :| 0 <= i < |a| && a[i] == b[0];
      assert a[0] == b[0] by {
        if i != 0 && j != 0 {
          assert !gt(a[0], a[i]) && !gt(b[0], b[j]);
        }
      }
      assert multiset(a) == multiset{a[0]} + multiset(a[1..]) by {
        assert a == [a[0]] + a[1..];
      }
      assert multiset(b) == multiset{b[0]} + multiset(b[1..]) by {
        assert b == [b[0]] + b[1..];
      }
      MultisetCancel(a[0], multiset(a[1..]), multiset(b[1..]));
      SortedPermutationUnique(a[1..], b[1..], gt);
      assert a == [a[0]] + a[1..] && b == [b[0]] + b[1..];
    }
  }
}
