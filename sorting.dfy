/** `result.sort(...)`: the filtered array reordered in place by the
    comparator of `Rows.Compare`. */
module Sorting {
  import opened Rows

  /** Every earlier row may stand before every later one. */
  ghost predicate SortedBy(s: seq<Row>, k: SortKey, d: Dir) {
    forall i, j :: 0 <= i < j < |s| ==> InOrder(k, d, s[i], s[j])
  }

  /** The row at `i` may stand after its predecessor. */
  ghost predicate StepInOrder(s: seq<Row>, k: SortKey, d: Dir, i: int) {
    0 < i < |s| && InOrder(k, d, s[i - 1], s[i])
  }

  /** Every row may stand before its successor. */
  ghost predicate AdjacentInOrder(s: seq<Row>, k: SortKey, d: Dir) {
    forall i :: 0 < i < |s| ==> StepInOrder(s, k, d, i)
  }

  /** Neighbours in order means every pair in order, since `InOrder` is transitive. */
  lemma {:induction false} AdjacentToSorted(s: seq<Row>, k: SortKey, d: Dir)
    requires AdjacentInOrder(s, k, d)
    ensures SortedBy(s, k, d)
    decreases |s|
  {
    if |s| > 1 {
      var n := |s|;
      var p := s[..n - 1];
      forall i | 0 < i < n - 1 ensures StepInOrder(p, k, d, i) {
        assert StepInOrder(s, k, d, i);
      }
      AdjacentToSorted(p, k, d);
      forall i, j | 0 <= i < j < n ensures InOrder(k, d, s[i], s[j]) {
        if j < n - 1 {
          assert s[i] == p[i] && s[j] == p[j];
        } else if i == n - 2 {
          assert StepInOrder(s, k, d, n - 1);
        } else {
          assert InOrder(k, d, p[i], p[n - 2]);
          assert StepInOrder(s, k, d, n - 1);
          InOrderTransitive(k, d, s[i], s[n - 2], s[n - 1]);
        }
      }
    }
  }

  /** Sorted under `Asc` is non-decreasing key; under `Desc`, non-increasing. */
  lemma SortedMeaning(s: seq<Row>, k: SortKey, d: Dir)
    ensures d == Asc ==> (SortedBy(s, k, d) <==>
      forall i, j :: 0 <= i < j < |s| ==> !KeyLess(KeyOf(s[j], k), KeyOf(s[i], k)))
    ensures d == Desc ==> (SortedBy(s, k, d) <==>
      forall i, j :: 0 <= i < j < |s| ==> !KeyLess(KeyOf(s[i], k), KeyOf(s[j], k)))
  {
    forall i, j | 0 <= i < j < |s| {
      InOrderMeaning(k, d, s[i], s[j]);
    }
  }

  /** Exchanges `a[j - 1]` and `a[j]`. */
  method SwapDown(a: array<Row>, j: int)
    requires 0 < j < a.Length
    modifies a
    ensures a[j - 1] == old(a[j]) && a[j] == old(a[j - 1])
    ensures forall m :: 0 <= m < a.Length && m != j - 1 && m != j ==> a[m] == old(a[m])
    ensures multiset(a[..]) == multiset(old(a[..]))
  {
    a[j - 1], a[j] := a[j], a[j - 1];
  }

  /** Exchanging a row with a predecessor that must follow it keeps the
      insertion pass's invariant, one position further left. */
  lemma SwapKeepsSteps(b: seq<Row>, c: seq<Row>, i: int, j: int, k: SortKey, d: Dir)
    requires 0 < j <= i < |b|
    requires c == b[j - 1 := b[j]][j := b[j - 1]]
    requires Compare(k, d, b[j - 1], b[j]) > 0
    requires forall m :: 0 < m < j ==> StepInOrder(b, k, d, m)
    requires forall m :: j < m <= i ==> StepInOrder(b, k, d, m)
    requires 0 < j < i ==> InOrder(k, d, b[j - 1], b[j + 1])
    ensures forall m :: 0 < m < j - 1 ==> StepInOrder(c, k, d, m)
    ensures forall m :: j - 1 < m <= i ==> StepInOrder(c, k, d, m)
    ensures 0 < j - 1 < i ==> InOrder(k, d, c[j - 2], c[j])
  {
    CompareFlip(k, d, b[j - 1], b[j]);
    forall m | 0 < m < j - 1 || j < m <= i ensures StepInOrder(c, k, d, m) {
      if m == j + 1 {
        assert c[m] == b[m];
      } else {
        assert StepInOrder(b, k, d, m);
      }
    }
    if j > 1 {
      assert StepInOrder(b, k, d, j - 1);
    }
  }

  /** Exchanging two neighbours inside `b[..i + 1]` permutes that prefix and
      leaves what follows it alone. */
  lemma SwapStaysInPrefix(b: seq<Row>, c: seq<Row>, i: int, j: int)
    requires 0 < j <= i < |b|
    requires c == b[j - 1 := b[j]][j := b[j - 1]]
    ensures c[i + 1..] == b[i + 1..]
    ensures multiset(c[..i + 1]) == multiset(b[..i + 1])
  {
    assert c[..i + 1] == b[..i + 1][j - 1 := b[j]][j := b[j - 1]];
  }

  /** One pass of insertion sort: moves `a[i]` left past every row that must
      follow it, so that `a[..i + 1]` is in order. It only reorders
      `a[..i + 1]` and leaves the rest of the array alone. */
  method InsertAt(a: array<Row>, i: int, k: SortKey, d: Dir)
    requires 0 < i < a.Length
    requires forall m :: 0 < m < i ==> StepInOrder(a[..], k, d, m)
    modifies a
    ensures forall m :: 0 < m <= i ==> StepInOrder(a[..], k, d, m)
    ensures a[i + 1..] == old(a[i + 1..])
    ensures multiset(a[..i + 1]) == multiset(old(a[..i + 1]))
    ensures multiset(a[..]) == multiset(old(a[..]))
  {
    var j := i;
    while j > 0 && Compare(k, d, a[j - 1], a[j]) > 0
      invariant 0 <= j <= i
      invariant forall m :: 0 < m < j ==> StepInOrder(a[..], k, d, m)
      invariant forall m :: j < m <= i ==> StepInOrder(a[..], k, d, m)
      invariant 0 < j < i ==> InOrder(k, d, a[j - 1], a[j + 1])
      invariant a[i + 1..] == old(a[i + 1..])
      invariant multiset(a[..i + 1]) == multiset(old(a[..i + 1]))
    {
      ghost var b := a[..];
      SwapDown(a, j);
      assert a[..] == b[j - 1 := b[j]][j := b[j - 1]];
      SwapStaysInPrefix(b, a[..], i, j);
      SwapKeepsSteps(b, a[..], i, j, k, d);
      j := j - 1;
    }
    if j > 0 {
      assert StepInOrder(a[..], k, d, j);
    }
    assert a[..] == a[..i + 1] + a[i + 1..];
    assert old(a[..]) == old(a[..i + 1]) + old(a[i + 1..]);
  }

  /** Insertion sort with `DataTablePage`'s comparator: afterwards the array is
      sorted and holds the same rows. */
  method SortRows(a: array<Row>, k: SortKey, d: Dir)
    modifies a
    ensures SortedBy(a[..], k, d)
    ensures multiset(a[..]) == multiset(old(a[..]))
  {
    if a.Length == 0 {
      return;
    }
    var i := 1;
    while i < a.Length
      invariant 1 <= i <= a.Length
      invariant forall m :: 0 < m < i ==> StepInOrder(a[..], k, d, m)
      invariant multiset(a[..]) == multiset(old(a[..]))
    {
      InsertAt(a, i, k, d);
      i := i + 1;
    }
    AdjacentToSorted(a[..], k, d);
  }
}
