/** In-place sorting by a caller-supplied "less" function, the contract of
    Go's `sort.Sort` over a `Less`/`Swap` pair. Go's algorithm is a library
    detail; an insertion sort by adjacent swaps stands in for it. */
module Sorting {

  /** `lt` is asymmetric and its complement is transitive: the two
      properties Go's `sort.Sort` needs from `Less`. */
  ghost predicate StrictWeakOrder<T(!new)>(lt: (T, T) -> bool) {
    && (forall x, y :: lt(x, y) ==> !lt(y, x))
    && (forall x, y, z :: !lt(y, x) && !lt(z, y) ==> !lt(z, x))
  }

  /** No element is less than an element before it. */
  ghost predicate SortedBy<T>(s: seq<T>, lt: (T, T) -> bool) {
    forall i, j :: 0 <= i < j < |s| ==> !lt(s[j], s[i])
  }

  method InsertionSort<T(!new)>(a: array<T>, lt: (T, T) -> bool)
    requires StrictWeakOrder(lt)
    modifies a
    ensures SortedBy(a[..], lt)
    ensures multiset(a[..]) == old(multiset(a[..]))
  {
    if a.Length == 0 {
      return;
    }
    var i := 1;
    while i < a.Length
      invariant 1 <= i <= a.Length
      invariant SortedBy(a[..i], lt)
      invariant multiset(a[..]) == old(multiset(a[..]))
    {
      Insert(a, i, lt);
      i := i + 1;
    }
    assert a[..] == a[..a.Length];
  }

  /** Moves `a[i]` left past every element of the sorted `a[..i]` that is
      greater than it, so that `a[..i + 1]` is sorted. */
  method Insert<T(!new)>(a: array<T>, i: int, lt: (T, T) -> bool)
    requires StrictWeakOrder(lt)
    requires 0 < i < a.Length && SortedBy(a[..i], lt)
    modifies a
    ensures SortedBy(a[..i + 1], lt)
    ensures multiset(a[..]) == old(multiset(a[..]))
    ensures a[i + 1..] == old(a[i + 1..])
  {
    var j := i;
    while j > 0 && lt(a[j], a[j - 1])
      invariant 0 <= j <= i
      invariant multiset(a[..]) == old(multiset(a[..]))
      invariant forall k :: i < k < a.Length ==> a[k] == old(a[k])
      invariant SortedExcept(a[..i + 1], j, lt)
    {
      ghost var before := a[..i + 1];
      a[j - 1], a[j] := a[j], a[j - 1];
      SwapKeepsSortedExcept(before, j, lt);
      assert a[..i + 1] == before[j - 1 := before[j]][j := before[j - 1]];
      j := j - 1;
    }
    SortedExceptDone(a[..i + 1], j, lt);
  }

  /** `s` is sorted except at `j`, where an element smaller than everything
      after it sits. */
  ghost predicate SortedExcept<T>(s: seq<T>, j: int, lt: (T, T) -> bool)
    requires 0 <= j < |s|
  {
    && (forall k, l :: 0 <= k < l < |s| && k != j && l != j ==> !lt(s[l], s[k]))
    && (forall k, l :: 0 <= k < j < l < |s| ==> !lt(s[l], s[k]))
    && (forall l :: j < l < |s| ==> lt(s[j], s[l]))
  }

  lemma SwapKeepsSortedExcept<T(!new)>(s: seq<T>, j: int, lt: (T, T) -> bool)
    requires StrictWeakOrder(lt)
    requires 0 < j < |s| && SortedExcept(s, j, lt) && lt(s[j], s[j - 1])
    ensures SortedExcept(s[j - 1 := s[j]][j := s[j - 1]], j - 1, lt)
  {
  }

  lemma SortedExceptDone<T(!new)>(s: seq<T>, j: int, lt: (T, T) -> bool)
    requires StrictWeakOrder(lt)
    requires 0 <= j < |s| && SortedExcept(s, j, lt)
    requires j == 0 || !lt(s[j], s[j - 1])
    ensures SortedBy(s, lt)
  {
  }
}
