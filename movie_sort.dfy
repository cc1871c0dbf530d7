/** `searchResults.sort(comparator)` (backend/routes/movies.js), which sorts
    the array in place. The model sorts by insertion with adjacent swaps and
    promises the order and the permutation; which of two equal movies comes
    first is not part of its contract. */
module MovieSort {
  import opened Movies

  method SwapDown(a: array<Movie>, j: int)
    requires 0 < j < a.Length
    modifies a
    ensures a[..] == old(a[..])[j - 1 := old(a[j])][j := old(a[j - 1])]
    ensures multiset(a[..]) == multiset(old(a[..]))
  {
    a[j - 1], a[j] := a[j], a[j - 1];
  }

  /** Sorts `a` by the field and direction of `o`; the result is a
      permutation of the input. */
  method SortInPlace(a: array<Movie>, o: SortOrder)
    modifies a
    ensures SortedBy(a[..], o)
    ensures multiset(a[..]) == multiset(old(a[..]))
  {
    var i := 0;
    while i < a.Length
      invariant 0 <= i <= a.Length
      invariant forall p, q :: 0 <= p < q < i ==> InOrder(a[p], a[q], o)
      invariant multiset(a[..]) == multiset(old(a[..]))
    {
      var j := i;
      while j > 0 && !InOrder(a[j - 1], a[j], o)
        invariant 0 <= j <= i
        invariant forall p, q :: 0 <= p < q <= i && p != j && q != j ==> InOrder(a[p], a[q], o)
        invariant forall q :: j < q <= i ==> InOrder(a[j], a[q], o)
        invariant multiset(a[..]) == multiset(old(a[..]))
      {
        SwapDown(a, j);
        j := j - 1;
      }
      i := i + 1;
    }
  }
}
