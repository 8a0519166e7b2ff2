/**
 * Go's `sort.Slice(x, less)`: sorts a slice in place so that no element is
 * `less` than one before it.  Go requires `less` to be a strict weak order and
 * promises neither stability nor a particular order among equivalent elements;
 * the model sorts by insertion, and its contract promises no more than Go's.
 */
module Sorting {

  /** Asymmetric and negatively transitive: Go's requirement on `less`. */
  ghost predicate StrictWeakOrder<T(!new)>(less: (T, T) -> bool)
  {
    && (forall x, y :: less(x, y) ==> !less(y, x))
    && (forall x, y, z :: !less(x, y) && !less(y, z) ==> !less(x, z))
  }

  /** No element is `less` than an element before it. */
  ghost predicate SortedBy<T>(s: seq<T>, less: (T, T) -> bool)
  {
    forall i, j :: 0 <= i < j < |s| ==> !less(s[j], s[i])
  }

  method Swap<T>(a: array<T>, i: int, j: int)
    requires 0 <= i < a.Length && 0 <= j < a.Length
    modifies a
    ensures a[..] == old(a[..])[i := old(a[j])][j := old(a[i])]
    ensures multiset(a[..]) == old(multiset(a[..]))
  {
    a[i], a[j] := a[j], a[i];
  }

  method SortSlice<T(!new)>(a: array<T>, less: (T, T) -> bool)
    requires StrictWeakOrder(less)
    modifies a
    ensures SortedBy(a[..], less)
    ensures multiset(a[..]) == old(multiset(a[..]))
  {
    var n := 0;
    while n < a.Length
      invariant 0 <= n <= a.Length
      invariant SortedBy(a[..n], less)
      invariant multiset(a[..]) == old(multiset(a[..]))
    {
      var j := n;
      // a[..j] and a[j+1..n+1] are sorted, and a[j] belongs before everything in a[j+1..n+1]
      while j > 0 && less(a[j], a[j - 1])
        invariant 0 <= j <= n
        invariant forall x, y :: 0 <= x < y <= n && y != j && x != j ==> !less(a[y], a[x])
        invariant forall y :: j < y <= n ==> less(a[j], a[y])
        invariant multiset(a[..]) == old(multiset(a[..]))
      {
        Swap(a, j - 1, j);
        j := j - 1;
      }
      n := n + 1;
    }
  }
}
