/** The three in-place comparison sorts of DSAsorts.py.  Python compares the
    elements with `<` and `>`; here the comparison is the parameter `less`,
    which must be a strict weak order (as Python's `<` is on strings and on
    numbers).  Each sort rearranges the array it is given and hands the same
    array back. */
module Sorts {

  /** Irreflexive and transitive, and "not less" is transitive too. */
  ghost predicate StrictWeakOrder<T(!new)>(less: (T, T) -> bool)
  {
    && (forall a :: !less(a, a))
    && (forall a, b, c :: less(a, b) && less(b, c) ==> less(a, c))
    && (forall a, b, c :: !less(b, a) && !less(c, b) ==> !less(c, a))
  }

  /** No element is less than one before it. */
  ghost predicate SortedBy<T>(s: seq<T>, less: (T, T) -> bool)
  {
    forall k, m | 0 <= k < m < |s| :: !less(s[m], s[k])
  }

  /** Neighbours in order means every pair in order. */
  lemma {:induction false} AdjacentInOrder<T(!new)>(s: seq<T>, less: (T, T) -> bool)
    requires StrictWeakOrder(less)
    requires forall k | 0 <= k < |s| - 1 :: !less(s[k + 1], s[k])
    ensures SortedBy(s, less)
  {
    if |s| > 1 {
      AdjacentInOrder(s[1..], less);
      forall k, m | 0 <= k < m < |s| ensures !less(s[m], s[k]) {
        assert !less(s[1..][m - 1], s[1]);
        if k > 0 {
          assert !less(s[1..][m - 1], s[1..][k - 1]);
        }
      }
    }
  }

  /** Python's tuple swap `A[i], A[j] = A[j], A[i]`: exchanges two cells and
      so keeps the array's multiset of elements. */
  method Swap<T>(A: array<T>, i: int, j: int)
    requires 0 <= i < A.Length && 0 <= j < A.Length
    modifies A
    ensures A[i] == old(A[j]) && A[j] == old(A[i])
    ensures forall k | 0 <= k < A.Length && k != i && k != j :: A[k] == old(A[k])
    ensures multiset(A[..]) == multiset(old(A[..]))
  {
    ghost var before := A[..];
    A[i], A[j] := A[j], A[i];
    assert A[..] == before[i := before[j]][j := before[i]];
  }

  /** Repeated passes that swap out-of-order neighbours, each pass one shorter,
      until a pass makes no swap. */
  method BubbleSort<T(!new)>(A: array<T>, less: (T, T) -> bool) returns (r: array<T>)
    requires StrictWeakOrder(less)
    modifies A
    ensures r == A
    ensures SortedBy(A[..], less)
    ensures multiset(A[..]) == multiset(old(A[..]))
  {
    var n: int := A.Length;
    var done := false;
    while !done
      invariant -1 <= n <= A.Length
      invariant !done ==> 0 <= n
      invariant multiset(A[..]) == multiset(old(A[..]))
      // the part from `n` on is final: in order, and nothing before it is larger
      invariant forall k, m | 0 <= k && n <= k < m < A.Length :: !less(A[m], A[k])
      invariant forall k, m | 0 <= k < n <= m < A.Length :: !less(A[m], A[k])
      invariant done ==> SortedBy(A[..], less)
      decreases n + 1
    {
      done := BubblePass(A, n, less);
      if done {
        AdjacentInOrder(A[..n], less);
        assert forall k | 0 <= k < n :: A[..n][k] == A[k];
      }
      n := n - 1;
    }
    return A;
  }

  /** One pass of the bubble sort over A[0..n]: the largest of them ends at
      A[n - 1], and a pass without a swap finds them already in order.  Nothing
      at or beyond `n` moves. */
  method BubblePass<T(!new)>(A: array<T>, n: int, less: (T, T) -> bool) returns (done: bool)
    requires StrictWeakOrder(less)
    requires 0 <= n <= A.Length
    requires forall k, m | 0 <= k < n <= m < A.Length :: !less(A[m], A[k])
    modifies A
    ensures multiset(A[..]) == multiset(old(A[..]))
    ensures forall k | n <= k < A.Length :: A[k] == old(A[k])
    ensures forall k, m | 0 <= k < n <= m < A.Length :: !less(A[m], A[k])
    ensures forall k | 0 <= k < n :: !less(A[n - 1], A[k])
    ensures done ==> forall k | 0 <= k < n - 1 :: !less(A[k + 1], A[k])
    ensures !done ==> 2 <= n
  {
    done := true;
    var i := 0;
    while i < n - 1
      invariant 0 <= i <= if n - 1 < 0 then 0 else n - 1
      invariant multiset(A[..]) == multiset(old(A[..]))
      invariant forall k | n <= k < A.Length :: A[k] == old(A[k])
      invariant forall k, m | 0 <= k < n <= m < A.Length :: !less(A[m], A[k])
      // A[i] is the largest of A[0..i]
      invariant forall k | 0 <= k < i :: !less(A[i], A[k])
      invariant done ==> forall k | 0 <= k < i :: !less(A[k + 1], A[k])
      invariant !done ==> 2 <= n
    {
      if less(A[i + 1], A[i]) {
        Swap(A, i, i + 1);
        done := false;
      }
      i := i + 1;
    }
  }

  /** Each element in turn is swapped leftwards past every larger neighbour. */
  method InsertionSort<T(!new)>(A: array<T>, less: (T, T) -> bool) returns (r: array<T>)
    requires StrictWeakOrder(less)
    modifies A
    ensures r == A
    ensures SortedBy(A[..], less)
    ensures multiset(A[..]) == multiset(old(A[..]))
  {
    var n := A.Length;
    var i := 1;
    while i < n
      invariant 1 <= i && (i <= n || n == 0)
      invariant multiset(A[..]) == multiset(old(A[..]))
      invariant forall k, m | 0 <= k < m < i && m < n :: !less(A[m], A[k])
    {
      var ii := i;
      while ii > 0 && less(A[ii], A[ii - 1])
        invariant 0 <= ii <= i
        invariant multiset(A[..]) == multiset(old(A[..]))
        // A[0..i+1] is in order apart from the element being inserted, which
        // is no larger than anything it has passed
        invariant forall k, m | 0 <= k < m <= i && k != ii && m != ii :: !less(A[m], A[k])
        invariant forall m | ii < m <= i :: !less(A[m], A[ii])
      {
        Swap(A, ii, ii - 1);
        ii := ii - 1;
      }
      i := i + 1;
    }
    return A;
  }

  /** Each position in turn receives the smallest element of the rest. */
  method SelectionSort<T(!new)>(A: array<T>, less: (T, T) -> bool) returns (r: array<T>)
    requires StrictWeakOrder(less)
    modifies A
    ensures r == A
    ensures SortedBy(A[..], less)
    ensures multiset(A[..]) == multiset(old(A[..]))
  {
    var n := A.Length;
    for i := 0 to n
      invariant multiset(A[..]) == multiset(old(A[..]))
      invariant forall k, m | 0 <= k < m < i :: !less(A[m], A[k])
      invariant forall k, m | 0 <= k < i <= m < n :: !less(A[m], A[k])
    {
      var minIdx := i;
      for j := i + 1 to n
        invariant i <= minIdx < j
        invariant forall m | i <= m < j :: !less(A[m], A[minIdx])
      {
        if less(A[j], A[minIdx]) {
          minIdx := j;
        }
      }
      Swap(A, i, minIdx);
    }
    return A;
  }
}
