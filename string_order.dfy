/** Python's `<` on `str`: lexicographic by character code, a proper prefix
    coming first.  The graph orders labels by it and `selectionSort` sorts
    them with it. */
module StringOrder {
  import opened Sorts

  predicate Less(a: string, b: string)
  {
    if a == [] then b != []
    else if b == [] then false
    else if a[0] != b[0] then a[0] < b[0]
    else Less(a[1..], b[1..])
  }

  /** Every pair strictly ascending. */
  predicate StrictlyAscending(s: seq<string>)
  {
    forall k, m | 0 <= k < m < |s| :: Less(s[k], s[m])
  }

  lemma {:induction false} LessIrreflexive(a: string)
    ensures !Less(a, a)
  {
    if a != [] {
      LessIrreflexive(a[1..]);
    }
  }

  lemma {:induction false} LessTransitive(a: string, b: string, c: string)
    requires Less(a, b) && Less(b, c)
    ensures Less(a, c)
  {
    if a != [] && a[0] == b[0] && b[0] == c[0] {
      LessTransitive(a[1..], b[1..], c[1..]);
    }
  }

  /** Two different strings are ordered one way or the other. */
  lemma {:induction false} LessTotal(a: string, b: string)
    ensures a == b || Less(a, b) || Less(b, a)
  {
    if a != [] && b != [] && a[0] == b[0] {
      LessTotal(a[1..], b[1..]);
      if a[1..] == b[1..] {
        assert a == [a[0]] + a[1..] && b == [b[0]] + b[1..];
      }
    }
  }

  lemma LessAsymmetric(a: string, b: string)
    requires Less(a, b)
    ensures !Less(b, a)
  {
    if Less(b, a) {
      LessTransitive(a, b, a);
      LessIrreflexive(a);
    }
  }

  /** Python's string `<` is a strict total order, so the sorts may use it. */
  lemma LessIsStrictWeakOrder()
    ensures StrictWeakOrder(Less)
  {
    forall a ensures !Less(a, a) {
      LessIrreflexive(a);
    }
    forall a, b, c | Less(a, b) && Less(b, c) ensures Less(a, c) {
      LessTransitive(a, b, c);
    }
    forall a, b, c | !Less(b, a) && !Less(c, b) ensures !Less(c, a) {
      LessTotal(a, b);
      LessTotal(b, c);
      if Less(c, a) && a != b && b != c {
        LessTransitive(c, a, b);
      }
    }
  }

  /** Sorted with no two equal strings means strictly ascending. */
  lemma SortedDistinctIsStrict(s: seq<string>)
    requires SortedBy(s, Less)
    requires forall k, m | 0 <= k < m < |s| :: s[k] != s[m]
    ensures StrictlyAscending(s)
  {
    forall k, m | 0 <= k < m < |s| ensures Less(s[k], s[m]) {
      LessTotal(s[k], s[m]);
    }
  }
}
