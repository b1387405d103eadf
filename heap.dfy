/** The array-backed max-heap of DSAHeap.py.  Slot `i` has its children at
    `2i + 1` and `2i + 2` and its parent at `(i - 1) / 2`; the first `count`
    slots are filled, and `size` is the capacity.  Empty slots hold `None`,
    as the Python array holds `None`. */
module Heap {
  import opened Wrappers

  /** `DSAHeapEntry`: a priority and the value it ranks. */
  datatype HeapEntry<V> = HeapEntry(priority: int, value: V)

  /** `HeapEmptyError`: removing from a heap with no entries. */
  datatype HeapError = HeapEmpty

  /** The priority in a slot.  The heap only ever compares filled slots;
      an empty one reads as 0. */
  function Key<V>(e: Option<HeapEntry<V>>): int
  {
    if e.Some? then e.value.priority else 0
  }

  /** The heap's slots, read as a sequence. */
  type Slots<V> = seq<Option<HeapEntry<V>>>

  /** `s` with slots `i` and `j` exchanged. */
  function Swapped<V>(s: Slots<V>, i: int, j: int): (t: Slots<V>)
    requires 0 <= i < |s| && 0 <= j < |s|
    ensures |t| == |s|
  {
    s[i := s[j]][j := s[i]]
  }

  /** Slot `i`'s parent is no smaller than slot `i`. */
  ghost predicate LinkOk<V>(s: Slots<V>, i: int)
    requires 0 < i < |s|
  {
    Key(s[(i - 1) / 2]) >= Key(s[i])
  }

  /** Every parent at index `lo` or later is no smaller than its children
      below `n`; with `lo == 0` the first `n` slots form a max-heap. */
  ghost predicate Ordered<V>(s: Slots<V>, lo: int, n: int)
    requires n <= |s|
  {
    forall i | 0 < i < n && lo <= (i - 1) / 2 :: LinkOk(s, i)
  }

  /** Midway through a trickle-up of the entry now at `x`: every link below
      `n` holds except the one above `x`, and `x`'s parent is no smaller
      than `x`'s children. */
  ghost predicate UpState<V>(s: Slots<V>, n: int, x: int)
    requires 0 <= x < n <= |s|
  {
    && (forall i | 0 < i < n && i != x :: LinkOk(s, i))
    && (x > 0 ==> forall c | 0 < c < n && (c - 1) / 2 == x :: Key(s[(x - 1) / 2]) >= Key(s[c]))
  }

  /** Midway through a trickle-down from `lo` of the entry now at `x`: every
      link from `lo` on holds except those below `x`, and `x`'s parent is no
      smaller than `x`'s children. */
  ghost predicate DownState<V>(s: Slots<V>, lo: int, n: int, x: int)
    requires 0 <= lo <= x && n <= |s|
  {
    && (forall i | 0 < i < n && lo <= (i - 1) / 2 && (i - 1) / 2 != x :: LinkOk(s, i))
    && (lo < x ==> forall c | 0 < c < n && (c - 1) / 2 == x :: Key(s[(x - 1) / 2]) >= Key(s[c]))
  }

  /** The children of `x` are `2x + 1` and `2x + 2`. */
  lemma ChildIndex(x: int, c: int)
    requires 0 <= x && 0 < c && (c - 1) / 2 == x
    ensures c == 2 * x + 1 || c == 2 * x + 2
  {
  }

  /** Swapping an entry above a smaller parent moves the trickle-up one level
      closer to the root. */
  lemma UpStep<V>(s: Slots<V>, n: int, x: int)
    requires 0 < x < n <= |s| && UpState(s, n, x)
    requires Key(s[x]) > Key(s[(x - 1) / 2])
    ensures UpState(Swapped(s, (x - 1) / 2, x), n, (x - 1) / 2)
  {
    var p := (x - 1) / 2;
    var t := Swapped(s, p, x);
    forall i | 0 < i < n && i != p ensures LinkOk(t, i) {
      if i == x {
      } else if (i - 1) / 2 == x {
      } else if (i - 1) / 2 == p {
        assert LinkOk(s, i);
      } else if i != p {
        assert LinkOk(s, i);
      }
    }
    if p > 0 {
      forall c | 0 < c < n && (c - 1) / 2 == p ensures Key(t[(p - 1) / 2]) >= Key(t[c]) {
        assert LinkOk(s, p);
        if c != x {
          assert LinkOk(s, c);
        }
      }
    }
  }

  /** A trickle-up stops with a heap: at the root, or below a parent no
      smaller than the entry. */
  lemma UpDone<V>(s: Slots<V>, n: int, x: int)
    requires 0 <= x < n <= |s| && UpState(s, n, x)
    requires x == 0 || Key(s[x]) <= Key(s[(x - 1) / 2])
    ensures Ordered(s, 0, n)
  {
    forall i | 0 < i < n ensures LinkOk(s, i) {
    }
  }

  /** Swapping an entry with its larger child, when that child is larger than
      it, moves the trickle-down one level further down. */
  lemma DownStep<V>(s: Slots<V>, lo: int, n: int, x: int, large: int)
    requires 0 <= lo <= x && n <= |s| && DownState(s, lo, n, x)
    requires (large == 2 * x + 1 || large == 2 * x + 2) && large < n
    requires Key(s[2 * x + 1]) <= Key(s[large])
    requires 2 * x + 2 < n ==> Key(s[2 * x + 2]) <= Key(s[large])
    requires Key(s[large]) > Key(s[x])
    ensures DownState(Swapped(s, large, x), lo, n, large)
  {
    var t := Swapped(s, large, x);
    forall i | 0 < i < n && lo <= (i - 1) / 2 && (i - 1) / 2 != large ensures LinkOk(t, i) {
      if i == x {
        assert LinkOk(s, i) || lo == x;
      } else if (i - 1) / 2 == x {
        ChildIndex(x, i);
      } else if i != large {
        assert LinkOk(s, i);
      }
    }
    forall c | 0 < c < n && (c - 1) / 2 == large ensures Key(t[(large - 1) / 2]) >= Key(t[c]) {
      assert LinkOk(s, c);
    }
  }

  /** A trickle-down stops with every link from `lo` on in place once the
      entry is no smaller than its children (or has none). */
  lemma DownDone<V>(s: Slots<V>, lo: int, n: int, x: int)
    requires 0 <= lo <= x && n <= |s| && DownState(s, lo, n, x)
    requires 2 * x + 1 < n ==> Key(s[2 * x + 1]) <= Key(s[x])
    requires 2 * x + 2 < n ==> Key(s[2 * x + 2]) <= Key(s[x])
    ensures Ordered(s, lo, n)
  {
    forall i | 0 < i < n && lo <= (i - 1) / 2 ensures LinkOk(s, i) {
      if (i - 1) / 2 == x {
        ChildIndex(x, i);
      }
    }
  }

  /** Only the first `n` slots matter to `Ordered`. */
  lemma OrderedSamePrefix<V>(s: Slots<V>, t: Slots<V>, lo: int, n: int)
    requires 0 <= n <= |s| && n <= |t| && s[..n] == t[..n]
    requires Ordered(s, lo, n)
    ensures Ordered(t, lo, n)
  {
    forall i | 0 < i < n && lo <= (i - 1) / 2 ensures LinkOk(t, i) {
      assert LinkOk(s, i);
      assert s[..n][i] == t[..n][i] && s[..n][(i - 1) / 2] == t[..n][(i - 1) / 2];
    }
  }

  /** The root of a heap has the largest priority in it. */
  lemma {:induction false} RootIsMax<V>(s: Slots<V>, n: int, k: int)
    requires n <= |s| && Ordered(s, 0, n)
    requires 0 <= k < n
    ensures Key(s[k]) <= Key(s[0])
    decreases k
  {
    if k > 0 {
      assert LinkOk(s, k);
      RootIsMax(s, n, (k - 1) / 2);
    }
  }

  /** Whatever bounds every key of `a` bounds every key of a permutation of `a`. */
  lemma BoundedPermutation<V>(a: Slots<V>, b: Slots<V>, x: int)
    requires multiset(a) == multiset(b)
    requires forall k | 0 <= k < |a| :: Key(a[k]) <= x
    ensures forall k | 0 <= k < |b| :: Key(b[k]) <= x
  {
    forall k | 0 <= k < |b| ensures Key(b[k]) <= x {
      assert b[k] in multiset(a);
      var j :| 0 <= j < |a| && a[j] == b[k];
    }
  }

  /** Every key of a heap's first `n` slots is at most the root's. */
  lemma RootBoundsAll<V>(s: Slots<V>, n: int)
    requires 0 < n <= |s| && Ordered(s, 0, n)
    ensures forall k | 0 <= k < n :: Key(s[k]) <= Key(s[0])
  {
    forall k | 0 <= k < n ensures Key(s[k]) <= Key(s[0]) {
      RootIsMax(s, n, k);
    }
  }

  /** Swapping slots inside `lo .. hi` leaves the rest alone and keeps the
      multiset of the first `hi` slots. */
  lemma SwappedFrame<V>(s: Slots<V>, i: int, j: int, lo: int, hi: int)
    requires 0 <= lo <= i < hi && lo <= j < hi && hi <= |s|
    ensures Swapped(s, i, j)[..lo] == s[..lo]
    ensures Swapped(s, i, j)[hi..] == s[hi..]
    ensures multiset(Swapped(s, i, j)[..hi]) == multiset(s[..hi])
  {
    assert Swapped(s, i, j)[..hi] == s[..hi][i := s[j]][j := s[i]];
  }

  /** Two slot sequences that agree from `j` on and hold the same entries
      before `j` hold the same entries before any `n >= j`. */
  lemma SplitMultiset<V>(t: Slots<V>, u: Slots<V>, j: int, n: int)
    requires 0 <= j <= n <= |t| && |t| == |u|
    requires multiset(t[..j]) == multiset(u[..j]) && t[j..] == u[j..]
    ensures multiset(t[..n]) == multiset(u[..n])
  {
    assert t[..n] == t[..j] + t[j..n];
    assert u[..n] == u[..j] + u[j..n];
    assert t[j..n] == t[j..][..n - j] == u[j..][..n - j] == u[j..n];
  }

  /** Swapping a heap's root with its last slot `ii` leaves every link
      below the root intact within the first `ii` slots. */
  lemma RootSwapKeepsBelow<V>(s: Slots<V>, ii: int)
    requires 0 < ii < |s| && Ordered(s, 0, ii + 1)
    ensures Ordered(Swapped(s, 0, ii), 1, ii)
  {
    var t := Swapped(s, 0, ii);
    forall i | 0 < i < ii && 1 <= (i - 1) / 2 ensures LinkOk(t, i) {
      assert LinkOk(s, i);
    }
  }

  /** The slots from `lo` to `n` are in ascending priority, and none before
      `lo` has a larger priority than any of them. */
  ghost predicate SortedTail<V>(s: Slots<V>, lo: int, n: int)
    requires 0 <= lo <= n <= |s|
  {
    && (forall k, m | lo <= k < m < n :: Key(s[k]) <= Key(s[m]))
    && (forall k, m | 0 <= k < lo <= m < n :: Key(s[k]) <= Key(s[m]))
  }

  /** One round of the heap sort: moving the root of the heap `s[..ii + 1]`
      to slot `ii` and re-heaping the rest (any permutation of it) grows the
      sorted tail by one slot. */
  lemma SortStep<V>(s: Slots<V>, t: Slots<V>, ii: int, n: int)
    requires 0 < ii < n <= |s| && |t| == |s|
    requires Ordered(s, 0, ii + 1) && SortedTail(s, ii + 1, n)
    requires multiset(t[..ii]) == multiset(Swapped(s, 0, ii)[..ii])
    requires t[ii..] == Swapped(s, 0, ii)[ii..]
    ensures SortedTail(t, ii, n)
  {
    var u := Swapped(s, 0, ii);
    RootBoundsAll(s, ii + 1);
    forall k | 0 <= k < ii ensures Key(u[..ii][k]) <= Key(s[0]) {
    }
    BoundedPermutation(u[..ii], t[..ii], Key(s[0]));
    forall m | ii <= m < n ensures t[m] == u[m] {
      assert t[ii..][m - ii] == u[ii..][m - ii];
    }
    forall k, m | 0 <= k < ii <= m < n ensures Key(t[k]) <= Key(t[m]) {
      assert Key(t[..ii][k]) <= Key(s[0]);
    }
  }

  /** Moving the last slot `c` of a heap to the root and emptying slot `c`
      keeps the links below the root, and the first `c` slots then hold the
      heap's entries less its root. */
  lemma RootReplaced<V>(s: Slots<V>, c: int)
    requires 0 < c < |s| && Ordered(s, 0, c + 1)
    ensures Ordered(s[0 := s[c]][c := None], 1, c)
    ensures multiset(s[0 := s[c]][c := None][..c]) + multiset{s[0]} == multiset(s[..c + 1])
  {
    var t := s[0 := s[c]][c := None];
    forall i | 0 < i < c && 1 <= (i - 1) / 2 ensures LinkOk(t, i) {
      assert LinkOk(s, i);
    }
    assert s[..c + 1] == [s[0]] + s[1..c] + [s[c]];
    assert t[..c] == [s[c]] + s[1..c];
  }

  class DSAHeap<V> {
    var heapArr: array<Option<HeapEntry<V>>>
    var count: nat
    var size: nat

    /** `size` is the array's length and the first `count` slots are filled. */
    ghost predicate Valid()
      reads this, heapArr
    {
      && size == heapArr.Length
      && count <= size
      && (forall i | 0 <= i < count :: heapArr[i].Some?)
    }

    /** The first `count` slots form a max-heap. */
    ghost predicate IsHeap()
      reads this, heapArr
    {
      Valid() && Ordered(heapArr[..], 0, count)
    }

    /** The filled slots. */
    ghost function Entries(): multiset<Option<HeapEntry<V>>>
      reads this, heapArr
      requires Valid()
    {
      multiset(heapArr[..count])
    }

    /** A heap of capacity `inSize`, 200 when the caller gives none. */
    constructor (inSize: nat := 200)
      ensures IsHeap() && fresh(heapArr)
      ensures count == 0 && size == inSize
      ensures forall i | 0 <= i < heapArr.Length :: heapArr[i] == None
    {
      count := 0;
      heapArr := new Option<HeapEntry<V>>[inSize](_ => None);
      size := inSize;
    }

    /** Exchanges two slots below `n`, keeping the multiset of the first `n`. */
    method SwapSlots(i: nat, j: nat, ghost n: nat)
      requires Valid() && i < n && j < n && n <= count
      modifies heapArr
      ensures Valid()
      ensures heapArr[..] == Swapped(old(heapArr[..]), i, j)
      ensures multiset(heapArr[..n]) == multiset(old(heapArr[..n]))
      ensures heapArr[n..] == old(heapArr[n..])
    {
      ghost var before := heapArr[..n];
      heapArr[i], heapArr[j] := heapArr[j], heapArr[i];
      assert heapArr[..n] == before[i := before[j]][j := before[i]];
    }

    /** Adds an entry, first doubling the capacity when the heap is full, and
        restores the heap by trickling the entry up. */
    method Add(inPriority: int, inValue: V)
      requires IsHeap()
      requires size > 0
      modifies this, heapArr
      ensures IsHeap()
      ensures count == old(count) + 1
      ensures Entries() == old(Entries()) + multiset{Some(HeapEntry(inPriority, inValue))}
      ensures size == if old(count) >= old(size) then 2 * old(size) else old(size)
      ensures if old(count) >= old(size) then fresh(heapArr) else heapArr == old(heapArr)
    {
      if count >= size {
        ResizeHeap();
        OrderedSamePrefix(old(heapArr[..]), heapArr[..], 0, count);
      }
      count := count + 1;
      ghost var before := heapArr[..];
      heapArr[count - 1] := Some(HeapEntry(inPriority, inValue));
      assert heapArr[..count] == before[..count - 1] + [Some(HeapEntry(inPriority, inValue))];
      forall i | 0 < i < count && i != count - 1 ensures LinkOk(heapArr[..], i) {
        assert LinkOk(before, i);
      }
      TrickleUp(count - 1);
    }

    /** Moves the entry at `inIdx` up while it is larger than its parent. */
    method TrickleUp(inIdx: nat)
      requires Valid() && inIdx < count && UpState(heapArr[..], count, inIdx)
      modifies heapArr
      ensures IsHeap()
      ensures Entries() == old(Entries())
    {
      var idx := inIdx;
      var parentIdx := if idx > 0 then (idx - 1) / 2 else 0;
      while idx > 0 && Key(heapArr[idx]) > Key(heapArr[parentIdx])
        invariant Valid() && 0 <= idx < count
        invariant parentIdx == if idx > 0 then (idx - 1) / 2 else 0
        invariant Entries() == old(Entries())
        invariant UpState(heapArr[..], count, idx)
      {
        UpStep(heapArr[..], count, idx);
        SwapSlots(parentIdx, idx, count);
        idx := parentIdx;
        parentIdx := if idx > 0 then (idx - 1) / 2 else 0;
      }
      assert idx > 0 ==> heapArr[..][idx] == heapArr[idx] && heapArr[..][parentIdx] == heapArr[parentIdx];
      UpDone(heapArr[..], count, idx);
    }

    /** Takes the root out: the last entry moves to the root and trickles
        down, and the slot it left is cleared.  An empty heap fails with
        `HeapEmpty` and changes nothing. */
    method Remove() returns (r: Result<HeapEntry<V>, HeapError>)
      requires IsHeap()
      modifies this, heapArr
      ensures IsHeap() && heapArr == old(heapArr) && size == old(size)
      ensures old(count) == 0 ==> r == Err(HeapEmpty) && count == 0
      ensures old(count) > 0 ==>
                && r.Ok?
                && Some(r.value) == old(heapArr[0])
                && (forall k | 0 <= k < old(count) :: Key(old(heapArr[k])) <= r.value.priority)
                && count == old(count) - 1
                && Entries() + multiset{Some(r.value)} == old(Entries())
                && heapArr[count] == None
    {
      if count == 0 {
        return Err(HeapEmpty);
      }
      ghost var all := heapArr[..];
      ghost var entries := multiset(all[..count]);
      RootBoundsAll(all, count);
      count := count - 1;
      var root := heapArr[0];
      if count > 0 {
        MoveLastToRoot();
        ghost var moved := heapArr[..];
        TrickleDown(0, count);
        assert heapArr[count] == heapArr[count..][0] == moved[count..][0];
        assert multiset(heapArr[..count]) + multiset{root} == entries;
      } else {
        heapArr[0] := None;
        assert all[..1] == [root];
      }
      r := Ok(root.value);
    }

    /** The first step of a removal from a heap of `count + 1` entries: the
        entry in slot `count` moves to the root and its slot is cleared. */
    method MoveLastToRoot()
      requires Valid() && 0 < count < size && heapArr[count].Some?
      requires Ordered(heapArr[..], 0, count + 1)
      modifies heapArr
      ensures Valid()
      ensures heapArr[..] == old(heapArr[..])[0 := old(heapArr[count])][count := None]
      ensures Ordered(heapArr[..], 1, count)
      ensures multiset(heapArr[..count]) + multiset{old(heapArr[0])} == multiset(old(heapArr[..count + 1]))
    {
      ghost var all := heapArr[..];
      heapArr[0] := heapArr[count];
      heapArr[count] := None;
      assert heapArr[..] == all[0 := all[count]][count := None];
      RootReplaced(all, count);
    }

    /** Moves the entry at `inIdx` down below larger children, within the
        first `heapSize` slots.  Every parent after `inIdx` is already no
        smaller than its children; afterwards every parent from `inIdx` on is.
        Slots before `inIdx` and from `heapSize` on are untouched. */
    method TrickleDown(inIdx: nat, heapSize: nat)
      requires Valid() && heapSize <= count
      requires Ordered(heapArr[..], inIdx + 1, heapSize)
      modifies heapArr
      ensures Valid()
      ensures Ordered(heapArr[..], inIdx, heapSize)
      ensures multiset(heapArr[..heapSize]) == multiset(old(heapArr[..heapSize]))
      ensures heapSize <= inIdx || heapArr[..inIdx] == old(heapArr[..inIdx])
      ensures heapArr[heapSize..] == old(heapArr[heapSize..])
    {
      var idx := inIdx;
      var lChildIdx := idx * 2 + 1;
      var rChildIdx := lChildIdx + 1;
      var keepGoing := true;
      assert DownState(heapArr[..], inIdx, heapSize, idx);
      while keepGoing && lChildIdx < heapSize
        invariant Valid() && inIdx <= idx
        invariant lChildIdx == idx * 2 + 1 && rChildIdx == lChildIdx + 1
        invariant multiset(heapArr[..heapSize]) == multiset(old(heapArr[..heapSize]))
        invariant heapSize <= inIdx || heapArr[..inIdx] == old(heapArr[..inIdx])
        invariant heapArr[heapSize..] == old(heapArr[heapSize..])
        invariant keepGoing ==> DownState(heapArr[..], inIdx, heapSize, idx)
        invariant !keepGoing ==> Ordered(heapArr[..], inIdx, heapSize)
        decreases heapSize - idx
      {
        keepGoing := false;
        var largeIdx := lChildIdx;
        if rChildIdx < heapSize {
          if Key(heapArr[lChildIdx]) < Key(heapArr[rChildIdx]) {
            largeIdx := rChildIdx;
          }
        }
        if Key(heapArr[largeIdx]) > Key(heapArr[idx]) {
          DownStep(heapArr[..], inIdx, heapSize, idx, largeIdx);
          SwappedFrame(heapArr[..], largeIdx, idx, inIdx, heapSize);
          SwapSlots(largeIdx, idx, heapSize);
          keepGoing := true;
        } else {
          DownDone(heapArr[..], inIdx, heapSize, idx);
        }
        idx := largeIdx;
        lChildIdx := idx * 2 + 1;
        rChildIdx := lChildIdx + 1;
      }
      if keepGoing {
        DownDone(heapArr[..], inIdx, heapSize, idx);
      }
    }

    /** Doubles the capacity, copying the filled slots into a fresh array. */
    method ResizeHeap()
      requires Valid()
      modifies this
      ensures Valid() && fresh(heapArr)
      ensures count == old(count) && size == 2 * old(size)
      ensures heapArr[..count] == old(heapArr[..count])
      ensures forall i | count <= i < heapArr.Length :: heapArr[i] == None
    {
      var newSize := size * 2;
      var newHeap := new Option<HeapEntry<V>>[newSize](_ => None);
      for i := 0 to count
        invariant heapArr == old(heapArr) && count == old(count) && size == old(size)
        invariant forall k | 0 <= k < i :: newHeap[k] == heapArr[k]
        invariant forall k | i <= k < newSize :: newHeap[k] == None
      {
        newHeap[i] := heapArr[i];
      }
      heapArr := newHeap;
      size := newSize;
    }

    /** Turns the first `inSize` slots into a heap, trickling down every
        parent from the last one back to the root. */
    method Heapify(inSize: nat)
      requires Valid() && inSize <= count
      modifies heapArr
      ensures Valid() && Ordered(heapArr[..], 0, inSize)
      ensures multiset(heapArr[..inSize]) == multiset(old(heapArr[..inSize]))
      ensures heapArr[inSize..] == old(heapArr[inSize..])
    {
      var ii := inSize / 2 - 1;
      while ii >= 0
        invariant -1 <= ii <= inSize / 2 - 1 || ii == -1
        invariant Valid()
        invariant Ordered(heapArr[..], ii + 1, inSize)
        invariant multiset(heapArr[..inSize]) == multiset(old(heapArr[..inSize]))
        invariant heapArr[inSize..] == old(heapArr[inSize..])
      {
        TrickleDown(ii, inSize);
        ii := ii - 1;
      }
    }

    /** Sorts the filled slots into ascending priority in place: heapify, then
        repeatedly swap the root to the end of the shrinking heap and trickle
        the new root down.  The count stays the same. */
    method HeapSort()
      requires Valid()
      modifies heapArr
      ensures Valid()
      ensures Entries() == old(Entries())
      ensures forall k, m | 0 <= k < m < count :: Key(heapArr[k]) <= Key(heapArr[m])
      ensures heapArr[count..] == old(heapArr[count..])
    {
      var n: int := count;
      Heapify(n);
      var ii: int := n - 1;
      while ii > 0
        invariant -1 <= ii < n == count
        invariant Valid()
        invariant Entries() == old(Entries())
        invariant ii >= 0 ==> Ordered(heapArr[..], 0, ii + 1)
        // the slots after `ii` hold the largest entries, in order
        invariant SortedTail(heapArr[..], ii + 1, n)
        invariant heapArr[n..] == old(heapArr[n..])
      {
        ghost var s := heapArr[..];
        SwapSlots(0, ii, n);
        RootSwapKeepsBelow(s, ii);
        ghost var u := heapArr[..];
        TrickleDown(0, ii);
        assert heapArr[n..] == heapArr[ii..][n - ii..] == u[ii..][n - ii..];
        SortStep(s, heapArr[..], ii, n);
        SplitMultiset(heapArr[..], u, ii, n);
        ii := ii - 1;
      }
      forall k, m | 0 <= k < m < count ensures Key(heapArr[k]) <= Key(heapArr[m]) {
        assert Key(heapArr[..][k]) <= Key(heapArr[..][m]);
      }
    }

    /** Replaces the contents by `inEntries`, growing the array (a fresh one,
        all empty) when they do not fit; slots after them are left as they were. */
    method LoadEntries(inEntries: seq<HeapEntry<V>>)
      requires Valid()
      modifies this, heapArr
      ensures Valid()
      ensures count == |inEntries|
      ensures forall i | 0 <= i < count :: heapArr[i] == Some(inEntries[i])
      ensures size == if |inEntries| > old(size) then |inEntries| else old(size)
      ensures |inEntries| > old(size) ==> fresh(heapArr)
      ensures |inEntries| <= old(size) ==>
                heapArr == old(heapArr) &&
                forall i | count <= i < size :: heapArr[i] == old(heapArr[i])
    {
      var n := |inEntries|;
      if n > size {
        size := n;
        heapArr := new Option<HeapEntry<V>>[size](_ => None);
      }
      count := n;
      var arr := heapArr;
      for i := 0 to n
        invariant heapArr == arr && count == n && size == arr.Length
        invariant forall k | 0 <= k < i :: arr[k] == Some(inEntries[k])
        invariant forall k | n <= k < size :: arr[k] == old(arr[k])
      {
        arr[i] := Some(inEntries[i]);
      }
    }
  }
}
