/** The vehicle orderings of VehicleSort.py: a quicksort by battery level
    (highest first) over an array copied out of a linked list, and two
    heap-sorts by distance to destination built on DSAHeap, with the two
    "pick the first" queries on top of them. */
module VehicleSort {
  import opened Wrappers
  import opened Vehicles
  import opened LinkedList
  import opened Heap
  import Sorts

  // ---------------------------------------------------------------------
  // Specification

  /** Battery levels never rise from left to right. */
  ghost predicate BatteryDescending(s: seq<Vehicle>)
  {
    forall k, m | 0 <= k < m < |s| :: s[k].battery >= s[m].battery
  }

  /** Distances to destination never fall from left to right. */
  ghost predicate DistanceAscending(s: seq<Vehicle>)
  {
    forall k, m | 0 <= k < m < |s| :: s[k].distDest <= s[m].distDest
  }

  /** Distances to destination never rise from left to right. */
  ghost predicate DistanceDescending(s: seq<Vehicle>)
  {
    forall k, m | 0 <= k < m < |s| :: s[k].distDest >= s[m].distDest
  }

  /** The priority `heapSortDistanceTo` files a vehicle under. */
  function DistanceKey(v: Vehicle): int
  {
    v.distDest
  }

  /** The priority `heapSortDistanceAsc` files a vehicle under. */
  function NegatedDistanceKey(v: Vehicle): int
  {
    -v.distDest
  }

  /** The heap slot a vehicle is added as, under priority function `key`. */
  function Filed(key: Vehicle -> int, v: Vehicle): Option<HeapEntry<Vehicle>>
  {
    Some(HeapEntry(key(v), v))
  }

  ghost function FiledAll(key: Vehicle -> int, c: seq<Vehicle>): (r: Slots<Vehicle>)
    ensures |r| == |c| && forall k | 0 <= k < |c| :: r[k] == Filed(key, c[k])
  {
    seq(|c|, k requires 0 <= k < |c| => Filed(key, c[k]))
  }

  /** The vehicle in a filled slot (a fixed placeholder for an empty one). */
  ghost function Payload(e: Option<HeapEntry<Vehicle>>): Vehicle
  {
    if e.Some? then e.value.value else Vehicle([], [], [], 0, 0)
  }

  ghost function Payloads(s: Slots<Vehicle>): (r: seq<Vehicle>)
    ensures |r| == |s| && forall k | 0 <= k < |s| :: r[k] == Payload(s[k])
  {
    seq(|s|, k requires 0 <= k < |s| => Payload(s[k]))
  }

  // ---------------------------------------------------------------------
  // Lemmas

  /** Two sequences with the same elements that agree outside [lo, hi) have
      the same elements inside it. */
  lemma RangeMultiset<T>(s: seq<T>, t: seq<T>, lo: int, hi: int)
    requires 0 <= lo <= hi <= |s| == |t|
    requires multiset(s) == multiset(t)
    requires forall k | 0 <= k < |s| && !(lo <= k < hi) :: s[k] == t[k]
    ensures multiset(s[lo..hi]) == multiset(t[lo..hi])
  {
    ThreeParts(s, lo, hi);
    ThreeParts(t, lo, hi);
    assert s[..lo] == t[..lo];
    assert s[hi..] == t[hi..];
    CancelOuter(multiset(s[..lo]), multiset(s[lo..hi]), multiset(t[lo..hi]), multiset(s[hi..]));
  }

  lemma ThreeParts<T>(s: seq<T>, lo: int, hi: int)
    requires 0 <= lo <= hi <= |s|
    ensures multiset(s) == multiset(s[..lo]) + multiset(s[lo..hi]) + multiset(s[hi..])
  {
    assert s == s[..lo] + s[lo..hi] + s[hi..];
  }

  lemma CancelOuter<T>(a: multiset<T>, b: multiset<T>, b': multiset<T>, c: multiset<T>)
    requires a + b + c == a + b' + c
    ensures b == b'
  {
    forall x ensures b[x] == b'[x] {
      assert (a + b + c)[x] == (a + b' + c)[x];
    }
  }

  /** Rearranging only [lo, hi) keeps any property every element there had. */
  lemma RangeKeeps<T>(s: seq<T>, t: seq<T>, lo: int, hi: int, p: T -> bool)
    requires 0 <= lo <= hi <= |s| == |t|
    requires multiset(s) == multiset(t)
    requires forall k | 0 <= k < |s| && !(lo <= k < hi) :: s[k] == t[k]
    requires forall k | lo <= k < hi :: p(s[k])
    ensures forall k | lo <= k < hi :: p(t[k])
  {
    RangeMultiset(s, t, lo, hi);
    forall k | lo <= k < hi ensures p(t[k]) {
      assert t[lo..hi][k - lo] == t[k];
      assert t[k] in multiset(s[lo..hi]);
      var j :| 0 <= j < hi - lo && s[lo..hi][j] == t[k];
      assert s[lo + j] == t[k];
    }
  }

  /** Taking one element out of a sequence. */
  lemma RemoveAt<T>(t: seq<T>, j: int)
    requires 0 <= j < |t|
    ensures multiset(t) == multiset(t[..j] + t[j + 1..]) + multiset{t[j]}
  {
    assert t == t[..j] + [t[j]] + t[j + 1..];
  }

  /** Taking the vehicles out of two slot sequences with the same entries
      gives two sequences with the same vehicles. */
  lemma {:induction false} PayloadsKeepMultiset(s: Slots<Vehicle>, t: Slots<Vehicle>)
    requires multiset(s) == multiset(t)
    ensures multiset(Payloads(s)) == multiset(Payloads(t))
    decreases |s|
  {
    if s == [] {
      assert |t| == |multiset(t)| == 0;
    } else {
      var x := s[0];
      assert x in multiset(t);
      var j :| 0 <= j < |t| && t[j] == x;
      var rest := t[..j] + t[j + 1..];
      TailMultiset(s, t, j);
      PayloadsKeepMultiset(s[1..], rest);
      PayloadsRemoveAt(t, j);
      assert Payloads(s) == [Payload(x)] + Payloads(s[1..]);
    }
  }

  /** Dropping the first element of `s` and element `j` (equal to it) of
      `t` leaves two sequences with the same elements. */
  lemma TailMultiset<T>(s: seq<T>, t: seq<T>, j: int)
    requires multiset(s) == multiset(t) && s != []
    requires 0 <= j < |t| && t[j] == s[0]
    ensures multiset(s[1..]) == multiset(t[..j] + t[j + 1..])
  {
    RemoveAt(t, j);
    assert s == [s[0]] + s[1..];
    forall y ensures multiset(s[1..])[y] == multiset(t[..j] + t[j + 1..])[y] {
      assert multiset(s)[y] == multiset(t)[y];
    }
  }

  lemma PayloadsRemoveAt(t: Slots<Vehicle>, j: int)
    requires 0 <= j < |t|
    ensures multiset(Payloads(t))
         == multiset(Payloads(t[..j] + t[j + 1..])) + multiset{Payload(t[j])}
  {
    var ps := Payloads(t);
    RemoveAt(ps, j);
    assert ps[..j] + ps[j + 1..] == Payloads(t[..j] + t[j + 1..]);
  }

  /** Slots holding exactly the vehicles of `c`, each filed under `key`, in
      some order: reading the vehicles out gives the vehicles of `c`, and each
      slot's priority is its vehicle's key. */
  lemma Unfiled(key: Vehicle -> int, c: seq<Vehicle>, s: Slots<Vehicle>)
    requires multiset(s) == multiset(FiledAll(key, c))
    ensures multiset(Payloads(s)) == multiset(c)
    ensures forall k | 0 <= k < |s| :: s[k] == Filed(key, Payload(s[k]))
  {
    PayloadsKeepMultiset(s, FiledAll(key, c));
    assert Payloads(FiledAll(key, c)) == c;
    forall k | 0 <= k < |s| ensures s[k] == Filed(key, Payload(s[k])) {
      assert s[k] in multiset(FiledAll(key, c));
      var j :| 0 <= j < |c| && FiledAll(key, c)[j] == s[k];
    }
  }

  lemma FiledOneMore(key: Vehicle -> int, c: seq<Vehicle>, i: int)
    requires 0 <= i < |c|
    ensures multiset(FiledAll(key, c[..i + 1]))
         == multiset(FiledAll(key, c[..i])) + multiset{Filed(key, c[i])}
  {
    assert FiledAll(key, c[..i + 1]) == FiledAll(key, c[..i]) + [Filed(key, c[i])];
  }

  // ---------------------------------------------------------------------
  // Quicksort by battery

  /** Lomuto partition of a[leftIdx..rightIdx] around the battery level of
      a[pivIdx]: the pivot vehicle ends at the returned index, with higher
      battery levels to its left and the rest to its right. */
  method DoPartitioning(a: array<Vehicle>, leftIdx: int, rightIdx: int, pivIdx: int)
    returns (newPivIdx: int)
    requires 0 <= leftIdx <= pivIdx <= rightIdx < a.Length
    modifies a
    ensures leftIdx <= newPivIdx <= rightIdx
    ensures a[newPivIdx] == old(a[pivIdx])
    ensures forall k | leftIdx <= k < newPivIdx :: a[k].battery > a[newPivIdx].battery
    ensures forall k | newPivIdx < k <= rightIdx :: a[k].battery <= a[newPivIdx].battery
    ensures forall k | 0 <= k < a.Length && !(leftIdx <= k <= rightIdx) :: a[k] == old(a[k])
    ensures multiset(a[..]) == multiset(old(a[..]))
  {
    var pivotVal := a[pivIdx].battery;
    Sorts.Swap(a, pivIdx, rightIdx);
    var currIdx := leftIdx;
    for ii := leftIdx to rightIdx
      invariant leftIdx <= currIdx <= ii
      invariant a[rightIdx] == old(a[pivIdx])
      invariant forall k | leftIdx <= k < currIdx :: a[k].battery > pivotVal
      invariant forall k | currIdx <= k < ii :: a[k].battery <= pivotVal
      invariant forall k | 0 <= k < a.Length && !(leftIdx <= k <= rightIdx) :: a[k] == old(a[k])
      invariant multiset(a[..]) == multiset(old(a[..]))
    {
      if a[ii].battery > pivotVal {
        Sorts.Swap(a, ii, currIdx);
        currIdx := currIdx + 1;
      }
    }
    newPivIdx := currIdx;
    Sorts.Swap(a, rightIdx, newPivIdx);
  }

  /** Sorts a[leftIdx..rightIdx] into non-increasing battery order, pivoting
      on the middle element; nothing outside that range moves. */
  method QuickSortVehicles(a: array<Vehicle>, leftIdx: int, rightIdx: int)
    requires 0 <= leftIdx <= rightIdx + 1 <= a.Length
    modifies a
    ensures forall k, m | leftIdx <= k < m <= rightIdx :: a[k].battery >= a[m].battery
    ensures forall k | 0 <= k < a.Length && !(leftIdx <= k <= rightIdx) :: a[k] == old(a[k])
    ensures multiset(a[..]) == multiset(old(a[..]))
    decreases rightIdx - leftIdx
  {
    if rightIdx > leftIdx {
      var pivotIdx := (leftIdx + rightIdx) / 2;
      var p := DoPartitioning(a, leftIdx, rightIdx, pivotIdx);
      ghost var pv := a[p].battery;
      ghost var a1 := a[..];
      QuickSortVehicles(a, leftIdx, p - 1);
      ghost var a2 := a[..];
      RangeKeeps(a1, a2, leftIdx, p, (v: Vehicle) => v.battery > pv);
      QuickSortVehicles(a, p + 1, rightIdx);
      RangeKeeps(a2, a[..], p + 1, rightIdx + 1, (v: Vehicle) => v.battery <= pv);
      forall k, m | leftIdx <= k < m <= rightIdx ensures a[k].battery >= a[m].battery {
        if k < p && p < m {
          assert a[..][k].battery > pv >= a[..][m].battery;
        } else if k == p && p < m {
          assert a[..][m].battery <= pv;
        } else if k < p && m == p {
          assert a[..][k].battery > pv;
        }
      }
    }
  }

  /** Copies the list's payloads, head first, into a fresh array. */
  method LlToArr(list: DList<Vehicle>) returns (arr: array<Vehicle>)
    requires list.Valid()
    ensures fresh(arr)
    ensures arr[..] == list.Contents
  {
    var arrLen := list.size;
    arr := new Vehicle[arrLen];
    var ii := 0;
    var cur := list.head;
    while cur != null
      invariant 0 <= ii <= |list.Nodes|
      invariant cur == if ii < |list.Nodes| then list.Nodes[ii] else null
      invariant forall k | 0 <= k < ii :: arr[k] == list.Contents[k]
      decreases |list.Nodes| - ii
    {
      arr[ii] := cur.data;
      cur := cur.next;
      ii := ii + 1;
    }
  }

  /** The list's vehicles in a fresh array, highest battery first. */
  method QuickSortBattery(list: DList<Vehicle>) returns (arr: array<Vehicle>)
    requires list.Valid()
    ensures fresh(arr)
    ensures multiset(arr[..]) == multiset(list.Contents)
    ensures BatteryDescending(arr[..])
  {
    arr := LlToArr(list);
    if arr.Length > 0 {
      QuickSortVehicles(arr, 0, arr.Length - 1);
    }
  }

  /** A vehicle of highest battery level, or `None` for an empty list. */
  method FindVehicleWithHighestBattery(list: DList<Vehicle>) returns (r: Option<Vehicle>)
    requires list.Valid()
    ensures r == None <==> list.Contents == []
    ensures r.Some? ==> r.value in list.Contents &&
                        forall v | v in list.Contents :: v.battery <= r.value.battery
  {
    var batterySorted := QuickSortBattery(list);
    assert |list.Contents| == |multiset(list.Contents)| == batterySorted.Length;
    r := None;
    if batterySorted.Length > 0 {
      r := Some(batterySorted[0]);
      assert batterySorted[..][0] in multiset(list.Contents);
      forall v | v in list.Contents ensures v.battery <= batterySorted[0].battery {
        assert v in multiset(batterySorted[..]);
      }
    }
  }

  // ---------------------------------------------------------------------
  // Heap-sorts by distance to destination

  /** Adds every vehicle of the list, head first, to a fresh heap sized to
      the list, under priority `key`. */
  method FillHeap(list: DList<Vehicle>, key: Vehicle -> int) returns (heap: DSAHeap<Vehicle>)
    requires list.Valid()
    ensures fresh(heap) && fresh(heap.heapArr)
    ensures heap.IsHeap() && heap.count == heap.size == |list.Contents|
    ensures heap.Entries() == multiset(FiledAll(key, list.Contents))
  {
    var heapLen := list.size;
    heap := new DSAHeap<Vehicle>(heapLen);
    ValidChain(list);
    AddAll(list.head, list.Nodes, list.Contents, heap, key);
    assert list.Contents[..|list.Contents|] == list.Contents;
  }

  /** The nodes from `Nodes[0]` on, each holding the payload at its index
      and linked to the next one, the last to null. */
  ghost predicate Chain(nodes: seq<Node<Vehicle>>, c: seq<Vehicle>)
    reads set k | 0 <= k < |nodes| :: nodes[k]
  {
    && |nodes| == |c|
    && (forall k | 0 <= k < |nodes| :: nodes[k].data == c[k])
    && (forall k | 0 <= k < |nodes| - 1 :: nodes[k].next == nodes[k + 1])
    && (nodes != [] ==> nodes[|nodes| - 1].next == null)
  }

  lemma ValidChain(list: DList<Vehicle>)
    requires list.Valid()
    ensures Chain(list.Nodes, list.Contents)
    ensures list.head == if list.Nodes == [] then null else list.Nodes[0]
  {
  }

  /** The loop of the heap sorts that walks the list from the head and adds
      each vehicle under priority `key`. */
  method AddAll(first: Node?<Vehicle>, ghost nodes: seq<Node<Vehicle>>, ghost c: seq<Vehicle>,
                heap: DSAHeap<Vehicle>, key: Vehicle -> int)
    requires Chain(nodes, c) && first == if nodes == [] then null else nodes[0]
    requires Filling(heap, key, c, 0)
    modifies heap, heap.heapArr
    ensures Filling(heap, key, c, |c|) && heap.heapArr == old(heap.heapArr)
  {
    var cur := first;
    ghost var i := 0;
    while cur != null
      invariant 0 <= i <= |c| && Filling(heap, key, c, i) && heap.heapArr == old(heap.heapArr)
      invariant cur == if i < |nodes| then nodes[i] else null
      decreases |c| - i
    {
      cur := AddNode(cur, nodes, c, i, heap, key);
      i := i + 1;
    }
  }

  /** One step of the walk: adds the vehicle of node `i` and moves on. */
  method AddNode(cur: Node<Vehicle>, ghost nodes: seq<Node<Vehicle>>, ghost c: seq<Vehicle>, ghost i: int,
                 heap: DSAHeap<Vehicle>, key: Vehicle -> int) returns (next: Node?<Vehicle>)
    requires Chain(nodes, c) && 0 <= i < |nodes| && cur == nodes[i]
    requires Filling(heap, key, c, i)
    modifies heap, heap.heapArr
    ensures Filling(heap, key, c, i + 1) && heap.heapArr == old(heap.heapArr)
    ensures next == if i + 1 < |nodes| then nodes[i + 1] else null
  {
    var vehicle := cur.data;
    next := cur.next;
    AddFiled(heap, key, c, i, vehicle);
  }

  /** A heap sized to `c` holding its first `i` vehicles filed under `key`. */
  ghost predicate Filling(heap: DSAHeap<Vehicle>, key: Vehicle -> int, c: seq<Vehicle>, i: int)
    reads heap, heap.heapArr
  {
    && 0 <= i <= |c|
    && heap.IsHeap() && heap.size == |c| && heap.count == i
    && heap.Entries() == multiset(FiledAll(key, c[..i]))
  }

  /** One step of `FillHeap`: adds the `i`-th vehicle of `c` under `key` to a
      heap holding the ones before it. */
  method AddFiled(heap: DSAHeap<Vehicle>, key: Vehicle -> int, ghost c: seq<Vehicle>,
                  ghost i: int, vehicle: Vehicle)
    requires Filling(heap, key, c, i) && i < |c| && c[i] == vehicle
    modifies heap, heap.heapArr
    ensures Filling(heap, key, c, i + 1)
    ensures heap.heapArr == old(heap.heapArr)
  {
    heap.Add(key(vehicle), vehicle);
    FiledOneMore(key, c, i);
  }

  /** The vehicles of the heap's filled slots, in slot order, in a fresh array. */
  method Drain(heap: DSAHeap<Vehicle>) returns (arr: array<Vehicle>)
    requires heap.Valid()
    ensures fresh(arr)
    ensures arr[..] == Payloads(heap.heapArr[..heap.count])
  {
    var n := heap.count;
    arr := new Vehicle[n];
    for ii := 0 to n
      invariant forall k | 0 <= k < ii :: arr[k] == Payload(heap.heapArr[k])
    {
      arr[ii] := heap.heapArr[ii].value.value;
    }
  }

  /** The list's vehicles in a fresh array, nearest to destination first. */
  method HeapSortDistanceTo(list: DList<Vehicle>) returns (arr: array<Vehicle>)
    requires list.Valid()
    ensures fresh(arr)
    ensures multiset(arr[..]) == multiset(list.Contents)
    ensures DistanceAscending(arr[..])
  {
    var heap := FillHeap(list, DistanceKey);
    heap.HeapSort();
    arr := Drain(heap);
    ghost var s := heap.heapArr[..heap.count];
    Unfiled(DistanceKey, list.Contents, s);
    forall k, m | 0 <= k < m < arr.Length ensures arr[k].distDest <= arr[m].distDest {
      assert Key(s[k]) <= Key(s[m]);
    }
  }

  /** The list's vehicles in a fresh array, FARTHEST from destination first:
      the priorities are negated distances and the heap-sort puts the
      smallest priority first. */
  method HeapSortDistanceAsc(list: DList<Vehicle>) returns (arr: array<Vehicle>)
    requires list.Valid()
    ensures fresh(arr)
    ensures multiset(arr[..]) == multiset(list.Contents)
    ensures DistanceDescending(arr[..])
  {
    var heap := FillHeap(list, NegatedDistanceKey);
    heap.HeapSort();
    arr := Drain(heap);
    ghost var s := heap.heapArr[..heap.count];
    Unfiled(NegatedDistanceKey, list.Contents, s);
    forall k, m | 0 <= k < m < arr.Length ensures arr[k].distDest >= arr[m].distDest {
      assert Key(s[k]) <= Key(s[m]);
    }
  }

  /** A vehicle nearest to its destination, or `None` for an empty list. */
  method FindNearestVehicle(list: DList<Vehicle>) returns (r: Option<Vehicle>)
    requires list.Valid()
    ensures r == None <==> list.Contents == []
    ensures r.Some? ==> r.value in list.Contents &&
                        forall v | v in list.Contents :: r.value.distDest <= v.distDest
  {
    var distanceToSorted := HeapSortDistanceTo(list);
    assert |list.Contents| == |multiset(list.Contents)| == distanceToSorted.Length;
    if distanceToSorted.Length == 0 {
      r := None;
    } else {
      r := Some(distanceToSorted[0]);
      assert distanceToSorted[..][0] in multiset(list.Contents);
      forall v | v in list.Contents ensures distanceToSorted[0].distDest <= v.distDest {
        assert v in multiset(distanceToSorted[..]);
      }
    }
  }
}
