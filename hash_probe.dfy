/** The slot array of VehicleHashTable.py seen as a value: the entries and
    their three states, the Shift-Add-XOR hash, the double-hashing probe
    sequence, and what `_findKey` and the probe loop of `insert` compute on
    a given array.  The class in module HashTable runs these loops over its
    own `hashArray` and is proved against the functions here. */
module HashProbe {
  import opened Wrappers
  import opened Vehicles
  import opened Primes

  /** `state` of a `DSAHashEntry`: 0, 1 and -1 in the source. */
  datatype SlotState = NeverUsed | Occupied | FormerlyUsed

  /** `DSAHashEntry`: a key, a vehicle (`None` in a never-used slot) and a state. */
  datatype HashEntry = HashEntry(key: string, value: Option<Vehicle>, state: SlotState)

  /** `DSAHashEntry()`: what every slot of a new array holds. */
  const EmptyEntry := HashEntry("", None, NeverUsed)

  type Slots = seq<HashEntry>

  // ---------------------------------------------------------------------
  // Shift-Add-XOR

  /** Bitwise exclusive or of two naturals, bit by bit from the lowest. */
  function Xor(a: nat, b: nat): nat
    decreases a + b
  {
    if a == 0 then b
    else if b == 0 then a
    else 2 * Xor(a / 2, b / 2) + (if a % 2 == b % 2 then 0 else 1)
  }

  /** The accumulator of `_hash` after the characters of `key`: each step
      XORs it with 32 times itself plus 4 times itself plus the character
      code.  Python's integers are unbounded, so no wrap-around happens. */
  function Sax(key: string): nat
  {
    if key == [] then 0
    else
      var h := Sax(key[..|key| - 1]);
      Xor(h, 32 * h + 4 * h + key[|key| - 1] as int)
  }

  /** The home slot of a key in a table of `len` slots. */
  function HashIndex(key: string, len: int): (r: int)
    requires len > 0
    ensures 0 <= r < len
  {
    Sax(key) % len
  }

  /** The double-hashing stride of a key. */
  function StepSize(key: string, len: int): (r: int)
    requires len > 0
    ensures 1 <= r <= 5
  {
    var step := 5 - HashIndex(key, len) % 5;
    if step == 0 then 1 else step
  }

  /** The `j`-th slot a probe sequence from slot `home` with stride `step`
      visits: each time the stride further on, modulo the length. */
  function Stride(home: int, step: int, len: int, j: nat): (r: int)
    requires 0 <= home < len
    ensures 0 <= r < len
  {
    if j == 0 then home
    else (Stride(home, step, len, j - 1) + step) % len
  }

  /** The `j`-th slot the probe sequence of `key` visits: the home slot,
      then each time the stride further on, modulo the length. */
  function Probe(key: string, len: int, j: nat): (r: int)
    requires len > 0
    ensures 0 <= r < len
  {
    Stride(HashIndex(key, len), StepSize(key, len), len, j)
  }

  // ---------------------------------------------------------------------
  // The probe sequence

  /** The `j`-th probe is the home slot plus `j` strides, modulo the length. */
  lemma ProbeClosedForm(key: string, len: int, j: nat)
    requires len > 0
    ensures Probe(key, len, j) == (HashIndex(key, len) + j * StepSize(key, len)) % len
  {
    StrideClosedForm(HashIndex(key, len), StepSize(key, len), len, j);
    StridesAreProduct(j, StepSize(key, len));
  }

  /** `j` strides of `step`, added up one at a time. */
  function Strides(j: nat, step: int): int
  {
    if j == 0 then 0 else Strides(j - 1, step) + step
  }

  lemma {:induction false} StridesAreProduct(j: nat, step: int)
    ensures Strides(j, step) == j * step
  {
    if j > 0 {
      StridesAreProduct(j - 1, step);
      OneMoreStride(j, step);
    }
  }

  lemma OneMoreStride(j: int, step: int)
    ensures (j - 1) * step + step == j * step
  {
  }

  lemma {:induction false} StrideClosedForm(home: int, step: int, len: int, j: nat)
    requires 0 <= home < len
    ensures Stride(home, step, len, j) == (home + Strides(j, step)) % len
  {
    if j == 0 {
      StrideAtHome(home, len);
    } else {
      StrideClosedForm(home, step, len, j - 1);
      ChainStep(Stride(home, step, len, j), Stride(home, step, len, j - 1),
                Strides(j, step), Strides(j - 1, step), home, step, len);
    }
  }

  /** One step of the closed form: a slot `sprev` at offset `home + tprev`,
      one stride on, is at offset `home + tprev + step`. */
  lemma ChainStep(sj: int, sprev: int, t: int, tprev: int, home: int, step: int, len: int)
    requires len > 0 && sj == (sprev + step) % len && sprev == (home + tprev) % len && t == tprev + step
    ensures sj == (home + t) % len
  {
    StrideStep(home + tprev, step, len);
  }

  lemma StrideAtHome(home: int, len: int)
    requires 0 <= home < len
    ensures home % len == home
  {
    DivModUnique(home, len, 0, home);
  }

  /** After `len` strides the probe is back at the home slot. */
  lemma ProbeWraps(key: string, len: int)
    requires len > 0
    ensures Probe(key, len, len) == Probe(key, len, 0)
  {
    var h := HashIndex(key, len);
    ProbeClosedForm(key, len, len);
    DivModUnique(h + len * StepSize(key, len), len, StepSize(key, len), h);
  }

  /** In a prime table of at least 7 slots the first `len` probes are all
      different: a stride of 1 to 5 is a unit modulo the size. */
  lemma ProbeInjective(key: string, len: int, i: nat, j: nat)
    requires len >= 7 && IsPrime(len) && i < j < len
    ensures Probe(key, len, i) != Probe(key, len, j)
  {
    var h, st := HashIndex(key, len), StepSize(key, len);
    ProbeClosedForm(key, len, i);
    ProbeClosedForm(key, len, j);
    StrideGap(h, i, j, st);
    NoZeroDivisors(len, j - i, st);
    DifferentResidues(h + i * st, h + j * st, len);
  }

  lemma StrideGap(h: int, i: int, j: int, st: int)
    ensures (h + j * st) - (h + i * st) == (j - i) * st
  {
  }

  /** Offsets whose difference is no multiple of `len` lie in different
      slots. */
  lemma DifferentResidues(a: int, b: int, len: int)
    requires len > 0 && (b - a) % len != 0
    ensures a % len != b % len
  {
    if a % len == b % len {
      DivModSplit(a, len);
      DivModSplit(b, len);
      assert b - a == len * (b / len - a / len);
      MultipleMod(len, b / len - a / len);
    }
  }

  /** The probe is back at the home slot exactly after `len` strides. */
  lemma ProbeReturns(key: string, len: int, j: nat)
    requires len >= 7 && IsPrime(len) && 0 < j <= len
    ensures Probe(key, len, j) == Probe(key, len, 0) <==> j == len
  {
    if j < len {
      ProbeInjective(key, len, 0, j);
    } else {
      ProbeWraps(key, len);
    }
  }

  ghost function ProbeSet(key: string, len: int, n: nat): set<int>
    requires len > 0
  {
    set j | 0 <= j < n :: Probe(key, len, j)
  }

  /** The first `n` probes are `n` different slots. */
  lemma {:induction false} ProbeSetSize(key: string, len: int, n: nat)
    requires len >= 7 && IsPrime(len) && n <= len
    ensures |ProbeSet(key, len, n)| == n
  {
    if n > 0 {
      ProbeSetSize(key, len, n - 1);
      assert ProbeSet(key, len, n) == ProbeSet(key, len, n - 1) + {Probe(key, len, n - 1)};
      if Probe(key, len, n - 1) in ProbeSet(key, len, n - 1) {
        var j :| 0 <= j < n - 1 && Probe(key, len, j) == Probe(key, len, n - 1);
        ProbeInjective(key, len, j, n - 1);
      }
    } else {
      assert ProbeSet(key, len, n) == {};
    }
  }

  /** One more stride on a slot already reduced modulo the length. */
  lemma StrideStep(a: int, st: int, len: int)
    requires len > 0
    ensures (a % len + st) % len == (a + st) % len
  {
    var t := a % len + st;
    DivModSplit(a, len);
    DivModSplit(t, len);
    assert a + st == len * (a / len + t / len) + t % len;
    DivModUnique(a + st, len, a / len + t / len, t % len);
  }

  // ---------------------------------------------------------------------
  // Occupied slots and the table's contents

  ghost function OccupiedSet(s: Slots): set<int>
  {
    set i | 0 <= i < |s| && s[i].state == Occupied
  }

  /** No key is in two occupied slots. */
  ghost predicate UniqueKeys(s: Slots)
  {
    forall i, j | 0 <= i < |s| && 0 <= j < |s| && s[i].state == Occupied &&
                  s[j].state == Occupied && s[i].key == s[j].key :: i == j
  }

  /** The key-to-vehicle map the occupied slots hold. */
  ghost function TableContents(s: Slots): map<string, Vehicle>
    requires UniqueKeys(s)
  {
    map i | 0 <= i < |s| && s[i].state == Occupied && s[i].value.Some? :: s[i].key := s[i].value.value
  }

  // ---------------------------------------------------------------------
  // What the two probe loops compute

  /** Where `_findKey` stops when it is at probe `j`: the first occupied slot
      holding `key`, or `None` at a never-used slot or once the probe is back
      at the home slot.  Formerly-used slots and other keys are passed over. */
  ghost function FindFrom(s: Slots, key: string, j: nat): (r: Option<int>)
    requires |s| > 0
    ensures r.Some? ==> 0 <= r.value < |s| && s[r.value].state == Occupied && s[r.value].key == key
    decreases |s| - j
  {
    if j >= |s| then None
    else
      var p := Probe(key, |s|, j);
      if s[p].state == NeverUsed then None
      else if s[p].key == key && s[p].state == Occupied then Some(p)
      else FindFrom(s, key, j + 1)
  }

  /** A slot that `_findKey` passes over sends it on to the next probe,
      which is the stride further on. */
  lemma FindFromNext(s: Slots, key: string, j: nat)
    requires |s| > 0 && j < |s|
    requires var p := Probe(key, |s|, j);
             s[p].state != NeverUsed && !(s[p].key == key && s[p].state == Occupied)
    ensures FindFrom(s, key, j) == FindFrom(s, key, j + 1)
    ensures Probe(key, |s|, j + 1) == (Probe(key, |s|, j) + StepSize(key, |s|)) % |s|
  {
  }

  /** Where the probe loop of `insert` stops when it is at probe `j`: the
      first slot that is never used or formerly used, or occupied by `key`. */
  ghost function StopFrom(s: Slots, key: string, j: nat): (r: Option<int>)
    requires |s| > 0
    ensures r.Some? ==> 0 <= r.value < |s| && (s[r.value].state != Occupied || s[r.value].key == key)
    decreases |s| - j
  {
    if j >= |s| then None
    else
      var p := Probe(key, |s|, j);
      if s[p].state == NeverUsed || s[p].state == FormerlyUsed then Some(p)
      else if s[p].key == key && s[p].state == Occupied then Some(p)
      else StopFrom(s, key, j + 1)
  }

  /** Slot `i` is occupied. */
  ghost predicate Stored(s: Slots, i: int)
  {
    0 <= i < |s| && s[i].state == Occupied
  }

  /** The table invariant: a prime size of at least 7, and every occupied
      slot holds a vehicle under that vehicle's id and is where `_findKey`
      finds that id. */
  ghost predicate TableOk(s: Slots)
  {
    && |s| >= 7 && IsPrime(|s|)
    && forall i {:trigger Stored(s, i)} | Stored(s, i) ::
         && s[i].value.Some? && s[i].value.value.vehicleID == s[i].key
         && FindFrom(s, s[i].key, 0) == Some(i)
  }

  // ---------------------------------------------------------------------
  // Lemmas about the probe loops

  /** A table without an occupied slot for `key` makes `_findKey` fail. */
  lemma {:induction false} FindFromMiss(s: Slots, key: string, j: nat)
    requires |s| > 0
    requires forall i | 0 <= i < |s| :: !(s[i].state == Occupied && s[i].key == key)
    ensures FindFrom(s, key, j) == None
    decreases |s| - j
  {
    if j < |s| {
      FindFromMiss(s, key, j + 1);
    }
  }

  /** Replacing one slot does not move where `_findKey` finds `key`, as
      long as the new entry is passed over like the old one (a different
      slot) or holds `key` (the same slot). */
  lemma {:induction false} FindFromUpdate(s: Slots, key: string, j: nat, x: int, e: HashEntry)
    requires |s| > 0 && 0 <= x < |s| && FindFrom(s, key, j).Some?
    requires var i := FindFrom(s, key, j).value;
             if x == i then e.state == Occupied && e.key == key
             else e.state != NeverUsed && !(e.state == Occupied && e.key == key)
    ensures FindFrom(s[x := e], key, j) == FindFrom(s, key, j)
    decreases |s| - j
  {
    var p := Probe(key, |s|, j);
    if !(s[p].key == key && s[p].state == Occupied) && p != x {
      FindFromUpdate(s, key, j + 1, x, e);
    } else if p == x && !(s[p].key == key && s[p].state == Occupied) {
      FindFromUpdate(s, key, j + 1, x, e);
    }
  }

  /** For a key the table does not hold, the insert loop stops at a free
      slot, and filling that slot with the key makes `_findKey` find it there. */
  lemma {:induction false} StopFromFree(s: Slots, key: string, j: nat, e: HashEntry)
    requires |s| > 0 && FindFrom(s, key, j) == None && StopFrom(s, key, j).Some?
    requires e.state == Occupied && e.key == key
    ensures var x := StopFrom(s, key, j).value;
            0 <= x < |s| && s[x].state != Occupied &&
            FindFrom(s[StopFrom(s, key, j).value := e], key, j) == Some(x)
    decreases |s| - j
  {
    var p := Probe(key, |s|, j);
    if s[p].state == Occupied {
      StopFromFree(s, key, j + 1, e);
    }
  }

  /** A probe loop of `insert` that never stops has seen only occupied slots. */
  lemma {:induction false} StopFromMiss(s: Slots, key: string, j: nat)
    requires |s| > 0 && StopFrom(s, key, j) == None
    ensures forall k | j <= k < |s| :: s[Probe(key, |s|, k)].state == Occupied
    decreases |s| - j
  {
    if j < |s| {
      StopFromMiss(s, key, j + 1);
    }
  }

  /** With a free slot anywhere, the insert loop stops within one cycle:
      the probes of a prime table visit every slot. */
  lemma StopFromFound(s: Slots, key: string)
    requires |s| >= 7 && IsPrime(|s|) && |OccupiedSet(s)| < |s|
    ensures StopFrom(s, key, 0).Some?
  {
    if StopFrom(s, key, 0) == None {
      StopFromMiss(s, key, 0);
      ProbeSetSize(key, |s|, |s|);
      assert ProbeSet(key, |s|, |s|) <= OccupiedSet(s);
      SubsetSize(ProbeSet(key, |s|, |s|), OccupiedSet(s));
    }
  }

  lemma SubsetSize<T>(a: set<T>, b: set<T>)
    requires a <= b
    ensures |a| <= |b|
  {
    assert b == a + (b - a);
    assert a * (b - a) == {};
  }

  // ---------------------------------------------------------------------
  // The contents, slot by slot

  /** No id is stored twice, and every occupied slot holds a vehicle with
      that slot's id. */
  lemma TableOkUnique(s: Slots)
    requires TableOk(s)
    ensures UniqueKeys(s)
    ensures forall i | 0 <= i < |s| && s[i].state == Occupied ::
              s[i].value.Some? && s[i].value.value.vehicleID == s[i].key
  {
    forall i, j | 0 <= i < |s| && 0 <= j < |s| && s[i].state == Occupied &&
                  s[j].state == Occupied && s[i].key == s[j].key
      ensures i == j
    {
      assert Stored(s, i) && Stored(s, j);
    }
    forall i | 0 <= i < |s| && s[i].state == Occupied
      ensures s[i].value.Some? && s[i].value.value.vehicleID == s[i].key
    {
      assert Stored(s, i);
    }
  }

  /** The pair of an occupied slot is in the contents. */
  lemma ContentsHolds(s: Slots, i: int)
    requires UniqueKeys(s) && 0 <= i < |s| && s[i].state == Occupied && s[i].value.Some?
    ensures s[i].key in TableContents(s) && TableContents(s)[s[i].key] == s[i].value.value
  {
  }

  /** Every stored id comes from an occupied slot. */
  lemma ContentsSlot(s: Slots, k: string) returns (i: int)
    requires UniqueKeys(s) && k in TableContents(s)
    ensures 0 <= i < |s| && s[i].state == Occupied && s[i].value.Some? && s[i].key == k
    ensures TableContents(s)[k] == s[i].value.value
  {
    i :| 0 <= i < |s| && s[i].state == Occupied && s[i].value.Some? && s[i].key == k;
  }

  /** The contents with the pair of slot `x` of `s` replaced by the pair
      of `e`: what `TableContents(s[x := e])` is. */
  ghost function Replaced(s: Slots, x: int, e: HashEntry): map<string, Vehicle>
    requires 0 <= x < |s| && UniqueKeys(s)
    requires e.state == Occupied ==> e.value.Some?
  {
    var gone := if s[x].state == Occupied then TableContents(s) - {s[x].key} else TableContents(s);
    if e.state == Occupied then gone[e.key := e.value.value] else gone
  }

  /** Replacing one slot removes the pair it held and adds the pair it now holds. */
  lemma UpdateContents(s: Slots, x: int, e: HashEntry)
    requires 0 <= x < |s| && UniqueKeys(s) && UniqueKeys(s[x := e])
    requires s[x].state == Occupied ==> s[x].value.Some?
    requires e.state == Occupied ==> e.value.Some?
    ensures TableContents(s[x := e]) == Replaced(s, x, e)
  {
    UpdateContentsNew(s, x, e);
    UpdateContentsOld(s, x, e);
  }

  lemma UpdateContentsNew(s: Slots, x: int, e: HashEntry)
    requires 0 <= x < |s| && UniqueKeys(s) && UniqueKeys(s[x := e])
    requires e.state == Occupied ==> e.value.Some?
    ensures forall k | k in TableContents(s[x := e]) ::
              k in Replaced(s, x, e) && Replaced(s, x, e)[k] == TableContents(s[x := e])[k]
  {
    var t := s[x := e];
    forall k | k in TableContents(t) ensures k in Replaced(s, x, e) && Replaced(s, x, e)[k] == TableContents(t)[k] {
      var i := ContentsSlot(t, k);
      if i != x {
        assert t[i] == s[i];
        ContentsHolds(s, i);
        if s[x].state == Occupied {
          assert s[x].key != k;
        }
        if e.state == Occupied {
          assert t[x].key != k;
        }
      }
    }
  }

  lemma UpdateContentsOld(s: Slots, x: int, e: HashEntry)
    requires 0 <= x < |s| && UniqueKeys(s) && UniqueKeys(s[x := e])
    requires e.state == Occupied ==> e.value.Some?
    ensures forall k | k in Replaced(s, x, e) :: k in TableContents(s[x := e])
  {
    var t := s[x := e];
    forall k | k in Replaced(s, x, e) ensures k in TableContents(t) {
      if !(e.state == Occupied && k == e.key) {
        var i := ContentsSlot(s, k);
        assert i != x;
        assert t[i] == s[i];
        ContentsHolds(t, i);
      } else {
        ContentsHolds(t, x);
      }
    }
  }

  lemma UpdateOccupied(s: Slots, x: int, e: HashEntry)
    requires 0 <= x < |s|
    ensures OccupiedSet(s[x := e]) == (OccupiedSet(s) - {x}) + (if e.state == Occupied then {x} else {})
  {
    assert forall i | 0 <= i < |s| && i != x :: s[x := e][i] == s[i];
  }

  /** A set one element larger. */
  lemma AddOne(a: set<int>, x: int)
    requires x !in a
    ensures |a + {x}| == |a| + 1
  {
  }

  /** Storing a vehicle in a free slot or over the slot of its id adds or
      replaces the pair of that id and occupies at most one more slot. */
  lemma Store(s: Slots, x: int, v: Vehicle)
    requires 0 <= x < |s| && (s[x].state != Occupied || (s[x].key == v.vehicleID && s[x].value.Some?))
    requires UniqueKeys(s) && UniqueKeys(s[x := HashEntry(v.vehicleID, Some(v), Occupied)])
    ensures var t := s[x := HashEntry(v.vehicleID, Some(v), Occupied)];
            && TableContents(t) == TableContents(s)[v.vehicleID := v]
            && |OccupiedSet(t)| == |OccupiedSet(s)| + (if s[x].state == Occupied then 0 else 1)
  {
    var e := HashEntry(v.vehicleID, Some(v), Occupied);
    UpdateContents(s, x, e);
    assert Replaced(s, x, e) == TableContents(s)[v.vehicleID := v];
    OccupyCount(s, x, e);
  }

  lemma OccupyCount(s: Slots, x: int, e: HashEntry)
    requires 0 <= x < |s| && e.state == Occupied
    ensures |OccupiedSet(s[x := e])| == |OccupiedSet(s)| + (if s[x].state == Occupied then 0 else 1)
  {
    UpdateOccupied(s, x, e);
    if s[x].state != Occupied {
      AddOne(OccupiedSet(s), x);
    } else {
      assert OccupiedSet(s[x := e]) == OccupiedSet(s);
    }
  }

  /** Marking the slot of a stored id formerly used removes exactly that id. */
  lemma Drop(s: Slots, x: int)
    requires 0 <= x < |s| && s[x].state == Occupied && s[x].value.Some?
    requires UniqueKeys(s) && UniqueKeys(s[x := s[x].(state := FormerlyUsed)])
    ensures var t := s[x := s[x].(state := FormerlyUsed)];
            && s[x].key in TableContents(s)
            && TableContents(t) == TableContents(s) - {s[x].key}
            && |OccupiedSet(t)| == |OccupiedSet(s)| - 1
  {
    var e := s[x].(state := FormerlyUsed);
    UpdateContents(s, x, e);
    UpdateOccupied(s, x, e);
    ContentsHolds(s, x);
    assert OccupiedSet(s) == OccupiedSet(s[x := e]) + {x};
    AddOne(OccupiedSet(s[x := e]), x);
  }

  // ---------------------------------------------------------------------
  // The table invariant under the three kinds of slot update

  /** Storing a vehicle under an id the table does not hold, in the slot the
      insert loop stops at, keeps the invariant; that slot was not occupied. */
  lemma FillFree(s: Slots, v: Vehicle)
    requires TableOk(s) && FindFrom(s, v.vehicleID, 0) == None
    requires StopFrom(s, v.vehicleID, 0).Some?
    ensures var x := StopFrom(s, v.vehicleID, 0).value;
            0 <= x < |s| && s[x].state != Occupied && TableOk(s[x := HashEntry(v.vehicleID, Some(v), Occupied)])
  {
    var key := v.vehicleID;
    var e := HashEntry(key, Some(v), Occupied);
    var x := StopFrom(s, key, 0).value;
    StopFromFree(s, key, 0, e);
    var t := s[x := e];
    forall i | Stored(t, i)
      ensures t[i].value.Some? && t[i].value.value.vehicleID == t[i].key
      ensures FindFrom(t, t[i].key, 0) == Some(i)
    {
      if i != x {
        assert Stored(s, i);
        FindFromUpdate(s, s[i].key, 0, x, e);
      }
    }
  }

  /** Storing a vehicle over the slot that holds its id keeps the invariant. */
  lemma Overwrite(s: Slots, x: int, v: Vehicle)
    requires TableOk(s) && 0 <= x < |s| && s[x].state == Occupied && s[x].key == v.vehicleID
    ensures TableOk(s[x := HashEntry(v.vehicleID, Some(v), Occupied)])
  {
    var e := HashEntry(v.vehicleID, Some(v), Occupied);
    var t := s[x := e];
    assert Stored(s, x);
    forall i | Stored(t, i)
      ensures t[i].value.Some? && t[i].value.value.vehicleID == t[i].key
      ensures FindFrom(t, t[i].key, 0) == Some(i)
    {
      assert Stored(s, i);
      FindFromUpdate(s, s[i].key, 0, x, e);
    }
  }

  /** Marking an occupied slot formerly used keeps the invariant: probes
      still pass over it. */
  lemma Tombstone(s: Slots, x: int)
    requires TableOk(s) && 0 <= x < |s| && s[x].state == Occupied
    ensures TableOk(s[x := s[x].(state := FormerlyUsed)])
  {
    var e := s[x].(state := FormerlyUsed);
    var t := s[x := e];
    forall i | Stored(t, i)
      ensures t[i].value.Some? && t[i].value.value.vehicleID == t[i].key
      ensures FindFrom(t, t[i].key, 0) == Some(i)
    {
      assert Stored(s, i);
      FindFromUpdate(s, s[i].key, 0, x, e);
    }
  }

  /** On a table that keeps the invariant, `_findKey` succeeds exactly for
      the stored ids, at the slot that holds the id's vehicle. */
  lemma FindFromContents(s: Slots, key: string)
    requires TableOk(s)
    ensures UniqueKeys(s)
    ensures FindFrom(s, key, 0) == None <==> key !in TableContents(s)
    ensures FindFrom(s, key, 0).Some? ==>
              var i := FindFrom(s, key, 0).value;
              0 <= i < |s| && s[i].state == Occupied && s[i].key == key &&
              s[i].value == Some(TableContents(s)[key])
  {
    TableOkUnique(s);
    if FindFrom(s, key, 0).Some? {
      ContentsHolds(s, FindFrom(s, key, 0).value);
    } else if key in TableContents(s) {
      var i := ContentsSlot(s, key);
      assert Stored(s, i);
    }
  }

  // ---------------------------------------------------------------------
  // Rebuilding a table slot by slot (`_resize`)

  lemma UniquePrefix(s: Slots, n: int)
    requires UniqueKeys(s) && 0 <= n <= |s|
    ensures UniqueKeys(s[..n])
  {
  }

  lemma OccupiedPrefix(s: Slots, n: int)
    requires 0 <= n < |s|
    ensures n !in OccupiedSet(s[..n])
    ensures OccupiedSet(s[..n + 1]) == OccupiedSet(s[..n]) + (if s[n].state == Occupied then {n} else {})
  {
  }

  /** One more slot of an old array: its pair joins the contents of the
      slots before it, under an id none of them holds. */
  lemma PrefixStep(s: Slots, n: int)
    requires UniqueKeys(s) && 0 <= n < |s|
    requires forall i | 0 <= i < |s| && s[i].state == Occupied :: s[i].value.Some?
    ensures UniqueKeys(s[..n]) && UniqueKeys(s[..n + 1])
    ensures s[n].state == Occupied ==>
              && s[n].key !in TableContents(s[..n])
              && TableContents(s[..n + 1]) == TableContents(s[..n])[s[n].key := s[n].value.value]
    ensures s[n].state != Occupied ==> TableContents(s[..n + 1]) == TableContents(s[..n])
  {
    UniquePrefix(s, n);
    UniquePrefix(s, n + 1);
    var a, b := s[..n], s[..n + 1];
    var want := if s[n].state == Occupied then TableContents(a)[s[n].key := s[n].value.value] else TableContents(a);
    if s[n].state == Occupied && s[n].key in TableContents(a) {
      var i := ContentsSlot(a, s[n].key);
      assert false;
    }
    PrefixKeysKept(s, n, want);
    PrefixKeysFound(s, n, want);
    assert TableContents(b) == want;
  }

  /** Every id of the longer prefix is kept, with its vehicle. */
  lemma PrefixKeysKept(s: Slots, n: int, want: map<string, Vehicle>)
    requires 0 <= n < |s| && UniqueKeys(s[..n]) && UniqueKeys(s[..n + 1])
    requires forall i | 0 <= i < |s| && s[i].state == Occupied :: s[i].value.Some?
    requires want == if s[n].state == Occupied then TableContents(s[..n])[s[n].key := s[n].value.value]
                     else TableContents(s[..n])
    ensures forall k | k in TableContents(s[..n + 1]) :: k in want && want[k] == TableContents(s[..n + 1])[k]
  {
    var a, b := s[..n], s[..n + 1];
    forall k | k in TableContents(b) ensures k in want && want[k] == TableContents(b)[k] {
      var i := ContentsSlot(b, k);
      if i < n {
        assert a[i] == b[i];
        ContentsHolds(a, i);
      }
    }
  }

  /** Every id of the shorter prefix, and the new one, is in the longer. */
  lemma PrefixKeysFound(s: Slots, n: int, want: map<string, Vehicle>)
    requires 0 <= n < |s| && UniqueKeys(s[..n]) && UniqueKeys(s[..n + 1])
    requires forall i | 0 <= i < |s| && s[i].state == Occupied :: s[i].value.Some?
    requires want == if s[n].state == Occupied then TableContents(s[..n])[s[n].key := s[n].value.value]
                     else TableContents(s[..n])
    ensures forall k | k in want :: k in TableContents(s[..n + 1])
  {
    var a, b := s[..n], s[..n + 1];
    forall k | k in want ensures k in TableContents(b) {
      if !(s[n].state == Occupied && k == s[n].key) {
        var i := ContentsSlot(a, k);
        assert a[i] == b[i];
        ContentsHolds(b, i);
      } else {
        ContentsHolds(b, n);
      }
    }
  }

  lemma PrefixOccupiedSize(s: Slots, n: int)
    requires 0 <= n <= |s|
    ensures |OccupiedSet(s[..n])| <= |OccupiedSet(s)|
  {
    assert OccupiedSet(s[..n]) <= OccupiedSet(s);
    SubsetSize(OccupiedSet(s[..n]), OccupiedSet(s));
  }

  /** One step of `_resize`: what re-inserting slot `n` of the old array
      adds to the contents and to the count. */
  lemma RehashStep(s: Slots, n: int)
    requires UniqueKeys(s) && 0 <= n < |s|
    requires forall i | 0 <= i < |s| && s[i].state == Occupied :: s[i].value.Some?
    ensures UniqueKeys(s[..n]) && UniqueKeys(s[..n + 1]) && |OccupiedSet(s[..n])| <= |OccupiedSet(s)|
    ensures s[n].state == Occupied ==>
              && s[n].key !in TableContents(s[..n])
              && TableContents(s[..n + 1]) == TableContents(s[..n])[s[n].key := s[n].value.value]
              && |OccupiedSet(s[..n + 1])| == |OccupiedSet(s[..n])| + 1
    ensures s[n].state != Occupied ==>
              && TableContents(s[..n + 1]) == TableContents(s[..n])
              && |OccupiedSet(s[..n + 1])| == |OccupiedSet(s[..n])|
  {
    PrefixStep(s, n);
    OccupiedPrefix(s, n);
    PrefixOccupiedSize(s, n);
    if s[n].state == Occupied {
      AddOne(OccupiedSet(s[..n]), n);
    }
  }

  // ---------------------------------------------------------------------
  // Listing the occupied slots (`getVehicleList`, `export`)

  /** The (id, vehicle) pairs of the occupied slots, in slot order. */
  ghost function OccupiedPairs(s: Slots): seq<(string, Vehicle)>
  {
    if s == [] then []
    else
      var e := s[|s| - 1];
      OccupiedPairs(s[..|s| - 1]) + (if e.state == Occupied && e.value.Some? then [(e.key, e.value.value)] else [])
  }

  /** The vehicles of the occupied slots, in slot order. */
  ghost function OccupiedValues(s: Slots): seq<Vehicle>
  {
    if s == [] then []
    else
      var e := s[|s| - 1];
      OccupiedValues(s[..|s| - 1]) + (if e.state == Occupied && e.value.Some? then [e.value.value] else [])
  }

  /** The vehicles listed are the second halves of the listed pairs. */
  lemma {:induction false} OccupiedValuesArePairs(s: Slots)
    ensures |OccupiedValues(s)| == |OccupiedPairs(s)|
    ensures forall k | 0 <= k < |OccupiedValues(s)| :: OccupiedValues(s)[k] == OccupiedPairs(s)[k].1
  {
    if s != [] {
      OccupiedValuesArePairs(s[..|s| - 1]);
    }
  }

  /** Listing one more slot. */
  lemma ListingStep(s: Slots, n: int)
    requires 0 <= n < |s|
    ensures OccupiedValues(s[..n + 1]) ==
              OccupiedValues(s[..n]) + (if s[n].state == Occupied && s[n].value.Some? then [s[n].value.value] else [])
    ensures OccupiedPairs(s[..n + 1]) ==
              OccupiedPairs(s[..n]) + (if s[n].state == Occupied && s[n].value.Some? then [(s[n].key, s[n].value.value)] else [])
  {
    assert s[..n + 1][..n] == s[..n];
  }

  /** The listed pairs are the table's contents, one pair per stored id, and
      there are as many as occupied slots. */
  lemma OccupiedPairsAreContents(s: Slots)
    requires UniqueKeys(s)
    requires forall i | 0 <= i < |s| && s[i].state == Occupied :: s[i].value.Some?
    ensures |OccupiedPairs(s)| == |OccupiedSet(s)|
    ensures forall p :: p in OccupiedPairs(s) <==> p.0 in TableContents(s) && TableContents(s)[p.0] == p.1
  {
    OccupiedPairsCount(s);
    OccupiedPairsMembers(s);
  }

  lemma {:induction false} OccupiedPairsCount(s: Slots)
    requires forall i | 0 <= i < |s| && s[i].state == Occupied :: s[i].value.Some?
    ensures |OccupiedPairs(s)| == |OccupiedSet(s)|
  {
    if s != [] {
      var n := |s| - 1;
      assert s[..n + 1] == s;
      OccupiedPairsCount(s[..n]);
      OccupiedPrefix(s, n);
      if s[n].state == Occupied {
        AddOne(OccupiedSet(s[..n]), n);
      }
    }
  }

  lemma {:induction false} OccupiedPairsMembers(s: Slots)
    requires UniqueKeys(s)
    requires forall i | 0 <= i < |s| && s[i].state == Occupied :: s[i].value.Some?
    ensures forall p :: p in OccupiedPairs(s) <==> p.0 in TableContents(s) && TableContents(s)[p.0] == p.1
  {
    if s != [] {
      var n := |s| - 1;
      UniquePrefix(s, n);
      OccupiedPairsMembers(s[..n]);
      PairsStep(s, n);
    }
  }

  lemma PairsStep(s: Slots, n: int)
    requires n == |s| - 1 >= 0 && UniqueKeys(s) && UniqueKeys(s[..n])
    requires forall i | 0 <= i < |s| && s[i].state == Occupied :: s[i].value.Some?
    requires forall p :: p in OccupiedPairs(s[..n]) <==> p.0 in TableContents(s[..n]) && TableContents(s[..n])[p.0] == p.1
    ensures forall p :: p in OccupiedPairs(s) <==> p.0 in TableContents(s) && TableContents(s)[p.0] == p.1
  {
    var a := s[..n];
    forall p ensures p in OccupiedPairs(s) <==> p.0 in TableContents(s) && TableContents(s)[p.0] == p.1 {
      if p in OccupiedPairs(s) {
        if p in OccupiedPairs(a) {
          var i := ContentsSlot(a, p.0);
          assert s[i] == a[i];
          ContentsHolds(s, i);
        } else {
          ContentsHolds(s, n);
        }
      }
      if p.0 in TableContents(s) && TableContents(s)[p.0] == p.1 {
        var i := ContentsSlot(s, p.0);
        if i < n {
          ContentsHolds(a, i);
        }
      }
    }
  }
}
