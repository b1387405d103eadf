/** `VehicleHashTable` (VehicleHashTable.py): vehicles stored under their
    ids in an open-addressing table with double hashing, formerly-used
    markers for deleted slots, a prime size, growth when the load factor
    reaches 0.7 and shrinking when it falls below 0.2.

    The load factor `count / len(hashArray)` is compared as integers:
    `count / len >= 0.7` is `10 * count >= 7 * len` and `count / len < 0.2`
    is `5 * count < len`.  The size is always prime, never a multiple of
    10 or 5 from 7 on, so no ratio lies on a threshold and rounding cannot
    tell the two forms apart. */
module HashTable {
  import opened Wrappers
  import opened Vehicles
  import opened Primes
  import opened HashProbe
  import opened LinkedList

  /** `KeyNotFoundError`. */
  datatype HashError = KeyNotFound

  class VehicleHashTable {
    var hashArray: array<HashEntry>
    var count: nat

    /** The table invariant, the count of occupied slots, and room for
        that count. */
    ghost predicate Valid()
      reads this, hashArray
    {
      && TableOk(hashArray[..])
      && count == |OccupiedSet(hashArray[..])|
      && count <= hashArray.Length
    }

    /** The vehicle stored under each id. */
    ghost function Contents(): map<string, Vehicle>
      reads this, hashArray
      requires Valid()
    {
      TableOkUnique(hashArray[..]);
      TableContents(hashArray[..])
    }

    /** A table of the least prime size above `max(tableSize, 5)`, every
        slot never used. */
    constructor (tableSize: int)
      ensures Valid() && Contents() == map[] && count == 0
      ensures var least := if tableSize < 5 then 5 else tableSize;
              least < hashArray.Length && IsPrime(hashArray.Length) &&
              forall q | least < q < hashArray.Length :: !IsPrime(q)
      ensures forall i | 0 <= i < hashArray.Length :: hashArray[i] == EmptyEntry
    {
      var size := if tableSize < 5 then 5 else tableSize;
      var actualSize := NextPrime(size);
      PrimeAboveFive(actualSize);
      hashArray := new HashEntry[actualSize](_ => EmptyEntry);
      count := 0;
      new;
      assert OccupiedSet(hashArray[..]) == {};
    }

    /** `_hash`: the Shift-Add-XOR accumulator over the characters of the
        id, reduced modulo the size. */
    method Hash(vehicleID: string) returns (hashIdx: int)
      requires hashArray.Length > 0
      ensures hashIdx == HashIndex(vehicleID, hashArray.Length)
      ensures 0 <= hashIdx < hashArray.Length
    {
      var acc: nat := 0;
      for i := 0 to |vehicleID|
        invariant acc == Sax(vehicleID[..i])
      {
        var code := vehicleID[i] as int;
        assert vehicleID[..i + 1][..i] == vehicleID[..i];
        acc := Xor(acc, 32 * acc + 4 * acc + code);
      }
      assert vehicleID[..|vehicleID|] == vehicleID;
      // abs() leaves the accumulator as it is: it is never negative
      hashIdx := acc % hashArray.Length;
    }

    /** `_stepHash`: the stride of the probe sequence, from 1 to 5. */
    method StepHash(vehicleID: string) returns (stepHash: int)
      requires hashArray.Length > 0
      ensures stepHash == StepSize(vehicleID, hashArray.Length)
      ensures 1 <= stepHash <= 5
    {
      var hashVal := Hash(vehicleID);
      stepHash := 5 - hashVal % 5;
      if stepHash == 0 {
        stepHash := 1;
      }
    }

    /** `_findKey`: follows the probe sequence of the id until it finds the
        id in an occupied slot, reaches a never-used slot or is back at the
        home slot; -1 when the id is not found. */
    method FindKey(vehicleID: string) returns (idx: int)
      requires hashArray.Length >= 7 && IsPrime(hashArray.Length)
      ensures FindFrom(hashArray[..], vehicleID, 0) == if idx == -1 then None else Some(idx)
    {
      var hashIdx := Hash(vehicleID);
      var origIdx := hashIdx;
      var stepSize := StepHash(vehicleID);
      var found, giveUp := false, false;
      ghost var s, len := hashArray[..], hashArray.Length;
      ghost var j: nat := 0;
      while !found && !giveUp
        invariant len == hashArray.Length && origIdx == Probe(vehicleID, len, 0) && stepSize == StepSize(vehicleID, len)
        invariant j <= len && hashIdx == Probe(vehicleID, len, j) && (!giveUp ==> j < len)
        invariant !found && !giveUp ==> FindFrom(s, vehicleID, j) == FindFrom(s, vehicleID, 0)
        invariant found ==> !giveUp && FindFrom(s, vehicleID, 0) == Some(hashIdx)
        invariant giveUp ==> FindFrom(s, vehicleID, 0) == None
        decreases len - j, if found || giveUp then 0 else 1
      {
        var entry := hashArray[hashIdx];
        if entry.state == NeverUsed {
          giveUp := true;
        } else if entry.key == vehicleID && entry.state == Occupied {
          found := true;
        } else {
          FindFromNext(s, vehicleID, j);
          hashIdx := (hashIdx + stepSize) % hashArray.Length;
          j := j + 1;
          ProbeReturns(vehicleID, len, j);
          if hashIdx == origIdx {
            giveUp := true;
          }
        }
      }
      if !found {
        hashIdx := -1;
      }
      idx := hashIdx;
    }

    /** `search`: the vehicle stored under the id, or `KeyNotFoundError`. */
    method Search(vehicleID: string) returns (r: Result<Vehicle, HashError>)
      requires Valid()
      ensures vehicleID in Contents() ==> r == Ok(Contents()[vehicleID])
      ensures vehicleID !in Contents() ==> r == Err(KeyNotFound)
    {
      var idx := FindKey(vehicleID);
      FindFromContents(hashArray[..], vehicleID);
      if idx == -1 {
        r := Err(KeyNotFound);
      } else {
        r := Ok(hashArray[idx].value.value);
      }
    }

    /** `hasKey`. */
    method HasKey(inKey: string) returns (b: bool)
      requires Valid()
      ensures b <==> inKey in Contents()
    {
      var idx := FindKey(inKey);
      FindFromContents(hashArray[..], inKey);
      b := idx != -1;
    }

    /** The probe loop of `insert`: follows the probe sequence of the
        vehicle's id to the first slot that is never used, formerly used or
        occupied by that id, and stores the vehicle there.  It does not look
        further for the id once it meets a formerly-used slot. */
    method Place(vehicle: Vehicle)
      requires hashArray.Length >= 7 && IsPrime(hashArray.Length)
      requires |OccupiedSet(hashArray[..])| < hashArray.Length
      modifies this, hashArray
      ensures hashArray == old(hashArray)
      ensures StopFrom(old(hashArray[..]), vehicle.vehicleID, 0).Some?
      ensures var x := StopFrom(old(hashArray[..]), vehicle.vehicleID, 0).value;
              && hashArray[..] == old(hashArray[..])[x := HashEntry(vehicle.vehicleID, Some(vehicle), Occupied)]
              && count == old(count) + (if old(hashArray[x].state) == Occupied then 0 else 1)
    {
      var vehicleID := vehicle.vehicleID;
      var hashIdx := Hash(vehicleID);
      var stepSize := StepHash(vehicleID);
      var origIdx := hashIdx;
      var found, giveUp := false, false;
      ghost var s, len := hashArray[..], hashArray.Length;
      ghost var j: nat := 0;
      ghost var e := HashEntry(vehicleID, Some(vehicle), Occupied);
      StopFromFound(s, vehicleID);
      while !found && !giveUp
        invariant len == hashArray.Length && origIdx == Probe(vehicleID, len, 0) && stepSize == StepSize(vehicleID, len)
        invariant hashArray == old(hashArray)
        invariant j < len && hashIdx == Probe(vehicleID, len, j) && !giveUp
        invariant !found ==> hashArray[..] == s && count == old(count) &&
                             StopFrom(s, vehicleID, j) == StopFrom(s, vehicleID, 0)
        invariant found ==> StopFrom(s, vehicleID, 0) == Some(hashIdx) && hashArray[..] == s[hashIdx := e] &&
                            count == old(count) + (if s[hashIdx].state == Occupied then 0 else 1)
        decreases len - j, if found then 0 else 1
      {
        var entry := hashArray[hashIdx];
        if entry.state == NeverUsed || entry.state == FormerlyUsed {
          hashArray[hashIdx] := HashEntry(vehicleID, Some(vehicle), Occupied);
          count := count + 1;
          found := true;
        } else if entry.key == vehicleID && entry.state == Occupied {
          hashArray[hashIdx] := entry.(value := Some(vehicle));
          found := true;
        } else {
          hashIdx := (hashIdx + stepSize) % hashArray.Length;
          j := j + 1;
          ProbeReturns(vehicleID, len, j);
          if hashIdx == origIdx {
            giveUp := true;
          }
        }
      }
      // The resize-and-retry of a probe that gave up is never needed: a
      // table below the 0.7 load factor has a free slot on every probe cycle.
      assert found;
    }

    /** `insert` with the id looked up first: a vehicle whose id is stored
        replaces the stored one, any other is added; the table first grows
        to the least prime above twice its size when the load factor has
        reached 0.7. */
    method Insert(vehicle: Vehicle)
      requires Valid()
      modifies this, hashArray
      ensures Valid()
      ensures Contents() == old(Contents())[vehicle.vehicleID := vehicle]
      ensures count == old(count) + (if vehicle.vehicleID in old(Contents()) then 0 else 1)
      ensures 10 * old(count) < 7 * old(hashArray.Length) ==> hashArray == old(hashArray)
      ensures 10 * old(count) >= 7 * old(hashArray.Length) ==>
                && fresh(hashArray)
                && old(hashArray.Length) * 2 < hashArray.Length && IsPrime(hashArray.Length)
                && forall q | old(hashArray.Length) * 2 < q < hashArray.Length :: !IsPrime(q)
      decreases if 10 * count >= 7 * hashArray.Length then 2 else 0
    {
      var vehicleID := vehicle.vehicleID;
      if 10 * count >= 7 * hashArray.Length {
        Resize(hashArray.Length * 2);
      }
      ghost var s, c0 := hashArray[..], Contents();
      TableOkUnique(s);
      var idx := FindKey(vehicleID);
      FindFromContents(s, vehicleID);
      if idx != -1 {
        hashArray[idx] := hashArray[idx].(value := Some(vehicle));
        assert hashArray[..] == s[idx := HashEntry(vehicleID, Some(vehicle), Occupied)];
        Overwrite(s, idx, vehicle);
        TableOkUnique(hashArray[..]);
        Store(s, idx, vehicle);
      } else {
        Place(vehicle);
        FillFree(s, vehicle);
        TableOkUnique(hashArray[..]);
        Store(s, StopFrom(s, vehicleID, 0).value, vehicle);
      }
    }

    /** `_resize`: a new array of the least prime size above `newSize`,
        never used, and every vehicle of the old array inserted into it in
        slot order.  The contents and the count stay as they were. */
    method Resize(newSize: int)
      requires Valid() && newSize >= 5 && 10 * count < 7 * newSize
      modifies this
      ensures Valid() && fresh(hashArray)
      ensures Contents() == old(Contents()) && count == old(count)
      ensures newSize < hashArray.Length && IsPrime(hashArray.Length) &&
              forall q | newSize < q < hashArray.Length :: !IsPrime(q)
      decreases 1
    {
      var actualSize := NextPrime(newSize);
      var oldHashArr := hashArray;
      ghost var s := hashArray[..];
      ghost var oldCount := count;
      TableOkUnique(s);
      PrimeAboveFive(actualSize);
      hashArray := new HashEntry[actualSize](_ => EmptyEntry);
      count := 0;
      assert OccupiedSet(hashArray[..]) == {};
      assert s[..0] == [];
      for i := 0 to oldHashArr.Length
        invariant fresh(hashArray) && hashArray.Length == actualSize && oldHashArr[..] == s
        invariant Valid() && UniqueKeys(s[..i])
        invariant Contents() == TableContents(s[..i])
        invariant count == |OccupiedSet(s[..i])|
      {
        RehashStep(s, i);
        var entry := oldHashArr[i];
        if entry.state == Occupied {
          Insert(entry.value.value);
        }
      }
      assert s[..oldHashArr.Length] == s;
    }

    /** `delete`: the slot of the id becomes formerly used and the count
        drops; below a 0.2 load factor a table larger than 5 shrinks to the
        least prime above `max(len // 2, 5)`.  `KeyNotFoundError` when the
        id is not stored. */
    method Delete(vehicleID: string) returns (r: Result<(), HashError>)
      requires Valid()
      modifies this, hashArray
      ensures Valid()
      ensures vehicleID !in old(Contents()) ==>
                && r == Err(KeyNotFound) && count == old(count)
                && hashArray == old(hashArray) && hashArray[..] == old(hashArray[..])
      ensures vehicleID in old(Contents()) ==>
                r == Ok(()) && Contents() == old(Contents()) - {vehicleID} && count == old(count) - 1
      ensures vehicleID in old(Contents()) && 5 * count < old(hashArray.Length) && old(hashArray.Length) > 5 ==>
                var least := if old(hashArray.Length) / 2 > 5 then old(hashArray.Length) / 2 else 5;
                && fresh(hashArray)
                && least < hashArray.Length && IsPrime(hashArray.Length)
                && forall q | least < q < hashArray.Length :: !IsPrime(q)
      ensures !(vehicleID in old(Contents()) && 5 * count < old(hashArray.Length) && old(hashArray.Length) > 5) ==>
                hashArray == old(hashArray)
    {
      var idx := FindKey(vehicleID);
      FindFromContents(hashArray[..], vehicleID);
      if idx == -1 {
        return Err(KeyNotFound);
      }
      ghost var s, c0 := hashArray[..], Contents();
      TableOkUnique(s);
      hashArray[idx] := hashArray[idx].(state := FormerlyUsed);
      Tombstone(s, idx);
      TableOkUnique(hashArray[..]);
      Drop(s, idx);
      count := count - 1;
      assert Contents() == c0 - {vehicleID};
      if 5 * count < hashArray.Length && hashArray.Length > 5 {
        var newSize := if hashArray.Length / 2 > 5 then hashArray.Length / 2 else 5;
        Resize(newSize);
      }
      r := Ok(());
    }

    /** `getVehicleList`: the stored vehicles in slot order. */
    method GetVehicleList() returns (vehicleList: DList<Vehicle>)
      requires Valid()
      ensures vehicleList.Valid() && fresh(vehicleList.Repr)
      ensures vehicleList.Contents == OccupiedValues(hashArray[..])
      ensures |vehicleList.Contents| == count
      ensures forall v :: v in vehicleList.Contents <==> v in Contents().Values
    {
      vehicleList := new DList();
      ghost var s := hashArray[..];
      TableOkUnique(s);
      var arrLen := hashArray.Length;
      var ii := 0;
      assert s[..0] == [];
      while ii < arrLen
        invariant 0 <= ii <= arrLen
        invariant vehicleList.Valid() && fresh(vehicleList.Repr)
        invariant vehicleList.Contents == OccupiedValues(s[..ii])
      {
        var entry := hashArray[ii];
        ListingStep(s, ii);
        if entry.state == Occupied {
          vehicleList.InsertLast(entry.value.value);
        }
        ii := ii + 1;
      }
      assert s[..arrLen] == s;
      Listed(s);
    }

    /** `export`: the (id, vehicle) pair of every occupied slot, in slot
        order. */
    method Export() returns (linkedList: DList<(string, Vehicle)>)
      requires Valid()
      ensures linkedList.Valid() && fresh(linkedList.Repr)
      ensures linkedList.Contents == OccupiedPairs(hashArray[..])
      ensures |linkedList.Contents| == count
      ensures forall p :: p in linkedList.Contents <==> p.0 in Contents() && Contents()[p.0] == p.1
    {
      linkedList := new DList();
      ghost var s := hashArray[..];
      TableOkUnique(s);
      assert s[..0] == [];
      for i := 0 to hashArray.Length
        invariant linkedList.Valid() && fresh(linkedList.Repr)
        invariant linkedList.Contents == OccupiedPairs(s[..i])
      {
        var entry := hashArray[i];
        ListingStep(s, i);
        if entry.state == Occupied {
          linkedList.InsertLast((entry.key, entry.value.value));
        }
      }
      assert s[..hashArray.Length] == s;
      Listed(s);
    }
  }

  /** The listing of a valid table names each stored vehicle, once per id. */
  lemma Listed(s: Slots)
    requires TableOk(s)
    ensures UniqueKeys(s)
    ensures |OccupiedPairs(s)| == |OccupiedValues(s)| == |OccupiedSet(s)|
    ensures forall p :: p in OccupiedPairs(s) <==> p.0 in TableContents(s) && TableContents(s)[p.0] == p.1
    ensures forall v :: v in OccupiedValues(s) <==> v in TableContents(s).Values
  {
    TableOkUnique(s);
    OccupiedPairsAreContents(s);
    OccupiedValuesArePairs(s);
    forall v ensures v in OccupiedValues(s) <==> v in TableContents(s).Values {
      if v in OccupiedValues(s) {
        var k :| 0 <= k < |OccupiedValues(s)| && OccupiedValues(s)[k] == v;
        assert OccupiedPairs(s)[k] in OccupiedPairs(s);
      }
      if v in TableContents(s).Values {
        var id :| id in TableContents(s) && TableContents(s)[id] == v;
        assert (id, v) in OccupiedPairs(s);
        var k :| 0 <= k < |OccupiedPairs(s)| && OccupiedPairs(s)[k] == (id, v);
        assert OccupiedValues(s)[k] == v;
      }
    }
  }
}

/** The table the probe loop of `insert` breaks: seven slots after inserting
    "b", "a" and "h" and deleting "a".  "a" and "h" both hash to slot 6 and
    step by 4, "b" hashes to slot 0; "h" went one stride on, to slot 3, and
    slot 6 is now formerly used. */
module TombstoneExample {
  import opened Wrappers
  import opened Vehicles
  import opened Primes
  import opened HashProbe

  const A := Vehicle("a", "", "", 0, 0)
  const B := Vehicle("b", "", "", 0, 0)
  const H := Vehicle("h", "", "", 0, 0)
  const H2 := Vehicle("h", "", "", 1, 1)

  const Before: Slots := [
    HashEntry("b", Some(B), Occupied), EmptyEntry, EmptyEntry,
    HashEntry("h", Some(H), Occupied), EmptyEntry, EmptyEntry,
    HashEntry("a", Some(A), FormerlyUsed)]

  /** Inserting "h" again with the probe loop alone fills the formerly-used
      slot 6 although "h" is still stored in slot 3: the id is then stored
      twice, and once the newer copy is deleted the older one is found
      again. */
  lemma DuplicateAfterTombstone()
    ensures TableOk(Before)
    ensures FindFrom(Before, "h", 0) == Some(3)
    ensures StopFrom(Before, "h", 0) == Some(6)
    ensures var after := Before[6 := HashEntry("h", Some(H2), Occupied)];
            && after[3] == HashEntry("h", Some(H), Occupied)
            && after[6] == HashEntry("h", Some(H2), Occupied)
            && !UniqueKeys(after)
            && FindFrom(after[6 := after[6].(state := FormerlyUsed)], "h", 0) == Some(3)
  {
    var s := Before;
    assert Sax("h") == 104 && Sax("a") == 97 && Sax("b") == 98 by {
      assert "h"[..0] == [] && "a"[..0] == [] && "b"[..0] == [];
    }
    assert HashIndex("h", 7) == 6 && HashIndex("b", 7) == 0;
    assert StepSize("h", 7) == 4;
    assert Probe("h", 7, 1) == 3;
    assert 7 % 2 != 0 && 7 % 3 != 0 && 7 % 4 != 0 && 7 % 5 != 0 && 7 % 6 != 0;
    assert IsPrime(7);
    forall i | Stored(s, i)
      ensures s[i].value.Some? && s[i].value.value.vehicleID == s[i].key
      ensures FindFrom(s, s[i].key, 0) == Some(i)
    {
      assert i == 0 || i == 3;
    }
    var after := s[6 := HashEntry("h", Some(H2), Occupied)];
    var u := after[6 := after[6].(state := FormerlyUsed)];
    assert after[3].key == after[6].key;
    assert FindFrom(u, "h", 1) == Some(3);
  }
}
