/**
 * python/data_structures/HashMap/ArrayBasedStorage.py: the open-addressing storage strategy. The
 * slots live in a fixed array; `find_slot` probes as HashMap does, and `put` and `remove` write
 * one slot at an index the caller supplies. Removal writes EMPTY_SLOT back, with no tombstone.
 */
module ArrayBasedStorage {
  import opened Wrappers
  import opened HashEntries
  import opened Probing

  const MAX_COLLISION_ATTEMPTS: nat := 1000

  class ArrayBasedStorage<V> {
    const capacity: nat
    const storage: array<Slot<V>>

    ghost predicate Valid()
      reads this
    {
      storage.Length == capacity
    }

    /** Lines 13-16: `capacity` empty slots. */
    constructor (capacity: nat)
      ensures Valid() && fresh(storage) && this.capacity == capacity
      ensures forall i | 0 <= i < capacity :: storage[i].None?
    {
      this.capacity := capacity;
      storage := new Slot<V>[capacity](_ => None);
    }

    /**
     * Lines 18-39: `find_slot` with the given collision handler, the compression being reduction
     * modulo the capacity: the first probed slot that is empty or holds the key, OverflowError
     * after MAX_COLLISION_ATTEMPTS probes.
     */
    method FindSlot(key: string, hashFunction: Probe) returns (r: Result<(int, Slot<V>)>)
      requires Valid()
      ensures r == Probing.FindSlot(storage[..], hashFunction, key, MAX_COLLISION_ATTEMPTS)
    {
      if capacity == 0 {
        return Err(ZeroDivisionError);
      }
      var collisionCount := 0;
      while collisionCount < MAX_COLLISION_ATTEMPTS
        invariant collisionCount <= MAX_COLLISION_ATTEMPTS
        invariant FirstStop(storage[..], hashFunction, key, 0, MAX_COLLISION_ATTEMPTS)
               == FirstStop(storage[..], hashFunction, key, collisionCount, MAX_COLLISION_ATTEMPTS)
      {
        var hashCode := hashFunction(key, collisionCount);
        var index := Compress(hashCode, capacity);
        var currentEntry := storage[index];
        if currentEntry.None? || MatchesKey(currentEntry.value, key) {
          return Ok((index, currentEntry));
        }
        collisionCount := collisionCount + 1;
      }
      return Err(OverflowError(FULL));
    }

    /** Lines 41-46: `get`, the entry at `index` only when it holds the key. */
    function Get(index: int, key: string): (r: Option<HashEntry<V>>)
      requires Valid() && 0 <= index < capacity
      reads this, storage
      ensures r.Some? <==> storage[index].Some? && storage[index].value.key == key
      ensures r.Some? ==> Some(r.value) == storage[index]
    {
      var entry := storage[index];
      if entry.Some? && MatchesKey(entry.value, key) then entry else None
    }

    /** Lines 48-54: `put` overwrites slot `index`; the result says whether it was empty. */
    method Put(index: int, entry: HashEntry<V>) returns (added: bool)
      requires Valid() && 0 <= index < capacity
      modifies storage
      ensures storage[..] == old(storage[..])[index := Some(entry)]
      ensures added <==> old(storage[index]).None?
      ensures Get(index, entry.key) == Some(entry)
    {
      var existingEntry := storage[index];
      storage[index] := Some(entry);
      return existingEntry.None?;
    }

    /**
     * Lines 56-62: `remove` empties slot `index` when it holds the key and reports it; otherwise
     * nothing changes.
     */
    method Remove(index: int, key: string) returns (removed: bool)
      requires Valid() && 0 <= index < capacity
      modifies storage
      ensures removed <==> old(Get(index, key)).Some?
      ensures removed ==> storage[..] == old(storage[..])[index := None]
      ensures !removed ==> storage[..] == old(storage[..])
      ensures Get(index, key) == None
    {
      var entry := storage[index];
      if entry.Some? && MatchesKey(entry.value, key) {
        storage[index] := None;
        return true;
      }
      return false;
    }

    /** Lines 64-66: `get_all_values`, one value per slot and None for an empty one. */
    function GetAllValues(): (r: seq<Option<V>>)
      requires Valid()
      reads this, storage
      ensures |r| == capacity
      ensures forall i | 0 <= i < capacity :: r[i].None? <==> storage[i].None?
      ensures forall i | 0 <= i < capacity && storage[i].Some? :: r[i] == Some(storage[i].value.value)
    {
      ValuesOf(storage[..])
    }

    /** Lines 68-70: `is_slot_available`, the slot is empty. */
    function IsSlotAvailable(index: int): (r: bool)
      requires Valid() && 0 <= index < capacity
      reads this, storage
      ensures r <==> forall key :: Get(index, key).None?
    {
      assert storage[index].Some? ==> Get(index, storage[index].value.key).Some?;
      storage[index].None?
    }
  }

  /**
   * With no tombstone, removing a key can hide a key stored further along the same probe
   * sequence: below, "a" and "b" both start at slot 0, "b" sits in slot 1, and once "a" is
   * removed the search for "b" stops at the emptied slot 0 and reports it absent.
   */
  lemma RemovalHidesLaterKey(x: int, y: int)
    ensures var probe: Probe := (k: string, a: int) => a;
      var before := [Some(HashEntry("a", x)), Some(HashEntry("b", y))];
      var after := before[0 := None];
      Lookup(before, probe, "b", MAX_COLLISION_ATTEMPTS) == Ok(Some(y)) &&
      Some(HashEntry("b", y)) in after &&
      Lookup(after, probe, "b", MAX_COLLISION_ATTEMPTS) == Ok(None)
  {
    var probe: Probe := (k: string, a: int) => a;
    var before := [Some(HashEntry("a", x)), Some(HashEntry("b", y))];
    var after := before[0 := None];
    assert "a" != "b";
    assert SlotAt(probe, 2, "b", 0) == 0 && SlotAt(probe, 2, "b", 1) == 1;
    FirstStopIs(before, probe, "b", 0, MAX_COLLISION_ATTEMPTS, 1);
    FirstStopIs(after, probe, "b", 0, MAX_COLLISION_ATTEMPTS, 0);
    assert after[1] == Some(HashEntry("b", y));
  }
}
