/**
 * python/data_structures/HashMap/HashMap.py: a fixed-capacity table with open addressing. Keys
 * are probed with the hash function's collision handler (SimpleAdditionHash by default); a key
 * is written into the first slot that is empty or already holds it, and a search gives up with
 * OverflowError after MAX_COLLISION_ATTEMPTS probes. Nothing is ever removed.
 */
module HashMap {
  import opened Wrappers
  import opened HashEntries
  import opened Probing
  import SimpleAdditionHash

  const MAX_COLLISION_ATTEMPTS: nat := 1000

  class HashMap<V> {
    const capacity: nat
    /** The `handle_collision` of the hash function the table was built with. */
    const hashFunction: Probe
    const storage: array<Slot<V>>
    var size: nat

    /** `_size` counts the occupied slots. */
    ghost predicate Valid()
      reads this, storage
    {
      storage.Length == capacity && size == Occupied(storage[..])
    }

    /**
     * Lines 19-29: every slot empty, size 0, and the given hash function or, when none is given,
     * SimpleAdditionHash.
     */
    constructor (capacity: nat, hashFunction: Option<Probe>)
      ensures Valid() && fresh(storage)
      ensures this.capacity == capacity && size == 0
      ensures forall i | 0 <= i < capacity :: storage[i].None?
      ensures this.hashFunction == if hashFunction.Some? then hashFunction.value else SimpleAdditionHash.HandleCollision
    {
      this.capacity := capacity;
      if hashFunction.Some? {
        var given: Probe := hashFunction.value;
        this.hashFunction := given;
      } else {
        var default: Probe := SimpleAdditionHash.HandleCollision;
        this.hashFunction := default;
      }
      storage := new Slot<V>[capacity](_ => None);
      size := 0;
      new;
      NoneOccupied(storage[..]);
    }

    /** Lines 32-34: `_compress_hash`, the hash code reduced to a slot index. */
    function CompressHash(hashCode: int): (r: int)
      requires capacity > 0
      reads this
      ensures 0 <= r < capacity && hashCode == (hashCode / capacity) * capacity + r
    {
      Compress(hashCode, capacity)
    }

    /**
     * Lines 36-61: `_find_slot`. Probes attempts 0, 1, ... up to MAX_COLLISION_ATTEMPTS and
     * returns the first slot that is empty or holds the key, with its content.
     */
    method FindSlot(key: string) returns (r: Result<(int, Slot<V>)>)
      requires Valid()
      ensures r == Probing.FindSlot(storage[..], hashFunction, key, MAX_COLLISION_ATTEMPTS)
    {
      if capacity == 0 {
        return Err(ZeroDivisionError);
      }
      var collisionCount := 0;
      while collisionCount < MAX_COLLISION_ATTEMPTS
        invariant collisionCount <= MAX_COLLISION_ATTEMPTS
        invariant FirstStop(storage[..], hashFunction, key, 0, MAX_COLLISION_ATTEMPTS)
               == FirstStop(storage[..], hashFunction, key, collisionCount, MAX_COLLISION_ATTEMPTS)
      {
        var hashCode := hashFunction(key, collisionCount);
        var index := CompressHash(hashCode);
        var currentEntry := storage[index];
        if currentEntry.None? || MatchesKey(currentEntry.value, key) {
          return Ok((index, currentEntry));
        }
        collisionCount := collisionCount + 1;
      }
      return Err(OverflowError(FULL));
    }

    /** Lines 63-77: `__getitem__`, the value stored for the key, None when it is not there. */
    method Get(key: string) returns (r: Result<Option<V>>)
      requires Valid()
      ensures r == Lookup(storage[..], hashFunction, key, MAX_COLLISION_ATTEMPTS)
    {
      var found := FindSlot(key);
      if found.Err? {
        return Err(found.error);
      }
      var (index, entry) := found.value;
      if entry.None? {
        return Ok(None);
      }
      return Ok(Some(entry.value.value));
    }

    /**
     * Lines 79-92: `__setitem__`. The entry goes into the slot `_find_slot` chose; `size` grows
     * only when that slot was empty. When no slot is found nothing changes.
     */
    method Set(key: string, value: V) returns (r: Result<()>)
      requires Valid()
      modifies this, storage
      ensures Valid()
      ensures r.Ok? <==> Store(old(storage[..]), hashFunction, key, value, MAX_COLLISION_ATTEMPTS).Ok?
      ensures r.Ok? ==> storage[..] == Store(old(storage[..]), hashFunction, key, value, MAX_COLLISION_ATTEMPTS).value
      ensures r.Ok? ==> size == old(size) + (if Probing.FindSlot(old(storage[..]), hashFunction, key, MAX_COLLISION_ATTEMPTS).value.1.None? then 1 else 0)
      ensures r.Err? ==> r.error == Probing.FindSlot(old(storage[..]), hashFunction, key, MAX_COLLISION_ATTEMPTS).error
      ensures r.Err? ==> storage[..] == old(storage[..]) && size == old(size)
    {
      var found := FindSlot(key);
      if found.Err? {
        return Err(found.error);
      }
      var (index, existingEntry) := found.value;
      StoreCount(storage[..], hashFunction, key, value, MAX_COLLISION_ATTEMPTS);
      storage[index] := Some(HashEntry(key, value));
      if existingEntry.None? {
        size := size + 1;
      }
      return Ok(());
    }

    /** Lines 94-101: `values`, one entry per slot, None where the slot is empty. */
    function Values(): (r: seq<Option<V>>)
      requires Valid()
      reads this, storage
      ensures |r| == capacity
      ensures forall i | 0 <= i < capacity :: r[i].None? <==> storage[i].None?
      ensures forall i | 0 <= i < capacity && storage[i].Some? :: r[i] == Some(storage[i].value.value)
    {
      ValuesOf(storage[..])
    }

    /** Lines 103-106: `size`, the number of occupied slots. */
    function Size(): (r: nat)
      requires Valid()
      reads this, storage
      ensures r == Occupied(storage[..]) && r <= capacity
    {
      size
    }
  }

  lemma {:induction false} NoneOccupied<V>(slots: seq<Slot<V>>)
    requires forall i | 0 <= i < |slots| :: slots[i].None?
    ensures Occupied(slots) == 0
  {
    if slots != [] {
      NoneOccupied(slots[1..]);
    }
  }
}
