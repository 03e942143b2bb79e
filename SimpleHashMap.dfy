/**
 * python/data_structures/HashMap/SImpleHashMap.py: the first, self-contained hash map. A key's
 * hash code is its UTF-8 byte sum plus the number of collisions so far, compressed modulo the
 * table size; `assign` and `retrieve` probe slot after slot with no bound on the number of
 * attempts. The `array` of `[key, value]` pairs is the array `slots` of entries here.
 */
module SimpleHashMap {
  import opened Wrappers
  import opened HashEntries
  import opened Probing
  import SimpleAdditionHash

  /** Lines 74-78: `hash_function`, the key's byte sum plus the collision count. */
  function HashFunction(key: string, collisionCount: int := 0): (r: int)
    ensures r == SimpleAdditionHash.HandleCollision(key, collisionCount)
    ensures r - collisionCount == SimpleAdditionHash.Sum(SimpleAdditionHash.Encode(key))
  {
    SimpleAdditionHash.HashKey(key) + collisionCount
  }

  /** The probe sequence of `assign` and `retrieve`: attempt `c` uses `hash_function(key, c)`. */
  const LinearProbe: Probe := (key: string, c: int) => HashFunction(key, c)

  /** Some slot stops a search for `key`: it is empty or holds the key. */
  predicate HasStop<V>(slots: seq<Slot<V>>, key: string)
  {
    exists i | 0 <= i < |slots| :: Stops(slots[i], key)
  }

  /**
   * Linear probing meets every slot within `|slots|` attempts, so a search that can stop at all
   * stops within them.
   */
  lemma LinearProbeStops<V>(slots: seq<Slot<V>>, key: string)
    requires HasStop(slots, key)
    ensures FirstStop(slots, LinearProbe, key, 0, |slots|).Some?
  {
    var n := |slots|;
    var i :| 0 <= i < n && Stops(slots[i], key);
    var h := SimpleAdditionHash.HashKey(key);
    var a := (i - h) % n;
    assert SlotAt(LinearProbe, n, key, a) == (h + a) % n;
    ModShift(h, i, n);
  }

  lemma ModShift(h: int, i: int, n: int)
    requires 0 <= i < n
    ensures (h + (i - h) % n) % n == i
  {
    var q := (i - h) / n;
    assert i - h == q * n + (i - h) % n;
    assert h + (i - h) % n == i - q * n;
    assert (i - q * n) % n == i by {
      ModMultiple(i, q, n);
    }
  }

  lemma ModMultiple(i: int, q: int, n: int)
    requires 0 <= i < n
    ensures (i - q * n) % n == i
  {
    var x := i - q * n;
    var d, m := x / n, x % n;
    assert x == d * n + m && 0 <= m < n;
    var k := d + q;
    assert k * n == d * n + q * n;
    assert k * n == i - m;
    MulBounds(k, n);
  }

  /** A non-zero multiple of a positive `n` is at least `n` away from zero. */
  lemma MulBounds(k: int, n: int)
    requires n > 0
    ensures k >= 1 ==> k * n >= n
    ensures k <= -1 ==> k * n <= -n
  {
    if k >= 1 {
      assert k * n == (k - 1) * n + n;
      assert (k - 1) * n >= 0;
    } else if k <= -1 {
      assert k * n == (k + 1) * n - n;
      assert (k + 1) * n <= 0;
    }
  }

  class SimpleHashMap<V> {
    const size: nat
    const slots: array<Slot<V>>

    ghost predicate Valid()
      reads this
    {
      slots.Length == size
    }

    /** Lines 7-9: `size` empty slots. */
    constructor (size: nat)
      ensures Valid() && fresh(slots) && this.size == size
      ensures forall i | 0 <= i < size :: slots[i].None?
    {
      this.size := size;
      slots := new Slot<V>[size](_ => None);
    }

    /**
     * Lines 80-81: `compressor`, the hash code modulo the table size; Python's `%` raises
     * ZeroDivisionError on a table of size 0.
     */
    function Compressor(hashCode: int): (r: Result<int>)
      reads this
      ensures r.Err? <==> size == 0
      ensures r.Err? ==> r.error == ZeroDivisionError
      ensures r.Ok? ==> 0 <= r.value < size && hashCode == (hashCode / size) * size + r.value
    {
      if size == 0 then Err(ZeroDivisionError) else Ok(Compress(hashCode, size))
    }

    /**
     * Lines 12-41: `assign` writes the pair over the first probed slot that is empty or holds the
     * key; on a table of size 0 the first `compressor` call raises and nothing is written. The
     * loop has no bound, so on a non-empty table it ends only when such a slot exists.
     */
    method Assign(key: string, value: V) returns (r: Result<()>)
      requires Valid() && (size > 0 ==> HasStop(slots[..], key))
      modifies slots
      ensures r.Err? <==> size == 0
      ensures r.Err? ==> r.error == ZeroDivisionError && slots[..] == old(slots[..])
      ensures r.Err? <==> Store(old(slots[..]), LinearProbe, key, value, size).Err?
      ensures r.Ok? ==> slots[..] == Store(old(slots[..]), LinearProbe, key, value, size).value
    {
      var first := Compressor(HashFunction(key));
      if first.Err? {
        return Err(first.error);
      }
      LinearProbeStops(slots[..], key);
      ghost var stop := FirstStop(slots[..], LinearProbe, key, 0, size).value;
      var arrayIndex := first.value;
      var currentEntry := slots[arrayIndex];
      if currentEntry.None? || currentEntry.value.key == key {
        slots[arrayIndex] := Some(HashEntry(key, value));
        return Ok(());
      }
      var collisions := 1;
      while true
        invariant 1 <= collisions <= stop
        invariant FirstStop(slots[..], LinearProbe, key, collisions, size) == Some(stop)
        decreases stop - collisions
      {
        var newArrayIndex := Compressor(HashFunction(key, collisions)).value;
        currentEntry := slots[newArrayIndex];
        if currentEntry.None? || currentEntry.value.key == key {
          slots[newArrayIndex] := Some(HashEntry(key, value));
          return Ok(());
        }
        collisions := collisions + 1;
      }
    }

    /**
     * Lines 45-70: `retrieve`, the value stored for the key, None once a probed slot is empty;
     * ZeroDivisionError on a table of size 0. Like `assign`, on a non-empty table it ends only
     * when some slot is empty or holds the key.
     */
    method Retrieve(key: string) returns (r: Result<Option<V>>)
      requires Valid() && (size > 0 ==> HasStop(slots[..], key))
      ensures r.Err? <==> size == 0
      ensures r.Err? ==> r.error == ZeroDivisionError
      ensures r == Lookup(slots[..], LinearProbe, key, size)
    {
      var first := Compressor(HashFunction(key));
      if first.Err? {
        return Err(first.error);
      }
      LinearProbeStops(slots[..], key);
      ghost var stop := FirstStop(slots[..], LinearProbe, key, 0, size).value;
      var arrayIndex := first.value;
      var currentEntry := slots[arrayIndex];
      if currentEntry.None? {
        return Ok(None);
      }
      if currentEntry.value.key == key {
        return Ok(Some(currentEntry.value.value));
      }
      var collisions := 1;
      while true
        invariant 1 <= collisions <= stop
        invariant FirstStop(slots[..], LinearProbe, key, collisions, size) == Some(stop)
        decreases stop - collisions
      {
        var newArrayIndex := Compressor(HashFunction(key, collisions)).value;
        currentEntry := slots[newArrayIndex];
        if currentEntry.None? {
          return Ok(None);
        }
        if currentEntry.value.key == key {
          return Ok(Some(currentEntry.value.value));
        }
        collisions := collisions + 1;
      }
    }
  }
}
