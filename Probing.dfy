/**
 * The open-addressing search shared by python/data_structures/HashMap/HashMap.py,
 * ArrayBasedStorage.py and SImpleHashMap.py: attempt `a` probes the slot the hash function's
 * collision handler gives for `a`, reduced modulo the table size, and the search stops at the
 * first slot that is empty or holds the key. Each table keeps its own loop; this module states
 * what those loops compute and what storing a key there does to later lookups.
 */
module Probing {
  import opened Wrappers
  import opened HashEntries

  /** A table slot: EMPTY_SLOT (None) or an entry. */
  type Slot<V> = Option<HashEntry<V>>

  /** `handle_collision(key, attempt)` of a pluggable hash function. */
  type Probe = (string, int) -> int

  const FULL := "Hash map is full or maximum collision attempts reached"

  /**
   * Python's `hash_code % n` for a positive `n`: the residue in [0, n), which for a positive
   * modulus is also what Dafny's `%` gives, negative hash codes included.
   */
  function Compress(hashCode: int, n: int): (r: int)
    requires n > 0
    ensures 0 <= r < n
    ensures hashCode == (hashCode / n) * n + r
  {
    hashCode % n
  }

  /** The slot probed at attempt `a`. */
  function SlotAt(probe: Probe, n: int, key: string, a: int): (r: int)
    requires n > 0
    ensures 0 <= r < n
  {
    Compress(probe(key, a), n)
  }

  /** A probe stops at an empty slot or at one holding the key. */
  predicate Stops<V>(s: Slot<V>, key: string)
  {
    s.None? || MatchesKey(s.value, key)
  }

  /** The first attempt from `a` on, below `limit`, whose slot stops the search. */
  function FirstStop<V>(slots: seq<Slot<V>>, probe: Probe, key: string, a: nat, limit: nat): (r: Option<nat>)
    requires |slots| > 0 && a <= limit
    ensures r.Some? ==> a <= r.value < limit && Stops(slots[SlotAt(probe, |slots|, key, r.value)], key)
    ensures r.Some? ==> forall j | a <= j < r.value :: !Stops(slots[SlotAt(probe, |slots|, key, j)], key)
    ensures r.None? ==> forall j | a <= j < limit :: !Stops(slots[SlotAt(probe, |slots|, key, j)], key)
    decreases limit - a
  {
    if a == limit then None
    else if Stops(slots[SlotAt(probe, |slots|, key, a)], key) then Some(a)
    else FirstStop(slots, probe, key, a + 1, limit)
  }

  /** The first stop is determined by where the probe sequence first stops. */
  lemma {:induction false} FirstStopIs<V>(slots: seq<Slot<V>>, probe: Probe, key: string, a: nat, limit: nat, b: nat)
    requires |slots| > 0 && a <= b < limit
    requires Stops(slots[SlotAt(probe, |slots|, key, b)], key)
    requires forall j | a <= j < b :: !Stops(slots[SlotAt(probe, |slots|, key, j)], key)
    ensures FirstStop(slots, probe, key, a, limit) == Some(b)
    decreases b - a
  {
    if a < b {
      FirstStopIs(slots, probe, key, a + 1, limit, b);
    }
  }

  /**
   * `_find_slot` / `find_slot` after `limit` attempts: ZeroDivisionError for a table of size 0,
   * OverflowError when no attempt stops, otherwise the first stopping slot and what it holds.
   */
  function FindSlot<V>(slots: seq<Slot<V>>, probe: Probe, key: string, limit: nat): (r: Result<(int, Slot<V>)>)
    ensures |slots| == 0 <==> r == Err(ZeroDivisionError)
    ensures r.Err? ==> r.error in {ZeroDivisionError, OverflowError(FULL)}
    ensures r.Ok? ==> 0 <= r.value.0 < |slots| && r.value.1 == slots[r.value.0] && Stops(r.value.1, key)
    ensures r.Ok? ==> exists a | 0 <= a < limit :: SlotAt(probe, |slots|, key, a) == r.value.0
    ensures |slots| > 0 && r.Err? ==> forall j | 0 <= j < limit :: !Stops(slots[SlotAt(probe, |slots|, key, j)], key)
  {
    if |slots| == 0 then Err(ZeroDivisionError)
    else
      match FirstStop(slots, probe, key, 0, limit)
      case None => Err(OverflowError(FULL))
      case Some(a) =>
        var i := SlotAt(probe, |slots|, key, a);
        Ok((i, slots[i]))
  }

  /** `__getitem__` / `retrieve`: the value in the stopping slot, None when that slot is empty. */
  function Lookup<V>(slots: seq<Slot<V>>, probe: Probe, key: string, limit: nat): (r: Result<Option<V>>)
    ensures r.Err? <==> FindSlot(slots, probe, key, limit).Err?
    ensures r.Ok? && r.value.Some? ==> Some(HashEntry(key, r.value.value)) in slots
  {
    match FindSlot(slots, probe, key, limit)
    case Err(e) => Err(e)
    case Ok((i, entry)) => if entry.None? then Ok(None) else Ok(Some(entry.value.value))
  }

  /** `__setitem__` / `assign`: the entry written over the stopping slot; on error nothing is written. */
  function Store<V>(slots: seq<Slot<V>>, probe: Probe, key: string, value: V, limit: nat): (r: Result<seq<Slot<V>>>)
    ensures r.Err? <==> FindSlot(slots, probe, key, limit).Err?
    ensures r.Ok? ==> |r.value| == |slots|
    ensures r.Ok? ==> Some(HashEntry(key, value)) in r.value
  {
    match FindSlot(slots, probe, key, limit)
    case Err(e) => Err(e)
    case Ok((i, _)) =>
      var after := slots[i := Some(HashEntry(key, value))];
      assert after[i] == Some(HashEntry(key, value));
      Ok(after)
  }

  /** The number of occupied slots. */
  function Occupied<V>(slots: seq<Slot<V>>): (r: nat)
    ensures r <= |slots|
  {
    if slots == [] then 0 else (if slots[0].Some? then 1 else 0) + Occupied(slots[1..])
  }

  lemma {:induction false} OccupiedUpdate<V>(slots: seq<Slot<V>>, i: nat, x: Slot<V>)
    requires i < |slots|
    ensures Occupied(slots[i := x]) ==
      Occupied(slots) - (if slots[i].Some? then 1 else 0) + (if x.Some? then 1 else 0)
  {
    if i > 0 {
      assert slots[i := x][1..] == slots[1..][i - 1 := x];
      OccupiedUpdate(slots[1..], i - 1, x);
    }
  }

  /** Storing a key makes the occupied count grow by one exactly when its slot was empty. */
  lemma StoreCount<V>(slots: seq<Slot<V>>, probe: Probe, key: string, value: V, limit: nat)
    requires Store(slots, probe, key, value, limit).Ok?
    ensures Occupied(Store(slots, probe, key, value, limit).value) ==
      Occupied(slots) + (if FindSlot(slots, probe, key, limit).value.1.None? then 1 else 0)
  {
    var i := FindSlot(slots, probe, key, limit).value.0;
    OccupiedUpdate(slots, i, Some(HashEntry(key, value)));
  }

  /** After a successful store the key is found with the value just stored. */
  lemma StoreThenLookup<V>(slots: seq<Slot<V>>, probe: Probe, key: string, value: V, limit: nat)
    requires Store(slots, probe, key, value, limit).Ok?
    ensures Lookup(Store(slots, probe, key, value, limit).value, probe, key, limit) == Ok(Some(value))
  {
    var n := |slots|;
    var a := FirstStop(slots, probe, key, 0, limit).value;
    var i := SlotAt(probe, n, key, a);
    var after := slots[i := Some(HashEntry(key, value))];
    forall j | 0 <= j < a
      ensures !Stops(after[SlotAt(probe, n, key, j)], key)
    {
      assert SlotAt(probe, n, key, j) != i;
    }
    FirstStopIs(after, probe, key, 0, limit, a);
  }

  /**
   * Storing one key leaves every other key that was found where it was: the probes of the other
   * key meet the same slots, since the slot written held nothing or the stored key.
   */
  lemma StoreKeepsOthers<V>(slots: seq<Slot<V>>, probe: Probe, key: string, value: V, limit: nat,
                            other: string, v: V)
    requires other != key
    requires Lookup(slots, probe, other, limit) == Ok(Some(v))
    requires Store(slots, probe, key, value, limit).Ok?
    ensures Lookup(Store(slots, probe, key, value, limit).value, probe, other, limit) == Ok(Some(v))
  {
    var n := |slots|;
    var i := FindSlot(slots, probe, key, limit).value.0;
    var after := slots[i := Some(HashEntry(key, value))];
    var b := FirstStop(slots, probe, other, 0, limit).value;
    forall j | 0 <= j < b
      ensures !Stops(after[SlotAt(probe, n, other, j)], other)
    {
    }
    assert SlotAt(probe, n, other, b) != i;
    FirstStopIs(after, probe, other, 0, limit, b);
  }

  /** A table whose every slot holds some other key gives OverflowError, whatever the probes. */
  lemma FullTableOverflows<V>(slots: seq<Slot<V>>, probe: Probe, key: string, limit: nat)
    requires |slots| > 0
    requires forall i | 0 <= i < |slots| :: slots[i].Some? && slots[i].value.key != key
    ensures FindSlot(slots, probe, key, limit) == Err(OverflowError(FULL))
  {
  }

  /**
   * A collision handler that ignores the attempt probes one slot over and over: once that slot
   * holds another key, the key can be neither stored nor looked up.
   */
  lemma FixedProbeOverflows<V>(slots: seq<Slot<V>>, probe: Probe, key: string, value: V, limit: nat)
    requires |slots| > 0
    requires forall a :: probe(key, a) == probe(key, 0)
    requires slots[SlotAt(probe, |slots|, key, 0)].Some? && slots[SlotAt(probe, |slots|, key, 0)].value.key != key
    ensures Store(slots, probe, key, value, limit) == Err(OverflowError(FULL))
    ensures Lookup(slots, probe, key, limit) == Err(OverflowError(FULL))
  {
    assert forall j | 0 <= j < limit :: SlotAt(probe, |slots|, key, j) == SlotAt(probe, |slots|, key, 0);
  }

  /** `values` / `get_all_values`: each slot's value, None for an empty slot. */
  function ValuesOf<V>(slots: seq<Slot<V>>): (r: seq<Option<V>>)
    ensures |r| == |slots|
    ensures forall i | 0 <= i < |slots| :: r[i].None? <==> slots[i].None?
    ensures forall i | 0 <= i < |slots| && slots[i].Some? :: r[i] == Some(slots[i].value.value)
  {
    seq(|slots|, i requires 0 <= i < |slots| => if slots[i].Some? then Some(slots[i].value.value) else None)
  }
}
