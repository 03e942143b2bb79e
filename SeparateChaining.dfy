/**
 * python/data_structures/HashMap/SeparateChaining.py: the chaining storage strategy. Each of the
 * `capacity` buckets is a list of entries; a key is hashed once to pick its bucket, `put`
 * replaces an entry with the same key in place or appends, and `remove` pops the first entry
 * with the key.
 */
module SeparateChaining {
  import opened Wrappers
  import opened HashEntries
  import Probing

  /** The position of the first entry of `bucket` holding `key`. */
  function MatchIndex<V>(bucket: seq<HashEntry<V>>, key: string): (r: Option<nat>)
    ensures r.Some? ==> r.value < |bucket| && bucket[r.value].key == key
    ensures r.Some? ==> forall j | 0 <= j < r.value :: bucket[j].key != key
    ensures r.None? ==> forall j | 0 <= j < |bucket| :: bucket[j].key != key
  {
    if bucket == [] then None
    else if MatchesKey(bucket[0], key) then Some(0)
    else match MatchIndex(bucket[1..], key)
      case None => None
      case Some(i) => Some(i + 1)
  }

  /** The entry the loops over a bucket meet first for `key`. */
  function FirstMatch<V>(bucket: seq<HashEntry<V>>, key: string): (r: Option<HashEntry<V>>)
    ensures r.Some? ==> r.value in bucket && r.value.key == key
    ensures r.None? <==> forall j | 0 <= j < |bucket| :: bucket[j].key != key
  {
    match MatchIndex(bucket, key)
    case None => None
    case Some(i) => Some(bucket[i])
  }

  /** No two entries of a bucket share a key. */
  predicate UniqueKeys<V>(bucket: seq<HashEntry<V>>)
  {
    forall i, j | 0 <= i < j < |bucket| :: bucket[i].key != bucket[j].key
  }

  /**
   * What `put` leaves in a bucket: the first entry with the same key replaced, or the entry
   * appended when there is none.
   */
  function Upsert<V>(bucket: seq<HashEntry<V>>, e: HashEntry<V>): (r: seq<HashEntry<V>>)
    ensures FirstMatch(r, e.key) == Some(e)
    ensures forall key | key != e.key :: FirstMatch(r, key) == FirstMatch(bucket, key)
    ensures |r| == |bucket| + (if FirstMatch(bucket, e.key).None? then 1 else 0)
    ensures UniqueKeys(bucket) ==> UniqueKeys(r)
  {
    match MatchIndex(bucket, e.key)
    case Some(i) =>
      var r := bucket[i := e];
      assert MatchIndex(r, e.key) == Some(i) by {
        MatchIndexIs(r, e.key, i);
      }
      forall key | key != e.key
        ensures FirstMatch(r, key) == FirstMatch(bucket, key)
      {
        SameKeysSameMatch(bucket, r, key);
      }
      r
    case None =>
      var r := bucket + [e];
      assert MatchIndex(r, e.key) == Some(|bucket|) by {
        MatchIndexIs(r, e.key, |bucket|);
      }
      forall key | key != e.key
        ensures FirstMatch(r, key) == FirstMatch(bucket, key)
      {
        AppendMatch(bucket, e, key);
      }
      r
  }

  /**
   * What `remove` leaves in a bucket: the first entry with the key taken out, or the bucket
   * unchanged when there is none.
   */
  function Delete<V>(bucket: seq<HashEntry<V>>, key: string): (r: seq<HashEntry<V>>)
    ensures forall k | k != key :: FirstMatch(r, k) == FirstMatch(bucket, k)
    ensures |r| == |bucket| - (if FirstMatch(bucket, key).Some? then 1 else 0)
    ensures UniqueKeys(bucket) ==> UniqueKeys(r) && FirstMatch(r, key) == None
  {
    match MatchIndex(bucket, key)
    case None => bucket
    case Some(i) =>
      var r := bucket[..i] + bucket[i + 1..];
      forall k | k != key
        ensures FirstMatch(r, k) == FirstMatch(bucket, k)
      {
        DropMatch(bucket, i, k);
      }
      r
  }

  lemma {:induction false} MatchIndexIs<V>(bucket: seq<HashEntry<V>>, key: string, i: nat)
    requires i < |bucket| && bucket[i].key == key
    requires forall j | 0 <= j < i :: bucket[j].key != key
    ensures MatchIndex(bucket, key) == Some(i)
  {
    if i > 0 {
      MatchIndexIs(bucket[1..], key, i - 1);
    }
  }

  /** Overwriting a position with an entry of another key leaves the first match of `key` alone. */
  lemma SameKeysSameMatch<V>(bucket: seq<HashEntry<V>>, r: seq<HashEntry<V>>, key: string)
    requires |r| == |bucket|
    requires forall j | 0 <= j < |r| :: (r[j].key == key <==> bucket[j].key == key)
    requires forall j | 0 <= j < |r| && bucket[j].key == key :: r[j] == bucket[j]
    ensures FirstMatch(r, key) == FirstMatch(bucket, key)
  {
    match MatchIndex(bucket, key)
    case None =>
    case Some(i) => MatchIndexIs(r, key, i);
  }

  lemma AppendMatch<V>(bucket: seq<HashEntry<V>>, e: HashEntry<V>, key: string)
    requires e.key != key
    ensures FirstMatch(bucket + [e], key) == FirstMatch(bucket, key)
  {
    var r := bucket + [e];
    match MatchIndex(bucket, key)
    case None =>
      assert forall j | 0 <= j < |r| :: r[j].key != key by {
        forall j | 0 <= j < |r|
          ensures r[j].key != key
        {
          if j < |bucket| {
            assert r[j] == bucket[j];
          }
        }
      }
    case Some(i) =>
      assert r[i] == bucket[i];
      MatchIndexIs(r, key, i);
  }

  lemma DropMatch<V>(bucket: seq<HashEntry<V>>, i: nat, key: string)
    requires i < |bucket| && bucket[i].key != key
    ensures FirstMatch(bucket[..i] + bucket[i + 1..], key) == FirstMatch(bucket, key)
  {
    var r := bucket[..i] + bucket[i + 1..];
    assert forall j | 0 <= j < i :: r[j] == bucket[j];
    assert forall j | i <= j < |r| :: r[j] == bucket[j + 1];
    match MatchIndex(bucket, key)
    case None =>
    case Some(m) =>
      if m < i {
        MatchIndexIs(r, key, m);
      } else {
        MatchIndexIs(r, key, m - 1);
      }
  }

  /** The values of a bucket's entries, in order. */
  function BucketValues<V>(bucket: seq<HashEntry<V>>): (r: seq<V>)
    ensures |r| == |bucket| && forall j | 0 <= j < |bucket| :: r[j] == bucket[j].value
  {
    seq(|bucket|, j requires 0 <= j < |bucket| => bucket[j].value)
  }

  /** The number of entries over all buckets. */
  function Entries<V>(buckets: seq<seq<HashEntry<V>>>): nat
  {
    if buckets == [] then 0 else Entries(buckets[..|buckets| - 1]) + |buckets[|buckets| - 1]|
  }

  /** Every bucket's values, bucket by bucket in bucket order. */
  function AllValues<V>(buckets: seq<seq<HashEntry<V>>>): (r: seq<V>)
    ensures |r| == Entries(buckets)
    ensures forall b, e | b in buckets && e in b :: e.value in r
  {
    if buckets == [] then []
    else
      var front, last := buckets[..|buckets| - 1], buckets[|buckets| - 1];
      var r := AllValues(front) + BucketValues(last);
      assert forall b | b in buckets :: b in front || b == last;
      assert forall e | e in last :: e.value in BucketValues(last);
      r
  }

  class SeparateChaining<V> {
    const capacity: nat
    const buckets: array<seq<HashEntry<V>>>

    /** The bucket array has `capacity` buckets, and no bucket holds a key twice. */
    ghost predicate Valid()
      reads this, buckets
    {
      buckets.Length == capacity && forall i | 0 <= i < buckets.Length :: UniqueKeys(buckets[i])
    }

    /** Lines 10-13: `capacity` empty buckets. */
    constructor (capacity: nat)
      ensures Valid() && fresh(buckets) && this.capacity == capacity
      ensures forall i | 0 <= i < capacity :: buckets[i] == []
    {
      this.capacity := capacity;
      buckets := new seq<HashEntry<V>>[capacity](_ => []);
    }

    /**
     * Lines 15-24: `find_slot` hashes the key once with `hash_key` and looks only in that bucket;
     * the compression is reduction modulo the capacity.
     */
    method FindSlot(key: string, hashKey: string -> int) returns (r: Result<(int, Option<HashEntry<V>>)>)
      requires Valid()
      ensures r.Err? <==> capacity == 0
      ensures r.Err? ==> r.error == ZeroDivisionError
      ensures r.Ok? ==> r.value.0 == Probing.Compress(hashKey(key), capacity)
      ensures r.Ok? ==> r.value.1 == FirstMatch(buckets[r.value.0], key)
    {
      if capacity == 0 {
        return Err(ZeroDivisionError);
      }
      var index := Probing.Compress(hashKey(key), capacity);
      var entry := Get(index, key);
      return Ok((index, entry));
    }

    /** Lines 26-32: `get`, the first entry of the bucket holding the key. */
    method Get(index: int, key: string) returns (r: Option<HashEntry<V>>)
      requires Valid() && 0 <= index < capacity
      ensures r == FirstMatch(buckets[index], key)
    {
      var bucket := buckets[index];
      for i := 0 to |bucket|
        invariant forall j | 0 <= j < i :: bucket[j].key != key
      {
        if MatchesKey(bucket[i], key) {
          MatchIndexIs(bucket, key, i);
          return Some(bucket[i]);
        }
      }
      return None;
    }

    /**
     * Lines 34-46: `put` replaces the first entry with the same key and reports False, or appends
     * the entry and reports True. Other buckets are untouched.
     */
    method Put(index: int, entry: HashEntry<V>) returns (added: bool)
      requires Valid() && 0 <= index < capacity
      modifies buckets
      ensures Valid()
      ensures buckets[..] == old(buckets[..])[index := Upsert(old(buckets[index]), entry)]
      ensures added <==> FirstMatch(old(buckets[index]), entry.key).None?
    {
      var bucket := buckets[index];
      for i := 0 to |bucket|
        invariant forall j | 0 <= j < i :: bucket[j].key != entry.key
      {
        if MatchesKey(bucket[i], entry.key) {
          MatchIndexIs(bucket, entry.key, i);
          buckets[index] := bucket[i := entry];
          return false;
        }
      }
      buckets[index] := bucket + [entry];
      return true;
    }

    /**
     * Lines 48-55: `remove` pops the first entry with the key and reports True, or reports False
     * and changes nothing.
     */
    method Remove(index: int, key: string) returns (removed: bool)
      requires Valid() && 0 <= index < capacity
      modifies buckets
      ensures Valid()
      ensures buckets[..] == old(buckets[..])[index := Delete(old(buckets[index]), key)]
      ensures removed <==> FirstMatch(old(buckets[index]), key).Some?
      ensures FirstMatch(buckets[index], key) == None
    {
      var bucket := buckets[index];
      for i := 0 to |bucket|
        invariant forall j | 0 <= j < i :: bucket[j].key != key
      {
        if MatchesKey(bucket[i], key) {
          MatchIndexIs(bucket, key, i);
          buckets[index] := bucket[..i] + bucket[i + 1..];
          return true;
        }
      }
      return false;
    }

    /** Lines 57-63: `get_all_values`, the values of every bucket in bucket order. */
    method GetAllValues() returns (values: seq<V>)
      requires Valid()
      ensures values == AllValues(buckets[..])
    {
      values := [];
      for b := 0 to capacity
        invariant values == AllValues(buckets[..b])
      {
        var bucket := buckets[b];
        for i := 0 to |bucket|
          invariant values == AllValues(buckets[..b]) + BucketValues(bucket)[..i]
        {
          values := values + [bucket[i].value];
        }
        assert BucketValues(bucket)[..|bucket|] == BucketValues(bucket);
        assert buckets[..b + 1][..b] == buckets[..b];
      }
      assert buckets[..capacity] == buckets[..];
    }

    /** Lines 65-68: `is_slot_available`, always True: a bucket can always take another entry. */
    function IsSlotAvailable(index: int): (r: bool)
      ensures r
    {
      true
    }
  }
}
