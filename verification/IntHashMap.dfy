/** The integer-keyed hash map with chained buckets that maps page keys to frames. */
module IntHashMaps {
  import opened Options

  /** Knuth's multiplicative hash in 32-bit unsigned arithmetic, reduced to a bucket. */
  function Hash(key: int, buckets: nat): (h: nat)
    requires buckets > 0
    ensures h < buckets
  {
    key % 0x1_0000_0000 * 2654435761 % 0x1_0000_0000 % buckets
  }

  /** A bucket's chain, newest key first. */
  datatype Chain = End | Link(key: int, value: int, next: Chain)

  ghost function Lookup(c: Chain, key: int): Option<int> {
    if c.End? then None else if c.key == key then Some(c.value) else Lookup(c.next, key)
  }

  ghost predicate Distinct(c: Chain) {
    c.Link? ==> Lookup(c.next, c.key) == None && Distinct(c.next)
  }

  /** The chain with the value of a present key replaced. */
  function Replaced(c: Chain, key: int, value: int): (c': Chain)
    ensures forall k :: Lookup(c', k) == if k == key && Lookup(c, key).Some? then Some(value) else Lookup(c, k)
    ensures Distinct(c) ==> Distinct(c')
  {
    if c.End? then c
    else if c.key == key then c.(value := value)
    else c.(next := Replaced(c.next, key, value))
  }

  /** The chain without the first node of a key. */
  function Removed(c: Chain, key: int): (c': Chain)
    ensures Distinct(c) ==>
      Distinct(c') && forall k :: Lookup(c', k) == if k == key then None else Lookup(c, k)
  {
    if c.End? then c
    else if c.key == key then c.next
    else c.(next := Removed(c.next, key))
  }

  class IntHashMap {
    const buckets: array<Chain>
    var size: int
    /** The map the chains represent. */
    ghost var entries: map<int, int>

    ghost predicate Valid()
      reads this, buckets
    {
      && buckets.Length > 0
      && (forall i :: 0 <= i < buckets.Length ==> Distinct(buckets[i]))
      && (forall key {:trigger Lookup(buckets[Hash(key, buckets.Length)], key)} {:trigger key in entries} ::
            Lookup(buckets[Hash(key, buckets.Length)], key) == if key in entries then Some(entries[key]) else None)
      && size == |entries|
    }

    constructor (bucketCount: nat)
      requires bucketCount > 0
      ensures Valid() && entries == map[] && fresh(buckets)
    {
      buckets := new Chain[bucketCount](_ => End);
      size, entries := 0, map[];
    }

    /** Walks the key's chain. */
    method Get(key: int) returns (found: bool, outVal: int)
      requires Valid()
      ensures found <==> key in entries
      ensures found ==> outVal == entries[key]
    {
      var cur := buckets[Hash(key, buckets.Length)];
      while cur.Link? && cur.key != key
        invariant Lookup(cur, key) == if key in entries then Some(entries[key]) else None
        decreases cur
      {
        cur := cur.next;
      }
      found := cur.Link?;
      outVal := if found then cur.value else -1;
    }

    /** Overwrites a present key, or links a new node in front of its chain. */
    method Put(key: int, val: int)
      requires Valid()
      modifies this, buckets
      ensures Valid() && entries == old(entries)[key := val]
    {
      var idx := Hash(key, buckets.Length);
      var found, _ := Get(key);
      if found {
        buckets[idx] := Replaced(buckets[idx], key, val);
      } else {
        buckets[idx] := Link(key, val, buckets[idx]);
        size := size + 1;
      }
      entries := entries[key := val];
    }

    /** Unlinks a key's node; false when there is none. */
    method Remove(key: int) returns (removed: bool)
      requires Valid()
      modifies this, buckets
      ensures Valid() && entries == old(entries) - {key} && removed == (key in old(entries))
    {
      var idx := Hash(key, buckets.Length);
      var found, _ := Get(key);
      if !found {
        assert entries - {key} == entries;
        return false;
      }
      buckets[idx] := Removed(buckets[idx], key);
      size := size - 1;
      RemovedSize(entries, key);
      entries := entries - {key};
      return true;
    }
  }

  lemma RemovedSize(m: map<int, int>, key: int)
    requires key in m
    ensures |m - {key}| == |m| - 1
  {
    assert (m - {key})[key := m[key]] == m;
  }
}
