/**
 * LongMapImpl: a hash map from 64-bit `long` keys to values, by separate
 * chaining. The bucket array is allocated by the first put, at the
 * configured initial capacity, and doubled by a put that finds the size
 * above capacity times load factor.
 */
module LongMaps {
  import opened Options
  import opened Hashing
  import opened Chains
  import opened Tables

  const DEFAULT_INITIAL_CAPACITY: nat := 16
  /** The default load factor 0.75, as the fraction 3/4. */
  const DEFAULT_LOAD_NUMERATOR: nat := 3
  const DEFAULT_LOAD_DENOMINATOR: nat := 4

  /** A whole number times d exceeds n exactly when it exceeds n / d rounded down. */
  lemma AboveThreshold(size: nat, n: nat, d: nat)
    requires 0 < d
    ensures size * d > n <==> size > n / d
  {
    var q, r := n / d, n % d;
    assert n == q * d + r && r < d;
    if size > q {
      assert size * d >= (q + 1) * d;
    } else {
      assert size * d <= q * d;
    }
  }

  class LongMapImpl<V(==)> {
    /** The number of mappings. */
    var size: nat
    /** The bucket array; null until the first put. */
    var buckets: array?<Chain<V>>
    const initialCapacity: nat
    /** The load factor is loadNumerator / loadDenominator. */
    const loadNumerator: nat
    const loadDenominator: nat
    /** How many times the bucket array has doubled since it was allocated. */
    ghost var doublings: nat

    /**
     * The object invariant: before the first put there are no mappings;
     * afterwards the bucket array is initialCapacity times a power of two
     * long, satisfies the table invariant, and size counts its mappings.
     */
    ghost predicate Valid()
      reads this, buckets
    {
      && 0 < initialCapacity && 0 < loadNumerator && 0 < loadDenominator
      && (buckets == null ==> size == 0)
      && (buckets != null ==>
            && buckets.Length == initialCapacity * Pow2(doublings)
            && TableValid(buckets[..])
            && size == |Abstract(buckets[..])|)
    }

    /** The map this object stands for. */
    ghost function Contents(): map<Long, V>
      reads this, buckets
    {
      if buckets == null then map[] else Abstract(buckets[..])
    }

    /** The nodes in the order keys() and values() visit them. */
    ghost function Listing(): seq<Entry<V>>
      reads this, buckets
    {
      if buckets == null then [] else Flatten(buckets[..])
    }

    /**
     * resizeOrCreate's growth test, `size > buckets.length * loadFactor`, with
     * the load factor as a fraction: it fires exactly when size passes the
     * whole-number threshold length * loadFactor rounded down.
     */
    predicate NeedsResize()
      reads this
      requires buckets != null && 0 < loadDenominator
      ensures NeedsResize() <==> size > buckets.Length * loadNumerator / loadDenominator
    {
      AboveThreshold(size, buckets.Length * loadNumerator, loadDenominator);
      size * loadDenominator > buckets.Length * loadNumerator
    }

    /**
     * The bucket array a put inserts into, once resizeOrCreate has run: it is
     * valid, stands for the same map, and is the initial capacity long on
     * the first put, twice as long after growth, and unchanged otherwise.
     */
    ghost function TableBeforeInsert(): (t: Table<V>)
      reads this, buckets
      requires Valid()
      ensures TableValid(t) && Abstract(t) == Contents()
      ensures |t| == if buckets == null then initialCapacity
                     else if NeedsResize() then 2 * buckets.Length
                     else buckets.Length
    {
      if buckets == null then
        EmptyChainsAbstract(EmptyTable<V>(initialCapacity));
        EmptyTable(initialCapacity)
      else if NeedsResize() then
        RehashAbstract(buckets[..], 2 * buckets.Length);
        Rehash(buckets[..], 2 * buckets.Length)
      else buckets[..]
    }

    /** A map with the default initial capacity 16 and load factor 0.75. */
    constructor ()
      ensures Valid() && Contents() == map[]
      ensures buckets == null && size == 0
      ensures initialCapacity == DEFAULT_INITIAL_CAPACITY
      ensures loadNumerator == DEFAULT_LOAD_NUMERATOR && loadDenominator == DEFAULT_LOAD_DENOMINATOR
    {
      initialCapacity := DEFAULT_INITIAL_CAPACITY;
      loadNumerator, loadDenominator := DEFAULT_LOAD_NUMERATOR, DEFAULT_LOAD_DENOMINATOR;
      size, buckets, doublings := 0, null, 0;
    }

    /** A map with the given initial capacity and the default load factor 0.75. */
    constructor WithCapacity(initialCapacity: nat)
      requires 0 < initialCapacity
      ensures Valid() && Contents() == map[]
      ensures buckets == null && size == 0
      ensures this.initialCapacity == initialCapacity
      ensures loadNumerator == DEFAULT_LOAD_NUMERATOR && loadDenominator == DEFAULT_LOAD_DENOMINATOR
    {
      this.initialCapacity := initialCapacity;
      loadNumerator, loadDenominator := DEFAULT_LOAD_NUMERATOR, DEFAULT_LOAD_DENOMINATOR;
      size, buckets, doublings := 0, null, 0;
    }

    /** A map with the given initial capacity and load factor loadNumerator / loadDenominator. */
    constructor WithCapacityAndLoadFactor(initialCapacity: nat, loadNumerator: nat, loadDenominator: nat)
      requires 0 < initialCapacity && 0 < loadNumerator && 0 < loadDenominator
      ensures Valid() && Contents() == map[]
      ensures buckets == null && size == 0
      ensures this.initialCapacity == initialCapacity
      ensures this.loadNumerator == loadNumerator && this.loadDenominator == loadDenominator
    {
      this.initialCapacity := initialCapacity;
      this.loadNumerator, this.loadDenominator := loadNumerator, loadDenominator;
      size, buckets, doublings := 0, null, 0;
    }

    /**
     * put: map `key` to `value` and return the value it had, if any. A new
     * key adds one mapping; a present key keeps its node and its count.
     */
    method Put(key: Long, value: V) returns (previous: Option<V>)
      requires Valid()
      modifies this, buckets
      ensures Valid() && buckets != null
      ensures Contents() == old(Contents())[key := value]
      ensures previous == MapGet(old(Contents()), key)
      ensures size == if previous.None? then old(size) + 1 else old(size)
      ensures buckets[..] == TablePut(old(TableBeforeInsert()), key, value)
      ensures old(buckets) == null ==> fresh(buckets) && buckets.Length == initialCapacity
      ensures old(buckets) != null && old(NeedsResize()) ==>
        fresh(buckets) && buckets.Length == 2 * old(buckets.Length)
      ensures old(buckets) != null && !old(NeedsResize()) ==> buckets == old(buckets)
    {
      ghost var before, m := TableBeforeInsert(), Contents();
      ResizeOrCreate();
      ghost var t := buckets[..];
      assert t == before && Abstract(t) == m;
      previous := PutIntoBuckets(key, value);
      assert buckets[..] == TablePut(t, key, value);
    }

    /**
     * put's insertion into the allocated bucket array: walk the key's chain,
     * replace the value in place or append a node, and count a new key.
     */
    method PutIntoBuckets(key: Long, value: V) returns (previous: Option<V>)
      requires buckets != null && TableValid(buckets[..]) && size == |Abstract(buckets[..])|
      modifies this`size, buckets
      ensures TableValid(buckets[..]) && size == |Abstract(buckets[..])|
      ensures buckets[..] == TablePut(old(buckets[..]), key, value)
      ensures Abstract(buckets[..]) == old(Abstract(buckets[..]))[key := value]
      ensures previous == MapGet(old(Abstract(buckets[..])), key)
      ensures size == if previous.None? then old(size) + 1 else old(size)
    {
      ghost var t := buckets[..];
      var i := BucketIndex(key, buckets.Length);
      var chain, replaced := PutInChain(buckets[i], key, value);
      AbstractGet(t, key);
      AbstractPut(t, key, value);
      buckets[i] := chain;
      assert buckets[..] == TablePut(t, key, value);
      if replaced.None? {
        size := size + 1;
      }
      previous := replaced;
    }

    /** get: the value mapped to `key`, if any. */
    method Get(key: Long) returns (value: Option<V>)
      requires Valid()
      ensures value.Some? <==> key in Contents()
      ensures value.Some? ==> value.value == Contents()[key]
    {
      var node := GetNode(key);
      value := if node.None? then None else Some(node.value.value);
    }

    /** remove: drop the mapping of `key` and return its value; an absent key changes nothing. */
    method Remove(key: Long) returns (removed: Option<V>)
      requires Valid()
      modifies this, buckets
      ensures Valid()
      ensures buckets == old(buckets) && doublings == old(doublings)
      ensures removed == MapGet(old(Contents()), key)
      ensures Contents() == old(Contents()) - {key}
      ensures size == if removed.Some? then old(size) - 1 else old(size)
      ensures buckets != null ==> buckets[..] == TableRemove(old(buckets[..]), key)
      ensures removed.None? ==> buckets == null || buckets[..] == old(buckets[..])
    {
      if buckets == null {
        return None;
      }
      ghost var t := buckets[..];
      removed := RemoveFromBuckets(key);
      assert buckets[..] == TableRemove(t, key);
    }

    /**
     * remove's deletion from the allocated bucket array: walk the key's
     * chain, unlink its node if there is one, and count the removal.
     */
    method RemoveFromBuckets(key: Long) returns (removed: Option<V>)
      requires buckets != null && TableValid(buckets[..]) && size == |Abstract(buckets[..])|
      modifies this`size, buckets
      ensures TableValid(buckets[..]) && size == |Abstract(buckets[..])|
      ensures buckets[..] == TableRemove(old(buckets[..]), key)
      ensures Abstract(buckets[..]) == old(Abstract(buckets[..])) - {key}
      ensures removed == MapGet(old(Abstract(buckets[..])), key)
      ensures size == if removed.Some? then old(size) - 1 else old(size)
      ensures removed.None? ==> buckets[..] == old(buckets[..])
    {
      ghost var t := buckets[..];
      RemoveFromTable(t, key);
      var i := BucketIndex(key, buckets.Length);
      var chain, found := RemoveFromChain(buckets[i], key);
      if found.Some? {
        buckets[i] := chain;
        assert buckets[..] == TableRemove(t, key);
        size := size - 1;
      }
      removed := found;
    }

    /** isEmpty: no mappings (in particular before the first put). */
    method IsEmpty() returns (empty: bool)
      requires Valid()
      ensures empty <==> Contents() == map[]
    {
      empty := buckets == null || size == 0;
    }

    /** containsKey: whether `key` is mapped. */
    method ContainsKey(key: Long) returns (present: bool)
      requires Valid()
      ensures present <==> key in Contents()
    {
      var node := GetNode(key);
      present := node.Some?;
    }

    /** containsValue: whether some key maps to `value`, by a scan of every chain of every bucket. */
    method ContainsValue(value: V) returns (found: bool)
      requires Valid()
      ensures found <==> value in Contents().Values
    {
      if buckets == null {
        return false;
      }
      ListingIsContents(buckets[..]);
      var b := 0;
      while b < buckets.Length
        invariant 0 <= b <= buckets.Length
        invariant forall e :: e in Flatten(buckets[..b]) ==> e.value != value
      {
        var entry := buckets[b];
        var j := 0;
        while j < |entry|
          invariant 0 <= j <= |entry|
          invariant forall m :: 0 <= m < j ==> entry[m].value != value
        {
          if entry[j].value == value {
            FlattenMember(buckets[..], entry[j]);
            assert Contents()[entry[j].key] == value;
            return true;
          }
          j := j + 1;
        }
        FlattenStep(buckets[..], b);
        b := b + 1;
      }
      assert buckets[..buckets.Length] == buckets[..];
      return false;
    }

    /** keys: a fresh array of length size holding the keys in listing order. */
    method Keys() returns (keys: array<Long>)
      requires Valid()
      ensures fresh(keys)
      ensures keys.Length == size
      ensures keys[..] == KeysOf(Listing())
    {
      keys := new Long[size];
      if buckets == null {
        return;
      }
      ListingSize(buckets[..]);
      CollectKeys(buckets, keys);
    }

    /** values: the values in listing order, one per mapping. */
    method Values() returns (values: seq<V>)
      requires Valid()
      ensures |values| == size
      ensures values == ValuesOf(Listing())
    {
      values := [];
      if buckets == null {
        return;
      }
      ListingSize(buckets[..]);
      var b := 0;
      while b < buckets.Length
        invariant 0 <= b <= buckets.Length
        invariant values == ValuesOf(Flatten(buckets[..b]))
      {
        var entry := buckets[b];
        var j := 0;
        while j < |entry|
          invariant 0 <= j <= |entry|
          invariant values == ValuesOf(Flatten(buckets[..b]) + entry[..j])
        {
          values := values + [entry[j].value];
          assert entry[..j + 1] == entry[..j] + [entry[j]];
          j := j + 1;
        }
        assert entry[..|entry|] == entry;
        FlattenStep(buckets[..], b);
        b := b + 1;
      }
      assert buckets[..buckets.Length] == buckets[..];
    }

    /** size: the number of mappings. */
    method Size() returns (n: nat)
      requires Valid()
      ensures n == |Contents()|
    {
      n := size;
    }

    /** clear: drop every mapping but keep the bucket array and its length. */
    method Clear()
      requires Valid()
      modifies this, buckets
      ensures Valid() && Contents() == map[] && size == 0
      ensures buckets == old(buckets) && doublings == old(doublings)
      ensures buckets != null ==> forall i :: 0 <= i < buckets.Length ==> buckets[i] == []
    {
      if buckets != null && size != 0 {
        size := 0;
        forall i | 0 <= i < buckets.Length {
          buckets[i] := [];
        }
      }
      if buckets != null {
        NoMappingsNoNodes(buckets[..]);
        EmptyChainsAbstract(buckets[..]);
      }
    }

    /** getNode: the node holding `key`, if any. */
    method GetNode(key: Long) returns (node: Option<Entry<V>>)
      requires Valid()
      ensures node.Some? <==> key in Contents()
      ensures node.Some? ==> node.value == Entry(key, Contents()[key])
    {
      if buckets == null {
        return None;
      }
      var i := BucketIndex(key, buckets.Length);
      node := FindNode(buckets[i], key);
      AbstractGet(buckets[..], key);
    }

    /**
     * resizeOrCreate: allocate the bucket array on the first put; later,
     * when size exceeds length times load factor, allocate one twice as long
     * and re-put every node into it, bucket by bucket, head to tail.
     */
    method ResizeOrCreate()
      requires Valid()
      modifies this
      ensures Valid() && buckets != null
      ensures Contents() == old(Contents()) && size == old(size)
      ensures buckets[..] == old(TableBeforeInsert())
      ensures old(buckets) == null ==> fresh(buckets) && buckets.Length == initialCapacity
      ensures old(buckets) != null && old(NeedsResize()) ==>
        fresh(buckets) && buckets.Length == 2 * old(buckets.Length)
      ensures old(buckets) != null && !old(NeedsResize()) ==> buckets == old(buckets)
    {
      if buckets == null {
        buckets := new Chain<V>[initialCapacity](_ => []);
        doublings := 0;
        EmptyChainsAbstract(buckets[..]);
        return;
      }
      if NeedsResize() {
        Grow();
      }
    }

    /** The growth branch of resizeOrCreate: double the bucket array and re-put every node. */
    method Grow()
      requires Valid() && buckets != null
      modifies this
      ensures Valid() && buckets != null && fresh(buckets)
      ensures buckets.Length == 2 * old(buckets.Length)
      ensures buckets[..] == Rehash(old(buckets[..]), buckets.Length)
      ensures Contents() == old(Contents()) && size == old(size)
    {
      ghost var t := buckets[..];
      size := 0;
      var oldBuckets := buckets;
      buckets := new Chain<V>[2 * oldBuckets.Length](_ => []);
      RePutAll(oldBuckets);
      assert oldBuckets[..] == t;
      RehashAbstract(t, buckets.Length);
      Pow2Double(initialCapacity, doublings);
      doublings := doublings + 1;
    }

    /**
     * The re-put step of growth: put every node of `oldBuckets` into the
     * (initially empty) current bucket array, bucket by bucket, head to tail.
     */
    method RePutAll(oldBuckets: array<Chain<V>>)
      requires buckets != null && buckets != oldBuckets && 0 < buckets.Length
      requires forall i :: 0 <= i < buckets.Length ==> buckets[i] == []
      requires size == 0
      modifies this`size, buckets
      ensures TableValid(buckets[..]) && size == |Abstract(buckets[..])|
      ensures buckets[..] == Rehash(oldBuckets[..], buckets.Length)
    {
      EmptyChainsAbstract(buckets[..]);
      assert buckets[..] == EmptyTable(buckets.Length);
      assert oldBuckets[0..] == oldBuckets[..];
      ghost var goal := Rehash(oldBuckets[..], buckets.Length);
      var b := 0;
      while b < oldBuckets.Length
        invariant 0 <= b <= oldBuckets.Length
        invariant TableValid(buckets[..]) && size == |Abstract(buckets[..])|
        invariant InsertAll(buckets[..], Flatten(oldBuckets[b..])) == goal
      {
        FlattenFrom(oldBuckets[..], b);
        assert oldBuckets[..][b..] == oldBuckets[b..] && oldBuckets[..][b + 1..] == oldBuckets[b + 1..];
        InsertAllAppend(buckets[..], oldBuckets[b], Flatten(oldBuckets[b + 1..]));
        RePutChain(oldBuckets[b]);
        b := b + 1;
      }
      assert oldBuckets[oldBuckets.Length..] == [];
    }

    /** Re-put the nodes of one old chain, head to tail. */
    method RePutChain(entry: Chain<V>)
      requires buckets != null && TableValid(buckets[..]) && size == |Abstract(buckets[..])|
      modifies this`size, buckets
      ensures TableValid(buckets[..]) && size == |Abstract(buckets[..])|
      ensures buckets[..] == InsertAll(old(buckets[..]), entry)
    {
      ghost var goal := InsertAll(buckets[..], entry);
      var j := 0;
      while j < |entry|
        invariant 0 <= j <= |entry|
        invariant TableValid(buckets[..]) && size == |Abstract(buckets[..])|
        invariant InsertAll(buckets[..], entry[j..]) == goal
      {
        var node := entry[j];
        assert entry[j..][1..] == entry[j + 1..];
        var _ := PutIntoBuckets(node.key, node.value);
        j := j + 1;
      }
      assert entry[|entry|..] == [];
    }
  }

  /** keys()'s walk: write the keys of every chain, bucket by bucket, head to tail, into `keys`. */
  method CollectKeys<V>(buckets: array<Chain<V>>, keys: array<Long>)
    requires keys.Length == |Flatten(buckets[..])|
    modifies keys
    ensures keys[..] == KeysOf(Flatten(buckets[..]))
  {
    ghost var listing := Flatten(buckets[..]);
    var i := 0;
    var b := 0;
    while b < buckets.Length
      invariant 0 <= b <= buckets.Length
      invariant i == |Flatten(buckets[..b])| <= |listing|
      invariant forall k :: 0 <= k < i ==> keys[k] == listing[k].key
    {
      var entry := buckets[b];
      ghost var start := i;
      FlattenChainAt(buckets[..], b, start, entry);
      i := CopyChainKeys(entry, keys, i);
      forall k | start <= k < i
        ensures keys[k] == listing[k].key
      {
        assert keys[start + (k - start)] == entry[k - start].key;
      }
      FlattenStep(buckets[..], b);
      b := b + 1;
    }
    assert buckets[..buckets.Length] == buckets[..];
  }

  /** keys()'s inner walk: write the keys of one chain, head to tail, from index `start` on. */
  method CopyChainKeys<V>(chain: Chain<V>, keys: array<Long>, start: nat) returns (next: nat)
    requires start + |chain| <= keys.Length
    modifies keys
    ensures next == start + |chain|
    ensures forall k :: 0 <= k < start ==> keys[k] == old(keys[k])
    ensures forall k :: 0 <= k < |chain| ==> keys[start + k] == chain[k].key
  {
    next := start;
    var j := 0;
    while j < |chain|
      invariant 0 <= j <= |chain| && next == start + j
      invariant forall k :: 0 <= k < start ==> keys[k] == old(keys[k])
      invariant forall k :: 0 <= k < j ==> keys[start + k] == chain[k].key
    {
      keys[next] := chain[j].key;
      next := next + 1;
      j := j + 1;
    }
  }
}
