/**
 * The bucket array of LongMapImpl as a value: a sequence of chains, with the
 * representation invariant (placement, no repeated keys), the map it
 * stands for, and the table-level put, remove, listing and rehash.
 */
module Tables {
  import opened Options
  import opened Hashing
  import opened Chains

  /** A bucket array: t[i] is the chain hanging off bucket i. */
  type Table<V> = seq<Chain<V>>

  /** A freshly allocated bucket array of n empty buckets. */
  function EmptyTable<V>(n: nat): (t: Table<V>)
    ensures |t| == n && forall i :: 0 <= i < n ==> t[i] == []
  {
    seq(n, _ => [])
  }

  /** Every node of t lies in the bucket its key is placed in when the table has `length` buckets. */
  ghost predicate Placed<V>(t: Table<V>, length: nat)
    requires 0 < length
  {
    forall i, e :: 0 <= i < |t| && e in t[i] ==> BucketIndex(e.key, length) == i
  }

  /** The representation invariant: at least one bucket, every node in its key's bucket, no chain repeats a key. */
  ghost predicate TableValid<V>(t: Table<V>) {
    && 0 < |t|
    && Placed(t, |t|)
    && forall i :: 0 <= i < |t| ==> DistinctKeys(t[i])
  }

  /** A map lookup with absence made explicit. */
  function MapGet<V>(m: map<Long, V>, key: Long): Option<V> {
    if key in m then Some(m[key]) else None
  }

  /** get: look the key up in the chain of its bucket. */
  function TableGet<V>(t: Table<V>, key: Long): (r: Option<V>)
    requires 0 < |t|
    ensures r.None? <==> forall e :: e in t[BucketIndex(key, |t|)] ==> e.key != key
    ensures r.Some? ==> Entry(key, r.value) in t[BucketIndex(key, |t|)]
  {
    ChainGet(t[BucketIndex(key, |t|)], key)
  }

  /** put on an allocated table: update the chain of the key's bucket. */
  function TablePut<V>(t: Table<V>, key: Long, value: V): (r: Table<V>)
    requires 0 < |t|
    ensures |r| == |t|
    ensures Entry(key, value) in r[BucketIndex(key, |t|)]
  {
    var i := BucketIndex(key, |t|);
    t[i := ChainPut(t[i], key, value)]
  }

  /** remove on an allocated table: update the chain of the key's bucket. */
  function TableRemove<V>(t: Table<V>, key: Long): (r: Table<V>)
    requires 0 < |t|
    ensures |r| == |t|
    ensures forall j :: 0 <= j < |t| && j != BucketIndex(key, |t|) ==> r[j] == t[j]
    ensures DistinctKeys(t[BucketIndex(key, |t|)]) ==> forall e :: e in r[BucketIndex(key, |t|)] ==> e.key != key
  {
    var i := BucketIndex(key, |t|);
    t[i := ChainRemove(t[i], key)]
  }

  /** The nodes in the order keys() and values() visit them: bucket by bucket, each chain head to tail. */
  function Flatten<V>(t: Table<V>): seq<Entry<V>> {
    if t == [] then [] else Flatten(t[..|t| - 1]) + t[|t| - 1]
  }

  /** The keys of a sequence of nodes, in order. */
  function KeysOf<V>(s: seq<Entry<V>>): (ks: seq<Long>)
    ensures |ks| == |s| && forall i :: 0 <= i < |s| ==> ks[i] == s[i].key
  {
    seq(|s|, i requires 0 <= i < |s| => s[i].key)
  }

  /** The values of a sequence of nodes, in order. */
  function ValuesOf<V>(s: seq<Entry<V>>): (vs: seq<V>)
    ensures |vs| == |s| && forall i :: 0 <= i < |s| ==> vs[i] == s[i].value
  {
    seq(|s|, i requires 0 <= i < |s| => s[i].value)
  }

  /** The map built by storing the nodes one after the other, later ones winning. */
  function ToMap<V>(s: seq<Entry<V>>): map<Long, V> {
    if s == [] then map[] else ToMap(s[..|s| - 1])[s[|s| - 1].key := s[|s| - 1].value]
  }

  /** The key-to-value map a bucket array stands for. */
  function Abstract<V>(t: Table<V>): map<Long, V> {
    ToMap(Flatten(t))
  }

  /** Put every node of s into t, head first. */
  function InsertAll<V>(t: Table<V>, s: seq<Entry<V>>): (r: Table<V>)
    requires 0 < |t|
    ensures |r| == |t|
    decreases |s|
  {
    if s == [] then t
    else InsertAll(TablePut(t, s[0].key, s[0].value), s[1..])
  }

  /** The growth step: a new array of `length` buckets into which every node is re-put, in listing order. */
  function Rehash<V>(t: Table<V>, length: nat): (r: Table<V>)
    requires 0 < length
    ensures |r| == length
  {
    InsertAll(EmptyTable(length), Flatten(t))
  }

  // ----- ToMap -----

  lemma {:induction false} ToMapKeys<V>(s: seq<Entry<V>>, key: Long)
    ensures key in ToMap(s) <==> exists j :: 0 <= j < |s| && s[j].key == key
  {
    if s != [] {
      var p := s[..|s| - 1];
      ToMapKeys(p, key);
      if exists j :: 0 <= j < |p| && p[j].key == key {
        var j :| 0 <= j < |p| && p[j].key == key;
        assert s[j].key == key;
      }
      if exists j :: 0 <= j < |s| && s[j].key == key {
        var j :| 0 <= j < |s| && s[j].key == key;
        if j < |p| {
          assert p[j].key == key;
        }
      }
    }
  }

  lemma {:induction false} ToMapAt<V>(s: seq<Entry<V>>, j: nat)
    requires DistinctKeys(s) && j < |s|
    ensures s[j].key in ToMap(s) && ToMap(s)[s[j].key] == s[j].value
  {
    if j < |s| - 1 {
      var p := s[..|s| - 1];
      assert DistinctKeys(p);
      ToMapAt(p, j);
    }
  }

  lemma {:induction false} ToMapSize<V>(s: seq<Entry<V>>)
    requires DistinctKeys(s)
    ensures |ToMap(s)| == |s|
  {
    if s != [] {
      var p := s[..|s| - 1];
      assert DistinctKeys(p);
      ToMapSize(p);
      ToMapKeys(p, s[|s| - 1].key);
      assert s[|s| - 1].key !in ToMap(p);
    }
  }

  lemma MapExtensionality<V>(m1: map<Long, V>, m2: map<Long, V>)
    requires forall k :: MapGet(m1, k) == MapGet(m2, k)
    ensures m1 == m2
  {
    forall k | k in m1
      ensures k in m2 && m1[k] == m2[k]
    {
      assert MapGet(m1, k) == MapGet(m2, k);
    }
    forall k | k in m2
      ensures k in m1
    {
      assert MapGet(m1, k) == MapGet(m2, k);
    }
  }

  // ----- Flatten -----

  lemma {:induction false} FlattenMember<V>(t: Table<V>, e: Entry<V>)
    ensures e in Flatten(t) <==> exists i :: 0 <= i < |t| && e in t[i]
  {
    if t != [] {
      var p := t[..|t| - 1];
      FlattenMember(p, e);
      if exists i :: 0 <= i < |p| && e in p[i] {
        var i :| 0 <= i < |p| && e in p[i];
        assert e in t[i];
      }
      if exists i :: 0 <= i < |t| && e in t[i] {
        var i :| 0 <= i < |t| && e in t[i];
        if i < |p| {
          assert e in p[i];
        }
      }
    }
  }

  lemma FlattenStep<V>(t: Table<V>, b: nat)
    requires b < |t|
    ensures Flatten(t[..b + 1]) == Flatten(t[..b]) + t[b]
  {
    assert t[..b + 1][..b] == t[..b];
  }

  /** The listing of two tables side by side is the first listing, then the second. */
  lemma {:induction false} FlattenAppend<V>(a: Table<V>, c: Table<V>)
    ensures Flatten(a + c) == Flatten(a) + Flatten(c)
  {
    if c != [] {
      var p := c[..|c| - 1];
      assert (a + c)[..|a + c| - 1] == a + p;
      FlattenAppend(a, p);
    } else {
      assert a + c == a;
    }
  }

  /** Listing the buckets from b on: bucket b's chain, then the rest. */
  lemma FlattenFrom<V>(t: Table<V>, b: nat)
    requires b < |t|
    ensures Flatten(t[b..]) == t[b] + Flatten(t[b + 1..])
  {
    assert t[b..] == [t[b]] + t[b + 1..];
    FlattenAppend([t[b]], t[b + 1..]);
    assert [t[b]][..0] == [];
  }

  /** The listing splits around bucket b: the buckets before it, its chain, the buckets after it. */
  lemma FlattenSplit<V>(t: Table<V>, b: nat)
    requires b < |t|
    ensures Flatten(t) == Flatten(t[..b]) + t[b] + Flatten(t[b + 1..])
  {
    assert t == t[..b] + t[b..];
    FlattenAppend(t[..b], t[b..]);
    FlattenFrom(t, b);
  }

  /** Bucket b's chain sits in the listing right after the chains of the buckets before it. */
  lemma FlattenChainAt<V>(t: Table<V>, b: nat, start: nat, chain: Chain<V>)
    requires b < |t| && chain == t[b] && start == |Flatten(t[..b])|
    ensures start + |chain| <= |Flatten(t)|
    ensures forall k :: 0 <= k < |chain| ==> Flatten(t)[start + k] == chain[k]
  {
    FlattenSplit(t, b);
  }

  lemma {:induction false} FlattenEmptyChains<V>(t: Table<V>)
    requires forall i :: 0 <= i < |t| ==> t[i] == []
    ensures Flatten(t) == []
  {
    if t != [] {
      FlattenEmptyChains(t[..|t| - 1]);
    }
  }

  /** Listing a placed table never repeats a key: within a chain by the invariant, across chains by placement. */
  lemma {:induction false} FlattenDistinct<V>(t: Table<V>, length: nat)
    requires 0 < length && Placed(t, length)
    requires forall i :: 0 <= i < |t| ==> DistinctKeys(t[i])
    ensures DistinctKeys(Flatten(t))
  {
    if t != [] {
      var p := t[..|t| - 1];
      var last := t[|t| - 1];
      FlattenDistinct(p, length);
      var a := Flatten(p);
      var s := a + last;
      forall i, j | 0 <= i < j < |s|
        ensures s[i].key != s[j].key
      {
        if j < |a| {
          assert s[i] == a[i] && s[j] == a[j];
        } else if |a| <= i {
          assert s[i] == last[i - |a|] && s[j] == last[j - |a|];
        } else {
          assert s[i] in a;
          FlattenMember(p, s[i]);
          assert s[j] in last;
        }
      }
    }
  }

  /** Listing a placed table visits buckets in increasing index order. */
  lemma {:induction false} FlattenOrdered<V>(t: Table<V>, length: nat)
    requires 0 < length && Placed(t, length)
    ensures forall p, q :: 0 <= p < q < |Flatten(t)| ==>
      BucketIndex(Flatten(t)[p].key, length) <= BucketIndex(Flatten(t)[q].key, length)
  {
    if t != [] {
      var pre := t[..|t| - 1];
      var last := t[|t| - 1];
      FlattenOrdered(pre, length);
      var a := Flatten(pre);
      var s := a + last;
      forall p, q | 0 <= p < q < |s|
        ensures BucketIndex(s[p].key, length) <= BucketIndex(s[q].key, length)
      {
        if q < |a| {
          assert s[p] == a[p] && s[q] == a[q];
        } else if |a| <= p {
          assert s[p] in last && s[q] in last;
        } else {
          assert s[p] in a;
          FlattenMember(pre, s[p]);
          assert s[q] in last;
        }
      }
    }
  }

  // ----- the abstraction -----

  /** On a valid table, looking a key up in its bucket's chain agrees with the map the table stands for. */
  lemma AbstractGet<V>(t: Table<V>, key: Long)
    requires TableValid(t)
    ensures MapGet(Abstract(t), key) == TableGet(t, key)
  {
    var s := Flatten(t);
    var i := BucketIndex(key, |t|);
    FlattenDistinct(t, |t|);
    ToMapKeys(s, key);
    if key in ToMap(s) {
      var j :| 0 <= j < |s| && s[j].key == key;
      FlattenMember(t, s[j]);
      ChainGetMember(t[i], key, s[j].value);
      ToMapAt(s, j);
    } else {
      forall m | 0 <= m < |t[i]|
        ensures t[i][m].key != key
      {
        FlattenMember(t, t[i][m]);
      }
    }
  }

  /** put keeps the invariant and updates exactly the one key of the map. */
  lemma AbstractPut<V>(t: Table<V>, key: Long, value: V)
    requires TableValid(t)
    ensures TableValid(TablePut(t, key, value))
    ensures Abstract(TablePut(t, key, value)) == Abstract(t)[key := value]
  {
    var r := TablePut(t, key, value);
    var i := BucketIndex(key, |t|);
    forall k
      ensures MapGet(Abstract(r), k) == MapGet(Abstract(t)[key := value], k)
    {
      AbstractGet(r, k);
      AbstractGet(t, k);
      ChainPutGet(t[i], key, value, k);
    }
    MapExtensionality(Abstract(r), Abstract(t)[key := value]);
  }

  /** remove keeps the invariant and drops exactly the one key from the map. */
  lemma AbstractRemove<V>(t: Table<V>, key: Long)
    requires TableValid(t)
    ensures TableValid(TableRemove(t, key))
    ensures Abstract(TableRemove(t, key)) == Abstract(t) - {key}
  {
    var r := TableRemove(t, key);
    var i := BucketIndex(key, |t|);
    forall k
      ensures MapGet(Abstract(r), k) == MapGet(Abstract(t) - {key}, k)
    {
      AbstractGet(r, k);
      AbstractGet(t, k);
      ChainRemoveGet(t[i], key, k);
    }
    MapExtensionality(Abstract(r), Abstract(t) - {key});
  }

  /** Everything remove needs about the table it deletes from: the new table, its map, its size, and the absent-key case. */
  lemma RemoveFromTable<V>(t: Table<V>, key: Long)
    requires TableValid(t)
    ensures TableValid(TableRemove(t, key))
    ensures Abstract(TableRemove(t, key)) == Abstract(t) - {key}
    ensures MapGet(Abstract(t), key) == TableGet(t, key)
    ensures |Abstract(TableRemove(t, key))| == if TableGet(t, key).Some? then |Abstract(t)| - 1 else |Abstract(t)|
    ensures TableGet(t, key).None? ==> TableRemove(t, key) == t
  {
    AbstractGet(t, key);
    AbstractRemove(t, key);
    MapRemoveSize(Abstract(t), key);
    if TableGet(t, key).None? {
      var i := BucketIndex(key, |t|);
      assert |ChainRemove(t[i], key)| == |t[i]|;
      assert ChainRemove(t[i], key) == t[i];
    }
  }

  /** Dropping a key drops one mapping exactly when the key was mapped. */
  lemma MapRemoveSize<V>(m: map<Long, V>, key: Long)
    ensures |m - {key}| == if key in m then |m| - 1 else |m|
  {
    if key in m {
      var r := m - {key};
      assert r[key := m[key]] == m;
    } else {
      assert m - {key} == m;
    }
  }

  /** A table whose buckets are all empty is valid and stands for the empty map. */
  lemma EmptyChainsAbstract<V>(t: Table<V>)
    requires 0 < |t| && forall i :: 0 <= i < |t| ==> t[i] == []
    ensures TableValid(t) && Abstract(t) == map[]
  {
    FlattenEmptyChains(t);
  }

  /** Putting nodes one by one keeps the table invariant. */
  lemma {:induction false} InsertAllValid<V>(t: Table<V>, s: seq<Entry<V>>)
    requires TableValid(t)
    ensures TableValid(InsertAll(t, s))
    decreases |s|
  {
    if s != [] {
      AbstractPut(t, s[0].key, s[0].value);
      InsertAllValid(TablePut(t, s[0].key, s[0].value), s[1..]);
    }
  }

  /** Putting the nodes of s one by one adds the map they stand for. */
  lemma {:induction false} InsertAllAbstract<V>(t: Table<V>, s: seq<Entry<V>>)
    requires TableValid(t)
    ensures Abstract(InsertAll(t, s)) == Abstract(t) + ToMap(s)
    decreases |s|
  {
    if s == [] {
      assert Abstract(t) + map[] == Abstract(t);
    } else {
      var t' := TablePut(t, s[0].key, s[0].value);
      assert InsertAll(t, s) == InsertAll(t', s[1..]);
      AbstractPut(t, s[0].key, s[0].value);
      InsertAllAbstract(t', s[1..]);
      ToMapCons(Abstract(t), s);
    }
  }

  /** The map m with the nodes of s stored is m with s's head stored, then its tail. */
  lemma ToMapCons<V>(m: map<Long, V>, s: seq<Entry<V>>)
    requires s != []
    ensures m[s[0].key := s[0].value] + ToMap(s[1..]) == m + ToMap(s)
  {
    assert [s[0]] + s[1..] == s;
    ToMapPrepend(m, s[0], s[1..]);
  }

  /** Storing e before the nodes r: a map updated with e, then r, is the map with e and then r stored. */
  lemma {:induction false} ToMapPrepend<V>(m: map<Long, V>, e: Entry<V>, r: seq<Entry<V>>)
    ensures m[e.key := e.value] + ToMap(r) == m + ToMap([e] + r)
  {
    if r == [] {
      assert [e] + r == [e];
      assert ToMap([e]) == map[][e.key := e.value];
      var l, k := m[e.key := e.value] + ToMap(r), m + ToMap([e] + r);
      assert l.Keys == k.Keys;
    } else {
      var p, x := r[..|r| - 1], r[|r| - 1];
      ToMapPrepend(m, e, p);
      assert ([e] + r)[..|[e] + r| - 1] == [e] + p;
      assert ToMap([e] + r) == ToMap([e] + p)[x.key := x.value];
      UnionUpdate(m[e.key := e.value], ToMap(p), x.key, x.value);
      UnionUpdate(m, ToMap([e] + p), x.key, x.value);
    }
  }

  lemma UnionUpdate<V>(m1: map<Long, V>, m2: map<Long, V>, key: Long, value: V)
    ensures (m1 + m2)[key := value] == m1 + m2[key := value]
  {
    var l, r := (m1 + m2)[key := value], m1 + m2[key := value];
    assert l.Keys == r.Keys;
    assert forall k :: k in l ==> l[k] == r[k];
  }

  /** Putting a + b is putting a, then b. */
  lemma {:induction false} InsertAllAppend<V>(t: Table<V>, a: seq<Entry<V>>, b: seq<Entry<V>>)
    requires 0 < |t|
    ensures InsertAll(t, a + b) == InsertAll(InsertAll(t, a), b)
    decreases |a|
  {
    if a == [] {
      assert a + b == b;
    } else {
      assert (a + b)[1..] == a[1..] + b;
      InsertAllAppend(TablePut(t, a[0].key, a[0].value), a[1..], b);
    }
  }

  /** Growth re-places every node: the new table is valid, has the new length, and stands for the same map. */
  lemma RehashAbstract<V>(t: Table<V>, length: nat)
    requires 0 < length
    ensures TableValid(Rehash(t, length))
    ensures Abstract(Rehash(t, length)) == Abstract(t)
  {
    var e, s := EmptyTable<V>(length), Flatten(t);
    EmptyChainsAbstract(e);
    InsertAllValid(e, s);
    InsertAllAbstract(e, s);
    assert Rehash(t, length) == InsertAll(e, s);
    assert map[] + ToMap(s) == ToMap(s);
  }

  /** A valid table lists one node per mapping. */
  lemma ListingSize<V>(t: Table<V>)
    requires TableValid(t)
    ensures |Flatten(t)| == |Abstract(t)|
  {
    FlattenDistinct(t, |t|);
    ToMapSize(Flatten(t));
  }

  /**
   * The listing of a valid table is the map it stands for: no key twice,
   * every listed node is a mapping, every mapping is listed.
   */
  lemma ListingIsContents<V>(t: Table<V>)
    requires TableValid(t)
    ensures DistinctKeys(Flatten(t))
    ensures |Flatten(t)| == |Abstract(t)|
    ensures forall e :: e in Flatten(t) ==> e.key in Abstract(t) && Abstract(t)[e.key] == e.value
    ensures forall k :: k in Abstract(t) ==> Entry(k, Abstract(t)[k]) in Flatten(t)
  {
    var s := Flatten(t);
    FlattenDistinct(t, |t|);
    ToMapSize(s);
    forall e | e in s
      ensures e.key in ToMap(s) && ToMap(s)[e.key] == e.value
    {
      var j :| 0 <= j < |s| && s[j] == e;
      ToMapAt(s, j);
    }
    forall k | k in ToMap(s)
      ensures Entry(k, ToMap(s)[k]) in s
    {
      ToMapKeys(s, k);
      var j :| 0 <= j < |s| && s[j].key == k;
      ToMapAt(s, j);
      assert s[j] == Entry(k, ToMap(s)[k]);
    }
  }

  /** keys(): as many keys as mappings, no key twice, and exactly the keys of the map. */
  lemma KeysListing<V>(t: Table<V>)
    requires TableValid(t)
    ensures |KeysOf(Flatten(t))| == |Abstract(t)|
    ensures forall i, j :: 0 <= i < j < |Flatten(t)| ==> KeysOf(Flatten(t))[i] != KeysOf(Flatten(t))[j]
    ensures forall k :: k in KeysOf(Flatten(t)) <==> k in Abstract(t)
  {
    var s := Flatten(t);
    ListingIsContents(t);
    forall k
      ensures k in KeysOf(s) <==> k in Abstract(t)
    {
      if k in KeysOf(s) {
        var j :| 0 <= j < |s| && KeysOf(s)[j] == k;
        assert s[j] in s;
      }
      if k in Abstract(t) {
        var j :| 0 <= j < |s| && s[j] == Entry(k, Abstract(t)[k]);
        assert KeysOf(s)[j] == k;
      }
    }
  }

  /** values(): as many values as mappings, and the j-th value is the value of the j-th key. */
  lemma ValuesListing<V>(t: Table<V>)
    requires TableValid(t)
    ensures |ValuesOf(Flatten(t))| == |Abstract(t)|
    ensures forall j :: 0 <= j < |Flatten(t)| ==>
      KeysOf(Flatten(t))[j] in Abstract(t) && ValuesOf(Flatten(t))[j] == Abstract(t)[KeysOf(Flatten(t))[j]]
    ensures forall v :: v in ValuesOf(Flatten(t)) <==> v in Abstract(t).Values
  {
    var s := Flatten(t);
    ListingIsContents(t);
    forall j | 0 <= j < |s|
      ensures KeysOf(s)[j] in Abstract(t) && ValuesOf(s)[j] == Abstract(t)[KeysOf(s)[j]]
    {
      assert s[j] in s;
    }
    forall v
      ensures v in ValuesOf(s) <==> v in Abstract(t).Values
    {
      if v in ValuesOf(s) {
        var j :| 0 <= j < |s| && ValuesOf(s)[j] == v;
        assert s[j] in s;
      }
      if v in Abstract(t).Values {
        var k :| k in Abstract(t) && Abstract(t)[k] == v;
        var j :| 0 <= j < |s| && s[j] == Entry(k, v);
        assert ValuesOf(s)[j] == v;
      }
    }
  }

  /** A valid table stands for the empty map exactly when every bucket is empty. */
  lemma NoMappingsNoNodes<V>(t: Table<V>)
    requires TableValid(t)
    ensures Abstract(t) == map[] <==> forall i :: 0 <= i < |t| ==> t[i] == []
  {
    ListingIsContents(t);
    if Abstract(t) == map[] {
      forall i | 0 <= i < |t|
        ensures t[i] == []
      {
        if t[i] != [] {
          FlattenMember(t, t[i][0]);
        }
      }
    }
    if forall i :: 0 <= i < |t| ==> t[i] == [] {
      FlattenEmptyChains(t);
    }
  }
}
