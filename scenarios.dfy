/**
 * The unit tests of LongMapImpl, each as a method that drives a fresh map
 * through the test's calls and states the test's expectations as its
 * postcondition.
 */
module Scenarios {
  import opened Options
  import opened Hashing
  import opened Chains
  import opened Tables
  import opened LongMaps

  /** `String.valueOf` on a non-negative number: its decimal digits. */
  function Decimal(n: nat): (s: string)
    ensures 1 <= |s|
  {
    var digit := ['0' + (n % 10) as char];
    if n < 10 then digit else Decimal(n / 10) + digit
  }

  /** The mappings i -> String.valueOf(i) for every i below n. */
  function Decimals(n: nat): (m: map<Long, string>)
    requires n <= TWO_31
    ensures forall k :: k in m <==> 0 <= k < n
  {
    map k: Long | 0 <= k < n :: Decimal(k)
  }

  /** One more put extends Decimals(n) by the key n. */
  lemma DecimalsStep(n: nat)
    requires n < TWO_31
    ensures n !in Decimals(n)
    ensures Decimals(n)[n := Decimal(n)] == Decimals(n + 1)
  {
  }

  /** A fresh default map after `put(i, String.valueOf(i))` for every i below n. */
  method FillWithDecimals(n: nat) returns (m: LongMapImpl<string>)
    requires n <= TWO_31
    ensures fresh(m) && m.Valid() && (m.buckets == null || fresh(m.buckets))
    ensures m.size == n && m.Contents() == Decimals(n)
  {
    m := new LongMapImpl<string>();
    var i := 0;
    while i < n
      invariant 0 <= i <= n
      invariant fresh(m) && m.Valid() && (m.buckets == null || fresh(m.buckets))
      invariant m.size == i && m.Contents() == Decimals(i)
    {
      DecimalsStep(i);
      var _ := m.Put(i, Decimal(i));
      i := i + 1;
    }
  }

  /** put_value: 25 puts grow the table past its first threshold, and get(16) finds its value. */
  method PutValue() returns (got: Option<string>)
    ensures got == Some("16")
  {
    var m := FillWithDecimals(25);
    assert Decimal(16) == "16";
    got := m.Get(16);
  }

  /** put_same_key_with_different_value: the second put of key 1 replaces its value. */
  method PutSameKeyWithDifferentValue() returns (first: Option<string>, second: Option<string>, got: Option<string>)
    ensures first == None && second == Some("ONE")
    ensures got == Some("TWO")
  {
    var m := new LongMapImpl<string>();
    first := m.Put(1, "ONE");
    second := m.Put(1, "TWO");
    got := m.Get(1);
  }

  /** put_with_collisions: keys 4 and 100 share a bucket and keep their own values. */
  method PutWithCollisions() returns (four: Option<string>, hundred: Option<string>)
    ensures four == Some("ONE") && hundred == Some("TWO")
  {
    var m := new LongMapImpl<string>();
    var _ := m.Put(4, "ONE");
    var _ := m.Put(100, "TWO");
    four := m.Get(4);
    hundred := m.Get(100);
  }

  /** A fresh default map holding 1 -> "ONE", 2 -> "TWO", 3 -> "THREE". */
  method OneTwoThree() returns (m: LongMapImpl<string>)
    ensures fresh(m) && m.Valid() && (m.buckets == null || fresh(m.buckets)) && m.size == 3
    ensures m.Contents() == map[1 := "ONE", 2 := "TWO", 3 := "THREE"]
  {
    m := new LongMapImpl<string>();
    var _ := m.Put(1, "ONE");
    assert m.size == 1 && m.buckets.Length == 16;
    var _ := m.Put(2, "TWO");
    assert m.size == 2 && m.buckets.Length == 16;
    var _ := m.Put(3, "THREE");
  }

  /** remove: removing key 2 returns its value and leaves two mappings. */
  method RemovePresentKey() returns (removed: Option<string>, n: nat)
    ensures removed == Some("TWO") && n == 2
  {
    var m := OneTwoThree();
    removed := m.Remove(2);
    n := m.Size();
  }

  /** remove_not_exist_key: removing key 12 returns null and leaves three mappings. */
  method RemoveAbsentKey() returns (removed: Option<string>, n: nat)
    ensures removed == None && n == 3
  {
    var m := OneTwoThree();
    removed := m.Remove(12);
    n := m.Size();
  }

  /** containsKey_positive and containsKey_negative. */
  method ContainsKeyPositiveAndNegative() returns (two: bool, twentyOne: bool)
    ensures two && !twentyOne
  {
    var m := OneTwoThree();
    two := m.ContainsKey(2);
    twentyOne := m.ContainsKey(21);
  }

  /** containsKey_positive_with_collisions: both keys of the shared bucket are found. */
  method ContainsKeyWithCollisions() returns (four: bool, hundred: bool)
    ensures four && hundred
  {
    var m := OneTwoThree();
    var _ := m.Put(100, "ONE");
    var _ := m.Put(4, "FOUR");
    four := m.ContainsKey(4);
    hundred := m.ContainsKey(100);
  }

  /** containsValue_positive_with_collisions: both values of the shared bucket are found. */
  method ContainsValueWithCollisions() returns (four: bool, hundred: bool)
    ensures four && hundred
  {
    var m := OneTwoThree();
    var _ := m.Put(100, "HUNDRED");
    var _ := m.Put(4, "FOUR");
    assert m.Contents()[4] == "FOUR" && m.Contents()[100] == "HUNDRED";
    four := m.ContainsValue("FOUR");
    hundred := m.ContainsValue("HUNDRED");
  }

  /** containsValue_negative: no key maps to "FIVE". */
  method ContainsValueNegative() returns (five: bool)
    ensures !five
  {
    var m := OneTwoThree();
    five := m.ContainsValue("FIVE");
  }

  /** A fresh default map holding 1 -> "ONE", 2 -> "TWO", 4 -> "FOUR". */
  method OneTwoFour() returns (m: LongMapImpl<string>)
    ensures fresh(m) && m.Valid() && (m.buckets == null || fresh(m.buckets))
    ensures m.Contents() == map[1 := "ONE", 2 := "TWO", 4 := "FOUR"]
  {
    m := new LongMapImpl<string>();
    var _ := m.Put(1, "ONE");
    var _ := m.Put(2, "TWO");
    var _ := m.Put(4, "FOUR");
  }

  /** Putting an absent key and removing it again gives back the map. */
  lemma PutThenRemove<V>(m: map<Long, V>, key: Long, value: V)
    requires key !in m
    ensures m[key := value] - {key} == m
  {
  }

  /** containsValue_after_remove_negative: the removed key's value is gone. */
  method ContainsValueAfterRemove() returns (hundred: bool)
    ensures !hundred
  {
    var m := OneTwoFour();
    ghost var before := m.Contents();
    assert 100 !in before && "HUNDRED" !in before.Values;
    PutThenRemove(before, 100, "HUNDRED");
    var _ := m.Put(100, "HUNDRED");
    var _ := m.Remove(100);
    hundred := m.ContainsValue("HUNDRED");
  }

  /** size: fifteen distinct puts make fifteen mappings. */
  method SizeAfterFifteenPuts() returns (n: nat)
    ensures n == 15
  {
    var m := FillWithDecimals(15);
    n := m.Size();
  }

  /** clear_all: after clear the size is 0 and get finds none of the 25 keys. */
  method ClearAll() returns (n: nat, gets: seq<Option<string>>)
    ensures n == 0
    ensures |gets| == 25 && forall i :: 0 <= i < 25 ==> gets[i] == None
  {
    var m := FillWithDecimals(25);
    m.Clear();
    n := m.Size();
    gets := [];
    var i := 0;
    while i < 25
      invariant 0 <= i <= 25 && |gets| == i
      invariant forall j :: 0 <= j < i ==> gets[j] == None
      invariant m.Valid() && m.Contents() == map[]
    {
      var got := m.Get(i);
      gets := gets + [got];
      i := i + 1;
    }
  }

  /** keys: fifteen mappings give fifteen keys. */
  method KeysAfterFifteenPuts() returns (count: nat)
    ensures count == 15
  {
    var m := FillWithDecimals(15);
    var keys := m.Keys();
    count := keys.Length;
  }

  /** A put on an allocated map below its growth threshold: the array stays and only the key's bucket changes. */
  method PutWithoutGrowth(m: LongMapImpl<string>, key: Long, value: string)
    requires m.Valid() && m.buckets != null && !m.NeedsResize()
    modifies m, m.buckets
    ensures m.Valid() && m.buckets == old(m.buckets)
    ensures m.buckets[..] == TablePut(old(m.buckets[..]), key, value)
    ensures m.size <= old(m.size) + 1
  {
    var _ := m.Put(key, value);
  }

  /** A fresh default map after keys_not_ordered's five puts, and its bucket array. */
  method NotOrderedMap() returns (m: LongMapImpl<string>)
    ensures fresh(m) && m.Valid() && m.buckets != null
    ensures m.Listing() == Flatten(NotOrderedTable())
  {
    m := new LongMapImpl<string>();
    var _ := m.Put(1, "ONE");
    ghost var t := TablePut(EmptyTable(DEFAULT_INITIAL_CAPACITY), 1, "ONE");
    assert m.buckets[..] == t && m.size == 1 && m.buckets.Length == 16;
    PutWithoutGrowth(m, 12, "TWO");
    t := TablePut(t, 12, "TWO");
    PutWithoutGrowth(m, 100, "HUNDRED");
    t := TablePut(t, 100, "HUNDRED");
    PutWithoutGrowth(m, 41, "FOUR");
    t := TablePut(t, 41, "FOUR");
    PutWithoutGrowth(m, 101, "HUNDRED ONE");
    t := TablePut(t, 101, "HUNDRED ONE");
    assert m.buckets[..] == t;
  }

  /** keys_not_ordered: keys() lists the keys bucket by bucket, 1, 100, 101, 41, 12. */
  method KeysNotOrdered() returns (keys: seq<Long>)
    ensures keys == [1, 100, 101, 41, 12]
  {
    NotOrderedKeysAndValues();
    var m := NotOrderedMap();
    var a := m.Keys();
    keys := a[..];
  }

  /** values_not_ordered: values() holds the five values, bucket by bucket. */
  method ValuesNotOrdered() returns (values: seq<string>)
    ensures values == ["ONE", "HUNDRED", "HUNDRED ONE", "FOUR", "TWO"]
    ensures multiset(values) == multiset{"ONE", "TWO", "HUNDRED", "FOUR", "HUNDRED ONE"}
  {
    NotOrderedKeysAndValues();
    var m := NotOrderedMap();
    values := m.Values();
  }

  /** The bucket array after keys_not_ordered's five puts into a fresh default map. */
  function NotOrderedTable(): Table<string> {
    var t1 := TablePut(EmptyTable(DEFAULT_INITIAL_CAPACITY), 1, "ONE");
    var t2 := TablePut(t1, 12, "TWO");
    var t3 := TablePut(t2, 100, "HUNDRED");
    var t4 := TablePut(t3, 41, "FOUR");
    TablePut(t4, 101, "HUNDRED ONE")
  }

  /** A put into an empty bucket makes that bucket a one-node chain. */
  lemma PutIntoEmptyBucket<V>(t: Table<V>, key: Long, value: V)
    requires 0 < |t| && t[BucketIndex(key, |t|)] == []
    ensures TablePut(t, key, value) == t[BucketIndex(key, |t|) := [Entry(key, value)]]
  {
    var c: Chain<V> := [];
    assert Find(c, key) == None;
    assert ChainPut(c, key, value) == c + [Entry(key, value)] == [Entry(key, value)];
  }

  /** Keys 1, 12, 100, 41 and 101 land alone in buckets 1, 12, 4, 9 and 5. */
  lemma NotOrderedBuckets()
    ensures |NotOrderedTable()| == 16
    ensures forall b :: 0 <= b < 16 && b !in {1, 4, 5, 9, 12} ==> NotOrderedTable()[b] == []
    ensures NotOrderedTable()[1] == [Entry(1, "ONE")] && NotOrderedTable()[4] == [Entry(100, "HUNDRED")]
    ensures NotOrderedTable()[5] == [Entry(101, "HUNDRED ONE")] && NotOrderedTable()[9] == [Entry(41, "FOUR")]
    ensures NotOrderedTable()[12] == [Entry(12, "TWO")]
  {
    var e := EmptyTable<string>(16);
    PutIntoEmptyBucket(e, 1, "ONE");
    var t1 := e[1 := [Entry(1, "ONE")]];
    PutIntoEmptyBucket(t1, 12, "TWO");
    var t2 := t1[12 := [Entry(12, "TWO")]];
    assert BucketIndex(100, 16) == 4;
    PutIntoEmptyBucket(t2, 100, "HUNDRED");
    var t3 := t2[4 := [Entry(100, "HUNDRED")]];
    assert BucketIndex(41, 16) == 9;
    PutIntoEmptyBucket(t3, 41, "FOUR");
    var t4 := t3[9 := [Entry(41, "FOUR")]];
    assert BucketIndex(101, 16) == 5;
    PutIntoEmptyBucket(t4, 101, "HUNDRED ONE");
  }

  /** The listing of four buckets is their chains one after the other. */
  lemma FlattenFour<V>(q: Table<V>)
    requires |q| == 4
    ensures Flatten(q) == q[0] + q[1] + q[2] + q[3]
  {
    assert q[..0] == [] && q[..4] == q;
    FlattenStep(q, 0);
    FlattenStep(q, 1);
    FlattenStep(q, 2);
    FlattenStep(q, 3);
  }

  /** The listing of sixteen buckets, four at a time. */
  lemma FlattenSixteen<V>(t: Table<V>)
    requires |t| == 16
    ensures Flatten(t) == Flatten(t[..4]) + Flatten(t[4..8]) + Flatten(t[8..12]) + Flatten(t[12..])
  {
    assert t == t[..4] + t[4..8] + t[8..12] + t[12..];
    FlattenAppend(t[..4] + t[4..8] + t[8..12], t[12..]);
    FlattenAppend(t[..4] + t[4..8], t[8..12]);
    FlattenAppend(t[..4], t[4..8]);
  }

  /** keys() and values() visit the buckets in index order: keys 1, 100, 101, 41, 12. */
  lemma NotOrderedListing()
    ensures Flatten(NotOrderedTable())
      == [Entry(1, "ONE"), Entry(100, "HUNDRED"), Entry(101, "HUNDRED ONE"), Entry(41, "FOUR"), Entry(12, "TWO")]
  {
    NotOrderedBuckets();
    ListingOfFiveBuckets(NotOrderedTable());
  }

  /** The listing of any 16-bucket array whose only nodes are those five, one per bucket. */
  lemma ListingOfFiveBuckets(t: Table<string>)
    requires |t| == 16
    requires forall b :: 0 <= b < 16 && b !in {1, 4, 5, 9, 12} ==> t[b] == []
    requires t[1] == [Entry(1, "ONE")] && t[4] == [Entry(100, "HUNDRED")]
    requires t[5] == [Entry(101, "HUNDRED ONE")] && t[9] == [Entry(41, "FOUR")]
    requires t[12] == [Entry(12, "TWO")]
    ensures Flatten(t)
      == [Entry(1, "ONE"), Entry(100, "HUNDRED"), Entry(101, "HUNDRED ONE"), Entry(41, "FOUR"), Entry(12, "TWO")]
  {
    FlattenSixteen(t);
    FlattenFour(t[..4]);
    FlattenFour(t[4..8]);
    FlattenFour(t[8..12]);
    FlattenFour(t[12..]);
    assert Flatten(t[..4]) == [Entry(1, "ONE")] by { assert t[..4][0] == [] && t[..4][2] == [] && t[..4][3] == []; }
    assert Flatten(t[4..8]) == [Entry(100, "HUNDRED"), Entry(101, "HUNDRED ONE")] by { assert t[4..8][2] == [] && t[4..8][3] == []; }
    assert Flatten(t[8..12]) == [Entry(41, "FOUR")] by { assert t[8..12][0] == [] && t[8..12][2] == [] && t[8..12][3] == []; }
    assert Flatten(t[12..]) == [Entry(12, "TWO")] by { assert t[12..][1] == [] && t[12..][2] == [] && t[12..][3] == []; }
  }

  /** The nodes keys() and values() visit after keys_not_ordered's puts. */
  function NotOrderedNodes(): seq<Entry<string>> {
    [Entry(1, "ONE"), Entry(100, "HUNDRED"), Entry(101, "HUNDRED ONE"), Entry(41, "FOUR"), Entry(12, "TWO")]
  }

  /** Their keys and their values, in order. */
  lemma NotOrderedNodesKeysAndValues()
    ensures KeysOf(NotOrderedNodes()) == [1, 100, 101, 41, 12]
    ensures ValuesOf(NotOrderedNodes()) == ["ONE", "HUNDRED", "HUNDRED ONE", "FOUR", "TWO"]
  {
    var ks, vs := KeysOf(NotOrderedNodes()), ValuesOf(NotOrderedNodes());
    assert ks[0] == 1 && ks[1] == 100 && ks[2] == 101 && ks[3] == 41 && ks[4] == 12;
    assert vs[0] == "ONE" && vs[1] == "HUNDRED" && vs[2] == "HUNDRED ONE" && vs[3] == "FOUR" && vs[4] == "TWO";
  }

  /** The keys and the values of the listing after keys_not_ordered's puts. */
  lemma NotOrderedKeysAndValues()
    ensures KeysOf(Flatten(NotOrderedTable())) == [1, 100, 101, 41, 12]
    ensures ValuesOf(Flatten(NotOrderedTable())) == ["ONE", "HUNDRED", "HUNDRED ONE", "FOUR", "TWO"]
  {
    NotOrderedListing();
    NotOrderedNodesKeysAndValues();
  }
}
