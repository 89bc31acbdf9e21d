/**
 * LongMapImpl's put, remove, growth step and bucket index as the Java text
 * computes them, beside the behaviour its documentation and tests promise
 * (modules Hashing, Chains, Tables and LongMaps). Each discrepancy comes
 * with an input that exhibits it.
 */
module AsWritten {
  import opened Options
  import opened Hashing
  import opened Chains
  import opened Tables

  // ----- bucket index: Java's `%` -----

  /** Java's `%` on `int`: the remainder truncates toward zero and takes the dividend's sign. */
  function JavaRemainder(a: int, n: int): (r: int)
    requires 0 < n
    ensures -n < r < n
    ensures 0 <= a ==> r == a % n
    ensures a < 0 ==> r <= 0
    ensures r == a % n || r == a % n - n
  {
    if 0 <= a then a % n
    else
      NegatedRemainder(a, n);
      -((-a) % n)
  }

  /** For a negative dividend, minus the remainder of its negation is the remainder or the remainder minus n. */
  lemma NegatedRemainder(a: int, n: int)
    requires a < 0 < n
    ensures -((-a) % n) == a % n || -((-a) % n) == a % n - n
  {
    var q, m := (-a) / n, (-a) % n;
    var p, r := a / n, a % n;
    assert -a == q * n + m && a == p * n + r;
    var x := p + q;
    assert x * n == p * n + q * n;
    assert x * n == -(m + r);
    assert x == 0 || x == -1;
    if x == -1 {
      assert -n == -(m + r);
    }
  }

  /**
   * `hash % size`, the bucket index put, remove and getNode compute. It is
   * the intended index or that index minus the length, and it is negative
   * only for a negative hash code.
   */
  function PlaceInBucketAsWritten(key: Long, length: nat): (r: int)
    requires 0 < length
    ensures r == BucketIndex(key, length) || r == BucketIndex(key, length) - length
    ensures r < 0 ==> HashCode(key) < 0
  {
    JavaRemainder(HashCode(key), length)
  }

  /** For a key whose hash code is not negative, the index as written is the intended one. */
  lemma PlaceInBucketAgrees(key: Long, length: nat)
    requires 0 < length && 0 <= HashCode(key)
    ensures PlaceInBucketAsWritten(key, length) == BucketIndex(key, length)
  {
  }

  /** The key 2^31 + 1 has hash code -(2^31 - 1), so at length 16 the index as written is -15. */
  lemma NegativePlaceInBucket()
    ensures HashCode(0x8000_0001) == -0x7FFF_FFFF
    ensures PlaceInBucketAsWritten(0x8000_0001, 16) == -15
    ensures 0 <= BucketIndex(0x8000_0001, 16) < 16
  {
    assert BitXor(0x8000_0001, 0) == 0x8000_0001;
  }

  // ----- put -----

  /** The bucket's chain after put as written, how much size grows, and what put returns. */
  datatype PutOutcome<V> = PutOutcome(chain: Chain<V>, added: nat, returned: Option<V>)

  /**
   * put's effect on the chain of the key's bucket, as written. A head with the
   * key makes the bucket a single fresh node, dropping the rest of the chain.
   * Otherwise the walk stops at a node holding both the key and the value,
   * or appends a node at the tail unless the tail's key equals the value,
   * and size grows by one in every case. `keyEqualsValue` is the comparison
   * of a key with a value that the walk performs.
   */
  function PutAsWritten<V(==)>(c: Chain<V>, key: Long, value: V, keyEqualsValue: (Long, V) -> bool): (o: PutOutcome<V>)
    ensures o.returned.Some? <==> c != [] && c[0].key == key
    ensures o.returned.Some? ==> o.chain == [Entry(key, value)] && o.added == 0 && o.returned.value == c[0].value
    ensures o.returned.None? ==> o.added == 1 && c <= o.chain && |o.chain| <= |c| + 1
  {
    if c == [] then PutOutcome([Entry(key, value)], 1, None)
    else if c[0].key == key then PutOutcome([Entry(key, value)], 0, Some(c[0].value))
    else if Entry(key, value) in c || keyEqualsValue(c[|c| - 1].key, value) then PutOutcome(c, 1, None)
    else PutOutcome(c + [Entry(key, value)], 1, None)
  }

  /** When the head holds the key, every other node of the chain is lost. */
  lemma PutAsWrittenDropsChain<V>(c: Chain<V>, key: Long, value: V, keyEqualsValue: (Long, V) -> bool)
    requires DistinctKeys(c) && 2 <= |c| && c[0].key == key
    ensures ChainGet(PutAsWritten(c, key, value, keyEqualsValue).chain, c[1].key) == None
    ensures ChainGet(ChainPut(c, key, value), c[1].key) == Some(c[1].value)
  {
    ChainPutGet(c, key, value, c[1].key);
    ChainGetMember(c, c[1].key, c[1].value);
  }

  /**
   * When the key sits further down the chain and the walk meets no node with
   * both key and value, a second node for the key is appended and size grows.
   */
  lemma PutAsWrittenDuplicatesKey<V>(c: Chain<V>, key: Long, value: V, keyEqualsValue: (Long, V) -> bool, j: nat)
    requires 0 < j < |c| && c[0].key != key && c[j].key == key
    requires Entry(key, value) !in c && !keyEqualsValue(c[|c| - 1].key, value)
    ensures !DistinctKeys(PutAsWritten(c, key, value, keyEqualsValue).chain)
    ensures PutAsWritten(c, key, value, keyEqualsValue).added == 1
    ensures |ChainPut(c, key, value)| == |c|
  {
    var r := PutAsWritten(c, key, value, keyEqualsValue).chain;
    assert r[j].key == r[|c|].key;
  }

  /** The test's chain: keys 4 and 100 share bucket 4 at length 16. */
  lemma PutAsWrittenExample()
    ensures BucketIndex(4, 16) == BucketIndex(100, 16) == 4
    ensures PutAsWritten([Entry(4, "A"), Entry(100, "B")], 4, "C", (k, v) => false).chain == [Entry(4, "C")]
    ensures PutAsWritten([Entry(4, "A"), Entry(100, "B")], 100, "C", (k, v) => false)
      == PutOutcome([Entry(4, "A"), Entry(100, "B"), Entry(100, "C")], 1, None)
    ensures ChainPut([Entry(4, "A"), Entry(100, "B")], 100, "C") == [Entry(4, "A"), Entry(100, "C")]
  {
    var c := [Entry(4, "A"), Entry(100, "B")];
    assert c[0].key != 100 && c[1] != Entry(100, "C");
    assert Entry(100, "C") !in c;
    assert Find(c, 100) == Some(1);
  }

  // ----- remove -----

  /** The bucket's chain after remove as written, how much size shrinks, and what remove returns. */
  datatype RemoveOutcome<V> = RemoveOutcome(chain: Chain<V>, removed: nat, returned: Option<V>)

  /**
   * remove's effect on the chain of the key's bucket, as written. A node found
   * past the head is unlinked, but the bucket is then set to its predecessor,
   * so every node before the predecessor is lost. A key that is absent from a
   * non-empty chain returns the value of the chain's last node.
   */
  function RemoveAsWritten<V>(c: Chain<V>, key: Long): (o: RemoveOutcome<V>)
    ensures c == [] ==> o == RemoveOutcome(c, 0, None)
    ensures o.removed == 1 <==> ChainGet(c, key).Some?
    ensures o.removed == 1 ==> o.returned == ChainGet(c, key)
    ensures c != [] && ChainGet(c, key).None? ==> o.chain == c && o.returned == Some(c[|c| - 1].value)
  {
    if c == [] then RemoveOutcome(c, 0, None)
    else
      match Find(c, key)
      case Some(j) => RemoveOutcome(if j == 0 then c[1..] else c[j - 1..j] + c[j + 1..], 1, Some(c[j].value))
      case None => RemoveOutcome(c, 0, Some(c[|c| - 1].value))
  }

  /** Removing a key found two or more nodes down loses the head of the chain. */
  lemma RemoveAsWrittenDropsHead<V>(c: Chain<V>, key: Long)
    requires DistinctKeys(c) && ChainGet(c, key).Some?
    requires Find(c, key).value >= 2
    ensures ChainGet(RemoveAsWritten(c, key).chain, c[0].key) == None
    ensures ChainGet(ChainRemove(c, key), c[0].key) == Some(c[0].value)
  {
    var j := Find(c, key).value;
    var r := RemoveAsWritten(c, key).chain;
    assert r == [c[j - 1]] + c[j + 1..];
    ChainRemoveGet(c, key, c[0].key);
    ChainGetMember(c, c[0].key, c[0].value);
  }

  /** Keys 1, 17 and 33 share bucket 1 at length 16; removing 33 loses 1, removing 17 from [1] returns "ONE". */
  lemma RemoveAsWrittenExample()
    ensures BucketIndex(1, 16) == BucketIndex(17, 16) == BucketIndex(33, 16) == 1
    ensures RemoveAsWritten([Entry(1, "ONE"), Entry(17, "A"), Entry(33, "B")], 33).chain == [Entry(17, "A")]
    ensures RemoveAsWritten([Entry(1, "ONE")], 17) == RemoveOutcome([Entry(1, "ONE")], 0, Some("ONE"))
  {
    var c := [Entry(1, "ONE"), Entry(17, "A"), Entry(33, "B")];
    assert Find(c, 33) == Some(2);
    assert c[1..2] + c[3..] == [Entry(17, "A")];
    assert Find([Entry(1, "ONE")], 17) == None;
  }

  // ----- growth -----

  /** The head node of every non-empty bucket, in bucket order. */
  function Heads<V>(t: Table<V>): (hs: seq<Entry<V>>)
    ensures |hs| <= |t|
    ensures (forall i :: 0 <= i < |t| ==> t[i] == []) ==> hs == []
    ensures forall e :: e in hs ==> exists i :: 0 <= i < |t| && t[i] != [] && e == t[i][0]
    ensures forall i :: 0 <= i < |t| && t[i] != [] ==> t[i][0] in hs
  {
    if t == [] then []
    else
      var last := t[|t| - 1];
      var hs := Heads(t[..|t| - 1]);
      if last == [] then hs else hs + [last[0]]
  }

  /**
   * resizeOrCreate's re-put as written: only the head of each old bucket is
   * put into the new array. The heads are put with the intended `TablePut`,
   * not `PutAsWritten`: growth doubles a placed table, so its heads have
   * distinct keys and land in distinct, empty buckets of the new array,
   * where the two puts agree.
   */
  function RehashAsWritten<V>(t: Table<V>, length: nat): (r: Table<V>)
    requires 0 < length
    ensures |r| == length
  {
    InsertAll(EmptyTable(length), Heads(t))
  }

  /** Growing a one-bucket table holding keys 0 and 1 to two buckets keeps key 0 only. */
  lemma RehashAsWrittenExample()
    ensures Abstract([[Entry(0, "A"), Entry(1, "B")]]) == map[0 := "A", 1 := "B"]
    ensures Abstract(RehashAsWritten([[Entry(0, "A"), Entry(1, "B")]], 2)) == map[0 := "A"]
    ensures Abstract(Rehash([[Entry(0, "A"), Entry(1, "B")]], 2)) == map[0 := "A", 1 := "B"]
  {
    var t := [[Entry(0, "A"), Entry(1, "B")]];
    assert t[..0] == [];
    assert Flatten(t) == [Entry(0, "A"), Entry(1, "B")];
    var s := Flatten(t);
    assert s[..1] == [Entry(0, "A")] && s[..1][..0] == [];
    assert ToMap(s) == map[0 := "A", 1 := "B"];
    assert Heads(t) == [Entry(0, "A")];
    var e := EmptyTable<string>(2);
    assert BucketIndex(0, 2) == 0;
    var r := TablePut(e, 0, "A");
    assert r == [[Entry(0, "A")], []];
    assert [Entry(0, "A")][1..] == [];
    assert InsertAll(e, [Entry(0, "A")]) == r;
    assert r[..1] == [[Entry(0, "A")]] && r[..1][..0] == [];
    assert Flatten(r) == [Entry(0, "A")];
    assert ToMap([Entry(0, "A")]) == map[0 := "A"];
    EmptyChainsAbstract(t[..0] + [[]]);
    RehashAbstract(t, 2);
  }
}
