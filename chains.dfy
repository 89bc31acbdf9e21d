/**
 * Collision chains. In LongMapImpl a bucket holds a singly linked list of
 * `Entry` nodes; here a chain is the sequence of its nodes, head first, so
 * following `next` is moving to the following position.
 */
module Chains {
  import opened Options
  import opened Hashing

  /** A node of a chain: its key and its value (the `next` link is the chain's order). */
  datatype Entry<V> = Entry(key: Long, value: V)

  /** A collision chain, head first. */
  type Chain<V> = seq<Entry<V>>

  /** No key occurs twice in the chain. */
  ghost predicate DistinctKeys<V>(c: seq<Entry<V>>) {
    forall i, j :: 0 <= i < j < |c| ==> c[i].key != c[j].key
  }

  /** The first position at or after `from` whose node holds `key`, if any. */
  function FindFrom<V>(c: Chain<V>, key: Long, from: nat): (r: Option<nat>)
    requires from <= |c|
    ensures r.Some? ==> from <= r.value < |c| && c[r.value].key == key
    ensures r.Some? ==> forall j :: from <= j < r.value ==> c[j].key != key
    ensures r.None? ==> forall j :: from <= j < |c| ==> c[j].key != key
    decreases |c| - from
  {
    if from == |c| then None
    else if c[from].key == key then Some(from)
    else FindFrom(c, key, from + 1)
  }

  /** The position of the first node holding `key`, walking from the head. */
  function Find<V>(c: Chain<V>, key: Long): Option<nat>
  {
    FindFrom(c, key, 0)
  }

  /** The value the chain holds for `key`: that of the first node with that key. */
  function ChainGet<V>(c: Chain<V>, key: Long): (r: Option<V>)
    ensures r.None? <==> forall j :: 0 <= j < |c| ==> c[j].key != key
    ensures r.Some? ==> Entry(key, r.value) in c
  {
    match Find(c, key)
    case Some(j) => Some(c[j].value)
    case None => None
  }

  /**
   * The chain after putting `key` with `value`: a node already holding the
   * key gets the new value in place, otherwise a node is appended at the tail.
   */
  function ChainPut<V>(c: Chain<V>, key: Long, value: V): (r: Chain<V>)
    ensures forall e :: e in r ==> e in c || e == Entry(key, value)
    ensures Entry(key, value) in r
    ensures |r| == if ChainGet(c, key).None? then |c| + 1 else |c|
    ensures DistinctKeys(c) ==> DistinctKeys(r)
  {
    match Find(c, key)
    case Some(j) =>
      var r := c[j := Entry(key, value)];
      assert r[j] == Entry(key, value);
      r
    case None => c + [Entry(key, value)]
  }

  /** The chain after removing `key`: the first node holding it is unlinked. */
  function ChainRemove<V>(c: Chain<V>, key: Long): (r: Chain<V>)
    ensures forall e :: e in r ==> e in c
    ensures |r| == if ChainGet(c, key).None? then |c| else |c| - 1
    ensures DistinctKeys(c) ==> DistinctKeys(r)
    ensures DistinctKeys(c) ==> forall e :: e in r ==> e.key != key
    ensures forall e :: e in c && e.key != key ==> e in r
  {
    match Find(c, key)
    case Some(j) => c[..j] + c[j + 1..]
    case None => c
  }

  /** In a chain without repeated keys, the value found for a key is the value of the node holding it. */
  lemma ChainGetMember<V>(c: Chain<V>, key: Long, value: V)
    requires DistinctKeys(c)
    ensures ChainGet(c, key) == Some(value) <==> Entry(key, value) in c
  {
    if Entry(key, value) in c {
      var j :| 0 <= j < |c| && c[j] == Entry(key, value);
      var k := Find(c, key).value;
      assert k == j;
    }
  }

  /** After a put, the key reads back the new value and every other key reads as before. */
  lemma ChainPutGet<V>(c: Chain<V>, key: Long, value: V, other: Long)
    ensures ChainGet(ChainPut(c, key, value), key) == Some(value)
    ensures other != key ==> ChainGet(ChainPut(c, key, value), other) == ChainGet(c, other)
  {
    var r := ChainPut(c, key, value);
    assert |r| >= |c|;
    assert forall j :: 0 <= j < |c| ==> r[j].key == c[j].key;
    match Find(c, key)
    case Some(j) =>
      assert Find(r, key) == Some(j);
    case None =>
      assert Find(r, key) == Some(|c|);
  }

  /** In a chain without repeated keys, after a remove the key is gone and every other key reads as before. */
  lemma ChainRemoveGet<V>(c: Chain<V>, key: Long, other: Long)
    requires DistinctKeys(c)
    ensures ChainGet(ChainRemove(c, key), key) == None
    ensures other != key ==> ChainGet(ChainRemove(c, key), other) == ChainGet(c, other)
  {
    var r := ChainRemove(c, key);
    if other != key {
      match ChainGet(c, other)
      case Some(v) =>
        ChainGetMember(c, other, v);
        ChainGetMember(r, other, v);
      case None =>
    }
  }

  /** getNode's walk along one chain: the first node holding `key`, or none. */
  method FindNode<V>(c: Chain<V>, key: Long) returns (node: Option<Entry<V>>)
    ensures node.Some? <==> ChainGet(c, key).Some?
    ensures node.Some? ==> node.value == Entry(key, ChainGet(c, key).value)
  {
    var j := 0;
    while j < |c|
      invariant j <= |c|
      invariant Find(c, key) == FindFrom(c, key, j)
    {
      if c[j].key == key {
        return Some(c[j]);
      }
      j := j + 1;
    }
    return None;
  }

  /**
   * put's walk along one chain: replace the value of the node holding `key`,
   * or link a new node after the tail. Also returns the value replaced.
   */
  method PutInChain<V>(c: Chain<V>, key: Long, value: V) returns (r: Chain<V>, previous: Option<V>)
    ensures r == ChainPut(c, key, value)
    ensures previous == ChainGet(c, key)
  {
    var j := 0;
    while j < |c|
      invariant j <= |c|
      invariant Find(c, key) == FindFrom(c, key, j)
    {
      if c[j].key == key {
        previous := Some(c[j].value);
        r := c[j := Entry(key, value)];
        return;
      }
      j := j + 1;
    }
    previous := None;
    r := c + [Entry(key, value)];
  }

  /**
   * remove's walk along one chain with a trailing `prev`: unlink the node
   * holding `key` (the bucket head moves on when it is the head, otherwise
   * `prev.next` skips it) and return its value.
   */
  method RemoveFromChain<V>(c: Chain<V>, key: Long) returns (r: Chain<V>, removed: Option<V>)
    ensures r == ChainRemove(c, key)
    ensures removed == ChainGet(c, key)
  {
    var curr := 0;
    while curr < |c|
      invariant curr <= |c|
      invariant Find(c, key) == FindFrom(c, key, curr)
    {
      if c[curr].key == key {
        if curr == 0 {
          r := c[1..];
          assert r == c[..0] + c[1..];
        } else {
          var prev := curr - 1;
          r := c[..prev + 1] + c[curr + 1..];
        }
        removed := Some(c[curr].value);
        return;
      }
      curr := curr + 1;
    }
    r, removed := c, None;
  }
}
