/** The separate-chaining hash table of include/core/HashMap.hpp.
    std::hash is not modelled: the table is given a hash function of type
    K -> nat when it is built, and nothing is assumed about it. */
module HashTable {
  import opened Common

  /** hashFunction: the bucket of key in a table of n buckets. */
  function Slot<K>(hash: K -> nat, key: K, n: nat): (r: nat)
    requires n > 0
    ensures r < n
    ensures r == hash(key) % n
  {
    hash(key) % n
  }

  /** key is the key of some node of chain. */
  ghost predicate KeyIn<K, V>(chain: seq<(K, V)>, key: K) {
    exists j :: 0 <= j < |chain| && chain[j].0 == key
  }

  lemma KeyInSnoc<K, V>(chain: seq<(K, V)>, j: nat, key: K)
    requires j < |chain|
    ensures KeyIn(chain[..j + 1], key) <==> KeyIn(chain[..j], key) || chain[j].0 == key
  {
    if KeyIn(chain[..j + 1], key) && chain[j].0 != key {
      var t :| 0 <= t < j + 1 && chain[..j + 1][t].0 == key;
      assert chain[..j][t] == chain[t];
    }
    if KeyIn(chain[..j], key) {
      var t :| 0 <= t < j && chain[..j][t].0 == key;
      assert chain[..j + 1][t] == chain[t];
    }
    if chain[j].0 == key {
      assert chain[..j + 1][j] == chain[j];
    }
  }

  /** No key is the key of two nodes. */
  ghost predicate DistinctKeys<K, V>(entries: seq<(K, V)>) {
    forall j, j' :: 0 <= j < j' < |entries| ==> entries[j].0 != entries[j'].0
  }

  /** Chain i of a table of n buckets: every node belongs to bucket i and
      carries the value m gives its key, and no key occurs twice. */
  ghost predicate ChainOk<K, V>(chain: seq<(K, V)>, i: nat, n: nat, m: map<K, V>, hash: K -> nat)
    requires n > 0
  {
    && (forall j :: 0 <= j < |chain| ==>
          Slot(hash, chain[j].0, n) == i && chain[j].0 in m && m[chain[j].0] == chain[j].1)
    && DistinctKeys(chain)
  }

  /** The buckets hold exactly the map m: each node lies in the bucket of
      its key with its value, no key is stored twice, and every key of m is
      stored in its bucket. */
  ghost predicate ChainsHold<K, V>(bs: seq<seq<(K, V)>>, m: map<K, V>, hash: K -> nat) {
    && |bs| > 0
    && (forall i :: 0 <= i < |bs| ==> ChainOk(bs[i], i, |bs|, m, hash))
    && (forall k {:trigger KeyIn(bs[Slot(hash, k, |bs|)], k)} :: k in m ==> KeyIn(bs[Slot(hash, k, |bs|)], k))
  }

  lemma EmptyChainsHold<K, V>(bs: seq<seq<(K, V)>>, hash: K -> nat)
    requires |bs| > 0 && forall i :: 0 <= i < |bs| ==> bs[i] == []
    ensures ChainsHold(bs, map[], hash)
  {
  }

  /** A key the bucket of its slot does not hold is not in the map. */
  lemma AbsentFromChain<K, V>(bs: seq<seq<(K, V)>>, m: map<K, V>, hash: K -> nat, key: K)
    requires ChainsHold(bs, m, hash)
    requires forall t :: 0 <= t < |bs[Slot(hash, key, |bs|)]| ==> bs[Slot(hash, key, |bs|)][t].0 != key
    ensures key !in m
  {
    assert key in m ==> KeyIn(bs[Slot(hash, key, |bs|)], key);
  }

  /** Overwriting the value of the node that holds key. */
  lemma OverwriteHolds<K, V>(bs: seq<seq<(K, V)>>, m: map<K, V>, hash: K -> nat, key: K, value: V, j: nat)
    requires ChainsHold(bs, m, hash)
    requires j < |bs[Slot(hash, key, |bs|)]| && bs[Slot(hash, key, |bs|)][j].0 == key
    ensures key in m
    ensures ChainsHold(bs[Slot(hash, key, |bs|) := bs[Slot(hash, key, |bs|)][j := (key, value)]], m[key := value], hash)
  {
    var s := Slot(hash, key, |bs|);
    var chain := bs[s][j := (key, value)];
    var bs' := bs[s := chain];
    var m' := m[key := value];
    assert ChainOk(bs[s], s, |bs|, m, hash);
    forall i | 0 <= i < |bs'|
      ensures ChainOk(bs'[i], i, |bs'|, m', hash)
    {
      if i != s {
        assert ChainOk(bs[i], i, |bs|, m, hash);
        forall t | 0 <= t < |bs'[i]|
          ensures bs'[i][t].0 != key
        {
          assert Slot(hash, bs[i][t].0, |bs|) == i;
        }
      }
    }
    forall k | k in m'
      ensures KeyIn(bs'[Slot(hash, k, |bs'|)], k)
    {
      if k == key {
        assert bs'[s][j].0 == key;
      } else {
        assert KeyIn(bs[Slot(hash, k, |bs|)], k);
        var t :| 0 <= t < |bs[Slot(hash, k, |bs|)]| && bs[Slot(hash, k, |bs|)][t].0 == k;
        assert bs'[Slot(hash, k, |bs|)][t].0 == k;
      }
    }
  }

  /** Appending a node for a key the map does not hold. */
  lemma AppendHolds<K, V>(bs: seq<seq<(K, V)>>, m: map<K, V>, hash: K -> nat, key: K, value: V)
    requires ChainsHold(bs, m, hash) && key !in m
    ensures ChainsHold(bs[Slot(hash, key, |bs|) := bs[Slot(hash, key, |bs|)] + [(key, value)]], m[key := value], hash)
  {
    var s := Slot(hash, key, |bs|);
    var chain := bs[s] + [(key, value)];
    var bs' := bs[s := chain];
    var m' := m[key := value];
    forall i | 0 <= i < |bs'|
      ensures ChainOk(bs'[i], i, |bs'|, m', hash)
    {
      assert ChainOk(bs[i], i, |bs|, m, hash);
      if i == s {
        forall t | 0 <= t < |bs[s]|
          ensures bs[s][t].0 != key
        {
        }
      } else {
        forall t | 0 <= t < |bs'[i]|
          ensures bs'[i][t].0 != key
        {
        }
      }
    }
    forall k | k in m'
      ensures KeyIn(bs'[Slot(hash, k, |bs'|)], k)
    {
      if k == key {
        assert bs'[s][|bs[s]|].0 == key;
      } else {
        assert KeyIn(bs[Slot(hash, k, |bs|)], k);
        var t :| 0 <= t < |bs[Slot(hash, k, |bs|)]| && bs[Slot(hash, k, |bs|)][t].0 == k;
        assert bs'[Slot(hash, k, |bs|)][t].0 == k;
      }
    }
  }

  /** entries lists every pair of m exactly once: each entry is a pair of m,
      no key is listed twice, and every key of m is listed. */
  ghost predicate IsEnumeration<K, V>(entries: seq<(K, V)>, m: map<K, V>) {
    && (forall i :: 0 <= i < |entries| ==> entries[i].0 in m && m[entries[i].0] == entries[i].1)
    && DistinctKeys(entries)
    && (forall k {:trigger KeyIn(entries, k)} :: k in m ==> KeyIn(entries, k))
  }

  /** The map a sequence of insert calls leaves, starting from m. */
  function InsertAll<K, V>(m: map<K, V>, entries: seq<(K, V)>): map<K, V> {
    if entries == [] then m
    else InsertAll(m, entries[..|entries| - 1])[entries[|entries| - 1].0 := entries[|entries| - 1].1]
  }

  /** The map a sequence of insert calls builds from an empty table. */
  function MapOf<K, V>(entries: seq<(K, V)>): map<K, V> {
    InsertAll(map[], entries)
  }

  lemma {:induction false} InsertAllAppend<K, V>(m: map<K, V>, a: seq<(K, V)>, b: seq<(K, V)>)
    ensures InsertAll(m, a + b) == InsertAll(InsertAll(m, a), b)
    decreases |b|
  {
    if b == [] {
      assert a + b == a;
    } else {
      var n := |b| - 1;
      assert (a + b)[..|a + b| - 1] == a + b[..n];
      InsertAllAppend(m, a, b[..n]);
    }
  }

  /** Inserting the pairs of an enumeration of m, in its order, rebuilds m;
      the enumeration has exactly one entry per key. */
  lemma {:induction false} EnumerationRebuilds<K, V>(entries: seq<(K, V)>, m: map<K, V>)
    requires IsEnumeration(entries, m)
    ensures MapOf(entries) == m
    ensures |entries| == |m|
  {
    if entries == [] {
      forall k
        ensures k in m ==> KeyIn(entries, k)
      {
      }
      forall k
        ensures !KeyIn(entries, k)
      {
      }
      assert forall k :: k !in m;
      assert m == map[];
    } else {
      var n := |entries| - 1;
      var (key, value) := entries[n];
      var init := entries[..n];
      var rest := m - {key};
      forall k | k in rest
        ensures KeyIn(init, k)
      {
        assert KeyIn(entries, k);
        var t :| 0 <= t < |entries| && entries[t].0 == k;
        assert t != n;
        assert init[t].0 == k;
      }
      forall i | 0 <= i < |init|
        ensures init[i].0 in rest && rest[init[i].0] == init[i].1
      {
        assert init[i] == entries[i];
      }
      assert IsEnumeration(init, rest);
      EnumerationRebuilds(init, rest);
      assert m == rest[key := value];
    }
  }

  /** The keys an insert sequence leaves in the map are the keys it inserts. */
  lemma {:induction false} MapOfKeys<K, V>(entries: seq<(K, V)>, k: K)
    ensures k in MapOf(entries) <==> KeyIn(entries, k)
  {
    if entries != [] {
      var n := |entries| - 1;
      MapOfKeys(entries[..n], k);
      KeyInSnoc(entries, n, k);
      assert entries[..n + 1] == entries;
    }
  }

  lemma KeyInAppend<K, V>(a: seq<(K, V)>, b: seq<(K, V)>, key: K)
    ensures KeyIn(a + b, key) <==> KeyIn(a, key) || KeyIn(b, key)
  {
    if KeyIn(a + b, key) {
      var t :| 0 <= t < |a + b| && (a + b)[t].0 == key;
      if t >= |a| {
        assert b[t - |a|].0 == key;
      }
    }
    if KeyIn(a, key) {
      var t :| 0 <= t < |a| && a[t].0 == key;
      assert (a + b)[t].0 == key;
    }
    if KeyIn(b, key) {
      var t :| 0 <= t < |b| && b[t].0 == key;
      assert (a + b)[|a| + t].0 == key;
    }
  }

  lemma DistinctAppend<K, V>(a: seq<(K, V)>, b: seq<(K, V)>)
    requires DistinctKeys(a) && DistinctKeys(b)
    requires forall t, u :: 0 <= t < |a| && 0 <= u < |b| ==> a[t].0 != b[u].0
    ensures DistinctKeys(a + b)
  {
    var f := a + b;
    forall t, u | 0 <= t < u < |f|
      ensures f[t].0 != f[u].0
    {
      if t >= |a| {
        assert f[t] == b[t - |a|] && f[u] == b[u - |a|];
      } else if u >= |a| {
        assert f[u] == b[u - |a|];
      }
    }
  }

  /** The nodes of the buckets, bucket by bucket: the order traverse visits. */
  function Flatten<K, V>(bs: seq<seq<(K, V)>>): (r: seq<(K, V)>)
  {
    if bs == [] then [] else Flatten(bs[..|bs| - 1]) + bs[|bs| - 1]
  }

  lemma FlattenSnoc<K, V>(bs: seq<seq<(K, V)>>, i: nat)
    requires i < |bs|
    ensures Flatten(bs[..i + 1]) == Flatten(bs[..i]) + bs[i]
  {
    assert bs[..i + 1][..i] == bs[..i];
  }

  /** Flattening the first i buckets lists exactly the pairs of m whose slot
      is below i, each once. */
  ghost predicate ListsSlotsBelow<K, V>(entries: seq<(K, V)>, m: map<K, V>, hash: K -> nat, n: nat, i: nat)
    requires n > 0
  {
    && (forall t :: 0 <= t < |entries| ==>
          entries[t].0 in m && m[entries[t].0] == entries[t].1 && Slot(hash, entries[t].0, n) < i)
    && DistinctKeys(entries)
    && (forall k {:trigger KeyIn(entries, k)} :: k in m && Slot(hash, k, n) < i ==> KeyIn(entries, k))
  }

  lemma {:induction false} FlattenPrefix<K, V>(bs: seq<seq<(K, V)>>, m: map<K, V>, hash: K -> nat, i: nat)
    requires ChainsHold(bs, m, hash) && i <= |bs|
    ensures ListsSlotsBelow(Flatten(bs[..i]), m, hash, |bs|, i)
  {
    if i > 0 {
      var n := |bs|;
      FlattenPrefix(bs, m, hash, i - 1);
      FlattenSnoc(bs, i - 1);
      var a := Flatten(bs[..i - 1]);
      var b := bs[i - 1];
      assert ChainOk(b, i - 1, n, m, hash);
      var f := a + b;
      forall t | 0 <= t < |f|
        ensures f[t].0 in m && m[f[t].0] == f[t].1 && Slot(hash, f[t].0, n) < i
      {
        if t >= |a| {
          assert f[t] == b[t - |a|];
        }
      }
      forall t, u | 0 <= t < |a| && 0 <= u < |b|
        ensures a[t].0 != b[u].0
      {
        assert Slot(hash, a[t].0, n) < i - 1;
      }
      DistinctAppend(a, b);
      forall k | k in m && Slot(hash, k, n) < i
        ensures KeyIn(f, k)
      {
        KeyInAppend(a, b, k);
        if Slot(hash, k, n) == i - 1 {
          assert KeyIn(bs[Slot(hash, k, n)], k);
        } else {
          assert KeyIn(a, k);
        }
      }
    }
  }

  /** The flattened buckets enumerate the map they hold. */
  lemma FlattenEnumerates<K, V>(bs: seq<seq<(K, V)>>, m: map<K, V>, hash: K -> nat)
    requires ChainsHold(bs, m, hash)
    ensures IsEnumeration(Flatten(bs), m)
    ensures |Flatten(bs)| == |m|
  {
    FlattenPrefix(bs, m, hash, |bs|);
    assert bs[..|bs|] == bs;
    EnumerationRebuilds(Flatten(bs), m);
  }

  /** The first i buckets, and j nodes of the next, are no more nodes than
      all the buckets. */
  lemma {:induction false} FlattenPrefixLength<K, V>(bs: seq<seq<(K, V)>>, i: nat)
    requires i <= |bs|
    ensures |Flatten(bs[..i])| <= |Flatten(bs)|
    decreases |bs| - i
  {
    if i == |bs| {
      assert bs[..i] == bs;
    } else {
      FlattenSnoc(bs, i);
      FlattenPrefixLength(bs, i + 1);
    }
  }

  /** A sequence of inserts stores at most one key per insert. */
  lemma {:induction false} MapOfSize<K, V>(entries: seq<(K, V)>)
    ensures |MapOf(entries)| <= |entries|
  {
    if entries != [] {
      MapOfSize(entries[..|entries| - 1]);
    }
  }

  /** HashMap<K, V>: buckets of chains of (key, value) nodes. Contents is the
      map the table stands for; Repr is the table object and its bucket array. */
  class HashMap<K(==), V> {
    const hash: K -> nat
    var buckets: array<seq<(K, V)>>
    var tableSize: nat
    var elementCount: nat
    ghost var Contents: map<K, V>
    ghost var Repr: set<object>

    /** The representation invariant. elementCount counts the stored keys,
        and the table never holds more than 0.75 * tableSize + 1 of them: the
        load check before an insert only makes room for the next one. */
    ghost predicate Valid()
      reads this, Repr
      ensures Valid() ==> this in Repr
    {
      && this in Repr && buckets in Repr
      && tableSize > 0 && buckets.Length == tableSize
      && ChainsHold(buckets[..], Contents, hash)
      && elementCount == |Contents|
      && 4 * elementCount <= 3 * tableSize + 4
    }

    /** HashMap(initialSize): initialSize empty buckets (1009 by default in
        the source); a size of 0 would make hashFunction divide by zero. */
    constructor (initialSize: nat, hash: K -> nat)
      requires initialSize > 0
      ensures Valid() && fresh(Repr)
      ensures Contents == map[] && tableSize == initialSize && this.hash == hash
    {
      this.hash := hash;
      tableSize := initialSize;
      elementCount := 0;
      buckets := new seq<(K, V)>[initialSize](_ => []);
      Contents := map[];
      Repr := {this, buckets};
      new;
      EmptyChainsHold(buckets[..], hash);
    }

    /** size() */
    function Size(): (r: nat)
      requires Valid()
      reads Repr
      ensures r == |Contents|
    {
      elementCount
    }

    /** The bucket search and the write of insert, after its load check
        (lines 67-79): an existing node gets the new value in place,
        otherwise a node is appended to the key's bucket. The write through
        the address get returns is this call on a stored key. */
    method Put(key: K, value: V)
      requires Valid()
      requires key in Contents || 4 * elementCount <= 3 * tableSize
      modifies Repr
      ensures Valid() && Repr == old(Repr) && buckets == old(buckets)
      ensures Contents == old(Contents)[key := value]
      ensures elementCount == old(elementCount) + (if key in old(Contents) then 0 else 1)
      ensures tableSize == old(tableSize)
    {
      var index := Slot(hash, key, tableSize);
      var chain := buckets[index];
      var j := 0;
      while j < |chain|
        invariant j <= |chain|
        invariant forall t :: 0 <= t < j ==> chain[t].0 != key
      {
        if chain[j].0 == key {
          OverwriteHolds(buckets[..], Contents, hash, key, value, j);
          buckets[index] := chain[j := (key, value)];
          Contents := Contents[key := value];
          return;
        }
        j := j + 1;
      }
      AbsentFromChain(buckets[..], Contents, hash, key);
      AppendHolds(buckets[..], Contents, hash, key, value);
      buckets[index] := chain + [(key, value)];
      elementCount := elementCount + 1;
      Contents := Contents[key := value];
    }

    /** insert: an upsert, preceded by a rehash when the load factor is above
        0.75 (the float comparison is taken as the exact one). */
    method Insert(key: K, value: V)
      requires Valid()
      modifies Repr
      ensures Valid() && fresh(Repr - old(Repr))
      ensures Contents == old(Contents)[key := value]
      ensures elementCount == old(elementCount) + (if key in old(Contents) then 0 else 1)
      ensures tableSize == if 4 * old(elementCount) > 3 * old(tableSize) then 2 * old(tableSize) else old(tableSize)
    {
      if 4 * elementCount > 3 * tableSize {
        Rehash();
      }
      Put(key, value);
    }

    /** rehash: doubles the bucket count and re-inserts every node, bucket
        by bucket; the abstract map and the count are unchanged. */
    method Rehash()
      requires Valid()
      modifies Repr
      ensures Valid() && fresh(Repr - old(Repr))
      ensures Contents == old(Contents) && elementCount == old(elementCount)
      ensures tableSize == 2 * old(tableSize)
    {
      var oldSize := tableSize;
      var oldChains := buckets[..];  // std::move(buckets)
      ghost var oldContents := Contents;
      FlattenEnumerates(oldChains, oldContents, hash);
      tableSize := 2 * tableSize;
      buckets := new seq<(K, V)>[tableSize](_ => []);
      elementCount := 0;
      Contents := map[];
      Repr := {this, buckets};
      EmptyChainsHold(buckets[..], hash);
      for i := 0 to oldSize
        invariant Valid() && Repr == {this, buckets} && fresh(buckets)
        invariant tableSize == 2 * oldSize
        invariant Contents == MapOf(Flatten(oldChains[..i]))
      {
        var chain := oldChains[i];
        ghost var done := Flatten(oldChains[..i]);
        FlattenSnoc(oldChains, i);
        FlattenPrefixLength(oldChains, i + 1);
        MapOfSize(done);
        PutAll(chain);
        InsertAllAppend(map[], done, chain);
      }
      assert oldChains[..oldSize] == oldChains;
      EnumerationRebuilds(Flatten(oldChains), oldContents);
    }

    /** The inner loop of rehash: insert of every node of one old bucket.
        The load check of those inserts never fires, since the table they go
        into has twice the buckets the old one had. */
    method PutAll(nodes: seq<(K, V)>)
      requires Valid()
      requires 4 * (elementCount + |nodes|) <= 3 * tableSize + 4
      modifies Repr
      ensures Valid() && Repr == old(Repr) && buckets == old(buckets)
      ensures Contents == InsertAll(old(Contents), nodes)
      ensures tableSize == old(tableSize)
    {
      for j := 0 to |nodes|
        invariant Valid() && Repr == old(Repr) && buckets == old(buckets)
        invariant tableSize == old(tableSize)
        invariant elementCount <= old(elementCount) + j
        invariant Contents == InsertAll(old(Contents), nodes[..j])
      {
        var (key, value) := nodes[j];
        assert nodes[..j + 1][..j] == nodes[..j];
        Put(key, value);
      }
      assert nodes[..|nodes|] == nodes;
    }

    /** get: the stored value of key, None for nullptr. */
    method Get(key: K) returns (r: Option<V>)
      requires Valid()
      ensures r == if key in Contents then Some(Contents[key]) else None
    {
      var chain := buckets[Slot(hash, key, tableSize)];
      var j := 0;
      while j < |chain|
        invariant j <= |chain|
        invariant forall t :: 0 <= t < j ==> chain[t].0 != key
      {
        if chain[j].0 == key {
          return Some(chain[j].1);
        }
        j := j + 1;
      }
      AbsentFromChain(buckets[..], Contents, hash, key);
      return None;
    }

    /** contains */
    method Contains(key: K) returns (found: bool)
      requires Valid()
      ensures found <==> key in Contents
    {
      var chain := buckets[Slot(hash, key, tableSize)];
      var j := 0;
      while j < |chain|
        invariant j <= |chain|
        invariant forall t :: 0 <= t < j ==> chain[t].0 != key
      {
        if chain[j].0 == key {
          return true;
        }
        j := j + 1;
      }
      AbsentFromChain(buckets[..], Contents, hash, key);
      return false;
    }

    /** traverse: the (key, value) pairs in the order the callback receives
        them, bucket by bucket; every stored pair comes exactly once. */
    method Traverse() returns (entries: seq<(K, V)>)
      requires Valid()
      ensures entries == Flatten(buckets[..])
      ensures IsEnumeration(entries, Contents) && |entries| == |Contents|
    {
      entries := [];
      for i := 0 to buckets.Length
        invariant entries == Flatten(buckets[..i])
      {
        var chain := buckets[i];
        for j := 0 to |chain|
          invariant entries == Flatten(buckets[..i]) + chain[..j]
        {
          assert chain[..j + 1] == chain[..j] + [chain[j]];
          entries := entries + [chain[j]];
        }
        assert chain[..|chain|] == chain;
        FlattenSnoc(buckets[..], i);
        assert buckets[..][..i + 1] == buckets[..i + 1];
      }
      assert buckets[..buckets.Length] == buckets[..];
      FlattenEnumerates(buckets[..], Contents, hash);
    }

    /** clear: empties every bucket; the bucket count stays. */
    method Clear()
      requires Valid()
      modifies Repr
      ensures Valid() && Repr == old(Repr)
      ensures Contents == map[] && elementCount == 0 && tableSize == old(tableSize)
    {
      var bs := buckets;
      for i := 0 to bs.Length
        invariant unchanged(this)
        invariant forall t :: 0 <= t < i ==> bs[t] == []
      {
        bs[i] := [];
      }
      elementCount := 0;
      Contents := map[];
      EmptyChainsHold(buckets[..], hash);
    }
  }

}
