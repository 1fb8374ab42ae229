/**
 The self-expanding hash table (lib/hash.cc), proved to be a finite map from keys to items.

 A bucket is the sequence of its list's items; module Lists proves that the list acts on that sequence.
 */
module HashTables {
  import opened Options
  import Lists

  const INITIAL_BUCKETS := 4
  const RESIZE_RATIO := 3
  const INCREASE_SIZE_BY := 4

  // ---------- what a bucket array stands for ----------

  /** How many items all buckets hold. */
  function Total<T>(bs: seq<seq<T>>): nat
  {
    if bs == [] then 0 else |bs[0]| + Total(bs[1..])
  }

  lemma {:induction false} TotalUpdate<T>(bs: seq<seq<T>>, i: nat, b: seq<T>)
    requires i < |bs|
    ensures Total(bs[i := b]) == Total(bs) - |bs[i]| + |b|
  {
    if i > 0 {
      assert bs[i := b][1..] == bs[1..][i - 1 := b];
      TotalUpdate(bs[1..], i - 1, b);
    } else {
      assert bs[i := b][1..] == bs[1..];
    }
  }

  lemma {:induction false} TotalEmpty<T>(bs: seq<seq<T>>)
    requires forall i :: 0 <= i < |bs| ==> bs[i] == []
    ensures Total(bs) == 0
  {
    if bs != [] {
      TotalEmpty(bs[1..]);
    }
  }

  /** The item x stands in its own bucket and is the map's item for its key. */
  ghost predicate ItemOk<K, T>(x: T, i: nat, n: nat, m: map<K, T>, key: T -> K, hash: K -> nat)
  {
    n > 0 && hash(key(x)) % n == i && key(x) in m && m[key(x)] == x
  }

  /** The item of key k stands in the bucket that k hashes to. */
  ghost predicate KeyOk<K, T>(k: K, bs: seq<seq<T>>, m: map<K, T>, key: T -> K, hash: K -> nat)
  {
    |bs| > 0 && k in m && m[k] in bs[hash(k) % |bs|] && key(m[k]) == k
  }

  ghost predicate ItemsOk<K, T>(bs: seq<seq<T>>, m: map<K, T>, key: T -> K, hash: K -> nat)
  {
    forall i, j :: 0 <= i < |bs| && 0 <= j < |bs[i]| ==> ItemOk(bs[i][j], i, |bs|, m, key, hash)
  }

  ghost predicate KeysOk<K, T>(bs: seq<seq<T>>, m: map<K, T>, key: T -> K, hash: K -> nat)
  {
    forall k <- m :: KeyOk(k, bs, m, key, hash)
  }

  ghost predicate AllDistinct<T>(bs: seq<seq<T>>)
  {
    forall i :: 0 <= i < |bs| ==> Lists.Distinct(bs[i])
  }

  /** The buckets hold the items of m, each exactly once and where its key hashes to. */
  ghost predicate Represents<K, T>(bs: seq<seq<T>>, m: map<K, T>, key: T -> K, hash: K -> nat)
  {
    |bs| > 0 && ItemsOk(bs, m, key, hash) && KeysOk(bs, m, key, hash) && AllDistinct(bs) && Total(bs) == |m|
  }

  // ---------- one item more, one item less ----------

  function Slot<K>(k: K, n: nat, hash: K -> nat): (r: nat)
    requires n > 0
    ensures r < n
  {
    hash(k) % n
  }

  function Added<K, T>(bs: seq<seq<T>>, x: T, key: T -> K, hash: K -> nat): seq<seq<T>>
    requires |bs| > 0
  {
    var i := Slot(key(x), |bs|, hash);
    bs[i := bs[i] + [x]]
  }

  lemma AddedKeepsItems<K, T>(bs: seq<seq<T>>, m: map<K, T>, x: T, key: T -> K, hash: K -> nat)
    requires |bs| > 0 && ItemsOk(bs, m, key, hash) && key(x) !in m
    ensures ItemsOk(Added(bs, x, key, hash), m[key(x) := x], key, hash)
  {
    var r := Added(bs, x, key, hash);
    forall i, j | 0 <= i < |r| && 0 <= j < |r[i]|
      ensures ItemOk(r[i][j], i, |r|, m[key(x) := x], key, hash)
    {
      if j < |bs[i]| { assert ItemOk(bs[i][j], i, |bs|, m, key, hash); }
    }
  }

  lemma AddedKeepsKeys<K, T>(bs: seq<seq<T>>, m: map<K, T>, x: T, key: T -> K, hash: K -> nat)
    requires |bs| > 0 && KeysOk(bs, m, key, hash) && key(x) !in m
    ensures KeysOk(Added(bs, x, key, hash), m[key(x) := x], key, hash)
  {
    var r := Added(bs, x, key, hash);
    var m' := m[key(x) := x];
    forall k <- m'
      ensures KeyOk(k, r, m', key, hash)
    {
      if k != key(x) {
        assert KeyOk(k, bs, m, key, hash);
        assert bs[hash(k) % |bs|] <= r[hash(k) % |bs|];
      }
    }
  }

  lemma AddedKeepsDistinct<K, T>(bs: seq<seq<T>>, m: map<K, T>, x: T, key: T -> K, hash: K -> nat)
    requires |bs| > 0 && ItemsOk(bs, m, key, hash) && AllDistinct(bs) && key(x) !in m
    ensures AllDistinct(Added(bs, x, key, hash)) && x !in bs[Slot(key(x), |bs|, hash)]
  {
    var s := Slot(key(x), |bs|, hash);
    assert x !in bs[s] by {
      forall j | 0 <= j < |bs[s]|
        ensures bs[s][j] != x
      {
        assert ItemOk(bs[s][j], s, |bs|, m, key, hash);
      }
    }
    assert Lists.Distinct(bs[s]);
  }

  /** Appending an item with a new key adds exactly that key. */
  lemma AddedRepresents<K, T>(bs: seq<seq<T>>, m: map<K, T>, x: T, key: T -> K, hash: K -> nat)
    requires Represents(bs, m, key, hash) && key(x) !in m
    ensures Represents(Added(bs, x, key, hash), m[key(x) := x], key, hash)
    ensures x !in bs[Slot(key(x), |bs|, hash)]
  {
    hide ItemsOk, KeysOk, AllDistinct;
    var s := Slot(key(x), |bs|, hash);
    AddedKeepsItems(bs, m, x, key, hash);
    AddedKeepsKeys(bs, m, x, key, hash);
    AddedKeepsDistinct(bs, m, x, key, hash);
    TotalUpdate(bs, s, bs[s] + [x]);
  }

  function Dropped<T>(bs: seq<seq<T>>, i: nat, j: nat): seq<seq<T>>
    requires i < |bs| && j < |bs[i]|
  {
    bs[i := Lists.Without(bs[i], j)]
  }

  lemma WithoutKeeps<T>(s: seq<T>, j: nat, y: T)
    requires j < |s| && Lists.Distinct(s)
    ensures y in Lists.Without(s, j) <==> y in s && y != s[j]
    ensures Lists.Distinct(Lists.Without(s, j))
  {
    var r := Lists.Without(s, j);
    if y in s && y != s[j] {
      var k :| 0 <= k < |s| && s[k] == y;
      assert r[if k < j then k else k - 1] == y;
    }
    forall a, b | 0 <= a < b < |r|
      ensures r[a] != r[b]
    {
      var a', b' := if a < j then a else a + 1, if b < j then b else b + 1;
      assert r[a] == s[a'] && r[b] == s[b'];
    }
  }

  lemma DroppedKeepsItems<K, T>(bs: seq<seq<T>>, m: map<K, T>, i: nat, j: nat, key: T -> K, hash: K -> nat)
    requires i < |bs| && j < |bs[i]| && ItemsOk(bs, m, key, hash) && AllDistinct(bs)
    ensures ItemsOk(Dropped(bs, i, j), m - {key(bs[i][j])}, key, hash)
  {
    var r := Dropped(bs, i, j);
    var x := bs[i][j];
    assert ItemOk(x, i, |bs|, m, key, hash);
    forall p, q | 0 <= p < |r| && 0 <= q < |r[p]|
      ensures ItemOk(r[p][q], p, |r|, m - {key(x)}, key, hash)
    {
      var q' := if p != i || q < j then q else q + 1;
      assert r[p][q] == bs[p][q'];
      assert ItemOk(bs[p][q'], p, |bs|, m, key, hash);
      if p == i { assert Lists.Distinct(bs[i]); }
    }
  }

  lemma DroppedKeepsKeys<K, T>(bs: seq<seq<T>>, m: map<K, T>, i: nat, j: nat, key: T -> K, hash: K -> nat)
    requires i < |bs| && j < |bs[i]| && ItemsOk(bs, m, key, hash) && KeysOk(bs, m, key, hash) && AllDistinct(bs)
    ensures KeysOk(Dropped(bs, i, j), m - {key(bs[i][j])}, key, hash)
  {
    var r := Dropped(bs, i, j);
    var x := bs[i][j];
    var m' := m - {key(x)};
    hide ItemsOk, KeysOk;
    forall k <- m'
      ensures KeyOk(k, r, m', key, hash)
    {
      assert KeyOk(k, bs, m, key, hash) by { KeyAt(bs, m, k, key, hash); }
      var s := hash(k) % |bs|;
      if s == i {
        assert Lists.Distinct(bs[i]);
        WithoutKeeps(bs[i], j, m[k]);
      }
    }
  }

  lemma KeyAt<K, T>(bs: seq<seq<T>>, m: map<K, T>, k: K, key: T -> K, hash: K -> nat)
    requires KeysOk(bs, m, key, hash) && k in m
    ensures KeyOk(k, bs, m, key, hash)
  {
  }

  lemma ItemAt<K, T>(bs: seq<seq<T>>, m: map<K, T>, i: nat, j: nat, key: T -> K, hash: K -> nat)
    requires ItemsOk(bs, m, key, hash) && i < |bs| && j < |bs[i]|
    ensures ItemOk(bs[i][j], i, |bs|, m, key, hash)
  {
  }

  lemma DroppedKeepsDistinct<T>(bs: seq<seq<T>>, i: nat, j: nat)
    requires i < |bs| && j < |bs[i]| && AllDistinct(bs)
    ensures AllDistinct(Dropped(bs, i, j))
  {
    WithoutKeeps(bs[i], j, bs[i][j]);
  }

  /** Taking an item out removes exactly its key. */
  lemma DroppedRepresents<K, T>(bs: seq<seq<T>>, m: map<K, T>, i: nat, j: nat, key: T -> K, hash: K -> nat)
    requires i < |bs| && j < |bs[i]| && Represents(bs, m, key, hash)
    ensures key(bs[i][j]) in m && m[key(bs[i][j])] == bs[i][j]
    ensures Represents(Dropped(bs, i, j), m - {key(bs[i][j])}, key, hash)
  {
    hide ItemsOk, KeysOk, AllDistinct;
    ItemAt(bs, m, i, j, key, hash);
    DroppedKeepsItems(bs, m, i, j, key, hash);
    DroppedKeepsKeys(bs, m, i, j, key, hash);
    DroppedKeepsDistinct(bs, i, j);
    TotalUpdate(bs, i, Lists.Without(bs[i], j));
    MinusOne(m, key(bs[i][j]));
  }

  lemma MinusOne<K, T>(m: map<K, T>, k: K)
    requires k in m
    ensures |m - {k}| == |m| - 1
  {
    assert (m - {k}).Keys == m.Keys - {k};
  }

  /** In a table, removing an item from its list takes out the element that holds it. */
  lemma OnlyThere<K, T>(bs: seq<seq<T>>, m: map<K, T>, i: nat, j: nat, key: T -> K, hash: K -> nat)
    requires i < |bs| && j < |bs[i]| && Represents(bs, m, key, hash)
    ensures Lists.Removed(bs[i], bs[i][j]) == Lists.Without(bs[i], j)
  {
    assert Lists.Distinct(bs[i]);
    Lists.RemovedAt(bs[i], bs[i][j], j);
  }

  lemma RepresentsNotEmpty<K, T>(bs: seq<seq<T>>, m: map<K, T>, key: T -> K, hash: K -> nat)
    requires Represents(bs, m, key, hash)
    ensures |bs| > 0
  {
  }

  lemma EmptyRepresents<K, T>(bs: seq<seq<T>>, key: T -> K, hash: K -> nat)
    requires |bs| > 0 && forall i :: 0 <= i < |bs| ==> bs[i] == []
    ensures Represents(bs, map[], key, hash)
  {
    TotalEmpty(bs);
  }

  /** Two maps that the same buckets stand for are equal. */
  lemma RepresentsOneMap<K, T>(bs: seq<seq<T>>, m: map<K, T>, m': map<K, T>, key: T -> K, hash: K -> nat)
    requires Represents(bs, m, key, hash) && Represents(bs, m', key, hash)
    ensures m == m'
  {
    forall k | k in m
      ensures k in m' && m'[k] == m[k]
    {
      OneMapHas(bs, m, m', k, key, hash);
    }
    forall k | k in m'
      ensures k in m
    {
      OneMapHas(bs, m', m, k, key, hash);
    }
  }

  lemma OneMapHas<K, T>(bs: seq<seq<T>>, m: map<K, T>, m': map<K, T>, k: K, key: T -> K, hash: K -> nat)
    requires Represents(bs, m, key, hash) && Represents(bs, m', key, hash) && k in m
    ensures k in m' && m'[k] == m[k]
  {
    hide ItemsOk, KeysOk, AllDistinct;
    KeyAt(bs, m, k, key, hash);
    var s := hash(k) % |bs|;
    var j :| 0 <= j < |bs[s]| && bs[s][j] == m[k];
    ItemAt(bs, m', s, j, key, hash);
  }

  // ---------- all items in bucket order ----------

  function Flatten<T>(bs: seq<seq<T>>): seq<T>
  {
    if bs == [] then [] else bs[0] + Flatten(bs[1..])
  }

  /** The load test, free of the division. */
  lemma LoadTest(items: nat, size: nat)
    requires size > 0
    ensures items / size >= RESIZE_RATIO <==> items >= RESIZE_RATIO * size
  {
    var q, r := items / size, items % size;
    assert items == q * size + r;
    if q >= 3 {
      assert q * size >= 3 * size;
    } else {
      assert q * size <= 2 * size;
    }
  }

  class HashTable<K(==), T(==)> {
    var buckets: array<seq<T>>
    var numBuckets: nat
    var numItems: nat
    const getKey: T -> K
    const hash: K -> nat
    ghost var contents: map<K, T>

    ghost predicate Valid()
      reads this, buckets
    {
      && numBuckets == buckets.Length
      && numItems == |contents|
      && numItems <= RESIZE_RATIO * numBuckets
      && Represents(buckets[..], contents, getKey, hash)
    }

    constructor (get: T -> K, hFunc: K -> nat)
      ensures Valid() && contents == map[] && fresh(buckets)
      ensures getKey == get && hash == hFunc && numBuckets == 4
    {
      getKey, hash := get, hFunc;
      numItems := 0;
      numBuckets := INITIAL_BUCKETS;
      buckets := new seq<T>[INITIAL_BUCKETS](_ => []);
      contents := map[];
      new;
      EmptyRepresents(buckets[..], getKey, hash);
    }

    method InitBuckets(sz: nat)
      requires sz > 0
      modifies this`buckets, this`numBuckets
      ensures fresh(buckets) && buckets.Length == numBuckets == sz
      ensures Represents(buckets[..], map[], getKey, hash)
    {
      numBuckets := sz;
      buckets := new seq<T>[sz](_ => []);
      EmptyRepresents(buckets[..], getKey, hash);
    }

    function HashValue(key: K): (r: nat)
      reads this
      requires numBuckets > 0
      ensures r < numBuckets
    {
      hash(key) % numBuckets
    }

    /** Adds exactly one key; the key must not be in the table. */
    method Insert(item: T)
      requires Valid() && getKey(item) !in contents
      modifies this, buckets
      ensures Valid() && (buckets == old(buckets) || fresh(buckets))
      ensures contents == old(contents)[getKey(item) := item]
      ensures numBuckets == if |old(contents)| >= 3 * old(numBuckets) then 4 * old(numBuckets) else old(numBuckets)
    {
      hide Represents;
      var key := getKey(item);
      NotEmptyTable();
      LoadTest(numItems, numBuckets);
      if numItems / numBuckets >= RESIZE_RATIO {
        ReHash();
      }
      AppendTo(item);
      numItems := numItems + 1;
    }

    lemma NotEmptyTable()
      requires Valid()
      ensures numBuckets > 0
    {
    }

    /** buckets[HashValue(key)]->Append(item) */
    method AppendTo(item: T)
      requires numBuckets == buckets.Length && Represents(buckets[..], contents, getKey, hash)
      requires getKey(item) !in contents
      modifies this`contents, buckets
      ensures Represents(buckets[..], contents, getKey, hash) && contents == old(contents)[getKey(item) := item]
    {
      ghost var was := buckets[..];
      var i := HashValue(getKey(item));
      AddedRepresents(was, contents, item, getKey, hash);
      hide Represents;
      buckets[i] := buckets[i] + [item];
      assert buckets[..] == Added(was, item, getKey, hash);
      contents := contents[getKey(item) := item];
    }

    /** While items move: each key is still in the old table or already in the new one. */
    ghost predicate Split(oldTable: array<seq<T>>, left: map<K, T>, all: map<K, T>)
      reads this, buckets, oldTable
    {
      && Represents(oldTable[..], left, getKey, hash)
      && Represents(buckets[..], contents, getKey, hash)
      && left.Keys !! contents.Keys
      && left + contents == all
    }

    /** Takes the front item of an old bucket to its new bucket. */
    method MoveOne(oldTable: array<seq<T>>, i: nat, ghost left: map<K, T>, ghost all: map<K, T>)
      returns (ghost left': map<K, T>)
      requires Split(oldTable, left, all) && buckets != oldTable && numBuckets == buckets.Length
      requires i < oldTable.Length && oldTable[i] != []
      modifies this`contents, buckets, oldTable
      ensures Split(oldTable, left', all) && oldTable[..] == old(oldTable[..])[i := old(oldTable[i])[1..]]
    {
      hide Represents;
      var item := oldTable[i][0];
      DroppedRepresents(oldTable[..], left, i, 0, getKey, hash);
      left' := left - {getKey(item)};
      assert oldTable[i][1..] == Lists.Without(oldTable[i], 0);
      ghost var dropped := Dropped(oldTable[..], i, 0);
      oldTable[i] := oldTable[i][1..];
      assert oldTable[..] == dropped;
      assert getKey(item) !in contents && left + contents == all;
      AppendTo(item);
      assert left' + contents == all;
    }

    /** Moves one old bucket's items, front first. */
    method DrainBucket(oldTable: array<seq<T>>, i: nat, ghost left: map<K, T>, ghost all: map<K, T>)
      returns (ghost left': map<K, T>)
      requires Split(oldTable, left, all) && buckets != oldTable && numBuckets == buckets.Length && i < oldTable.Length
      modifies this`contents, buckets, oldTable
      ensures Split(oldTable, left', all) && oldTable[..] == old(oldTable[..])[i := []]
    {
      hide Split;
      left' := left;
      while oldTable[i] != []
        invariant Split(oldTable, left', all) && oldTable[..] == old(oldTable[..])[i := oldTable[i]]
        decreases |oldTable[i]|
      {
        left' := MoveOne(oldTable, i, left', all);
      }
    }

    /** Moves every item to a table four times the size; the map stays. */
    method ReHash()
      requires Valid()
      modifies this, buckets
      ensures Valid() && fresh(buckets) && contents == old(contents)
      ensures numBuckets == INCREASE_SIZE_BY * old(numBuckets) && numItems == old(numItems)
    {
      var oldTable := buckets;
      var oldSize := numBuckets;
      ghost var all := contents;
      ghost var left := contents;
      hide Represents, Split;
      NotEmptyTable();
      InitBuckets(numBuckets * INCREASE_SIZE_BY);
      contents := map[];
      StartSplit(oldTable, all);
      for i := 0 to oldSize
        invariant Split(oldTable, left, all)
        invariant fresh(buckets) && buckets.Length == numBuckets == INCREASE_SIZE_BY * oldSize && numItems == old(numItems)
        invariant forall k :: 0 <= k < i ==> oldTable[..][k] == []
      {
        left := DrainBucket(oldTable, i, left, all);
      }
      EndSplit(oldTable, left, all);
    }

    lemma StartSplit(oldTable: array<seq<T>>, all: map<K, T>)
      requires Represents(oldTable[..], all, getKey, hash) && contents == map[]
      requires Represents(buckets[..], map[], getKey, hash)
      ensures Split(oldTable, all, all)
    {
    }

    lemma EndSplit(oldTable: array<seq<T>>, left: map<K, T>, all: map<K, T>)
      requires Split(oldTable, left, all)
      requires forall k :: 0 <= k < oldTable.Length ==> oldTable[..][k] == []
      ensures contents == all && Represents(buckets[..], all, getKey, hash)
    {
      hide Represents;
      assert oldTable.Length > 0 by { RepresentsNotEmpty(oldTable[..], left, getKey, hash); }
      EmptyRepresents(oldTable[..], getKey, hash);
      RepresentsOneMap(oldTable[..], left, map[], getKey, hash);
    }

    method FindInBucket(bucket: nat, key: K) returns (r: Option<T>, ghost at: nat)
      requires bucket < buckets.Length
      ensures r.Some? ==> at < |buckets[bucket]| && buckets[bucket][at] == r.value && getKey(r.value) == key
      ensures r.None? ==> forall x <- buckets[bucket] :: getKey(x) != key
    {
      for i := 0 to |buckets[bucket]|
        invariant forall j :: 0 <= j < i ==> getKey(buckets[bucket][j]) != key
      {
        if key == getKey(buckets[bucket][i]) {
          return Some(buckets[bucket][i]), i;
        }
      }
      return None, 0;
    }

    /** Answers from the map. */
    method Find(key: K) returns (r: Option<T>)
      requires Valid()
      ensures r == if key in contents then Some(contents[key]) else None
    {
      NotEmptyTable();
      var bucket := HashValue(key);
      ghost var at;
      r, at := FindInBucket(bucket, key);
      hide ItemsOk, KeysOk, AllDistinct;
      if r.Some? {
        ItemAt(buckets[..], contents, bucket, at, getKey, hash);
      } else if key in contents {
        KeyAt(buckets[..], contents, key, getKey, hash);
      }
    }

    /** Removes exactly one key, which must be in the table, and returns its item. */
    method Remove(key: K) returns (item: T)
      requires Valid() && key in contents
      modifies this, buckets
      ensures Valid() && buckets == old(buckets) && numBuckets == old(numBuckets)
      ensures contents == old(contents) - {key} && item == old(contents)[key]
    {
      hide Represents;
      NotEmptyTable();
      var bucket := HashValue(key);
      ghost var was := buckets[..];
      var r, at := FindInBucket(bucket, key);
      MustBeFound(key, bucket);
      item := r.value;
      DroppedRepresents(was, contents, bucket, at, getKey, hash);
      OnlyThere(was, contents, bucket, at, getKey, hash);
      buckets[bucket] := Lists.Removed(buckets[bucket], item);
      assert buckets[..] == Dropped(was, bucket, at);
      MinusOne(contents, key);
      contents := contents - {key};
      numItems := numItems - 1;
    }

    /** The assertion in Remove: a key of the map is found in its bucket. */
    lemma MustBeFound(key: K, bucket: nat)
      requires Valid() && key in contents && numBuckets > 0 && bucket == HashValue(key)
      ensures exists x :: x in buckets[bucket] && getKey(x) == key
    {
      KeyAt(buckets[..], contents, key, getKey, hash);
    }
  }

  // ---------- the iterator ----------

  /** Items and places in bucket order: the first k buckets hold Total(bs[..k]) of them. */
  lemma {:induction false} FlattenAt<T>(bs: seq<seq<T>>, i: nat, j: nat) returns (p: nat)
    requires i < |bs| && j < |bs[i]|
    ensures p == Total(bs[..i]) + j < |Flatten(bs)| && Flatten(bs)[p] == bs[i][j]
  {
    if i == 0 {
      assert bs[..0] == [];
      p := j;
    } else {
      assert bs[..i][1..] == bs[1..][..i - 1] && bs[..i][0] == bs[0];
      var q := FlattenAt(bs[1..], i - 1, j);
      p := |bs[0]| + q;
    }
  }

  lemma {:induction false} FlattenFrom<T>(bs: seq<seq<T>>, p: nat) returns (i: nat, j: nat)
    requires p < |Flatten(bs)|
    ensures i < |bs| && j < |bs[i]| && Flatten(bs)[p] == bs[i][j] && p == Total(bs[..i]) + j
  {
    if p < |bs[0]| {
      assert bs[..0] == [];
      i, j := 0, p;
    } else {
      var i', j' := FlattenFrom(bs[1..], p - |bs[0]|);
      i, j := i' + 1, j';
      assert bs[..i][1..] == bs[1..][..i'] && bs[..i][0] == bs[0];
    }
  }

  lemma {:induction false} FlattenLength<T>(bs: seq<seq<T>>)
    ensures |Flatten(bs)| == Total(bs)
  {
    if bs != [] {
      FlattenLength(bs[1..]);
    }
  }

  /** In bucket order, the items of a table are the map's items, each exactly once. */
  lemma FlattenIsContents<K, T(!new)>(bs: seq<seq<T>>, m: map<K, T>, key: T -> K, hash: K -> nat)
    requires Represents(bs, m, key, hash)
    ensures forall x :: x in Flatten(bs) <==> key(x) in m && m[key(x)] == x
    ensures Lists.Distinct(Flatten(bs)) && |Flatten(bs)| == |m|
  {
    FlattenLength(bs);
    forall x: T
      ensures x in Flatten(bs) <==> key(x) in m && m[key(x)] == x
    {
      FlattenHas(bs, m, x, key, hash);
    }
    forall p, q | 0 <= p < q < |Flatten(bs)|
      ensures Flatten(bs)[p] != Flatten(bs)[q]
    {
      FlattenApart(bs, m, p, q, key, hash);
    }
  }

  lemma FlattenHas<K, T>(bs: seq<seq<T>>, m: map<K, T>, x: T, key: T -> K, hash: K -> nat)
    requires Represents(bs, m, key, hash)
    ensures x in Flatten(bs) <==> key(x) in m && m[key(x)] == x
  {
    hide ItemsOk, KeysOk;
    if x in Flatten(bs) {
      var p :| 0 <= p < |Flatten(bs)| && Flatten(bs)[p] == x;
      var i, j := FlattenFrom(bs, p);
      ItemAt(bs, m, i, j, key, hash);
    } else if key(x) in m && m[key(x)] == x {
      KeyAt(bs, m, key(x), key, hash);
      var i := hash(key(x)) % |bs|;
      var j :| 0 <= j < |bs[i]| && bs[i][j] == x;
      var p := FlattenAt(bs, i, j);
    }
  }

  lemma FlattenApart<K, T>(bs: seq<seq<T>>, m: map<K, T>, p: nat, q: nat, key: T -> K, hash: K -> nat)
    requires Represents(bs, m, key, hash) && p < q < |Flatten(bs)|
    ensures Flatten(bs)[p] != Flatten(bs)[q]
  {
    hide ItemsOk, KeysOk;
    var i, j := FlattenFrom(bs, p);
    var i', j' := FlattenFrom(bs, q);
    ItemAt(bs, m, i, j, key, hash);
    ItemAt(bs, m, i', j', key, hash);
    if i == i' {
      assert Lists.Distinct(bs[i]);
    }
  }

  /** The items from place on in a bucket, and those of the later buckets. */
  ghost function RestOf<T>(bs: seq<seq<T>>, bucket: nat, place: nat): seq<T>
    requires bucket < |bs| ==> place <= |bs[bucket]|
  {
    if bucket >= |bs| then [] else bs[bucket][place..] + Flatten(bs[bucket + 1..])
  }

  /** At the start of a bucket. */
  lemma RestFrom<T>(bs: seq<seq<T>>, bucket: nat)
    requires bucket <= |bs|
    ensures RestOf(bs, bucket, 0) == Flatten(bs[bucket..])
  {
    if bucket < |bs| { assert bs[bucket..][1..] == bs[bucket + 1..]; }
  }

  /** Empty buckets hold nothing. */
  lemma {:induction false} RestSkips<T>(bs: seq<seq<T>>, start: nat, bucket: nat)
    requires start <= bucket <= |bs| && forall i :: start <= i < bucket ==> bs[i] == []
    ensures Flatten(bs[start..]) == Flatten(bs[bucket..])
    decreases bucket - start
  {
    if start < bucket {
      assert bs[start..][1..] == bs[start + 1..];
      RestSkips(bs, start + 1, bucket);
    }
  }

  lemma RestInside<T>(bs: seq<seq<T>>, bucket: nat, place: nat)
    requires bucket < |bs| && place < |bs[bucket]|
    ensures RestOf(bs, bucket, place + 1) == RestOf(bs, bucket, place)[1..]
    ensures RestOf(bs, bucket, place) != [] && RestOf(bs, bucket, place)[0] == bs[bucket][place]
  {
  }

  /** From the end of a bucket to the next one that holds something. */
  lemma RestAcross<T>(bs: seq<seq<T>>, bucket: nat, next: nat)
    requires bucket < next <= |bs| && forall i :: bucket < i < next ==> bs[i] == []
    ensures RestOf(bs, bucket, |bs[bucket]|) == RestOf(bs, next, 0)
  {
    RestSkips(bs, bucket + 1, next);
    RestFrom(bs, next);
  }

  class HashIterator<K(==), T(==)> {
    const table: HashTable<K, T>
    var bucket: nat
    var place: nat

    /** Stands on an item, or past the last bucket. */
    ghost predicate Valid()
      reads this, table, table.buckets
    {
      && table.numBuckets == table.buckets.Length
      && bucket <= table.numBuckets
      && (bucket < table.numBuckets ==> place < |table.buckets[bucket]|)
    }

    /** The items not yet stepped over, the present one first. */
    ghost function Rest(): seq<T>
      requires Valid()
      reads this, table, table.buckets
    {
      RestOf(table.buckets[..], bucket, if bucket < table.numBuckets then place else 0)
    }

    constructor (tbl: HashTable<K, T>)
      requires tbl.Valid()
      ensures table == tbl && Valid() && Rest() == Flatten(tbl.buckets[..])
    {
      table := tbl;
      place := 0;
      new;
      hide RestOf, Flatten;
      bucket := FindNextFullBucket(tbl, 0);
      ghost var bs := tbl.buckets[..];
      RestSkips(bs, 0, bucket);
      RestFrom(bs, bucket);
      assert bs[0..] == bs;
    }

    method Next()
      requires Valid() && !IsDone()
      modifies this
      ensures Valid() && Rest() == old(Rest())[1..]
    {
      hide RestOf, Flatten;
      ghost var bs, was := table.buckets[..], bucket;
      RestInside(bs, bucket, place);
      place := place + 1;
      if place == |table.buckets[bucket]| {
        bucket := FindNextFullBucket(table, bucket + 1);
        RestAcross(bs, was, bucket);
        place := 0;
      }
    }

    predicate IsDone()
      requires Valid()
      reads this, table, table.buckets
      ensures IsDone() <==> Rest() == []
    {
      bucket == table.numBuckets
    }

    function Item(): (x: T)
      requires Valid() && !IsDone()
      reads this, table, table.buckets
      ensures Rest() != [] && x == Rest()[0]
    {
      table.buckets[bucket][place]
    }
  }

  method FindNextFullBucket<K, T>(table: HashTable<K, T>, start: nat) returns (bucket: nat)
    requires table.numBuckets == table.buckets.Length && start <= table.numBuckets
    ensures start <= bucket <= table.numBuckets
    ensures forall i :: start <= i < bucket ==> table.buckets[i] == []
    ensures bucket < table.numBuckets ==> table.buckets[bucket] != []
  {
    bucket := start;
    while bucket < table.numBuckets && table.buckets[bucket] == []
      invariant start <= bucket <= table.numBuckets
      invariant forall i :: start <= i < bucket ==> table.buckets[i] == []
    {
      bucket := bucket + 1;
    }
  }

  lemma StepAlong<T>(done: seq<T>, rest: seq<T>)
    requires rest != []
    ensures (done + [rest[0]]) + rest[1..] == done + rest
  {
  }

  /** The loop that the iterator is for: it meets each item of the table exactly once. */
  method Traverse<K, T(!new)>(table: HashTable<K, T>) returns (visited: seq<T>)
    requires table.Valid()
    ensures Lists.Distinct(visited) && |visited| == |table.contents|
    ensures forall x :: x in visited <==> table.getKey(x) in table.contents && table.contents[table.getKey(x)] == x
  {
    hide Represents, Flatten, Lists.Distinct, HashIterator.Rest;
    var it := new HashIterator(table);
    visited := [];
    ghost var all := it.Rest();
    while !it.IsDone()
      invariant it.Valid() && it.table == table && visited + it.Rest() == all
      decreases |it.Rest()|
    {
      StepAlong(visited, it.Rest());
      visited := visited + [it.Item()];
      it.Next();
    }
    assert visited == all;
    FlattenIsContents(table.buckets[..], table.contents, table.getKey, table.hash);
  }
}
