/** lib/hash.cc: a hash table with one list for each bucket, refining a map from keys to items. */
module HashTables {
  import opened Collections

  const INITIAL_BUCKETS: nat := 4
  const RESIZE_RATIO: nat := 3
  const INCREASE_SIZE_BY: nat := 4

  /** FindInBucket, as a function: the first item with this key. */
  function Search<K(==), T>(s: seq<T>, getKey: T -> K, key: K): (r: Option<T>)
    ensures r.Some? ==> r.value in s && getKey(r.value) == key
    ensures r.None? ==> forall x <- s :: getKey(x) != key
  {
    if s == [] then None else if getKey(s[0]) == key then Some(s[0]) else Search(s[1..], getKey, key)
  }

  lemma {:induction false} SearchAppended<K, T>(s: seq<T>, x: T, getKey: T -> K, key: K)
    ensures Search(s + [x], getKey, key) ==
            if Search(s, getKey, key).Some? then Search(s, getKey, key) else if getKey(x) == key then Some(x) else None
  {
    if s != [] {
      assert (s + [x])[1..] == s[1..] + [x];
      SearchAppended(s[1..], x, getKey, key);
    }
  }

  ghost predicate DistinctKeys<K, T>(s: seq<T>, getKey: T -> K) {
    forall i, j :: 0 <= i < j < |s| ==> getKey(s[i]) != getKey(s[j])
  }

  lemma SearchDistinct<K, T>(s: seq<T>, getKey: T -> K, x: T)
    requires DistinctKeys(s, getKey) && x in s
    ensures Search(s, getKey, getKey(x)) == Some(x)
  {
    var i :| 0 <= i < |s| && s[i] == x;
    var r := Search(s, getKey, getKey(x)).value;
    var j :| 0 <= j < |s| && s[j] == r;
    if i < j {
      assert getKey(s[i]) != getKey(s[j]);
    } else if j < i {
      assert getKey(s[j]) != getKey(s[i]);
    }
  }

  lemma DistinctWithout<K, T>(s: seq<T>, i: nat, getKey: T -> K)
    requires DistinctKeys(s, getKey) && i < |s|
    ensures DistinctKeys(s[..i] + s[i + 1..], getKey)
  {
    var r := s[..i] + s[i + 1..];
    assert forall j :: 0 <= j < |r| ==> r[j] == if j < i then s[j] else s[j + 1];
  }

  lemma NotInRest<K, T>(s: seq<T>, getKey: T -> K)
    requires DistinctKeys(s, getKey) && s != []
    ensures Search(s[1..], getKey, getKey(s[0])) == None
  {
    var r := Search(s[1..], getKey, getKey(s[0]));
    assert forall x <- s[1..] :: getKey(x) != getKey(s[0]) by {
      forall x <- s[1..] ensures getKey(x) != getKey(s[0]) {
        var j :| 0 <= j < |s[1..]| && s[1..][j] == x;
        assert s[j + 1] == x;
      }
    }
  }

  /** Without one item, a search for its key fails and every other one is as before. */
  lemma {:induction false} SearchWithout<K, T>(s: seq<T>, i: nat, getKey: T -> K, key: K)
    requires DistinctKeys(s, getKey) && i < |s|
    ensures Search(s[..i] + s[i + 1..], getKey, key) == if key == getKey(s[i]) then None else Search(s, getKey, key)
  {
    var r := s[..i] + s[i + 1..];
    if i == 0 {
      assert r == s[1..];
      NotInRest(s, getKey);
    } else {
      assert getKey(s[0]) != getKey(s[i]);
      assert r[0] == s[0] && r[1..] == s[1..][..i - 1] + s[1..][i..];
      SearchWithout(s[1..], i - 1, getKey, key);
    }
  }

  // ---- the bucket array ----

  function HashValue<K>(hash: K -> nat, key: K, size: nat): (b: nat)
    requires size > 0
    ensures b < size
  {
    hash(key) % size
  }

  /** Find, as a function. */
  function Look<K(==), T>(bs: seq<seq<T>>, getKey: T -> K, hash: K -> nat, key: K): Option<T>
    requires bs != []
  {
    Search(bs[HashValue(hash, key, |bs|)], getKey, key)
  }

  /** Every item sits in the bucket its key hashes to, and no two have the same key. */
  ghost predicate Hashed<K, T>(bs: seq<seq<T>>, getKey: T -> K, hash: K -> nat) {
    && bs != []
    && (forall b :: 0 <= b < |bs| ==> DistinctKeys(bs[b], getKey))
    && (forall b :: 0 <= b < |bs| ==> forall x <- bs[b] :: HashValue(hash, getKey(x), |bs|) == b)
  }

  function Total<T>(bs: seq<seq<T>>): nat {
    if bs == [] then 0 else Total(bs[..|bs| - 1]) + |bs[|bs| - 1]|
  }

  lemma {:induction false} TotalUpdated<T>(bs: seq<seq<T>>, b: nat, s: seq<T>)
    requires b < |bs|
    ensures Total(bs[b := s]) == Total(bs) - |bs[b]| + |s|
  {
    var n := |bs| - 1;
    if b == n {
      assert bs[b := s][..n] == bs[..n];
    } else {
      assert bs[b := s][..n] == bs[..n][b := s];
      TotalUpdated(bs[..n], b, s);
    }
  }

  ghost function Keys<K, T>(bs: seq<seq<T>>, getKey: T -> K): set<K> {
    set b, i | 0 <= b < |bs| && 0 <= i < |bs[b]| :: getKey(bs[b][i])
  }

  lemma KeysFound<K, T>(bs: seq<seq<T>>, getKey: T -> K, hash: K -> nat, key: K)
    requires Hashed(bs, getKey, hash)
    ensures key in Keys(bs, getKey) <==> Look(bs, getKey, hash, key).Some?
  {
    if key in Keys(bs, getKey) {
      var b, i :| 0 <= b < |bs| && 0 <= i < |bs[b]| && getKey(bs[b][i]) == key;
      assert bs[b][i] in bs[b];
    }
    if Look(bs, getKey, hash, key).Some? {
      var b := HashValue(hash, key, |bs|);
      var x := Look(bs, getKey, hash, key).value;
      var i :| 0 <= i < |bs[b]| && bs[b][i] == x;
      assert getKey(bs[b][i]) in Keys(bs, getKey);
    }
  }

  /** The map that the table stands for. */
  ghost function Contents<K, T>(bs: seq<seq<T>>, getKey: T -> K, hash: K -> nat): map<K, T>
    requires Hashed(bs, getKey, hash)
  {
    map key | key in Keys(bs, getKey) :: (KeysFound(bs, getKey, hash, key); Look(bs, getKey, hash, key).value)
  }

  lemma ContentsIs<K(!new), T>(bs: seq<seq<T>>, getKey: T -> K, hash: K -> nat, m: map<K, T>)
    requires Hashed(bs, getKey, hash)
    requires forall k :: k in m <==> Look(bs, getKey, hash, k).Some?
    requires forall k :: k in m ==> Look(bs, getKey, hash, k) == Some(m[k])
    ensures Contents(bs, getKey, hash) == m
  {
    forall k ensures k in Contents(bs, getKey, hash) <==> k in m {
      KeysFound(bs, getKey, hash, k);
    }
  }

  lemma ContentsAt<K, T>(bs: seq<seq<T>>, getKey: T -> K, hash: K -> nat, key: K)
    requires Hashed(bs, getKey, hash)
    ensures Look(bs, getKey, hash, key) ==
            if key in Contents(bs, getKey, hash) then Some(Contents(bs, getKey, hash)[key]) else None
  {
    KeysFound(bs, getKey, hash, key);
  }

  /** Adding an item at the end of its bucket adds it to the map. */
  lemma Added<K(!new), T>(bs: seq<seq<T>>, getKey: T -> K, hash: K -> nat, item: T)
    requires Hashed(bs, getKey, hash) && getKey(item) !in Contents(bs, getKey, hash)
    ensures var b := HashValue(hash, getKey(item), |bs|);
            var bs' := bs[b := bs[b] + [item]];
            && Hashed(bs', getKey, hash) && Total(bs') == Total(bs) + 1
            && Contents(bs', getKey, hash) == Contents(bs, getKey, hash)[getKey(item) := item]
  {
    var b := HashValue(hash, getKey(item), |bs|);
    var bs' := bs[b := bs[b] + [item]];
    ContentsAt(bs, getKey, hash, getKey(item));
    TotalUpdated(bs, b, bs[b] + [item]);
    forall k ensures Look(bs', getKey, hash, k) == if k == getKey(item) then Some(item) else Look(bs, getKey, hash, k) {
      SearchAppended(bs[b], item, getKey, k);
    }
    forall k ensures Look(bs, getKey, hash, k) == if k in Contents(bs, getKey, hash) then Some(Contents(bs, getKey, hash)[k]) else None {
      ContentsAt(bs, getKey, hash, k);
    }
    ContentsIs(bs', getKey, hash, Contents(bs, getKey, hash)[getKey(item) := item]);
  }

  /** The table without one item: still hashed, and looking up anything else gives what it gave. */
  lemma BucketWithout<K(!new), T>(bs: seq<seq<T>>, getKey: T -> K, hash: K -> nat, b: nat, i: nat)
    requires Hashed(bs, getKey, hash) && b < |bs| && i < |bs[b]|
    ensures var bs' := bs[b := bs[b][..i] + bs[b][i + 1..]];
            && Hashed(bs', getKey, hash) && Look(bs, getKey, hash, getKey(bs[b][i])) == Some(bs[b][i])
            && forall k :: Look(bs', getKey, hash, k) == if k == getKey(bs[b][i]) then None else Look(bs, getKey, hash, k)
  {
    hide Search;
    var item := bs[b][i];
    var bs' := bs[b := bs[b][..i] + bs[b][i + 1..]];
    assert item in bs[b];
    DistinctWithout(bs[b], i, getKey);
    SearchDistinct(bs[b], getKey, item);
    forall k ensures Look(bs', getKey, hash, k) == if k == getKey(item) then None else Look(bs, getKey, hash, k) {
      SearchWithout(bs[b], i, getKey, k);
    }
  }

  /** Taking an item out of its bucket takes it out of the map. */
  lemma TakenOut<K(!new), T>(bs: seq<seq<T>>, getKey: T -> K, hash: K -> nat, b: nat, i: nat)
    requires Hashed(bs, getKey, hash) && b < |bs| && i < |bs[b]|
    ensures var bs' := bs[b := bs[b][..i] + bs[b][i + 1..]];
            && Hashed(bs', getKey, hash) && Total(bs') == Total(bs) - 1
            && Contents(bs', getKey, hash) == Contents(bs, getKey, hash) - {getKey(bs[b][i])}
            && getKey(bs[b][i]) in Contents(bs, getKey, hash) && Contents(bs, getKey, hash)[getKey(bs[b][i])] == bs[b][i]
  {
    hide Hashed, Look, Total, Contents;
    var key, m := getKey(bs[b][i]), Contents(bs, getKey, hash);
    var bs' := bs[b := bs[b][..i] + bs[b][i + 1..]];
    BucketWithout(bs, getKey, hash, b, i);
    TotalUpdated(bs, b, bs[b][..i] + bs[b][i + 1..]);
    ContentsAt(bs, getKey, hash, key);
    forall k ensures Look(bs', getKey, hash, k) == if k in m.Keys - {key} then Some(m[k]) else None {
      ContentsAt(bs, getKey, hash, k);
    }
    ContentsIs(bs', getKey, hash, m - {key});
  }

  /** Moving one entry from one map to another keeps their union. */
  lemma Moved<K, V>(m: map<K, V>, n: map<K, V>, k: K)
    requires m.Keys !! n.Keys && k in n
    ensures m[k := n[k]].Keys !! (n - {k}).Keys
    ensures m[k := n[k]] + (n - {k}) == m + n
  {
  }

  lemma {:induction false} AllEmpty<K, T>(bs: seq<seq<T>>, getKey: T -> K, hash: K -> nat)
    requires bs != [] && forall b :: 0 <= b < |bs| ==> bs[b] == []
    ensures Hashed(bs, getKey, hash) && Contents(bs, getKey, hash) == map[] && Total(bs) == 0
  {
    var n := |bs| - 1;
    if n > 0 {
      AllEmpty(bs[..n], getKey, hash);
    }
    assert Keys(bs, getKey) == {};
  }

  lemma LoadBound(items: nat, size: nat)
    requires size > 0
    ensures items / size < RESIZE_RATIO ==> items + 1 <= RESIZE_RATIO * size
  {
    if items / size < RESIZE_RATIO {
      assert items == size * (items / size) + items % size;
      assert size * (items / size) <= size * (RESIZE_RATIO - 1);
    }
  }

  class HashTable<K(==, !new), T(==)> {
    var buckets: array<seq<T>>
    var numItems: nat
    const getKey: T -> K
    const hash: K -> nat

    /** What SanityCheck tests, and a bound on the load. */
    ghost predicate Valid()
      reads this, buckets
    {
      && buckets.Length > 0 && Hashed(buckets[..], getKey, hash)
      && numItems == Total(buckets[..])
      && numItems <= RESIZE_RATIO * buckets.Length
    }

    ghost function Map(): map<K, T>
      requires Valid()
      reads this, buckets
    {
      Contents(buckets[..], getKey, hash)
    }

    constructor (getKey: T -> K, hash: K -> nat)
      ensures Valid() && Map() == map[] && fresh(buckets)
      ensures this.getKey == getKey && this.hash == hash
    {
      numItems := 0;
      buckets := new seq<T>[INITIAL_BUCKETS](_ => []);
      this.getKey, this.hash := getKey, hash;
      new;
      AllEmpty(buckets[..], getKey, hash);
    }

    /** The position of a key in a bucket, or the bucket's size. */
    method FindInBucket(bucket: nat, key: K) returns (i: nat)
      requires bucket < buckets.Length
      ensures i <= |buckets[bucket]|
      ensures i < |buckets[bucket]| ==> getKey(buckets[bucket][i]) == key
      ensures forall j :: 0 <= j < i ==> getKey(buckets[bucket][j]) != key
    {
      i := 0;
      while i < |buckets[bucket]| && getKey(buckets[bucket][i]) != key
        invariant i <= |buckets[bucket]|
        invariant forall j :: 0 <= j < i ==> getKey(buckets[bucket][j]) != key
      {
        i := i + 1;
      }
    }

    method Find(key: K) returns (item: Option<T>)
      requires Valid()
      ensures item == if key in Map() then Some(Map()[key]) else None
    {
      var bucket := HashValue(hash, key, buckets.Length);
      var i := FindInBucket(bucket, key);
      ContentsAt(buckets[..], getKey, hash, key);
      if i < |buckets[bucket]| {
        SearchDistinct(buckets[bucket], getKey, buckets[bucket][i]);
        item := Some(buckets[bucket][i]);
      } else {
        item := None;
      }
    }

    /** Puts in an item whose key must be new. */
    method Insert(item: T)
      requires Valid() && getKey(item) !in Map()
      modifies this, buckets
      ensures Valid() && Map() == old(Map())[getKey(item) := item] && numItems == old(numItems) + 1
      ensures buckets == old(buckets) || fresh(buckets)
    {
      hide Hashed, Contents, Total, HashValue;
      LoadBound(numItems, buckets.Length);
      if numItems / buckets.Length >= RESIZE_RATIO {
        ReHash();
      }
      var bucket := HashValue(hash, getKey(item), buckets.Length);
      ghost var before := buckets[..];
      Added(before, getKey, hash, item);
      buckets[bucket] := buckets[bucket] + [item];
      assert buckets[..] == before[bucket := before[bucket] + [item]];
      numItems := numItems + 1;
    }

    /** Takes out the item with this key, which must be there. */
    method Remove(key: K) returns (item: T)
      requires Valid() && key in Map()
      modifies this`numItems, buckets
      ensures Valid() && item == old(Map())[key] && Map() == old(Map()) - {key} && numItems == old(numItems) - 1
    {
      hide Hashed, Contents, Total;
      var bucket := HashValue(hash, key, buckets.Length);
      var i := FindInBucket(bucket, key);
      ContentsAt(buckets[..], getKey, hash, key);
      ghost var before := buckets[..];
      TakenOut(before, getKey, hash, bucket, i);
      item := buckets[bucket][i];
      buckets[bucket] := buckets[bucket][..i] + buckets[bucket][i + 1..];
      assert buckets[..] == before[bucket := before[bucket][..i] + before[bucket][i + 1..]];
      numItems := numItems - 1;
    }

    /** Moves every item into a bigger array. The map does not change. */
    method ReHash()
      requires Valid()
      modifies this`buckets, buckets
      ensures Valid() && Map() == old(Map()) && fresh(buckets)
      ensures buckets.Length == old(buckets.Length) * INCREASE_SIZE_BY && numItems == old(numItems)
    {
      hide Hashed, Contents, Total;
      var oldTable := buckets;
      ghost var items := Map();
      buckets := new seq<T>[oldTable.Length * INCREASE_SIZE_BY](_ => []);
      AllEmpty(buckets[..], getKey, hash);
      var i := 0;
      while i < oldTable.Length
        invariant i <= oldTable.Length && fresh(buckets) && buckets.Length == oldTable.Length * INCREASE_SIZE_BY
        invariant Split(oldTable, items)
        invariant forall j :: 0 <= j < i ==> oldTable[j] == []
      {
        Drain(oldTable, i, items);
        i := i + 1;
      }
      AllEmpty(oldTable[..], getKey, hash);
      assert Contents(buckets[..], getKey, hash) + map[] == items;
    }

    /** Each item is still in the old array or already in the new one. */
    ghost predicate Split(oldTable: array<seq<T>>, items: map<K, T>)
      reads this, buckets, oldTable
    {
      && oldTable.Length > 0 && buckets.Length > 0
      && Hashed(oldTable[..], getKey, hash) && Hashed(buckets[..], getKey, hash)
      && Contents(buckets[..], getKey, hash).Keys !! Contents(oldTable[..], getKey, hash).Keys
      && Contents(buckets[..], getKey, hash) + Contents(oldTable[..], getKey, hash) == items
      && Total(buckets[..]) + Total(oldTable[..]) == numItems
    }

    /** Empties one old bucket. */
    method Drain(oldTable: array<seq<T>>, i: nat, ghost items: map<K, T>)
      requires i < oldTable.Length && oldTable != buckets && Split(oldTable, items)
      modifies oldTable, buckets
      ensures Split(oldTable, items) && oldTable[i] == []
      ensures forall j :: 0 <= j < oldTable.Length && j != i ==> oldTable[j] == old(oldTable[j])
    {
      hide Hashed, Contents, Total;
      while oldTable[i] != []
        invariant Split(oldTable, items)
        invariant forall j :: 0 <= j < oldTable.Length && j != i ==> oldTable[j] == old(oldTable[j])
        decreases |oldTable[i]|
      {
        MoveFirst(oldTable, i, items);
      }
    }

    method MoveFirst(oldTable: array<seq<T>>, i: nat, ghost items: map<K, T>)
      requires i < oldTable.Length && oldTable != buckets && Split(oldTable, items) && oldTable[i] != []
      modifies oldTable, buckets
      ensures Split(oldTable, items) && oldTable[i] == old(oldTable[i])[1..]
      ensures forall j :: 0 <= j < oldTable.Length && j != i ==> oldTable[j] == old(oldTable[j])
    {
      hide Hashed, Contents, Total;
      ghost var olds, news := oldTable[..], buckets[..];
      var item := oldTable[i][0];
      TakenOut(olds, getKey, hash, i, 0);
      Moved(Contents(news, getKey, hash), Contents(olds, getKey, hash), getKey(item));
      Added(news, getKey, hash, item);
      oldTable[i] := oldTable[i][1..];
      var bucket := HashValue(hash, getKey(item), buckets.Length);
      buckets[bucket] := buckets[bucket] + [item];
      assert olds[i][..0] + olds[i][1..] == olds[i][1..];
      assert oldTable[..] == olds[i := olds[i][..0] + olds[i][1..]];
      assert buckets[..] == news[bucket := news[bucket] + [item]];
    }

    /** The next bucket, from this one on, that has anything in it. */
    method FindNextFullBucket(start: nat) returns (bucket: nat)
      requires start <= buckets.Length
      ensures start <= bucket <= buckets.Length
      ensures bucket < buckets.Length ==> buckets[bucket] != []
      ensures forall b :: start <= b < bucket ==> buckets[b] == []
    {
      bucket := start;
      while bucket < buckets.Length && buckets[bucket] == []
        invariant start <= bucket <= buckets.Length
        invariant forall b :: start <= b < bucket ==> buckets[b] == []
      {
        bucket := bucket + 1;
      }
    }
  }

  /** The items from bucket b on, in the order of the table. */
  function From<T>(bs: seq<seq<T>>, b: nat): seq<T>
    requires b <= |bs|
    decreases |bs| - b
  {
    if b == |bs| then [] else bs[b] + From(bs, b + 1)
  }

  lemma {:induction false} SkipEmpty<T>(bs: seq<seq<T>>, b: nat, c: nat)
    requires b <= c <= |bs| && forall k :: b <= k < c ==> bs[k] == []
    ensures From(bs, b) == From(bs, c)
    decreases c - b
  {
    if b < c {
      SkipEmpty(bs, b + 1, c);
    }
  }

  /** The bucket, from b on, in which an item is. */
  lemma {:induction false} BucketOf<T>(bs: seq<seq<T>>, b: nat, x: T) returns (c: nat)
    requires b <= |bs| && x in From(bs, b)
    ensures b <= c < |bs| && x in bs[c]
    decreases |bs| - b
  {
    if x in bs[b] {
      c := b;
    } else {
      c := BucketOf(bs, b + 1, x);
    }
  }

  lemma {:induction false} InBucket<T>(bs: seq<seq<T>>, b: nat, c: nat, x: T)
    requires b <= c < |bs| && x in bs[c]
    ensures x in From(bs, b)
    decreases c - b
  {
    if b < c {
      InBucket(bs, b + 1, c, x);
    }
  }

  /** The items listed have different keys. */
  lemma {:induction false} ItemsDiffer<K, T>(bs: seq<seq<T>>, b: nat, getKey: T -> K, hash: K -> nat)
    requires Hashed(bs, getKey, hash) && b <= |bs|
    ensures DistinctKeys(From(bs, b), getKey)
    decreases |bs| - b
  {
    if b < |bs| {
      ItemsDiffer(bs, b + 1, getKey, hash);
      var s, t := bs[b], From(bs, b + 1);
      forall i, j | 0 <= i < |s| && 0 <= j < |t| ensures getKey(s[i]) != getKey(t[j]) {
        var c := BucketOf(bs, b + 1, t[j]);
        assert HashValue(hash, getKey(t[j]), |bs|) == c && HashValue(hash, getKey(s[i]), |bs|) == b;
      }
    }
  }

  /** What the table lists is what the map holds. */
  lemma Listed<K, T>(bs: seq<seq<T>>, getKey: T -> K, hash: K -> nat, x: T)
    requires Hashed(bs, getKey, hash)
    ensures x in From(bs, 0) <==> getKey(x) in Contents(bs, getKey, hash) && Contents(bs, getKey, hash)[getKey(x)] == x
  {
    ContentsAt(bs, getKey, hash, getKey(x));
    if x in From(bs, 0) {
      var c := BucketOf(bs, 0, x);
      SearchDistinct(bs[c], getKey, x);
    } else if x in bs[HashValue(hash, getKey(x), |bs|)] {
      InBucket(bs, 0, HashValue(hash, getKey(x), |bs|), x);
    }
  }

  class HashIterator<K(==, !new), T(==)> {
    const table: HashTable<K, T>
    var bucket: nat
    var position: nat // the list iterator in that bucket

    ghost predicate Valid()
      reads this, table, table.buckets
    {
      && bucket <= table.buckets.Length
      && (bucket < table.buckets.Length ==> position < |table.buckets[bucket]|)
    }

    /** The items still to come, the current one first. */
    ghost function Rest(): seq<T>
      requires Valid()
      reads this, table, table.buckets
    {
      if bucket == table.buckets.Length then []
      else table.buckets[bucket][position..] + From(table.buckets[..], bucket + 1)
    }

    constructor (table: HashTable<K, T>)
      ensures Valid() && this.table == table && Rest() == From(table.buckets[..], 0)
      ensures IsDone() <==> Rest() == []
    {
      this.table := table;
      bucket, position := 0, 0;
      new;
      bucket := table.FindNextFullBucket(0);
      SkipEmpty(table.buckets[..], 0, bucket);
    }

    predicate IsDone()
      reads this, table
    {
      bucket == table.buckets.Length
    }

    method Item() returns (item: T)
      requires Valid() && !IsDone()
      ensures Rest() != [] && item == Rest()[0]
    {
      item := table.buckets[bucket][position];
    }

    method Next()
      requires Valid() && !IsDone()
      modifies this
      ensures Valid() && old(Rest()) != [] && Rest() == old(Rest())[1..]
      ensures IsDone() <==> Rest() == []
    {
      hide From;
      ghost var bs := table.buckets[..];
      RestSplits(bs, bucket, position);
      position := position + 1;
      if position == |table.buckets[bucket]| {
        ghost var after := bucket + 1;
        bucket := table.FindNextFullBucket(bucket + 1);
        position := 0;
        SkipEmpty(bs, after, bucket);
        FromStarts(bs, bucket);
      }
    }
  }

  lemma RestSplits<T>(bs: seq<seq<T>>, b: nat, p: nat)
    requires b < |bs| && p < |bs[b]|
    ensures (bs[b][p..] + From(bs, b + 1))[1..] == bs[b][p + 1..] + From(bs, b + 1)
    ensures p + 1 == |bs[b]| ==> bs[b][p + 1..] + From(bs, b + 1) == From(bs, b + 1)
  {
  }

  lemma FromStarts<T>(bs: seq<seq<T>>, b: nat)
    requires b <= |bs|
    ensures From(bs, b) == if b == |bs| then [] else bs[b][0..] + From(bs, b + 1)
  {
  }

  /** The list of all items, as the map sees it. */
  lemma AllListed<K(!new), T(!new)>(bs: seq<seq<T>>, getKey: T -> K, hash: K -> nat)
    requires Hashed(bs, getKey, hash)
    ensures DistinctKeys(From(bs, 0), getKey)
    ensures forall x :: x in From(bs, 0) <==> getKey(x) in Contents(bs, getKey, hash) && Contents(bs, getKey, hash)[getKey(x)] == x
  {
    hide Hashed, Contents, From, DistinctKeys;
    ItemsDiffer(bs, 0, getKey, hash);
    forall x ensures x in From(bs, 0) <==> getKey(x) in Contents(bs, getKey, hash) && Contents(bs, getKey, hash)[getKey(x)] == x {
      Listed(bs, getKey, hash, x);
    }
  }

  lemma Visited<T>(items: seq<T>, rest: seq<T>)
    requires rest != []
    ensures (items + [rest[0]]) + rest[1..] == items + rest
  {
  }

  /** Stepping an iterator to its end visits every item in the table exactly once. */
  method VisitAll<K(==, !new), T(==, !new)>(table: HashTable<K, T>) returns (items: seq<T>)
    requires table.Valid()
    ensures DistinctKeys(items, table.getKey)
    ensures forall x :: x in items <==> table.getKey(x) in table.Map() && table.Map()[table.getKey(x)] == x
  {
    hide Hashed, Contents, Total, From, DistinctKeys, HashIterator.Rest, HashIterator.Valid;
    AllListed(table.buckets[..], table.getKey, table.hash);
    ghost var all := From(table.buckets[..], 0);
    var it := new HashIterator(table);
    items := [];
    assert items + it.Rest() == it.Rest();
    while !it.IsDone()
      invariant it.Valid() && it.table == table && items + it.Rest() == all && fresh(it)
      invariant it.IsDone() <==> it.Rest() == []
      decreases |it.Rest()|
    {
      Visited(items, it.Rest());
      var item := it.Item();
      items := items + [item];
      it.Next();
    }
    assert items + [] == items;
  }
}
