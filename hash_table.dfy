/**
 * `itis::HashTable`: a separate-chaining hash table from 32-bit integer keys
 * to strings that grows by a constant factor when the number of keys reaches
 * the load factor times the capacity.
 */
module HashTables {
  import opened Wrappers
  import opened Buckets

  /** The factor by which a resize multiplies the number of buckets. */
  const GrowthCoefficient: int := 2

  /** Why construction refused its arguments. */
  datatype Error = InvalidCapacity | InvalidLoadFactor

  /** The growth test after an insertion: keys / capacity at or above the load factor. */
  function Overloaded(count: int, capacity: int, loadFactor: real): (b: bool)
    requires capacity >= 1
    ensures b <==> count as real >= loadFactor * capacity as real
  {
    (count as real) / (capacity as real) >= loadFactor
  }

  /**
   * The traversal inside `values()`: bucket by bucket, entry by entry, one
   * value per entry; the ghost `ks` records whose value each one is.
   */
  method Collect(bs: seq<Bucket>, hash: HashFn) returns (vs: seq<string>, ghost ks: seq<Int32>)
    requires WellFormed(bs, hash)
    ensures |vs| == Total(bs)
    ensures Listed(bs, hash, |bs|, 0, vs, ks)
  {
    vs, ks := [], [];
    var i := 0;
    while i < |bs|
      invariant 0 <= i <= |bs|
      invariant |vs| == Total(bs[..i])
      invariant Listed(bs, hash, i, 0, vs, ks)
    {
      var bucket := bs[i];
      var j := 0;
      while j < |bucket|
        invariant 0 <= j <= |bucket|
        invariant |vs| == Total(bs[..i]) + j
        invariant Listed(bs, hash, i, j, vs, ks)
      {
        ListStep(bs, hash, i, j, vs, ks);
        vs, ks := vs + [bucket[j].value], ks + [bucket[j].key];
        j := j + 1;
      }
      ListNext(bs, hash, i, vs, ks);
      TotalPrefix(bs, i);
      i := i + 1;
    }
    assert bs[..|bs|] == bs;
  }

  /**
   * The scan of one bucket shared by `Put` and `Remove`: the position of the
   * first entry with `key`, or the bucket's length when there is none.
   */
  method Scan(b: Bucket, key: Int32) returns (j: int)
    ensures 0 <= j <= |b|
    ensures forall t :: 0 <= t < j ==> b[t].key != key
    ensures j < |b| ==> b[j].key == key
  {
    j := 0;
    while j < |b| && b[j].key != key
      invariant 0 <= j <= |b|
      invariant forall t :: 0 <= t < j ==> b[t].key != key
    {
      j := j + 1;
    }
  }

  /**
   * The nested loops of the resize: visit the buckets of `bs` in order and
   * the entries of each bucket in order, appending each entry to its bucket
   * of a fresh array of `cap` buckets, indexed for the new capacity `cap`.
   */
  method Rehash(bs: seq<Bucket>, hash: HashFn, cap: int) returns (nb: seq<Bucket>)
    requires WellFormed(bs, hash) && cap >= 1
    ensures |nb| == cap
    ensures Rehashing(bs, hash, nb, |bs|, 0)
    ensures Total(nb) == Total(bs)
    ensures nb == Distribute(EmptyBuckets(cap), Flatten(bs), hash, cap)
  {
    nb := EmptyBuckets(cap);
    TotalOfEmpty(cap);
    var i := 0;
    while i < |bs|
      invariant 0 <= i <= |bs| && |nb| == cap
      invariant Rehashing(bs, hash, nb, i, 0)
      invariant Total(nb) == Total(bs[..i])
      invariant nb == Distribute(EmptyBuckets(cap), Flatten(bs[..i]), hash, cap)
    {
      nb := MoveBucket(bs, hash, nb, i, EmptyBuckets(cap), Flatten(bs[..i]));
      TotalPrefix(bs, i);
      i := i + 1;
    }
    assert bs[..|bs|] == bs;
  }

  /** The inner loop of the resize: moves the entries of bucket i of `bs`, in order, into `nb`. */
  method MoveBucket(bs: seq<Bucket>, hash: HashFn, nb: seq<Bucket>, i: int, ghost base: seq<Bucket>, ghost pre: Bucket)
    returns (nb': seq<Bucket>)
    requires WellFormed(bs, hash) && 0 <= i < |bs|
    requires Rehashing(bs, hash, nb, i, 0)
    requires 1 <= |nb| <= |base| && nb == Distribute(base, pre, hash, |nb|)
    ensures |nb'| == |nb|
    ensures Rehashing(bs, hash, nb', i + 1, 0)
    ensures Total(nb') == Total(nb) + |bs[i]|
    ensures nb' == Distribute(base, pre + bs[i], hash, |nb|)
  {
    var bucket := bs[i];
    var cap := |nb|;
    nb' := nb;
    PrefixEnds(pre, bucket);
    var j := 0;
    while j < |bucket|
      invariant 0 <= j <= |bucket| && |nb'| == cap
      invariant Rehashing(bs, hash, nb', i, j)
      invariant Total(nb') == Total(nb) + j
      invariant nb' == Distribute(base, pre + bucket[..j], hash, cap)
    {
      var e := bucket[j];
      var t := hash(e.key, cap);
      RehashStep(bs, hash, nb', i, j);
      PrefixStep(pre, bucket, j);
      DistributeStep(base, pre + bucket[..j], e, hash, cap);
      nb' := nb'[t := nb'[t] + [e]];
      j := j + 1;
    }
    RehashNext(bs, hash, nb', i);
    PrefixEnds(pre, bucket);
  }

  class HashTable {
    /** `buckets_`: one chain of entries per index 0 .. capacity - 1. */
    var buckets: seq<Bucket>
    /** `num_keys_`: the number of stored entries. */
    var numKeys: int
    /** `load_factor_`: the growth threshold, fixed at construction. */
    const loadFactor: real
    /** The hashing collaborator `utils::hash`. */
    const hash: HashFn

    /** The finite map the table stands for. */
    ghost var Contents: map<Int32, string>

    /**
     * The table invariant: a load factor in (0, 1], at least one bucket,
     * every entry in bucket hash(key, capacity), no key twice, the buckets
     * holding exactly `Contents`, and `numKeys` counting the entries.
     */
    ghost predicate Valid()
      reads this
    {
      && 0.0 < loadFactor <= 1.0
      && Stores(buckets, hash, numKeys, Contents)
    }

    /** A table of `capacity` empty buckets; `Create` is the checked entry point. */
    constructor (capacity: int, loadFactor: real, hash: HashFn)
      requires capacity > 0 && 0.0 < loadFactor <= 1.0
      ensures Valid()
      ensures Contents == map[]
      ensures buckets == EmptyBuckets(capacity) && numKeys == 0
      ensures this.loadFactor == loadFactor && this.hash == hash
    {
      this.loadFactor := loadFactor;
      this.hash := hash;
      buckets := EmptyBuckets(capacity);
      numKeys := 0;
      Contents := map[];
      TotalOfEmpty(capacity);
    }

    /** `HashTable(capacity, load_factor)`: refuses a non-positive capacity, then a load factor outside (0, 1]. */
    static method Create(capacity: int, loadFactor: real, hash: HashFn) returns (r: Result<HashTable, Error>)
      ensures capacity <= 0 ==> r == Failure(InvalidCapacity)
      ensures capacity > 0 && !(0.0 < loadFactor <= 1.0) ==> r == Failure(InvalidLoadFactor)
      ensures capacity > 0 && 0.0 < loadFactor <= 1.0 ==>
                && r.Success? && fresh(r.value) && r.value.Valid()
                && r.value.Contents == map[] && r.value.numKeys == 0
                && r.value.buckets == EmptyBuckets(capacity)
                && r.value.loadFactor == loadFactor && r.value.hash == hash
    {
      if capacity <= 0 {
        return Failure(InvalidCapacity);
      }
      if loadFactor <= 0.0 || loadFactor > 1.0 {
        return Failure(InvalidLoadFactor);
      }
      var t := new HashTable(capacity, loadFactor, hash);
      return Success(t);
    }

    /** `hash(key)`: the bucket index of `key` for the current capacity. */
    function Index(key: Int32): (i: int)
      reads this
      requires |buckets| >= 1
      ensures 0 <= i < |buckets|
    {
      hash(key, |buckets|)
    }

    /** `Search`: scans bucket hash(key) only; finds the value stored for `key`, if any. */
    method Search(key: Int32) returns (r: Option<string>)
      requires Valid()
      ensures r == Lookup(Contents, key)
      ensures r == Find(buckets[Index(key)], key)
    {
      var bucket := buckets[Index(key)];
      var j := 0;
      while j < |bucket|
        invariant 0 <= j <= |bucket|
        invariant Find(bucket[j..], key) == Find(bucket, key)
      {
        if bucket[j].key == key {
          return Some(bucket[j].value);
        }
        assert bucket[j..][1..] == bucket[j + 1..];
        j := j + 1;
      }
      return None;
    }

    /**
     * `Put`: on a present key, replaces its value in place (same count, same
     * capacity, every other entry untouched); on an absent key, appends the
     * entry to bucket hash(key), counts it, and grows at most once when the
     * count reaches the load factor times the capacity.
     */
    method Put(key: Int32, value: string)
      requires Valid()
      modifies this
      ensures Valid()
      ensures Contents == old(Contents)[key := value]
      ensures key in old(Contents) ==>
                && numKeys == old(numKeys)
                && |buckets| == old(|buckets|)
                && (forall i :: 0 <= i < |buckets| && i != old(Index(key)) ==> buckets[i] == old(buckets[i]))
                && |buckets[old(Index(key))]| == |old(buckets[Index(key)])|
                && (forall t :: 0 <= t < |buckets[old(Index(key))]| ==>
                      buckets[old(Index(key))][t] ==
                        if old(buckets[Index(key)][t]).key == key then Entry(key, value)
                        else old(buckets[Index(key)][t]))
      ensures key !in old(Contents) ==> numKeys == old(numKeys) + 1
      ensures |buckets| == if key !in old(Contents) && Overloaded(old(numKeys) + 1, old(|buckets|), loadFactor)
                           then old(|buckets|) * GrowthCoefficient else old(|buckets|)
      ensures key !in old(Contents) && !Overloaded(old(numKeys) + 1, old(|buckets|), loadFactor) ==>
                buckets == old(buckets[Index(key) := buckets[Index(key)] + [Entry(key, value)]])
      ensures key !in old(Contents) && Overloaded(old(numKeys) + 1, old(|buckets|), loadFactor) ==>
                buckets == Distribute(EmptyBuckets(old(|buckets|) * GrowthCoefficient),
                                      Flatten(old(buckets[Index(key) := buckets[Index(key)] + [Entry(key, value)]])),
                                      hash, old(|buckets|) * GrowthCoefficient)
    {
      var index := Index(key);
      var bucket := buckets[index];
      var j := Scan(bucket, key);
      if j < |bucket| {
        StoreUpdate(buckets, hash, numKeys, Contents, key, j, value);
        buckets := buckets[index := bucket[j := Entry(key, value)]];
        Contents := Contents[key := value];
      } else {
        StoreInsert(buckets, hash, numKeys, Contents, Entry(key, value));
        buckets := buckets[index := bucket + [Entry(key, value)]];
        numKeys := numKeys + 1;
        Contents := Contents[key := value];
        if Overloaded(numKeys, |buckets|, loadFactor) {
          Grow();
        }
      }
    }

    /**
     * The resize inside `Put`: a bucket array `GrowthCoefficient` times as
     * large, rebuilt from the current entries for the NEW capacity and then
     * swapped in.
     */
    method Grow()
      requires Valid()
      modifies this
      ensures Valid()
      ensures Contents == old(Contents) && numKeys == old(numKeys)
      ensures |buckets| == old(|buckets|) * GrowthCoefficient > old(|buckets|)
      ensures buckets == Distribute(EmptyBuckets(|buckets|), Flatten(old(buckets)), hash, |buckets|)
    {
      var nb := Rehash(buckets, hash, |buckets| * GrowthCoefficient);
      RehashDone(buckets, hash, numKeys, Contents, nb);
      buckets := nb;
    }

    /**
     * `Remove`: on a present key, deletes exactly that entry from bucket
     * hash(key), uncounts it and returns its value; on an absent key,
     * returns none and changes nothing.
     */
    method Remove(key: Int32) returns (r: Option<string>)
      requires Valid()
      modifies this
      ensures Valid()
      ensures r == old(Lookup(Contents, key))
      ensures Contents == old(Contents) - {key}
      ensures numKeys == old(numKeys) - (if r.Some? then 1 else 0)
      ensures buckets == old(buckets[Index(key) := Without(buckets[Index(key)], key)])
      ensures r.None? ==> buckets == old(buckets)
    {
      var index := Index(key);
      var bucket := buckets[index];
      var j := Scan(bucket, key);
      if j < |bucket| {
        r := Some(bucket[j].value);
        assert DistinctKeys(bucket);
        FindAt(bucket, j, key);
        StoreDelete(buckets, hash, numKeys, Contents, key);
        buckets := buckets[index := Without(bucket, key)];
        numKeys := numKeys - 1;
        Contents := Contents - {key};
        return;
      }
      WithoutAbsent(bucket, key);
      assert buckets[index := Without(bucket, key)] == buckets;
      r := None;
    }

    /** `ContainsKey`: a present key, decided by `Search`. */
    method ContainsKey(key: Int32) returns (b: bool)
      requires Valid()
      ensures b <==> key in Contents
    {
      var r := Search(key);
      b := r.Some?;
    }

    /** `size()`: the number of stored keys. */
    function Size(): (n: int)
      reads this
      requires Valid()
      ensures n == |Contents|
    {
      numKeys
    }

    /** `empty()`: no key is stored. */
    function IsEmpty(): (b: bool)
      reads this
      requires Valid()
      ensures b <==> Contents == map[]
    {
      Size() == 0
    }

    /** `capacity()`: the number of buckets, never below one. */
    function Capacity(): (c: int)
      reads this
      requires Valid()
      ensures c == |buckets| && c >= 1
    {
      |buckets|
    }

    /** `load_factor()`: the configured threshold, in (0, 1]. */
    function LoadFactor(): (lf: real)
      reads this
      requires Valid()
      ensures lf == loadFactor && 0.0 < lf <= 1.0
    {
      loadFactor
    }

    /** `keys()`: exactly the set of stored keys. */
    method Keys() returns (ks: set<Int32>)
      requires Valid()
      ensures ks == Contents.Keys
    {
      ks := {};
      var i := 0;
      while i < |buckets|
        invariant 0 <= i <= |buckets|
        invariant forall k: Int32 :: k in ks <==> Visited(buckets, hash, i, 0, k).Some?
      {
        var bucket := buckets[i];
        var j := 0;
        while j < |bucket|
          invariant 0 <= j <= |bucket|
          invariant forall k: Int32 :: k in ks <==> Visited(buckets, hash, i, j, k).Some?
        {
          forall k: Int32 ensures Visited(buckets, hash, i, j + 1, k).Some? <==> k in ks + {bucket[j].key} {
            VisitStep(buckets, hash, i, j, k);
          }
          ks := ks + {bucket[j].key};
          j := j + 1;
        }
        forall k: Int32 ensures Visited(buckets, hash, i, |bucket|, k) == Visited(buckets, hash, i + 1, 0, k) {
          VisitNext(buckets, hash, i, k);
        }
        i := i + 1;
      }
      assert forall k: Int32 :: k in ks <==> k in Contents;
    }

    /**
     * `values()`: one value per stored entry. The ghost `ks` names the key
     * of each value: every stored key exactly once.
     */
    method Values() returns (vs: seq<string>, ghost ks: seq<Int32>)
      requires Valid()
      ensures |vs| == Size()
      ensures |ks| == |vs|
      ensures forall t :: 0 <= t < |ks| ==> ks[t] in Contents && vs[t] == Contents[ks[t]]
      ensures forall s, t :: 0 <= s < t < |ks| ==> ks[s] != ks[t]
      ensures forall k :: k in Contents ==> k in ks
    {
      vs, ks := Collect(buckets, hash);
      ListDone(buckets, hash, Contents, vs, ks);
    }
  }
}
