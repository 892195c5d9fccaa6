/**
 * The bucket layer of the separate-chaining table: keys, entries, buckets,
 * the hashing collaborator, and the facts about one bucket step (update,
 * insert, delete, rehash move) that the table's methods rely on.
 */
module Buckets {
  import opened Wrappers

  /** The source's `int` key: a 32-bit signed integer. */
  newtype Int32 = x: int | -0x8000_0000 <= x < 0x8000_0000

  /** `INT32_MAX`. */
  const Int32Max: Int32 := 0x7FFF_FFFF

  /** One stored (key, value) pair. */
  datatype Entry = Entry(key: Int32, value: string)

  /** The chain of entries that share one bucket index, in insertion order. */
  type Bucket = seq<Entry>

  /**
   * The hashing collaborator `utils::hash(key, capacity)`: any function that
   * sends every key into [0, capacity) whenever capacity is at least 1.
   */
  type HashFn = f: (Int32, int) -> int | forall k: Int32, c: int :: 1 <= c ==> 0 <= f(k, c) < c
    witness (k: Int32, c: int) => 0

  /** The abstract meaning of a lookup in a finite map. */
  function Lookup(m: map<Int32, string>, k: Int32): Option<string>
  {
    if k in m then Some(m[k]) else None
  }

  /** The value of the first entry of `b` whose key is `k`: a linear scan of one bucket. */
  function Find(b: Bucket, k: Int32): (r: Option<string>)
    ensures r.None? <==> forall j :: 0 <= j < |b| ==> b[j].key != k
  {
    if b == [] then None
    else if b[0].key == k then Some(b[0].value)
    else Find(b[1..], k)
  }

  /** No two entries of `b` share a key. */
  ghost predicate DistinctKeys(b: Bucket)
  {
    forall i, j :: 0 <= i < j < |b| ==> b[i].key != b[j].key
  }

  /** Every entry of `b` hashes to index `i` for capacity `cap`. */
  ghost predicate PlacedAt(b: Bucket, hash: HashFn, cap: int, i: int)
  {
    forall j :: 0 <= j < |b| ==> hash(b[j].key, cap) == i
  }

  /**
   * The shape invariant of a bucket array: at least one bucket, every entry
   * in the bucket its key hashes to for the current capacity, and no key
   * twice in a bucket (hence, by placement, nowhere twice in the table).
   */
  ghost predicate WellFormed(bs: seq<Bucket>, hash: HashFn)
  {
    && |bs| >= 1
    && forall i :: 0 <= i < |bs| ==> DistinctKeys(bs[i]) && PlacedAt(bs[i], hash, |bs|, i)
  }

  /** The bucket array stores exactly the map `m`: looking in bucket hash(k) finds m's value for k. */
  ghost predicate Represents(bs: seq<Bucket>, hash: HashFn, m: map<Int32, string>)
    requires |bs| >= 1
  {
    forall k: Int32 :: Find(bs[hash(k, |bs|)], k) == Lookup(m, k)
  }

  /**
   * The representation invariant of a table: a well-formed array that
   * stores exactly `m`, with `n` counting its entries.
   */
  ghost predicate Stores(bs: seq<Bucket>, hash: HashFn, n: int, m: map<Int32, string>)
  {
    && WellFormed(bs, hash)
    && Represents(bs, hash, m)
    && n == Total(bs)
    && n == |m|
  }

  /** The total number of entries across all buckets. */
  function Total(bs: seq<Bucket>): nat
  {
    if bs == [] then 0 else Total(bs[..|bs| - 1]) + |bs[|bs| - 1]|
  }

  /** All entries, bucket after bucket, each bucket in its own order. */
  function Flatten(bs: seq<Bucket>): (es: Bucket)
    ensures |es| == Total(bs)
  {
    if bs == [] then [] else Flatten(bs[..|bs| - 1]) + bs[|bs| - 1]
  }

  /** `cap` empty buckets: a freshly allocated bucket array. */
  function EmptyBuckets(cap: nat): (bs: seq<Bucket>)
    ensures |bs| == cap
    ensures forall i :: 0 <= i < cap ==> bs[i] == []
  {
    seq(cap, _ => [])
  }

  /**
   * Appends the entries of `es`, in order, each to bucket hash(key, cap) of
   * `nb`: what the nested rehash loops build when they index with `cap`.
   */
  function Distribute(nb: seq<Bucket>, es: Bucket, hash: HashFn, cap: int): (r: seq<Bucket>)
    requires 1 <= cap <= |nb|
    ensures |r| == |nb|
  {
    if es == [] then nb
    else
      var p := Distribute(nb, es[..|es| - 1], hash, cap);
      var e := es[|es| - 1];
      var t := hash(e.key, cap);
      p[t := p[t] + [e]]
  }

  /** `b` with every entry whose key is `k` taken out, the others kept in order. */
  function Without(b: Bucket, k: Int32): (r: Bucket)
    ensures |r| <= |b|
  {
    if b == [] then []
    else if b[0].key == k then Without(b[1..], k)
    else [b[0]] + Without(b[1..], k)
  }

  /**
   * The lookup restricted to the entries that a bucket-by-bucket traversal
   * has visited before position j of bucket i.
   */
  ghost function Visited(bs: seq<Bucket>, hash: HashFn, i: int, j: int, k: Int32): Option<string>
    requires |bs| >= 1 && 0 <= i <= |bs| && 0 <= j && (i < |bs| ==> j <= |bs[i]|)
  {
    var o := hash(k, |bs|);
    if o < i then Find(bs[o], k)
    else if o == i then Find(bs[i][..j], k)
    else None
  }

  /** A partial rehash of `bs` into `nb`: well formed, and holding exactly the entries visited so far. */
  ghost predicate Rehashing(bs: seq<Bucket>, hash: HashFn, nb: seq<Bucket>, i: int, j: int)
    requires |bs| >= 1 && 0 <= i <= |bs| && 0 <= j && (i < |bs| ==> j <= |bs[i]|)
  {
    && WellFormed(nb, hash)
    && forall k: Int32 :: Find(nb[hash(k, |nb|)], k) == Visited(bs, hash, i, j, k)
  }

  // ---------------------------------------------------------------------
  // Facts about one bucket

  /** With distinct keys, the scan finds the one entry that carries the key. */
  lemma {:induction false} FindAt(b: Bucket, j: int, k: Int32)
    requires DistinctKeys(b) && 0 <= j < |b| && b[j].key == k
    ensures Find(b, k) == Some(b[j].value)
  {
    if j > 0 {
      assert b[0].key != k;
      assert DistinctKeys(b[1..]) by {
        forall s, t | 0 <= s < t < |b| - 1 ensures b[1..][s].key != b[1..][t].key {
          assert b[1..][s] == b[s + 1] && b[1..][t] == b[t + 1];
        }
      }
      FindAt(b[1..], j - 1, k);
    }
  }

  /** Scanning a bucket with one more entry at its end. */
  lemma {:induction false} FindAppend(b: Bucket, e: Entry, k: Int32)
    ensures Find(b + [e], k) == if Find(b, k).Some? then Find(b, k) else if e.key == k then Some(e.value) else None
  {
    if b != [] {
      assert (b + [e])[1..] == b[1..] + [e];
      FindAppend(b[1..], e, k);
    } else {
      assert ([] + [e])[1..] == [];
    }
  }

  /** A value the scan returns is the value of an entry that carries the key. */
  lemma {:induction false} FindSome(b: Bucket, k: Int32)
    requires Find(b, k).Some?
    ensures Entry(k, Find(b, k).value) in b
  {
    if b[0].key != k {
      FindSome(b[1..], k);
      assert b == [b[0]] + b[1..];
    }
  }

  /** Exactly the entries that do not carry `k` survive, in any multiplicity. */
  lemma {:induction false} WithoutMembers(b: Bucket, k: Int32, e: Entry)
    ensures e in Without(b, k) <==> e in b && e.key != k
  {
    if b != [] {
      WithoutMembers(b[1..], k, e);
      assert b == [b[0]] + b[1..];
    }
  }

  /** Taking out a key that no entry carries changes nothing. */
  lemma {:induction false} WithoutAbsent(b: Bucket, k: Int32)
    requires forall j :: 0 <= j < |b| ==> b[j].key != k
    ensures Without(b, k) == b
  {
    if b != [] {
      WithoutAbsent(b[1..], k);
    }
  }

  /** With distinct keys, taking out a key deletes exactly the one entry that carries it. */
  lemma {:induction false} WithoutAt(b: Bucket, j: int, k: Int32)
    requires DistinctKeys(b) && 0 <= j < |b| && b[j].key == k
    ensures Without(b, k) == b[..j] + b[j + 1..]
  {
    if j == 0 {
      WithoutAbsent(b[1..], k);
    } else {
      assert DistinctKeys(b[1..]) by {
        forall s, t | 0 <= s < t < |b| - 1 ensures b[1..][s].key != b[1..][t].key {
          assert b[1..][s] == b[s + 1] && b[1..][t] == b[t + 1];
        }
      }
      WithoutAt(b[1..], j - 1, k);
      assert b[1..][..j - 1] == b[1..j] && b[1..][j..] == b[j + 1..];
      assert b[..j] + b[j + 1..] == [b[0]] + (b[1..j] + b[j + 1..]);
    }
  }

  // ---------------------------------------------------------------------
  // Counting entries

  /** Replacing one bucket changes the total by the difference in its length. */
  lemma {:induction false} TotalUpdate(bs: seq<Bucket>, t: int, b: Bucket)
    requires 0 <= t < |bs|
    ensures Total(bs[t := b]) == Total(bs) - |bs[t]| + |b|
  {
    var n := |bs| - 1;
    var bs' := bs[t := b];
    if t == n {
      assert bs'[..n] == bs[..n];
    } else {
      assert bs'[..n] == bs[..n][t := b];
      TotalUpdate(bs[..n], t, b);
    }
  }

  /** A prefix one bucket longer holds that bucket's entries more. */
  lemma TotalPrefix(bs: seq<Bucket>, i: int)
    requires 0 <= i < |bs|
    ensures Total(bs[..i + 1]) == Total(bs[..i]) + |bs[i]|
    ensures Flatten(bs[..i + 1]) == Flatten(bs[..i]) + bs[i]
  {
    assert bs[..i + 1][..i] == bs[..i];
  }

  /** A freshly allocated bucket array holds no entries. */
  lemma {:induction false} TotalOfEmpty(cap: nat)
    ensures Total(EmptyBuckets(cap)) == 0
  {
    if cap > 0 {
      assert EmptyBuckets(cap)[..cap - 1] == EmptyBuckets(cap - 1);
      TotalOfEmpty(cap - 1);
    }
  }

  /** Every key is stored at most once in the whole table, not only within a bucket. */
  lemma KeysUnique(bs: seq<Bucket>, hash: HashFn, i1: int, j1: int, i2: int, j2: int)
    requires WellFormed(bs, hash)
    requires 0 <= i1 < |bs| && 0 <= j1 < |bs[i1]| && 0 <= i2 < |bs| && 0 <= j2 < |bs[i2]|
    requires bs[i1][j1].key == bs[i2][j2].key
    ensures i1 == i2 && j1 == j2
  {
    assert PlacedAt(bs[i1], hash, |bs|, i1) && PlacedAt(bs[i2], hash, |bs|, i2);
    assert DistinctKeys(bs[i1]);
  }

  // ---------------------------------------------------------------------
  // One step of each table operation, on one bucket

  /** Replacing the value of the entry that carries `key` changes the scan for `key` alone. */
  lemma UpdateAt(b: Bucket, hash: HashFn, cap: int, t: int, j: int, key: Int32, value: string)
    requires DistinctKeys(b) && PlacedAt(b, hash, cap, t)
    requires 0 <= j < |b| && b[j].key == key
    ensures var b' := b[j := Entry(key, value)];
            && DistinctKeys(b') && PlacedAt(b', hash, cap, t)
            && forall k: Int32 :: Find(b', k) == if k == key then Some(value) else Find(b, k)
  {
    var b' := b[j := Entry(key, value)];
    assert forall s :: 0 <= s < |b| ==> b'[s].key == b[s].key;
    FindAt(b', j, key);
    forall k: Int32 | k != key ensures Find(b', k) == Find(b, k) {
      if s :| 0 <= s < |b| && b[s].key == k {
        FindAt(b, s, k);
        FindAt(b', s, k);
      }
    }
  }

  /** Appending an entry whose key the bucket lacks makes that key, and no other, found. */
  lemma AppendFresh(b: Bucket, hash: HashFn, cap: int, t: int, e: Entry)
    requires DistinctKeys(b) && PlacedAt(b, hash, cap, t)
    requires hash(e.key, cap) == t && Find(b, e.key) == None
    ensures var b' := b + [e];
            && DistinctKeys(b') && PlacedAt(b', hash, cap, t)
            && forall k: Int32 :: Find(b', k) == if k == e.key then Some(e.value) else Find(b, k)
  {
    var b' := b + [e];
    assert forall s :: 0 <= s < |b| ==> b'[s] == b[s];
    assert DistinctKeys(b') by {
      forall s, u | 0 <= s < u < |b'| ensures b'[s].key != b'[u].key {
        if u < |b| {
          assert b'[s] == b[s] && b'[u] == b[u];
        }
      }
    }
    forall k: Int32 ensures Find(b', k) == if k == e.key then Some(e.value) else Find(b, k) {
      FindAppend(b, e, k);
    }
  }

  /** The tail of a bucket with distinct keys has distinct keys, none of them the head's. */
  lemma DistinctTail(b: Bucket)
    requires DistinctKeys(b) && b != []
    ensures DistinctKeys(b[1..])
    ensures forall s :: 0 <= s < |b| - 1 ==> b[1..][s].key != b[0].key
  {
    forall s, t | 0 <= s < t < |b| - 1 ensures b[1..][s].key != b[1..][t].key {
      assert b[1..][s] == b[s + 1] && b[1..][t] == b[t + 1];
    }
  }

  /** Scanning after taking `key` out: `key` is gone, every other key is found as before. */
  lemma {:induction false} WithoutFind(b: Bucket, key: Int32, k: Int32)
    ensures Find(Without(b, key), k) == if k == key then None else Find(b, k)
  {
    if b != [] {
      WithoutFind(b[1..], key, k);
      if b[0].key != key {
        assert ([b[0]] + Without(b[1..], key))[1..] == Without(b[1..], key);
      }
    }
  }

  /** With distinct keys, taking out a key removes one entry if the key was there and none otherwise. */
  lemma {:induction false} WithoutCount(b: Bucket, key: Int32)
    requires DistinctKeys(b)
    ensures |Without(b, key)| == |b| - (if Find(b, key).Some? then 1 else 0)
  {
    if b != [] {
      DistinctTail(b);
      if b[0].key == key {
        WithoutAbsent(b[1..], key);
      } else {
        WithoutCount(b[1..], key);
      }
    }
  }

  /** Taking a key out keeps a bucket's keys distinct and its placement. */
  lemma {:induction false} WithoutShape(b: Bucket, hash: HashFn, cap: int, t: int, key: Int32)
    requires DistinctKeys(b) && PlacedAt(b, hash, cap, t)
    ensures DistinctKeys(Without(b, key)) && PlacedAt(Without(b, key), hash, cap, t)
  {
    if b != [] {
      DistinctTail(b);
      assert PlacedAt(b[1..], hash, cap, t);
      WithoutShape(b[1..], hash, cap, t, key);
      var w := Without(b[1..], key);
      if b[0].key != key {
        var w' := [b[0]] + w;
        forall s | 0 <= s < |w| ensures w[s].key != b[0].key {
          WithoutMembers(b[1..], key, w[s]);
          var u :| 0 <= u < |b| - 1 && b[1..][u] == w[s];
        }
        assert forall s :: 0 < s < |w'| ==> w'[s] == w[s - 1];
      }
    }
  }

  // ---------------------------------------------------------------------
  // One step of each table operation, on the bucket array

  /** A bucket array with one bucket replaced by a good bucket for that index is still well formed. */
  lemma ReplaceBucket(bs: seq<Bucket>, hash: HashFn, t: int, b: Bucket)
    requires WellFormed(bs, hash) && 0 <= t < |bs|
    requires DistinctKeys(b) && PlacedAt(b, hash, |bs|, t)
    ensures WellFormed(bs[t := b], hash)
    ensures Total(bs[t := b]) == Total(bs) - |bs[t]| + |b|
  {
    TotalUpdate(bs, t, b);
  }

  /**
   * Replacing the value of the entry that carries `key` keeps the array well
   * formed and the count, and changes the lookup of `key` alone.
   */
  lemma UpdateKey(bs: seq<Bucket>, hash: HashFn, key: Int32, j: int, value: string)
    requires WellFormed(bs, hash)
    requires 0 <= j < |bs[hash(key, |bs|)]| && bs[hash(key, |bs|)][j].key == key
    ensures var t := hash(key, |bs|);
            var bs' := bs[t := bs[t][j := Entry(key, value)]];
            && WellFormed(bs', hash)
            && Total(bs') == Total(bs)
            && forall k: Int32 :: Find(bs'[hash(k, |bs|)], k) == if k == key then Some(value) else Find(bs[hash(k, |bs|)], k)
  {
    var t := hash(key, |bs|);
    UpdateAt(bs[t], hash, |bs|, t, j, key, value);
    ReplaceBucket(bs, hash, t, bs[t][j := Entry(key, value)]);
  }

  /**
   * Appending an entry whose key the array does not hold keeps it well
   * formed, adds one to the count, and makes that key (and no other) found.
   */
  lemma InsertFresh(bs: seq<Bucket>, hash: HashFn, e: Entry)
    requires WellFormed(bs, hash)
    requires Find(bs[hash(e.key, |bs|)], e.key) == None
    ensures var t := hash(e.key, |bs|);
            var bs' := bs[t := bs[t] + [e]];
            && WellFormed(bs', hash)
            && Total(bs') == Total(bs) + 1
            && forall k: Int32 :: Find(bs'[hash(k, |bs|)], k) == if k == e.key then Some(e.value) else Find(bs[hash(k, |bs|)], k)
  {
    var t := hash(e.key, |bs|);
    AppendFresh(bs[t], hash, |bs|, t, e);
    ReplaceBucket(bs, hash, t, bs[t] + [e]);
  }

  /**
   * Taking `key` out of its bucket keeps the array well formed, removes one
   * entry exactly when the key was present, and makes that key (and no
   * other) not found.
   */
  lemma DeleteKey(bs: seq<Bucket>, hash: HashFn, key: Int32)
    requires WellFormed(bs, hash)
    ensures var t := hash(key, |bs|);
            var bs' := bs[t := Without(bs[t], key)];
            && WellFormed(bs', hash)
            && Total(bs') == Total(bs) - (if Find(bs[t], key).Some? then 1 else 0)
            && forall k: Int32 :: Find(bs'[hash(k, |bs|)], k) == if k == key then None else Find(bs[hash(k, |bs|)], k)
  {
    var t := hash(key, |bs|);
    var b := bs[t];
    WithoutShape(b, hash, |bs|, t, key);
    WithoutCount(b, key);
    ReplaceBucket(bs, hash, t, Without(b, key));
    forall k: Int32 ensures Find(Without(b, key), k) == if k == key then None else Find(b, k) {
      WithoutFind(b, key, k);
    }
  }

  /** Replacing the value stored for a present key stores the updated map, with the same count. */
  lemma StoreUpdate(bs: seq<Bucket>, hash: HashFn, n: int, m: map<Int32, string>, key: Int32, j: int, value: string)
    requires Stores(bs, hash, n, m)
    requires 0 <= j < |bs[hash(key, |bs|)]| && bs[hash(key, |bs|)][j].key == key
    ensures var t := hash(key, |bs|);
            Stores(bs[t := bs[t][j := Entry(key, value)]], hash, n, m[key := value])
  {
    var t := hash(key, |bs|);
    assert DistinctKeys(bs[t]);
    FindAt(bs[t], j, key);
    assert key in m;
    UpdateKey(bs, hash, key, j, value);
  }

  /** Appending an entry for an absent key stores the extended map, with one more entry. */
  lemma StoreInsert(bs: seq<Bucket>, hash: HashFn, n: int, m: map<Int32, string>, e: Entry)
    requires Stores(bs, hash, n, m)
    requires Find(bs[hash(e.key, |bs|)], e.key) == None
    ensures var t := hash(e.key, |bs|);
            Stores(bs[t := bs[t] + [e]], hash, n + 1, m[e.key := e.value])
  {
    assert e.key !in m;
    InsertFresh(bs, hash, e);
  }

  /** Taking a key out of its bucket stores the map without it, with one entry fewer when it was there. */
  lemma StoreDelete(bs: seq<Bucket>, hash: HashFn, n: int, m: map<Int32, string>, key: Int32)
    requires Stores(bs, hash, n, m)
    ensures var t := hash(key, |bs|);
            Stores(bs[t := Without(bs[t], key)], hash, n - (if key in m then 1 else 0), m - {key})
  {
    var t := hash(key, |bs|);
    var bs' := bs[t := Without(bs[t], key)];
    DeleteKey(bs, hash, key);
    assert Find(bs[t], key).Some? <==> key in m;
    forall k: Int32 ensures Find(bs'[hash(k, |bs'|)], k) == Lookup(m - {key}, k) {
      assert Lookup(m - {key}, k) == if k == key then None else Lookup(m, k);
    }
    assert (m - {key}).Keys == m.Keys - {key};
  }

  /** One more entry of a bucket visited. */
  lemma VisitStep(bs: seq<Bucket>, hash: HashFn, i: int, j: int, k: Int32)
    requires WellFormed(bs, hash) && 0 <= i < |bs| && 0 <= j < |bs[i]|
    ensures Visited(bs, hash, i, j + 1, k) ==
            if k == bs[i][j].key then Some(bs[i][j].value) else Visited(bs, hash, i, j, k)
  {
    var e := bs[i][j];
    assert bs[i][..j + 1] == bs[i][..j] + [e];
    FindAppend(bs[i][..j], e, k);
    assert PlacedAt(bs[i], hash, |bs|, i);
    if k == e.key {
      assert DistinctKeys(bs[i]);
      assert forall s :: 0 <= s < j ==> bs[i][..j][s].key != k;
    }
  }

  /** Having visited all of bucket i is having visited nothing of bucket i + 1. */
  lemma VisitNext(bs: seq<Bucket>, hash: HashFn, i: int, k: Int32)
    requires WellFormed(bs, hash) && 0 <= i < |bs|
    ensures Visited(bs, hash, i, |bs[i]|, k) == Visited(bs, hash, i + 1, 0, k)
  {
    assert bs[i][..|bs[i]|] == bs[i];
    if i + 1 < |bs| {
      assert bs[i + 1][..0] == [];
    }
  }

  /**
   * Moving the next visited entry into its bucket for the new capacity keeps
   * the partial rehash exact and adds one entry.
   */
  lemma RehashStep(bs: seq<Bucket>, hash: HashFn, nb: seq<Bucket>, i: int, j: int)
    requires WellFormed(bs, hash) && 0 <= i < |bs| && 0 <= j < |bs[i]|
    requires Rehashing(bs, hash, nb, i, j)
    ensures var e := bs[i][j];
            var t := hash(e.key, |nb|);
            && Rehashing(bs, hash, nb[t := nb[t] + [e]], i, j + 1)
            && Total(nb[t := nb[t] + [e]]) == Total(nb) + 1
  {
    var e := bs[i][j];
    var t := hash(e.key, |nb|);
    VisitFresh(bs, hash, i, j);
    InsertFresh(nb, hash, e);
    var nb' := nb[t := nb[t] + [e]];
    forall k: Int32 ensures Find(nb'[hash(k, |nb'|)], k) == Visited(bs, hash, i, j + 1, k) {
      VisitStep(bs, hash, i, j, k);
    }
  }

  /** The entry about to be visited has not been seen before: keys are unique across the table. */
  lemma VisitFresh(bs: seq<Bucket>, hash: HashFn, i: int, j: int)
    requires WellFormed(bs, hash) && 0 <= i < |bs| && 0 <= j < |bs[i]|
    ensures Visited(bs, hash, i, j, bs[i][j].key) == None
  {
    var e := bs[i][j];
    assert PlacedAt(bs[i], hash, |bs|, i) && DistinctKeys(bs[i]);
    assert forall s :: 0 <= s < j ==> bs[i][..j][s].key != e.key;
  }

  /** Having visited all of bucket i is having visited nothing of bucket i + 1, for the partial rehash. */
  lemma RehashNext(bs: seq<Bucket>, hash: HashFn, nb: seq<Bucket>, i: int)
    requires WellFormed(bs, hash) && 0 <= i < |bs|
    requires Rehashing(bs, hash, nb, i, |bs[i]|)
    ensures Rehashing(bs, hash, nb, i + 1, 0)
  {
    forall k: Int32 ensures Visited(bs, hash, i, |bs[i]|, k) == Visited(bs, hash, i + 1, 0, k) {
      VisitNext(bs, hash, i, k);
    }
  }

  /** A completed rehash of a table that stores `m` stores `m` again, under the new capacity. */
  lemma RehashDone(bs: seq<Bucket>, hash: HashFn, n: int, m: map<Int32, string>, nb: seq<Bucket>)
    requires Stores(bs, hash, n, m)
    requires Rehashing(bs, hash, nb, |bs|, 0) && Total(nb) == Total(bs)
    ensures Stores(nb, hash, n, m)
  {
  }

  /**
   * The values collected so far by a traversal that has reached entry j of
   * bucket i: `ks` names, without repetition, exactly the keys visited, and
   * `vs` their values, position by position.
   */
  ghost predicate Listed(bs: seq<Bucket>, hash: HashFn, i: int, j: int, vs: seq<string>, ks: seq<Int32>)
    requires |bs| >= 1 && 0 <= i <= |bs| && 0 <= j && (i < |bs| ==> j <= |bs[i]|)
  {
    && |vs| == |ks|
    && (forall t :: 0 <= t < |ks| ==> Visited(bs, hash, i, j, ks[t]) == Some(vs[t]))
    && (forall s, t :: 0 <= s < t < |ks| ==> ks[s] != ks[t])
    && (forall k: Int32 :: Visited(bs, hash, i, j, k).Some? ==> k in ks)
  }

  /** Collecting one more entry keeps the listing exact. */
  lemma ListStep(bs: seq<Bucket>, hash: HashFn, i: int, j: int, vs: seq<string>, ks: seq<Int32>)
    requires WellFormed(bs, hash) && 0 <= i < |bs| && 0 <= j < |bs[i]|
    requires Listed(bs, hash, i, j, vs, ks)
    ensures Listed(bs, hash, i, j + 1, vs + [bs[i][j].value], ks + [bs[i][j].key])
  {
    var e := bs[i][j];
    var vs', ks' := vs + [e.value], ks + [e.key];
    VisitFresh(bs, hash, i, j);
    forall k: Int32 ensures Visited(bs, hash, i, j + 1, k) ==
                            if k == e.key then Some(e.value) else Visited(bs, hash, i, j, k) {
      VisitStep(bs, hash, i, j, k);
    }
    assert e.key !in ks;
    forall t | 0 <= t < |ks'| ensures Visited(bs, hash, i, j + 1, ks'[t]) == Some(vs'[t]) {
      if t < |ks| {
        assert ks'[t] == ks[t] && vs'[t] == vs[t];
      }
    }
    forall s, t | 0 <= s < t < |ks'| ensures ks'[s] != ks'[t] {
      if t < |ks| {
        assert ks'[s] == ks[s] && ks'[t] == ks[t];
      } else {
        assert ks'[s] == ks[s];
      }
    }
  }

  /** Finishing bucket i is starting bucket i + 1, for the listing. */
  lemma ListNext(bs: seq<Bucket>, hash: HashFn, i: int, vs: seq<string>, ks: seq<Int32>)
    requires WellFormed(bs, hash) && 0 <= i < |bs|
    requires Listed(bs, hash, i, |bs[i]|, vs, ks)
    ensures Listed(bs, hash, i + 1, 0, vs, ks)
  {
    forall k: Int32 ensures Visited(bs, hash, i, |bs[i]|, k) == Visited(bs, hash, i + 1, 0, k) {
      VisitNext(bs, hash, i, k);
    }
  }

  /** A completed listing of a table that stores `m` lists every key of `m` once, with its value. */
  lemma ListDone(bs: seq<Bucket>, hash: HashFn, m: map<Int32, string>, vs: seq<string>, ks: seq<Int32>)
    requires WellFormed(bs, hash) && Represents(bs, hash, m)
    requires Listed(bs, hash, |bs|, 0, vs, ks)
    ensures forall t :: 0 <= t < |ks| ==> ks[t] in m && vs[t] == m[ks[t]]
    ensures forall k :: k in m ==> k in ks
  {
  }

  /** Distributing one more entry appends it to its bucket. */
  lemma DistributeStep(nb: seq<Bucket>, es: Bucket, e: Entry, hash: HashFn, cap: int)
    requires 1 <= cap <= |nb|
    ensures var p := Distribute(nb, es, hash, cap);
            var t := hash(e.key, cap);
            Distribute(nb, es + [e], hash, cap) == p[t := p[t] + [e]]
  {
    assert (es + [e])[..|es + [e]| - 1] == es;
  }

  /** A prefix one entry longer, after some earlier entries. */
  lemma PrefixStep(pre: Bucket, b: Bucket, j: int)
    requires 0 <= j < |b|
    ensures pre + b[..j + 1] == (pre + b[..j]) + [b[j]]
  {
    assert b[..j + 1] == b[..j] + [b[j]];
  }

  /** The empty prefix and the whole prefix. */
  lemma PrefixEnds(pre: Bucket, b: Bucket)
    ensures pre + b[..0] == pre
    ensures b[..|b|] == b
  {
    assert b[..0] == [];
  }
}
