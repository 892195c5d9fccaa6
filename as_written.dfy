/**
 * `Put` and `Remove` of `itis::HashTable` as the code is written, beside the
 * corrected class in module HashTables, with inputs on which the two differ.
 * The table state here is a plain value: the bucket array and the counter.
 */
module AsWritten {
  import opened Wrappers
  import opened Buckets
  import opened HashTables

  /** `buckets_` and `num_keys_`. */
  datatype Table = Table(buckets: seq<Bucket>, numKeys: int)

  /** A concrete hashing function, the key modulo the capacity, used by the examples below. */
  const ModHash: HashFn := (k: Int32, c: int) => if c >= 1 then (k as int) % c else 0

  /**
   * The resize of `Put` as written: the new array has `GrowthCoefficient`
   * MORE buckets, and each entry is indexed with `hash`, which still reads
   * the OLD number of buckets.
   */
  function ResizeAsWritten(bs: seq<Bucket>, hash: HashFn): (r: seq<Bucket>)
    requires |bs| >= 1
    ensures |r| == |bs| + GrowthCoefficient
  {
    Distribute(EmptyBuckets(|bs| + GrowthCoefficient), Flatten(bs), hash, |bs|)
  }

  /**
   * `Put` as written: the scan binds each entry BY COPY, so for a present key
   * the assignment changes the copy and the table is left as it was; an
   * absent key is appended and counted, and may trigger the resize above.
   */
  function PutAsWritten(t: Table, hash: HashFn, loadFactor: real, key: Int32, value: string): (r: Table)
    requires |t.buckets| >= 1
    ensures |r.buckets| >= 1
    ensures var i := hash(key, |t.buckets|);
            Find(t.buckets[i], key).Some? ==> r == t
    ensures var i := hash(key, |t.buckets|);
            var bs := t.buckets[i := t.buckets[i] + [Entry(key, value)]];
            Find(t.buckets[i], key).None? ==>
              && r.numKeys == t.numKeys + 1
              && r.buckets == if Overloaded(t.numKeys + 1, |t.buckets|, loadFactor)
                              then ResizeAsWritten(bs, hash) else bs
  {
    var i := hash(key, |t.buckets|);
    if Find(t.buckets[i], key).Some? then t
    else
      var bs := t.buckets[i := t.buckets[i] + [Entry(key, value)]];
      var n := t.numKeys + 1;
      if Overloaded(n, |bs|, loadFactor) then Table(ResizeAsWritten(bs, hash), n)
      else Table(bs, n)
  }

  /** `std::list::remove`: drops every entry equal to `e`, key AND value. */
  function RemoveAll(b: Bucket, e: Entry): (r: Bucket)
    ensures |r| <= |b|
    ensures forall x :: x in r <==> x in b && x != e
    ensures multiset(r) == multiset(b)[e := 0]
  {
    if b == [] then []
    else
      assert b == [b[0]] + b[1..];
      if b[0] == e then RemoveAll(b[1..], e)
      else [b[0]] + RemoveAll(b[1..], e)
  }

  /** `std::list::remove` keeps the order of what it leaves: it works piecewise over a concatenation. */
  lemma {:induction false} RemoveAllAppend(b1: Bucket, b2: Bucket, e: Entry)
    ensures RemoveAll(b1 + b2, e) == RemoveAll(b1, e) + RemoveAll(b2, e)
  {
    if b1 != [] {
      assert (b1 + b2)[0] == b1[0];
      assert (b1 + b2)[1..] == b1[1..] + b2;
      RemoveAllAppend(b1[1..], b2, e);
    } else {
      assert [] + b2 == b2;
    }
  }

  /**
   * `Remove` as written: the scan leaves the sentinel key `INT32_MAX` and the
   * empty value in place when the key is absent, and the removal branch is
   * taken exactly when the recorded key IS the sentinel.
   */
  function RemoveAsWritten(t: Table, hash: HashFn, key: Int32): (r: (Table, Option<string>))
    requires |t.buckets| >= 1
    ensures var i := hash(key, |t.buckets|);
            Find(t.buckets[i], key).None? ==>
              r == (Table(t.buckets[i := RemoveAll(t.buckets[i], Entry(Int32Max, ""))], t.numKeys - 1), Some(""))
    ensures var i := hash(key, |t.buckets|);
            Find(t.buckets[i], key).Some? && key != Int32Max ==> r == (t, None)
    ensures var i := hash(key, |t.buckets|);
            var found := Find(t.buckets[i], key);
            found.Some? && key == Int32Max ==>
              r == (Table(t.buckets[i := RemoveAll(t.buckets[i], Entry(key, found.value))], t.numKeys - 1), found)
  {
    var i := hash(key, |t.buckets|);
    var found := Find(t.buckets[i], key);
    var recorded := if found.Some? then key else Int32Max;
    var val := if found.Some? then found.value else "";
    if recorded == Int32Max then
      (Table(t.buckets[i := RemoveAll(t.buckets[i], Entry(recorded, val))], t.numKeys - 1), Some(val))
    else (t, None)
  }

  // ---------------------------------------------------------------------
  // Put: the update of a present key is lost

  /** On every present key, `Put` as written changes nothing: the old value stays. */
  lemma PutUpdateLost(t: Table, hash: HashFn, loadFactor: real, key: Int32, value: string)
    requires |t.buckets| >= 1 && Find(t.buckets[hash(key, |t.buckets|)], key).Some?
    ensures PutAsWritten(t, hash, loadFactor, key, value) == t
    ensures Find(PutAsWritten(t, hash, loadFactor, key, value).buckets[hash(key, |t.buckets|)], key)
            == Find(t.buckets[hash(key, |t.buckets|)], key)
  {
  }

  /** Storing "b" over 1 -> "a" leaves "a". */
  lemma PutUpdateLostExample()
    ensures var t := PutAsWritten(Table([[Entry(1, "a")]], 1), ModHash, 1.0, 1, "b");
            Find(t.buckets[ModHash(1, |t.buckets|)], 1) == Some("a")
  {
    assert ModHash(1, 1) == 0;
    assert Find([Entry(1, "a")], 1) == Some("a");
  }

  // ---------------------------------------------------------------------
  // Put: the resize indexes entries for the old capacity

  /**
   * Into an empty table of one bucket with load factor 1, storing 1 -> "a"
   * as written triggers the resize, which leaves the entry in bucket
   * hash(1, 1) = 0 of three buckets, where a search, using hash(1, 3) = 1,
   * does not look: the key just stored is not found.
   */
  lemma ResizeLosesKeyExample()
    ensures var t := PutAsWritten(Table([[]], 0), ModHash, 1.0, 1, "a");
            && t.numKeys == 1
            && Find(t.buckets[ModHash(1, |t.buckets|)], 1) == None
  {
    var bs: seq<Bucket> := [[Entry(1, "a")]];
    assert ModHash(1, 1) == 0 && ModHash(1, 3) == 1;
    assert Overloaded(1, 1, 1.0);
    assert Flatten(bs) == [Entry(1, "a")] by {
      assert bs[..0] == [];
    }
    var r := ResizeAsWritten(bs, ModHash);
    assert [] + [Entry(1, "a")] == [Entry(1, "a")];
    assert r == Distribute(EmptyBuckets(3), [Entry(1, "a")], ModHash, 1);
    assert r[1] == [];
  }

  // ---------------------------------------------------------------------
  // Remove: the branch condition is inverted

  /** For every present key other than the sentinel, `Remove` as written removes nothing and reports absence. */
  lemma RemovePresentKept(t: Table, hash: HashFn, key: Int32)
    requires |t.buckets| >= 1 && key != Int32Max
    requires Find(t.buckets[hash(key, |t.buckets|)], key).Some?
    ensures RemoveAsWritten(t, hash, key) == (t, None)
  {
  }

  /** For every absent key, `Remove` as written reports the empty value and uncounts an entry it never stored. */
  lemma RemoveAbsentMiscounts(t: Table, hash: HashFn, key: Int32)
    requires |t.buckets| >= 1
    requires Find(t.buckets[hash(key, |t.buckets|)], key).None?
    ensures RemoveAsWritten(t, hash, key).1 == Some("")
    ensures RemoveAsWritten(t, hash, key).0.numKeys == t.numKeys - 1
  {
  }

  /**
   * With 1 -> "a" stored in one bucket: removing 1 keeps it and reports
   * absence; removing the absent 2 reports "" and drops the count to 0
   * while the entry stays.
   */
  lemma RemoveExample()
    ensures var t := Table([[Entry(1, "a")]], 1);
            && RemoveAsWritten(t, ModHash, 1) == (t, None)
            && RemoveAsWritten(t, ModHash, 2) == (Table([[Entry(1, "a")]], 0), Some(""))
  {
    assert ModHash(1, 1) == 0 && ModHash(2, 1) == 0;
    assert Find([Entry(1, "a")], 1) == Some("a");
    assert [Entry(1, "a")][1..] == [];
    assert Find([Entry(1, "a")], 2) == None;
    assert RemoveAll([Entry(1, "a")], Entry(Int32Max, "")) == [Entry(1, "a")] by {
      assert Entry(1, "a") != Entry(Int32Max, "");
      assert RemoveAll([Entry(1, "a")][1..], Entry(Int32Max, "")) == [];
    }
    var t := Table([[Entry(1, "a")]], 1);
    assert t.buckets[0 := [Entry(1, "a")]] == t.buckets;
  }
}
