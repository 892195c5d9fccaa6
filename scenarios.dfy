/**
 * Clients of the corrected table: a worked example (capacity 4, load factor
 * 0.75, keys 1 to 4), and the input on which the resize as written loses a key.
 */
module Scenarios {
  import opened Wrappers
  import opened Buckets
  import opened HashTables

  /**
   * The first step of the worked example, split off to keep each proof small:
   * capacity 4 and load factor 0.75, keys 1 and 2; 1 / 4 and 2 / 4 stay below 0.75.
   */
  method TwoKeys(hash: HashFn) returns (t: HashTable)
    ensures fresh(t) && t.Valid() && t.loadFactor == 0.75
    ensures t.Contents == map[1 := "a", 2 := "b"]
    ensures t.Size() == 2 && t.Capacity() == 4
  {
    t := new HashTable(4, 0.75, hash);
    t.Put(1, "a");
    t.Put(2, "b");
  }

  /**
   * Capacity 4 and load factor 0.75, keys 1, 2 and 3, under any hashing
   * function. The growth test is `>=`, so it is the third insertion
   * (3 / 4 reaches 0.75) that doubles the capacity to 8.
   */
  method ThreeKeys(hash: HashFn) returns (t: HashTable)
    ensures fresh(t) && t.Valid() && t.loadFactor == 0.75
    ensures t.Contents == map[1 := "a", 2 := "b", 3 := "c"]
    ensures t.Size() == 3 && t.Capacity() == 8
  {
    t := TwoKeys(hash);
    t.Put(3, "c");
  }

  /**
   * The fourth key of the worked example: 4 / 8 stays below 0.75, so the
   * capacity stays 8, and the first and the last key keep their values.
   */
  method WorkedExample(hash: HashFn) returns (size: int, capacity: int, found1: Option<string>, found4: Option<string>)
    ensures size == 4 && capacity == 8
    ensures found1 == Some("a") && found4 == Some("d")
  {
    var t := ThreeKeys(hash);
    t.Put(4, "d");
    size := t.Size();
    capacity := t.Capacity();
    found1 := t.Search(1);
    found4 := t.Search(4);
  }

  /**
   * The input of `AsWritten.ResizeLosesKeyExample` given to the corrected
   * table, under any hashing function: one bucket, load factor 1, storing
   * 1 -> "a" resizes to two buckets and the key is still found.
   */
  method ResizeKeepsKey(hash: HashFn) returns (capacity: int, found: Option<string>)
    ensures capacity == 2 && found == Some("a")
  {
    var t := new HashTable(1, 1.0, hash);
    t.Put(1, "a");
    capacity := t.Capacity();
    found := t.Search(1);
  }

  /** Removing a present key returns its value and forgets it; removing it again returns none. */
  method RemoveTwice(hash: HashFn) returns (first: Option<string>, second: Option<string>, size: int)
    ensures first == Some("a") && second == None && size == 0
  {
    var t := new HashTable(4, 0.75, hash);
    t.Put(1, "a");
    first := t.Remove(1);
    second := t.Remove(1);
    size := t.Size();
  }
}
