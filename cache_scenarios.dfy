/**
 * The usage scenarios of the cache's unit tests, run against the cache class
 * itself: each method follows the test's calls on a new cache and states
 * what the test expects to read back.
 */
module CacheScenarios {
  import opened Wrappers
  import opened CacheErrors
  import opened LruSpec
  import opened LRUCaches

  /** A fresh cache of capacity 3: after `put("a", 1)`, `get("a")` returns 1 and the size is 1. */
  method PutAndGet() returns (v: Result<Option<int>, CacheError>, n: int)
    ensures v == Success(Some(1)) && n == 1
  {
    var cache := new LRUCache<string, int>(3);
    var _ := cache.Put(Some("a"), 1);
    assert cache.Contents == [("a", 1)];
    v := cache.Get(Some("a"));
    n := cache.Size();
  }

  /** A null key makes both `put` and `get` throw a null-pointer error. */
  method NullKey() returns (put: Result<(), CacheError>, get: Result<Option<int>, CacheError>)
    ensures put.Failure? && put.error.NullPointer?
    ensures get.Failure? && get.error.NullPointer?
  {
    var cache := new LRUCache<string, int>(2);
    put := cache.Put(None, 1);
    get := cache.Get(None);
  }

  /** A cache built with capacity 2 reports capacity 2. */
  method CapacityIsKept() returns (n: int)
    ensures n == 2
  {
    var cache := new LRUCache<string, int>(2);
    n := cache.Capacity();
  }

  /**
   * In a cache of capacity 2 holding a and b, reading a leaves b least
   * recently used, so putting c evicts b and keeps a and c.
   */
  method EvictLeastRecentlyUsed() returns (a: Result<Option<int>, CacheError>, b: Result<Option<int>, CacheError>, c: Result<Option<int>, CacheError>, n: int)
    ensures a == Success(Some(1)) && b == Success(None) && c == Success(Some(3)) && n == 2
  {
    var cache := new LRUCache<string, int>(2);
    PutAB(cache);
    GetAPutC(cache);
    a, b, c, n := ReadABC(cache);
  }

  /** `put("a", 1)`, then `put("b", 2)`, on an empty cache of capacity 2. */
  method PutAB(cache: LRUCache<string, int>)
    requires cache.Valid() && cache.capacity == 2 && cache.Contents == []
    modifies cache, cache.list, cache.list.Nodes
    ensures cache.Valid() && cache.Contents == [("b", 2), ("a", 1)]
    ensures forall i :: 0 <= i < |cache.list.Nodes| ==> cache.list.Nodes[i] in old(cache.list.Nodes) || fresh(cache.list.Nodes[i])
  {
    EvictionSteps();
    var _ := cache.Put(Some("a"), 1);
    var _ := cache.Put(Some("b"), 2);
  }

  /** `get("a")`, then `put("c", 3)`, which evicts b. */
  method GetAPutC(cache: LRUCache<string, int>)
    requires cache.Valid() && cache.capacity == 2 && cache.Contents == [("b", 2), ("a", 1)]
    modifies cache, cache.list, cache.list.Nodes
    ensures cache.Valid() && cache.Contents == [("c", 3), ("a", 1)]
    ensures forall i :: 0 <= i < |cache.list.Nodes| ==> cache.list.Nodes[i] in old(cache.list.Nodes) || fresh(cache.list.Nodes[i])
  {
    EvictionSteps();
    var _ := cache.Get(Some("a"));
    var _ := cache.Put(Some("c"), 3);
  }

  /** Reads a, b and c back, and the size, from a cache holding c and a. */
  method ReadABC(cache: LRUCache<string, int>) returns (a: Result<Option<int>, CacheError>, b: Result<Option<int>, CacheError>, c: Result<Option<int>, CacheError>, n: int)
    requires cache.Valid() && cache.Contents == [("c", 3), ("a", 1)]
    modifies cache, cache.list, cache.list.Nodes
    ensures a == Success(Some(1)) && b == Success(None) && c == Success(Some(3)) && n == 2
  {
    EvictionSteps();
    a := cache.Get(Some("a"));
    b := cache.Get(Some("b"));
    c := cache.Get(Some("c"));
    n := cache.Size();
  }

  /** The abstract contents after each call of `EvictLeastRecentlyUsed`. */
  lemma EvictionSteps()
    ensures Put([], 2, "a", 1) == [("a", 1)]
    ensures Put([("a", 1)], 2, "b", 2) == [("b", 2), ("a", 1)]
    ensures Touch([("b", 2), ("a", 1)], "a") == [("a", 1), ("b", 2)]
    ensures Put([("a", 1), ("b", 2)], 2, "c", 3) == [("c", 3), ("a", 1)]
    ensures Find([("c", 3), ("a", 1)], "a") == Some(1) && Touch([("c", 3), ("a", 1)], "a") == [("a", 1), ("c", 3)]
    ensures Find([("a", 1), ("c", 3)], "b") == None && Touch([("a", 1), ("c", 3)], "b") == [("a", 1), ("c", 3)]
    ensures Find([("a", 1), ("c", 3)], "c") == Some(3)
  {
  }

  /**
   * In a cache of capacity 2 holding x and y, putting x again updates its
   * value and leaves y least recently used, so putting z evicts y.
   */
  method UpdateExistingKey() returns (x: Result<Option<string>, CacheError>, y: Result<Option<string>, CacheError>, z: Result<Option<string>, CacheError>)
    ensures x == Success(Some("X2")) && y == Success(None) && z == Success(Some("Z"))
  {
    var cache := new LRUCache<string, string>(2);
    PutXY(cache);
    PutXAgainPutZ(cache);
    x, y, z := ReadXYZ(cache);
  }

  /** `put("x", "X")`, then `put("y", "Y")`, on an empty cache of capacity 2. */
  method PutXY(cache: LRUCache<string, string>)
    requires cache.Valid() && cache.capacity == 2 && cache.Contents == []
    modifies cache, cache.list, cache.list.Nodes
    ensures cache.Valid() && cache.Contents == [("y", "Y"), ("x", "X")]
    ensures forall i :: 0 <= i < |cache.list.Nodes| ==> cache.list.Nodes[i] in old(cache.list.Nodes) || fresh(cache.list.Nodes[i])
  {
    UpdateSteps();
    var _ := cache.Put(Some("x"), "X");
    var _ := cache.Put(Some("y"), "Y");
  }

  /** `put("x", "X2")`, which updates x in place, then `put("z", "Z")`, which evicts y. */
  method PutXAgainPutZ(cache: LRUCache<string, string>)
    requires cache.Valid() && cache.capacity == 2 && cache.Contents == [("y", "Y"), ("x", "X")]
    modifies cache, cache.list, cache.list.Nodes
    ensures cache.Valid() && cache.Contents == [("z", "Z"), ("x", "X2")]
    ensures forall i :: 0 <= i < |cache.list.Nodes| ==> cache.list.Nodes[i] in old(cache.list.Nodes) || fresh(cache.list.Nodes[i])
  {
    UpdateSteps();
    var _ := cache.Put(Some("x"), "X2");
    var _ := cache.Put(Some("z"), "Z");
  }

  /** Reads x, y and z back from a cache holding z and x. */
  method ReadXYZ(cache: LRUCache<string, string>) returns (x: Result<Option<string>, CacheError>, y: Result<Option<string>, CacheError>, z: Result<Option<string>, CacheError>)
    requires cache.Valid() && cache.Contents == [("z", "Z"), ("x", "X2")]
    modifies cache, cache.list, cache.list.Nodes
    ensures x == Success(Some("X2")) && y == Success(None) && z == Success(Some("Z"))
  {
    UpdateSteps();
    x := cache.Get(Some("x"));
    y := cache.Get(Some("y"));
    z := cache.Get(Some("z"));
  }

  /** The abstract contents after each call of `UpdateExistingKey`. */
  lemma UpdateSteps()
    ensures Put([], 2, "x", "X") == [("x", "X")]
    ensures Put([("x", "X")], 2, "y", "Y") == [("y", "Y"), ("x", "X")]
    ensures Put([("y", "Y"), ("x", "X")], 2, "x", "X2") == [("x", "X2"), ("y", "Y")]
    ensures Put([("x", "X2"), ("y", "Y")], 2, "z", "Z") == [("z", "Z"), ("x", "X2")]
    ensures Find([("z", "Z"), ("x", "X2")], "x") == Some("X2") && Touch([("z", "Z"), ("x", "X2")], "x") == [("x", "X2"), ("z", "Z")]
    ensures Find([("x", "X2"), ("z", "Z")], "y") == None && Touch([("x", "X2"), ("z", "Z")], "y") == [("x", "X2"), ("z", "Z")]
    ensures Find([("x", "X2"), ("z", "Z")], "z") == Some("Z")
  {
  }

  /** A cache of capacity 1 keeps only the last key put. */
  method CapacityOne() returns (first: Result<Option<int>, CacheError>, one: Result<Option<int>, CacheError>, two: Result<Option<int>, CacheError>)
    ensures first == Success(Some(1)) && one == Success(None) && two == Success(Some(2))
  {
    var cache := new LRUCache<int, int>(1);
    var _ := cache.Put(Some(1), 1);
    first := cache.Get(Some(1));
    var _ := cache.Put(Some(2), 2);
    assert cache.Contents == [(2, 2)];
    one := cache.Get(Some(1));
    two := cache.Get(Some(2));
  }

  /**
   * Removing a from a cache holding a and b returns 1, after which a is
   * absent; clearing the cache then leaves it empty.
   */
  method RemoveAndClear() returns (removed: Result<Option<int>, CacheError>, a: Result<Option<int>, CacheError>, n: int)
    ensures removed == Success(Some(1)) && a == Success(None) && n == 0
  {
    var cache := new LRUCache<string, int>(3);
    var _ := cache.Put(Some("a"), 1);
    var _ := cache.Put(Some("b"), 2);
    assert cache.Contents == [("b", 2), ("a", 1)];
    removed := cache.Remove(Some("a"));
    assert cache.Contents == [("b", 2)];
    a := cache.Get(Some("a"));
    cache.Clear();
    n := cache.Size();
  }
}
