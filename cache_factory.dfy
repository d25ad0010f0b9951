/**
 * Construction of a cache from an eviction policy. Only the LRU policy has an
 * implementation; any other policy is refused with a `CacheException`.
 */
module CacheFactory {
  import opened Wrappers
  import opened CacheErrors
  import opened LRUCaches

  /** The eviction policies a cache can be asked for. */
  datatype EvictionPolicy = LRU | FIFO

  /** The name of a policy, as the enum constant prints it. */
  function PolicyName(p: EvictionPolicy): (name: string)
    ensures name == "LRU" <==> p == LRU
    ensures name == "FIFO" <==> p == FIFO
  {
    match p
    case LRU => "LRU"
    case FIFO => "FIFO"
  }

  /**
   * `createCache(policy, capacity)`: a null policy is an illegal argument; LRU
   * builds a new LRU cache of that capacity, failing as its constructor does
   * on a capacity that is not positive; every other policy is unsupported.
   */
  method CreateCache<K(==), V>(policy: Option<EvictionPolicy>, capacity: int) returns (r: Result<LRUCache<K, V>, CacheError>)
    ensures policy.None? ==> r == Failure(IllegalArgument("policy is null"))
    ensures policy == Some(FIFO) ==> r == Failure(CacheException("Unsupported eviction policy: FIFO"))
    ensures policy == Some(LRU) && capacity <= 0 ==> r == Failure(IllegalArgument("capacity must be > 0"))
    ensures policy == Some(LRU) && 0 < capacity ==>
              && r.Success? && fresh(r.value) && fresh(r.value.list)
              && r.value.Valid() && r.value.capacity == capacity && r.value.Contents == []
    ensures r.Success? <==> policy == Some(LRU) && 0 < capacity
  {
    if policy.None? {
      return Failure(IllegalArgument("policy is null"));
    }
    match policy.value
    case LRU =>
      r := NewLRUCache(capacity);
    case FIFO =>
      var message := "Unsupported eviction policy: " + PolicyName(FIFO);
      assert message == "Unsupported eviction policy: FIFO";
      r := Failure(CacheException(message));
  }
}
