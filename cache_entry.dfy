/** The node of the recency list: one key/value slot and its two links. */
module CacheEntries {

  class CacheEntry<K, V> {
    /** The key never changes once the entry exists. */
    const key: K
    /** The value is overwritten in place when an existing key is put again. */
    var value: V
    var prev: CacheEntry?<K, V>
    var next: CacheEntry?<K, V>

    /** An entry that sits in no list. */
    predicate Unlinked()
      reads this
    {
      prev == null && next == null
    }

    constructor (key: K, value: V)
      ensures this.key == key && this.value == value
      ensures Unlinked()
    {
      this.key := key;
      this.value := value;
      prev := null;
      next := null;
    }
  }
}
