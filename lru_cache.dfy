/**
 * The LRU cache: a hash map from keys to entries, for constant-time lookup,
 * plus the recency list of the same entries, for constant-time reordering and
 * eviction. The ghost sequence `Contents` is what the cache holds, as (key,
 * value) pairs from the most to the least recently used; every method is
 * proved to change it exactly as the matching function of `LruSpec` does.
 */
module LRUCaches {
  import opened Wrappers
  import opened CacheErrors
  import opened CacheEntries
  import opened DoublyLinkedLists
  import opened LruSpec

  /**
   * `m` sends every key held to the entry at that key's position in `nodes`
   * and holds no other key; the entries carry the keys of `contents`.
   */
  ghost predicate Indexes<K, V>(m: map<K, CacheEntry<K, V>>, nodes: seq<CacheEntry<K, V>>, contents: seq<(K, V)>)
  {
    && |contents| == |nodes|
    && m.Keys == KeysOf(contents)
    && (forall i :: 0 <= i < |nodes| ==> nodes[i].key == contents[i].0 && contents[i].0 in m && m[contents[i].0] == nodes[i])
  }

  /** Every entry holds the value of the pair at its position. */
  ghost predicate HoldValues<K, V>(nodes: seq<CacheEntry<K, V>>, contents: seq<(K, V)>)
    reads nodes`value
  {
    |contents| == |nodes| && forall i :: 0 <= i < |nodes| ==> nodes[i].value == contents[i].1
  }

  /** Distinct entries indexed by a map carry distinct keys. */
  lemma IndexesDistinctKeys<K, V>(m: map<K, CacheEntry<K, V>>, nodes: seq<CacheEntry<K, V>>, contents: seq<(K, V)>)
    requires Indexes(m, nodes, contents) && Distinct(nodes)
    ensures DistinctKeys(contents)
  {
  }

  /** Taking one entry out of the list and its key out of the map keeps the two in step. */
  lemma IndexesWithout<K, V>(m: map<K, CacheEntry<K, V>>, nodes: seq<CacheEntry<K, V>>, contents: seq<(K, V)>, i: int)
    requires Indexes(m, nodes, contents) && 0 <= i < |nodes|
    requires forall j :: 0 <= j < |contents| && j != i ==> contents[j].0 != contents[i].0
    ensures Indexes(m - {contents[i].0}, nodes[..i] + nodes[i + 1..], contents[..i] + contents[i + 1..])
  {
    var n := nodes[..i] + nodes[i + 1..];
    var c := contents[..i] + contents[i + 1..];
    var m' := m - {contents[i].0};
    forall j | 0 <= j < |n| ensures n[j].key == c[j].0 && c[j].0 in m' && m'[c[j].0] == n[j] {
      var j' := if j < i then j else j + 1;
      assert n[j] == nodes[j'] && c[j] == contents[j'];
    }
    forall x | x in m'.Keys ensures x in KeysOf(c) {
      var j := IndexOfKey(contents, x);
      assert c[if j < i then j else j - 1] == contents[j];
    }
  }

  /** Putting an entry for a new key in front of the list and into the map keeps the two in step. */
  lemma IndexesCons<K, V>(m: map<K, CacheEntry<K, V>>, node: CacheEntry<K, V>, nodes: seq<CacheEntry<K, V>>, contents: seq<(K, V)>, v: V)
    requires Indexes(m, nodes, contents) && node.key !in m
    ensures Indexes(m[node.key := node], [node] + nodes, [(node.key, v)] + contents)
  {
    var n := [node] + nodes;
    var c := [(node.key, v)] + contents;
    KeysOfCons((node.key, v), contents);
    forall j | 0 < j < |n| ensures n[j].key == c[j].0 && m[node.key := node][c[j].0] == n[j] {
      assert n[j] == nodes[j - 1] && c[j] == contents[j - 1];
    }
  }

  /** Moving one entry to the front of the list, whatever its value, keeps the map in step. */
  lemma IndexesMoveToFront<K, V>(m: map<K, CacheEntry<K, V>>, nodes: seq<CacheEntry<K, V>>, contents: seq<(K, V)>, i: int, v: V)
    requires Indexes(m, nodes, contents) && 0 <= i < |nodes|
    ensures Indexes(m, [nodes[i]] + (nodes[..i] + nodes[i + 1..]), [(contents[i].0, v)] + (contents[..i] + contents[i + 1..]))
  {
    var n := [nodes[i]] + (nodes[..i] + nodes[i + 1..]);
    var c := [(contents[i].0, v)] + (contents[..i] + contents[i + 1..]);
    forall j | 0 < j < |n| ensures n[j].key == c[j].0 && c[j].0 in m && m[c[j].0] == n[j] {
      var j' := if j - 1 < i then j - 1 else j;
      assert n[j] == nodes[j'] && c[j] == contents[j'];
    }
    forall x | x in KeysOf(contents) ensures x in KeysOf(c) {
      var j := IndexOfKey(contents, x);
      assert c[if j < i then j + 1 else if j == i then 0 else j] == contents[j] || j == i;
    }
    forall x | x in KeysOf(c) ensures x in KeysOf(contents) {
      var j := IndexOfKey(c, x);
      var j' := if j == 0 then i else if j - 1 < i then j - 1 else j;
      assert contents[j'].0 == x;
    }
  }

  /**
   * In a valid cache, the key at position `i` is held at no other position,
   * and the map sends it to the `i`th entry of the list.
   */
  lemma KeyAt<K, V>(c: LRUCache<K, V>, i: int)
    requires c.Valid() && 0 <= i < |c.Contents|
    ensures forall j :: 0 <= j < |c.Contents| && j != i ==> c.Contents[j].0 != c.Contents[i].0 && c.list.Nodes[j] != c.list.Nodes[i]
    ensures c.Contents[i] == (c.list.Nodes[i].key, c.list.Nodes[i].value)
    ensures c.Contents[i].0 in c.entries && c.entries[c.Contents[i].0] == c.list.Nodes[i]
  {
    var N, C := c.list.Nodes, c.Contents;
    LinkedLinks(N);
    BackLinksDistinct(N);
    IndexesDistinctKeys(c.entries, N, C);
  }

  /**
   * Finding, dropping or erasing the pair at position `i` of a valid cache
   * concerns exactly that position, since its key and entry occur nowhere
   * else (`KeyAt`).
   */
  lemma Position<K, V>(c: LRUCache<K, V>, i: int)
    requires c.Valid() && 0 <= i < |c.Contents|
    ensures Erase(c.list.Nodes, c.list.Nodes[i]) == c.list.Nodes[..i] + c.list.Nodes[i + 1..]
    ensures Find(c.Contents, c.Contents[i].0) == Some(c.Contents[i].1)
    ensures Drop(c.Contents, c.Contents[i].0) == c.Contents[..i] + c.Contents[i + 1..]
  {
    var N, C := c.list.Nodes, c.Contents;
    LinkedLinks(N);
    BackLinksDistinct(N);
    IndexesDistinctKeys(c.entries, N, C);
    EraseAt(N, i);
    FindAt(C, i);
    DropAt(C, i);
  }

  /** The map of a valid cache holds one key per pair. */
  lemma CountKeys<K, V>(c: LRUCache<K, V>)
    requires c.Valid()
    ensures |c.entries| == |c.Contents|
  {
    LinkedLinks(c.list.Nodes);
    BackLinksDistinct(c.list.Nodes);
    IndexesDistinctKeys(c.entries, c.list.Nodes, c.Contents);
    KeysCount(c.Contents);
    assert |c.entries| == |c.entries.Keys|;
  }

  /**
   * The cache is valid once the entry at position `i` of its former list
   * `N` (holding pairs `C`, indexed by map `m`) has been unlinked and its
   * key taken out of the map.
   */
  lemma ValidAfterUnlink<K, V>(c: LRUCache<K, V>, m: map<K, CacheEntry<K, V>>, N: seq<CacheEntry<K, V>>, C: seq<(K, V)>, i: int)
    requires Indexes(m, N, C) && 0 <= i < |N| && |C| <= c.capacity && 0 < c.capacity
    requires forall j :: 0 <= j < |C| && j != i ==> C[j].0 != C[i].0
    requires forall j :: 0 <= j < |N| && j != i ==> N[j].value == C[j].1
    requires c.list.Valid() && c.list.Nodes == N[..i] + N[i + 1..]
    requires c.entries == m - {C[i].0} && c.Contents == C[..i] + C[i + 1..]
    ensures c.Valid()
  {
    IndexesWithout(m, N, C, i);
    forall j | 0 <= j < |N| - 1 ensures c.list.Nodes[j].value == c.Contents[j].1 {
      var j' := if j < i then j else j + 1;
      assert c.list.Nodes[j] == N[j'] && c.Contents[j] == C[j'];
    }
  }

  /** `ValidAfterUnlink`, stated between the states before and after the unlinking. */
  twostate lemma ValidAfterUnlink2<K, V>(new c: LRUCache<K, V>, i: int)
    requires old(allocated(c)) && old(c.Valid()) && 0 <= i < old(|c.Contents|)
    requires old(forall j :: 0 <= j < |c.Contents| && j != i ==> c.Contents[j].0 != c.Contents[i].0)
    requires forall j :: 0 <= j < old(|c.list.Nodes|) ==> old(c.list.Nodes[j]).value == old(c.list.Nodes[j].value)
    requires c.list.Valid() && c.list.Nodes == old(c.list.Nodes[..i] + c.list.Nodes[i + 1..])
    requires c.entries == old(c.entries - {c.Contents[i].0}) && c.Contents == old(c.Contents[..i] + c.Contents[i + 1..])
    ensures c.Valid()
    ensures forall i :: 0 <= i < |c.list.Nodes| ==> c.list.Nodes[i] in old(c.list.Nodes)
  {
    ValidAfterUnlink(c, old(c.entries), old(c.list.Nodes), old(c.Contents), i);
  }

  /** The cache is valid once its least recently used entry has been unlinked and its key taken out of the map. */
  lemma ValidAfterEvict<K, V>(c: LRUCache<K, V>, m: map<K, CacheEntry<K, V>>, N: seq<CacheEntry<K, V>>, C: seq<(K, V)>)
    requires Indexes(m, N, C) && 0 < |N| && |C| <= c.capacity && 0 < c.capacity
    requires forall j :: 0 <= j < |C| - 1 ==> C[j].0 != C[|C| - 1].0
    requires forall j :: 0 <= j < |N| - 1 ==> N[j].value == C[j].1
    requires c.list.Valid() && c.list.Nodes == N[..|N| - 1]
    requires c.entries == m - {C[|C| - 1].0} && c.Contents == C[..|C| - 1]
    ensures c.Valid()
  {
  }

  /** `ValidAfterEvict`, stated between the states before and after the eviction. */
  twostate lemma ValidAfterEvict2<K, V>(new c: LRUCache<K, V>)
    requires old(allocated(c)) && old(c.Valid()) && old(|c.Contents|) > 0
    requires old(forall j :: 0 <= j < |c.Contents| - 1 ==> c.Contents[j].0 != c.Contents[|c.Contents| - 1].0)
    requires forall j :: 0 <= j < old(|c.list.Nodes|) ==> old(c.list.Nodes[j]).value == old(c.list.Nodes[j].value)
    requires c.list.Valid() && c.list.Nodes == old(c.list.Nodes[..|c.list.Nodes| - 1])
    requires c.entries == old(c.entries - {c.Contents[|c.Contents| - 1].0}) && c.Contents == old(c.Contents[..|c.Contents| - 1])
    ensures c.Valid()
    ensures forall i :: 0 <= i < |c.list.Nodes| ==> c.list.Nodes[i] in old(c.list.Nodes)
  {
    ValidAfterEvict(c, old(c.entries), old(c.list.Nodes), old(c.Contents));
  }

  /**
   * The cache is valid once the entry at position `i` of its former list,
   * with its value possibly overwritten, has been moved to the front.
   */
  lemma ValidAfterMoveToFront<K, V>(c: LRUCache<K, V>, N: seq<CacheEntry<K, V>>, C: seq<(K, V)>, i: int)
    requires Indexes(c.entries, N, C) && 0 <= i < |N| && |C| <= c.capacity && 0 < c.capacity
    requires forall j :: 0 <= j < |N| && j != i ==> N[j].value == C[j].1
    requires c.list.Valid() && c.list.Nodes == [N[i]] + (N[..i] + N[i + 1..])
    requires c.Contents == [(C[i].0, N[i].value)] + (C[..i] + C[i + 1..])
    ensures c.Valid()
  {
    IndexesMoveToFront(c.entries, N, C, i, N[i].value);
    forall j | 0 < j < |N| ensures c.list.Nodes[j].value == c.Contents[j].1 {
      var j' := if j - 1 < i then j - 1 else j;
      assert c.list.Nodes[j] == N[j'] && c.Contents[j] == C[j'];
    }
  }

  /** `ValidAfterMoveToFront`, stated between the states before and after the move. */
  twostate lemma ValidAfterMoveToFront2<K, V>(new c: LRUCache<K, V>, i: int)
    requires old(allocated(c)) && old(c.Valid()) && 0 <= i < old(|c.Contents|)
    requires forall j :: 0 <= j < old(|c.list.Nodes|) && j != i ==> old(c.list.Nodes[j]).value == old(c.list.Nodes[j].value)
    requires c.entries == old(c.entries)
    requires c.list.Valid() && c.list.Nodes == old([c.list.Nodes[i]] + (c.list.Nodes[..i] + c.list.Nodes[i + 1..]))
    requires c.Contents == [(old(c.Contents[i].0), old(c.list.Nodes[i]).value)] + old(c.Contents[..i] + c.Contents[i + 1..])
    ensures c.Valid()
    ensures forall i :: 0 <= i < |c.list.Nodes| ==> c.list.Nodes[i] in old(c.list.Nodes)
  {
    ValidAfterMoveToFront(c, old(c.list.Nodes), old(c.Contents), i);
  }

  /** The cache is valid once an entry for a new key has been linked in front of a list with room to spare. */
  lemma ValidAfterAddFirst<K, V>(c: LRUCache<K, V>, m: map<K, CacheEntry<K, V>>, N: seq<CacheEntry<K, V>>, C: seq<(K, V)>, node: CacheEntry<K, V>)
    requires Indexes(m, N, C) && node.key !in m && |C| < c.capacity
    requires forall j :: 0 <= j < |N| ==> N[j].value == C[j].1
    requires c.list.Valid() && c.list.Nodes == [node] + N
    requires c.entries == m[node.key := node] && c.Contents == [(node.key, node.value)] + C
    ensures c.Valid()
  {
    IndexesCons(m, node, N, C, node.value);
    forall j | 0 < j < |N| + 1 ensures c.list.Nodes[j].value == c.Contents[j].1 {
      assert c.list.Nodes[j] == N[j - 1] && c.Contents[j] == C[j - 1];
    }
  }

  class LRUCache<K(==), V> {
    const capacity: int
    var entries: map<K, CacheEntry<K, V>>
    const list: DoublyLinkedList<K, V>
    /** What the cache holds, from the most to the least recently used. */
    ghost var Contents: seq<(K, V)>

    /**
     * The capacity is positive and never exceeded; the list is well formed;
     * the list's entries, the map and `Contents` describe the same pairs.
     */
    ghost predicate Valid()
      reads this, list, list.Nodes
    {
      && 0 < capacity
      && list.Valid()
      && |Contents| <= capacity
      && Indexes(entries, list.Nodes, Contents)
      && HoldValues(list.Nodes, Contents)
    }

    /** A cache of the given capacity, empty. */
    constructor (capacity: int)
      requires 0 < capacity
      ensures Valid() && fresh(list)
      ensures this.capacity == capacity && Contents == []
    {
      this.capacity := capacity;
      entries := map[];
      list := new DoublyLinkedList();
      Contents := [];
    }

    /**
     * Stores `value` under `key` and makes `key` the most recently used,
     * evicting the least recently used pair when a new key finds the cache
     * full. A null key throws and changes nothing.
     */
    method Put(key: Option<K>, value: V) returns (r: Result<(), CacheError>)
      requires Valid()
      modifies this, list, list.Nodes
      ensures Valid()
      ensures key.None? ==> r == Failure(NullPointer("key is null")) && Contents == old(Contents)
      ensures key.Some? ==> r == Success(()) && Contents == LruSpec.Put(old(Contents), capacity, key.value, value)
      ensures forall i :: 0 <= i < |list.Nodes| ==> list.Nodes[i] in old(list.Nodes) || fresh(list.Nodes[i])
    {
      if key.None? {
        return Failure(NullPointer("key is null"));
      }
      var k := key.value;
      if k in entries {
        Update(k, value);
      } else {
        ghost var C := Contents;
        CountKeys(this);
        if |entries| >= capacity {
          Evict();
          KeysOfPrefix(C, |C| - 1);
        }
        Insert(k, value);
      }
      r := Success(());
    }

    /** `put` of a key already held: its entry takes the new value and moves to the front. */
    method Update(k: K, value: V)
      requires Valid() && k in entries
      modifies this, list, list.Nodes
      ensures Valid()
      ensures Contents == [(k, value)] + Drop(old(Contents), k)
      ensures forall i :: 0 <= i < |list.Nodes| ==> list.Nodes[i] in old(list.Nodes)
    {
      var node := entries[k];
      ghost var N, C := list.Nodes, Contents;
      ghost var i := IndexOfKey(C, k);
      KeyAt(this, i);
      Position(this, i);
      node.value := value;
      list.MoveToHead(node);
      Contents := [(k, value)] + (C[..i] + C[i + 1..]);
      ValidAfterMoveToFront2(this, i);
    }

    /** `put` of a new key into a cache with room: a fresh entry for it is linked in front. */
    method Insert(k: K, value: V)
      requires Valid() && k !in entries && |Contents| < capacity
      modifies this, list, list.Nodes
      ensures Valid()
      ensures Contents == [(k, value)] + old(Contents)
      ensures forall i :: 0 <= i < |list.Nodes| ==> list.Nodes[i] in old(list.Nodes) || fresh(list.Nodes[i])
    {
      ghost var m, N, C := entries, list.Nodes, Contents;
      var newNode := new CacheEntry(k, value);
      list.AddFirst(newNode);
      entries := entries[k := newNode];
      Contents := [(k, value)] + Contents;
      ValidAfterAddFirst(this, m, N, C, newNode);
    }

    /**
     * The value stored under `key`, if any; a hit makes `key` the most
     * recently used. A null key throws and changes nothing.
     */
    method Get(key: Option<K>) returns (r: Result<Option<V>, CacheError>)
      requires Valid()
      modifies this, list, list.Nodes
      ensures Valid()
      ensures key.None? ==> r == Failure(NullPointer("key is null")) && Contents == old(Contents)
      ensures key.Some? ==> r == Success(Find(old(Contents), key.value)) && Contents == Touch(old(Contents), key.value)
      ensures forall i :: 0 <= i < |list.Nodes| ==> list.Nodes[i] in old(list.Nodes)
    {
      if key.None? {
        return Failure(NullPointer("key is null"));
      }
      var k := key.value;
      if k !in entries {
        r := Success(None);
      } else {
        var v := Promote(k);
        r := Success(Some(v));
      }
    }

    /** `get` of a key held: its entry moves to the front and its value is returned. */
    method Promote(k: K) returns (v: V)
      requires Valid() && k in entries
      modifies this, list, list.Nodes
      ensures Valid()
      ensures Find(old(Contents), k) == Some(v) && Contents == Touch(old(Contents), k)
      ensures forall i :: 0 <= i < |list.Nodes| ==> list.Nodes[i] in old(list.Nodes)
    {
      ghost var C := Contents;
      ghost var i := IndexOfKey(C, k);
      KeyAt(this, i);
      Position(this, i);
      var node := entries[k];
      list.MoveToHead(node);
      Contents := [(k, node.value)] + (C[..i] + C[i + 1..]);
      ValidAfterMoveToFront2(this, i);
      v := node.value;
    }

    /**
     * Takes `key` and its value out of the cache and returns the value, if
     * any. A null key throws and changes nothing.
     */
    method Remove(key: Option<K>) returns (r: Result<Option<V>, CacheError>)
      requires Valid()
      modifies this, list, list.Nodes
      ensures Valid()
      ensures key.None? ==> r == Failure(NullPointer("key is null")) && Contents == old(Contents)
      ensures key.Some? ==> r == Success(Find(old(Contents), key.value)) && Contents == Drop(old(Contents), key.value)
      ensures forall i :: 0 <= i < |list.Nodes| ==> list.Nodes[i] in old(list.Nodes)
    {
      if key.None? {
        return Failure(NullPointer("key is null"));
      }
      var k := key.value;
      if k !in entries {
        DropAbsent(Contents, k);
        r := Success(None);
      } else {
        var v := Delete(k);
        r := Success(Some(v));
      }
    }

    /** `remove` of a key held: its key leaves the map, its entry is unlinked and its value returned. */
    method Delete(k: K) returns (v: V)
      requires Valid() && k in entries
      modifies this, list, list.Nodes
      ensures Valid()
      ensures Find(old(Contents), k) == Some(v) && Contents == Drop(old(Contents), k)
      ensures forall i :: 0 <= i < |list.Nodes| ==> list.Nodes[i] in old(list.Nodes)
    {
      ghost var C := Contents;
      ghost var i := IndexOfKey(C, k);
      KeyAt(this, i);
      Position(this, i);
      var node := entries[k];
      entries := entries - {k};
      list.Remove(node);
      Contents := C[..i] + C[i + 1..];
      ValidAfterUnlink2(this, i);
      v := node.value;
    }

    /** The number of pairs held, which never exceeds the capacity. */
    method Size() returns (n: int)
      requires Valid()
      ensures n == |Contents| && 0 <= n <= capacity
    {
      CountKeys(this);
      n := |entries|;
    }

    method Capacity() returns (n: int)
      requires Valid()
      ensures n == capacity && 0 < n
    {
      n := capacity;
    }

    /** Empties the cache; the capacity stays. */
    method Clear()
      requires Valid()
      modifies this, list
      ensures Valid() && Contents == []
    {
      entries := map[];
      list.Clear();
      Contents := [];
    }

    /** Drops the least recently used pair, if there is one. */
    method Evict()
      requires Valid()
      modifies this, list, list.Nodes
      ensures Valid()
      ensures Contents == LruSpec.Evict(old(Contents))
      ensures list.Nodes == if old(list.Nodes) == [] then [] else old(list.Nodes)[..|old(list.Nodes)| - 1]
      ensures forall i :: 0 <= i < |list.Nodes| ==> list.Nodes[i] in old(list.Nodes)
    {
      ghost var C := Contents;
      if C != [] {
        KeyAt(this, |C| - 1);
      }
      var tail := list.RemoveTail();
      if tail != null {
        entries := entries - {tail.key};
        Contents := C[..|C| - 1];
        ValidAfterEvict2(this);
      }
    }
  }

  /** `new LRUCache<>(capacity)`, which throws unless the capacity is positive. */
  method NewLRUCache<K(==), V>(capacity: int) returns (r: Result<LRUCache<K, V>, CacheError>)
    ensures capacity <= 0 ==> r == Failure(IllegalArgument("capacity must be > 0"))
    ensures 0 < capacity ==>
              && r.Success? && fresh(r.value) && fresh(r.value.list)
              && r.value.Valid() && r.value.capacity == capacity && r.value.Contents == []
  {
    if capacity <= 0 {
      return Failure(IllegalArgument("capacity must be > 0"));
    }
    var cache := new LRUCache(capacity);
    return Success(cache);
  }
}
