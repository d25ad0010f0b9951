/**
 * The abstract behaviour of an LRU cache: its contents are a sequence of
 * (key, value) pairs ordered from the most recently used (index 0) to the
 * least recently used (the last index). Every cache operation is a function
 * on that sequence, and the lemmas state what the cache promises about it.
 */
module LruSpec {
  import opened Wrappers

  /** No key occurs twice. */
  predicate DistinctKeys<K(==), V>(s: seq<(K, V)>)
  {
    forall i, j :: 0 <= i < j < |s| ==> s[i].0 != s[j].0
  }

  function KeysOf<K, V>(s: seq<(K, V)>): set<K>
  {
    set i | 0 <= i < |s| :: s[i].0
  }

  /** The value stored under `k`, if any. */
  function Find<K(==), V>(s: seq<(K, V)>, k: K): (r: Option<V>)
    ensures r.None? <==> k !in KeysOf(s)
    ensures r.Some? ==> (k, r.value) in s
  {
    if s == [] then None
    else if s[0].0 == k then Some(s[0].1)
    else
      var r := Find(s[1..], k);
      assert KeysOf(s) == {s[0].0} + KeysOf(s[1..]);
      assert r.Some? ==> (k, r.value) in s[1..];
      r
  }

  /** `s` without the pair for `k`, the other pairs in their original order. */
  function Drop<K(==), V>(s: seq<(K, V)>, k: K): (r: seq<(K, V)>)
    ensures KeysOf(r) == KeysOf(s) - {k}
    ensures |r| <= |s|
  {
    if s == [] then []
    else
      var rest := Drop(s[1..], k);
      KeysOfCons(s[0], s[1..]);
      assert [s[0]] + s[1..] == s;
      if s[0].0 == k then rest
      else
        KeysOfCons(s[0], rest);
        [s[0]] + rest
  }

  /** `s` without its least recently used pair. */
  function Evict<K, V>(s: seq<(K, V)>): seq<(K, V)>
  {
    if s == [] then [] else s[..|s| - 1]
  }

  /**
   * `put(k, v)`: an existing key gets its new value and moves to the front;
   * a new key goes to the front, after the least recently used pair has been
   * evicted when the cache already holds `capacity` pairs.
   */
  function Put<K(==), V>(s: seq<(K, V)>, capacity: int, k: K, v: V): seq<(K, V)>
  {
    if Find(s, k).Some? then [(k, v)] + Drop(s, k)
    else if |s| >= capacity then [(k, v)] + Evict(s)
    else [(k, v)] + s
  }

  /** The recency change of `get(k)`: a present key moves to the front. */
  function Touch<K(==), V>(s: seq<(K, V)>, k: K): seq<(K, V)>
  {
    match Find(s, k)
    case Some(v) => [(k, v)] + Drop(s, k)
    case None => s
  }

  // ---------------------------------------------------------------------
  // Facts about the sequence functions

  lemma {:induction false} KeysOfCons<K, V>(p: (K, V), s: seq<(K, V)>)
    ensures KeysOf([p] + s) == {p.0} + KeysOf(s)
  {
    var t := [p] + s;
    forall x | x in KeysOf(t) ensures x in {p.0} + KeysOf(s) {
      var i :| 0 <= i < |t| && t[i].0 == x;
      if i > 0 {
        assert t[i] == s[i - 1];
      }
    }
    forall x | x in KeysOf(s) ensures x in KeysOf(t) {
      var i :| 0 <= i < |s| && s[i].0 == x;
      assert t[i + 1] == s[i];
    }
    assert t[0] == p;
  }

  /** With distinct keys, `Find` returns the value paired with the key at any position. */
  lemma FindAt<K, V>(s: seq<(K, V)>, i: int)
    requires DistinctKeys(s) && 0 <= i < |s|
    ensures Find(s, s[i].0) == Some(s[i].1)
  {
  }

  lemma {:induction false} DropAbsent<K, V>(s: seq<(K, V)>, k: K)
    requires k !in KeysOf(s)
    ensures Drop(s, k) == s
  {
    if s != [] {
      assert s[0].0 in KeysOf(s);
      assert KeysOf(s[1..]) <= KeysOf(s) by {
        forall x | x in KeysOf(s[1..]) ensures x in KeysOf(s) {
          var j :| 0 <= j < |s[1..]| && s[1..][j].0 == x;
          assert s[j + 1].0 == x;
        }
      }
      DropAbsent(s[1..], k);
      assert s == [s[0]] + s[1..];
    }
  }

  lemma DistinctKeysTail<K, V>(s: seq<(K, V)>)
    requires DistinctKeys(s) && s != []
    ensures DistinctKeys(s[1..]) && s[0].0 !in KeysOf(s[1..])
  {
  }

  /** Removing a present key drops exactly its position and keeps the others in order. */
  lemma {:induction false} DropAt<K, V>(s: seq<(K, V)>, i: int)
    requires DistinctKeys(s) && 0 <= i < |s|
    ensures Drop(s, s[i].0) == s[..i] + s[i + 1..]
  {
    DistinctKeysTail(s);
    if i == 0 {
      DropAbsent(s[1..], s[0].0);
    } else {
      assert s[0].0 != s[i].0;
      assert s[1..][i - 1] == s[i];
      DropAt(s[1..], i - 1);
      assert s[1..][..i - 1] == s[1..i];
      assert s[1..][i..] == s[i + 1..];
      assert s[..i] == [s[0]] + s[1..i];
    }
  }

  /** Removing one position keeps the keys distinct. */
  lemma DistinctKeysWithout<K, V>(s: seq<(K, V)>, i: int)
    requires DistinctKeys(s) && 0 <= i < |s|
    ensures DistinctKeys(s[..i] + s[i + 1..])
  {
  }

  lemma DistinctKeysCons<K, V>(p: (K, V), s: seq<(K, V)>)
    requires DistinctKeys(s) && p.0 !in KeysOf(s)
    ensures DistinctKeys([p] + s)
  {
  }

  /** A key other than `k` finds the same value after `k` is dropped. */
  lemma {:induction false} FindDrop<K, V>(s: seq<(K, V)>, k: K, j: K)
    requires j != k
    ensures Find(Drop(s, k), j) == Find(s, j)
  {
    if s != [] {
      FindDrop(s[1..], k, j);
    }
  }

  lemma KeysOfPrefix<K, V>(s: seq<(K, V)>, n: int)
    requires 0 <= n <= |s|
    ensures KeysOf(s[..n]) <= KeysOf(s)
  {
  }

  /** `size() == map.size()`: with distinct keys, the number of pairs is the number of keys. */
  lemma {:induction false} KeysCount<K, V>(s: seq<(K, V)>)
    requires DistinctKeys(s)
    ensures |KeysOf(s)| == |s|
  {
    if s != [] {
      DistinctKeysTail(s);
      KeysCount(s[1..]);
      KeysOfCons(s[0], s[1..]);
      assert [s[0]] + s[1..] == s;
    }
  }

  /** The position of a present key. */
  lemma IndexOfKey<K, V>(s: seq<(K, V)>, k: K) returns (i: int)
    requires k in KeysOf(s)
    ensures 0 <= i < |s| && s[i].0 == k
  {
    i :| 0 <= i < |s| && s[i].0 == k;
  }

  // ---------------------------------------------------------------------
  // What the cache promises

  /** `put` keeps the keys distinct and the size within the capacity, and stores its key. */
  lemma PutKeepsInvariant<K, V>(s: seq<(K, V)>, capacity: int, k: K, v: V)
    requires DistinctKeys(s) && |s| <= capacity && 0 < capacity
    ensures DistinctKeys(Put(s, capacity, k, v))
    ensures 0 < |Put(s, capacity, k, v)| <= capacity
    ensures Put(s, capacity, k, v)[0] == (k, v)
  {
    var rest := Put(s, capacity, k, v)[1..];
    assert Put(s, capacity, k, v) == [(k, v)] + rest;
    if Find(s, k).Some? {
      var i := IndexOfKey(s, k);
      DropAt(s, i);
      DistinctKeysWithout(s, i);
    } else if |s| >= capacity {
      assert s != [];
      KeysOfPrefix(s, |s| - 1);
      DistinctKeysWithout(s, |s| - 1);
      assert s[..|s| - 1] + s[|s|..] == s[..|s| - 1];
    }
    DistinctKeysCons((k, v), rest);
  }

  /** Round trip: right after `put(k, v)`, `get(k)` returns `v` and leaves `k` most recently used. */
  lemma PutThenGet<K, V>(s: seq<(K, V)>, capacity: int, k: K, v: V)
    ensures Find(Put(s, capacity, k, v), k) == Some(v)
    ensures Touch(Put(s, capacity, k, v), k) == Put(s, capacity, k, v)
  {
    var t := Put(s, capacity, k, v);
    var rest := t[1..];
    assert t == [(k, v)] + rest;
    if Find(s, k).None? && |s| >= capacity && s != [] {
      KeysOfPrefix(s, |s| - 1);
    }
    assert k !in KeysOf(rest);
    DropAbsent(rest, k);
  }

  /**
   * `put` of a present key overwrites its value and moves it to the front:
   * nothing is evicted, the size and the key set stay, and the other pairs
   * keep their values and their relative order.
   */
  lemma PutExisting<K, V>(s: seq<(K, V)>, capacity: int, k: K, v: V)
    requires DistinctKeys(s) && k in KeysOf(s)
    ensures |Put(s, capacity, k, v)| == |s|
    ensures KeysOf(Put(s, capacity, k, v)) == KeysOf(s)
    ensures Drop(Put(s, capacity, k, v), k) == Drop(s, k)
    ensures forall j :: j != k ==> Find(Put(s, capacity, k, v), j) == Find(s, j)
  {
    var i := IndexOfKey(s, k);
    DropAt(s, i);
    KeysOfCons((k, v), Drop(s, k));
    DropAbsent(Drop(s, k), k);
    forall j | j != k ensures Find(Put(s, capacity, k, v), j) == Find(s, j) {
      FindDrop(s, k, j);
    }
  }

  /**
   * `put` of a new key into a full cache evicts exactly the least recently
   * used pair (the last one) and puts the new pair in front of the rest.
   */
  lemma PutNewWhenFull<K, V>(s: seq<(K, V)>, capacity: int, k: K, v: V)
    requires DistinctKeys(s) && k !in KeysOf(s) && 0 < capacity <= |s|
    ensures Put(s, capacity, k, v) == [(k, v)] + s[..|s| - 1]
    ensures KeysOf(Put(s, capacity, k, v)) == KeysOf(s) - {s[|s| - 1].0} + {k}
    ensures Find(Put(s, capacity, k, v), s[|s| - 1].0) == None
  {
    var last := |s| - 1;
    DropAt(s, last);
    assert s[..last] + s[last + 1..] == s[..last];
    KeysOfCons((k, v), s[..last]);
    assert s[last].0 in KeysOf(s);
  }

  /** `put` of a new key with room to spare evicts nothing. */
  lemma PutNewWithRoom<K, V>(s: seq<(K, V)>, capacity: int, k: K, v: V)
    requires k !in KeysOf(s) && |s| < capacity
    ensures Put(s, capacity, k, v) == [(k, v)] + s
    ensures KeysOf(Put(s, capacity, k, v)) == KeysOf(s) + {k}
  {
    KeysOfCons((k, v), s);
  }

  /** Eviction happens exactly when a new key arrives at a full cache. */
  lemma EvictsOnlyWhenFull<K, V>(s: seq<(K, V)>, capacity: int, k: K, v: V)
    requires DistinctKeys(s) && 0 < capacity
    ensures KeysOf(s) <= KeysOf(Put(s, capacity, k, v)) <==> (k in KeysOf(s) || |s| < capacity)
  {
    if k in KeysOf(s) {
      PutExisting(s, capacity, k, v);
    } else if |s| < capacity {
      PutNewWithRoom(s, capacity, k, v);
    } else {
      PutNewWhenFull(s, capacity, k, v);
      assert s[|s| - 1].0 in KeysOf(s);
    }
  }

  /**
   * `get` of a present key moves it to the front with its value; the key
   * set, every value and the relative order of the other pairs stay.
   */
  lemma GetPresent<K, V>(s: seq<(K, V)>, k: K)
    requires DistinctKeys(s) && k in KeysOf(s)
    ensures Touch(s, k)[0] == (k, Find(s, k).value)
    ensures |Touch(s, k)| == |s| && KeysOf(Touch(s, k)) == KeysOf(s)
    ensures Drop(Touch(s, k), k) == Drop(s, k)
    ensures forall j :: Find(Touch(s, k), j) == Find(s, j)
    ensures DistinctKeys(Touch(s, k))
  {
    var v := Find(s, k).value;
    PutExisting(s, |s|, k, v);
    PutKeepsInvariant(s, |s|, k, v);
    assert Touch(s, k) == Put(s, |s|, k, v);
  }

  /** `get` of an absent key changes nothing. */
  lemma GetAbsent<K, V>(s: seq<(K, V)>, k: K)
    requires k !in KeysOf(s)
    ensures Find(s, k) == None && Touch(s, k) == s
  {
  }

  /**
   * `remove` of a present key drops exactly its pair, keeping the others in
   * order; of an absent key, it changes nothing.
   */
  lemma RemoveKeepsOrder<K, V>(s: seq<(K, V)>, k: K)
    requires DistinctKeys(s)
    ensures DistinctKeys(Drop(s, k)) && Find(Drop(s, k), k) == None
    ensures forall i :: 0 <= i < |s| && s[i].0 == k ==> Drop(s, k) == s[..i] + s[i + 1..]
    ensures k !in KeysOf(s) ==> Drop(s, k) == s
    ensures forall j :: j != k ==> Find(Drop(s, k), j) == Find(s, j)
  {
    if k in KeysOf(s) {
      var i := IndexOfKey(s, k);
      DropAt(s, i);
      DistinctKeysWithout(s, i);
    } else {
      DropAbsent(s, k);
    }
    forall j | j != k ensures Find(Drop(s, k), j) == Find(s, j) {
      FindDrop(s, k, j);
    }
  }

  /**
   * A key just read survives the next eviction: after `get(k)`, a `put` of a
   * new key into a full cache of capacity at least 2 keeps `k`.
   */
  lemma GetProtectsFromEviction<K, V>(s: seq<(K, V)>, capacity: int, k: K, k': K, v': V)
    requires DistinctKeys(s) && k in KeysOf(s) && k' != k && 2 <= capacity
    ensures k in KeysOf(Put(Touch(s, k), capacity, k', v'))
  {
    GetPresent(s, k);
    var t := Touch(s, k);
    var u := Put(t, capacity, k', v');
    if Find(t, k').Some? {
      PutExisting(t, capacity, k', v');
    } else if |t| >= capacity {
      assert u == [(k', v')] + t[..|t| - 1];
      assert u[1] == t[0];
    } else {
      assert u[1] == t[0];
    }
  }

  /** With capacity 1, putting a key leaves that key alone in the cache. */
  lemma CapacityOne<K, V>(s: seq<(K, V)>, k: K, v: V)
    requires |s| <= 1
    ensures Put(s, 1, k, v) == [(k, v)]
  {
  }
}
