/**
 * The recency list: a doubly linked chain of entries from the most recently
 * used (head) to the least recently used (tail). Every operation rewires
 * `head`, `tail`, `size` and the entries' `prev`/`next` links in place and
 * takes constant time; the ghost sequence `Nodes` is the chain read from head
 * to tail.
 */
module DoublyLinkedLists {
  import opened CacheEntries

  /** No element occurs twice. */
  ghost predicate Distinct<T>(s: seq<T>)
  {
    forall i, j :: 0 <= i < j < |s| ==> s[i] != s[j]
  }

  /** `s` without any occurrence of `x`, the others in their original order. */
  function Erase<T(==)>(s: seq<T>, x: T): (r: seq<T>)
    ensures |r| <= |s|
  {
    if s == [] then []
    else if s[0] == x then Erase(s[1..], x)
    else [s[0]] + Erase(s[1..], x)
  }

  lemma {:induction false} EraseAbsent<T>(s: seq<T>, x: T)
    requires x !in s
    ensures Erase(s, x) == s
  {
    if s != [] {
      EraseAbsent(s[1..], x);
      assert s == [s[0]] + s[1..];
    }
  }

  /** Erasing an element of a list without repetitions drops exactly its one position. */
  lemma {:induction false} EraseAt<T>(s: seq<T>, i: int)
    requires Distinct(s) && 0 <= i < |s|
    ensures Erase(s, s[i]) == s[..i] + s[i + 1..]
    ensures |Erase(s, s[i])| == |s| - 1
  {
    if i == 0 {
      assert s[0] !in s[1..];
      EraseAbsent(s[1..], s[0]);
    } else {
      assert s[0] != s[i];
      EraseAt(s[1..], i - 1);
      assert s[1..][..i - 1] == s[1..i];
      assert s[1..][i..] == s[i + 1..];
      assert s[..i] == [s[0]] + s[1..i];
    }
  }

  /** Erasing the first element of a list without repetitions leaves the rest. */
  lemma EraseHead<T>(s: seq<T>)
    requires Distinct(s) && s != []
    ensures [s[0]] + Erase(s, s[0]) == s
  {
    assert s[0] !in s[1..];
    EraseAbsent(s[1..], s[0]);
    assert [s[0]] + s[1..] == s;
  }

  lemma DistinctWithout<T>(s: seq<T>, i: int)
    requires Distinct(s) && 0 <= i < |s|
    ensures Distinct(s[..i] + s[i + 1..])
  {
  }

  /**
   * Neighbours in `nodes` point at each other: the `next` of each entry is
   * the entry after it, whose `prev` is that entry.
   */
  ghost predicate Linked<K, V>(nodes: seq<CacheEntry<K, V>>)
    reads nodes`prev, nodes`next
    decreases |nodes|
  {
    |nodes| < 2 || (nodes[0].next == nodes[1] && nodes[1].prev == nodes[0] && Linked(nodes[1..]))
  }

  /** The links of `Linked`, position by position. */
  ghost predicate Links<K, V>(nodes: seq<CacheEntry<K, V>>)
    reads nodes`prev, nodes`next
  {
    && (forall i {:trigger nodes[i].next} :: 0 <= i < |nodes| - 1 ==> nodes[i].next == nodes[i + 1])
    && (forall i {:trigger nodes[i].prev} :: 0 < i < |nodes| ==> nodes[i].prev == nodes[i - 1])
  }

  lemma {:induction false} LinkedLinks<K, V>(nodes: seq<CacheEntry<K, V>>)
    ensures Linked(nodes) <==> Links(nodes)
    decreases |nodes|
  {
    if |nodes| >= 2 {
      var t := nodes[1..];
      LinkedLinks(t);
      if Links(nodes) {
        forall i | 0 <= i < |t| - 1 ensures t[i].next == t[i + 1] {
          assert nodes[i + 1].next == nodes[i + 2];
        }
        forall i | 0 < i < |t| ensures t[i].prev == t[i - 1] {
          assert nodes[i + 1].prev == nodes[i];
        }
        assert nodes[0].next == nodes[1] && nodes[1].prev == nodes[0];
      }
      if Linked(nodes) {
        forall i | 0 <= i < |nodes| - 1 ensures nodes[i].next == nodes[i + 1] {
          if i > 0 {
            assert t[i - 1].next == t[i];
          }
        }
        forall i | 0 < i < |nodes| ensures nodes[i].prev == nodes[i - 1] {
          if i > 1 {
            assert t[i - 1].prev == t[i - 2];
          }
        }
      }
    }
  }

  /**
   * Backward links alone rule out repeats: when the first entry has no
   * predecessor and every other entry points back at the one before it, no
   * entry occurs twice.
   */
  lemma {:induction false} BackLinksDistinct<K, V>(N: seq<CacheEntry<K, V>>)
    requires N != [] ==> N[0].prev == null
    requires forall i {:trigger N[i].prev} :: 0 < i < |N| ==> N[i].prev == N[i - 1]
    ensures Distinct(N)
  {
    forall a, b | 0 <= a < b < |N| ensures N[a] != N[b] {
      BackLinksApart(N, a, b);
    }
  }

  lemma {:induction false} BackLinksApart<K, V>(N: seq<CacheEntry<K, V>>, a: int, b: int)
    requires N != [] ==> N[0].prev == null
    requires forall i {:trigger N[i].prev} :: 0 < i < |N| ==> N[i].prev == N[i - 1]
    requires 0 <= a < b < |N|
    ensures N[a] != N[b]
    decreases a
  {
    assert N[b].prev == N[b - 1];
    if a > 0 {
      assert N[a].prev == N[a - 1];
      BackLinksApart(N, a - 1, b - 1);
    }
  }

  /**
   * The links of a valid list after the entry at position `i` has been spliced
   * out: its neighbours point at each other and no other entry's links changed.
   */
  twostate lemma UnlinkKeepsChain<K, V>(new l: DoublyLinkedList<K, V>, new N: seq<CacheEntry<K, V>>, i: int)
    requires old(allocated(l)) && old(allocated(N))
    requires old(l.Valid()) && old(l.Nodes) == N && old(Links(N)) && Distinct(N) && 0 <= i < |N|
    requires forall o: CacheEntry<K, V> | old(allocated(o)) && o != N[i] && (i == 0 || o != N[i - 1]) && (i + 1 == |N| || o != N[i + 1]) ::
               o.prev == old(o.prev) && o.next == old(o.next)
    requires i > 0 ==> N[i - 1].next == (if i + 1 < |N| then N[i + 1] else null) && N[i - 1].prev == old(N[i - 1].prev)
    requires i + 1 < |N| ==> N[i + 1].prev == (if i > 0 then N[i - 1] else null) && N[i + 1].next == old(N[i + 1].next)
    requires l.Nodes == N[..i] + N[i + 1..] && l.size == |N| - 1
    requires l.head == (if i == 0 then (if |N| > 1 then N[1] else null) else N[0])
    requires l.tail == (if i == |N| - 1 then (if i > 0 then N[i - 1] else null) else N[|N| - 1])
    ensures l.Valid()
  {
    DistinctWithout(N, i);
    var M := l.Nodes;
    forall j | 0 < j < |M|
      ensures M[j - 1].next == M[j] && M[j].prev == M[j - 1]
    {
      if j < i {
        assert M[j - 1] == N[j - 1] && M[j] == N[j];
        assert N[j - 1] != N[i - 1] && N[j - 1] != N[i];
        assert N[j] != N[i] && (i + 1 < |N| ==> N[j] != N[i + 1]);
      } else if j > i {
        assert M[j - 1] == N[i + 1..][j - 1 - i] == N[j];
        assert M[j] == N[i + 1..][j - i] == N[j + 1];
        assert N[j] != N[i] && (i > 0 ==> N[j] != N[i - 1]);
        assert N[j + 1] != N[i] && N[j + 1] != N[i + 1] && (i > 0 ==> N[j + 1] != N[i - 1]);
      } else {
        assert M[j - 1] == N[i - 1] && M[j] == N[i + 1];
      }
    }
    if M != [] {
      assert M[0] == if i == 0 then N[1] else N[0];
      assert M[|M| - 1] == if i == |N| - 1 then N[|N| - 2] else N[|N| - 1];
      assert M[0] != N[i] && M[|M| - 1] != N[i];
    }
    LinkedLinks(M);
  }

  class DoublyLinkedList<K, V> {
    /** Most recently used entry. */
    var head: CacheEntry?<K, V>
    /** Least recently used entry. */
    var tail: CacheEntry?<K, V>
    var size: int
    /** The chain from head to tail. */
    ghost var Nodes: seq<CacheEntry<K, V>>

    /**
     * The links form one chain without cycles: `head` and `tail` are its ends,
     * each entry's `prev` and `next` point at its neighbours in `Nodes`, and
     * `size` counts the entries.
     */
    ghost predicate Valid()
      reads this, Nodes`prev, Nodes`next
    {
      && size == |Nodes|
      && (if Nodes == [] then head == null && tail == null
          else head == Nodes[0] && tail == Nodes[|Nodes| - 1])
      && (Nodes != [] ==> Nodes[0].prev == null && Nodes[|Nodes| - 1].next == null)
      && Linked(Nodes)
    }

    constructor ()
      ensures Valid() && Nodes == []
    {
      head := null;
      tail := null;
      size := 0;
      Nodes := [];
    }

    method Size() returns (n: int)
      requires Valid()
      ensures n == |Nodes|
    {
      n := size;
    }

    /** Links an entry that is in no list in front of the current head. */
    method AddFirst(node: CacheEntry<K, V>)
      requires Valid() && node !in Nodes
      modifies this, node`prev, node`next, Nodes`prev
      ensures Valid()
      ensures Nodes == [node] + old(Nodes)
      ensures head == node && node.prev == null && size == old(size) + 1
      ensures old(Nodes) == [] ==> tail == node
      ensures old(Nodes) != [] ==> old(head).prev == node
    {
      ghost var old0 := Nodes;
      LinkedLinks(old0);
      assert forall j :: 0 <= j < |old0| ==> old0[j] != node;
      node.prev := null;
      node.next := head;
      if head != null {
        head.prev := node;
      }
      head := node;
      if tail == null {
        tail := head;
      }
      size := size + 1;
      Nodes := [node] + Nodes;
      LinkedLinks(Nodes);
    }

    /** Unlinks `node` wherever it is; a null node leaves the list alone. */
    method Remove(node: CacheEntry?<K, V>)
      requires Valid() && (node == null || node in Nodes)
      modifies this, Nodes`prev, Nodes`next
      ensures Valid()
      ensures node == null ==> Nodes == old(Nodes) && size == old(size)
      ensures node != null ==> Nodes == Erase(old(Nodes), node as CacheEntry<K, V>) && size == old(size) - 1
      ensures node != null ==> node.Unlinked()
    {
      if node == null {
        return;
      }
      ghost var i :| 0 <= i < |Nodes| && Nodes[i] == node;
      ghost var N := Nodes;
      LinkedLinks(N);
      BackLinksDistinct(N);
      var p := node.prev;
      var n := node.next;
      assert p == if i == 0 then null else N[i - 1];
      assert n == if i == |N| - 1 then null else N[i + 1];
      if p != null {
        p.next := n;
      } else {
        head := n;
      }
      if n != null {
        n.prev := p;
      } else {
        tail := p;
      }
      node.prev := null;
      node.next := null;
      size := size - 1;
      EraseAt(N, i);
      Nodes := N[..i] + N[i + 1..];
      UnlinkKeepsChain(this, N, i);
    }

    /** Makes `node` the head, keeping every other entry in its order. */
    method MoveToHead(node: CacheEntry<K, V>)
      requires Valid() && node in Nodes
      modifies this, Nodes`prev, Nodes`next
      ensures Valid()
      ensures Nodes == [node] + Erase(old(Nodes), node)
      ensures size == old(size)
    {
      LinkedLinks(Nodes);
      BackLinksDistinct(Nodes);
      if node == head {
        assert Nodes[0] == node;
        EraseHead(Nodes);
        return;
      }
      ghost var i :| 0 <= i < |Nodes| && Nodes[i] == node;
      ghost var N := Nodes;
      EraseAt(N, i);
      ghost var M := N[..i] + N[i + 1..];
      forall k | 0 <= k < |M| ensures M[k] in N && M[k] != node {
        var k' := if k < i then k else k + 1;
        assert M[k] == N[k'];
      }
      Remove(node);
      AddFirst(node);
    }

    /** Unlinks and returns the least recently used entry, or null when the list is empty. */
    method RemoveTail() returns (removed: CacheEntry?<K, V>)
      requires Valid()
      modifies this, Nodes`prev, Nodes`next
      ensures Valid()
      ensures old(Nodes) == [] ==> removed == null && Nodes == [] && unchanged(this)
      ensures old(Nodes) != [] ==>
                && removed == old(Nodes[|Nodes| - 1])
                && Nodes == old(Nodes[..|Nodes| - 1])
                && size == old(size) - 1
                && removed.Unlinked()
    {
      if tail == null {
        return null;
      }
      removed := tail;
      ghost var last := |Nodes| - 1;
      LinkedLinks(Nodes);
      BackLinksDistinct(Nodes);
      EraseAt(Nodes, last);
      Remove(removed);
      assert Nodes == old(Nodes[..|Nodes| - 1]);
    }

    /** Forgets every entry at once, without walking or unlinking them. */
    method Clear()
      requires Valid()
      modifies this
      ensures Valid()
      ensures Nodes == [] && head == null && tail == null && size == 0
    {
      head := null;
      tail := null;
      size := 0;
      Nodes := [];
    }
  }
}
