/**
 * The unsorted singly-linked-list symbol table of symtablelist.c.
 *
 * symtablehash.c carries a renamed copy of this code as its chain type
 * (`LinkedList` with `LinkedList_new`, `_put`, `_contains`, `_get`,
 * `_replace`, `_remove`, `_map`, `_getLength`). The hash table in
 * `SymTableHash` holds each chain as its sequence of bindings and applies
 * to it the functions of `Bindings` (`Lookup`, `ReplaceFirst`,
 * `RemoveFirst`, `Fold`, a push at the head) that the methods of this class
 * are proved to compute.
 */
module SymTableList {
  import opened Bindings

  /** `s` without its element at `t`; every later element moves down one place. */
  function Without<T>(s: seq<T>, t: nat): (r: seq<T>)
    requires t < |s|
    ensures |r| == |s| - 1
    ensures forall i :: 0 <= i < t ==> r[i] == s[i]
    ensures forall i :: t <= i < |r| ==> r[i] == s[i + 1]
    decreases t
  {
    if t == 0 then s[1..] else [s[0]] + Without(s[1..], t - 1)
  }

  /** `Without` is the two slices around the dropped element, joined. */
  lemma WithoutIsSlices<T>(s: seq<T>, t: nat)
    requires t < |s|
    ensures Without(s, t) == s[..t] + s[t + 1..]
  {
    assert forall i :: 0 <= i < |s| - 1 ==> Without(s, t)[i] == (s[..t] + s[t + 1..])[i];
  }

  /** Dropping one binding of a chain with distinct keys leaves distinct keys. */
  lemma DistinctWithout<V>(s: seq<(Key, V)>, t: nat)
    requires DistinctKeys(s) && t < |s|
    ensures DistinctKeys(Without(s, t))
  {
    var r := Without(s, t);
    forall a, b | 0 <= a < b < |r| ensures r[a].0 != r[b].0 {
      var a' := if a < t then a else a + 1;
      var b' := if b < t then b else b + 1;
      assert r[a] == s[a'] && r[b] == s[b'];
    }
  }

  /** `struct Node`: one binding and the link to the next node. */
  class Node<V> {
    /** The table's own copy of the key; no operation changes it. */
    const key: Key
    var item: V
    var next: Node?<V>

    constructor (key: Key, item: V, next: Node?<V>)
      ensures this.key == key && this.item == item && this.next == next
    {
      this.key := key;
      this.item := item;
      this.next := next;
    }
  }

  /**
   * `struct SymTable`: the first node and the number of bindings.
   * `nodes` is the chain of nodes from `psFirst` onwards and `Contents` the
   * bindings they hold, head first.
   */
  class SymTable<V> {
    var psFirst: Node?<V>
    var length: nat

    ghost var Contents: seq<(Key, V)>
    ghost var nodes: seq<Node<V>>
    ghost var Repr: set<object>

    /**
     * The list is well formed: `psFirst` and the `next` links walk `nodes`
     * and end in NULL, `length` counts them, and no key occurs twice.
     */
    ghost predicate Valid()
      reads this, Repr
      ensures Valid() ==> this in Repr
    {
      && this in Repr
      && (forall i :: 0 <= i < |nodes| ==> nodes[i] in Repr)
      && |nodes| == |Contents| == length
      && psFirst == (if nodes == [] then null else nodes[0])
      && (forall i {:trigger nodes[i].next} :: 0 <= i < |nodes| - 1 ==> nodes[i].next == nodes[i + 1])
      && (nodes != [] ==> nodes[|nodes| - 1].next == null)
      && (forall i :: 0 <= i < |nodes| ==> Contents[i] == (nodes[i].key, nodes[i].item))
      && DistinctChain(Contents)
    }

    /**
     * The walk meets no node twice: a node met again would repeat the walk
     * from there on, and the walk ends in NULL.
     */
    lemma {:induction false} NoNodeTwice(a: nat, b: nat)
      requires Valid() && a < b < |nodes|
      ensures nodes[a] != nodes[b]
      decreases |nodes| - b
    {
      assert nodes[a].next == nodes[a + 1];
      if b < |nodes| - 1 {
        assert nodes[b].next == nodes[b + 1];
        NoNodeTwice(a + 1, b + 1);
      }
    }

    /** No node occurs twice in `nodes`. */
    lemma NodesDistinct()
      requires Valid()
      ensures forall a, b :: 0 <= a < b < |nodes| ==> nodes[a] != nodes[b]
    {
      forall a, b | 0 <= a < b < |nodes| ensures nodes[a] != nodes[b] {
        NoNodeTwice(a, b);
      }
    }

    /** `SymTable_new` (and `LinkedList_new`): an empty list. */
    constructor ()
      ensures Valid() && fresh(Repr)
      ensures Contents == [] && length == 0
    {
      psFirst := null;
      length := 0;
      Contents := [];
      nodes := [];
      Repr := {this};
    }

    /** `SymTable_getLength`: the stored count is the number of bindings. */
    method GetLength() returns (n: nat)
      requires Valid()
      ensures n == |Contents|
    {
      n := length;
    }

    /**
     * The walk shared by put, contains, get and replace: follow `psNext`
     * from `psFirst` until NULL or a node whose key equals `key`.
     */
    method Search(key: Key) returns (cur: Node?<V>, ghost j: nat)
      requires Valid()
      ensures cur == null <==> !KeyIn(key, Contents)
      ensures cur != null ==>
                j < |nodes| && cur == nodes[j] && Contents[j].0 == key
                && forall i :: 0 <= i < j ==> Contents[i].0 != key
    {
      cur := psFirst;
      j := 0;
      while cur != null && cur.key != key
        invariant j <= |nodes|
        invariant cur == if j < |nodes| then nodes[j] else null
        invariant forall i :: 0 <= i < j ==> Contents[i].0 != key
        decreases |nodes| - j
      {
        cur := cur.next;
        j := j + 1;
      }
    }

    /**
     * Links a new node holding `key` and `value` in front of `psFirst`. The
     * caller has made sure the key is absent.
     */
    method PushFront(key: Key, value: V)
      requires Valid() && !KeyIn(key, Contents)
      modifies this
      ensures Valid() && fresh(Repr - old(Repr))
      ensures Contents == [(key, value)] + old(Contents)
    {
      assert ([(key, value)] + Contents)[1..] == Contents;
      var node := new Node(key, value, psFirst);
      psFirst := node;
      length := length + 1;
      nodes := [node] + nodes;
      Contents := [(key, value)] + Contents;
      Repr := Repr + {node};
    }

    /**
     * `SymTable_put`: refuses a key already present and changes nothing;
     * otherwise the new binding becomes the head, the others keep their
     * order, and the length grows by one.
     */
    method Put(key: Key, value: V) returns (ok: bool)
      requires Valid()
      modifies this
      ensures Valid() && fresh(Repr - old(Repr))
      ensures ok == !KeyIn(key, old(Contents))
      ensures Contents == if ok then [(key, value)] + old(Contents) else old(Contents)
      ensures length == old(length) + if ok then 1 else 0
    {
      var cur, j := Search(key);
      if cur != null {
        return false;
      }
      PushFront(key, value);
      ok := true;
    }

    /** `SymTable_contains`: true exactly when some binding has the key. */
    method Contains(key: Key) returns (found: bool)
      requires Valid()
      ensures found == KeyIn(key, Contents)
    {
      var cur, j := Search(key);
      found := cur != null;
    }

    /** `SymTable_get`: the bound value, or `None` (NULL) for an absent key. */
    method Get(key: Key) returns (r: Option<V>)
      requires Valid()
      ensures r == Lookup(Contents, key)
    {
      var cur, j := Search(key);
      if cur == null {
        return None;
      }
      LookupFirst(Contents, key, j);
      r := Some(cur.item);
    }

    /**
     * Overwrites the value held by `cur`, the node at index `j`; no link and
     * no other node changes.
     */
    method SetItem(cur: Node<V>, ghost j: nat, value: V)
      requires Valid() && j < |nodes| && cur == nodes[j]
      modifies this, cur
      ensures Valid() && Repr == old(Repr) && nodes == old(nodes) && length == old(length)
      ensures Contents == old(Contents)[j := (cur.key, value)]
    {
      assert forall i :: 0 <= i < |nodes| && i != j ==> nodes[i] != cur by {
        NodesDistinct();
      }
      ghost var updated := Contents[j := (cur.key, value)];
      assert DistinctChain(updated) by {
        DistinctChainIff(Contents);
        DistinctChainIff(updated);
        forall a, b | 0 <= a < b < |updated| ensures updated[a].0 != updated[b].0 {
          assert updated[a].0 == Contents[a].0 && updated[b].0 == Contents[b].0;
        }
      }
      cur.item := value;
      Contents := updated;
    }

    /**
     * `SymTable_replace`: for a present key, returns the old value and stores
     * the new one in that node only; for an absent key returns `None` and
     * changes nothing.
     */
    method Replace(key: Key, value: V) returns (r: Option<V>)
      requires Valid()
      modifies Repr
      ensures Valid() && Repr == old(Repr)
      ensures r == Lookup(old(Contents), key)
      ensures Contents == ReplaceFirst(old(Contents), key, value)
      ensures length == old(length)
    {
      var cur, j := Search(key);
      if cur == null {
        ReplaceOfAbsentKey(Contents, key, value);
        return None;
      }
      LookupFirst(Contents, key, j);
      ReplaceFirstAt(Contents, key, value, j);
      r := Some(cur.item);
      SetItem(cur, j, value);
    }

    /** Unlinks the head node; the rest of the chain keeps its order. */
    method UnlinkFirst()
      requires Valid() && nodes != []
      modifies this
      ensures Valid() && Repr <= old(Repr)
      ensures Contents == old(Contents)[1..] && length == old(length) - 1
    {
      var cur := psFirst;
      psFirst := cur.next;
      length := length - 1;
      nodes := nodes[1..];
      Contents := Contents[1..];
      assert forall i :: 0 <= i < |nodes| ==> nodes[i] == old(nodes)[i + 1];
    }

    /** Unlinks the node after `cur`, the node at index `j`. */
    method UnlinkAfter(cur: Node<V>, ghost j: nat)
      requires Valid() && j + 1 < |nodes| && cur == nodes[j]
      modifies this, cur
      ensures Valid() && Repr <= old(Repr)
      ensures Contents == Without(old(Contents), j + 1)
      ensures length == old(length) - 1
    {
      var gone := cur.next;
      ghost var ns := Without(nodes, j + 1);
      assert DistinctChain(Without(Contents, j + 1)) by {
        DistinctChainIff(Contents);
        DistinctWithout(Contents, j + 1);
        DistinctChainIff(Without(Contents, j + 1));
      }
      assert forall i :: 0 <= i < |nodes| && i != j ==> nodes[i] != cur by {
        NodesDistinct();
      }
      assert gone == nodes[j + 1] && gone.next == if j + 2 < |nodes| then nodes[j + 2] else null;
      assert ns[|ns| - 1] == if j + 2 < |nodes| then nodes[|nodes| - 1] else cur;
      cur.next := gone.next;
      length := length - 1;
      nodes := ns;
      Contents := Without(Contents, j + 1);
    }

    /**
     * `SymTable_remove`: for a present key, unlinks exactly its node (the
     * head case and the interior case apart), returns its value and leaves
     * the other nodes in order; for an absent key, the empty list included,
     * returns `None` and changes nothing.
     */
    method Remove(key: Key) returns (r: Option<V>)
      requires Valid()
      modifies Repr
      ensures Valid() && Repr <= old(Repr)
      ensures r == Lookup(old(Contents), key)
      ensures Contents == RemoveFirst(old(Contents), key)
      ensures length == old(length) - if r.Some? then 1 else 0
    {
      var cur := psFirst;
      if cur == null {
        return None;
      }
      if cur.key == key {
        LookupFirst(Contents, key, 0);
        RemoveFirstAt(Contents, key, 0);
        r := Some(cur.item);
        UnlinkFirst();
        return;
      }
      ghost var j := 0;
      while cur.next != null && cur.next.key != key
        modifies {}
        invariant j < |nodes| && cur == nodes[j]
        invariant forall i :: 0 <= i <= j ==> Contents[i].0 != key
        decreases |nodes| - j
      {
        cur := cur.next;
        j := j + 1;
      }
      if cur.next == null {
        assert !KeyIn(key, Contents);
        RemoveOfAbsentKey(Contents, key);
        return None;
      }
      LookupFirst(Contents, key, j + 1);
      RemoveFirstAt(Contents, key, j + 1);
      WithoutIsSlices(Contents, j + 1);
      r := Some(cur.next.item);
      UnlinkAfter(cur, j);
    }

    /**
     * `SymTable_map`: the callback is applied to each binding exactly once,
     * head to tail, and the list is not changed. The callback is a pure
     * function of (key, value, extra) returning the new extra.
     */
    method Map<X>(apply: (Key, V, X) -> X, extra: X) returns (x: X)
      requires Valid()
      ensures x == Fold(Contents, apply, extra)
    {
      var cur := psFirst;
      ghost var j := 0;
      x := extra;
      while cur != null
        invariant j <= |nodes|
        invariant cur == if j < |nodes| then nodes[j] else null
        invariant x == Fold(Contents[..j], apply, extra)
        decreases |nodes| - j
      {
        assert j < |nodes| && cur == nodes[j];
        FoldAppend(Contents[..j], [Contents[j]], apply, extra);
        assert Contents[..j + 1] == Contents[..j] + [Contents[j]];
        x := apply(cur.key, cur.item, x);
        cur := cur.next;
        j := j + 1;
      }
      assert Contents[..j] == Contents;
    }
  }
}
