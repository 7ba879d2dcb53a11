/**
 * Keys, absence, and the abstract view of a chain of bindings shared by both
 * symbol-table implementations: a chain is the sequence of (key, value) pairs
 * met from its head to its tail.
 */
module Bindings {

  /** A character of a C key string: any byte but the '\0' that ends it. */
  type CChar = c: char | 0 < c as int < 256 witness 'a'

  /**
   * A key as `strcmp` and the hash see it: the characters before the
   * terminator. Two keys compare equal under `strcmp` exactly when they are
   * equal sequences.
   */
  type Key = seq<CChar>

  /** `None` is the NULL that `get`, `replace` and `remove` return for a missing key. */
  datatype Option<T> = None | Some(value: T)

  /** Some binding of `s` has key `k`. */
  predicate KeyIn<V>(k: Key, s: seq<(Key, V)>)
  {
    exists i :: 0 <= i < |s| && s[i].0 == k
  }

  /** No two bindings of `s` share a key. */
  predicate DistinctKeys<V>(s: seq<(Key, V)>)
  {
    forall i, j :: 0 <= i < j < |s| ==> s[i].0 != s[j].0
  }

  /** A key is in a non-empty chain when it is at the head or in the tail. */
  lemma KeyInCons<V>(s: seq<(Key, V)>, k: Key)
    requires s != []
    ensures KeyIn(k, s) <==> s[0].0 == k || KeyIn(k, s[1..])
  {
    if KeyIn(k, s[1..]) {
      var i :| 0 <= i < |s[1..]| && s[1..][i].0 == k;
      assert s[i + 1].0 == k;
    }
    if KeyIn(k, s) && s[0].0 != k {
      var i :| 0 <= i < |s| && s[i].0 == k;
      assert s[1..][i - 1].0 == k;
    }
  }

  /** The tail of a chain with distinct keys has distinct keys and lacks the head's key. */
  lemma DistinctTail<V>(s: seq<(Key, V)>)
    requires s != [] && DistinctKeys(s)
    ensures DistinctKeys(s[1..]) && !KeyIn(s[0].0, s[1..])
  {
    forall i | 0 <= i < |s[1..]| ensures s[1..][i].0 != s[0].0 {
      assert s[1..][i] == s[i + 1];
    }
  }

  /** A binding whose key the chain lacks can head it, keeping the keys distinct. */
  lemma DistinctCons<V>(x: (Key, V), s: seq<(Key, V)>)
    requires DistinctKeys(s) && !KeyIn(x.0, s)
    ensures DistinctKeys([x] + s)
  {
    forall i, j | 0 <= i < j < |[x] + s| ensures ([x] + s)[i].0 != ([x] + s)[j].0 {
      assert ([x] + s)[j] == s[j - 1];
      if i > 0 {
        assert ([x] + s)[i] == s[i - 1];
      }
    }
  }

  /**
   * `DistinctKeys` read head first: the head's key is not in the tail, whose
   * keys are distinct in turn. A linked chain keeps its invariant in this
   * form, which a proof unfolds one node at a time.
   */
  predicate DistinctChain<V>(s: seq<(Key, V)>)
  {
    s == [] || (!KeyIn(s[0].0, s[1..]) && DistinctChain(s[1..]))
  }

  /** The two readings of distinct keys agree. */
  lemma {:induction false} DistinctChainIff<V>(s: seq<(Key, V)>)
    ensures DistinctChain(s) <==> DistinctKeys(s)
  {
    if s != [] {
      DistinctChainIff(s[1..]);
      if DistinctKeys(s) {
        DistinctTail(s);
      }
      if !KeyIn(s[0].0, s[1..]) && DistinctKeys(s[1..]) {
        DistinctCons(s[0], s[1..]);
        assert [s[0]] + s[1..] == s;
      }
    }
  }

  /** The value of the first binding with key `k`, scanning head to tail. */
  function Lookup<V>(s: seq<(Key, V)>, k: Key): (r: Option<V>)
    ensures r.Some? <==> KeyIn(k, s)
    ensures r.Some? ==> (k, r.value) in s
  {
    if s == [] then None
    else if s[0].0 == k then Some(s[0].1)
    else
      KeyInCons(s, k);
      Lookup(s[1..], k)
  }

  /** `s` with the value of the first binding keyed `k` set to `v`. */
  function ReplaceFirst<V>(s: seq<(Key, V)>, k: Key, v: V): (r: seq<(Key, V)>)
    ensures |r| == |s|
    ensures forall i :: 0 <= i < |s| ==> r[i].0 == s[i].0
  {
    if s == [] then []
    else if s[0].0 == k then [(k, v)] + s[1..]
    else [s[0]] + ReplaceFirst(s[1..], k, v)
  }

  /** `s` without its first binding keyed `k`, the others kept in order. */
  function RemoveFirst<V>(s: seq<(Key, V)>, k: Key): (r: seq<(Key, V)>)
    ensures |r| == if KeyIn(k, s) then |s| - 1 else |s|
    ensures forall x :: x in r ==> x in s
  {
    if s == [] then []
    else if s[0].0 == k then s[1..]
    else
      KeyInCons(s, k);
      var r := [s[0]] + RemoveFirst(s[1..], k);
      assert forall x :: x in r ==> x == s[0] || x in s[1..];
      r
  }

  /**
   * The callback of `map` applied to every binding in chain order; the
   * callback's effect on its `pvExtra` context is the value threaded through.
   */
  function Fold<V, X>(s: seq<(Key, V)>, apply: (Key, V, X) -> X, extra: X): X
  {
    if s == [] then extra else Fold(s[1..], apply, apply(s[0].0, s[0].1, extra))
  }

  /** A callback that only records what it is shown. */
  function Record<V>(k: Key, v: V, seen: seq<(Key, V)>): seq<(Key, V)>
  {
    seen + [(k, v)]
  }

  /** When the first binding keyed `k` sits at index `i`, `Lookup` returns its value. */
  lemma {:induction false} LookupFirst<V>(s: seq<(Key, V)>, k: Key, i: nat)
    requires i < |s| && s[i].0 == k
    requires forall j :: 0 <= j < i ==> s[j].0 != k
    ensures Lookup(s, k) == Some(s[i].1)
  {
    if i > 0 {
      LookupFirst(s[1..], k, i - 1);
    }
  }

  /** A lookup in `a + b` finds the binding of `a` when there is one, else that of `b`. */
  lemma {:induction false} LookupConcat<V>(a: seq<(Key, V)>, b: seq<(Key, V)>, k: Key)
    ensures Lookup(a + b, k) == if KeyIn(k, a) then Lookup(a, k) else Lookup(b, k)
  {
    if a == [] {
      assert a + b == b;
    } else {
      assert (a + b)[0] == a[0] && (a + b)[1..] == a[1..] + b;
      LookupConcat(a[1..], b, k);
      KeyInCons(a, k);
    }
  }

  /** The binding at the head of a chain hides nothing else: only `k` changes. */
  lemma LookupPrepend<V>(s: seq<(Key, V)>, k: Key, v: V, k': Key)
    ensures Lookup([(k, v)] + s, k') == if k' == k then Some(v) else Lookup(s, k')
  {
    assert ([(k, v)] + s)[1..] == s;
  }

  /** The first binding keyed `k` at index `i` is the one `RemoveFirst` drops. */
  lemma {:induction false} RemoveFirstAt<V>(s: seq<(Key, V)>, k: Key, i: nat)
    requires i < |s| && s[i].0 == k
    requires forall j :: 0 <= j < i ==> s[j].0 != k
    ensures RemoveFirst(s, k) == s[..i] + s[i + 1..]
  {
    if i > 0 {
      RemoveFirstAt(s[1..], k, i - 1);
      assert s[..i] == [s[0]] + s[1..][..i - 1];
      assert s[i + 1..] == s[1..][i..];
    }
  }

  /** The first binding keyed `k` at index `i` is the one `ReplaceFirst` rewrites. */
  lemma {:induction false} ReplaceFirstAt<V>(s: seq<(Key, V)>, k: Key, v: V, i: nat)
    requires i < |s| && s[i].0 == k
    requires forall j :: 0 <= j < i ==> s[j].0 != k
    ensures ReplaceFirst(s, k, v) == s[i := (k, v)]
  {
    if i > 0 {
      ReplaceFirstAt(s[1..], k, v, i - 1);
      assert s[i := (k, v)] == [s[0]] + s[1..][i - 1 := (k, v)];
    }
  }

  /** `replace` does not change a chain that does not hold the key. */
  lemma {:induction false} ReplaceOfAbsentKey<V>(s: seq<(Key, V)>, k: Key, v: V)
    requires !KeyIn(k, s)
    ensures ReplaceFirst(s, k, v) == s
  {
    if s != [] {
      KeyInCons(s, k);
      ReplaceOfAbsentKey(s[1..], k, v);
      assert [s[0]] + s[1..] == s;
    }
  }

  /** `remove` does not change a chain that does not hold the key. */
  lemma {:induction false} RemoveOfAbsentKey<V>(s: seq<(Key, V)>, k: Key)
    requires !KeyIn(k, s)
    ensures RemoveFirst(s, k) == s
  {
    if s != [] {
      KeyInCons(s, k);
      RemoveOfAbsentKey(s[1..], k);
      assert [s[0]] + s[1..] == s;
    }
  }

  /**
   * `remove` on a chain with distinct keys: the key is gone, every other key
   * keeps its value, and the keys stay distinct.
   */
  lemma {:induction false} LookupAfterRemove<V>(s: seq<(Key, V)>, k: Key, k': Key)
    requires DistinctKeys(s)
    ensures DistinctKeys(RemoveFirst(s, k))
    ensures Lookup(RemoveFirst(s, k), k') == if k' == k then None else Lookup(s, k')
  {
    if s != [] {
      DistinctTail(s);
      if s[0].0 != k {
        LookupAfterRemove(s[1..], k, k');
        var r := RemoveFirst(s[1..], k);
        assert RemoveFirst(s, k) == [s[0]] + r;
        assert ([s[0]] + r)[1..] == r;
        assert DistinctKeys([s[0]] + r) by {
          forall i, j | 0 <= i < j < |[s[0]] + r| ensures ([s[0]] + r)[i].0 != ([s[0]] + r)[j].0 {
            if i == 0 {
              assert ([s[0]] + r)[j] == r[j - 1];
              assert r[j - 1] in s[1..];
              var t :| 0 <= t < |s[1..]| && s[1..][t] == r[j - 1];
              assert s[t + 1] == r[j - 1];
            }
          }
        }
      }
    }
  }

  /**
   * `replace` on a chain with distinct keys: a present key now maps to `v`,
   * every other key keeps its value, and the keys stay distinct.
   */
  lemma {:induction false} LookupAfterReplace<V>(s: seq<(Key, V)>, k: Key, v: V, k': Key)
    requires DistinctKeys(s)
    ensures DistinctKeys(ReplaceFirst(s, k, v))
    ensures Lookup(ReplaceFirst(s, k, v), k') ==
              if k' == k && KeyIn(k, s) then Some(v) else Lookup(s, k')
  {
    var r := ReplaceFirst(s, k, v);
    assert DistinctKeys(r) by {
      forall i, j | 0 <= i < j < |r| ensures r[i].0 != r[j].0 {
        assert r[i].0 == s[i].0 && r[j].0 == s[j].0;
      }
    }
    if s != [] {
      DistinctTail(s);
      assert r[1..] == if s[0].0 == k then s[1..] else ReplaceFirst(s[1..], k, v);
      if s[0].0 != k {
        LookupAfterReplace(s[1..], k, v, k');
        KeyInCons(s, k);
      }
    }
  }

  /** Folding over `a + b` folds over `a`, then over `b` from where `a` left off. */
  lemma {:induction false} FoldAppend<V, X>(a: seq<(Key, V)>, b: seq<(Key, V)>, apply: (Key, V, X) -> X, extra: X)
    ensures Fold(a + b, apply, extra) == Fold(b, apply, Fold(a, apply, extra))
  {
    if a == [] {
      assert a + b == b;
    } else {
      assert (a + b)[0] == a[0] && (a + b)[1..] == a[1..] + b;
      FoldAppend(a[1..], b, apply, apply(a[0].0, a[0].1, extra));
    }
  }

  /**
   * `map` shows the callback every binding exactly once and in chain order:
   * a callback that records what it sees ends with exactly the chain.
   */
  lemma {:induction false} FoldVisitsEachOnce<V>(s: seq<(Key, V)>, seen: seq<(Key, V)>)
    ensures Fold(s, Record, seen) == seen + s
  {
    if s != [] {
      FoldVisitsEachOnce(s[1..], Record(s[0].0, s[0].1, seen));
      assert seen + [s[0]] + s[1..] == seen + s;
    }
  }
}
