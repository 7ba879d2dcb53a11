/**
 * The separate-chaining hash table of symtablehash.c: an array of chains
 * indexed by the hash of the key, that grows through a fixed schedule of
 * prime sizes once it holds as many bindings as it has buckets.
 */
module SymTableHash {
  import opened Bindings

  /** `auBucketCounts`: the bucket counts the table goes through, in order. */
  const BucketCounts: seq<nat> := [509, 1021, 2039, 4093, 8191, 16381, 32749, 65521]

  /** `HASH_MULTIPLIER` of `SymTable_hash`. */
  const HashMultiplier: nat := 65599

  /** `size_t` arithmetic wraps modulo 2^64. */
  const SizeModulus: nat := 0x1_0000_0000_0000_0000

  /**
   * `(size_t)pcKey[u]` with a signed `char`: bytes from 128 up are negative
   * and sign-extend to the top of the `size_t` range.
   */
  function CharValue(c: CChar): (r: nat)
    ensures r < SizeModulus
    ensures c as int < 128 ==> r == c as int
    ensures c as int >= 128 ==> r + 256 == SizeModulus + c as int
  {
    if c as int < 128 then c as int else SizeModulus - 256 + c as int
  }

  /** The value of `uHash` once the loop of `SymTable_hash` has read all of `key`. */
  function HashValue(key: Key): (h: nat)
    ensures h < SizeModulus
  {
    if key == [] then 0
    else (HashValue(key[..|key| - 1]) * HashMultiplier + CharValue(key[|key| - 1])) % SizeModulus
  }

  /**
   * The key read as a number in base 65599, digit by digit, without any
   * wrap-around.
   */
  function Polynomial(key: Key): nat
  {
    if key == [] then 0
    else Polynomial(key[..|key| - 1]) * HashMultiplier + CharValue(key[|key| - 1])
  }

  /** The bucket `SymTable_hash` returns for `key` in a table of `count` buckets. */
  function Bucket(key: Key, count: nat): (b: nat)
    requires count > 0
    ensures b < count
  {
    HashValue(key) % count
  }

  /**
   * The hash that wraps at every step equals the base-65599 value of the
   * key taken modulo 2^64 once at the end.
   */
  lemma {:induction false} HashIsPolynomialModSize(key: Key)
    ensures HashValue(key) == Polynomial(key) % SizeModulus
  {
    if key != [] {
      var p := key[..|key| - 1];
      var c := CharValue(key[|key| - 1]);
      HashIsPolynomialModSize(p);
      var q := Polynomial(p) / SizeModulus;
      assert Polynomial(p) == q * SizeModulus + HashValue(p);
      assert Polynomial(key) == HashValue(p) * HashMultiplier + c + q * HashMultiplier * SizeModulus;
      ModOfMultipleAdded(HashValue(p) * HashMultiplier + c, q * HashMultiplier);
    }
  }

  /** Adding a multiple of 2^64 does not change a value modulo 2^64. */
  lemma {:induction false} ModOfMultipleAdded(x: nat, k: nat)
    ensures (x + k * SizeModulus) % SizeModulus == x % SizeModulus
  {
    if k > 0 {
      ModOfMultipleAdded(x, k - 1);
      assert x + k * SizeModulus == (x + (k - 1) * SizeModulus) + SizeModulus;
    }
  }

  /**
   * `SymTable_hash`: multiply-and-add over the characters of the key in
   * `size_t` arithmetic, then reduce modulo the bucket count.
   */
  method Hash(key: Key, bucketCount: nat) returns (b: nat)
    requires bucketCount > 0
    ensures b == Bucket(key, bucketCount)
  {
    var h := 0;
    var u := 0;
    while u < |key|
      invariant 0 <= u <= |key|
      invariant h == HashValue(key[..u])
    {
      assert key[..u + 1][..u] == key[..u];
      h := (h * HashMultiplier + CharValue(key[u])) % SizeModulus;
      u := u + 1;
    }
    assert key[..u] == key;
    b := h % bucketCount;
  }

  /** Each size of the growth schedule is larger than the one before. */
  lemma ScheduleIncreases(i: nat)
    requires i + 1 < |BucketCounts|
    ensures BucketCounts[i] < BucketCounts[i + 1]
  {
  }

  /** The bindings of all buckets, bucket 0 first, each chain head to tail. */
  function Flatten<V>(B: seq<seq<(Key, V)>>): seq<(Key, V)>
  {
    if B == [] then [] else Flatten(B[..|B| - 1]) + B[|B| - 1]
  }

  /** Every binding in bucket `i` of `B` hashes to `i` among `m` buckets. */
  ghost predicate PlacedIn<V>(B: seq<seq<(Key, V)>>, m: nat)
  {
    m > 0 && forall i, j :: 0 <= i < |B| && 0 <= j < |B[i]| ==> Bucket(B[i][j].0, m) == i
  }

  /** Every binding sits in the bucket its key hashes to. */
  ghost predicate Placed<V>(B: seq<seq<(Key, V)>>)
  {
    PlacedIn(B, |B|)
  }

  /** The array `calloc` returns, seen as `m` empty buckets. */
  function EmptyBuckets<V>(m: nat): (B: seq<seq<(Key, V)>>)
    ensures |B| == m && forall i :: 0 <= i < m ==> B[i] == []
  {
    seq(m, _ => [])
  }

  /** `x` linked in at the head of the bucket its key hashes to. */
  function Insert<V>(B: seq<seq<(Key, V)>>, x: (Key, V)): (r: seq<seq<(Key, V)>>)
    requires |B| > 0
    ensures |r| == |B|
  {
    B[Bucket(x.0, |B|) := [x] + B[Bucket(x.0, |B|)]]
  }

  /**
   * The buckets a growth to `m` buckets builds from the bindings `s`: each
   * binding, in order, is linked in at the head of its new bucket.
   */
  function Rehash<V>(s: seq<(Key, V)>, m: nat): (r: seq<seq<(Key, V)>>)
    requires m > 0
    ensures |r| == m
  {
    if s == [] then EmptyBuckets(m) else Insert(Rehash(s[..|s| - 1], m), s[|s| - 1])
  }

  /** Buckets that are all empty hold no binding. */
  lemma {:induction false} FlattenOfEmpty<V>(B: seq<seq<(Key, V)>>)
    requires forall i :: 0 <= i < |B| ==> B[i] == []
    ensures Flatten(B) == []
  {
    if B != [] {
      FlattenOfEmpty(B[..|B| - 1]);
    }
  }

  /** Flattening the first `i + 1` buckets adds bucket `i` after the first `i`. */
  lemma FlattenStep<V>(B: seq<seq<(Key, V)>>, i: nat)
    requires i < |B|
    ensures Flatten(B[..i + 1]) == Flatten(B[..i]) + B[i]
  {
    assert B[..i + 1][..i] == B[..i];
  }

  /** Replacing one bucket changes the total number of bindings by the difference. */
  lemma {:induction false} FlattenLengthUpdate<V>(B: seq<seq<(Key, V)>>, b: nat, c: seq<(Key, V)>)
    requires b < |B|
    ensures |Flatten(B[b := c])| + |B[b]| == |Flatten(B)| + |c|
  {
    var n := |B| - 1;
    if b < n {
      assert B[b := c][..n] == B[..n][b := c];
      FlattenLengthUpdate(B[..n], b, c);
    } else {
      assert B[b := c][..n] == B[..n];
    }
  }

  /** A prefix of placed buckets is placed. */
  lemma PlacedPrefix<V>(B: seq<seq<(Key, V)>>, m: nat, n: nat)
    requires PlacedIn(B, m) && n <= |B|
    ensures PlacedIn(B[..n], m)
  {
    forall i, j | 0 <= i < n && 0 <= j < |B[..n][i]| ensures Bucket(B[..n][i][j].0, m) == i {
      assert B[..n][i] == B[i];
    }
  }

  /** A key hashing to bucket `b` can only be found in bucket `b`. */
  lemma KeyInPlacedBucket<V>(B: seq<seq<(Key, V)>>, m: nat, i: nat, k: Key)
    requires PlacedIn(B, m) && i < |B| && KeyIn(k, B[i])
    ensures Bucket(k, m) == i
  {
    var j :| 0 <= j < |B[i]| && B[i][j].0 == k;
  }

  /**
   * Searching the whole table comes to searching the bucket the key hashes
   * to, which is what `get`, `contains`, `replace` and `remove` do.
   */
  lemma {:induction false} LookupPlaced<V>(B: seq<seq<(Key, V)>>, m: nat, k: Key)
    requires PlacedIn(B, m)
    ensures Lookup(Flatten(B), k) ==
              if Bucket(k, m) < |B| then Lookup(B[Bucket(k, m)], k) else None
  {
    if B != [] {
      var n := |B| - 1;
      PlacedPrefix(B, m, n);
      LookupPlaced(B[..n], m, k);
      LookupConcat(Flatten(B[..n]), B[n], k);
      if KeyIn(k, B[n]) {
        KeyInPlacedBucket(B, m, n, k);
      }
    }
  }

  /** The keys of two chains that share none stay distinct side by side. */
  lemma DistinctConcat<V>(a: seq<(Key, V)>, b: seq<(Key, V)>)
    requires DistinctKeys(a) && DistinctKeys(b)
    requires forall i :: 0 <= i < |a| ==> !KeyIn(a[i].0, b)
    ensures DistinctKeys(a + b)
  {
    forall i, j | 0 <= i < j < |a + b| ensures (a + b)[i].0 != (a + b)[j].0 {
      if i < |a| <= j {
        assert (a + b)[j] == b[j - |a|];
      }
    }
  }

  /** Placed buckets whose chains have distinct keys bind no key twice. */
  lemma {:induction false} DistinctPlaced<V>(B: seq<seq<(Key, V)>>, m: nat)
    requires PlacedIn(B, m)
    requires forall i :: 0 <= i < |B| ==> DistinctKeys(B[i])
    ensures DistinctKeys(Flatten(B))
  {
    if B != [] {
      var n := |B| - 1;
      var F := Flatten(B[..n]);
      PlacedPrefix(B, m, n);
      DistinctPlaced(B[..n], m);
      forall i | 0 <= i < |F| ensures !KeyIn(F[i].0, B[n]) {
        LookupPlaced(B[..n], m, F[i].0);
        assert KeyIn(F[i].0, F);
        if KeyIn(F[i].0, B[n]) {
          KeyInPlacedBucket(B, m, n, F[i].0);
        }
      }
      DistinctConcat(F, B[n]);
    }
  }

  /**
   * Changing bucket `b` to a chain whose keys all hash to `b` keeps the
   * buckets placed, and changes only the lookups of keys hashing to `b`.
   */
  lemma UpdateBucket<V>(B: seq<seq<(Key, V)>>, b: nat, c: seq<(Key, V)>, k: Key)
    requires Placed(B) && b < |B|
    requires forall j :: 0 <= j < |c| ==> Bucket(c[j].0, |B|) == b
    ensures Placed(B[b := c])
    ensures Lookup(Flatten(B[b := c]), k) ==
              if Bucket(k, |B|) == b then Lookup(c, k) else Lookup(Flatten(B), k)
  {
    LookupPlaced(B, |B|, k);
    LookupPlaced(B[b := c], |B|, k);
  }

  /** Linking a binding in at the head of its bucket keeps the buckets placed. */
  lemma InsertPlaced<V>(B: seq<seq<(Key, V)>>, m: nat, x: (Key, V))
    requires |B| == m && PlacedIn(B, m)
    ensures PlacedIn(Insert(B, x), m)
  {
  }

  /**
   * Growth rebuilds a placed table with the same number of bindings and the
   * same value for every key.
   */
  lemma {:induction false} RehashSound<V>(s: seq<(Key, V)>, m: nat, k: Key)
    requires m > 0 && DistinctKeys(s)
    ensures PlacedIn(Rehash(s, m), m)
    ensures |Flatten(Rehash(s, m))| == |s|
    ensures Lookup(Flatten(Rehash(s, m)), k) == Lookup(s, k)
  {
    if s == [] {
      FlattenOfEmpty(EmptyBuckets<V>(m));
    } else {
      var n := |s| - 1;
      var x := s[n];
      assert DistinctKeys(s[..n]);
      RehashSound(s[..n], m, k);
      TableInsert(Rehash(s[..n], m), x, k);
      assert s == s[..n] + [x];
      LookupConcat(s[..n], [x], k);
      if x.0 == k {
        assert !KeyIn(k, s[..n]);
      }
    }
  }

  /** `replace` applied to the bucket the key hashes to. */
  function ReplaceInTable<V>(B: seq<seq<(Key, V)>>, key: Key, v: V): (r: seq<seq<(Key, V)>>)
    requires |B| > 0
    ensures |r| == |B|
  {
    B[Bucket(key, |B|) := ReplaceFirst(B[Bucket(key, |B|)], key, v)]
  }

  /** `remove` applied to the bucket the key hashes to. */
  function RemoveInTable<V>(B: seq<seq<(Key, V)>>, key: Key): (r: seq<seq<(Key, V)>>)
    requires |B| > 0
    ensures |r| == |B|
  {
    B[Bucket(key, |B|) := RemoveFirst(B[Bucket(key, |B|)], key)]
  }

  /**
   * A put into the bucket of its key: the table stays placed, holds one
   * more binding, maps the key to the new value and every other key as
   * before.
   */
  lemma TableInsert<V>(B: seq<seq<(Key, V)>>, x: (Key, V), k: Key)
    requires |B| > 0 && Placed(B)
    ensures Placed(Insert(B, x))
    ensures |Flatten(Insert(B, x))| == |Flatten(B)| + 1
    ensures Lookup(Flatten(Insert(B, x)), k) == if k == x.0 then Some(x.1) else Lookup(Flatten(B), k)
  {
    var b := Bucket(x.0, |B|);
    FlattenLengthUpdate(B, b, [x] + B[b]);
    UpdateBucket(B, b, [x] + B[b], k);
    LookupPlaced(B, |B|, k);
    LookupPrepend(B[b], x.0, x.1, k);
  }

  /**
   * A replace in the bucket of its key: the table stays placed and keeps its
   * size; the key, when bound, now maps to `v`; every other key as before.
   */
  lemma TableReplace<V>(B: seq<seq<(Key, V)>>, key: Key, v: V, k: Key)
    requires |B| > 0 && Placed(B) && DistinctKeys(B[Bucket(key, |B|)])
    ensures Placed(ReplaceInTable(B, key, v))
    ensures |Flatten(ReplaceInTable(B, key, v))| == |Flatten(B)|
    ensures Lookup(Flatten(ReplaceInTable(B, key, v)), k) ==
              if k == key && KeyIn(key, Flatten(B)) then Some(v) else Lookup(Flatten(B), k)
  {
    var b := Bucket(key, |B|);
    var c := ReplaceFirst(B[b], key, v);
    forall j | 0 <= j < |c| ensures Bucket(c[j].0, |B|) == b {
      assert c[j].0 == B[b][j].0;
    }
    FlattenLengthUpdate(B, b, c);
    UpdateBucket(B, b, c, k);
    LookupPlaced(B, |B|, k);
    LookupPlaced(B, |B|, key);
    LookupAfterReplace(B[b], key, v, k);
  }

  /**
   * A remove in the bucket of its key: the table stays placed, holds one
   * binding fewer exactly when the key was bound, no longer binds the key,
   * and binds every other key as before.
   */
  lemma TableRemove<V>(B: seq<seq<(Key, V)>>, key: Key, k: Key)
    requires |B| > 0 && Placed(B) && DistinctKeys(B[Bucket(key, |B|)])
    ensures Placed(RemoveInTable(B, key))
    ensures |Flatten(RemoveInTable(B, key))| == |Flatten(B)| - if KeyIn(key, Flatten(B)) then 1 else 0
    ensures Lookup(Flatten(RemoveInTable(B, key)), k) == if k == key then None else Lookup(Flatten(B), k)
  {
    var b := Bucket(key, |B|);
    var c := RemoveFirst(B[b], key);
    forall j | 0 <= j < |c| ensures Bucket(c[j].0, |B|) == b {
      assert c[j] in B[b];
      var t :| 0 <= t < |B[b]| && B[b][t] == c[j];
    }
    FlattenLengthUpdate(B, b, c);
    UpdateBucket(B, b, c, k);
    LookupPlaced(B, |B|, k);
    LookupPlaced(B, |B|, key);
    LookupAfterRemove(B[b], key, k);
  }

  /** The bindings of the first `j` buckets come first in the flattened table. */
  lemma {:induction false} FlattenPrefix<V>(B: seq<seq<(Key, V)>>, j: nat)
    requires j <= |B|
    ensures |Flatten(B[..j])| <= |Flatten(B)|
    ensures Flatten(B[..j]) == Flatten(B)[..|Flatten(B[..j])|]
  {
    if j < |B| {
      var n := |B| - 1;
      FlattenPrefix(B[..n], j);
      assert B[..n][..j] == B[..j];
    } else {
      assert B[..j] == B;
    }
  }

  /** A prefix of a chain with distinct keys has distinct keys. */
  lemma DistinctPrefix<V>(s: seq<(Key, V)>, t: nat)
    requires DistinctKeys(s) && t <= |s|
    ensures DistinctKeys(s[..t])
  {
    forall a, b | 0 <= a < b < t ensures s[..t][a].0 != s[..t][b].0 {
      assert s[..t][a] == s[a] && s[..t][b] == s[b];
    }
  }

  /** In a chain with distinct keys, the binding at `t` has a key not met before `t`. */
  lemma DistinctNext<V>(s: seq<(Key, V)>, t: nat)
    requires DistinctKeys(s) && t < |s|
    ensures !KeyIn(s[t].0, s[..t]) && DistinctKeys(s[..t])
  {
    DistinctPrefix(s, t);
    forall a | 0 <= a < t ensures s[..t][a].0 != s[t].0 {
      assert s[..t][a] == s[a];
    }
  }

  /**
   * One step of the walk over an old chain during growth: the binding at
   * `n` has a key that the bindings moved so far lack, and moving it links
   * it in at the head of its new bucket.
   */
  lemma MoveStep<V>(P: seq<(Key, V)>, chain: seq<(Key, V)>, n: nat, m: nat)
    requires DistinctKeys(P + chain) && n < |chain| && m > 0
    ensures !KeyIn(chain[n].0, Flatten(Rehash(P + chain[..n], m)))
    ensures Rehash(P + chain[..n + 1], m) == Insert(Rehash(P + chain[..n], m), chain[n])
  {
    var Q := P + chain[..n];
    assert (P + chain)[..|Q|] == Q && (P + chain)[|Q|] == chain[n];
    DistinctNext(P + chain, |Q|);
    RehashSound(Q, m, chain[n].0);
    assert chain[..n + 1] == chain[..n] + [chain[n]];
    assert (P + chain[..n + 1])[..|Q|] == Q;
  }

  /** The bindings of a bucket: none for a NULL bucket, else those of its chain. */
  function ChainOf<V>(slot: Option<seq<(Key, V)>>): seq<(Key, V)>
  {
    if slot.None? then [] else slot.value
  }

  /**
   * The array of buckets `slots`, where `None` is a NULL bucket and
   * `Some(c)` a chain holding `c`, holds the buckets `B`: every binding sits
   * in the bucket its key hashes to, no chain holds a key twice, and `len`
   * counts the bindings.
   */
  ghost predicate Holds<V>(slots: seq<Option<seq<(Key, V)>>>, B: seq<seq<(Key, V)>>, len: nat)
  {
    && |slots| == |B|
    && (forall i :: 0 <= i < |B| ==> B[i] == ChainOf(slots[i]))
    && (forall i :: 0 <= i < |B| ==> DistinctKeys(B[i]))
    && Placed(B)
    && len == |Flatten(B)|
  }

  /** An array of `m` NULL buckets, as `calloc` leaves it, holds `m` empty buckets. */
  lemma HoldsEmpty<V>(slots: seq<Option<seq<(Key, V)>>>, m: nat)
    requires |slots| == m > 0 && forall i :: 0 <= i < m ==> slots[i].None?
    ensures Holds(slots, EmptyBuckets(m), 0)
  {
    FlattenOfEmpty(EmptyBuckets<V>(m));
  }

  /** Making an empty chain for a NULL bucket changes no binding. */
  lemma HoldsNewChain<V>(slots: seq<Option<seq<(Key, V)>>>, B: seq<seq<(Key, V)>>, len: nat, b: nat)
    requires Holds(slots, B, len) && b < |slots| && slots[b].None?
    ensures Holds(slots[b := Some([])], B, len)
  {
  }

  /** Linking in a binding whose key is unbound keeps the array holding the buckets. */
  lemma HoldsInsert<V>(slots: seq<Option<seq<(Key, V)>>>, B: seq<seq<(Key, V)>>, len: nat, x: (Key, V))
    requires Holds(slots, B, len) && !KeyIn(x.0, Flatten(B))
    ensures Bucket(x.0, |B|) < |slots|
    ensures Holds(slots[Bucket(x.0, |B|) := Some([x] + B[Bucket(x.0, |B|)])], Insert(B, x), len + 1)
  {
    var b := Bucket(x.0, |B|);
    TableInsert(B, x, x.0);
    LookupPlaced(B, |B|, x.0);
    DistinctCons(x, B[b]);
  }

  /** Replacing in the chain of the key's bucket keeps the array holding the buckets. */
  lemma HoldsReplace<V>(slots: seq<Option<seq<(Key, V)>>>, B: seq<seq<(Key, V)>>, len: nat, key: Key, v: V)
    requires Holds(slots, B, len)
    ensures Bucket(key, |B|) < |slots|
    ensures Holds(slots[Bucket(key, |B|) := Some(ReplaceFirst(B[Bucket(key, |B|)], key, v))],
                  ReplaceInTable(B, key, v), len)
  {
    var b := Bucket(key, |B|);
    TableReplace(B, key, v, key);
    LookupAfterReplace(B[b], key, v, key);
  }

  /** Removing from the chain of the key's bucket keeps the array holding the buckets. */
  lemma HoldsRemove<V>(slots: seq<Option<seq<(Key, V)>>>, B: seq<seq<(Key, V)>>, len: nat, key: Key)
    requires Holds(slots, B, len) && KeyIn(key, Flatten(B))
    ensures Bucket(key, |B|) < |slots| && len > 0
    ensures Holds(slots[Bucket(key, |B|) := Some(RemoveFirst(B[Bucket(key, |B|)], key))],
                  RemoveInTable(B, key), len - 1)
  {
    var b := Bucket(key, |B|);
    var c := RemoveFirst(B[b], key);
    var S' := slots[b := Some(c)];
    TableRemove(B, key, key);
    LookupAfterRemove(B[b], key, key);
    assert KeyIn(key, Flatten(B)) ==> |Flatten(B)| > 0;
    forall i | 0 <= i < |B| ensures B[b := c][i] == ChainOf(S'[i]) && DistinctKeys(B[b := c][i]) {
    }
  }

  /**
   * `struct SymTable`: `maxbucket` buckets, `length` bindings, the index
   * `bucketnum` of `maxbucket` in the growth schedule, and the array of
   * buckets. `Buckets` is the array seen as bindings only.
   */
  class SymTable<V> {
    var maxbucket: nat
    var length: nat
    var bucketnum: nat
    var psArray: array<Option<seq<(Key, V)>>>

    ghost var Buckets: seq<seq<(Key, V)>>
    ghost var Repr: set<object>

    /**
     * `maxbucket` follows the growth schedule and sizes the array, and the
     * array holds `Buckets` with `length` bindings.
     */
    ghost predicate Sound()
      reads this, Repr
    {
      && Repr == {this, psArray}
      && bucketnum < |BucketCounts| && maxbucket == BucketCounts[bucketnum]
      && psArray.Length == maxbucket
      && Holds(psArray[..], Buckets, length)
    }

    /**
     * Between operations the table also keeps fewer bindings than buckets
     * until it reaches the last size of the schedule.
     */
    ghost predicate Valid()
      reads this, Repr
    {
      Sound() && (bucketnum < |BucketCounts| - 1 ==> length < maxbucket)
    }

    /** The bindings of the table, bucket by bucket. */
    ghost function Bindings(): seq<(Key, V)>
      reads this
    {
      Flatten(Buckets)
    }

    /** The chains of a sound table bind no key twice between them. */
    lemma DistinctBindings()
      requires Sound()
      ensures DistinctKeys(Bindings())
    {
      DistinctPlaced(Buckets, |Buckets|);
    }

    /** `SymTable_new`: 509 NULL buckets, as `calloc` leaves them, and no binding. */
    constructor ()
      ensures Valid() && fresh(Repr)
      ensures Bindings() == [] && length == 0
      ensures bucketnum == 0 && maxbucket == 509
    {
      length := 0;
      maxbucket := BucketCounts[0];
      psArray := new Option<seq<(Key, V)>>[BucketCounts[0]](_ => None);
      bucketnum := 0;
      Buckets := EmptyBuckets(BucketCounts[0]);
      Repr := {this, psArray};
      new;
      HoldsEmpty(psArray[..], maxbucket);
      FlattenOfEmpty(Buckets);
    }

    /** `SymTable_getLength`: the stored count is the number of bindings. */
    method GetLength() returns (n: nat)
      requires Valid()
      ensures n == |Bindings()|
    {
      n := length;
    }

    /**
     * `SymTable_contains`: a NULL bucket holds nothing; otherwise the chain
     * of the key's bucket is searched, and that settles it for the table.
     */
    method Contains(key: Key) returns (found: bool)
      requires Valid()
      ensures found == KeyIn(key, Bindings())
    {
      var b := Hash(key, maxbucket);
      LookupPlaced(Buckets, maxbucket, key);
      if psArray[b].None? {
        return false;
      }
      found := Lookup(psArray[b].value, key).Some?;
    }

    /** `SymTable_get`: the value bound to the key, or `None` (NULL). */
    method Get(key: Key) returns (r: Option<V>)
      requires Valid()
      ensures r == Lookup(Bindings(), key)
    {
      var b := Hash(key, maxbucket);
      LookupPlaced(Buckets, maxbucket, key);
      if psArray[b].None? {
        return None;
      }
      r := Lookup(psArray[b].value, key);
    }

    /**
     * The first half of `SymTable_put`: makes the chain of the key's bucket
     * when it is NULL, refuses a key already bound, otherwise links the
     * binding in at the head of the chain and counts it.
     */
    method PutBinding(key: Key, value: V) returns (ok: bool)
      requires Sound()
      modifies this, psArray
      ensures Sound() && Repr == old(Repr) && psArray == old(psArray)
      ensures ok == !KeyIn(key, old(Bindings()))
      ensures Buckets == if ok then Insert(old(Buckets), (key, value)) else old(Buckets)
      ensures length == old(length) + if ok then 1 else 0
      ensures bucketnum == old(bucketnum) && maxbucket == old(maxbucket)
    {
      var b := Hash(key, maxbucket);
      ghost var B := Buckets;
      LookupPlaced(B, |B|, key);
      if psArray[b].None? {
        HoldsNewChain(psArray[..], B, length, b);
        ghost var S := psArray[..];
        psArray[b] := Some([]);
        assert psArray[..] == S[b := Some([])];
      }
      var chain := psArray[b].value;
      assert chain == B[b];
      ok := Lookup(chain, key).None?;
      if ok {
        ghost var S := psArray[..];
        HoldsInsert(S, B, length, (key, value));
        psArray[b] := Some([(key, value)] + chain);
        length := length + 1;
        Buckets := Insert(B, (key, value));
        assert psArray[..] == S[b := Some([(key, value)] + chain)];
      }
    }

    /**
     * `SymTable_put`: puts the binding as `PutBinding` does; then, when the
     * table holds as many bindings as buckets and a larger size is left in
     * the schedule, it grows.
     */
    method Put(key: Key, value: V) returns (ok: bool)
      requires Valid()
      modifies Repr
      ensures Valid() && fresh(Repr - old(Repr))
      ensures ok == !KeyIn(key, old(Bindings()))
      ensures length == old(length) + if ok then 1 else 0
      ensures bucketnum ==
                if ok && old(length) + 1 == old(maxbucket) && old(bucketnum) < |BucketCounts| - 1
                then old(bucketnum) + 1 else old(bucketnum)
      ensures bucketnum == old(bucketnum) ==>
                Buckets == if ok then Insert(old(Buckets), (key, value)) else old(Buckets)
      ensures forall k :: Lookup(Bindings(), k) ==
                if ok && k == key then Some(value) else Lookup(old(Bindings()), k)
    {
      ghost var B0 := Buckets;
      assert Placed(B0);
      ok := PutBinding(key, value);
      ghost var B1 := Buckets;
      assert forall k :: Lookup(Flatten(B1), k) == if ok && k == key then Some(value) else Lookup(Flatten(B0), k) by {
        forall k ensures Lookup(Flatten(B1), k) == if ok && k == key then Some(value) else Lookup(Flatten(B0), k) {
          TableInsert(B0, (key, value), k);
        }
      }
      if length == maxbucket && length == BucketCounts[bucketnum] && bucketnum < |BucketCounts| - 1 {
        DistinctBindings();
        ScheduleIncreases(bucketnum);
        Grow();
        forall k ensures Lookup(Bindings(), k) == Lookup(Flatten(B1), k) {
          RehashSound(Flatten(B1), maxbucket, k);
        }
      }
    }

    /**
     * `SymTable_putNode` as growth needs it: links a binding whose key the
     * table does not hold in at the head of its bucket, making the chain
     * when the bucket is still NULL, and counts it. The C `putNode` does
     * neither of the last two: it dereferences the NULL bucket and leaves
     * the table's count alone (see `GrowthAsWritten.PutNodeAsWritten`).
     */
    method PutNode(key: Key, value: V)
      requires Sound() && !KeyIn(key, Bindings())
      modifies this, psArray
      ensures Sound() && Repr == old(Repr) && psArray == old(psArray)
      ensures Buckets == Insert(old(Buckets), (key, value)) && length == old(length) + 1
      ensures bucketnum == old(bucketnum) && maxbucket == old(maxbucket)
    {
      var b := Hash(key, maxbucket);
      ghost var B := Buckets;
      if psArray[b].None? {
        HoldsNewChain(psArray[..], B, length, b);
        ghost var S := psArray[..];
        psArray[b] := Some([]);
        assert psArray[..] == S[b := Some([])];
      }
      var chain := psArray[b].value;
      ghost var S := psArray[..];
      HoldsInsert(S, B, length, (key, value));
      psArray[b] := Some([(key, value)] + chain);
      length := length + 1;
      Buckets := Insert(B, (key, value));
      assert psArray[..] == S[b := Some([(key, value)] + chain)];
    }

    /**
     * The inner walk of growth over one old chain, head to tail: each
     * binding is put into the new array with `SymTable_putNode`. `P` is what
     * earlier buckets already moved.
     */
    method MoveChain(chain: seq<(Key, V)>, ghost P: seq<(Key, V)>)
      requires Sound() && Buckets == Rehash(P, maxbucket) && DistinctKeys(P + chain)
      modifies this, psArray
      ensures Sound() && Repr == old(Repr) && psArray == old(psArray)
      ensures bucketnum == old(bucketnum) && Buckets == Rehash(P + chain, maxbucket)
    {
      var n := 0;
      assert P + chain[..n] == P;
      while n < |chain|
        invariant 0 <= n <= |chain|
        invariant Sound() && Repr == old(Repr) && psArray == old(psArray) && bucketnum == old(bucketnum)
        invariant Buckets == Rehash(P + chain[..n], maxbucket)
      {
        MoveStep(P, chain, n, maxbucket);
        PutNode(chain[n].0, chain[n].1);
        n := n + 1;
      }
      assert chain[..n] == chain;
    }

    /**
     * The walk of growth over the old array `oldArray`, holding `oldB`:
     * bucket by bucket in index order, a NULL bucket skipped, each chain is
     * moved into the current array. The C loop lacks the `i++` that moves
     * it to the next old bucket (see `GrowthAsWritten.GrowAsWritten`).
     */
    method MoveAll(oldArray: array<Option<seq<(Key, V)>>>, ghost oldB: seq<seq<(Key, V)>>)
      requires Sound() && Buckets == EmptyBuckets(maxbucket) && oldArray != psArray
      requires oldArray.Length == |oldB| && DistinctKeys(Flatten(oldB))
      requires forall j :: 0 <= j < |oldB| ==> oldB[j] == ChainOf(oldArray[j])
      modifies this, psArray
      ensures Sound() && Repr == old(Repr) && psArray == old(psArray) && bucketnum == old(bucketnum)
      ensures Buckets == Rehash(Flatten(oldB), maxbucket) && length == |Flatten(oldB)|
    {
      var bucketLen := oldArray.Length;
      var i := 0;
      assert oldB[..i] == [];
      while i < bucketLen
        invariant 0 <= i <= bucketLen
        invariant Sound() && Repr == old(Repr) && psArray == old(psArray) && bucketnum == old(bucketnum)
        invariant Buckets == Rehash(Flatten(oldB[..i]), maxbucket)
      {
        assert Flatten(oldB[..i + 1]) == Flatten(oldB[..i]) + ChainOf(oldArray[i]) by {
          FlattenStep(oldB, i);
        }
        assert DistinctKeys(Flatten(oldB[..i + 1])) by {
          FlattenPrefix(oldB, i + 1);
          DistinctPrefix(Flatten(oldB), |Flatten(oldB[..i + 1])|);
        }
        MoveChain(ChainOf(oldArray[i]), Flatten(oldB[..i]));
        i := i + 1;
      }
      assert oldB[..i] == oldB;
      RehashSound(Flatten(oldB), maxbucket, []);
    }

    /**
     * The start of growth: the next size of the schedule and a new array of
     * that many NULL buckets, as `calloc` leaves it, with the count reset.
     * The C code never restores the count after this reset; here `MoveAll`
     * counts every binding it moves back in.
     */
    method NextSize()
      requires bucketnum < |BucketCounts| - 1
      modifies this
      ensures Sound() && Repr == {this, psArray} && fresh(psArray)
      ensures bucketnum == old(bucketnum) + 1 && Buckets == EmptyBuckets(maxbucket) && length == 0
    {
      bucketnum := bucketnum + 1;
      maxbucket := BucketCounts[bucketnum];
      psArray := new Option<seq<(Key, V)>>[maxbucket](_ => None);
      length := 0;
      Buckets := EmptyBuckets(maxbucket);
      Repr := {this, psArray};
      HoldsEmpty(psArray[..], maxbucket);
    }

    /**
     * The growth step of `SymTable_put`: moves to the next size of the
     * schedule and moves every binding, bucket by bucket in index order and
     * each chain head to tail, to the head of its bucket in a new array.
     * This is the growth the C comments describe. The C code never restores
     * the count it resets, never advances past old bucket 0, and links into
     * NULL buckets (see `GrowthAsWritten`).
     */
    method Grow()
      requires Sound() && bucketnum < |BucketCounts| - 1
      modifies this
      ensures Sound() && fresh(Repr - {this})
      ensures bucketnum == old(bucketnum) + 1 && length == old(length)
      ensures Buckets == Rehash(old(Bindings()), maxbucket)
    {
      var oldArray := psArray;
      ghost var oldB := Buckets;
      ghost var n := length;
      assert n == |Flatten(oldB)| && oldArray.Length == |oldB|;
      assert forall j :: 0 <= j < |oldB| ==> oldB[j] == ChainOf(oldArray[j]);
      DistinctBindings();
      NextSize();
      MoveAll(oldArray, oldB);
      assert length == n;
      assert Repr - {this} == {psArray};
    }

    /**
     * `SymTable_replace`: a NULL bucket holds nothing and yields `None`;
     * otherwise the chain of the key's bucket does the replace. The old
     * value is returned, the key now maps to `value` when it was bound, and
     * nothing else changes.
     */
    method Replace(key: Key, value: V) returns (r: Option<V>)
      requires Valid()
      modifies Repr
      ensures Valid() && Repr == old(Repr)
      ensures r == Lookup(old(Bindings()), key)
      ensures Buckets == ReplaceInTable(old(Buckets), key, value) && length == old(length)
      ensures forall k :: Lookup(Bindings(), k) ==
                if k == key && KeyIn(key, old(Bindings())) then Some(value) else Lookup(old(Bindings()), k)
    {
      var b := Hash(key, maxbucket);
      ghost var B := Buckets;
      LookupPlaced(B, |B|, key);
      assert forall k :: (Lookup(Flatten(ReplaceInTable(B, key, value)), k) ==
          if k == key && KeyIn(key, Flatten(B)) then Some(value) else Lookup(Flatten(B), k)) by {
        forall k ensures Lookup(Flatten(ReplaceInTable(B, key, value)), k) ==
            if k == key && KeyIn(key, Flatten(B)) then Some(value) else Lookup(Flatten(B), k) {
          TableReplace(B, key, value, k);
        }
      }
      if psArray[b].None? {
        ReplaceOfAbsentKey(B[b], key, value);
        assert B[b := B[b]] == B;
        return None;
      }
      var chain := psArray[b].value;
      r := Lookup(chain, key);
      ghost var S := psArray[..];
      HoldsReplace(S, B, length, key, value);
      psArray[b] := Some(ReplaceFirst(chain, key, value));
      Buckets := ReplaceInTable(B, key, value);
      assert psArray[..] == S[b := Some(ReplaceFirst(chain, key, value))];
    }

    /**
     * `SymTable_remove`: a NULL bucket holds nothing and yields `None`;
     * otherwise the chain of the key's bucket does the remove, and the count
     * drops by one when that chain got shorter. The old value is returned,
     * the key is no longer bound, and nothing else changes.
     */
    method Remove(key: Key) returns (r: Option<V>)
      requires Valid()
      modifies Repr
      ensures Valid() && Repr == old(Repr)
      ensures r == Lookup(old(Bindings()), key)
      ensures Buckets == RemoveInTable(old(Buckets), key)
      ensures length == old(length) - if r.Some? then 1 else 0
      ensures forall k :: Lookup(Bindings(), k) == if k == key then None else Lookup(old(Bindings()), k)
    {
      var b := Hash(key, maxbucket);
      ghost var B := Buckets;
      LookupPlaced(B, |B|, key);
      assert forall k :: (Lookup(Flatten(RemoveInTable(B, key)), k) ==
          if k == key then None else Lookup(Flatten(B), k)) by {
        forall k ensures Lookup(Flatten(RemoveInTable(B, key)), k) ==
            if k == key then None else Lookup(Flatten(B), k) {
          TableRemove(B, key, k);
        }
      }
      if psArray[b].None? {
        RemoveOfAbsentKey(B[b], key);
        assert B[b := B[b]] == B;
        return None;
      }
      var chain := psArray[b].value;
      var prevlen := |chain|;
      r := Lookup(chain, key);
      var rest := RemoveFirst(chain, key);
      ghost var S := psArray[..];
      if r.None? {
        RemoveOfAbsentKey(B[b], key);
        assert B[b := B[b]] == B;
        assert S[b := Some(rest)] == S;
      } else {
        HoldsRemove(S, B, length, key);
      }
      psArray[b] := Some(rest);
      if prevlen > |rest| {
        length := length - 1;
      }
      Buckets := RemoveInTable(B, key);
      assert psArray[..] == S[b := Some(rest)];
    }

    /**
     * `SymTable_map`: the buckets are visited in index order, a NULL bucket
     * skipped and a chain walked head to tail, so the callback sees every
     * binding of the table exactly once, in the order of `Bindings()`; the
     * table is not changed.
     */
    method Map<X>(apply: (Key, V, X) -> X, extra: X) returns (x: X)
      requires Valid()
      ensures x == Fold(Bindings(), apply, extra)
    {
      var bucketLen := maxbucket;
      var i := 0;
      x := extra;
      while i < bucketLen
        invariant 0 <= i <= bucketLen == |Buckets|
        invariant x == Fold(Flatten(Buckets[..i]), apply, extra)
      {
        FlattenStep(Buckets, i);
        FoldAppend(Flatten(Buckets[..i]), Buckets[i], apply, extra);
        if psArray[i].Some? {
          x := Fold(psArray[i].value, apply, x);
        }
        i := i + 1;
      }
      assert Buckets[..i] == Buckets;
    }
  }
}
