# kcSymTable in Dafny

A model of the two symbol tables of kcSymTable. Both map C-string keys to
opaque values through the same interface: `new`, `getLength`, `put`,
`contains`, `get`, `replace`, `remove` and `map`.

- `symtablelist.c` is an unsorted singly-linked list. A new binding goes in
  at the head. A key that is already bound is refused. `length` counts the
  nodes.
- `symtablehash.c` is a separate-chaining hash table. It is an array of
  chains indexed by `SymTable_hash(key, maxbucket)`, a multiply-by-65599
  string hash over `size_t`. The array grows through the prime sizes 509,
  1021, 2039, 4093, 8191, 16381, 32749 and 65521. Growth happens when a
  `put` makes the count equal the bucket count and a larger size is left.

The model has four modules, one per file.

- `Bindings` (`bindings.dfy`)
  - Keys are sequences of non-zero characters: the bytes `strcmp` compares.
  - Absence (the C `NULL`) is `Option`.
  - A chain is seen as the sequence of its (key, value) pairs, head first.
  - It holds the functions that say what a chain operation does:
    - `Lookup`: the first binding with the key;
    - `ReplaceFirst` and `RemoveFirst`;
    - `Fold`: the callback of `map` threaded over the chain;
    - lemmas about all of them.
- `SymTableList` (`symtable_list.dfy`) is `symtablelist.c` as it is written.
  - A `Node` class and a `SymTable` class hold `psFirst` and `length`.
  - The ghost views `nodes` and `Contents` say what the links spell out.
  - Every operation is a method walking `psFirst`/`psNext` with a loop. It
    is proved against the `Bindings` functions:
    - `put` refuses a present key or pushes at the head;
    - `replace` rewrites the first node with the key;
    - `remove` unlinks the head or an interior node.
  - The invariant `Valid` is kept by every operation:
    - the links walk `nodes` and end in NULL;
    - `length` counts them;
    - no key occurs twice.
  - `symtablehash.c` carries a renamed copy of this list code as
    `LinkedList_*` (symtablehash.c:73-245), line for line the same.
    The proofs here therefore stand for those functions too.
- `SymTableHash` (`symtable_hash.dfy`) is `symtablehash.c`.
  - The hash is stated twice:
    - as a function over the key, with `size_t` wrap-around modulo 2^64 and
      the sign extension of a signed `char`;
    - as the loop of `SymTable_hash`, proved equal to that function.
  - The table is a class with `maxbucket`, `length`, `bucketnum` and
    `psArray`, an array of buckets.
    - A bucket is `None` (NULL) or `Some(chain)`. The chain is held as its
      sequence of bindings.
    - Each `LinkedList_*` call becomes the `Bindings` function that the
      `SymTableList` methods are proved to compute.
  - The ghost `Buckets` is the array seen as bindings only. The invariant
    says:
    - every binding sits in the bucket its key hashes to;
    - no chain repeats a key;
    - `length` counts the bindings;
    - `maxbucket == auBucketCounts[bucketnum]`.
  - From the invariant the model proves:
    - no key is bound twice in the whole table;
    - a lookup in the key's bucket is a lookup in the whole table.
  - Growth is modelled as its comments describe it. It moves to the next
    size and relinks every old binding, bucket by bucket and head to tail,
    at the head of its new bucket (`Rehash`). `RehashSound` proves this keeps
    every binding, its value and the count.
- `GrowthAsWritten` (`growth_as_written.dfy`) is the growth loop of
  `SymTable_put` as it is written, on values: the missing `i++`, the
  `putNode` that does not make the chain, and the count reset to 0. It
  shows the three defects listed under Findings. Bindings are copied rather
  than relinked, so a second pass over old bucket 0 differs from the C code
  (see Left out).

## Model

| member | source | states |
|---|---|---|
| Bindings.Lookup | symtablelist.c:95-107 | the lookup finds a value exactly when some binding has the key, and the value it finds is bound to that key |
| Bindings.LookupFirst | symtablelist.c:99-106 | the walk that stops at the first node with the key returns that node's value |
| Bindings.ReplaceFirst | symtablelist.c:115-123 | replacing keeps the number of bindings and every key in its place |
| Bindings.RemoveFirst | symtablelist.c:146-158 | removing drops one binding exactly when the key is present and introduces no binding |
| Bindings.RemoveFirstAt | symtablelist.c:146-158 | the binding removed is the first one with the key; the bindings before and after it keep their order |
| Bindings.ReplaceFirstAt | symtablelist.c:115-123 | the binding rewritten is the first one with the key, and only it |
| Bindings.ReplaceOfAbsentKey | symtablelist.c:119-121 | replace with an absent key changes nothing |
| Bindings.RemoveOfAbsentKey | symtablelist.c:150-152 | remove with an absent key changes nothing |
| Bindings.LookupAfterReplace | symtablelist.c:109-125 | after replace, a present key maps to the new value, every other key keeps its value, and keys stay distinct |
| Bindings.LookupAfterRemove | symtablelist.c:127-160 | after remove, the key is unbound, every other key keeps its value, and keys stay distinct |
| Bindings.LookupPrepend | symtablelist.c:74-75 | a binding pushed at the head changes the lookup of its own key only |
| Bindings.LookupConcat | symtablehash.c:351-355 | a lookup over chains laid end to end finds the binding of the first chain holding the key |
| Bindings.DistinctChainIff | symtablelist.c:59-65 | keys are distinct exactly when, node by node, the head's key is absent from the rest |
| Bindings.Fold | symtablelist.c:184-187 | the callback of `map` applied to each binding in chain order, head to tail, each call given the extra the previous call left |
| Bindings.FoldAppend | symtablehash.c:422-427 | mapping over chains laid end to end maps over the first, then over the second from where it stopped |
| Bindings.FoldVisitsEachOnce | symtablelist.c:184-187 | `map` shows the callback every binding exactly once, head to tail: a recording callback ends with exactly the chain |
| SymTableList.SymTable.Valid | symtablelist.c:28-36 | the invariant every operation keeps: `psFirst` and the `psNext` links walk the nodes and end in NULL, `length` counts them, each node holds its binding, and no key occurs twice |
| SymTableList.SymTable.NodesDistinct | symtablelist.c:146-149 | the walk along `psNext` never meets a node twice |
| SymTableList.SymTable.constructor | symtablelist.c:38-47 | a new list is empty, with length 0 |
| SymTableList.SymTable.GetLength | symtablelist.c:48-50 | the stored length is the number of bindings |
| SymTableList.SymTable.Search | symtablelist.c:59-62 | the walk ends at NULL exactly when the key is absent, and otherwise at the first node holding the key |
| SymTableList.SymTable.PushFront | symtablelist.c:66-77 | the new binding becomes the head and the others keep their order; the invariant holds |
| SymTableList.SymTable.Put | symtablelist.c:52-78 | succeeds exactly when the key was absent; on success the binding is at the head and length grows by one, otherwise nothing changes |
| SymTableList.SymTable.Contains | symtablelist.c:81-93 | true exactly when some binding has the key |
| SymTableList.SymTable.Get | symtablelist.c:95-107 | the value bound to the key, or None when it is absent |
| SymTableList.SymTable.SetItem | symtablelist.c:122-123 | only the value at the found node changes; links, length and the other nodes stay |
| SymTableList.SymTable.Replace | symtablelist.c:109-125 | returns the old value; the first binding with the key gets the new value; an absent key changes nothing |
| SymTableList.SymTable.UnlinkFirst | symtablelist.c:137-145 | unlinking the head leaves the tail in order, with length one less |
| SymTableList.SymTable.UnlinkAfter | symtablelist.c:153-159 | bypassing the node after `cur` drops exactly that binding, keeps the rest in order, with length one less |
| SymTableList.SymTable.Remove | symtablelist.c:127-160 | returns the value of the key; drops exactly its binding, head or interior, and keeps the rest in order; length drops by one exactly when the key was present; an absent key, empty list included, changes nothing |
| SymTableList.SymTable.Map | symtablelist.c:176-188 | the callback is folded over every binding head to tail, and the list is not changed |
| SymTableHash.CharValue | symtablehash.c:261 | `(size_t)` of a signed char: bytes below 128 keep their value, the others sign-extend to 2^64 + c - 256 |
| SymTableHash.HashValue | symtablehash.c:260-261 | the accumulated hash is a `size_t` value, below 2^64 |
| SymTableHash.HashIsPolynomialModSize | symtablehash.c:260-261 | wrapping at every step gives the base-65599 value of the key reduced modulo 2^64 once |
| SymTableHash.Bucket | symtablehash.c:263 | the bucket lies in `[0, count)` |
| SymTableHash.Hash | symtablehash.c:254-264 | the loop computes the bucket of the key for the given count |
| SymTableHash.ScheduleIncreases | symtablehash.c:19-20 | each size of the schedule is larger than the one before |
| SymTableHash.Insert | symtablehash.c:306-311 | a binding linked in at the head of the chain of the bucket its key hashes to, with the number of buckets unchanged |
| SymTableHash.Rehash | symtablehash.c:329-340 | the intended rebuild has exactly the new number of buckets |
| SymTableHash.RehashSound | symtablehash.c:313-343 | the intended growth leaves every binding in its bucket, keeps the count and gives every key the value it had |
| SymTableHash.LookupPlaced | symtablehash.c:351-355 | when bindings sit in their buckets, a lookup in the key's bucket is a lookup in the whole table |
| SymTableHash.DistinctPlaced | symtablehash.c:55-69 | placed buckets with distinct keys each bind no key twice across the whole table |
| SymTableHash.UpdateBucket | symtablehash.c:306-311 | changing one bucket changes only the lookups of keys hashing to it |
| SymTableHash.ReplaceInTable | symtablehash.c:369-380 | replace dispatched to the chain of the bucket the key hashes to, the other buckets unchanged |
| SymTableHash.RemoveInTable | symtablehash.c:382-398 | remove dispatched to the chain of the bucket the key hashes to, the other buckets unchanged |
| SymTableHash.TableInsert | symtablehash.c:305-312 | a head insertion into the key's bucket keeps bindings placed, adds one binding, binds the key to the value and leaves other keys alone |
| SymTableHash.TableReplace | symtablehash.c:369-380 | replace in the key's bucket keeps placement and count; a bound key gets the new value; other keys are unchanged |
| SymTableHash.TableRemove | symtablehash.c:382-398 | remove in the key's bucket keeps placement; the count drops exactly when the key was bound; the key is unbound; other keys are unchanged |
| SymTableHash.MoveStep | symtablehash.c:335-339 | moving the next old binding puts a key not moved before at the head of its new bucket |
| SymTableHash.HoldsEmpty | symtablehash.c:281-285 | an array of NULL buckets from `calloc` is a table of empty buckets and count 0 |
| SymTableHash.HoldsInsert | symtablehash.c:306-311 | linking in an unbound key keeps the table invariant, with count plus one |
| SymTableHash.HoldsReplace | symtablehash.c:378-379 | replacing in the key's chain keeps the table invariant and the count |
| SymTableHash.HoldsRemove | symtablehash.c:392-396 | removing a bound key from its chain keeps the table invariant, with count minus one |
| SymTableHash.SymTable.Sound | symtablehash.c:55-69 | the table invariant: `maxbucket == auBucketCounts[bucketnum]` sizes the array, every binding sits in the bucket its key hashes to, no chain repeats a key, and `length` counts the bindings |
| SymTableHash.SymTable.Valid | symtablehash.c:313-317 | between operations the table also holds fewer bindings than buckets below the last size, since the put that reaches `maxbucket` grows |
| SymTableHash.SymTable.DistinctBindings | symtablehash.c:55-69 | no key is bound twice anywhere in the table |
| SymTableHash.SymTable.constructor | symtablehash.c:276-287 | a new table has 509 NULL buckets, bucket index 0 and no binding |
| SymTableHash.SymTable.GetLength | symtablehash.c:290-292 | the stored length is the number of bindings in all chains |
| SymTableHash.SymTable.Contains | symtablehash.c:347-356 | true exactly when the table binds the key; a NULL bucket answers false |
| SymTableHash.SymTable.Get | symtablehash.c:358-367 | the value the table binds to the key, or None |
| SymTableHash.SymTable.PutBinding | symtablehash.c:305-312 | succeeds exactly when the key was unbound; then the binding heads its bucket's chain, made when NULL, and length grows by one |
| SymTableHash.SymTable.Put | symtablehash.c:297-345 | succeeds exactly when the key was unbound, adds one to length on success, grows exactly when length reaches maxbucket below the last size, and afterwards the key maps to the value and every other key as before |
| SymTableHash.SymTable.PutNode | symtablehash.c:266-274 | links a binding at the head of its bucket, making the chain when the bucket is NULL, and counts it |
| SymTableHash.SymTable.MoveChain | symtablehash.c:335-339 | moving one old chain head to tail extends the rebuild by that chain |
| SymTableHash.SymTable.MoveAll | symtablehash.c:330-340 | walking every old bucket in index order rebuilds the table as `Rehash` of all old bindings, with the same count |
| SymTableHash.SymTable.NextSize | symtablehash.c:323-328 | bucket index plus one, maxbucket the next size, a fresh array of NULL buckets, count 0 |
| SymTableHash.SymTable.Grow | symtablehash.c:313-343 | the next size, the same count, and the buckets rebuilt from the old bindings |
| SymTableHash.SymTable.Replace | symtablehash.c:369-380 | returns the old value; a bound key gets the new value; every other key and the count are unchanged; a NULL bucket returns None |
| SymTableHash.SymTable.Remove | symtablehash.c:382-398 | returns the old value; the key is unbound; every other key is unchanged; length drops by one exactly when a binding went; a NULL bucket returns None |
| SymTableHash.SymTable.Map | symtablehash.c:415-428 | the callback is folded over every binding, bucket by bucket in index order and head to tail, and the table is not changed |
| GrowthAsWritten.PutNodeAsWritten | symtablehash.c:266-274 | `putNode` as written fails exactly when the key's bucket is NULL, and never changes the count |
| GrowthAsWritten.WalkAsWritten | symtablehash.c:335-339 | the inner walk as written never changes the count |
| GrowthAsWritten.GrowAsWritten | symtablehash.c:330-340 | the outer loop as written finishes only when it starts past the last old bucket, and whenever it stops it is still at the old bucket it started from |
| GrowthAsWritten.PutNodeIntoFreshArray | symtablehash.c:326-327 | into the array `calloc` just returned, the first `putNode` dereferences NULL |
| GrowthAsWritten.GrowthNeverFinishes | symtablehash.c:330-340 | growth as written never finishes: it dereferences NULL on the first binding, or spins on bucket 0 while the buckets stay NULL |
| GrowthAsWritten.IndexNeverAdvances | symtablehash.c:330-340 | even with no NULL bucket, the outer walk stays at old bucket 0 however long it runs |
| GrowthAsWritten.WalkIntoChains | symtablehash.c:328-339 | moving a chain adds its bindings to the array but leaves the count as it was |
| GrowthAsWritten.CountStaysZero | symtablehash.c:328 | after the reset, moving a non-empty chain leaves the count 0 while the array holds bindings |

## Left out

- `SymTable_free` and `LinkedList_free` (symtablelist.c:162-174, symtablehash.c:215-227, 400-413) only release memory. They are not modelled. The same goes for the `free` calls in `remove` and the release of the old array during growth.
- The old `LinkedList` headers are never freed during growth, so they leak. The model has no deallocation, so it cannot show this.
- Allocation failure is not modelled: `malloc` and `calloc` always succeed. The NULL returns of `new` and `LinkedList_new` and the 0 return of `put` after a failed `malloc` are therefore left out.
- The `strcpy` copy of a key is modelled as storing the key value. The copy is private to the table, so no caller can change it.
- The debug `printf("hi")` in `SymTable_putNode` is output only.
- The `map` callback is a pure function of (key, value, extra) that returns the next extra. A callback that writes through `pvExtra` into shared state, or that changes the table, is not modelled.
- `int` results (0/1) are `bool`. A `NULL` value result is `None`. The C interface cannot tell a key bound to NULL from an absent key. The model can, since `Some(v)` may hold any value.
- The `assert` non-NULL checks on the table and key pointers are covered by Dafny's non-null types.
- The `size_t` counts `length`, `maxbucket` and `bucketnum` are unbounded naturals. They stay far below 2^64. The hash, whose wrap-around matters, is computed modulo 2^64 explicitly.
- Only platforms where `char` is signed are modelled. On an unsigned-`char` platform, bytes from 128 up would add their own value to the hash.
- SymTableHash.SymTable: each bucket holds its chain as a value. There is no `LinkedList` header object and no node objects. The pointer operations on a chain are modelled in `SymTableList`, whose code `LinkedList_*` repeats; the table applies the functions those methods are proved to compute. As a result the model does not capture the following:
  - node identity;
  - aliasing between chains;
  - growth relinking the old nodes rather than copying their bindings.
- SymTableHash.SymTable.Put: after a growth, its contract gives the count, the bucket index and every lookup. The new bucket layout is stated by `SymTableHash.SymTable.Grow`, which `Put` calls.
- SymTableList.SymTable.Remove: the unlinked node may remain in the ghost footprint `Repr`. In the C code it is freed.
- GrowthAsWritten.GrowAsWritten: growth as written does not terminate, so the model runs it for at most `fuel` iterations of the outer loop. When the fuel runs out it reports where the loop stands.
- GrowthAsWritten.GrowAsWritten: each pass over old bucket 0 reads that bucket's bindings afresh. The C code re-reads `oldArray[0]->psFirst` but then follows `psNext` links that `SymTable_putNode` rewrote on the first pass (symtablehash.c:270-271). A node alone at the head of its new bucket then points to itself, so the C inner walk never ends. The index staying at 0 holds either way. The arrays that `StillAt` reports after a second pass do not match the C memory.
- `tester.c` is a driver that only calls the interface. `symtable.h` holds declarations only. Neither is part of this model.

## Findings

| source | as written | input that shows it | evidently intended | confidence | as-written member | corrected member |
|---|---|---|---|---|---|---|
| symtablehash.c:330-340 | the outer `while (i < bucketLen)` never increments `i`, so only old bucket 0 is ever walked, forever | any growth: when the new buckets are not NULL, the walk is still at `i == 0` after any number of iterations | `i++` after the inner walk, so every old bucket is moved once | high (not executed) | GrowthAsWritten.IndexNeverAdvances | SymTableHash.SymTable.MoveAll |
| symtablehash.c:266-274 | `putNode` reads `psArray[hashval]->psFirst`, but the `calloc` at symtablehash.c:326-327 left every bucket NULL | the 509th successful `put` into a new table when old bucket 0 holds a binding: the first `putNode` dereferences NULL | make the chain when the bucket is NULL, as `SymTable_put` does at symtablehash.c:306-308 | high (not executed) | GrowthAsWritten.PutNodeIntoFreshArray | SymTableHash.SymTable.PutNode |
| symtablehash.c:328 | `length` is reset to 0 before the walk and `putNode` never adds to it, so after growth the count is 0 while the table holds bindings | growth moving a non-empty chain into buckets that are not NULL: the count stays 0 | `length` unchanged across growth, or `putNode` adding one per binding | high (not executed) | GrowthAsWritten.CountStaysZero | SymTableHash.SymTable.Grow |
