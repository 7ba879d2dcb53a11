/**
 * The growth step of `SymTable_put` in symtablehash.c as it is written, on
 * values: the walk over the old buckets and `SymTable_putNode`. It shows
 * three defects that `SymTableHash.SymTable.Grow` and
 * `SymTableHash.SymTable.PutNode` correct:
 *
 *  - the outer walk never advances its bucket index `i`;
 *  - `putNode` links into the chain of the new array without creating it,
 *    and `calloc` leaves every bucket of the new array NULL;
 *  - the table's count is reset to 0 before the walk and `putNode` never
 *    counts what it links in.
 *
 * The C walk relinks the old nodes themselves; here a binding is copied.
 * The two agree on the first pass over an old chain only. On a second pass
 * over old bucket 0 the C walk follows `psNext` links that `putNode`
 * already rewrote, and a node alone at the head of its new bucket then
 * links to itself, so the inner walk never ends. Here each pass reads the
 * old chain afresh. The outer index is 0 either way, but the arrays that
 * `StillAt` reports after a second pass are those of this reading.
 */
module GrowthAsWritten {
  import opened Bindings
  import opened SymTableHash

  /** The buckets of an array: `None` is a NULL bucket, `Some(c)` a chain. */
  type Slots<V> = seq<Option<seq<(Key, V)>>>

  /** The bindings of each bucket of an array. */
  function ChainsOf<V>(slots: Slots<V>): (B: seq<seq<(Key, V)>>)
    ensures |B| == |slots| && forall i :: 0 <= i < |slots| ==> B[i] == ChainOf(slots[i])
  {
    seq(|slots|, i requires 0 <= i < |slots| => ChainOf(slots[i]))
  }

  /** No bucket of the array is NULL. */
  predicate AllChains<V>(slots: Slots<V>)
  {
    forall i :: 0 <= i < |slots| ==> slots[i].Some?
  }

  /** The array `calloc` returns: `m` NULL buckets. */
  function NullSlots<V>(m: nat): (slots: Slots<V>)
    ensures |slots| == m && forall i :: 0 <= i < m ==> slots[i].None?
  {
    seq(m, _ => None)
  }

  /**
   * `SymTable_putNode` as written: the result is `None` when the key's
   * bucket is NULL, where the C code dereferences the NULL chain; otherwise
   * the binding is linked in at the head of the chain, and the table's
   * count is left as it was.
   */
  function PutNodeAsWritten<V>(slots: Slots<V>, length: nat, x: (Key, V)): (r: Option<(Slots<V>, nat)>)
    requires |slots| > 0
    ensures r.None? <==> slots[Bucket(x.0, |slots|)].None?
    ensures r.Some? ==> |r.value.0| == |slots| && r.value.1 == length
  {
    var b := Bucket(x.0, |slots|);
    if slots[b].None? then None else Some((slots[b := Some([x] + slots[b].value)], length))
  }

  /**
   * The inner walk as written: every binding of an old chain, head to
   * tail, through `PutNodeAsWritten`; `None` once one of them dereferences
   * NULL.
   */
  function WalkAsWritten<V>(slots: Slots<V>, length: nat, chain: seq<(Key, V)>): (r: Option<(Slots<V>, nat)>)
    requires |slots| > 0
    ensures r.Some? ==> |r.value.0| == |slots| && r.value.1 == length
    decreases |chain|
  {
    if chain == [] then Some((slots, length))
    else
      match PutNodeAsWritten(slots, length, chain[0])
      case None => None
      case Some(st) => WalkAsWritten(st.0, st.1, chain[1..])
  }

  /** How a run of the outer walk ends. */
  datatype Run<V> =
    | NullDereference
    | Finished(slots: Slots<V>, length: nat)
    | StillAt(i: nat, slots: Slots<V>, length: nat)

  /**
   * The outer walk as written, run for at most `fuel` iterations: it walks
   * the chain of old bucket `i` and goes round again with the same `i`.
   * `StillAt` is where the walk stands when the fuel runs out. It finishes
   * only when it starts past the last old bucket, and it never moves on to
   * another bucket.
   */
  function GrowAsWritten<V>(oldArray: Slots<V>, slots: Slots<V>, length: nat, i: nat, fuel: nat): (r: Run<V>)
    requires |slots| > 0
    ensures r.Finished? <==> i >= |oldArray|
    ensures r.StillAt? ==> r.i == i
    decreases fuel
  {
    if i >= |oldArray| then Finished(slots, length)
    else if fuel == 0 then StillAt(i, slots, length)
    else
      match WalkAsWritten(slots, length, ChainOf(oldArray[i]))
      case None => NullDereference
      case Some(st) => GrowAsWritten(oldArray, st.0, st.1, i, fuel - 1)
  }

  /**
   * The first `putNode` of a growth always dereferences NULL: every bucket
   * of the freshly allocated array is NULL.
   */
  lemma PutNodeIntoFreshArray<V>(m: nat, length: nat, x: (Key, V))
    requires m > 0
    ensures PutNodeAsWritten(NullSlots(m), length, x) == None
  {
  }

  /**
   * Growth as written never finishes: when old bucket 0 has bindings, the
   * first one dereferences NULL; otherwise the walk goes round bucket 0
   * for as long as it runs, changing nothing.
   */
  lemma {:induction false} GrowthNeverFinishes<V>(oldArray: Slots<V>, m: nat, length: nat, fuel: nat)
    requires |oldArray| > 0 && m > 0
    ensures GrowAsWritten(oldArray, NullSlots(m), length, 0, fuel) ==
              if fuel > 0 && ChainOf(oldArray[0]) != [] then NullDereference
              else StillAt(0, NullSlots(m), length)
  {
    if fuel > 0 && ChainOf(oldArray[0]) == [] {
      GrowthNeverFinishes(oldArray, m, length, fuel - 1);
    }
  }

  /**
   * Even with every new bucket already a chain, the walk as written stays
   * at old bucket 0 however long it runs, so it never reaches the other
   * old buckets.
   */
  lemma {:induction false} IndexNeverAdvances<V>(oldArray: Slots<V>, slots: Slots<V>, length: nat, fuel: nat)
    requires |oldArray| > 0 && |slots| > 0 && AllChains(slots)
    ensures GrowAsWritten(oldArray, slots, length, 0, fuel).StillAt?
    ensures GrowAsWritten(oldArray, slots, length, 0, fuel).i == 0
    decreases fuel
  {
    if fuel > 0 {
      var chain := ChainOf(oldArray[0]);
      WalkIntoChains(slots, length, chain);
      var st := WalkAsWritten(slots, length, chain).value;
      IndexNeverAdvances(oldArray, st.0, st.1, fuel - 1);
    }
  }

  /**
   * Into an array with no NULL bucket, the walk as written links in every
   * binding of the chain, so the array holds `|chain|` more bindings, yet
   * the count it returns is the one it was given.
   */
  lemma {:induction false} WalkIntoChains<V>(slots: Slots<V>, length: nat, chain: seq<(Key, V)>)
    requires |slots| > 0 && AllChains(slots)
    ensures WalkAsWritten(slots, length, chain).Some?
    ensures var st := WalkAsWritten(slots, length, chain).value;
              |st.0| == |slots| && AllChains(st.0) && st.1 == length
              && |Flatten(ChainsOf(st.0))| == |Flatten(ChainsOf(slots))| + |chain|
    decreases |chain|
  {
    if chain != [] {
      var x := chain[0];
      var b := Bucket(x.0, |slots|);
      var slots' := slots[b := Some([x] + slots[b].value)];
      assert PutNodeAsWritten(slots, length, x) == Some((slots', length));
      assert ChainsOf(slots') == ChainsOf(slots)[b := [x] + ChainsOf(slots)[b]];
      FlattenLengthUpdate(ChainsOf(slots), b, [x] + ChainsOf(slots)[b]);
      WalkIntoChains(slots', length, chain[1..]);
    }
  }

  /**
   * The count drifts: after a walk that starts from the reset count 0 and
   * moves a non-empty chain, the count is still 0 while the array holds
   * bindings.
   */
  lemma CountStaysZero<V>(slots: Slots<V>, chain: seq<(Key, V)>)
    requires |slots| > 0 && AllChains(slots) && chain != []
    ensures WalkAsWritten(slots, 0, chain).Some?
    ensures var st := WalkAsWritten(slots, 0, chain).value;
              st.1 == 0 && |Flatten(ChainsOf(st.0))| > 0
  {
    WalkIntoChains(slots, 0, chain);
  }
}
