/**
 The handle table of a `Zig` instance (src/zig_wasm_exec.js:88-91): a sparse
 table of host values indexed by handle, and a stack of handles given back
 by `finalizeRef`. The source never stores into the table (its `#storeValue`
 has no body), so only finalisation and lookup are modelled.
 */
module ValueTable {
  import opened Wrappers

  /** Handles are the JavaScript numbers the guest passes back; any number
      may be used as a key. */
  type Handle = int

  datatype Table<V> = Table(values: map<Handle, V>, idPool: seq<Handle>)

  /** A new instance: no values and no reclaimed ids. */
  function Empty<V>(): (t: Table<V>)
    ensures forall h :: h !in t.values
    ensures |t.idPool| == 0
    ensures PoolIsFree(t)
  {
    Table(map[], [])
  }

  /** `#loadValue(h)`: the value in slot `h`, or `undefined` for an empty slot. */
  function LoadValue<V>(t: Table<V>, h: Handle): (r: Option<V>)
    ensures r.Some? <==> h in t.values
    ensures r.Some? ==> r.value == t.values[h]
  {
    if h in t.values then Some(t.values[h]) else None
  }

  /** `finalizeRef(h, vType)`: empty slot `h` and push `h` onto the id pool.
      The type argument is ignored and nothing checks that `h` was live. */
  function FinalizeRef<V>(t: Table<V>, h: Handle, vType: int): (r: Table<V>)
    ensures LoadValue(r, h).None?
    ensures forall k :: k != h ==> LoadValue(r, k) == LoadValue(t, k)
    ensures r.values.Keys == t.values.Keys - {h}
    ensures |r.idPool| == |t.idPool| + 1
    ensures r.idPool[..|t.idPool|] == t.idPool && r.idPool[|t.idPool|] == h
  {
    Table(t.values - {h}, t.idPool + [h])
  }

  /** Finalise the handles in order. */
  function FinalizeAll<V>(t: Table<V>, hs: seq<Handle>): (r: Table<V>)
    decreases |hs|
  {
    if |hs| == 0 then t else FinalizeAll(FinalizeRef(t, hs[0], 0), hs[1..])
  }

  /** After a run of finalisations, every finalised slot is empty, every
      other slot keeps its value, and the pool grew by the handles in
      the order they were finalised. */
  lemma {:induction false} FinalizeAllEffect<V>(t: Table<V>, hs: seq<Handle>)
    ensures var r := FinalizeAll(t, hs);
            && r.idPool == t.idPool + hs
            && (forall k :: k !in hs ==> LoadValue(r, k) == LoadValue(t, k))
            && (forall k :: k in hs ==> LoadValue(r, k).None?)
    decreases |hs|
  {
    if |hs| > 0 {
      var t1 := FinalizeRef(t, hs[0], 0);
      FinalizeAllEffect(t1, hs[1..]);
      assert t1.idPool == t.idPool + [hs[0]];
      assert t.idPool + [hs[0]] + hs[1..] == t.idPool + hs;
      assert forall k :: k in hs ==> k == hs[0] || k in hs[1..];
    }
  }

  /** Every reclaimed id refers to an empty slot. */
  ghost predicate PoolIsFree<V>(t: Table<V>)
  {
    forall i :: 0 <= i < |t.idPool| ==> t.idPool[i] !in t.values
  }

  /** Finalisation keeps every pooled id free. */
  lemma FinalizeKeepsPoolFree<V>(t: Table<V>, h: Handle, vType: int)
    requires PoolIsFree(t)
    ensures PoolIsFree(FinalizeRef(t, h, vType))
  {
  }

  /** Starting from a table whose pooled ids are free (a new instance's, in
      particular), every pooled id is still free after any run of finalisations. */
  lemma {:induction false} PoolStaysFree<V>(t: Table<V>, hs: seq<Handle>)
    requires PoolIsFree(t)
    ensures PoolIsFree(FinalizeAll(t, hs))
    decreases |hs|
  {
    if |hs| > 0 {
      FinalizeKeepsPoolFree(t, hs[0], 0);
      PoolStaysFree(FinalizeRef(t, hs[0], 0), hs[1..]);
    }
  }

  /** Finalising a handle twice empties its slot once but pushes it twice,
      so the pool can hold the same id more than once. */
  lemma FinalizeTwicePushesTwice<V>(t: Table<V>, h: Handle, vType: int)
    ensures var r := FinalizeRef(FinalizeRef(t, h, vType), h, vType);
            && r.values == FinalizeRef(t, h, vType).values
            && r.idPool == t.idPool + [h, h]
  {
  }
}
