/**
 * The table's contents as a value: the sequence of entries held by the backing
 * array. `Lookup` and `Store` are what `get` and `insert` do to the one slot
 * they touch; `InsertAll` replays a run of inserts, and the lemmas say what a
 * later `get` sees.
 */
module Table {
  import opened Wrappers
  import opened Entry
  import Slot

  /** A freshly created table of `len` entries, each the `Default` entry. */
  function Fresh<V>(len: nat, dflt: V): (r: seq<HashmapEntry<V>>)
    ensures |r| == len
    ensures forall i :: 0 <= i < len ==> r[i] == DefaultEntry(dflt)
  {
    seq(len, _ => DefaultEntry(dflt))
  }

  /**
   * The answer `get` gives for a slot: nothing when the slot is `Empty`,
   * otherwise its value. The stored hash is not compared with anything.
   */
  function Lookup<V>(entries: seq<HashmapEntry<V>>, slot: nat): (r: Option<V>)
    requires slot < |entries|
    ensures r.None? <==> entries[slot].state == Empty
    ensures r.Some? ==> r.value == entries[slot].value
  {
    match entries[slot].state
    case Empty => None
    case Occupied => Some(entries[slot].value)
  }

  /**
   * The entries after `insert` wrote `tagged` and `v` into `slot` and marked it
   * `Occupied`: that one entry is replaced and every other is kept.
   */
  function Store<V>(entries: seq<HashmapEntry<V>>, slot: nat, tagged: bv64, v: V): (r: seq<HashmapEntry<V>>)
    requires slot < |entries|
    ensures |r| == |entries|
    ensures r[slot] == HashmapEntry(tagged, Occupied, v)
    ensures forall i :: 0 <= i < |entries| && i != slot ==> r[i] == entries[i]
  {
    entries[slot := HashmapEntry(tagged, Occupied, v)]
  }

  /** A freshly created table answers `get` with nothing at every slot. */
  lemma FreshLookupNone<V>(len: nat, dflt: V, slot: nat)
    requires slot < len
    ensures Lookup(Fresh(len, dflt), slot) == None
  {
  }

  /**
   * After an insert, a lookup of the written slot yields the inserted value,
   * and a lookup of any other slot yields what it did before.
   */
  lemma LookupAfterStore<V>(entries: seq<HashmapEntry<V>>, slot: nat, tagged: bv64, v: V, other: nat)
    requires slot < |entries| && other < |entries|
    ensures Lookup(Store(entries, slot, tagged, v), slot) == Some(v)
    ensures other != slot ==> Lookup(Store(entries, slot, tagged, v), other) == Lookup(entries, other)
  {
  }

  /**
   * Keys that share a slot share its entry: after inserting `v` under `k1`, a
   * lookup for any `k2` that lands on the same slot yields `v`, whether or not
   * `k2` was ever inserted.
   */
  lemma CollidingKeysShareEntry<K, V>(entries: seq<HashmapEntry<V>>, hasher: K -> bv64, k1: K, k2: K, v: V)
    requires 0 < |entries|
    requires Slot.Locate(hasher(k1), |entries|).0 == Slot.Locate(hasher(k2), |entries|).0
    ensures
      var (slot, tagged) := Slot.Locate(hasher(k1), |entries|);
      Lookup(Store(entries, slot, tagged, v), Slot.Locate(hasher(k2), |entries|).0) == Some(v)
  {
  }

  /** The entries after inserting every `(key, value)` of `ops`, in order. */
  function InsertAll<K, V>(entries: seq<HashmapEntry<V>>, hasher: K -> bv64, ops: seq<(K, V)>): (r: seq<HashmapEntry<V>>)
    requires 0 < |entries|
    ensures |r| == |entries|
    decreases |ops|
  {
    if ops == [] then entries
    else
      var before := InsertAll(entries, hasher, ops[..|ops| - 1]);
      var (k, v) := ops[|ops| - 1];
      var (slot, tagged) := Slot.Locate(hasher(k), |before|);
      Store(before, slot, tagged, v)
  }

  /**
   * The value of the last operation of `ops` whose key lands on `slot`, or
   * nothing when no key of `ops` lands there.
   */
  function LastWrite<K, V>(hasher: K -> bv64, len: nat, ops: seq<(K, V)>, slot: nat): (r: Option<V>)
    requires 0 < len
    ensures r.None? <==> forall i :: 0 <= i < |ops| ==> Slot.Locate(hasher(ops[i].0), len).0 != slot
    ensures r.Some? ==> exists i :: 0 <= i < |ops| && Slot.Locate(hasher(ops[i].0), len).0 == slot && ops[i].1 == r.value
    decreases |ops|
  {
    if ops == [] then None
    else if Slot.Locate(hasher(ops[|ops| - 1].0), len).0 == slot then Some(ops[|ops| - 1].1)
    else LastWrite(hasher, len, ops[..|ops| - 1], slot)
  }

  /**
   * After a run of inserts, a lookup of a slot yields the value of the last
   * insert that landed on that slot, and what the slot held before the run
   * when no insert landed there.
   */
  lemma {:induction false} LookupAfterInsertAll<K, V>(entries: seq<HashmapEntry<V>>, hasher: K -> bv64, ops: seq<(K, V)>, slot: nat)
    requires 0 < |entries| && slot < |entries|
    ensures Lookup(InsertAll(entries, hasher, ops), slot) ==
      match LastWrite(hasher, |entries|, ops, slot)
      case Some(v) => Some(v)
      case None => Lookup(entries, slot)
    decreases |ops|
  {
    if ops != [] {
      var prefix := ops[..|ops| - 1];
      LookupAfterInsertAll(entries, hasher, prefix, slot);
      var before := InsertAll(entries, hasher, prefix);
      var (k, v) := ops[|ops| - 1];
      var (s, tagged) := Slot.Locate(hasher(k), |before|);
      LookupAfterStore(before, s, tagged, v, slot);
    }
  }

  /** When the keys of `ops` land on pairwise distinct slots, the last write to each key's slot is that key's own. */
  lemma LastWriteOfDistinct<K, V>(hasher: K -> bv64, len: nat, ops: seq<(K, V)>, i: nat)
    requires 0 < len && i < |ops|
    requires forall a, b :: 0 <= a < b < |ops| ==> Slot.Locate(hasher(ops[a].0), len).0 != Slot.Locate(hasher(ops[b].0), len).0
    ensures LastWrite(hasher, len, ops, Slot.Locate(hasher(ops[i].0), len).0) == Some(ops[i].1)
  {
  }

  /**
   * Insert/get consistency: when the keys of a run of inserts land on pairwise
   * distinct slots, a lookup of each key's slot afterwards yields the value
   * inserted under it.
   */
  lemma InsertAllConsistent<K, V>(entries: seq<HashmapEntry<V>>, hasher: K -> bv64, ops: seq<(K, V)>)
    requires 0 < |entries|
    requires forall a, b :: 0 <= a < b < |ops| ==> Slot.Locate(hasher(ops[a].0), |entries|).0 != Slot.Locate(hasher(ops[b].0), |entries|).0
    ensures forall i :: 0 <= i < |ops| ==>
      Lookup(InsertAll(entries, hasher, ops), Slot.Locate(hasher(ops[i].0), |entries|).0) == Some(ops[i].1)
  {
    forall i | 0 <= i < |ops|
      ensures Lookup(InsertAll(entries, hasher, ops), Slot.Locate(hasher(ops[i].0), |entries|).0) == Some(ops[i].1)
    {
      LastWriteOfDistinct(hasher, |entries|, ops, i);
      LookupAfterInsertAll(entries, hasher, ops, Slot.Locate(hasher(ops[i].0), |entries|).0);
    }
  }

}
