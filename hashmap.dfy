/**
 * `PersistentHashmap`: a fixed-length array of `HashmapEntry` records indexed
 * directly by the key's tagged hash modulo the array length. `insert`
 * overwrites the one entry at that slot in place; `get` reads it.
 */
module Hashmap {
  import opened Wrappers
  import opened Entry
  import Slot
  import Table

  /** 2^64: array lengths and sizes are 64-bit unsigned integers. */
  const U64Limit: int := 0x1_0000_0000_0000_0000

  class PersistentHashmap<K, V> {
    /** The fixed key hash function (a keyed hasher with a constant seed). */
    const hasher: K -> bv64
    /** The backing array; its length never changes. */
    const entries: array<HashmapEntry<V>>

    /**
     * `new`: a table of `size` default entries. `dflt` is the value type's
     * `Default`. Creating the backing storage is not modelled.
     */
    constructor New(size: nat, hasher: K -> bv64, dflt: V)
      requires size < U64Limit
      ensures this.hasher == hasher
      ensures fresh(entries)
      ensures entries[..] == Table.Fresh(size, dflt)
    {
      this.hasher := hasher;
      entries := new HashmapEntry<V>[size](_ => DefaultEntry(dflt));
    }

    /**
     * `get_slot_and_hash`: the slot and the tagged hash of `k`. It reads no
     * entry, so it depends on the key, the hash function and the length only.
     */
    function SlotAndHash(k: K): (r: (nat, bv64))
      requires 0 < entries.Length
      ensures r.0 < entries.Length
      ensures r.1 & Slot.OccupiedBit == Slot.OccupiedBit
      ensures r.1 & Slot.LowMask == hasher(k) & Slot.LowMask
      ensures r.0 == (r.1 as int) % entries.Length
    {
      Slot.Locate(hasher(k), entries.Length)
    }

    /**
     * `insert`: writes the tagged hash, `Occupied` and `v` into the entry at
     * `k`'s slot and returns the value that entry held before. The state is
     * set to `Occupied` before it is examined, so the `Empty` arm never runs
     * and the result is always `Some`, even for a slot never written before.
     */
    method Insert(k: K, v: V) returns (r: Option<V>)
      requires 0 < entries.Length
      modifies entries
      ensures entries[SlotAndHash(k).0] == HashmapEntry(SlotAndHash(k).1, Occupied, v)
      ensures forall i :: 0 <= i < entries.Length && i != SlotAndHash(k).0 ==> entries[i] == old(entries[i])
      ensures entries[..] == Table.Store(old(entries[..]), SlotAndHash(k).0, SlotAndHash(k).1, v)
      ensures r == Some(old(entries[SlotAndHash(k).0].value))
    {
      var (slot, hash) := SlotAndHash(k);
      var entry := entries[slot];
      entry := entry.(hash := hash);
      entry := entry.(state := Occupied);
      match entry.state {
        case Empty =>
          entry := entry.(value := v);
          r := None;
        case Occupied =>
          var previous := entry.value;
          entry := entry.(value := v);
          r := Some(previous);
      }
      entries[slot] := entry;
    }

    /**
     * `get`: nothing when the entry at `k`'s slot is `Empty`, otherwise that
     * entry's value. The stored hash is not compared with `k`'s.
     */
    function Get(k: K): (r: Option<V>)
      reads entries
      requires 0 < entries.Length
      ensures r.None? <==> entries[SlotAndHash(k).0].state == Empty
      ensures r.Some? ==> r.value == entries[SlotAndHash(k).0].value
    {
      Table.Lookup(entries[..], SlotAndHash(k).0)
    }
  }

  /**
   * Insert into a new table, then read back: the insert returns the default
   * value rather than nothing, and the read returns the inserted value, as
   * does a read of any key that lands on the same slot.
   */
  method InsertIntoNewTable<K, V>(hasher: K -> bv64, dflt: V, size: nat, k: K, v: V, k2: K)
      returns (previous: Option<V>, got: Option<V>, gotOther: Option<V>)
    requires 0 < size < U64Limit
    ensures previous == Some(dflt)
    ensures got == Some(v)
    ensures Slot.Locate(hasher(k2), size).0 == Slot.Locate(hasher(k), size).0 ==> gotOther == Some(v)
    ensures Slot.Locate(hasher(k2), size).0 != Slot.Locate(hasher(k), size).0 ==> gotOther == None
  {
    var m := new PersistentHashmap.New(size, hasher, dflt);
    previous := m.Insert(k, v);
    got := m.Get(k);
    gotOther := m.Get(k2);
  }

  /**
   * Re-inserting under a key returns the value of the previous insert, and
   * afterwards the key's slot holds only the latest value; no other entry
   * changes.
   */
  method InsertTwice<K, V>(m: PersistentHashmap<K, V>, k: K, v1: V, v2: V) returns (second: Option<V>, got: Option<V>)
    requires 0 < m.entries.Length
    modifies m.entries
    ensures second == Some(v1)
    ensures got == Some(v2) && m.Get(k) == Some(v2)
    ensures m.entries[m.SlotAndHash(k).0] == HashmapEntry(m.SlotAndHash(k).1, Occupied, v2)
    ensures forall i :: 0 <= i < m.entries.Length && i != m.SlotAndHash(k).0 ==> m.entries[i] == old(m.entries[i])
  {
    var _ := m.Insert(k, v1);
    second := m.Insert(k, v2);
    got := m.Get(k);
  }

  /**
   * Inserting every `(key, value)` of `ops` in order, one `Insert` call each,
   * leaves the table holding `Table.InsertAll` of its earlier contents, so the
   * lemmas about `InsertAll` apply to the table.
   */
  method InsertEach<K, V>(m: PersistentHashmap<K, V>, ops: seq<(K, V)>)
    requires 0 < m.entries.Length
    modifies m.entries
    ensures m.entries[..] == Table.InsertAll(old(m.entries[..]), m.hasher, ops)
  {
    var i := 0;
    while i < |ops|
      invariant 0 <= i <= |ops|
      invariant m.entries[..] == Table.InsertAll(old(m.entries[..]), m.hasher, ops[..i])
    {
      var (k, v) := ops[i];
      var _ := m.Insert(k, v);
      assert ops[..i + 1][..i] == ops[..i];
      i := i + 1;
    }
    assert ops[..i] == ops;
  }

}
