/**
 * One slot of the table: the `EntryState` enum and the `HashmapEntry` record
 * stored in every element of the backing array, with their `Default` values.
 */
module Entry {
  import Slot

  /** Whether a slot holds a value. */
  datatype EntryState = Empty | Occupied

  /** `EntryState::default()`: a slot nobody has written is `Empty`. */
  function DefaultState(): (s: EntryState)
    ensures s.Empty?
  {
    Empty
  }

  /**
   * A record of the backing array. `hash` is the tagged 64-bit hash of the key
   * last written into the slot; `state` and `hash` are separate fields.
   */
  datatype HashmapEntry<V> = HashmapEntry(hash: bv64, state: EntryState, value: V)

  /**
   * The derived `Default` of `HashmapEntry`: hash 0, state `Empty` and the value
   * type's own default, which is passed in as `dflt`. Its hash word differs
   * from every tagged hash, since it lacks the top bit.
   */
  function DefaultEntry<V>(dflt: V): (e: HashmapEntry<V>)
    ensures e.state == Empty && e.value == dflt
    ensures e.hash == 0
    ensures forall h: bv64 :: e.hash != Slot.Tag(h)
  {
    HashmapEntry(0, DefaultState(), dflt)
  }

}
