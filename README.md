# persistent_hashmap: slot resolution, insert and get

A Dafny model of the core of `PersistentHashmap`, a fixed-capacity key/value
table kept in a flat array of `HashmapEntry { hash, state, value }` records,
where `state` is `Empty` or `Occupied`. The model follows `src/lib.rs` as it
is written:

- `get_slot_and_hash` ORs the top bit `0x8000_0000_0000_0000` into the key's
  64-bit hash and takes the slot as that tagged hash modulo the array length
  (`Slot.Tag`, `Slot.Locate`, `Hashmap.PersistentHashmap.SlotAndHash`).
- `insert` overwrites exactly one array entry in place and returns the value
  that entry held before (`Hashmap.PersistentHashmap.Insert`). It sets the
  entry's state to `Occupied` before matching on that state, so the `Empty` arm
  never runs and the result is always `Some(previous value)`. For a slot never
  written, that is `Some(default value)`.
- `get` reads exactly one entry. It returns nothing when that entry is `Empty`
  and the entry's value otherwise (`Hashmap.PersistentHashmap.Get`). It does not
  compare the stored hash with the key's, so every key that lands on a slot
  sees the value last written there.

There is no linear probing, no hash comparison and no "table full" error in
this `src/lib.rs`. `tests/test.rs` is written against a newer interface. In
that interface `insert` returns `Result<Option<V>, InsertError>`
(tests/test.rs:17, tests/test.rs:41), so those tests would not type-check
against this code. The model follows the code. `Hashmap.InsertIntoNewTable`
proves that the first insert into a new table returns `Some(default)`, where
tests/test.rs:17 expects `Ok(None)`.

Layout:

- `wrappers.dfy`: module `Wrappers`, the `Option` datatype.
- `entry.dfy`: module `Entry`, `EntryState`, `HashmapEntry` and their defaults
  (src/lib.rs:19-34).
- `slot.dfy`: module `Slot`, the tagged hash and the slot.
- `table.dfy`: module `Table`, the array contents as a sequence. `Lookup` and
  `Store` say what `get` and `insert` do to a slot. `InsertAll` replays a run of
  inserts. The lemmas say what a later `get` sees.
- `hashmap.dfy`: module `Hashmap`, the class `PersistentHashmap`. It owns the
  backing `array<HashmapEntry<V>>` and the key hash function. `Insert` is a
  method with `modifies entries`. `SlotAndHash` and `Get` are functions.
  `InsertIntoNewTable`, `InsertTwice` and `InsertEach` are client methods.
  `InsertEach` ties a series of `Insert` calls to `Table.InsertAll`.

The key hash (src/lib.rs:41-45, SipHasher with its fixed default keys) is the
class's `hasher: K -> bv64` field. The model assumes nothing about it beyond
its being a function. `V::default()` is the constructor's `dflt` argument.

## Model

| member | source | states |
|---|---|---|
| Entry.DefaultState | src/lib.rs:25-27 | `EntryState::default()` is `Empty` |
| Entry.DefaultEntry | src/lib.rs:29-34 | the derived `Default` entry has hash 0, state `Empty` and the value type's default; its hash word equals no tagged hash |
| Slot.Tag | src/lib.rs:118 | the tagged hash has the top bit set, is never 0, and keeps the low 63 bits of the key's hash |
| Slot.Locate | src/lib.rs:117-120 | the second component is the tagged hash of the key's hash; the slot is that tagged hash modulo the length, hence `0 <= slot < len` (a length of 0 is excluded, being a division by zero) |
| Slot.SameFragmentSameTag | src/lib.rs:118 | two key hashes get the same tagged hash if and only if their low 63 bits agree (both directions) |
| Slot.SameFragmentSameLocation | src/lib.rs:117-120 | key hashes that agree in their low 63 bits get the same slot and tagged hash for every length, so the table cannot tell them apart |
| Table.Fresh | src/lib.rs:25-34 | a new table of `len` entries holds the derived `Default` entry (hash 0, `Empty`, default value) in every slot |
| Table.Lookup | src/lib.rs:104-114 | the read of a slot is nothing if and only if the slot is `Empty`, and otherwise the slot's value, with no hash comparison |
| Table.Store | src/lib.rs:82-94 | the write of a slot leaves the length unchanged, puts `(tagged hash, Occupied, v)` in that slot and leaves every other slot unchanged |
| Table.FreshLookupNone | src/lib.rs:25-27 | on a table of default entries every slot reads as nothing, because the default state is `Empty` |
| Table.LookupAfterStore | src/lib.rs:79-115 | after an insert, the written slot reads as the inserted value and every other slot reads as before |
| Table.CollidingKeysShareEntry | src/lib.rs:100-120 | after inserting `v` under `k1`, any `k2` with the same slot reads `v`, whether or not it was inserted |
| Table.InsertAll | src/lib.rs:79-98 | a run of inserts keeps the number of entries |
| Table.LookupAfterInsertAll | src/lib.rs:79-115 | after a run of inserts, a slot reads as the value of the last insert that landed on it, or as before the run when none did |
| Table.InsertAllConsistent | src/lib.rs:79-115 | when the inserted keys land on pairwise distinct slots, each key reads back the value inserted under it |
| Hashmap.PersistentHashmap.New | src/lib.rs:50-62 | `new` yields a fresh backing array of `size` default entries and keeps the given hash function |
| Hashmap.PersistentHashmap.SlotAndHash | src/lib.rs:117-120 | the slot is in bounds and equals the tagged hash modulo the length; the tagged hash has the top bit set and the key hash's low 63 bits; no entry is read |
| Hashmap.PersistentHashmap.Insert | src/lib.rs:79-98 | the entry at the key's slot becomes `(tagged hash, Occupied, v)`, every other entry and the length are unchanged, and the result is always `Some` of the slot's previous value |
| Hashmap.PersistentHashmap.Get | src/lib.rs:100-115 | reads without modifying; nothing if and only if the entry at the key's slot is `Empty`, otherwise that entry's value |
| Hashmap.InsertIntoNewTable | src/lib.rs:79-115 | in a new table the first insert returns `Some(default)`, not nothing; the key then reads its value; another key reads the same value if it shares the slot, and nothing otherwise |
| Hashmap.InsertTwice | src/lib.rs:79-115 | re-inserting under a key returns the previous insert's value; afterwards the key reads only the latest value, its slot holds `(tagged hash, Occupied, v2)` and every other entry is unchanged |
| Hashmap.InsertEach | src/lib.rs:79-98 | a series of `Insert` calls leaves the array holding `Table.InsertAll` of its earlier contents, so `Table.LookupAfterInsertAll` and `Table.InsertAllConsistent` hold of the table |

## Left out

- `new` and `open` (src/lib.rs:50-77) delegate file creation, memory mapping and their errors to the `persistent_array` crate. `Hashmap.PersistentHashmap.New` models only the result: a default-initialised array of `size` entries. `open` is not modelled, and no error path of either is.
- Persistence across closing and reopening a table is file I/O done by that crate and is not modelled.
- The SipHasher implementation (src/lib.rs:41-45) is a foreign library. It is the opaque `hasher` function.
- Concurrency is not modelled. The source is single-threaded, and `insert` takes `&mut self`.
- Rust's `usize` to `u64` cast of the array length (src/lib.rs:119) is lossless on 64-bit targets. The constructor requires `size < 2^64`, and the slot is computed with integer `%` on non-negative operands, which equals the `u64` remainder.
- A table of length 0 makes `insert` and `get` divide by zero, and Rust panics. That case is the precondition `0 < entries.Length` of `Insert`, `Get` and `SlotAndHash`.
- The type-level machinery (`PhantomData`, `KeyTypeBounds`, `ValueTypeBounds`, `Reflect`; src/lib.rs:13-17, 36-39) is replaced by plain type parameters.
- The Rust byte layout of each record is decided by the compiler and the array crate. It is not modelled. `hash` and `state` are kept as the separate fields the struct declares.
- The code has no linear probing, no `InsertError::IsFull` and no `Result` return type, although tests/test.rs expects all three. None of them is modelled.
- `benches/bench.rs` is a timing harness with no logic of its own.
