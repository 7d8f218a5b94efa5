# simple-ecs in Dafny

A model of the core of simple-ecs, a small entity-component store written in
Go. It covers:

- the entity allocator;
- the per-component storages;
- the bitsets that record which entity has which component.

The repository holds two revisions of the store that cannot be compiled
together. Each revision is modelled as its own module:

| revision | bitset | storage / pool |
|---|---|---|
| newer | `bitset.go` — module `WordBitset`, a growable slice of `uint64` words | `storage.go` — module `ComponentStorage` |
| older | `internal/bitset.go` — module `ByteBitset`, a growable slice of bytes | `ecs.go` — module `Ecs`, with `Storage` and `Pool` |

Two shared modules hold the arithmetic both revisions rely on:

- `Bits` models `|`, `&`, `&^` and single bits on unbounded naturals, plus the
  positions of the set bits of a word, lowest first.
- `Ordered` covers strictly ascending sequences of positions.

Each bitset is a `class` whose backing slice is a `seq` field that its methods
reassign, as the Go methods reslice or reallocate it. Each bitset has an
abstract view `Elems()`, the set of positions whose bit is set. Every operation
is specified twice:

- exactly, on the backing slice (`bits == AndSlices(old(bits), old(other.bits))`);
- on the set view (intersection, union, difference).

Lemmas such as `MembersAnd` connect the two. The enumerations
(`ActiveIDs`, `ActiveIndices`) are loops proved against a recursive reference
function (`Ids`, `Indices`). Lemmas show that the reference lists exactly the
set positions, strictly ascending, with length equal to the population count.

A storage is a class holding a fixed-length `array` of component values, a
presence bitset and the zero value of its component type. Component types
are abstract ids (`TypeId = nat`). All storages of one pool share one element
type `T`, and `zeroOf(t)` gives each type's zero value.

The `Pool` keeps the following fields, as the Go struct does:

- `stores`, the type-keyed registry;
- `componentsUsed`, the storages each entity has been given components in;
- `aliveEntities`, a bitset;
- `freeList`, the FIFO list of killed ids;
- `size` and `length`;
- the auto-registration switch, a field here rather than a global.

Its ghost views `Row(t)` (the entities present in storage `t`) and `Column(t)`
(its component array) let every method say what changed and what did not. A
Go `panic` that happens before any mutation becomes the `Panic` case of a
`Result`, with the pool left unchanged.

Behaviour that follows the code rather than the comments:

- `Remove` finds the storage in `componentsUsed[e]` but calls
  `slices.Delete(s, i, i)`, which deletes an empty range. The model leaves
  `componentsUsed` unchanged, as the code does.
- `NewEntity` sets the alive bit only for a fresh id. An id recycled from the
  free list is handed out without setting its alive bit again, and the model
  says so (`Alive() == old(Alive())` on that path).
- `Add` does not check that the entity is alive.
- Entity ids are `uint32`. A fresh id is `length % 2^32`. Nothing ties `size`
  to `2^32`.

## Model

| member | source | states |
|---|---|---|
| WordBitset.BitSet.constructor | bitset.go:12-16 | `newBitset(size)` holds `WordsFor(size)` zero words and no position is set |
| WordBitset.WordsForCovers | bitset.go:12-16 | `(size+63)/64` words cover positions `0..size-1` with fewer than 64 to spare; when `size+63` overflows 32 bits no word is allocated |
| WordBitset.BitSet.Get | bitset.go:42-49 | true exactly for the members of the set view, and false for any position whose word lies beyond the slice |
| WordBitset.BitSet.Set | bitset.go:18-31 | the slice grows to `max(len, i/64+1)` words and never shrinks; every other word keeps its value; the set view gains exactly `i` |
| WordBitset.BitSet.Clear | bitset.go:33-40 | the length is unchanged; when `i/64 >= len` nothing changes; the set view loses exactly `i` |
| WordBitset.BitSet.And | bitset.go:51-57 | the slice becomes the word-wise AND truncated to `min` length; the set view becomes the intersection |
| WordBitset.BitSet.Or | bitset.go:59-68 | the slice becomes the word-wise OR with the longer tail kept (`max` length); the set view becomes the union |
| WordBitset.BitSet.AndNot | bitset.go:70-76 | the slice becomes the word-wise AND-NOT truncated to `min` length; the set view becomes the difference limited to positions below `64*len(other)` |
| WordBitset.BitSet.Clone | bitset.go:78-82 | the clone is a fresh object with the same words and the same set view, so later mutation of either leaves the other alone |
| WordBitset.BitSet.ActiveIDs | bitset.go:83-105 | returns exactly the set positions, strictly ascending, as many as the population count |
| WordBitset.SliceIDs | bitset.go:93-102 | the outer loop over words produces the reference enumeration `Ids` |
| WordBitset.WordIDs | bitset.go:94-101 | the inner loop that isolates and clears the lowest bit of a word produces that word's positions, lowest first, offset by the word's base |
| WordBitset.IdsSpec | bitset.go:83-105 | `Ids` is strictly ascending, holds exactly the members of the slice, and its length is their count |
| WordBitset.IdsMember | bitset.go:83-105 | a position is listed by `Ids` iff its bit is set |
| WordBitset.IdsAscending | bitset.go:83-105 | `Ids` is strictly ascending and bounded by `64*len` |
| WordBitset.IdsCount | bitset.go:83-105 | the length of `Ids` equals the number of set positions |
| WordBitset.IdsSnoc | bitset.go:93-102 | `Ids` of one more word appends that word's shifted positions |
| WordBitset.TakeLowest | bitset.go:97-100 | taking the trailing-zero count and clearing that bit moves the lowest position to the output and strictly shrinks the remaining word |
| WordBitset.PopLowest | bitset.go:95-101 | the positions of a non-zero word are its lowest bit followed by the positions after clearing that bit |
| WordBitset.TrailingZerosSpec | bitset.go:97 | `bits.TrailingZeros64` is 64 exactly for the zero word, and otherwise the index of the lowest set bit |
| WordBitset.SetBitSpec | bitset.go:30 | OR-ing in `1<<k` sets bit `k` and keeps every other bit |
| WordBitset.ClearBitSpec | bitset.go:39 | `w &^ 1<<k` clears bit `k` and keeps every other bit |
| WordBitset.MembersAnd | bitset.go:51-57 | the members of the word-wise AND are the intersection of the members |
| WordBitset.MembersOr | bitset.go:59-68 | the members of the word-wise OR are the union of the members |
| WordBitset.MembersAndNot | bitset.go:70-76 | the members of the truncated AND-NOT are the difference, cut at `64*len(b)` |
| WordBitset.MembersSetBit | bitset.go:18-31 | setting bit `i%64` of word `i/64` adds exactly `i` to the members |
| WordBitset.MembersClearBit | bitset.go:33-40 | clearing bit `i%64` of word `i/64` removes exactly `i` from the members |
| WordBitset.MembersPad | bitset.go:22-28 | padding with zero words adds no member |
| WordBitset.ZerosEmpty | bitset.go:12-16 | a slice of zero words has no member |
| WordBitset.OrTail | bitset.go:59-68 | the in-place OR loop followed by the append of `other`'s tail yields `OrSlices` |
| ComponentStorage.Storage.constructor | storage.go:3-8 | `capacity` slots, each holding the zero value, and an empty presence bitset |
| ComponentStorage.Storage.EntityHasComponent | storage.go:10-12 | true exactly when `e` is in the presence bitset |
| ComponentStorage.Storage.Clear | storage.go:23-27 | presence bit `e` is cleared and slot `e` is zeroed; every other slot and bit is unchanged |
| ComponentStorage.Storage.Update | storage.go:30-32 | slot `e` holds the new value, every other slot is unchanged, and the presence bitset is not touched |
| ComponentStorage.Storage.All | storage.go:41-43 | exactly the present entities, strictly ascending, as many as are present |
| ComponentStorage.Storage.And | storage.go:46-53 | exactly the entities present here and in every other storage, strictly ascending; this storage is unchanged |
| ComponentStorage.Storage.ButNot | storage.go:56-63 | exactly the entities present here and absent from each other storage within that storage's word length, strictly ascending; this storage is unchanged |
| ComponentStorage.Storage.Or | storage.go:66-73 | exactly the entities present here or in any other storage, strictly ascending; this storage is unchanged |
| ComponentStorage.WordsOf | storage.go:46-73 | the word slices of the other storages' bitsets, in order |
| ByteBitset.BitSet.constructor | internal/bitset.go:10-13 | the zero `BitSet` has no bytes and no member |
| ByteBitset.BitSet.Set | internal/bitset.go:15-30 | the data grows to exactly `pos/8+1` bytes only when shorter; other bytes are preserved; the set view gains exactly `pos` |
| ByteBitset.BitSet.Unset | internal/bitset.go:32-42 | the length is unchanged; when `pos/8 >= len` nothing changes; only byte `pos/8` may change; the set view loses exactly `pos` |
| ByteBitset.BitSet.IsSet | internal/bitset.go:44-54 | true exactly for the members of the set view, and false beyond the data |
| ByteBitset.BitSet.And | internal/bitset.go:56-72 | the data becomes the byte-wise AND truncated to `minLen`; the set view becomes the intersection |
| ByteBitset.BitSet.Or | internal/bitset.go:74-91 | the data is zero-padded to `len(other)` when shorter and OR-ed byte-wise; the set view becomes the union |
| ByteBitset.BitSet.AndNot | internal/bitset.go:93-101 | the length is unchanged and bytes beyond `other` are kept; the set view becomes the full difference |
| ByteBitset.BitSet.Clone | internal/bitset.go:118-122 | a fresh object with the same bytes and members, independent of the original |
| ByteBitset.ActiveIndices | internal/bitset.go:103-116 | the positions cast to `uint32`; when they fit, exactly the set positions strictly ascending; as many as the population count |
| ByteBitset.SliceIndices | internal/bitset.go:106-114 | the loop over bytes produces the reference enumeration `Indices` |
| ByteBitset.ByteIndices | internal/bitset.go:108-113 | the loop over bits 0 to 7 of a byte produces its positions, lowest first, offset by `8*byteIndex` |
| ByteBitset.IndicesSpec | internal/bitset.go:103-116 | `Indices` is strictly ascending, holds exactly the members, and its length is their count |
| ByteBitset.IndicesMember | internal/bitset.go:103-116 | a position is listed iff its bit is set |
| ByteBitset.IndicesAscending | internal/bitset.go:103-116 | `Indices` is strictly ascending and bounded by `8*len` |
| ByteBitset.IndicesSnoc | internal/bitset.go:107-114 | `Indices` of one more byte appends that byte's shifted positions |
| ByteBitset.LowBitsSpec | internal/bitset.go:108-113 | testing bits `0..n-1` lists exactly the set ones below `n`, ascending |
| ByteBitset.LowBitsAll | internal/bitset.go:108-113 | for a byte, testing bits 0 to 7 lists all its positions |
| ByteBitset.TruncatedSmall | internal/bitset.go:110-111 | the `uint32` cast is the identity on positions below `2^32` |
| ByteBitset.MembersAnd | internal/bitset.go:56-72 | the members of the byte-wise AND are the intersection |
| ByteBitset.MembersOr | internal/bitset.go:74-91 | the members of the padded byte-wise OR are the union |
| ByteBitset.MembersAndNot | internal/bitset.go:93-101 | the members of the untruncated AND-NOT are the full difference |
| ByteBitset.MembersSetBit | internal/bitset.go:15-30 | setting bit `pos%8` of byte `pos/8` adds exactly `pos` |
| ByteBitset.MembersClearBit | internal/bitset.go:32-42 | clearing bit `pos%8` of byte `pos/8` removes exactly `pos` |
| ByteBitset.MembersPad | internal/bitset.go:22-27 | zero padding adds no member |
| ByteBitset.ZerosEmpty | internal/bitset.go:22-27 | zero bytes have no member |
| ByteBitset.Minint | internal/bitset.go:124-126 | the intended minimum: at most both arguments and equal to one of them |
| ByteBitset.MinintAsWritten | internal/bitset.go:124-126 | the branch-free formula on 64-bit `int`s; it equals the minimum whenever `v1 - v2` fits in 32 signed bits |
| ByteBitset.MinintInRange | internal/bitset.go:124-126 | the branch-free formula equals the minimum whenever `v1 - v2` fits in 32 signed bits |
| ByteBitset.MinintOutOfRange | internal/bitset.go:124-126 | outside that range the formula is wrong: `(0x8000_0001, 0)` gives 1, not 0 |
| ByteBitset.SignMaskNegative | internal/bitset.go:125 | for a negative difference in range, `>>31` gives -1, whose `uint64` is all ones |
| ByteBitset.SignMaskNonNegative | internal/bitset.go:125 | for a non-negative difference in range, `>>31` gives 0 and the mask clears the difference |
| ByteBitset.AndBytes | internal/bitset.go:56-72 | the intersection has `minLen` bytes |
| ByteBitset.OrBytes | internal/bitset.go:74-91 | the union has `max` bytes |
| ByteBitset.AndNotBytes | internal/bitset.go:93-101 | the difference keeps the receiver's length |
| Ecs.Storage.constructor | ecs.go:95-99 | `size` slots all holding the zero value, and an empty bitset |
| Ecs.Storage.EntityHasComponent | ecs.go:82-85 | true exactly when `e` is in the storage's bitset |
| Ecs.Storage.Delete | ecs.go:38-44 | slot `e` becomes the zero value, bit `e` is cleared, nothing else changes |
| Ecs.Storage.Update | ecs.go:72-79 | panics exactly when `e` lacks the component, then changing nothing; otherwise only slot `e` changes, to the new value |
| Ecs.Storage.Matches | ecs.go:56-68 | exactly the entities present here and in every non-nil argument, strictly ascending |
| Ecs.MasksOf | ecs.go:56-68 | one mask per argument, empty exactly for a nil argument |
| Ecs.Pool.constructor | ecs.go:149-155 | an empty registry, no used components, an empty free list, `length` 0 and no live entity |
| Ecs.Pool.NewEntity | ecs.go:158-174 | with an empty free list: panics when `length >= size`, else returns `length` as a `uint32`, marks it alive and increments `length`; otherwise pops the front of the free list and changes nothing else |
| Ecs.Pool.Register | ecs.go:211-226 | panics exactly when the type is already registered; otherwise adds one fresh storage and keeps every other |
| Ecs.Pool.RegisterAndGetStorage | ecs.go:314-330 | returns the registered storage; otherwise, with auto-registration, a fresh one that it registers; otherwise panics and changes nothing |
| Ecs.Pool.Install | ecs.go:323-326 | a fresh empty storage of `size` zero slots is added under `t`; no row or column changes |
| Ecs.Pool.Add | ecs.go:231-243 | when the entity already has the component nothing changes (first write wins); otherwise its bit is set, its slot holds the value and the storage is appended to `componentsUsed[e]`; other storages are untouched |
| Ecs.Pool.Put | ecs.go:236-242 | for an absent entity: the bit is set, the slot is written and the storage is appended to the entity's list |
| Ecs.Pool.Remove | ecs.go:246-267 | when the entity has the component its slot is zeroed and its bit cleared; otherwise nothing changes; `componentsUsed` is unchanged because `slices.Delete(s, i, i)` deletes nothing |
| Ecs.Pool.RemoveFrom | ecs.go:248-266 | the row loses `e`; when `e` was present its slot becomes the type's zero value |
| Ecs.Pool.Take | ecs.go:251 | `delete` in the pool: the row loses `e` and its slot is zeroed, other storages unchanged |
| Ecs.Pool.Unrecord | ecs.go:252-266 | the reverse search over `componentsUsed[e]` leaves the registry and the lists as they were |
| Ecs.Pool.Kill | ecs.go:179-198 | every killed id loses its alive bit and is appended to the free list in order; its row and slot are cleared in exactly the storages listed for it, and afterwards no storage holds it; those lists become empty; no other entity's row or slot changes |
| Ecs.KillRecorded | ecs.go:179-198 | because every present entity is recorded in its used list, the kill loop leaves no killed entity in any storage, and keeps that record for the rest |
| Ecs.KilledRecorded | ecs.go:186-196 | after clearing the listed storages, the emptied lists still record every remaining component, and no killed entity is present anywhere |
| Ecs.RecordedAdd | ecs.go:236-242 | setting `e` in storage `t` and appending that storage to `e`'s list keeps every component recorded |
| Ecs.RecordedRows | ecs.go:236-242 | the record of components, read on the registry's rows |
| Ecs.PutIn | ecs.go:236-242 | sets bit `e` and writes slot `e` of one storage, leaves every other storage as it was, and records the component in `e`'s list |
| Ecs.KillAll | ecs.go:180-197 | the loop over the entities establishes that state, one entity at a time |
| Ecs.KillOne | ecs.go:181-196 | killing one more entity extends the killed set by that entity |
| Ecs.DeleteAll | ecs.go:189-192 | deleting `e` from each listed storage clears it in exactly those storages |
| Ecs.DeleteIn | ecs.go:191 | deleting `e` from one storage leaves every other storage unchanged |
| Ecs.Pool.Has | ecs.go:273-276 | true exactly when `e` is in the type's storage, after registering it if allowed |
| Ecs.Pool.EntitiesOf | ecs.go:283-286 | exactly the entities present in the type's storage, strictly ascending |
| Ecs.Cleared | ecs.go:195 | killed entities map to an empty list; every other entry is kept |
| Ecs.ClearedAdd | ecs.go:195 | clearing one more entity is a single map update |
| Ecs.KilledAdd | ecs.go:187-192 | one more kill adds that entity to a storage's cleared rows exactly when the storage is listed for it |
| Ecs.UsedRegistered | ecs.go:187-192 | every storage listed for an entity is registered and has a slot for it |
| Ecs.UsedValidCleared | ecs.go:195 | emptying lists keeps every listed storage registered |
| Ecs.StoresExtend | ecs.go:217 | adding a fresh storage keeps the registry's storages distinct and well formed |
| Ecs.UsedValidGrow | ecs.go:217 | a larger registry still holds every listed storage |
| Ecs.WithStore | ecs.go:317-327 | the registry after a lookup that may register: existing entries kept, a new one added only when missing |
| Ecs.Fill | ecs.go:97 | `make([]T, size)`: `size` zero values |
| Bits.LowestBitSpec | bitset.go:97 | the lowest set bit of a non-zero word is set and every lower bit is clear |
| Bits.PositionsMember | bitset.go:95-101 | a word's positions are exactly its set bits |
| Bits.PositionsAscending | bitset.go:95-101 | a word's positions are strictly ascending |
| Ordered.AscendingCard | bitset.go:83-105 | a strictly ascending sequence has as many elements as distinct values |
| Ordered.AscendingAppend | bitset.go:93-102 | appending a strictly ascending block above every earlier element keeps the whole ascending |

## Left out

- Locking: the `sync.RWMutex`/`sync.Mutex` fields and every lock and unlock call. The model is sequential.
- `bits.Release()` in `storage.go` hands the cloned bitset back to an object pool. Its definition is not part of this model, so it is a no-op here.
- `ActiveIDs` pre-counts with `bits.OnesCount64` only to size the result's capacity. The model builds the same sequence without it.
- Reflection-based type keys and the nil-interface panic of `getReflectedType` become abstract `TypeId`s. A pool's storages share one element type `T`, with `zeroOf` giving each type's zero value.
- `Storage.Get` (`storage.go`, `ecs.go`) is a plain slot read with an index precondition and no contract of its own; `Update` and `Delete` are specified through it.
- `GetStorage` and `bitsetOf` only return `registerAndGetStorage`'s result (or its bitset). They are covered by `RegisterAndGetStorage`.
- `storageUnsafe.go`, `lockUnlock.go` and the arity wrappers (`AddMany`, `RegisterMany`, `EntitiesOfMany`, `GetStorageMany`) only chain the modelled calls or take locks.
- The examples, benchmarks and `doc.go` have no behaviour to model.
- `Ecs.Storage.Matches`: an argument is given as its bitset (`getBitset()`), or as null for a nil storage.
- `ComponentStorage.Storage.And`, `ButNot` and `Or` take the other storages as their bitsets.
- Negative sizes (a `make` panic in Go) are excluded by typing sizes as `nat`, and `newBitset`'s size as `Pos` (a `uint32`).
- Index panics: where Go indexes out of range, the model has a precondition instead. `Ecs.Pool.Add` and `Put` require `e < size` (Go panics after setting the bit), and `Storage.Get`, `Update` and `Delete` require an index within the array.
- Go's `int` bound on slice lengths is not modelled. Entity ids are naturals: the `uint32` conversion appears only where a fresh id is made (`NewEntity`) and where `ActiveIndices` casts positions.
- `Ecs.Pool.Add`, `Remove`, `Has` and `EntitiesOf` state that the registry gains at most the entry for `t` (`WithStore`), but not that a storage they register is fresh. Only `Register` and `RegisterAndGetStorage` say so.
- `ByteBitset.BitSet.And` computes `minLen` with the corrected `Minint`. Once the two lengths differ by 2^31 bytes or more, Go's bit trick gives a wrong `minLen` and the Go method panics on an index or slice bound. The model does not capture that panic. Below 2^31 bytes it states that its length equals `MinintAsWritten`.
- `ByteBitset.BitSet.AndNot` uses the corrected `Minint` too, with the same difference for lengths 2^31 bytes apart. Below that it states that the bytes from `MinintAsWritten` on are left as they were.
- `Ecs.Pool.Kill` works on the pool's parts through module-level methods (`KillAll`, `KillOne`), so the loop's reasoning stays within the storages' frames.

## Findings

| source | as written | input that shows it | evidently intended | confidence | as-written member | corrected member |
|---|---|---|---|---|---|---|
| internal/bitset.go:124-126 | `Minint` computes `v2 + ((v1 - v2) & ((v1 - v2) >> 31))` on 64-bit `int`; the shift by 31 only yields the sign when `v1 - v2` fits in 32 signed bits | `Minint(0x8000_0001, 0)` returns 1 | the smaller of the two arguments, 0 | not executed; derived by proof | ByteBitset.MinintOutOfRange | ByteBitset.Minint |
