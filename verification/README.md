# advanced-vector in Dafny

A model of `Vector<T>`, a contiguous dynamic array, and `RawMemory<T>`, the
exclusively owned block of uninitialised slots underneath it, together with
proofs of their contracts. The model covers the growth policy, the choice
between relocating by move or by copy, and the exception guarantees of each
mutating operation.

- `outcomes.dfy` (module `Outcomes`): a slot is `Option<T>` (`Some(x)` is a
  live object, `None` is raw memory). `Build<T>` gives the arguments of
  the new element: a value, arguments whose constructor throws, or a
  reference to one of the container's own elements. `Fault` names the copy- or value-construction of a
  batch that throws. `Outcome<R>` is a return or a thrown exception.
- `memory.dfy` (module `Memory`): the standard algorithms the container calls
  on its storage (`uninitialized_copy_n`, `uninitialized_move_n`,
  `uninitialized_value_construct_n`, `destroy_n`, `copy`, `move`,
  `move_backward`). Each is proved against a slot-by-slot postcondition. All
  but `UninitializedMoveN` are loops over an array of slots. A move that
  cannot throw transfers the same values as a copy that does not throw, so
  `UninitializedMoveN` calls `UninitializedCopyN` with no fault.
- `raw_memory.dfy` (module `RawStorage`): class `RawMemory`. Its `buffer` is
  null exactly when its `capacity` is 0. `Dispose` models the destructor and
  requires that no slot holds a live object.
- `vector_spec.dfy` (module `VectorSpec`): what the operations do to the
  element sequence and the capacity, as functions. It also holds the lemmas
  that relate operations: round trips, and the
  power-of-two capacity and linear relocation cost of repeated appends.
- `vector.dfy` (module `AdvancedVector`): class `Vector`. Its representation
  invariant `Valid()` says slots `[0, size)` hold the ghost sequence
  `Elements` and slots `[size, capacity)` are raw. Every method says what
  `Elements` and the capacity become, both on return and on a throw.
- `scenarios.dfy` (module `Scenarios`): the test program's strong-guarantee
  scenarios, client calls that push or insert a copy of the vector's own
  element, and the input that shows the finding below.

The element type's behaviour in one call is a set of parameters:
- `arg: Build<T>`: the new element (`Built(x)`), `Throws` when its
  constructor throws, or `CopyOf(i, copyThrows)` for a copy of the
  container's own element `i` (as in `PushBack(v[0])`). That element is read
  from the storage when the new element is constructed, which happens
  before any old element is relocated, moved or destroyed (vector.h:284,
  303, 307).
- `moveIsSafe`: the compile-time choice of relocating by move (T's move
  constructor is noexcept, or T cannot be copied).
- `copyFault` / `valueFault`: which copy-construction or value-construction
  throws.

`T()` is the parameter `init`. Positions are indices: `begin()` is 0 and
`end()` is the size.

Two behaviours of the code are worth stating outright:
- Reserve grows to exactly the requested capacity, never to
  `max(2 * capacity, n)`; only Resize applies that rule. The model follows
  the code.
- When a relocating copy throws in Emplace at full capacity, the code does
  not destroy the objects already built in the new block, so they leak. The
  model records this and uses the corrected step; see "Findings".

## Model

| member | source | states |
|---|---|---|
| `Outcomes.Fault.Skip` | advanced-vector/vector.h:292-293 | the second relocation batch throws exactly when the whole relocation throws, given the first batch succeeded |
| `Memory.DestroyN` | advanced-vector/vector.h:171 | the given live slots become raw memory; every other slot is unchanged |
| `Memory.UninitializedCopyN` | advanced-vector/vector.h:276 | the copies land in the raw slots, or, if one copy throws, the destination is exactly as before (already-made copies are destroyed) |
| `Memory.UninitializedMoveN` | advanced-vector/vector.h:273 | moves into the raw slots always complete and carry the source values |
| `Memory.UninitializedValueConstructN` | advanced-vector/vector.h:184 | the raw slots receive `init` each, or on a throw the block is exactly as before |
| `Memory.Copy` | advanced-vector/vector.h:117 | the live prefix of the destination takes the source values; the rest is unchanged |
| `Memory.Move` | advanced-vector/vector.h:253 | the range lands shifted down, front to back, without reading an overwritten slot |
| `Memory.MoveBackward` | advanced-vector/vector.h:310 | the range lands shifted up, back to front, without reading an overwritten slot |
| `RawStorage.RawMemory.Empty` | advanced-vector/vector.h:12 | a default storage has a null block and capacity 0 |
| `RawStorage.RawMemory.constructor` | advanced-vector/vector.h:14-17 | storage for n holds capacity n, all slots raw, a fresh block or null for 0 |
| `RawStorage.RawMemory.Allocate` | advanced-vector/vector.h:79-81 | allocates exactly when n is not 0; a new block is fresh, n slots, all raw |
| `RawStorage.RawMemory.Moved` | advanced-vector/vector.h:22-25 | takes the source's block and capacity; the source is left null with capacity 0 |
| `RawStorage.RawMemory.MoveAssign` | advanced-vector/vector.h:27-35 | self-assignment changes nothing; otherwise takes the source's block and empties the source |
| `RawStorage.RawMemory.Swap` | advanced-vector/vector.h:60-63 | blocks and capacities are exchanged |
| `RawStorage.RawMemory.Get` | advanced-vector/vector.h:55-58 | access requires an index below the capacity and gives that slot |
| `RawStorage.RawMemory.Capacity` | advanced-vector/vector.h:73-75 | reports the slot count |
| `RawStorage.RawMemory.Dispose` | advanced-vector/vector.h:37-39 | the block may be released only when it holds no live object |
| `VectorSpec.Filled` | advanced-vector/vector.h:97-101 | n value-constructed elements, each equal to `init` |
| `VectorSpec.Inserted` | advanced-vector/vector.h:300-313 | one longer; x at i; the prefix is kept and the tail is shifted up by one |
| `VectorSpec.Erased` | advanced-vector/vector.h:251-257 | one shorter; the prefix is kept and the tail is shifted down by one |
| `VectorSpec.Resized` | advanced-vector/vector.h:175-187 | length n; element j is the old element j while one exists, `init` after that |
| `VectorSpec.GrownCapacity` | advanced-vector/vector.h:282 | the grown block always has room for one more element |
| `VectorSpec.CapacityAfterInsert` | advanced-vector/vector.h:233-234 | an insertion leaves room for the element; with spare room the capacity is kept, and a full vector grows to max(2 * capacity, 1) |
| `VectorSpec.ReservedCapacity` | advanced-vector/vector.h:164-167 | Reserve yields the larger of the old capacity and the request, exactly one of the two |
| `VectorSpec.ResizedCapacity` | advanced-vector/vector.h:180-183 | Resize keeps the capacity when n fits; otherwise the capacity is max(2 * capacity, n) |
| `VectorSpec.Max` | advanced-vector/vector.h:181 | the larger of two naturals |
| `VectorSpec.EraseUndoesInsert` | advanced-vector/vector.h:251-257 | erasing the inserted position restores the original sequence |
| `VectorSpec.InsertUndoesErase` | advanced-vector/vector.h:229-243 | re-inserting an erased element at its old position restores the sequence |
| `VectorSpec.InsertAtEndAppends` | advanced-vector/vector.h:245-248 | emplacing at end() appends |
| `VectorSpec.EraseLastDropsLast` | advanced-vector/vector.h:197-200 | erasing the last position is dropping the last element |
| `VectorSpec.ResizeRoundTrip` | advanced-vector/vector.h:175-187 | Resize to the current size is a no-op; growing and shrinking back restores the sequence |
| `VectorSpec.CapacityAfterAppends` | advanced-vector/vector.h:189-195 | after n appends to an empty vector the capacity is at least n |
| `VectorSpec.AppendsGivePowerOfTwo` | advanced-vector/vector.h:282 | after n >= 1 appends to an empty vector the capacity is the least power of two that is at least n |
| `VectorSpec.AppendsRelocateLinearly` | advanced-vector/vector.h:286-294 | n appends relocate capacity - 1 < 2n elements in all (amortised constant time) |
| `AdvancedVector.Vector.constructor` | advanced-vector/vector.h:95 | an empty vector with capacity 0 |
| `AdvancedVector.Vector.Sized` | advanced-vector/vector.h:97-101 | size n, capacity n, n default values |
| `AdvancedVector.Vector.Copy` | advanced-vector/vector.h:103-107 | equal element sequence; capacity is the source's size |
| `AdvancedVector.Vector.Moved` | advanced-vector/vector.h:109-112 | takes the source's elements and capacity; the source is left empty with capacity 0 |
| `AdvancedVector.Vector.CopyAssign` | advanced-vector/vector.h:114-132 | self-assignment is a no-op; on return the elements equal rhs. The capacity is kept when rhs fits, else becomes rhs's size. A throw keeps everything when rhs did not fit (strong); when it fits, the old size remains, holding rhs's prefix (basic) |
| `AdvancedVector.Vector.MoveAssign` | advanced-vector/vector.h:134-137 | the two vectors exchange elements and capacities |
| `AdvancedVector.Vector.Swap` | advanced-vector/vector.h:139-141 | the two vectors exchange elements and capacities |
| `AdvancedVector.Vector.Dispose` | advanced-vector/vector.h:143-145 | every element is destroyed before the block is released |
| `AdvancedVector.Vector.Size` | advanced-vector/vector.h:147-149 | the number of live elements |
| `AdvancedVector.Vector.Capacity` | advanced-vector/vector.h:151-153 | the slot count, never below the size |
| `AdvancedVector.Vector.Get` | advanced-vector/vector.h:155-162 | requires index < size; gives the element at that index |
| `AdvancedVector.Vector.Set` | advanced-vector/vector.h:159-162 | writing through the reference changes exactly that element |
| `AdvancedVector.Vector.Reserve` | advanced-vector/vector.h:164-173 | elements never change. The capacity becomes exactly the request when that is larger, and is kept otherwise. It throws only when relocating by copy throws, and then the capacity is kept as well |
| `AdvancedVector.Vector.IsNothrowMoveOrCopyConstructible` | advanced-vector/vector.h:271-278 | the new block receives all elements, or, when a copy throws, holds no live object |
| `AdvancedVector.Vector.Resize` | advanced-vector/vector.h:175-187 | elements become Resized(old, n, init). The capacity becomes ResizedCapacity unless the reservation threw. A throw leaves elements and size unchanged |
| `AdvancedVector.Vector.PushBack` | advanced-vector/vector.h:189-195 | appends the new element (for a copy of an own element, that element's old value), with the growth policy; throws exactly when the element's construction or a relocating copy does, leaving everything unchanged |
| `AdvancedVector.Vector.PopBack` | advanced-vector/vector.h:197-200 | requires size > 0; drops the last element and keeps the capacity |
| `AdvancedVector.Vector.Emplace` | advanced-vector/vector.h:229-243 | returns pos. The elements become Inserted(old, pos, x), where x is the value given or the old value of the referenced own element, and the capacity CapacityAfterInsert. It throws exactly when x's construction or a relocating copy throws; then elements and capacity are unchanged (strong guarantee on both paths) |
| `AdvancedVector.Vector.EmplaceBack` | advanced-vector/vector.h:245-248 | appends and returns the new element's index, the old size |
| `AdvancedVector.Vector.Erase` | advanced-vector/vector.h:251-257 | requires pos < size; returns pos; elements become Erased(old, pos); capacity kept |
| `AdvancedVector.Vector.Insert` | advanced-vector/vector.h:259-265 | same contract as Emplace |
| `AdvancedVector.Vector.Construct` | advanced-vector/vector.h:284 | the new element is built, or its constructor throws; a reference to an own element yields that element's current value |
| `AdvancedVector.Vector.RegularInsert` | advanced-vector/vector.h:280-298 | at full capacity: the new block of GrownCapacity(size) holds the inserted sequence. On any throw the container is untouched and the new block is released empty |
| `AdvancedVector.Vector.RelocateAround` | advanced-vector/vector.h:286-294 | the block ends up holding the inserted sequence, or, when a copy throws, no live object |
| `AdvancedVector.Vector.RelocateAroundAsWritten` | advanced-vector/vector.h:286-294 | as written: when a copy throws, the new element (and a finished first batch) stay alive in the block |
| `AdvancedVector.Vector.ReallocationInsert` | advanced-vector/vector.h:300-313 | with room: the same block holds the inserted sequence; a throwing construction changes nothing |
| `Scenarios.PushCopyIntoFullVector` | advanced-vector/main.cpp:57-71 | push of a throwing copy: size 1, capacity 1, element intact |
| `Scenarios.PushCopyWithSpareRoom` | advanced-vector/main.cpp:72-87 | after Reserve(2), push of a throwing copy: size 1, capacity 2, element intact |
| `Scenarios.PushMoveIntoFullVector` | advanced-vector/main.cpp:88-102 | push by move while copies throw: size 2, capacity 2, both elements live |
| `Scenarios.PushOwnElementIntoFullVector` | advanced-vector/main.cpp:103-117 | pushing a throwing copy of the vector's own v[0]: size 1, capacity 1, element intact |
| `Scenarios.PushOwnElementWithSpareRoom` | advanced-vector/main.cpp:118-133 | the same after Reserve(2): size 1, capacity 2 |
| `Scenarios.PushOwnElementGrows` | advanced-vector/vector.h:282-297 | a successful push of v[0] into a full vector appends v[0]'s value, for relocation by move or by copy, although the old v[0] is destroyed by the same call |
| `Scenarios.InsertOwnElementInPlace` | advanced-vector/vector.h:305-311 | with room, inserting a copy of the last element at the front gives [b, a, b]: the copy is taken before the shift |
| `Scenarios.ReserveTwice` | advanced-vector/vector.h:164-165 | after a successful Reserve(n), a second Reserve(n) returns, and the elements and the capacity are those of the first |
| `Scenarios.LeakedElementAsWritten` | advanced-vector/vector.h:282-294 | a concrete input for which the as-written relocation leaves the new element alive in the block being released |

## Left out

- Raw allocation is not modelled. This covers `operator new`/`operator delete`, `sizeof(T)`, placement addresses, `GetAddress`, pointer arithmetic (`operator+`, vector.h:41-49, 65-71) and the iterator functions `begin`/`end`/`cbegin`/`cend` (vector.h:205-227). Blocks are arrays of slots, and positions are indices: begin() is 0 and end() is the size.
- Allocation failure (`bad_alloc`) is not modelled. The code does not handle it, so allocation always succeeds here.
- The type traits `is_nothrow_move_constructible` and `is_copy_constructible` (vector.h:272, 286) are replaced by the parameter `moveIsSafe`.
- Moves of elements never throw in the model. This covers move construction and move assignment. A type with no copy constructor and a throwing move constructor is therefore out of scope.
- The `int diff` conversion (vector.h:231, 252) is not modelled; positions are unbounded naturals.
- `size_t` arithmetic is unbounded in the model: `size_ * 2` (vector.h:282), `data_.Capacity() * 2` (vector.h:181) and `n * sizeof(T)` (vector.h:80) cannot wrap here.
- Deallocation is not tracked. `RawMemory::operator=(RawMemory&&)` (vector.h:27-35) overwrites `buffer_` without freeing the old block. The model keeps no ledger of freed blocks, so it cannot show that leak; the Vector never calls this operator.
- Moved-from elements are not modelled. A moved-from slot keeps its value until it is destroyed or overwritten, so nothing depends on the unspecified moved-from state.
- `const` overloads of `operator[]`, `operator+` and the iterators are not modelled separately; they behave like the non-const ones.
- AdvancedVector.Vector.Sized: models only success. A throw from `T()` means no vector ever exists, so there is no state to describe. Value-construction failure is modelled in Resize.
- AdvancedVector.Vector.Copy: models only success, for the same reason. Copy failure is modelled in CopyAssign, Reserve and Emplace.
- AdvancedVector.Vector.CopyAssign: the copy-assignments of the common prefix (vector.h:117) never throw in the model. A throw there gives only the basic guarantee with unspecified element values.
- AdvancedVector.Vector.ReallocationInsert: the move construction and move assignments of the shift (vector.h:308-311) never throw in the model. A throw there gives only the basic guarantee.
- AdvancedVector.Vector.Erase: the move assignments of the shift (vector.h:253) never throw in the model. A throw there gives only the basic guarantee.
- The test program's mutable static failure flags, its cookie-based liveness check and its console output (main.cpp) are not modelled. A live element is a `Some` slot, and the flags become the `Build`, `Fault` and `moveIsSafe` parameters.

## Findings

| source | as written | input that shows it | evidently intended | confidence | as-written member | corrected member |
|---|---|---|---|---|---|---|
| advanced-vector/vector.h:284-294 | In `RegularInsert`, a copy that throws while relocating leaves by exception. The new element built at `diff` is never destroyed. If the second batch throws, the first batch's copies are not destroyed either. `new_address`'s destructor only frees the block (vector.h:37-39). | A T whose move constructor may throw, so relocation copies, and whose copy constructor throws. One element, capacity 1. `EmplaceBack(x)`: `x` is constructed, then the copy of the old element throws. | Every object built in the new block is destroyed before the block is released, as the strong guarantee intends. | not executed; high | `AdvancedVector.Vector.RelocateAroundAsWritten` (with `Scenarios.LeakedElementAsWritten`) | `AdvancedVector.Vector.RelocateAround` (used by `RegularInsert`, whose release of the block passes `RawMemory.Dispose`'s no-live-object precondition) |
