# SimpleVector in Dafny

A model of `SimpleVector<Type>`, a contiguous growable array that owns one
buffer (`ArrayPtr<Type>`). The vector has `capacity_` slots, and its first `size_`
slots hold the live elements. When an insertion does not fit, it reallocates by a
fixed growth rule: `capacity ? max(size + 1, 2 * capacity) : 1`.

- `simple_vector.dfy`, module `SimpleVectors`: the class `SimpleVector<T>`.
  - It keeps the source's three fields: `size`, `capacity` and `elements`.
  - `elements` is an `array<T>`, the buffer.
  - `Valid()` is the invariant: `size <= capacity == elements.Length`.
  - `Contents()` is the sequence of live elements, `elements[..size]`.
  - Every method states the new `Contents()` and capacity in terms of the old ones.
  - It also states whether the buffer was kept or freshly allocated.
  - The module also holds `ReserveProxyObject` and its free `Reserve` function.
  - Element shifts are loops over the array (`std::copy_backward`, `std::move`,
    `std::fill`), proved with loop invariants.
- `vector_spec.dfy`, module `VectorSpec`: the value-level specification.
  - The growth rule (`GrowCapacity`, `PushCapacity`).
  - What Insert, Erase and Resize do to the sequence (`InsertAt`, `EraseAt`,
    `Resized`), with round-trip and composition lemmas.
  - Consequences of the growth rule: after n appends from empty, the capacity
    is the least power of two that is at least n. The elements moved by
    reallocations stay below 2n (amortised constant-time append).
- `comparison.dfy`, module `Comparison`: the free operators `==`, `!=`, `<`,
  `<=`, `>`, `>=` as functions over the live-element sequences.
  - The element type's `operator<` is a parameter `lt`.
  - `<` is `std::lexicographical_compare`. It is proved equal to a reference
    definition. It is irreflexive, transitive when `lt` is a strict weak
    order, and trichotomous when `lt` is a strict total order.
- `scenarios.dfy`, module `Scenarios`: client methods that use only the class
  contracts. They cover appends, insertion, checked access, comparison, copy
  independence, move assignment and resizing.

`Type{}` is passed explicitly as `blank` where the source uses it. The
size-only constructor `SimpleVector(n)` is therefore `Filled(n, Type{})`.

Three behaviours of the source that differ from what a reader may expect:
- Move assignment exchanges the two states (lines 77-84); it does not empty
  the source. `Scenarios.MoveAssignExchanges` shows this. The move
  constructor does empty its source.
- `At` throws `std::out_of_range("Out of range")`, which does not carry the
  index. `AtResult.OutOfRange` carries nothing either.
- When Resize grows past the capacity, the new slots come from a fresh
  `ArrayPtr`, not from `std::fill`. The model does not assume that they
  hold `Type{}`.

## Model

| member | source | states |
|---|---|---|
| VectorSpec.GrowCapacity | simple-vector/simple_vector.h:89 | the grown capacity exceeds both the old size and the old capacity; it is at least double a non-zero capacity, and 1 for capacity 0 |
| VectorSpec.PushCapacity | simple-vector/simple_vector.h:86-91 | the capacity after an insertion always exceeds the old size; it is unchanged when the element fits and grown by the rule when the buffer is full |
| VectorSpec.CapacityAfterPushes | simple-vector/simple_vector.h:86-94 | after n appends from empty, the capacity holds at least n elements |
| VectorSpec.CapacityAfterPushesIsLeastPowerOfTwo | simple-vector/simple_vector.h:86-94 | after n >= 1 appends from empty, the capacity is a power of two c with n <= c < 2n |
| VectorSpec.MovesBoundedByCapacity | simple-vector/simple_vector.h:307-314 | the elements moved by reallocations during n appends are fewer than the final capacity, hence fewer than 2n |
| VectorSpec.ThreePushesCapacities | simple-vector/simple_vector.h:86-94 | appending three elements to an empty vector moves the capacity through 0, 1, 2, 4 |
| VectorSpec.InsertAt | simple-vector/simple_vector.h:115-143 | inserting before d gives one more element: the old ones before d, then v at d, then the old ones from d, each shifted by one |
| VectorSpec.EraseAt | simple-vector/simple_vector.h:173-179 | erasing at d gives one fewer element: the ones before d are unchanged and each later one moves one slot to the front |
| VectorSpec.EraseAfterInsert | simple-vector/simple_vector.h:115-179 | erasing at d right after inserting at d restores the original elements |
| VectorSpec.InsertAfterErase | simple-vector/simple_vector.h:115-179 | re-inserting the erased element at d restores the original elements |
| VectorSpec.Resized | simple-vector/simple_vector.h:244-254 | resizing within capacity gives exactly n elements: the old ones while they last, then `Type{}` |
| VectorSpec.ResizeThenGrow | simple-vector/simple_vector.h:244-254 | Resize(k) then Resize(m >= k) keeps the first result and appends m - k copies of `Type{}` |
| VectorSpec.ResizeThenShrink | simple-vector/simple_vector.h:244-254 | Resize(k) then Resize(m <= k) is the same as Resize(m) |
| VectorSpec.DecrementSize | simple-vector/simple_vector.h:176 | `--size_` on a 64-bit size_t: one less for a positive size, 2^64 - 1 for size 0 |
| VectorSpec.InsertInPlaceReadingElement | simple-vector/simple_vector.h:115-125 | the in-place Insert as written, with `value` referring to element j of the same vector, inserts element j when j <= d and element j - 1 otherwise, because the tail is shifted before `value` is read |
| VectorSpec.InsertOwnElementReadsShiftedSlot | simple-vector/simple_vector.h:122-124 | inserting the vector's own second element at the front of [1, 2] gives [1, 1, 2] as written; inserting a copy of it gives [2, 1, 2] |
| VectorSpec.EraseAsWritten | simple-vector/simple_vector.h:173-179 | Erase as written: the assertion fails exactly when pos > size; otherwise the buffer keeps its length, and below end() the size drops by one |
| VectorSpec.EraseAsWrittenBelowEnd | simple-vector/simple_vector.h:173-179 | below end(), Erase as written leaves exactly EraseAt(old, pos) as the live elements |
| VectorSpec.EraseAtEndOfEmptyBreaksInvariant | simple-vector/simple_vector.h:173-176 | Erase(end()) on an empty vector of capacity 0 passes the assertion, runs the move over the inverted range (taken to move nothing), and leaves size 2^64 - 1 > capacity 0 |
| Comparison.Equal | simple-vector/simple_vector.h:318-323 | equal sizes and pairwise-equal elements hold exactly when the two element sequences are equal |
| Comparison.NotEqual | simple-vector/simple_vector.h:325-328 | `!=` holds exactly when the sequences differ |
| Comparison.Less | simple-vector/simple_vector.h:330-333 | lexicographical `<`: the empty vector is less than exactly the non-empty ones and nothing is less than the empty one; its full meaning is Comparison.LessIffWitness |
| Comparison.Greater | simple-vector/simple_vector.h:340-343 | `>` as written, `right < left`: a non-empty vector is greater than the empty one and the empty one is greater than nothing; Comparison.LessOrEqualIsNotGreater relates it to `<=` |
| Comparison.LessOrEqual | simple-vector/simple_vector.h:335-338 | `<=` holds exactly when `<` holds or the sequences are equal |
| Comparison.GreaterOrEqual | simple-vector/simple_vector.h:345-348 | `>=` holds exactly when the right operand is `<` the left or the sequences are equal |
| Comparison.LessIffWitness | simple-vector/simple_vector.h:330-333 | lexicographical `<` holds iff there is a common prefix of equivalent elements, followed by a smaller left element or by the end of the left operand alone |
| Comparison.LessIrreflexive | simple-vector/simple_vector.h:330-333 | no vector is `<` itself when the element order is irreflexive |
| Comparison.LessTransitive | simple-vector/simple_vector.h:330-333 | `<` is transitive when the element order is a strict weak order (irreflexive, transitive, with transitive incomparability) |
| Comparison.LessTrichotomy | simple-vector/simple_vector.h:318-333 | over a strict total element order, exactly one of `a < b`, `a == b` and `b < a` holds |
| Comparison.LessOrEqualIsNotGreater | simple-vector/simple_vector.h:335-348 | over a strict total element order, `<=` is the negation of `>` and `>=` the negation of `<` |
| Comparison.LessOrEqualNeedsTotalOrder | simple-vector/simple_vector.h:335-343 | over a strict weak order that is not total (comparing integers by tens), `[1] <= [2]` and `[1] > [2]` are both false, because `<=` uses element `==` |
| Comparison.PrefixIsLess | simple-vector/simple_vector.h:330-333 | a proper extension compares greater than its prefix, for any element comparison |
| SimpleVectors.Reserve | simple-vector/simple_vector.h:13-27 | the hint carries exactly the requested capacity |
| SimpleVectors.SimpleVector.constructor | simple-vector/simple_vector.h:35 | the default vector has no elements and capacity 0 |
| SimpleVectors.SimpleVector.Filled | simple-vector/simple_vector.h:37-48 | n copies of the value (or of `Type{}`) in a fresh buffer of exactly n slots |
| SimpleVectors.SimpleVector.FromList | simple-vector/simple_vector.h:50-53 | the listed elements in order, with capacity equal to their number |
| SimpleVectors.SimpleVector.Copy | simple-vector/simple_vector.h:55-57 | a fresh buffer with the source's live elements and capacity equal to the source size; spare capacity is not copied |
| SimpleVectors.SimpleVector.Moved | simple-vector/simple_vector.h:59-63 | takes the source's buffer, size and capacity unchanged; the source is left with no elements, capacity 0 and a fresh empty buffer of its own |
| SimpleVectors.SimpleVector.FromProxy | simple-vector/simple_vector.h:65-67 | no elements and exactly the hinted capacity, in a buffer of its own |
| SimpleVectors.SimpleVector.CopyAssign | simple-vector/simple_vector.h:69-75 | the elements become the source's, in a fresh buffer of exactly that size; self-assignment changes nothing; the source is untouched |
| SimpleVectors.SimpleVector.MoveAssign | simple-vector/simple_vector.h:77-84 | buffers, sizes, capacities and elements are exchanged with the source |
| SimpleVectors.SimpleVector.Swap | simple-vector/simple_vector.h:181-185 | buffers, sizes, capacities and elements are exchanged, and no element is copied |
| SimpleVectors.SimpleVector.PushBack | simple-vector/simple_vector.h:86-108 | the value is appended and earlier elements are unchanged; the capacity follows PushCapacity; the buffer is kept when not full and replaced when full |
| SimpleVectors.SimpleVector.PopBack | simple-vector/simple_vector.h:110-113 | requires a non-empty vector; drops the last element and keeps the buffer and capacity |
| SimpleVectors.SimpleVector.Insert | simple-vector/simple_vector.h:115-171 | for pos <= size the elements become InsertAt(old, pos, value) and pos is returned; the capacity follows PushCapacity |
| SimpleVectors.SimpleVector.Erase | simple-vector/simple_vector.h:173-179 | for pos < size the elements become EraseAt(old, pos) and pos is returned; the buffer and capacity are unchanged |
| SimpleVectors.SimpleVector.Reserve | simple-vector/simple_vector.h:187-190 | the capacity becomes max(old, n) and the elements are unchanged; nothing changes when n <= capacity |
| SimpleVectors.SimpleVector.GetSize | simple-vector/simple_vector.h:192-195 | the number of live elements |
| SimpleVectors.SimpleVector.GetCapacity | simple-vector/simple_vector.h:197-200 | the buffer length, never below the size |
| SimpleVectors.SimpleVector.IsEmpty | simple-vector/simple_vector.h:202-205 | true exactly when there are no live elements |
| SimpleVectors.SimpleVector.Get | simple-vector/simple_vector.h:207-217 | for index < size, the element at that index |
| SimpleVectors.SimpleVector.Set | simple-vector/simple_vector.h:207-211 | writing through `operator[]` replaces exactly that element |
| SimpleVectors.SimpleVector.At | simple-vector/simple_vector.h:219-235 | out of range exactly when index >= size, and otherwise the element at that index; nothing is modified |
| SimpleVectors.SimpleVector.Clear | simple-vector/simple_vector.h:237-240 | no live elements; the buffer and capacity are kept |
| SimpleVectors.SimpleVector.Resize | simple-vector/simple_vector.h:242-254 | the size becomes n and the capacity max(old, n); within capacity the elements become Resized(old, n, Type{}) in the same buffer; beyond it, a fresh buffer keeps all old elements |
| SimpleVectors.SimpleVector.Assign | simple-vector/simple_vector.h:298-305 | the state becomes a copy of the given elements in a fresh buffer with no spare capacity |
| SimpleVectors.SimpleVector.MoveElements | simple-vector/simple_vector.h:307-314 | a fresh buffer of the requested capacity that holds the same elements |
| Scenarios.AppendThree | simple-vector/simple_vector.h:86-94 | appending 1, 2, 3 to an empty vector gives [1, 2, 3], and the capacities are 0, 1, 2, 4 |
| Scenarios.InsertBeforeSix | simple-vector/simple_vector.h:115-143 | inserting 99 at the position of 6 in [5, 6, 7] gives [5, 99, 6, 7] and returns 1 |
| Scenarios.AtPastTheEnd | simple-vector/simple_vector.h:221-226 | At(5) on [1, 2, 3] is out of range and leaves the elements unchanged |
| Scenarios.SameListCompares | simple-vector/simple_vector.h:318-343 | two vectors built from the same list are `==`, and neither is `<` or `>` the other |
| Scenarios.CopyIsIndependent | simple-vector/simple_vector.h:55-57 | a copy equals its source, and writing into the copy leaves the source unchanged |
| Scenarios.MoveAssignExchanges | simple-vector/simple_vector.h:77-84 | after move assignment the destination holds the source's elements and the source holds the destination's |
| Scenarios.InsertOwnElement | simple-vector/simple_vector.h:115-125 | inserting a copy of its own second element at the front of [1, 2], with room to spare, gives [2, 1, 2] |
| Scenarios.ReservedThenAppend | simple-vector/simple_vector.h:65-67 | a vector built from Reserve(4) takes two appends, giving [7, 8] with the capacity still 4 |
| Scenarios.MovedFromIsReusable | simple-vector/simple_vector.h:59-63 | after a move construction from [1, 2], the new vector holds [1, 2] and appending 3 to the source gives [3] |
| Scenarios.ResizeTwice | simple-vector/simple_vector.h:244-254 | Resize(1) then Resize(3) within capacity on [1, 2, 3, 4] gives [1, 0, 0] |

## Findings

| source | as written | input that shows it | evidently intended | confidence | as-written member | corrected member |
|---|---|---|---|---|---|---|
| simple-vector/simple_vector.h:174-176 | Erase asserts `position <= end()`, runs `std::move(position + 1, end(), position)` (line 175), then `--size_` | Erase(begin()) on an empty vector of capacity 0: the assertion passes, since begin() == end(); line 175 moves over the inverted range [end() + 1, end()), which is undefined; if it moves nothing, `size_` wraps to 2^64 - 1 > capacity 0 | `position < end()`, so the size stays within the capacity | medium (depends on line 175 doing nothing), not executed | VectorSpec.EraseAtEndOfEmptyBreaksInvariant | SimpleVectors.SimpleVector.Erase |
| simple-vector/simple_vector.h:122-124 | the in-place Insert shifts the tail with `std::copy_backward`, then reads `value` (a `const Type&`) | v = [1, 2] with capacity 3, Insert(begin(), v[1]): the shift overwrites slot 1 with 1 before `value` is read, giving [1, 1, 2] | [2, 1, 2], as `std::vector::insert` gives for an aliased value | high, not executed | VectorSpec.InsertOwnElementReadsShiftedSlot | SimpleVectors.SimpleVector.Insert |

`SimpleVectors.SimpleVector.Erase` requires `pos < size`. It keeps `Valid()`,
which includes `size <= capacity`.

`SimpleVectors.SimpleVector.Insert` takes `value` by copy, so it inserts the
value the caller passed, whatever slot it came from. `Scenarios.InsertOwnElement`
shows the intended [2, 1, 2].

## Left out

- Iterators (`begin`, `end`, `cbegin`, `cend`) and pointer arithmetic: positions are indices in `[0, size]`. Iterator invalidation is not modelled.
- `ArrayPtr` is not part of this model. A fresh buffer is `new T[n]`, and the model puts no constraint on its slots. Allocation failure and the exception-safety guarantees are left out: Dafny allocation cannot fail.
- SimpleVectors.SimpleVector.Resize: when growing beyond the capacity, the model does not state that the new slots hold `Type{}`. They come from a fresh `ArrayPtr`, which is not shown.
- SimpleVectors.SimpleVector.PushBack: `value` is taken by copy, so aliasing with an element of the same vector is not modelled. In the source, `PushBack(v[i])` on a full vector reads `value` at line 92, after `MoveElements` has moved it out and released the old buffer. That read is undefined.
- SimpleVectors.SimpleVector.Insert: `value` is taken by copy, so aliasing with an element of the same vector is not modelled by the method. The in-place path's aliasing effect is modelled separately as a finding (`VectorSpec.InsertInPlaceReadingElement`).
- The `const Type&` and `Type&&` overloads of `PushBack` and `Insert` are one method each. At the value level they do the same thing.
- The const and non-const overloads of `operator[]` and `At`: `Get` and `At` read, and `Set` models a write through the returned reference. A write through `At`'s reference after a successful check is the same as `Set`.
- `size_t` arithmetic is unbounded `nat`, so `size_ + 1` and `2u * capacity_` never overflow. The one wrap-around that matters is modelled in the finding above.
- Self-assignment and identity shortcuts: `CopyAssign` keeps its `this != other` test, and `MoveAssign` keeps it too, where it makes no difference. `operator==` compares values, which gives the same answer when both operands are one object.
- The element type's `operator<` is the parameter `lt`, and element `==` is Dafny equality.
- `ReserveProxyObject::Return_Capasity` is named `ReturnCapacity`.
