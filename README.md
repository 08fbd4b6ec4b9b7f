# MyArrayList in Dafny

A verified model of `MyArrayList<T>` (package `by.aston.list`), a resizable
array list. Its state is a backing buffer `elements` and a count `size`; the
first `size` slots of the buffer are the list, the rest is slack. The model is
a Dafny class with those two fields (`array<Option<T>>`, `int`), where `None`
stands for Java `null`, and an object invariant `Valid()`:
`0 <= size <= elements.Length`. `Contents()` is the list as a sequence,
`elements[..size]`.

Modules:

- `Wrappers` (`wrappers.dfy`): `Option`, `Result`, `Outcome`. Exceptions
  become `Failure`/`Fail` values instead of preconditions.
- `ListSpec` (`list_spec.dfy`): the exceptions, the growth rule
  `Math.round(size * 1.5)` as `(3 * size + 1) / 2`, and the sequence-level
  meaning of insertion, removal, `Arrays.copyOf` and `indexOf`.
- `JavaArrays` (`java_arrays.dfy`): `System.arraycopy` (with its bounds
  checks, and overlapping ranges of one array) and `Arrays.copyOf`.
- `ArrayList` (`array_list.dfy`): the class `MyArrayList` with every public
  operation except `sort` and `hashCode`, and the private `grow` and
  `checkIndex`.
- `Scenarios` (`scenarios.dfy`): concrete runs proved from the contracts,
  among them one per boundary quirk listed below.

The code's boundary behaviour is modelled as written:

- `set` and `remove(int)` use the lenient `checkIndex`, which admits
  `index == size`. `set(size, e)` writes a slack slot (or throws on a full
  buffer); `remove(size)`, when the buffer has slack, decrements `size` before
  `System.arraycopy` throws on length -1, so the list is left with a wrong
  size, -1 for an empty list with slack; on a full buffer the read of slot
  `size` throws first and nothing changes.
  `Remove` states this outcome; afterwards `Valid()` may fail, and no operation
  of the model is defined on such a list.
- `remove(Object)` removes only when `indexOf` returns an index `> 0`: a match
  at the head is reported as not found.
- `addAll` grows while the batch does not fit, but `grow` computes the capacity
  from `size`, so after one grow nothing changes any more. When the batch does
  not fit after one grow the Java loop never exits; `AddAll` then returns
  `Failure(NonTermination)` in the state the first grow left. That grow can
  shrink the buffer (to capacity 0 for an empty list); on every call that
  returns, the capacity only grows.
- The Javadoc of `set` and `remove(int)` promises an
  IndexOutOfBoundsException for an index outside the list, but both use the
  private `checkIndex`, whose bound is the one of `add`. The model follows the
  code.
- `add` on a full buffer of capacity 0 (a list built from an empty array)
  grows to capacity 0 and the copy throws.
- `equals` compares sizes and the whole backing buffers, so capacity and stale
  slack slots take part. The Javadoc of `equals` promises element-by-element
  equality of the two lists; the model follows the code, and proves that the
  inherited comparison of `[0, size)` adds nothing to the buffer comparison.
- The array constructor throws `NullPointerException` for `null`; otherwise it
  keeps the caller's array only until `grow` replaces it by a fresh copy, so
  the list never aliases it.

## Model

| member | source | states |
|---|---|---|
| `ListSpec.GrownCapacity` | src/main/java/by/aston/list/MyArrayList.java:81-84 | the new capacity is 1.5 * size rounded half up, at least `size`, strictly more once `size >= 1`, and 0 for an empty list |
| `ListSpec.GrowsStabilise` | src/main/java/by/aston/list/MyArrayList.java:141-143 | after one or more grows of an unchanged size the capacity is fixed at `GrownCapacity(size)` |
| `ListSpec.AddAllLoopExits` | src/main/java/by/aston/list/MyArrayList.java:141-143 | addAll's growth loop exits after some number of grows iff the batch fits now or after one grow |
| `ListSpec.Resized` | src/main/java/by/aston/list/MyArrayList.java:83 | the copied buffer has the new length, keeps the old slots that fit and pads with null |
| `ListSpec.Inserted` | src/main/java/by/aston/list/MyArrayList.java:113-114 | insertion at `i`: one longer, `x` at `i`, earlier elements unchanged, later ones moved up by one |
| `ListSpec.Removed` | src/main/java/by/aston/list/MyArrayList.java:196 | removal at `i`: one shorter, earlier elements unchanged, later ones moved down by one |
| `ListSpec.RemoveUndoesInsert` | src/main/java/by/aston/list/MyArrayList.java:192-198 | `remove(i)` after `add(i, x)` gives back the original sequence |
| `ListSpec.InsertAtEndAppends` | src/main/java/by/aston/list/MyArrayList.java:124-127 | inserting at index `size` appends |
| `ListSpec.AppendEachIsConcat` | src/main/java/by/aston/list/MyArrayList.java:124-127 | appending elements one by one with `add(t)` leaves them in insertion order after the old ones |
| `ListSpec.Lookup` | src/main/java/by/aston/list/MyArrayList.java:223-230 | indexOf's answer: the least index holding `o` with no null before it, -1 iff every element is non-null and differs from `o`, else NullPointerException at a null reached first |
| `JavaArrays.ArrayCopy` | src/main/java/by/aston/list/MyArrayList.java:113 | arraycopy succeeds iff positions and length are non-negative and both ranges fit; then the source range (read before writing) lands at the destination and nothing else changes; on failure nothing changes |
| `JavaArrays.CopyOf` | src/main/java/by/aston/list/MyArrayList.java:83 | `Arrays.copyOf` returns a fresh array equal to the truncated or null-padded original |
| `ArrayList.MyArrayList.WithCapacity` | src/main/java/by/aston/list/MyArrayList.java:44-52 | an accepted capacity gives an empty list with a fresh all-null buffer of that capacity, or of 10 for 0 |
| `ArrayList.MyArrayList.constructor` | src/main/java/by/aston/list/MyArrayList.java:73-75 | the no-argument list is empty with a fresh all-null buffer of capacity 10 |
| `ArrayList.MyArrayList.FromArray` | src/main/java/by/aston/list/MyArrayList.java:60-68 | the list holds the array's elements in order, in a fresh buffer of capacity round(1.5 * length) |
| `ArrayList.MyArrayList.Create` | src/main/java/by/aston/list/MyArrayList.java:44-52 | a negative capacity throws IllegalArgumentException, any other gives an empty valid list with a fresh all-null buffer of capacity `n`, or 10 for 0 |
| `ArrayList.MyArrayList.CreateFromArray` | src/main/java/by/aston/list/MyArrayList.java:60-68 | a null array throws NullPointerException, any other gives a list of its elements in a fresh buffer of capacity round(1.5 * length), the array's elements truncated or null-padded to that capacity |
| `ArrayList.MyArrayList.Grow` | src/main/java/by/aston/list/MyArrayList.java:81-84 | the buffer becomes a fresh copy of the new capacity; size and list contents are unchanged |
| `ArrayList.MyArrayList.Get` | src/main/java/by/aston/list/MyArrayList.java:93-96 | succeeds iff `0 <= index < size` and then returns the element at `index`; otherwise IndexOutOfBoundsException |
| `ArrayList.MyArrayList.CheckIndex` | src/main/java/by/aston/list/MyArrayList.java:258-262 | on a valid list the check admits an index iff get would accept it or it equals `size` |
| `ArrayList.MyArrayList.CheckIndexAdmitsSize` | src/main/java/by/aston/list/MyArrayList.java:258-262 | the index `size` is admitted by checkIndex although get rejects it |
| `ArrayList.MyArrayList.Add` | src/main/java/by/aston/list/MyArrayList.java:108-116 | succeeds iff `0 <= index <= size` and the buffer is not a full one of capacity 0; then size grows by one and the contents are the insertion of the element at `index`; a full buffer is first replaced by one of capacity round(1.5 * size) with null slack, so the capacity never shrinks; a rejected index changes nothing |
| `ArrayList.MyArrayList.ShiftAndWrite` | src/main/java/by/aston/list/MyArrayList.java:113-115 | with room in the buffer, the element is inserted at `index` and size grows by one; on a full buffer the copy throws and nothing changes; slots past the old size other than the new last one are unchanged |
| `ArrayList.MyArrayList.AddLast` | src/main/java/by/aston/list/MyArrayList.java:124-127 | appends the element and returns true, except on a full buffer of capacity 0, which throws |
| `ArrayList.MyArrayList.AddAll` | src/main/java/by/aston/list/MyArrayList.java:135-147 | an empty batch returns false and changes nothing; a batch that fits is copied after the last element without growth; one that fits after one grow goes into a buffer of capacity round(1.5 * size); any other never returns, after one grow to capacity round(1.5 * size); a call that returns never shrinks the capacity |
| `ArrayList.MyArrayList.IsEmpty` | src/main/java/by/aston/list/MyArrayList.java:154-156 | true iff the list has no element |
| `ArrayList.MyArrayList.Set` | src/main/java/by/aston/list/MyArrayList.java:167-172 | succeeds iff `0 <= index <= size` and the slot exists; returns the old slot value and writes the new one; for `index < size` get then returns the new element; for `index == size` the contents do not change |
| `ArrayList.MyArrayList.Size` | src/main/java/by/aston/list/MyArrayList.java:179-181 | the size is the length of the list |
| `ArrayList.MyArrayList.Remove` | src/main/java/by/aston/list/MyArrayList.java:192-198 | for `0 <= index < size`: returns the element, size drops by one, later elements move down, the slack (including the stale old last element) and the buffer stay; for `index == size` with slack it throws after decrementing size; otherwise it throws and changes nothing |
| `ArrayList.MyArrayList.RemoveObject` | src/main/java/by/aston/list/MyArrayList.java:207-214 | removes the first occurrence and returns true iff indexOf finds it at an index > 0, leaving the buffer, the slack and the stale old last slot as they were; a match at index 0 and an absent element (indexOf gives -1) return false and change nothing; indexOf's NullPointerException propagates, and it is the only exception |
| `ArrayList.MyArrayList.IndexOf` | src/main/java/by/aston/list/MyArrayList.java:223-230 | the scan returns what `Lookup` specifies for the list's contents |
| `ArrayList.MyArrayList.Clear` | src/main/java/by/aston/list/MyArrayList.java:236-241 | the list is empty, slots `[0, size)` are null, the buffer and every slot from the old size on are unchanged |
| `ArrayList.MyArrayList.Equals` | src/main/java/by/aston/list/MyArrayList.java:273-279 | equal iff the sizes and the whole buffers are equal; equal lists have equal contents |
| `Scenarios.AppendInsertRun` | src/main/java/by/aston/list/MyArrayList.java:108-127 | appending 1, 2, 3 to an empty list gives 1, 2, 3; inserting 99 at index 1 then gives 1, 99, 2, 3 |
| `Scenarios.RemoveAddAllRun` | src/main/java/by/aston/list/MyArrayList.java:135-198 | removing index 0 of 1, 99, 2, 3 returns 1 and leaves 99, 2, 3; appending the batch 4, 5, 6 gives 99, 2, 3, 4, 5, 6 |
| `Scenarios.CapacityDecidesEquality` | src/main/java/by/aston/list/MyArrayList.java:273-279 | empty lists of capacity 10 and 5 have equal contents but are not equal |
| `Scenarios.StaleSlotDecidesEquality` | src/main/java/by/aston/list/MyArrayList.java:273-279 | [1, 2] built by two appends and [1, 2] left by removing the last element of [1, 2, 3], both of capacity 5, have equal contents but are not equal |
| `Scenarios.AbsentElementIsNotRemoved` | src/main/java/by/aston/list/MyArrayList.java:207-230 | remove(Object) of 9 from [7, 8] returns false and leaves the list as it was |
| `Scenarios.HeadMatchIsNotRemoved` | src/main/java/by/aston/list/MyArrayList.java:207-214 | remove(Object) of the first element returns false and leaves the list as it was |
| `Scenarios.RemoveAtSizeCorruptsSize` | src/main/java/by/aston/list/MyArrayList.java:192-198 | remove(0) on an empty list throws and leaves size at -1 |
| `Scenarios.SetAtSizeWritesSlack` | src/main/java/by/aston/list/MyArrayList.java:167-172 | set(size, e) on a list with slack succeeds, returns null and leaves the contents as they were |
| `Scenarios.AddAllOnEmptyListDiverges` | src/main/java/by/aston/list/MyArrayList.java:141-143 | addAll of 11 elements onto an empty list of capacity 10 never returns, and the buffer has been shrunk to capacity 0 |
| `Scenarios.AddToEmptyArrayListThrows` | src/main/java/by/aston/list/MyArrayList.java:108-116 | add on a list built from an empty array throws IndexOutOfBoundsException |

## Left out

- `sort` (lines 249-251): it hands the list to `MyCollections.sortByComparator`, which is not part of this model.
- `hashCode` (lines 286-290): it depends on the elements' `hashCode`, on `AbstractList.hashCode` and on 32-bit wrap-around; none of these is modelled.
- The inherited `AbstractList` machinery: iterators, `getClass()` and `equals` against objects that are not a `MyArrayList<T>`. The elements' own `equals` is Dafny equality on `T`, non-null receivers never equal `null`.
- Java `int` limits: `size`, capacities and indices are unbounded integers, and `Math.round(size * 1.5)` is computed exactly as `(3 * size + 1) / 2`; the floating-point rounding and the `(int)` cast near `Integer.MAX_VALUE` are not modelled.
- ArrayList.MyArrayList.AddAll: a call the Java code never returns from is modelled as returning `Failure(NonTermination)` in the state after the first grow, since every later grow reproduces that state.
- ArrayList.MyArrayList.Remove: after `remove(size)` has corrupted `size`, `Valid()` may no longer hold, and the model defines no further operation on that list (every operation requires `Valid()`).
- The collection passed to `addAll` is given as the sequence its `toArray()` returns; a `null` collection (NullPointerException) is not modelled.
- Array covariance: the array constructor (lines 60-68) keeps the caller's array, and `Arrays.copyOf` in `grow` (line 83) keeps its runtime element type, so on a list built from, say, an `Integer[]` and typed with a wider `T`, storing a value of another subtype throws `ArrayStoreException` — in `add` at line 114 after the shift at line 113 has already run (`add(0, x)` on `[a, b, c]` leaves `[a, a, b]`), in `set` at line 170 and in `addAll` at line 144, possibly after a grow and a partial copy. The model has no runtime element types: its buffer accepts every `T`, so ArrayList.MyArrayList.Add, ArrayList.MyArrayList.Set and ArrayList.MyArrayList.AddAll never fail this way.
