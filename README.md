# DynamicArray in Dafny

A model of `DynamicArray<T>`, a generic growable array written in C#. The array keeps three
fields: a backing buffer, the logical count and the capacity. The live elements are the
buffer's first `count` slots. A new array has capacity 3. `Add` grows the buffer by exactly one
slot when it is full. `AddRange` grows it in one step to exactly the size it needs. `Insert` and
the private `RemoveAt` shift elements right and left in place. `RemoveAll` filters the array in
one stable pass. `IndexOf` and `LastIndexOf` are linear scans. `ToArray` copies the live range
into a fresh array.

Files:

- `sequences.dfy`, module `Sequences`: pure definitions of what the operations do to the live
  range, and lemmas about them. `FirstIndex` and `LastIndex` are the searches. `InsertAt` and
  `DeleteAt` are positional insertion and deletion. `Exclude` is the order-preserving filter.
  `IsSubsequence` is "obtained by deleting elements".
- `dynamic_array.dfy`, module `DynamicArrays`: the class `DynamicArray<T>` with fields
  `elements: array<T>`, `count` and `capacity`. `Valid()` is the representation invariant
  `count <= capacity == elements.Length`, and `Contents()` is the live range `elements[..count]`.
  Each method is an imperative method with the source's loops and loop invariants. Its
  postcondition ties the new `Contents()` and capacity to the old ones, through sequence
  expressions or the definitions in `Sequences`. `Copy` models `Array.Copy`.
  The three exceptions become the `Error` values `InvalidArgument`, `IndexOutOfRange` and
  `EmptyCollection`. They are returned in an `Outcome` or `Result`, and every failing path
  leaves the object and its buffer unchanged. A `null` array argument is the nullable type
  `array?<T>`. The element type is `T(0,==)`: `T(0)` stands for `default(T)` in a new buffer,
  `T(==)` for `Equals`.
- `program.dfy`, module `Demo`: the console demo's fixed script from `Program.cs`, without the
  printing. Each printed state is an assertion that follows from the contracts alone. `Script`
  replays `Program.cs:7-37`, and the stages it calls have rows below. `RemoveNine` adds one step
  the demo does not have: `Remove(42)`, an absent value, which must change nothing. Three test
  clients carry no `ensures` and so have no row. They are `Script` itself; `Searches`, which
  checks `IndexOf(9) == 4` and `LastIndexOf(9) == 5` (`Program.cs:25-27`); and `GrowByOne`. That
  last client is not in the demo. It checks that a fourth `Add` grows the capacity to 4, and
  that two snapshots are distinct arrays with equal contents.

## Model

| member | source | states |
|---|---|---|
| DynamicArrays.DynamicArray.constructor | DynamicArray.cs:21-26 | a new array is valid, empty, has capacity 3 and owns a fresh buffer |
| DynamicArrays.DynamicArray.Capacity | DynamicArray.cs:30 | the capacity is the buffer's length and never below the count |
| DynamicArrays.DynamicArray.Count | DynamicArray.cs:34 | the count is the number of live elements |
| DynamicArrays.DynamicArray.Add | DynamicArray.cs:39-44 | contents become old contents + [item]; capacity grows by exactly one when the array was full and is unchanged otherwise; the invariant is kept |
| DynamicArrays.DynamicArray.AddRange | DynamicArray.cs:50-62 | null items fails with InvalidArgument and changes nothing; otherwise contents become old contents + items and capacity becomes max(old capacity, old count + items.Length), so empty items changes nothing |
| DynamicArrays.DynamicArray.Any | DynamicArray.cs:67 | true exactly when the contents are non-empty |
| DynamicArrays.DynamicArray.First | DynamicArray.cs:73-78 | fails with EmptyCollection on empty contents, otherwise returns the first live element |
| DynamicArrays.DynamicArray.Remove | DynamicArray.cs:84-91 | returns true exactly when item is present; then the contents lose the element at the first index of item; otherwise nothing changes; capacity and buffer stay |
| DynamicArrays.DynamicArray.RemoveAll | DynamicArray.cs:98-123 | null items fails with InvalidArgument and changes nothing; otherwise contents become the order-preserving filter of the old contents by "not in items", and the result is old count - new count; capacity and buffer stay |
| DynamicArrays.DynamicArray.Clear | DynamicArray.cs:127 | contents become empty; buffer and capacity stay |
| DynamicArrays.DynamicArray.Insert | DynamicArray.cs:134-147 | an index outside 0..count fails with IndexOutOfRange and changes nothing; otherwise contents become old[..index] + [item] + old[index..], and capacity grows by one only when the array was full |
| DynamicArrays.DynamicArray.ShiftRight | DynamicArray.cs:142-143 | the loop of Insert: the live elements from index on move one slot right, those before index stay, and the slots after the free one are untouched |
| DynamicArrays.DynamicArray.IndexOf | DynamicArray.cs:153-159 | returns the first index of item in the contents, -1 when absent; reads only |
| DynamicArrays.DynamicArray.LastIndexOf | DynamicArray.cs:165-171 | returns the last index of item in the contents, -1 when absent; reads only |
| DynamicArrays.DynamicArray.ResizeArray | DynamicArray.cs:176-182 | replaces the buffer by a fresh one of exactly the new capacity with the same contents and count |
| DynamicArrays.DynamicArray.RemoveAt | DynamicArray.cs:188-196 | an index outside 0..count-1 fails with IndexOutOfRange and changes nothing; otherwise contents lose the element at index; buffer and capacity stay |
| DynamicArrays.DynamicArray.ToArray | DynamicArray.cs:201-206 | returns a fresh array, aliased with nothing, whose elements are exactly the contents |
| DynamicArrays.Copy | DynamicArray.cs:179 | models the `Array.Copy` calls at DynamicArray.cs:60 (AddRange), 179 (ResizeArray) and 204 (ToArray): the copied range of the destination equals the source range, and the rest of the destination is unchanged |
| Sequences.FirstIndex | DynamicArray.cs:153-159 | -1 exactly when x is absent; otherwise an index holding x with no x before it |
| Sequences.LastIndex | DynamicArray.cs:165-171 | -1 exactly when x is absent; otherwise an index holding x with no x after it |
| Sequences.FirstIndexUnique | DynamicArray.cs:155-157 | the first match of the forward scan is the first index |
| Sequences.LastIndexUnique | DynamicArray.cs:167-169 | the first match of the backward scan is the last index |
| Sequences.InsertAtReplace | DynamicArray.cs:145 | writing item into the slot opened at index gives the insertion of item |
| Sequences.InsertAtEnd | DynamicArray.cs:136 | inserting at index == count is appending |
| Sequences.InsertAtMultiset | DynamicArray.cs:142-146 | insertion puts item at index and adds exactly that one element |
| Sequences.DeleteAtMultiset | DynamicArray.cs:193-195 | deletion shortens by one and takes away exactly the element at the index |
| Sequences.DeleteAtInsertAt | DynamicArray.cs:188-196 | removing at the index just inserted at restores the original contents |
| Sequences.DeleteFirstOccurrence | DynamicArray.cs:84-91 | Remove takes away exactly one occurrence of item and leaves the elements before it in place |
| Sequences.Exclude | DynamicArray.cs:106-121 | the filter never lengthens its input, so the returned removal count is non-negative |
| Sequences.ExcludeMembership | DynamicArray.cs:106-119 | a value survives RemoveAll exactly when it was present and is not in items |
| Sequences.ExcludeMultiplicity | DynamicArray.cs:109-118 | one matching entry of items removes every equal element; all occurrences of other values stay |
| Sequences.ExcludeIsSubsequence | DynamicArray.cs:117-118 | the survivors keep their original relative order |
| Sequences.ExcludeNothing | DynamicArray.cs:98-123 | RemoveAll with items none of which is present removes nothing and returns 0 |
| Sequences.ExcludeIdempotent | DynamicArray.cs:98-123 | a second RemoveAll with the same items removes nothing |
| Sequences.ExcludeBySet | DynamicArray.cs:109-116 | only which values items holds matters, not their order or repetitions |
| Demo.AddThree | Program.cs:7-12 | three Adds on a new array fill its three slots: [1,2,3], capacity 3 |
| Demo.AddNineNineEleven | Program.cs:15 | AddRange([9,9,11]) on the full [1,2,3] gives [1,2,3,9,9,11] and capacity 6 in one step |
| Demo.InsertSeven | Program.cs:22 | Insert(7,2) on the full [1,2,3,9,9,11] gives [1,2,7,3,9,9,11] and capacity 7 |
| Demo.RemoveNine | Program.cs:29 | Remove(9) on [1,2,7,3,9,9,11] takes out the 9 at index 4; the added step Remove(42), which Program.cs does not have, changes nothing |
| Demo.RemoveOneAndThree | Program.cs:33 | RemoveAll([1,3]) on [1,2,7,3,9,11] leaves [2,7,9,11] and reports 2 |
| Demo.RemoveAllScript | Program.cs:33 | RemoveAll([1,3]) on [1,2,7,3,9,11] keeps [2,7,9,11] |

## Left out

- Console output of `Program.cs` and its string formatting: the script is replayed without printing.
- The exception types themselves: each becomes an `Error` value, returned with no change made.
- `Equals` dispatch and the `NullReferenceException` a null element would raise in `IndexOf`
  and `RemoveAll`: elements are compared with Dafny's equality.
- 32-bit overflow of `count + items.Length` in `AddRange` and allocation failure: counts and
  capacities are unbounded naturals.
- The stale slots past `count` after `Clear`, `RemoveAt` and `RemoveAll`: no contract observes them.
  (`ShiftRight` does state that the slots past the new last element keep their values.)
- Cost: the amortized cost of the grow-by-one policy is not modelled; only the resulting
  capacities are.
- DynamicArrays.Copy: models `Array.Copy` only between two distinct arrays, which is every use the class makes
  of it; overlapping copies are not modelled.
- DynamicArrays.DynamicArray.AddRange: requires `items` not to be the object's own buffer, which
  no caller can pass because the field is private.
- DynamicArrays.DynamicArray.RemoveAll: requires `items` not to be the object's own buffer, for
  the same reason.
- Private access: Dafny has no `private`; `ResizeArray` and `RemoveAt` are ordinary methods.
  The shifting loop of `Insert` is its own method, `ShiftRight`, which `Insert` calls.
