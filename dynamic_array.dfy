/** The growable array DynamicArray<T>: a backing buffer, a logical count and a capacity.
    The live elements are the buffer's first count slots; the slots after them are stale. */
module DynamicArrays {
  import opened Sequences

  /** The exceptions the operations throw, as values. */
  datatype Error =
    | InvalidArgument   // a null array argument (ArgumentNullException)
    | IndexOutOfRange   // an index outside its bound (ArgumentOutOfRangeException)
    | EmptyCollection   // First on an empty array (InvalidOperationException)

  /** The outcome of an operation that returns nothing unless it throws. */
  datatype Outcome = Pass | Fail(error: Error)

  /** The outcome of an operation that returns a value unless it throws. */
  datatype Result<T> = Success(value: T) | Failure(error: Error)

  /** The capacity of a new array. */
  const InitialCapacity: nat := 3

  /** The larger of a and b. */
  function Max(a: int, b: int): int
  {
    if a < b then b else a
  }

  /** Array.Copy between two distinct arrays: length elements of src from srcIndex
      overwrite dst from dstIndex; the rest of dst is untouched. */
  method Copy<T>(src: array<T>, srcIndex: nat, dst: array<T>, dstIndex: nat, length: nat)
    requires src != dst
    requires srcIndex + length <= src.Length && dstIndex + length <= dst.Length
    modifies dst
    ensures dst[..dstIndex] == old(dst[..dstIndex])
    ensures dst[dstIndex..dstIndex + length] == src[srcIndex..srcIndex + length]
    ensures dst[dstIndex + length..] == old(dst[dstIndex + length..])
  {
    var k := 0;
    while k < length
      invariant 0 <= k <= length
      invariant forall j :: 0 <= j < dstIndex ==> dst[j] == old(dst[j])
      invariant dst[dstIndex..dstIndex + k] == src[srcIndex..srcIndex + k]
      invariant forall j :: dstIndex + k <= j < dst.Length ==> dst[j] == old(dst[j])
    {
      dst[dstIndex + k] := src[srcIndex + k];
      k := k + 1;
    }
  }

  class DynamicArray<T(0,==)> {
    var elements: array<T>
    var count: nat
    var capacity: nat

    /** The representation invariant: count <= capacity == the buffer's length. */
    ghost predicate Valid()
      reads this
    {
      count <= capacity && capacity == elements.Length
    }

    /** The abstract value: the live range of the buffer. */
    ghost function Contents(): seq<T>
      reads this, elements
      requires Valid()
    {
      elements[..count]
    }

    /** A new array is empty and has room for three elements. */
    constructor ()
      ensures Valid() && fresh(elements)
      ensures Contents() == [] && capacity == InitialCapacity
    {
      capacity := InitialCapacity;
      elements := new T[InitialCapacity];
      count := 0;
    }

    /** The current capacity, never below the number of elements. */
    function Capacity(): (c: nat)
      reads this
      requires Valid()
      ensures count <= c == elements.Length
    {
      capacity
    }

    /** The number of elements. */
    function Count(): (n: nat)
      reads this, elements
      requires Valid()
      ensures n == |Contents()|
    {
      count
    }

    /** Appends item, growing the buffer by exactly one slot when it is full. */
    method Add(item: T)
      requires Valid()
      modifies this, elements
      ensures Valid() && (elements == old(elements) || fresh(elements))
      ensures Contents() == old(Contents()) + [item]
      ensures capacity == if old(count) == old(capacity) then old(capacity) + 1 else old(capacity)
    {
      if count == capacity {
        ResizeArray(capacity + 1);
      }
      elements[count] := item;
      count := count + 1;
    }

    /** Appends all of items, growing the buffer in one step to exactly the size needed.
        A null items is rejected before anything changes. */
    method AddRange(items: array?<T>) returns (outcome: Outcome)
      requires Valid() && items != elements
      modifies this, elements
      ensures Valid() && (elements == old(elements) || fresh(elements))
      ensures items == null ==> outcome == Fail(InvalidArgument) && unchanged(this) && unchanged(elements)
      ensures items != null ==> outcome == Pass && Contents() == old(Contents()) + items[..]
      ensures items != null ==> capacity == Max(old(capacity), old(count) + items.Length)
    {
      if items == null {
        return Fail(InvalidArgument);
      }
      var required := count + items.Length;
      if required > capacity {
        ResizeArray(required);
      }
      Copy(items, 0, elements, count, items.Length);
      count := count + items.Length;
      outcome := Pass;
    }

    /** Whether the array holds any element. */
    function Any(): (b: bool)
      reads this, elements
      requires Valid()
      ensures b <==> Contents() != []
    {
      count > 0
    }

    /** The first element; fails on an empty array. */
    function First(): (r: Result<T>)
      reads this, elements
      requires Valid()
      ensures Contents() == [] ==> r == Failure(EmptyCollection)
      ensures Contents() != [] ==> r == Success(Contents()[0])
    {
      if count == 0 then Failure(EmptyCollection) else Success(elements[0])
    }

    /** Removes the first occurrence of item, if there is one, and says whether it did. */
    method Remove(item: T) returns (removed: bool)
      requires Valid()
      modifies this`count, elements
      ensures Valid() && elements == old(elements) && capacity == old(capacity)
      ensures removed <==> item in old(Contents())
      ensures !removed ==> unchanged(this) && unchanged(elements)
      ensures removed ==> Contents() == DeleteAt(old(Contents()), FirstIndex(old(Contents()), item))
    {
      var index := IndexOf(item);
      if index == -1 {
        return false;
      }
      var outcome := RemoveAt(index);
      removed := true;
    }

    /** Removes, in one stable pass over the buffer, every element equal to some element of
        items, and returns how many went. A null items is rejected before anything changes. */
    method RemoveAll(items: array?<T>) returns (r: Result<nat>)
      requires Valid() && items != elements
      modifies this`count, elements
      ensures Valid() && elements == old(elements) && capacity == old(capacity)
      ensures items == null ==> r == Failure(InvalidArgument) && unchanged(this) && unchanged(elements)
      ensures items != null ==> Contents() == Exclude(old(Contents()), items[..])
      ensures items != null ==> r == Success(old(count) - count)
    {
      if items == null {
        return Failure(InvalidArgument);
      }
      ghost var s := Contents();
      var originalCount := count;
      var newCount := 0;
      var i := 0;
      while i < count
        modifies elements
        invariant 0 <= newCount <= i <= count
        invariant elements[..newCount] == Exclude(s[..i], items[..])
        invariant forall k :: i <= k < count ==> elements[k] == s[k]
      {
        var found := false;
        for j := 0 to items.Length
          invariant !found && elements[i] !in items[..j]
        {
          if elements[i] == items[j] {
            found := true;
            break;
          }
        }
        assert found <==> s[i] in items[..];
        assert s[..i + 1] == s[..i] + [s[i]];
        if !found {
          elements[newCount] := elements[i];
          newCount := newCount + 1;
        }
        i := i + 1;
      }
      assert s[..i] == s;
      count := newCount;
      r := Success(originalCount - newCount);
    }

    /** Empties the array; the buffer and the capacity stay as they are. */
    method Clear()
      requires Valid()
      modifies this`count
      ensures Valid() && Contents() == []
      ensures elements == old(elements) && capacity == old(capacity)
    {
      count := 0;
    }

    /** Inserts item at index, 0 <= index <= Count, moving the elements from index on one
        place right; grows the buffer by one slot when it is full. */
    method Insert(item: T, index: int) returns (outcome: Outcome)
      requires Valid()
      modifies this, elements
      ensures Valid() && (elements == old(elements) || fresh(elements))
      ensures !(0 <= index <= old(count)) ==>
        outcome == Fail(IndexOutOfRange) && unchanged(this) && unchanged(elements)
      ensures 0 <= index <= old(count) ==>
        outcome == Pass && Contents() == InsertAt(old(Contents()), index, item)
      ensures 0 <= index <= old(count) ==>
        capacity == if old(count) == old(capacity) then old(capacity) + 1 else old(capacity)
    {
      if index < 0 || index > count {
        return Fail(IndexOutOfRange);
      }
      if count == capacity {
        ResizeArray(capacity + 1);
      }
      ghost var s, stale := Contents(), elements[index];
      ShiftRight(index);
      elements[index] := item;
      count := count + 1;
      InsertAtReplace(s, index, stale, item);
      outcome := Pass;
    }

    /** The loop of Insert: moves the live elements from index on one slot right, the
        highest first, into the free slot at count; the slot at index keeps its value. */
    method ShiftRight(index: nat)
      requires Valid() && index <= count < capacity
      modifies elements
      ensures elements[..count + 1] == InsertAt(old(elements[..count]), index, old(elements[index]))
      ensures elements[count + 1..] == old(elements[count + 1..])
    {
      var i := count;
      while i > index
        invariant index <= i <= count
        invariant forall k :: 0 <= k <= i ==> elements[k] == old(elements[k])
        invariant forall k :: i < k <= count ==> elements[k] == old(elements[k - 1])
        invariant forall k :: count < k < elements.Length ==> elements[k] == old(elements[k])
      {
        elements[i] := elements[i - 1];
        i := i - 1;
      }
      ghost var shifted := InsertAt(old(elements[..count]), index, old(elements[index]));
      assert forall k :: 0 <= k <= count ==> elements[k] == shifted[k];
    }

    /** The index of the first element equal to item, or -1. */
    method IndexOf(item: T) returns (index: int)
      requires Valid()
      ensures index == FirstIndex(Contents(), item)
    {
      var i := 0;
      while i < count
        invariant 0 <= i <= count
        invariant item !in elements[..i]
      {
        if elements[i] == item {
          FirstIndexUnique(Contents(), item, i);
          return i;
        }
        i := i + 1;
      }
      return -1;
    }

    /** The index of the last element equal to item, or -1. */
    method LastIndexOf(item: T) returns (index: int)
      requires Valid()
      ensures index == LastIndex(Contents(), item)
    {
      var i: int := count - 1;
      while i >= 0
        invariant -1 <= i < count
        invariant item !in elements[i + 1..count]
      {
        if elements[i] == item {
          LastIndexUnique(Contents(), item, i);
          return i;
        }
        i := i - 1;
      }
      return -1;
    }

    /** Replaces the buffer by a new one of newCapacity slots holding the live elements. */
    method ResizeArray(newCapacity: nat)
      requires Valid() && count <= newCapacity
      modifies this
      ensures Valid() && fresh(elements)
      ensures capacity == newCapacity && count == old(count)
      ensures Contents() == old(Contents())
    {
      var newElements := new T[newCapacity];
      Copy(elements, 0, newElements, 0, count);
      elements := newElements;
      capacity := newCapacity;
    }

    /** Removes the element at index, 0 <= index < Count, moving the elements after it one
        place left; the vacated slot is left stale. */
    method RemoveAt(index: int) returns (outcome: Outcome)
      requires Valid()
      modifies this`count, elements
      ensures Valid() && elements == old(elements) && capacity == old(capacity)
      ensures !(0 <= index < old(count)) ==>
        outcome == Fail(IndexOutOfRange) && unchanged(this) && unchanged(elements)
      ensures 0 <= index < old(count) ==>
        outcome == Pass && Contents() == DeleteAt(old(Contents()), index)
    {
      if index < 0 || index >= count {
        return Fail(IndexOutOfRange);
      }
      ghost var s := Contents();
      var i := index;
      while i < count - 1
        modifies elements
        invariant index <= i < count
        invariant forall k :: 0 <= k < index ==> elements[k] == s[k]
        invariant forall k :: index <= k < i ==> elements[k] == s[k + 1]
        invariant forall k :: i <= k < count ==> elements[k] == s[k]
      {
        elements[i] := elements[i + 1];
        i := i + 1;
      }
      count := count - 1;
      outcome := Pass;
    }

    /** A fresh array holding a copy of the elements, shared with nothing. */
    method ToArray() returns (result: array<T>)
      requires Valid()
      ensures fresh(result) && result[..] == Contents()
    {
      result := new T[count];
      Copy(elements, 0, result, 0, count);
    }
  }
}
