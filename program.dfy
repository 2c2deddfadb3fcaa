/** The console demo's fixed script, with each printed state stated as an assertion that
    follows from the operations' contracts alone. Two checks are added that the demo does not
    make: Remove(42), an absent value, in RemoveNine, and the client GrowByOne. */
module Demo {
  import opened Sequences
  import opened DynamicArrays

  method Script()
  {
    var list := AddThree();
    AddNineNineEleven(list);
    InsertSeven(list);
    Searches(list);
    RemoveNine(list);
    RemoveOneAndThree(list);
    list.Clear();
    assert list.Contents() == [] && list.capacity == 7;
    var snapshot := list.ToArray();
    assert snapshot[..] == [];
  }

  /** Add(1), Add(2), Add(3) on a new array fill its three slots. */
  method AddThree() returns (list: DynamicArray<int>)
    ensures fresh(list) && fresh(list.elements) && list.Valid()
    ensures list.Contents() == [1, 2, 3] && list.capacity == 3
  {
    list := new DynamicArray<int>();
    list.Add(1);
    list.Add(2);
    list.Add(3);
  }

  /** AddRange([9, 9, 11]) on the full [1, 2, 3] grows it to six slots in one step. */
  method AddNineNineEleven(list: DynamicArray<int>)
    requires list.Valid() && list.Contents() == [1, 2, 3] && list.capacity == 3
    modifies list, list.elements
    ensures list.Valid() && fresh(list.elements)
    ensures list.Contents() == [1, 2, 3, 9, 9, 11] && list.capacity == 6
  {
    var items := new int[] [9, 9, 11];
    var outcome := list.AddRange(items);
    assert list.Any() && list.First() == Success(1);
  }

  /** Insert(7, 2) on the full [1, 2, 3, 9, 9, 11] grows it by one slot. */
  method InsertSeven(list: DynamicArray<int>)
    requires list.Valid() && list.Contents() == [1, 2, 3, 9, 9, 11] && list.capacity == 6
    modifies list, list.elements
    ensures list.Valid() && fresh(list.elements)
    ensures list.Contents() == [1, 2, 7, 3, 9, 9, 11] && list.capacity == 7
  {
    var outcome := list.Insert(7, 2);
    assert outcome == Pass;
  }

  /** The two searches for 9 in [1, 2, 7, 3, 9, 9, 11]. */
  method Searches(list: DynamicArray<int>)
    requires list.Valid() && list.Contents() == [1, 2, 7, 3, 9, 9, 11]
  {
    ghost var s := list.Contents();
    assert s[..4] == [1, 2, 7, 3] && s[6..] == [11];
    FirstIndexUnique(s, 9, 4);
    LastIndexUnique(s, 9, 5);
    var first := list.IndexOf(9);
    assert first == 4;
    var last := list.LastIndexOf(9);
    assert last == 5;
  }

  /** Remove(9) takes out the 9 at index 4. Then Remove(42), a step the demo does not have,
      finds nothing and changes nothing. */
  method RemoveNine(list: DynamicArray<int>)
    requires list.Valid() && list.Contents() == [1, 2, 7, 3, 9, 9, 11]
    modifies list, list.elements
    ensures list.Valid() && list.Contents() == [1, 2, 7, 3, 9, 11]
    ensures list.elements == old(list.elements) && list.capacity == old(list.capacity)
  {
    ghost var s := list.Contents();
    assert s[..4] == [1, 2, 7, 3];
    FirstIndexUnique(s, 9, 4);
    assert DeleteAt(s, 4) == [1, 2, 7, 3, 9, 11];
    var removed := list.Remove(9);
    assert removed;
    removed := list.Remove(42);
    assert !removed;
  }

  /** RemoveAll([1, 3]) on [1, 2, 7, 3, 9, 11] removes two elements. */
  method RemoveOneAndThree(list: DynamicArray<int>)
    requires list.Valid() && list.Contents() == [1, 2, 7, 3, 9, 11]
    modifies list, list.elements
    ensures list.Valid() && list.Contents() == [2, 7, 9, 11]
    ensures list.elements == old(list.elements) && list.capacity == old(list.capacity)
  {
    var doomed := new int[] [1, 3];
    assert doomed[..] == [1, 3];
    RemoveAllScript();
    var removedCount := list.RemoveAll(doomed);
    assert removedCount == Success(2);
  }

  /** RemoveAll([1, 3]) on [1, 2, 7, 3, 9, 11] keeps [2, 7, 9, 11]: every 1 and every 3 go. */
  lemma RemoveAllScript()
    ensures Exclude([1, 2, 7, 3, 9, 11], [1, 3]) == [2, 7, 9, 11]
  {
    var d := [1, 3];
    assert [1][..0] == [] && Exclude([1], d) == [];
    assert [1, 2][..1] == [1] && Exclude([1, 2], d) == [2];
    assert [1, 2, 7][..2] == [1, 2] && Exclude([1, 2, 7], d) == [2, 7];
    assert [1, 2, 7, 3][..3] == [1, 2, 7] && Exclude([1, 2, 7, 3], d) == [2, 7];
    assert [1, 2, 7, 3, 9][..4] == [1, 2, 7, 3] && Exclude([1, 2, 7, 3, 9], d) == [2, 7, 9];
    assert [1, 2, 7, 3, 9, 11][..5] == [1, 2, 7, 3, 9];
  }

  /** Appending to a full array grows it by exactly one slot. */
  method GrowByOne()
  {
    var list := new DynamicArray<int>();
    list.Add(1);
    list.Add(2);
    list.Add(3);
    assert list.Count() == 3 && list.Capacity() == 3;
    list.Add(4);
    assert list.Count() == 4 && list.Capacity() == 4;
    assert list.Contents() == [1, 2, 3, 4];

    var a := list.ToArray();
    var b := list.ToArray();
    assert a != b && a[..] == b[..] == [1, 2, 3, 4];
  }
}
