/** Pure specifications of what the dynamic array's operations do to its live range,
    the sequence of elements at indices [0, count). */
module Sequences {

  /** The smallest index holding x, or -1 when x does not occur in s. */
  function FirstIndex<T(==)>(s: seq<T>, x: T): (i: int)
    ensures -1 <= i < |s|
    ensures i == -1 <==> x !in s
    ensures 0 <= i ==> s[i] == x && x !in s[..i]
  {
    if s == [] then -1
    else if s[0] == x then 0
    else
      var j := FirstIndex(s[1..], x);
      assert s == [s[0]] + s[1..];
      if j == -1 then -1
      else
        assert s[..j + 1] == [s[0]] + s[1..][..j];
        j + 1
  }

  /** The largest index holding x, or -1 when x does not occur in s. */
  function LastIndex<T(==)>(s: seq<T>, x: T): (i: int)
    ensures -1 <= i < |s|
    ensures i == -1 <==> x !in s
    ensures 0 <= i ==> s[i] == x && x !in s[i + 1..]
  {
    if s == [] then -1
    else if s[|s| - 1] == x then |s| - 1
    else
      var i := LastIndex(s[..|s| - 1], x);
      assert s == s[..|s| - 1] + [s[|s| - 1]];
      assert 0 <= i ==> s[i + 1..] == s[..|s| - 1][i + 1..] + [s[|s| - 1]];
      i
  }

  /** An index with x there and no x before it is the first index of x. */
  lemma FirstIndexUnique<T>(s: seq<T>, x: T, i: int)
    requires 0 <= i < |s| && s[i] == x && x !in s[..i]
    ensures FirstIndex(s, x) == i
  {
  }

  /** An index with x there and no x after it is the last index of x. */
  lemma LastIndexUnique<T>(s: seq<T>, x: T, i: int)
    requires 0 <= i < |s| && s[i] == x && x !in s[i + 1..]
    ensures LastIndex(s, x) == i
  {
  }

  /** s with x placed at index i and the elements from i on moved one place right. */
  function InsertAt<T>(s: seq<T>, i: nat, x: T): seq<T>
    requires i <= |s|
  {
    s[..i] + [x] + s[i..]
  }

  /** s with the element at index i taken out and the elements after it moved one place left. */
  function DeleteAt<T>(s: seq<T>, i: nat): seq<T>
    requires i < |s|
  {
    s[..i] + s[i + 1..]
  }

  /** Overwriting the inserted element is inserting the new value instead. */
  lemma InsertAtReplace<T>(s: seq<T>, i: nat, x: T, y: T)
    requires i <= |s|
    ensures InsertAt(s, i, x)[i := y] == InsertAt(s, i, y)
  {
    assert InsertAt(s, i, x)[i := y][..i] == s[..i];
  }

  /** Inserting at the end is appending. */
  lemma InsertAtEnd<T>(s: seq<T>, x: T)
    ensures InsertAt(s, |s|, x) == s + [x]
  {
  }

  /** Inserting adds exactly the one element, wherever it goes. */
  lemma InsertAtMultiset<T>(s: seq<T>, i: nat, x: T)
    requires i <= |s|
    ensures |InsertAt(s, i, x)| == |s| + 1 && InsertAt(s, i, x)[i] == x
    ensures multiset(InsertAt(s, i, x)) == multiset(s) + multiset{x}
  {
    assert s == s[..i] + s[i..];
  }

  /** Deleting takes away exactly the element at the index. */
  lemma DeleteAtMultiset<T>(s: seq<T>, i: nat)
    requires i < |s|
    ensures |DeleteAt(s, i)| == |s| - 1
    ensures multiset(DeleteAt(s, i)) == multiset(s) - multiset{s[i]}
  {
    assert s == s[..i] + [s[i]] + s[i + 1..];
  }

  /** Deleting at the index just inserted at gives back the original. */
  lemma DeleteAtInsertAt<T>(s: seq<T>, i: nat, x: T)
    requires i <= |s|
    ensures DeleteAt(InsertAt(s, i, x), i) == s
  {
    var t := InsertAt(s, i, x);
    assert t[..i] == s[..i];
    assert t[i + 1..] == s[i..];
    assert s == s[..i] + s[i..];
  }

  /** Deleting the first occurrence of x takes away exactly one x and nothing else,
      and leaves the elements before that occurrence, none of which is x, in place. */
  lemma DeleteFirstOccurrence<T>(s: seq<T>, x: T)
    requires x in s
    ensures var r := DeleteAt(s, FirstIndex(s, x));
      multiset(r) == multiset(s) - multiset{x} && r[..FirstIndex(s, x)] == s[..FirstIndex(s, x)]
  {
    DeleteAtMultiset(s, FirstIndex(s, x));
  }

  /** The elements of s that do not occur in d, in their order in s. */
  function Exclude<T(==)>(s: seq<T>, d: seq<T>): (r: seq<T>)
    ensures |r| <= |s|
  {
    if s == [] then []
    else
      var rest := Exclude(s[..|s| - 1], d);
      if s[|s| - 1] in d then rest else rest + [s[|s| - 1]]
  }

  /** a can be obtained from b by deleting elements, without reordering what is left.
      Matching from the right greedily decides this. */
  predicate IsSubsequence<T(==)>(a: seq<T>, b: seq<T>)
    decreases |b|
  {
    if a == [] then true
    else if b == [] then false
    else if a[|a| - 1] == b[|b| - 1] then IsSubsequence(a[..|a| - 1], b[..|b| - 1])
    else IsSubsequence(a, b[..|b| - 1])
  }

  /** What Exclude keeps is exactly the elements of s that are not in d. */
  lemma {:induction false} ExcludeMembership<T>(s: seq<T>, d: seq<T>, x: T)
    ensures x in Exclude(s, d) <==> x in s && x !in d
  {
    if s != [] {
      ExcludeMembership(s[..|s| - 1], d, x);
      assert s == s[..|s| - 1] + [s[|s| - 1]];
    }
  }

  /** Every occurrence of an element of d goes; every occurrence of any other element stays. */
  lemma {:induction false} ExcludeMultiplicity<T>(s: seq<T>, d: seq<T>, x: T)
    ensures multiset(Exclude(s, d))[x] == if x in d then 0 else multiset(s)[x]
  {
    if s != [] {
      ExcludeMultiplicity(s[..|s| - 1], d, x);
      assert s == s[..|s| - 1] + [s[|s| - 1]];
    }
  }

  /** Exclude keeps the surviving elements in their original relative order. */
  lemma {:induction false} ExcludeIsSubsequence<T>(s: seq<T>, d: seq<T>)
    ensures IsSubsequence(Exclude(s, d), s)
  {
    if s != [] {
      var init := s[..|s| - 1];
      ExcludeIsSubsequence(init, d);
      var r := Exclude(s, d);
      if s[|s| - 1] in d {
        if r != [] {
          assert r[|r| - 1] in r;
          ExcludeMembership(init, d, r[|r| - 1]);
        }
      } else {
        assert r[..|r| - 1] == Exclude(init, d);
      }
    }
  }

  /** When no element of s is in d, nothing is excluded. */
  lemma {:induction false} ExcludeNothing<T>(s: seq<T>, d: seq<T>)
    requires forall k :: 0 <= k < |s| ==> s[k] !in d
    ensures Exclude(s, d) == s
  {
    if s != [] {
      ExcludeNothing(s[..|s| - 1], d);
      assert s == s[..|s| - 1] + [s[|s| - 1]];
    }
  }

  /** Excluding the same elements a second time changes nothing. */
  lemma ExcludeIdempotent<T>(s: seq<T>, d: seq<T>)
    ensures Exclude(Exclude(s, d), d) == Exclude(s, d)
  {
    var r := Exclude(s, d);
    forall k | 0 <= k < |r|
      ensures r[k] !in d
    {
      assert r[k] in r;
      ExcludeMembership(s, d, r[k]);
    }
    ExcludeNothing(r, d);
  }

  /** Only which values d holds matters, not their order or how often they repeat. */
  lemma {:induction false} ExcludeBySet<T>(s: seq<T>, d: seq<T>, e: seq<T>)
    requires forall x :: x in d <==> x in e
    ensures Exclude(s, d) == Exclude(s, e)
  {
    if s != [] {
      ExcludeBySet(s[..|s| - 1], d, e);
    }
  }
}
