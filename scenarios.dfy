/**
 * Concrete runs of MyArrayList, proved from the operations' contracts alone:
 * the list's documented behaviour and each boundary quirk of the code.
 */
module Scenarios {
  import opened Wrappers
  import opened ListSpec
  import opened ArrayList

  /** Appends 1, 2, 3 to an empty list of the default capacity and inserts 99 at index 1. */
  method AppendInsertRun() returns (afterAdds: seq<Option<int>>, afterInsert: seq<Option<int>>)
    ensures afterAdds == [Some(1), Some(2), Some(3)]
    ensures afterInsert == [Some(1), Some(99), Some(2), Some(3)]
  {
    var list := new MyArrayList<int>();
    var _ := list.AddLast(Some(1));
    assert list.Contents() == [Some(1)] && list.elements.Length == 10;
    var _ := list.AddLast(Some(2));
    assert list.Contents() == [Some(1), Some(2)] && list.elements.Length == 10;
    var _ := list.AddLast(Some(3));
    afterAdds := list.Contents();
    assert afterAdds == [Some(1), Some(2), Some(3)] && list.elements.Length == 10;
    var _ := list.Add(1, Some(99));
    afterInsert := list.Contents();
  }

  /**
   * Builds [1, 99, 2, 3] from an array (capacity 6), removes index 0 and
   * appends 4, 5, 6 in one batch, which fits without growth.
   */
  method RemoveAddAllRun() returns (removed: Result<Option<int>, Error>, afterRemove: seq<Option<int>>,
                                    afterAddAll: seq<Option<int>>)
    ensures removed == Success(Some(1))
    ensures afterRemove == [Some(99), Some(2), Some(3)]
    ensures afterAddAll == [Some(99), Some(2), Some(3), Some(4), Some(5), Some(6)]
  {
    var init := new Option<int>[] [Some(1), Some(99), Some(2), Some(3)];
    var list := new MyArrayList<int>.FromArray(init);
    assert list.Contents() == [Some(1), Some(99), Some(2), Some(3)] && list.elements.Length == 6;
    removed := list.Remove(0);
    afterRemove := list.Contents();
    assert afterRemove == [Some(99), Some(2), Some(3)] && list.elements.Length == 6;
    var _ := list.AddAll([Some(4), Some(5), Some(6)]);
    afterAddAll := list.Contents();
  }

  /** Two empty lists whose capacities are 10 and 5 are not equal. */
  method CapacityDecidesEquality() returns (sameContents: bool, equal: bool)
    ensures sameContents && !equal
  {
    var a := new MyArrayList<int>();
    var b := new MyArrayList<int>.WithCapacity(5);
    sameContents := a.Contents() == b.Contents();
    equal := a.Equals(b);
  }

  /**
   * [1, 2] built by two appends to an empty list of capacity 5 differs from
   * [1, 2] left by removing the last element of [1, 2, 3] (built from an
   * array, so also of capacity 5): the removed 3 stays in a slack slot.
   */
  method StaleSlotDecidesEquality() returns (sameContents: bool, equal: bool)
    ensures sameContents && !equal
  {
    var a := new MyArrayList<int>.WithCapacity(5);
    var _ := a.AddLast(Some(1));
    assert a.Contents() == [Some(1)] && a.elements.Length == 5 && a.elements[2] == None;
    var _ := a.AddLast(Some(2));
    assert a.Contents() == [Some(1), Some(2)] && a.elements.Length == 5 && a.elements[2] == None;
    var init := new Option<int>[] [Some(1), Some(2), Some(3)];
    var b := new MyArrayList<int>.FromArray(init);
    assert b.Contents() == [Some(1), Some(2), Some(3)] && b.elements.Length == 5;
    var _ := b.Remove(2);
    assert b.Contents() == [Some(1), Some(2)] && b.elements[2] == Some(3);
    sameContents := a.Contents() == b.Contents();
    equal := a.Equals(b);
  }

  /** remove(Object) of an element the list does not hold reports false and keeps the list. */
  method AbsentElementIsNotRemoved() returns (r: Result<bool, Error>, after: seq<Option<int>>)
    ensures r == Success(false) && after == [Some(7), Some(8)]
  {
    var list := new MyArrayList<int>();
    var _ := list.AddLast(Some(7));
    var _ := list.AddLast(Some(8));
    assert list.Contents() == [Some(7), Some(8)];
    assert NoMatchBefore(list.Contents(), Some(9), 2);
    assert Lookup(list.Contents(), Some(9)) == Success(-1);
    r := list.RemoveObject(Some(9));
    assert r.Success?;
    assert r != Success(true);
    assert !r.value;
    assert list.Contents() == [Some(7), Some(8)];
    after := list.Contents();
  }

  /** remove(Object) reports false and keeps the list when the match is at index 0. */
  method HeadMatchIsNotRemoved() returns (r: Result<bool, Error>, after: seq<Option<int>>)
    ensures r == Success(false) && after == [Some(7), Some(8)]
  {
    var list := new MyArrayList<int>();
    var _ := list.AddLast(Some(7));
    var _ := list.AddLast(Some(8));
    r := list.RemoveObject(Some(7));
    after := list.Contents();
  }

  /** remove(size) on an empty list throws and leaves the size at -1. */
  method RemoveAtSizeCorruptsSize() returns (r: Result<Option<int>, Error>, size: int)
    ensures r == Failure(IndexOutOfBounds) && size == -1
  {
    var list := new MyArrayList<int>();
    r := list.Remove(0);
    size := list.size;
  }

  /** set(size, e) with a slack slot succeeds, returns null, and the list's contents stay. */
  method SetAtSizeWritesSlack() returns (r: Result<Option<int>, Error>, after: seq<Option<int>>)
    ensures r == Success(None) && after == [Some(1)]
  {
    var list := new MyArrayList<int>();
    var _ := list.AddLast(Some(1));
    r := list.Set(1, Some(5));
    after := list.Contents();
  }

  /**
   * addAll of 11 elements onto an empty list of capacity 10 never returns:
   * its first grow shrinks the buffer to capacity 0, and so does every later one.
   */
  method AddAllOnEmptyListDiverges() returns (r: Result<bool, Error>, capacity: int)
    ensures r == Failure(NonTermination) && capacity == 0
  {
    var list := new MyArrayList<int>();
    r := list.AddAll(seq(11, k => Some(k)));
    capacity := list.elements.Length;
  }

  /** A list built from an empty array has capacity 0, and add then throws. */
  method AddToEmptyArrayListThrows() returns (r: Result<bool, Error>)
    ensures r == Failure(IndexOutOfBounds)
  {
    var empty := new Option<int>[0];
    var list := new MyArrayList<int>.FromArray(empty);
    r := list.AddLast(Some(1));
  }
}
