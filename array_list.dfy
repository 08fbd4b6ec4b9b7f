/**
 * MyArrayList<T>: a list backed by an array `elements` whose first `size`
 * slots hold the elements, in order; the slots after them are slack.
 */
module ArrayList {
  import opened Wrappers
  import opened ListSpec
  import opened JavaArrays

  class MyArrayList<T(==)> {
    /** Backing buffer; `None` is a Java null (fresh slots, padding, cleared slots). */
    var elements: array<Option<T>>
    /** Number of elements in the list. An `int`: a failing remove(size) can drive it to -1. */
    var size: int

    /** The object invariant: the size is a valid length for a prefix of the buffer. */
    ghost predicate Valid()
      reads this
    {
      0 <= size <= elements.Length
    }

    /** The elements of the list, in order. */
    function Contents(): seq<Option<T>>
      reads this, elements
      requires Valid()
    {
      elements[..size]
    }

    /** `MyArrayList(int initCapacity)` for a capacity it accepts: 0 means the default. */
    constructor WithCapacity(initCapacity: nat)
      ensures Valid() && fresh(elements) && size == 0
      ensures elements.Length == if initCapacity == 0 then DefaultCapacity else initCapacity
      ensures forall k :: 0 <= k < elements.Length ==> elements[k] == None
    {
      elements := new Option<T>[if initCapacity > 0 then initCapacity else DefaultCapacity](_ => None);
      size := 0;
    }

    /** `MyArrayList()`: an empty list of the default capacity. */
    constructor ()
      ensures Valid() && fresh(elements) && size == 0
      ensures elements.Length == DefaultCapacity
      ensures forall k :: 0 <= k < elements.Length ==> elements[k] == None
    {
      elements := new Option<T>[DefaultCapacity](_ => None);
      size := 0;
    }

    /**
     * `MyArrayList(T[] initArray)` for a non-null array: the array's elements
     * become the list, and `grow` at once replaces the buffer by a fresh copy
     * of capacity round(1.5 * length).
     */
    constructor FromArray(initArray: array<Option<T>>)
      ensures Valid() && fresh(elements) && size == initArray.Length
      ensures elements[..] == Resized(initArray[..], GrownCapacity(initArray.Length))
      ensures Contents() == initArray[..]
    {
      elements := initArray;
      size := initArray.Length;
      new;
      Grow();
    }

    /** `new MyArrayList<>(initCapacity)`, throwing IllegalArgumentException for a negative capacity. */
    static method Create(initCapacity: int) returns (r: Result<MyArrayList<T>, Error>)
      ensures r.Failure? <==> initCapacity < 0
      ensures r.Failure? ==> r.error == IllegalArgument
      ensures r.Success? ==>
                fresh(r.value) && fresh(r.value.elements) && r.value.Valid() && r.value.size == 0 &&
                r.value.elements.Length == (if initCapacity == 0 then DefaultCapacity else initCapacity) &&
                forall k :: 0 <= k < r.value.elements.Length ==> r.value.elements[k] == None
    {
      if initCapacity < 0 {
        return Failure(IllegalArgument);
      }
      var list := new MyArrayList<T>.WithCapacity(initCapacity);
      return Success(list);
    }

    /** `new MyArrayList<>(initArray)`, throwing NullPointerException for a null array. */
    static method CreateFromArray(initArray: array?<Option<T>>) returns (r: Result<MyArrayList<T>, Error>)
      ensures r.Failure? <==> initArray == null
      ensures r.Failure? ==> r.error == NullPointer
      ensures r.Success? ==>
                initArray != null &&
                fresh(r.value) && fresh(r.value.elements) && r.value.Valid() &&
                r.value.Contents() == initArray[..] &&
                r.value.elements.Length == GrownCapacity(initArray.Length) &&
                r.value.elements[..] == Resized(initArray[..], GrownCapacity(initArray.Length))
    {
      if initArray == null {
        return Failure(NullPointer);
      }
      var list := new MyArrayList<T>.FromArray(initArray);
      return Success(list);
    }

    /**
     * `grow()`: the buffer becomes a fresh copy of capacity round(1.5 * size),
     * truncated or null-padded; the elements are kept.
     */
    method Grow()
      requires Valid()
      modifies this
      ensures size == old(size) && fresh(elements)
      ensures elements[..] == Resized(old(elements[..]), GrownCapacity(size))
      ensures Valid() && Contents() == old(Contents())
    {
      elements := CopyOf(elements, GrownCapacity(size));
    }

    /** `get(index)`: the element at `index`, which must lie in [0, size). */
    function Get(index: int): (r: Result<Option<T>, Error>)
      reads this, elements
      requires Valid()
      ensures r.Success? <==> 0 <= index < |Contents()|
      ensures r.Success? ==> r.value == Contents()[index]
      ensures r.Failure? ==> r.error == IndexOutOfBounds
    {
      if 0 <= index < size then Success(elements[index]) else Failure(IndexOutOfBounds)
    }

    /** `checkIndex(index)`: the lenient check of add, set and remove, which admits `size` itself. */
    predicate CheckIndex(index: int): (admitted: bool)
      reads this, elements
      ensures Valid() ==> (admitted <==> Get(index).Success? || index == |Contents()|)
    {
      !(index > size || index < 0)
    }

    /** checkIndex accepts exactly the indices get accepts, and `size` besides. */
    lemma CheckIndexAdmitsSize()
      requires Valid()
      ensures CheckIndex(|Contents()|) && Get(|Contents()|).Failure?
    {
    }

    /**
     * `add(index, element)`. The index must lie in [0, size]; a full buffer is
     * grown first. The element lands at `index` and the later elements move up.
     * Growing a full buffer of capacity 0 yields capacity 0 again, and the copy
     * then throws.
     */
    method Add(index: int, element: Option<T>) returns (r: Outcome<Error>)
      requires Valid()
      modifies this, elements
      ensures Valid() && (elements == old(elements) || fresh(elements))
      ensures r.Pass? ==> elements.Length >= old(elements.Length)
      ensures r.Pass? <==> 0 <= index <= old(size) && (old(size) < old(elements.Length) || old(size) > 0)
      ensures r.Fail? ==> r.error == IndexOutOfBounds && size == old(size) && Contents() == old(Contents())
      ensures !(0 <= index <= old(size)) ==> elements == old(elements) && elements[..] == old(elements[..])
      ensures r.Pass? ==> size == old(size) + 1 && Contents() == Inserted(old(Contents()), index, element)
      ensures r.Pass? && old(size) < old(elements.Length) ==>
                elements == old(elements) &&
                forall k :: size <= k < elements.Length ==> elements[k] == old(elements[k])
      ensures 0 <= index <= old(size) == old(elements.Length) ==>
                fresh(elements) && elements.Length == GrownCapacity(old(size)) &&
                forall k :: size <= k < elements.Length ==> elements[k] == None
    {
      if !CheckIndex(index) {
        return Fail(IndexOutOfBounds);
      }
      if size == elements.Length {
        Grow();
      }
      r := ShiftAndWrite(index, element);
    }

    /**
     * The second half of `add(index, element)`: shifts [index, size) up by one
     * slot with `System.arraycopy`, which throws when the buffer is still full,
     * then writes the element and counts it.
     */
    method ShiftAndWrite(index: int, element: Option<T>) returns (r: Outcome<Error>)
      requires Valid() && 0 <= index <= size
      modifies this, elements
      ensures Valid() && elements == old(elements)
      ensures r.Pass? <==> old(size) < elements.Length
      ensures r.Fail? ==> r.error == IndexOutOfBounds && size == old(size) && elements[..] == old(elements[..])
      ensures r.Pass? ==> size == old(size) + 1 && Contents() == Inserted(old(Contents()), index, element)
      ensures forall k :: old(size) < k < elements.Length ==> elements[k] == old(elements[k])
    {
      ghost var list := Contents();
      var ok := ArrayCopy(elements, index, elements, index + 1, size - index);
      if !ok {
        return Fail(IndexOutOfBounds);
      }
      ghost var shifted := elements[..];
      elements[index] := element;
      size := size + 1;
      ghost var inserted := Inserted(list, index, element);
      forall k | 0 <= k < size
        ensures Contents()[k] == inserted[k]
      {
        if k < index {
          assert shifted[k] == list[k];
        } else if k > index {
          assert shifted[k] == list[k - 1];
        }
      }
      return Pass;
    }

    /** `add(t)`: appends `t` and returns true (it throws only on a buffer of capacity 0). */
    method AddLast(t: Option<T>) returns (r: Result<bool, Error>)
      requires Valid()
      modifies this, elements
      ensures Valid() && (elements == old(elements) || fresh(elements))
      ensures r.Success? <==> old(size) < old(elements.Length) || old(size) > 0
      ensures r.Success? ==> r.value && Contents() == old(Contents()) + [t]
      ensures r.Failure? ==> r.error == IndexOutOfBounds && Contents() == old(Contents())
      ensures old(size) < old(elements.Length) ==>
                elements == old(elements) &&
                forall k :: size <= k < elements.Length ==> elements[k] == old(elements[k])
      ensures old(size) == old(elements.Length) ==>
                fresh(elements) && elements.Length == GrownCapacity(old(size)) &&
                forall k :: size <= k < elements.Length ==> elements[k] == None
    {
      var added := Add(size, t);
      if added.Fail? {
        return Failure(added.error);
      }
      InsertAtEndAppends(old(Contents()), t);
      return Success(true);
    }

    /**
     * `addAll(collection)`: appends the batch in order. An empty batch returns
     * false. Otherwise the buffer grows while the batch does not fit; as `grow`
     * computes the capacity from the unchanged size, a batch that does not fit
     * after one grow keeps the loop running forever.
     */
    method AddAll(collection: seq<Option<T>>) returns (r: Result<bool, Error>)
      requires Valid()
      modifies this, elements
      ensures Valid() && (elements == old(elements) || fresh(elements))
      ensures r.Success? ==> elements.Length >= old(elements.Length)
      ensures |collection| == 0 ==>
                r == Success(false) && size == old(size) &&
                elements == old(elements) && elements[..] == old(elements[..])
      ensures |collection| > 0 && !AddAllTerminates(old(elements.Length), old(size), |collection|) ==>
                r == Failure(NonTermination) && size == old(size) && Contents() == old(Contents()) &&
                fresh(elements) && elements.Length == GrownCapacity(old(size))
      ensures |collection| > 0 && AddAllTerminates(old(elements.Length), old(size), |collection|) ==>
                r == Success(true) && size == old(size) + |collection| &&
                Contents() == old(Contents()) + collection
      ensures |collection| > 0 && Fits(old(elements.Length), old(size), |collection|) ==>
                elements == old(elements) &&
                forall k :: size <= k < elements.Length ==> elements[k] == old(elements[k])
      ensures |collection| > 0 && AddAllTerminates(old(elements.Length), old(size), |collection|) &&
              !Fits(old(elements.Length), old(size), |collection|) ==>
                fresh(elements) && elements.Length == GrownCapacity(old(size)) &&
                forall k :: size <= k < elements.Length ==>
                  elements[k] == if k < old(elements.Length) then old(elements[k]) else None
    {
      var newCount := |collection|;
      if newCount == 0 {
        return Success(false);
      }
      var grows := 0;
      while newCount > elements.Length - size
        invariant Valid() && size == old(size) && Contents() == old(Contents())
        invariant grows <= 1
        invariant grows == 0 ==> elements == old(elements) && elements[..] == old(elements[..])
        invariant grows == 1 ==>
                    !Fits(old(elements.Length), size, newCount) &&
                    fresh(elements) && elements[..] == Resized(old(elements[..]), GrownCapacity(size))
        invariant Fits(old(elements.Length), size, newCount) ==> grows == 0
        decreases 1 - grows
      {
        if grows == 1 {
          // every further grow recomputes this same capacity from the unchanged size
          return Failure(NonTermination);
        }
        Grow();
        grows := 1;
      }
      var batch := new Option<T>[newCount](k requires 0 <= k < newCount => collection[k]);
      var ok := ArrayCopy(batch, 0, elements, size, newCount);
      assert ok;
      size := size + newCount;
      assert forall k :: 0 <= k < size ==> Contents()[k] == (old(Contents()) + collection)[k];
      return Success(true);
    }

    /** `isEmpty()`: whether the list holds no element. */
    function IsEmpty(): (b: bool)
      reads this, elements
      requires Valid()
      ensures b <==> Contents() == []
    {
      size == 0
    }

    /**
     * `set(index, element)`: returns the slot's previous value and writes the
     * new one. The lenient check admits `index == size`, which writes a slack
     * slot when there is one and throws when the buffer is full.
     */
    method Set(index: int, element: Option<T>) returns (r: Result<Option<T>, Error>)
      requires Valid()
      modifies elements
      ensures Valid()
      ensures r.Success? <==> 0 <= index <= size && index < elements.Length
      ensures r.Failure? ==> r.error == IndexOutOfBounds && elements[..] == old(elements[..])
      ensures r.Success? ==> r.value == old(elements[index]) && elements[..] == old(elements[..])[index := element]
      ensures r.Success? && index < size ==>
                old(Get(index)) == Success(r.value) && Get(index) == Success(element) &&
                Contents() == old(Contents())[index := element]
      ensures r.Success? && index == size ==> Contents() == old(Contents())
    {
      if !CheckIndex(index) || index >= elements.Length {
        return Failure(IndexOutOfBounds);
      }
      var oldElement := elements[index];
      elements[index] := element;
      return Success(oldElement);
    }

    /** `size()`: the number of elements. */
    function Size(): (n: int)
      reads this, elements
      requires Valid()
      ensures n == |Contents()|
    {
      size
    }

    /**
     * `remove(index)`: returns the element at `index` and moves the later ones
     * down; the capacity and the last slot (now slack, still holding the old
     * last element) are untouched. For `index == size` the lenient check
     * passes: when the buffer is full the read of that slot throws, otherwise
     * the size is decremented before the copy throws on length -1.
     */
    method Remove(index: int) returns (r: Result<Option<T>, Error>)
      requires Valid()
      modifies this, elements
      ensures elements == old(elements)
      ensures r.Success? <==> 0 <= index < old(size)
      ensures r.Success? ==>
                r.value == old(elements[index]) && Valid() && size == old(size) - 1 &&
                Contents() == Removed(old(Contents()), index) &&
                forall k :: size <= k < elements.Length ==> elements[k] == old(elements[k])
      ensures r.Failure? ==> r.error == IndexOutOfBounds && elements[..] == old(elements[..])
      ensures r.Failure? && index == old(size) < elements.Length ==> size == old(size) - 1
      ensures r.Failure? && !(index == old(size) < elements.Length) ==> size == old(size)
    {
      if !CheckIndex(index) || index >= elements.Length {
        return Failure(IndexOutOfBounds);
      }
      ghost var list := Contents();
      var removed := elements[index];
      size := size - 1;
      var ok := ArrayCopy(elements, index + 1, elements, index, size - index);
      if !ok {
        return Failure(IndexOutOfBounds);
      }
      ghost var shifted := elements[..];
      ghost var remaining := Removed(list, index);
      forall k | 0 <= k < size
        ensures Contents()[k] == remaining[k]
      {
        if k < index {
          assert shifted[k] == list[k];
        } else {
          assert shifted[k] == list[k + 1];
        }
      }
      return Success(removed);
    }

    /**
     * `remove(Object o)`: removes the first occurrence that indexOf finds, but
     * only when its index is greater than 0, so a match at the head is never
     * removed; a NullPointerException from indexOf propagates.
     */
    method RemoveObject(o: Option<T>) returns (r: Result<bool, Error>)
      requires Valid()
      modifies this, elements
      ensures Valid() && elements == old(elements)
      ensures Lookup(old(Contents()), o).Failure? ==> r == Failure(NullPointer)
      ensures Lookup(old(Contents()), o).Success? ==> r.Success?
      ensures r == Success(true) <==> Lookup(old(Contents()), o).Success? && Lookup(old(Contents()), o).value > 0
      ensures r == Success(true) ==>
                size == old(size) - 1 && Contents() == Removed(old(Contents()), Lookup(old(Contents()), o).value) &&
                forall k :: size <= k < elements.Length ==> elements[k] == old(elements[k])
      ensures r != Success(true) ==> size == old(size) && elements[..] == old(elements[..])
      ensures old(size) > 0 && o.Some? && old(elements[0]) == o ==> r == Success(false)
    {
      var found := IndexOf(o);
      if found.Failure? {
        return Failure(found.error);
      }
      if found.value > 0 {
        var _ := Remove(found.value);
        return Success(true);
      }
      return Success(false);
    }

    /**
     * `indexOf(o)`: scans [0, size) for the first element equal to `o`; the
     * scan throws on a null element, since it calls `equals` on it.
     */
    method IndexOf(o: Option<T>) returns (r: Result<int, Error>)
      requires Valid()
      ensures r == Lookup(Contents(), o)
    {
      for i := 0 to size
        invariant NoMatchBefore(Contents(), o, i)
      {
        if elements[i] == None {
          return Failure(NullPointer);
        }
        if elements[i] == o {
          return Success(i);
        }
      }
      return Success(-1);
    }

    /** `clear()`: nulls the slots [0, size) and empties the list; capacity and slack stay. */
    method Clear()
      requires Valid()
      modifies this, elements
      ensures Valid() && IsEmpty() && elements == old(elements)
      ensures forall k :: 0 <= k < old(size) ==> elements[k] == None
      ensures forall k :: old(size) <= k < elements.Length ==> elements[k] == old(elements[k])
    {
      for i := 0 to size
        invariant elements == old(elements) && size == old(size)
        invariant forall k :: 0 <= k < i ==> elements[k] == None
        invariant forall k :: i <= k < elements.Length ==> elements[k] == old(elements[k])
      {
        elements[i] := None;
      }
      size := 0;
    }

    /**
     * `equals(other)` between two lists: the same object, or the inherited
     * element-by-element comparison of [0, size) together with equal sizes and
     * equal whole buffers. The buffer comparison decides alone: equal logical
     * contents are not enough when capacities or slack slots differ.
     */
    function Equals(other: MyArrayList<T>): (r: bool)
      reads this, elements, other, other.elements
      requires Valid() && other.Valid()
      ensures r <==> size == other.size && elements[..] == other.elements[..]
      ensures r ==> Contents() == other.Contents()
    {
      this == other ||
      (Contents() == other.Contents() && size == other.size && elements[..] == other.elements[..])
    }
  }
}
