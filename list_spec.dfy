/**
 * Value-level specification of MyArrayList: the exceptions it throws, its growth
 * rule, and what insertion, removal and linear search do to the logical sequence
 * of elements.
 */
module ListSpec {
  import opened Wrappers

  /** The exceptions the list can raise, plus a call that never returns. */
  datatype Error =
    | IllegalArgument   // IllegalArgumentException: negative initial capacity
    | NullPointer       // NullPointerException: null array, or a null element met by indexOf
    | IndexOutOfBounds  // IndexOutOfBoundsException / ArrayIndexOutOfBoundsException
    | NonTermination    // addAll's growth loop never exits

  /** Capacity of a list built with no argument or with capacity 0. */
  const DefaultCapacity: nat := 10

  /**
   * The capacity `grow` computes: `Math.round(size * 1.5)`, which for a
   * non-negative size rounds half up. The result is the integer nearest to
   * 1.5 * size (ties upwards), never below `size`, and strictly above it once
   * the list holds anything.
   */
  function GrownCapacity(size: nat): (c: nat)
    ensures 2 * c <= 3 * size + 1 < 2 * c + 2
    ensures size <= c
    ensures size >= 1 ==> size < c
    ensures size == 0 ==> c == 0
  {
    (3 * size + 1) / 2
  }

  /**
   * Capacity after `k` successive calls of `grow` on a list of `size` elements
   * and capacity `capacity`; each call computes its capacity from `size` only.
   */
  function CapacityAfterGrows(capacity: nat, size: nat, k: nat): nat
  {
    if k == 0 then capacity else GrowFrom(CapacityAfterGrows(capacity, size, k - 1), size)
  }

  /** One call of `grow`: the old capacity plays no part in the new one. */
  function GrowFrom(capacity: nat, size: nat): nat
  {
    GrownCapacity(size)
  }

  /** Whether `n` more elements fit in the free slots of a buffer. */
  predicate Fits(capacity: nat, size: nat, n: nat)
  {
    n <= capacity - size
  }

  /** Whether addAll's growth loop exits: the batch fits now or after one grow. */
  predicate AddAllTerminates(capacity: nat, size: nat, n: nat)
  {
    Fits(capacity, size, n) || Fits(GrownCapacity(size), size, n)
  }

  /** After one or more grows the capacity no longer changes. */
  lemma GrowsStabilise(capacity: nat, size: nat, k: nat)
    requires k >= 1
    ensures CapacityAfterGrows(capacity, size, k) == GrownCapacity(size)
  {
  }

  /**
   * addAll's loop `while (n > capacity - size) grow();` stops after some number
   * of iterations exactly when the batch fits now or after a single grow.
   */
  lemma AddAllLoopExits(capacity: nat, size: nat, n: nat)
    ensures (exists k: nat :: Fits(CapacityAfterGrows(capacity, size, k), size, n))
            <==> AddAllTerminates(capacity, size, n)
  {
    if exists k: nat :: Fits(CapacityAfterGrows(capacity, size, k), size, n) {
      var k: nat :| Fits(CapacityAfterGrows(capacity, size, k), size, n);
      if k >= 1 {
        GrowsStabilise(capacity, size, k);
      }
    }
    if AddAllTerminates(capacity, size, n) {
      var k: nat := if Fits(capacity, size, n) then 0 else 1;
      assert Fits(CapacityAfterGrows(capacity, size, k), size, n);
      assert exists k': nat :: Fits(CapacityAfterGrows(capacity, size, k'), size, n);
    }
  }

  /** The buffer `Arrays.copyOf` returns: `s` truncated or padded with nulls to length `n`. */
  function Resized<T>(s: seq<Option<T>>, n: nat): (r: seq<Option<T>>)
    ensures |r| == n
    ensures forall k :: 0 <= k < n && k < |s| ==> r[k] == s[k]
    ensures forall k :: |s| <= k < n ==> r[k] == None
  {
    if n <= |s| then s[..n] else s + seq(n - |s|, _ => None)
  }

  /** `s` with `x` inserted at position `i`: earlier elements stay, later ones move up by one. */
  function Inserted<T>(s: seq<T>, i: nat, x: T): (r: seq<T>)
    requires i <= |s|
    ensures |r| == |s| + 1 && r[i] == x
    ensures forall k :: 0 <= k < i ==> r[k] == s[k]
    ensures forall k :: i < k < |r| ==> r[k] == s[k - 1]
  {
    s[..i] + [x] + s[i..]
  }

  /** `s` without its element at position `i`: later elements move down by one. */
  function Removed<T>(s: seq<T>, i: nat): (r: seq<T>)
    requires i < |s|
    ensures |r| == |s| - 1
    ensures forall k :: 0 <= k < i ==> r[k] == s[k]
    ensures forall k :: i <= k < |r| ==> r[k] == s[k + 1]
  {
    s[..i] + s[i + 1..]
  }

  /** Inserting at index `i` and then removing index `i` gives back the original sequence. */
  lemma RemoveUndoesInsert<T>(s: seq<T>, i: nat, x: T)
    requires i <= |s|
    ensures Removed(Inserted(s, i, x), i) == s
  {
  }

  /** Inserting at the end is appending. */
  lemma InsertAtEndAppends<T>(s: seq<T>, x: T)
    ensures Inserted(s, |s|, x) == s + [x]
  {
  }

  /** The logical contents after appending each element of `xs` in turn with `add(t)`. */
  function AppendEach<T>(s: seq<T>, xs: seq<T>): seq<T>
    decreases |xs|
  {
    if xs == [] then s else AppendEach(Inserted(s, |s|, xs[0]), xs[1..])
  }

  /** Repeated tail appends keep insertion order: the result is `s` followed by `xs`. */
  lemma {:induction false} AppendEachIsConcat<T>(s: seq<T>, xs: seq<T>)
    ensures AppendEach(s, xs) == s + xs
    decreases |xs|
  {
    if xs != [] {
      InsertAtEndAppends(s, xs[0]);
      AppendEachIsConcat(s + [xs[0]], xs[1..]);
      assert s + [xs[0]] + xs[1..] == s + xs;
    }
  }

  /** No element of `s` before position `n` is null or equal to `o`. */
  ghost predicate NoMatchBefore<T>(s: seq<Option<T>>, o: Option<T>, n: nat)
    requires n <= |s|
  {
    forall j :: 0 <= j < n ==> s[j].Some? && s[j] != o
  }

  /**
   * The result of `indexOf(o)` over the logical contents `s`: the first index
   * whose element equals `o`, -1 if there is none, or a NullPointerException
   * when the scan reaches a null element first (`elements[i].equals(o)` is
   * called on that null).
   */
  ghost function Lookup<T>(s: seq<Option<T>>, o: Option<T>): (r: Result<int, Error>)
    ensures r.Success? ==> -1 <= r.value < |s|
    ensures r.Success? && r.value >= 0 ==> o.Some? && s[r.value] == o && NoMatchBefore(s, o, r.value)
    ensures r == Success(-1) <==> NoMatchBefore(s, o, |s|)
    ensures r.Failure? ==>
              r.error == NullPointer &&
              exists i :: 0 <= i < |s| && s[i] == None && NoMatchBefore(s, o, i)
  {
    if s == [] then Success(-1)
    else if s[0] == None then Failure(NullPointer)
    else if s[0] == o then Success(0)
    else
      match Lookup(s[1..], o)
      case Success(i) => Success(if i < 0 then -1 else i + 1)
      case Failure(e) => Failure(e)
  }
}
