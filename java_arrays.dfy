/**
 * The two JDK array primitives MyArrayList relies on, with the bounds checks
 * that make them throw.
 */
module JavaArrays {
  import opened Wrappers
  import opened ListSpec

  /**
   * `System.arraycopy(src, srcPos, dest, destPos, length)`. It fails, changing
   * nothing, when a position or the length is negative or either range runs
   * past its array; otherwise the `length` elements starting at `srcPos` land
   * at `destPos`, read before any is written, so overlapping ranges of one
   * array are handled.
   */
  method ArrayCopy<E>(src: array<E>, srcPos: int, dest: array<E>, destPos: int, length: int)
    returns (ok: bool)
    modifies dest
    ensures ok <==> 0 <= srcPos && 0 <= destPos && 0 <= length &&
                    srcPos + length <= src.Length && destPos + length <= dest.Length
    ensures ok ==> forall k {:trigger dest[k]} :: 0 <= k < dest.Length ==>
                     dest[k] == if destPos <= k < destPos + length then old(src[srcPos + k - destPos])
                                else old(dest[k])
    ensures !ok ==> dest[..] == old(dest[..])
  {
    if srcPos < 0 || destPos < 0 || length < 0 ||
       srcPos + length > src.Length || destPos + length > dest.Length {
      return false;
    }
    var copied := src[srcPos..srcPos + length];
    var k := 0;
    while k < length
      invariant 0 <= k <= length
      invariant forall j :: 0 <= j < dest.Length ==>
                  dest[j] == if destPos <= j < destPos + k then copied[j - destPos] else old(dest[j])
    {
      dest[destPos + k] := copied[k];
      k := k + 1;
    }
    return true;
  }

  /** `Arrays.copyOf(original, newLength)`: a fresh array holding `original` truncated or null-padded. */
  method CopyOf<T>(original: array<Option<T>>, newLength: nat) returns (copy: array<Option<T>>)
    ensures fresh(copy)
    ensures copy[..] == Resized(original[..], newLength)
  {
    copy := new Option<T>[newLength](_ => None);
    var n := if newLength < original.Length then newLength else original.Length;
    var k := 0;
    while k < n
      invariant 0 <= k <= n
      invariant forall j :: 0 <= j < newLength ==> copy[j] == if j < k then original[j] else None
    {
      copy[k] := original[k];
      k := k + 1;
    }
    assert forall j :: 0 <= j < newLength ==> copy[..][j] == Resized(original[..], newLength)[j];
  }
}
