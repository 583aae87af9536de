/**
 * The fixed-size array `Array<T, N>`: N elements stored inline, a checked `at`,
 * unchecked `operator[]`, `front` and `back`, `fill` and an element-wise `swap`.
 *
 * The inline storage `T _elements[N]` is an `array<T>` of length N that the object
 * owns; N is fixed at construction and must not be 0.
 */
module StaticArray {

  /** What `at` yields: the element, or the `out_of_range` exception. */
  datatype Access<T> = Ok(value: T) | OutOfRange

  /**
   * `range_swap(first1, last1, first2)`: exchanges `[first1, last1)` with the range of
   * the same length starting at `first2`, and returns `first2` advanced by that
   * count. The two ranges are in distinct arrays, disjoint, or the very same range
   * (swapping each element with itself).
   */
  method RangeSwap<T>(a: array<T>, first1: int, last1: int, b: array<T>, first2: int) returns (end2: int)
    requires 0 <= first1 <= last1 <= a.Length
    requires 0 <= first2 && first2 + (last1 - first1) <= b.Length
    requires a == b ==> first1 == first2 || last1 <= first2 || first2 + (last1 - first1) <= first1
    modifies a, b
    ensures end2 == first2 + (last1 - first1)
    ensures forall k :: first1 <= k < last1 ==> a[k] == old(b[first2 + (k - first1)])
    ensures forall k :: first2 <= k < end2 ==> b[k] == old(a[first1 + (k - first2)])
    ensures forall k :: 0 <= k < a.Length && !(first1 <= k < last1) && !(a == b && first2 <= k < end2) ==> a[k] == old(a[k])
    ensures forall k :: 0 <= k < b.Length && !(first2 <= k < end2) && !(a == b && first1 <= k < last1) ==> b[k] == old(b[k])
  {
    var i1, i2 := first1, first2;
    while i1 != last1
      invariant first1 <= i1 <= last1 && i2 == first2 + (i1 - first1)
      invariant forall k :: first1 <= k < i1 ==> a[k] == old(b[first2 + (k - first1)])
      invariant forall k :: first2 <= k < i2 ==> b[k] == old(a[first1 + (k - first2)])
      invariant forall k :: 0 <= k < a.Length && !(first1 <= k < i1) && !(a == b && first2 <= k < i2) ==> a[k] == old(a[k])
      invariant forall k :: 0 <= k < b.Length && !(first2 <= k < i2) && !(a == b && first1 <= k < i1) ==> b[k] == old(b[k])
    {
      a[i1], b[i2] := b[i2], a[i1];
      i1, i2 := i1 + 1, i2 + 1;
    }
    end2 := i2;
  }

  class Array<T> {
    const N: nat
    const elements: array<T>

    ghost predicate Valid()
      reads this
    {
      N > 0 && elements.Length == N
    }

    /** Aggregate initialisation with N values; `N == 0` is rejected. */
    constructor (init: seq<T>)
      requires |init| > 0
      ensures Valid() && fresh(elements)
      ensures N == |init| && elements[..] == init
    {
      N := |init|;
      elements := new T[|init|](i requires 0 <= i < |init| => init[i]);
    }

    /** `at(pos)`: the element at `pos` when `pos < N`; otherwise `out_of_range`. */
    function At(pos: nat): (r: Access<T>)
      requires Valid()
      reads this, elements
      ensures r.Ok? <==> pos < N
      ensures r.Ok? ==> r.value == elements[pos]
    {
      if !(pos < N) then OutOfRange else Ok(elements[pos])
    }

    /** `operator[]`: no check, so the caller must stay below N. */
    function Get(pos: nat): (r: T)
      requires Valid() && pos < N
      reads this, elements
      ensures At(pos) == Ok(r)
    {
      elements[pos]
    }

    /** `front()`: element 0, which always exists because N > 0. */
    function Front(): (r: T)
      requires Valid()
      reads this, elements
      ensures At(0) == Ok(r)
    {
      elements[0]
    }

    /** `back()`: element N - 1. */
    function Back(): (r: T)
      requires Valid()
      reads this, elements
      ensures At(N - 1) == Ok(r)
      ensures At(N).OutOfRange?
    {
      elements[N - 1]
    }

    /** `size()`: the fixed length. */
    function Size(): (r: nat)
      requires Valid()
      reads this
      ensures r == elements.Length && r > 0
    {
      N
    }

    /** `max_size()`: the same fixed length. */
    function MaxSize(): (r: nat)
      requires Valid()
      reads this
      ensures r == Size()
    {
      N
    }

    /** `empty()`: always false, since N > 0. */
    function Empty(): (r: bool)
      requires Valid()
      reads this
      ensures r <==> Size() == 0
      ensures !r
    {
      false
    }

    /** `fill(value)`: all N elements become `value`. */
    method Fill(value: T)
      requires Valid()
      modifies elements
      ensures Valid()
      ensures elements[..] == seq(N, _ => value)
    {
      var i := 0;
      while i < N
        invariant 0 <= i <= N
        invariant forall k :: 0 <= k < i ==> elements[k] == value
      {
        elements[i] := value;
        i := i + 1;
      }
    }

    /** `swap(other)`: each array ends with the other's old contents (a no-op on itself). */
    method Swap(other: Array<T>)
      requires Valid() && other.Valid() && other.N == N
      modifies elements, other.elements
      ensures elements[..] == old(other.elements[..])
      ensures other.elements[..] == old(elements[..])
    {
      var _ := RangeSwap(elements, 0, N, other.elements, 0);
    }
  }
}
