/**
 * The generic algorithms of the library: `equal`, `max`/`min` with and without a
 * predicate, `fill`, `copy` and `copy_backward`.
 *
 * An iterator range `[first, last)` over contiguous storage is modelled as an
 * array together with two integer positions; advancing an iterator is adding one
 * to its position.
 */
module Algorithm {

  /** `pred` is irreflexive and asymmetric, as a strict ordering passed to max/min is. */
  ghost predicate StrictOrder<T(!new)>(pred: (T, T) -> bool) {
    && (forall x :: !pred(x, x))
    && (forall x, y :: pred(x, y) ==> !pred(y, x))
  }

  /**
   * `equal(first1, last1, first2)`: compares the range with the range of the same
   * length starting at `first2`, element by element, returning at the first mismatch.
   */
  method Equal<T(==)>(a: array<T>, first1: int, last1: int, b: array<T>, first2: int) returns (r: bool)
    requires 0 <= first1 <= last1 <= a.Length
    requires 0 <= first2 && first2 + (last1 - first1) <= b.Length
    ensures r <==> forall k :: first1 <= k < last1 ==> a[k] == b[first2 + (k - first1)]
  {
    var i1, i2 := first1, first2;
    while i1 != last1
      invariant first1 <= i1 <= last1 && i2 == first2 + (i1 - first1)
      invariant forall k :: first1 <= k < i1 ==> a[k] == b[first2 + (k - first1)]
    {
      if a[i1] != b[i2] {
        return false;
      }
      i1, i2 := i1 + 1, i2 + 1;
    }
    return true;
  }

  /** `max(a, b)` on integers with `<`: the larger argument. */
  function Max(a: int, b: int): (r: int)
    ensures r >= a && r >= b
    ensures r == a || r == b
  {
    if a < b then b else a
  }

  /** `min(a, b)` on integers with `<`: the smaller argument. */
  function Min(a: int, b: int): (r: int)
    ensures r <= a && r <= b
    ensures r == a || r == b
  {
    if a < b then a else b
  }

  /**
   * `max(a, b, pred)`: `b` when `pred(a, b)`, otherwise `a`. Under a strict order
   * neither argument is above the result, and equivalent arguments give the first.
   */
  function MaxBy<T(!new)>(a: T, b: T, pred: (T, T) -> bool): (r: T)
    ensures r == a || r == b
    ensures StrictOrder(pred) ==> !pred(r, a) && !pred(r, b)
    ensures !pred(a, b) && !pred(b, a) ==> r == a
  {
    if pred(a, b) then b else a
  }

  /**
   * `min(a, b, pred)`: `a` when `pred(a, b)`, otherwise `b`. Under a strict order
   * the result is above neither argument, and equivalent arguments give the second.
   */
  function MinBy<T(!new)>(a: T, b: T, pred: (T, T) -> bool): (r: T)
    ensures r == a || r == b
    ensures StrictOrder(pred) ==> !pred(a, r) && !pred(b, r)
    ensures !pred(a, b) && !pred(b, a) ==> r == b
  {
    if pred(a, b) then a else b
  }

  /** The predicate-free forms are the predicate forms with `<`. */
  lemma MaxMinArePredicateForms(a: int, b: int)
    ensures Max(a, b) == MaxBy(a, b, (x: int, y: int) => x < y)
    ensures Min(a, b) == MinBy(a, b, (x: int, y: int) => x < y)
  {
  }

  /** `fill(first, last, value)`: writes `value` to every position of the range and nowhere else. */
  method Fill<T>(a: array<T>, first: int, last: int, value: T)
    requires 0 <= first <= last <= a.Length
    modifies a
    ensures forall k :: first <= k < last ==> a[k] == value
    ensures forall k :: 0 <= k < a.Length && !(first <= k < last) ==> a[k] == old(a[k])
  {
    var i := first;
    while i != last
      invariant first <= i <= last
      invariant forall k :: first <= k < i ==> a[k] == value
      invariant forall k :: 0 <= k < a.Length && !(first <= k < i) ==> a[k] == old(a[k])
    {
      a[i] := value;
      i := i + 1;
    }
  }

  /**
   * `copy(first, last, d_first)`: copies in ascending order and returns the end of
   * the written range. When source and destination are the same array, the
   * destination may start before the source (or after its end): ascending order
   * then never overwrites an element before it is read.
   */
  method Copy<T>(src: array<T>, first: int, last: int, dst: array<T>, dFirst: int) returns (dEnd: int)
    requires 0 <= first <= last <= src.Length
    requires 0 <= dFirst && dFirst + (last - first) <= dst.Length
    requires src == dst ==> dFirst <= first || last <= dFirst
    modifies dst
    ensures dEnd == dFirst + (last - first)
    ensures forall k :: dFirst <= k < dEnd ==> dst[k] == old(src[first + (k - dFirst)])
    ensures forall k :: 0 <= k < dst.Length && !(dFirst <= k < dEnd) ==> dst[k] == old(dst[k])
  {
    var s, d := first, dFirst;
    while s != last
      invariant first <= s <= last && d == dFirst + (s - first)
      invariant forall k :: dFirst <= k < d ==> dst[k] == old(src[first + (k - dFirst)])
      invariant forall k :: 0 <= k < dst.Length && !(dFirst <= k < d) ==> dst[k] == old(dst[k])
      invariant src != dst ==> forall k :: 0 <= k < src.Length ==> src[k] == old(src[k])
    {
      dst[d] := src[s];
      d, s := d + 1, s + 1;
    }
    dEnd := d;
  }

  /**
   * `copy_backward(first, last, d_last)`: copies from the back and returns the
   * start of the written range. When source and destination are the same array,
   * the destination may end after the source ends (an overlap to the right) or
   * before it starts: descending order then never overwrites an element before it
   * is read.
   */
  method CopyBackward<T>(src: array<T>, first: int, last: int, dst: array<T>, dLast: int) returns (dBegin: int)
    requires 0 <= first <= last <= src.Length
    requires last - first <= dLast <= dst.Length
    requires src == dst ==> last <= dLast || dLast <= first
    modifies dst
    ensures dBegin == dLast - (last - first)
    ensures forall k :: dBegin <= k < dLast ==> dst[k] == old(src[first + (k - dBegin)])
    ensures forall k :: 0 <= k < dst.Length && !(dBegin <= k < dLast) ==> dst[k] == old(dst[k])
  {
    var s, d := last, dLast;
    while s != first
      invariant first <= s <= last && d == dLast - (last - s)
      invariant forall k :: d <= k < dLast ==> dst[k] == old(src[s + (k - d)])
      invariant forall k :: 0 <= k < dst.Length && !(d <= k < dLast) ==> dst[k] == old(dst[k])
      invariant src != dst ==> forall k :: 0 <= k < src.Length ==> src[k] == old(src[k])
    {
      d, s := d - 1, s - 1;
      dst[d] := src[s];
    }
    dBegin := d;
  }
}
