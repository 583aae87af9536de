/**
 * `Reverse_Iterator<Iter>`: an adaptor that walks a random-access range backwards.
 * It stores the underlying iterator `_current` (what `base()` returns) and reads the
 * element just before it.
 *
 * The underlying iterator is modelled as an integer position into a sequence `s`:
 * position `p` designates `s[p]`, and `|s|` is the past-the-end position. So
 * `rbegin()` has base `|s|` and `rend()` has base `0`.
 */
module ReverseIterators {

  /** The value of a reverse iterator: its base position. */
  datatype RevIter = RevIter(base: int) {

    /** `r.operator->()`: the position of the element `r` designates, `base() - 1`. */
    function Arrow(): (p: int)
      ensures p + 1 == base
    {
      base - 1
    }

    /** `*r`: the element before the base, read through a decremented copy of it. */
    function Deref<T>(s: seq<T>): (x: T)
      requires 0 <= Arrow() < |s|
    {
      s[Arrow()]
    }

    /** `r + n`: moves `n` steps along the reverse direction, i.e. the base moves back by n. */
    function Plus(n: int): (r: RevIter)
      ensures r.Arrow() == Arrow() - n
    {
      RevIter(base - n)
    }

    /** `r - n`: moves `n` steps against the reverse direction. */
    function Minus(n: int): (r: RevIter)
      ensures r.Plus(n) == this
    {
      RevIter(base + n)
    }

    /**
     * `r[n]` as written: `*(base() - n)`. Note that this is `*(r + (n - 1))`, one
     * position after `*(r + n)`.
     */
    function Index<T>(s: seq<T>, n: int): (x: T)
      requires 0 <= base - n < |s|
      ensures x == Plus(n - 1).Deref(s)
    {
      s[base - n]
    }

    /** `r[n]` as the ISO C++ `reverse_iterator` defines it: `base()[-n-1]`. */
    function IndexStd<T>(s: seq<T>, n: int): (x: T)
      requires 0 <= base - n - 1 < |s|
      ensures x == Plus(n).Deref(s)
    {
      s[base - n - 1]
    }
  }

  /** `n + r`: the same iterator as `r + n`. */
  function AddTo(n: int, r: RevIter): (q: RevIter)
    ensures q == r.Plus(n)
  {
    RevIter(r.base - n)
  }

  /** `r1 == r2`: the bases are equal. */
  function Eq(a: RevIter, b: RevIter): (r: bool)
    ensures r <==> a == b
  {
    a.base == b.base
  }

  /** `r1 < r2`: `r2`'s base is below `r1`'s, so `r1` comes first in reverse order. */
  function Lt(a: RevIter, b: RevIter): (r: bool)
    ensures r <==> exists n :: n > 0 && a.Plus(n) == b
  {
    assert b.base < a.base ==> a.Plus(a.base - b.base) == b;
    b.base < a.base
  }

  /** `r1 != r2`, derived from `==`. */
  function Ne(a: RevIter, b: RevIter): (r: bool)
    ensures r <==> !Eq(a, b)
    ensures r <==> Lt(a, b) || Lt(b, a)
  {
    !Eq(a, b)
  }

  /** `r1 <= r2`, derived as `!(r2 < r1)`. */
  function Le(a: RevIter, b: RevIter): (r: bool)
    ensures r <==> Lt(a, b) || Eq(a, b)
  {
    !Lt(b, a)
  }

  /** `r1 > r2`, derived as `r2 < r1`. */
  function Gt(a: RevIter, b: RevIter): (r: bool)
    ensures r <==> !Le(a, b)
  {
    Lt(b, a)
  }

  /** `r1 >= r2`, derived as `!(r1 < r2)`. */
  function Ge(a: RevIter, b: RevIter): (r: bool)
    ensures r <==> Gt(a, b) || Eq(a, b)
  {
    !Lt(a, b)
  }

  /**
   * `r1 - r2` as written: `r1.base() - r2.base()`. Going `n` steps forward from `r`
   * gives `(r + n) - r == -n`, the opposite sign to ISO C++.
   */
  function Diff(a: RevIter, b: RevIter): (d: int)
    ensures a.Plus(d) == b
    ensures d == 0 <==> Eq(a, b)
    ensures d < 0 <==> Lt(b, a)
  {
    a.base - b.base
  }

  /** `r1 - r2` as ISO C++ defines it: `r2.base() - r1.base()`. */
  function DiffStd(a: RevIter, b: RevIter): (d: int)
    ensures b.Plus(d) == a
    ensures d > 0 <==> Lt(b, a)
  {
    b.base - a.base
  }

  /** For every pair of reverse iterators the difference as written is the negated ISO difference. */
  lemma DiffIsNegatedStd(a: RevIter, b: RevIter)
    ensures Diff(a, b) == -DiffStd(a, b)
  {
  }

  /** `n` steps forward from any `r`: `(r + n) - r` is `-n` as written, `n` by ISO C++. */
  lemma DiffOfSteps(r: RevIter, n: int)
    ensures Diff(r.Plus(n), r) == -n && DiffStd(r.Plus(n), r) == n
  {
  }

  /** A reverse-iterator variable, for the operators that update `_current` in place. */
  class ReverseIterator {
    var current: int

    /** `explicit Reverse_Iterator(x)`. */
    constructor (x: int)
      ensures current == x
    {
      current := x;
    }

    /** The iterator's value; `base()` is its `base` field. */
    function Value(): RevIter
      reads this
    {
      RevIter(current)
    }

    /** `r += n`. */
    method AddAssign(n: int)
      modifies this
      ensures Value() == old(Value()).Plus(n)
    {
      current := current - n;
    }

    /** `r -= n`. */
    method SubAssign(n: int)
      modifies this
      ensures Value() == old(Value()).Minus(n)
    {
      current := current + n;
    }

    /** `++r`. */
    method PreIncrement()
      modifies this
      ensures Value() == old(Value()).Plus(1)
    {
      current := current - 1;
    }

    /** `--r`. */
    method PreDecrement()
      modifies this
      ensures Value() == old(Value()).Minus(1)
    {
      current := current + 1;
    }

    /** `r++`: returns the iterator as it was. */
    method PostIncrement() returns (prior: RevIter)
      modifies this
      ensures prior == old(Value())
      ensures Value() == prior.Plus(1)
    {
      prior := Value();
      PreIncrement();
    }

    /** `r--`: returns the iterator as it was. */
    method PostDecrement() returns (prior: RevIter)
      modifies this
      ensures prior == old(Value())
      ensures Value() == prior.Minus(1)
    {
      prior := Value();
      PreDecrement();
    }
  }

  /** The sequence read backwards. */
  ghost function Reverse<T>(s: seq<T>): seq<T>
  {
    if s == [] then [] else Reverse(s[1..]) + [s[0]]
  }

  /** What a loop `for (r = from; r != to; ++r)` reads through `*r`. */
  ghost function Walk<T>(s: seq<T>, from: RevIter, to: RevIter): seq<T>
    requires 0 <= to.base <= from.base <= |s|
    decreases from.base - to.base
  {
    if Eq(from, to) then [] else [from.Deref(s)] + Walk(s, from.Plus(1), to)
  }

  /** Walking `[rbegin(), rend())` reads the elements of the range in reverse order. */
  lemma {:induction false} WalkIsReverse<T>(s: seq<T>)
    ensures Walk(s, RevIter(|s|), RevIter(0)) == Reverse(s)
  {
    if s != [] {
      var t := s[1..];
      WalkIsReverse(t);
      WalkShift(s, |s|);
      assert Walk(s, RevIter(|s|), RevIter(1)) == Walk(t, RevIter(|t|), RevIter(0));
      WalkSplit(s, |s|, 1, 0);
      assert Walk(s, RevIter(1), RevIter(0)) == [s[0]];
    }
  }

  /** Dropping the first element shifts every position down by one. */
  lemma {:induction false} WalkShift<T>(s: seq<T>, from: int)
    requires s != [] && 1 <= from <= |s|
    ensures Walk(s, RevIter(from), RevIter(1)) == Walk(s[1..], RevIter(from - 1), RevIter(0))
    decreases from
  {
    if from > 1 {
      WalkShift(s, from - 1);
      assert RevIter(from).Plus(1) == RevIter(from - 1);
      assert RevIter(from - 1).Plus(1) == RevIter(from - 2);
      calc {
        Walk(s, RevIter(from), RevIter(1));
        [s[from - 1]] + Walk(s, RevIter(from - 1), RevIter(1));
        [s[1..][from - 2]] + Walk(s[1..], RevIter(from - 2), RevIter(0));
        Walk(s[1..], RevIter(from - 1), RevIter(0));
      }
    }
  }

  /** A walk can be cut at any intermediate position. */
  lemma {:induction false} WalkSplit<T>(s: seq<T>, from: int, mid: int, to: int)
    requires 0 <= to <= mid <= from <= |s|
    ensures Walk(s, RevIter(from), RevIter(to)) == Walk(s, RevIter(from), RevIter(mid)) + Walk(s, RevIter(mid), RevIter(to))
    decreases from - mid
  {
    if from > mid {
      WalkSplit(s, from - 1, mid, to);
      assert RevIter(from).Plus(1) == RevIter(from - 1);
      calc {
        Walk(s, RevIter(from), RevIter(to));
        [s[from - 1]] + Walk(s, RevIter(from - 1), RevIter(to));
        [s[from - 1]] + (Walk(s, RevIter(from - 1), RevIter(mid)) + Walk(s, RevIter(mid), RevIter(to)));
        ([s[from - 1]] + Walk(s, RevIter(from - 1), RevIter(mid))) + Walk(s, RevIter(mid), RevIter(to));
      }
    }
  }

  /** `r[n]` and `*(r + n)` differ: on `[10, 20, 30]` from `rbegin()`, `r[1]` is 30, not 20. */
  lemma IndexIsOffByOne()
    ensures RevIter(3).Index([10, 20, 30], 1) == 30
    ensures RevIter(3).Plus(1).Deref([10, 20, 30]) == 20
    ensures RevIter(3).IndexStd([10, 20, 30], 1) == 20
  {
  }

  /** One step forward from `rbegin()` gives a difference of -1 as written, 1 by ISO C++. */
  lemma DiffSignIsReversed()
    ensures Diff(RevIter(3).Plus(1), RevIter(3)) == -1
    ensures DiffStd(RevIter(3).Plus(1), RevIter(3)) == 1
  {
  }
}
