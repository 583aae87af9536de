/**
 * `Deque_Iterator<T, Reference, Pointer>`: an iterator over a deque's storage, a
 * directory ("map") of pointers to fixed-size blocks of elements.
 *
 * Memory is modelled at the level of addresses counted in elements: a `value_ptr`
 * is an integer address (0 is `nullptr`), and pointer arithmetic adds element
 * counts. The directory is an `array<int>` of block start addresses, and
 * `map_node`, a pointer into it, is the directory together with a slot index
 * (`dir == null` is `nullptr`). `sizeof(T)` is the constant `elemSize`.
 */
module DequeIterators {

  /** The address `nullptr`. */
  const NullAddr := 0

  /**
   * `block_size`: how many elements fit in 512 bytes when an element is smaller than
   * 512 bytes, and 1 otherwise. Every block holds at least one element.
   */
  function BlockSize(elemSize: nat): (b: nat)
    requires elemSize > 0
    ensures b >= 1
    ensures elemSize < 512 ==> b * elemSize <= 512 < (b + 1) * elemSize
    ensures elemSize >= 512 ==> b == 1
  {
    if elemSize < 512 then 512 / elemSize else 1
  }

  /**
   * The address of the element at logical index `i`, counting from the start of the
   * block in directory slot 0, when the directory holds the block starts `blocks`.
   */
  function Address(blocks: seq<int>, bs: nat, i: nat): int
    requires bs > 0 && i / bs < |blocks|
  {
    blocks[i / bs] + i % bs
  }

  /** Position `q * b + r` with `0 <= r < b` is slot `q`, offset `r`. */
  lemma SlotOffset(q: nat, b: nat, r: nat)
    requires 0 <= r < b
    ensures (q * b + r) / b == q && (q * b + r) % b == r
  {
    var i := q * b + r;
    var q', r' := i / b, i % b;
    assert i == q' * b + r' && 0 <= r' < b;
    if q' < q {
      MulDiff(q, q', b);
      MulAtLeast(q - q', b);
    } else if q' > q {
      MulDiff(q', q, b);
      MulAtLeast(q' - q, b);
    }
  }

  lemma MulDiff(x: int, y: int, b: int)
    ensures x * b - y * b == (x - y) * b
  {
  }

  lemma {:induction false} MulAtLeast(k: int, b: nat)
    requires k >= 1
    ensures k * b >= b
    decreases k
  {
    if k > 1 {
      MulAtLeast(k - 1, b);
      MulDiff(k, k - 1, b);
    }
  }

  class DequeIterator {
    /** `sizeof(T)`. */
    const elemSize: nat
    /** The directory `map_node` points into, or `null` when `map_node` is `nullptr`. */
    var dir: array?<int>
    /** The slot of `dir` that `map_node` points at. */
    var node: int
    var cur: int
    var first: int
    var last: int

    /** `block_size` for this element type. */
    function BS(): (b: nat)
      requires elemSize > 0
      reads this
      ensures b >= 1
    {
      BlockSize(elemSize)
    }

    /**
     * A dereferenceable iterator: `map_node` points at a directory slot, `[first, last)`
     * is the block in that slot and `cur` is inside it.
     */
    ghost predicate Valid()
      reads this, dir
    {
      && elemSize > 0
      && dir != null
      && 0 <= node < dir.Length
      && first == dir[node]
      && last == first + BS()
      && first <= cur < last
    }

    /** All four pointers are `nullptr`. */
    ghost predicate IsNull()
      reads this
    {
      dir == null && node == 0 && cur == NullAddr && first == NullAddr && last == NullAddr
    }

    /** The logical index of `cur`: whole blocks before the current slot, plus the offset in it. */
    ghost function Position(): int
      requires elemSize > 0
      reads this
    {
      node * BS() + (cur - first)
    }

    /** In a valid iterator, `cur` is the address of element `Position()` of the storage. */
    lemma CurIsAddressOfPosition()
      requires Valid()
      ensures Position() >= 0
      ensures Position() / BS() < dir.Length
      ensures cur == Address(dir[..], BS(), Position())
    {
      SlotOffset(node, BS(), cur - first);
    }

    /**
     * `Deque_Iterator() = default`. The defaulted constructor leaves the pointers
     * indeterminate; the model gives them the null value.
     */
    constructor Default(elemSize: nat)
      requires elemSize > 0
      ensures this.elemSize == elemSize && IsNull()
    {
      this.elemSize := elemSize;
      dir, node := null, 0;
      cur, first, last := NullAddr, NullAddr, NullAddr;
    }

    /** The copy constructor: all four fields are copied. */
    constructor Copy(other: DequeIterator)
      ensures elemSize == other.elemSize && dir == other.dir && node == other.node
      ensures cur == other.cur && first == other.first && last == other.last
    {
      elemSize := other.elemSize;
      dir, node := other.dir, other.node;
      cur, first, last := other.cur, other.first, other.last;
    }

    /** The move constructor: takes the four fields and leaves `other` all null. */
    constructor Move(other: DequeIterator)
      modifies other
      ensures elemSize == other.elemSize && dir == old(other.dir) && node == old(other.node)
      ensures cur == old(other.cur) && first == old(other.first) && last == old(other.last)
      ensures other.IsNull()
    {
      elemSize := other.elemSize;
      dir, node := other.dir, other.node;
      cur, first, last := other.cur, other.first, other.last;
      other.dir, other.node := null, 0;
      other.first, other.last, other.cur := NullAddr, NullAddr, NullAddr;
    }

    /** `Deque_Iterator(map, p)`: the block is the one in slot `*map`; `cur` is `p`. */
    constructor FromMap(elemSize: nat, dir: array<int>, node: int, p: int)
      requires elemSize > 0 && 0 <= node < dir.Length
      ensures this.elemSize == elemSize && this.dir == dir && this.node == node
      ensures first == dir[node] && last == first + BS() && cur == p
      ensures dir[node] <= p < dir[node] + BS() ==> Valid()
    {
      this.elemSize := elemSize;
      this.dir, this.node := dir, node;
      cur := p;
      first := dir[node];
      last := dir[node] + BlockSize(elemSize);
    }

    /** `operator=`: copies the four fields of `rhs`; self-assignment changes nothing. */
    method Assign(rhs: DequeIterator)
      requires rhs.elemSize == elemSize
      modifies this
      ensures dir == old(rhs.dir) && node == old(rhs.node)
      ensures cur == old(rhs.cur) && first == old(rhs.first) && last == old(rhs.last)
      ensures rhs == this ==> unchanged(this)
    {
      if this != rhs {
        dir, node := rhs.dir, rhs.node;
        cur, first, last := rhs.cur, rhs.first, rhs.last;
      }
    }

    /** `operator*`: the element at `cur`, given the contents of memory. */
    function Deref<T>(heap: map<int, T>): T
      requires cur in heap
      reads this
    {
      heap[cur]
    }

    /** `operator->`: the address `cur`. */
    function Arrow(): (p: int)
      reads this
      ensures p == cur
    {
      cur
    }

    /**
     * `change_node_by(n)`: moves `map_node` by `n` slots and points `first` and `cur`
     * at the start of that slot's block, `last` at its end.
     */
    method ChangeNodeBy(n: int)
      requires elemSize > 0 && dir != null && 0 <= node + n < dir.Length
      modifies this
      ensures dir == old(dir) && node == old(node) + n
      ensures first == dir[node] && cur == first && last == first + BS()
      ensures Valid()
    {
      node := node + n;
      first, cur := dir[node], dir[node];
      last := dir[node] + BS();
    }

    /**
     * `operator++`: advances `cur`; when it reaches the end of its block, the
     * iterator moves to the first element of the next slot's block. The logical
     * position grows by exactly one and the iterator stays dereferenceable.
     */
    method Increment()
      requires Valid()
      requires cur + 1 == last ==> node + 1 < dir.Length
      modifies this
      ensures Valid() && dir == old(dir)
      ensures Position() == old(Position()) + 1
      ensures node == old(node) || node == old(node) + 1
      ensures Position() >= 0 && Position() / BS() < dir.Length
      ensures cur == Address(dir[..], BS(), Position())
    {
      ghost var b, m := BS(), node * BS();
      cur := cur + 1;
      if cur == last {
        ChangeNodeBy(1);
        cur := first;
        MulDiff(node, node - 1, b);
        assert node * b == m + b;
      }
      CurIsAddressOfPosition();
    }
  }
}
