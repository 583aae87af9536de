/**
 * `_RB_tree`: a red-black tree with a header sentinel, keyed by `int`, with the key
 * extractor the identity (as `set` instantiates it) and the comparator a rank
 * function (`comp(x, y)` is `rank(x) < rank(y)`).
 *
 * The nodes live in `arena` (see `TreeLayout`); `next` is the next fresh handle, so
 * allocating a node is taking `next`. The ghost `shape` is the tree the links form.
 */
module RBTrees {
  import opened TreeLayout
  import opened TreeInsert
  import opened TreeErase
  import opened TreeRebalance
  import opened KeySeqs
  import opened TreeSubtrees
  import opened TreeCopy

  /** `std::less<int>`, the default `Compare`, as a rank. */
  function Less(x: int): int
  {
    x
  }

  /**
   * `--end()` as `decrement` is written, on the tree whose black root (handle 2,
   * key 20) has one red left child (handle 1, key 10): the header's left link is
   * the minimum, whose subtree ends at position 0, so `PredecessorAsWritten(Header)`
   * yields handle 1; the last node, which `--end()` should yield, is handle 2.
   */
  lemma EndDecrementAsWrittenMisses()
    ensures var a := map[Header := Node(2, 1, 2, Red, 0), 1 := Node(2, Null, Null, Red, 10), 2 := Node(Header, 1, Null, Black, 20)];
            var s := Shape([1, 2], map[1 := 0, 2 := 1], map[1 := 0, 2 := 0], map[1 := 1, 2 := 2], map[1 := 0, 2 := 1]);
            && WF(a, s) && RB(a, s)
            && a[Header].left in s.hi && At(s, s.hi[a[Header].left] - 1) == 1
            && At(s, |s.order| - 1) == 2
  {
    var a := map[Header := Node(2, 1, 2, Red, 0), 1 := Node(2, Null, Null, Red, 10), 2 := Node(Header, 1, Null, Black, 20)];
    var s := Shape([1, 2], map[1 := 0, 2 := 1], map[1 := 0, 2 := 0], map[1 := 1, 2 := 2], map[1 := 0, 2 := 1]);
    assert LocalOK(a, s, 1) && LocalOK(a, s, 2);
    assert BHAt(a, s, 1) && BHAt(a, s, 2);
    assert RedAt(a, 1, Null) && RedAt(a, 2, Null);
    assert s.ix.Keys == {1, 2};
  }

  /** `std::pair<_Base_ptr, _Base_ptr>` as the insertion-position searches return it. */
  datatype InsertPos = InsertPos(first: int, second: int)

  /** `std::pair<iterator, bool>` as the unique insertions return it. */
  datatype Inserted = Inserted(it: int, inserted: bool)

  class RBTree {
    var arena: Arena
    var size: nat
    var rank: int -> int
    var next: int
    ghost var shape: Shape

    /**
     * The tree is well formed, red-black and strictly increasing under the comparator;
     * `_size` counts its nodes; every allocated handle is the header or a tree node,
     * and all of them are below `next`.
     */
    ghost predicate Valid()
      reads this
    {
      && SearchTree() && RB(arena, shape)
      && size == |shape.order|
      && Header < next
      && (forall h :: h in arena ==> h < next && (h == Header || h in shape.ix))
    }

    /** A well-formed binary search tree: the in-order keys are strictly increasing. */
    ghost predicate SearchTree()
      reads this
    {
      WF(arena, shape) && Increasing(rank, Keys(arena, shape))
    }

    /** The in-order key sequence. */
    ghost function Contents(): seq<int>
      reads this
    {
      Keys(arena, shape)
    }

    /** `_RB_tree()`: `default_init` on a fresh header, with the comparator `Compare()`. */
    constructor ()
      ensures Valid() && Contents() == [] && size == 0
      ensures rank == Less
      ensures arena[Header].left == Header && arena[Header].right == Header
    {
      arena := map[Header := Node(Null, Header, Header, Red, 0)];
      size := 0;
      rank := Less;
      next := Header + 1;
      shape := EmptyShape;
    }

    /** A tree built with the comparator `comp`. */
    constructor WithCompare(comp: int -> int)
      ensures Valid() && Contents() == [] && size == 0 && rank == comp
    {
      arena := map[Header := Node(Null, Header, Header, Red, 0)];
      size := 0;
      rank := comp;
      next := Header + 1;
      shape := EmptyShape;
    }

    /** `size()`. */
    function Size(): (n: nat)
      requires Valid()
      reads this
      ensures n == |Contents()|
    {
      size
    }

    /** `empty()`. */
    function Empty(): (b: bool)
      requires Valid()
      reads this
      ensures b <==> Contents() == []
    {
      size == 0
    }

    /** `begin()`: the cached minimum, which is the header itself when the tree is empty. */
    function Begin(): (it: int)
      requires Valid()
      reads this
      ensures it == At(shape, 0)
      ensures Contents() == [] <==> it == End()
    {
      arena[Header].left
    }

    /** `end()`: the header. */
    function End(): (it: int)
      requires Valid()
      reads this
      ensures Pos(shape, it) == |shape.order|
    {
      Header
    }

    /** `_min(h)`: the first node of the subtree at h. */
    method Min(h: int) returns (m: int)
      requires Linked(arena, shape) && h in shape.ix
      ensures h in shape.lo && m in shape.ix && shape.ix[m] == shape.lo[h] && m in arena && arena[m].left == Null
    {
      assert LocalOK(arena, shape, h);
      m := h;
      while arena[m].left != Null
        invariant m in shape.ix && LocalOK(arena, shape, m) && shape.lo[m] == shape.lo[h]
        decreases shape.ix[m] - shape.lo[m]
      {
        m := arena[m].left;
        assert LocalOK(arena, shape, m);
      }
    }

    /** `_max(h)`: the last node of the subtree at h. */
    method Max(h: int) returns (m: int)
      requires Linked(arena, shape) && h in shape.ix
      ensures h in shape.hi && m in shape.ix && shape.ix[m] == shape.hi[h] - 1 && m in arena && arena[m].right == Null
    {
      assert LocalOK(arena, shape, h);
      m := h;
      while arena[m].right != Null
        invariant m in shape.ix && LocalOK(arena, shape, m) && shape.hi[m] == shape.hi[h]
        decreases shape.hi[m] - shape.ix[m]
      {
        m := arena[m].right;
        assert LocalOK(arena, shape, m);
      }
    }

    /**
     * The iterator's `increment`: the in-order successor, or the header after the
     * last node. The climb stops below the first ancestor reached from a left
     * child; the final test leaves the header in place when the root is the last
     * node and has already been passed.
     */
    method Increment(x: int) returns (y: int)
      requires WF(arena, shape) && x in shape.ix
      ensures y == At(shape, shape.ix[x] + 1)
      ensures x in arena && arena[x].right != Null ==> y in shape.ix && y in arena && arena[y].left == Null
    {
      assert LocalOK(arena, shape, x);
      if arena[x].right != Null {
        assert LocalOK(arena, shape, arena[x].right);
        y := Min(arena[x].right);
        assert LocalOK(arena, shape, y);
      } else {
        y := ClimbToSuccessor(x);
      }
    }

    /** The climbing half of `increment`, for a node without a right child. */
    method ClimbToSuccessor(x: int) returns (y: int)
      requires WF(arena, shape) && x in shape.ix && LocalOK(arena, shape, x) && arena[x].right == Null
      ensures y == At(shape, shape.ix[x] + 1)
    {
      assert LocalOK(arena, shape, x);
      var cur := x;
      var p := arena[cur].parent;
      while arena[p].right == cur
        invariant p in arena
        invariant cur != Header ==> cur in shape.ix && LocalOK(arena, shape, cur) && shape.hi[cur] == shape.ix[x] + 1 && p == arena[cur].parent
        invariant cur == Header ==> |shape.order| > 0 && p == Root(arena) && shape.ix[x] + 1 == |shape.order| && arena[Header].right == p
        invariant p != Header ==> p in shape.ix && LocalOK(arena, shape, p)
        decreases if cur == Header then 0 else |shape.order| + 1 - (shape.hi[cur] - shape.lo[cur])
      {
        if p == Header {
          assert LocalOK(arena, shape, Root(arena));
        } else {
          ParentInterval(arena, shape, cur);
        }
        cur := p;
        p := arena[p].parent;
        if cur != Header && p != Header {
          assert LocalOK(arena, shape, p);
        }
      }
      if arena[cur].right != p {
        cur := p;
      }
      y := cur;
    }
 
    /**
     * `_get_successor(x)`: the node after x in order. The climb looks for the first
     * ancestor reached from a left child, so x must not be the last node (see README).
     */
    method GetSuccessor(x: int) returns (y: int)
      requires WF(arena, shape) && x in shape.ix && shape.ix[x] + 1 < |shape.order|
      ensures y == At(shape, shape.ix[x] + 1)
    {
      assert LocalOK(arena, shape, x);
      if arena[x].right != Null {
        assert LocalOK(arena, shape, arena[x].right);
        y := Min(arena[x].right);
        assert LocalOK(arena, shape, y);
        return;
      }
      var cur := x;
      assert LocalOK(arena, shape, Root(arena));
      while !(arena[arena[cur].parent].left == cur)
        invariant cur in shape.ix && LocalOK(arena, shape, cur) && shape.hi[cur] == shape.ix[x] + 1
        decreases |shape.order| - (shape.hi[cur] - shape.lo[cur])
      {
        ParentInterval(arena, shape, cur);
        cur := arena[cur].parent;
      }
      y := arena[cur].parent;
      assert LocalOK(arena, shape, y);
    }

    /**
     * The iterator's `decrement`, with the header case of the usual implementation:
     * the header is the only red node whose grandparent is itself, and its
     * predecessor is the cached maximum. Otherwise it is the in-order predecessor.
     */
    method Decrement(x: int) returns (y: int)
      requires WF(arena, shape) && RootBlack(arena)
      requires (x in shape.ix && shape.ix[x] > 0) || (x == Header && |shape.order| > 0)
      ensures y == At(shape, Pos(shape, x) - 1)
      ensures x in shape.ix && x in arena && arena[x].left != Null ==> y in shape.ix && y in arena && arena[y].right == Null
    {
      if x != Header {
        assert LocalOK(arena, shape, x);
        if arena[x].parent != Header {
          assert LocalOK(arena, shape, arena[x].parent);
        }
      }
      if arena[x].color == Red && arena[arena[x].parent].parent == x {
        y := arena[x].right;
      } else {
        y := PredecessorAsWritten(x);
      }
    }

    /**
     * The iterator's `decrement` as written: the maximum of the left subtree, or the
     * climb to the first ancestor reached from a right child. On the header (`--end()`)
     * it takes the maximum of the subtree rooted at the minimum, not the last node.
     */
    method PredecessorAsWritten(x: int) returns (y: int)
      requires WF(arena, shape)
      requires (x in shape.ix && shape.ix[x] > 0) || (x == Header && |shape.order| > 0)
      ensures x in shape.ix ==> y == At(shape, shape.ix[x] - 1)
      ensures x == Header ==> arena[Header].left in shape.hi && y == At(shape, shape.hi[arena[Header].left] - 1)
      ensures x in shape.ix && x in arena && arena[x].left != Null ==> y in shape.ix && y in arena && arena[y].right == Null
    {
      if x != Header {
        assert LocalOK(arena, shape, x);
      }
      if arena[x].left != Null {
        assert LocalOK(arena, shape, arena[x].left);
        y := Max(arena[x].left);
        assert LocalOK(arena, shape, y);
      } else {
        y := ClimbToPredecessor(x);
      }
    }

    /** The climbing half of `decrement`, for a node without a left child that is not the first. */
    method ClimbToPredecessor(x: int) returns (y: int)
      requires WF(arena, shape) && x in shape.ix && LocalOK(arena, shape, x)
      requires arena[x].left == Null && shape.ix[x] > 0
      ensures y == At(shape, shape.ix[x] - 1)
    {
      var cur := x;
      var p := arena[cur].parent;
      assert LocalOK(arena, shape, Root(arena));
      assert LocalOK(arena, shape, p);
      while arena[p].left == cur
        invariant cur in shape.ix && LocalOK(arena, shape, cur) && shape.lo[cur] == shape.ix[x]
        invariant p == arena[cur].parent && p in shape.ix && LocalOK(arena, shape, p)
        decreases |shape.order| - (shape.hi[cur] - shape.lo[cur])
      {
        ParentInterval(arena, shape, cur);
        cur := p;
        p := arena[p].parent;
        assert LocalOK(arena, shape, p);
      }
      if arena[cur].left != p {
        cur := p;
      }
      y := cur;
    }

    /**
     * `lower_bound(key)` (with the loop testing `cur`): the first node whose key does
     * not compare less than `key`, or `end()`.
     */
    method LowerBound(key: int) returns (lb: int)
      requires SearchTree()
      ensures lb == At(shape, LowerBoundIndex(rank, Contents(), key))
    {
      ghost var ks := Contents();
      lb := Header;
      var cur := arena[Header].parent;
      ghost var wlo, whi := 0, |shape.order|;
      if cur != Null {
        assert LocalOK(arena, shape, cur);
      }
      while cur != Null
        invariant 0 <= wlo <= whi <= |shape.order|
        invariant cur == Null ==> wlo == whi
        invariant cur != Null ==> cur in shape.ix && cur in shape.lo && cur in shape.hi && shape.lo[cur] == wlo && shape.hi[cur] == whi
        invariant forall j :: 0 <= j < wlo ==> rank(ks[j]) < rank(key)
        invariant forall j :: whi <= j < |ks| ==> !(rank(ks[j]) < rank(key))
        invariant lb == At(shape, whi)
        decreases whi - wlo + (if cur == Null then 0 else 1)
      {
        assert LocalOK(arena, shape, cur);
        ghost var i := shape.ix[cur];
        assert ks[i] == arena[cur].key;
        if rank(arena[cur].key) < rank(key) {
          LessUpTo(rank, ks, key, i);
          wlo := i + 1;
          cur := arena[cur].right;
        } else {
          NotLessFrom(rank, ks, key, i);
          whi := i;
          lb := cur;
          cur := arena[cur].left;
        }
      }
      LowerBoundUnique(rank, ks, key, wlo);
    }

    /**
     * `upper_bound(key)` (with the loop testing `cur`): the first node whose key
     * `key` compares less than, or `end()`.
     */
    method UpperBound(key: int) returns (ub: int)
      requires SearchTree()
      ensures ub == At(shape, UpperBoundIndex(rank, Contents(), key))
    {
      ghost var ks := Contents();
      ub := Header;
      var cur := arena[Header].parent;
      ghost var wlo, whi := 0, |shape.order|;
      if cur != Null {
        assert LocalOK(arena, shape, cur);
      }
      while cur != Null
        invariant 0 <= wlo <= whi <= |shape.order|
        invariant cur == Null ==> wlo == whi
        invariant cur != Null ==> cur in shape.ix && cur in shape.lo && cur in shape.hi && shape.lo[cur] == wlo && shape.hi[cur] == whi
        invariant forall j :: 0 <= j < wlo ==> !(rank(key) < rank(ks[j]))
        invariant forall j :: whi <= j < |ks| ==> rank(key) < rank(ks[j])
        invariant ub == At(shape, whi)
        decreases whi - wlo + (if cur == Null then 0 else 1)
      {
        assert LocalOK(arena, shape, cur);
        ghost var i := shape.ix[cur];
        assert ks[i] == arena[cur].key;
        if rank(key) < rank(arena[cur].key) {
          GreaterFrom(rank, ks, key, i);
          whi := i;
          ub := cur;
          cur := arena[cur].left;
        } else {
          NotGreaterUpTo(rank, ks, key, i);
          wlo := i + 1;
          cur := arena[cur].right;
        }
      }
      UpperBoundUnique(rank, ks, key, wlo);
    }

    /**
     * `find(key)`: the node holding a key equivalent to `key`, or `end()` when there
     * is none.
     */
    method Find(key: int) returns (it: int)
      requires SearchTree()
      ensures it != Header <==> HasEquivalent(rank, Contents(), key)
      ensures it != Header ==> it in shape.ix && rank(KeyOf(arena, it)) == rank(key)
      ensures it != Header ==> it == At(shape, LowerBoundIndex(rank, Contents(), key))
    {
      var i := LowerBound(key);
      EquivalentAtLowerBound(rank, Contents(), key);
      ghost var k := LowerBoundIndex(rank, Contents(), key);
      if k < |shape.order| {
        assert LocalOK(arena, shape, i);
        assert Contents()[k] == arena[i].key;
      }
      it := if i == Header || rank(key) < rank(arena[i].key) then Header else i;
    }

    /** `count_unique(key)`: 1 when an equivalent key is present, else 0. */
    method CountUnique(key: int) returns (n: nat)
      requires SearchTree()
      ensures n == if HasEquivalent(rank, Contents(), key) then 1 else 0
    {
      var i := Find(key);
      n := if i == Header then 0 else 1;
    }

    /**
     * `equal_range_unique(key)`: `[lower_bound, upper_bound)` when an equivalent key
     * is present (the found node and its successor), and `(end(), end())` otherwise.
     */
    method EqualRangeUnique(key: int) returns (first: int, last: int)
      requires SearchTree()
      ensures HasEquivalent(rank, Contents(), key) ==>
                first == At(shape, LowerBoundIndex(rank, Contents(), key)) &&
                last == At(shape, UpperBoundIndex(rank, Contents(), key))
      ensures !HasEquivalent(rank, Contents(), key) ==> first == Header && last == Header
    {
      var i := Find(key);
      if i == Header {
        first, last := Header, Header;
      } else {
        UpperFromLower(rank, Contents(), key);
        EquivalentAtLowerBound(rank, Contents(), key);
        var j := Increment(i);
        first, last := i, j;
      }
    }

    // -------------------------------------------------------------------------
    // Insertion
    // -------------------------------------------------------------------------

    /** `rotate_left(pivot)`: the right child takes the pivot's place. */
    method RotateLeft(x: int)
      requires LocalOK(arena, shape, x) && arena[x].right != Null && LocalOK(arena, shape, arena[x].right)
      modifies this
      ensures arena == RotateLeftArena(old(arena), x)
      ensures shape == RotateLeftShape(old(arena), old(shape), x)
      ensures size == old(size) && rank == old(rank) && next == old(next)
    {
      var y := arena[x].right;
      var b := arena[y].left;
      var p := arena[x].parent;
      arena := arena[x := arena[x].(right := b)];
      if b != Null {
        arena := arena[b := arena[b].(parent := x)];
      }
      arena := arena[y := arena[y].(left := x, parent := p)];
      if arena[Header].parent == x {
        arena := arena[Header := arena[Header].(parent := y)];
      } else if arena[p].left == x {
        arena := arena[p := arena[p].(left := y)];
      } else {
        arena := arena[p := arena[p].(right := y)];
      }
      arena := arena[x := arena[x].(parent := y)];
      shape := RotateLeftShape(old(arena), shape, x);
    }

    /** `rotate_right(pivot)`: the left child takes the pivot's place. */
    method RotateRight(x: int)
      requires LocalOK(arena, shape, x) && arena[x].left != Null && LocalOK(arena, shape, arena[x].left)
      modifies this
      ensures arena == RotateRightArena(old(arena), x)
      ensures shape == RotateRightShape(old(arena), old(shape), x)
      ensures size == old(size) && rank == old(rank) && next == old(next)
    {
      var y := arena[x].left;
      var b := arena[y].right;
      var p := arena[x].parent;
      arena := arena[x := arena[x].(left := b)];
      if b != Null {
        arena := arena[b := arena[b].(parent := x)];
      }
      arena := arena[y := arena[y].(right := x, parent := p)];
      if arena[Header].parent == x {
        arena := arena[Header := arena[Header].(parent := y)];
      } else if arena[p].left == x {
        arena := arena[p := arena[p].(left := y)];
      } else {
        arena := arena[p := arena[p].(right := y)];
      }
      arena := arena[x := arena[x].(parent := y)];
      shape := RotateRightShape(old(arena), shape, x);
    }

    /**
     * The recolouring case of `insert_fix` (the uncle u is red): u and p turn black
     * and g red; the only possible red edge is now the one into g.
     */
    method InsertFixRecolor(n: int, p: int, g: int, u: int)
      requires RedFamily(arena, shape, n, p, g, u) && IsRed(arena, u)
      modifies this
      ensures FixUpInsert(arena, shape, g) && arena[g].parent in arena
      ensures g in shape.lo && g in shape.hi && shape.hi[g] - shape.lo[g] <= |shape.order|
      ensures old(shape.hi[n] - shape.lo[n]) < shape.hi[g] - shape.lo[g]
      ensures Keys(arena, shape) == old(Keys(arena, shape))
      ensures shape.order == old(shape.order) && shape.ix == old(shape.ix) && arena.Keys == old(arena.Keys)
      ensures size == old(size) && rank == old(rank) && next == old(next)
    {
      RecolorOK(arena, shape, n, p, g, u);
      FamilyGrows(arena, shape, n, p, g, u);
      arena := arena[u := arena[u].(color := Black)];
      arena := arena[p := arena[p].(color := Black)];
      arena := arena[g := arena[g].(color := Red)];
      shape := AddBh(AddBh(shape, p, 1), u, 1);
    }

    /** LR: n is a right child and p a left child; `n = p; rotate_left(n)` turns it into LL. */
    method InsertFixLR(n: int, p: int, g: int, u: int)
      requires RedFamily(arena, shape, n, p, g, u) && !IsRed(arena, u) && arena[g].left == p && arena[p].left != n
      modifies this
      ensures RedFamily(arena, shape, p, n, g, u) && !IsRed(arena, u) && arena[g].left == n && arena[n].left == p
      ensures Keys(arena, shape) == old(Keys(arena, shape))
      ensures shape.order == old(shape.order) && shape.ix == old(shape.ix) && arena.Keys == old(arena.Keys)
      ensures size == old(size) && rank == old(rank) && next == old(next)
    {
      InnerLeftOK(arena, shape, n, p, g, u);
      RotateLeft(p);
    }

    /** RL, the mirror image of LR: `n = p; rotate_right(n)` turns it into RR. */
    method InsertFixRL(n: int, p: int, g: int, u: int)
      requires RedFamily(arena, shape, n, p, g, u) && !IsRed(arena, u) && arena[g].left != p && arena[p].left == n
      modifies this
      ensures RedFamily(arena, shape, p, n, g, u) && !IsRed(arena, u) && arena[g].left != n && arena[n].right == p
      ensures Keys(arena, shape) == old(Keys(arena, shape))
      ensures shape.order == old(shape.order) && shape.ix == old(shape.ix) && arena.Keys == old(arena.Keys)
      ensures size == old(size) && rank == old(rank) && next == old(next)
    {
      InnerRightOK(arena, shape, n, p, g, u);
      RotateRight(p);
    }

    /** LL: p turns black, g red, and `rotate_right(g)` lifts p into g's place. */
    method InsertFixLL(n: int, p: int, g: int, u: int)
      requires RedFamily(arena, shape, n, p, g, u) && !IsRed(arena, u) && arena[g].left == p && arena[p].left == n
      modifies this
      ensures WF(arena, shape) && RB(arena, shape)
      ensures Keys(arena, shape) == old(Keys(arena, shape))
      ensures shape.order == old(shape.order) && shape.ix == old(shape.ix) && arena.Keys == old(arena.Keys)
      ensures size == old(size) && rank == old(rank) && next == old(next)
    {
      OuterLeftOK(arena, shape, n, p, g, u);
      arena := arena[p := arena[p].(color := Black)];
      arena := arena[g := arena[g].(color := Red)];
      shape := AddBh(AddBh(shape, p, 1), g, -1);
      RotateRight(g);
    }

    /** RR, the mirror image of LL: repaint, then `rotate_left(g)`. */
    method InsertFixRR(n: int, p: int, g: int, u: int)
      requires RedFamily(arena, shape, n, p, g, u) && !IsRed(arena, u) && arena[g].left != p && arena[p].right == n
      modifies this
      ensures WF(arena, shape) && RB(arena, shape)
      ensures Keys(arena, shape) == old(Keys(arena, shape))
      ensures shape.order == old(shape.order) && shape.ix == old(shape.ix) && arena.Keys == old(arena.Keys)
      ensures size == old(size) && rank == old(rank) && next == old(next)
    {
      OuterRightOK(arena, shape, n, p, g, u);
      arena := arena[p := arena[p].(color := Black)];
      arena := arena[g := arena[g].(color := Red)];
      shape := AddBh(AddBh(shape, p, 1), g, -1);
      RotateLeft(g);
    }

    /**
     * The rotation cases of `insert_fix` (the uncle u is black): LR or RL first when
     * n is an inner grandchild, then LL or RR. The tree is a red-black tree
     * afterwards, with the same nodes in the same order.
     */
    method InsertFixRotate(n: int, p: int, g: int, u: int)
      requires RedFamily(arena, shape, n, p, g, u) && !IsRed(arena, u)
      modifies this
      ensures WF(arena, shape) && RB(arena, shape)
      ensures Keys(arena, shape) == old(Keys(arena, shape))
      ensures shape.order == old(shape.order) && shape.ix == old(shape.ix) && arena.Keys == old(arena.Keys)
      ensures size == old(size) && rank == old(rank) && next == old(next)
    {
      if arena[g].left == p {
        if !(arena[p].left == n) {
          InsertFixLR(n, p, g, u);
          InsertFixLL(p, n, g, u);
        } else {
          InsertFixLL(n, p, g, u);
        }
      } else {
        if arena[p].left == n {
          InsertFixRL(n, p, g, u);
          InsertFixRR(p, n, g, u);
        } else {
          assert arena[p].right == n;
          InsertFixRR(n, p, g, u);
        }
      }
    }

    /**
     * The loop of `insert_fix(n)`: recolouring moves the only red edge two levels
     * up; a rotation case removes it and ends the loop. On a normal exit the only
     * remaining fault is a red root.
     */
    method InsertFixLoop(n0: int) returns (n: int, ghost rotated: bool)
      requires FixUpInsert(arena, shape, n0)
      modifies this
      ensures rotated ==> WF(arena, shape) && RB(arena, shape) && n in shape.ix
      ensures !rotated ==> FixUpInsert(arena, shape, n) && (Root(arena) == n || !IsRed(arena, arena[n].parent))
      ensures Keys(arena, shape) == old(Keys(arena, shape))
      ensures shape.order == old(shape.order) && shape.ix == old(shape.ix) && arena.Keys == old(arena.Keys)
      ensures size == old(size) && rank == old(rank) && next == old(next)
    {
      n := n0;
      arena := arena[n := arena[n].(color := Red)];
      assert arena == old(arena);
      assert LocalOK(arena, shape, n);
      rotated := false;
      while arena[Header].parent != n && arena[arena[n].parent].color == Red
        invariant FixUpInsert(arena, shape, n) && arena[n].parent in arena
        invariant n in shape.lo && n in shape.hi && shape.hi[n] - shape.lo[n] <= |shape.order|
        invariant Keys(arena, shape) == old(Keys(arena, shape))
        invariant shape.order == old(shape.order) && shape.ix == old(shape.ix) && arena.Keys == old(arena.Keys)
        invariant size == old(size) && rank == old(rank) && next == old(next)
        decreases |shape.order| - (shape.hi[n] - shape.lo[n])
      {
        RedFamilyOf(arena, shape, n);
        var p := arena[n].parent;
        var g := arena[p].parent;
        var u := if arena[g].left == p then arena[g].right else arena[g].left;
        if u != Null && arena[u].color == Red {
          InsertFixRecolor(n, p, g, u);
          n := g;
        } else {
          InsertFixRotate(n, p, g, u);
          rotated := true;
          break;
        }
      }
    }

    /**
     * `insert_fix(n)`: restores the red-black conditions after n was linked in red,
     * the loop followed by painting the root black.
     */
    method InsertFix(n0: int)
      requires FixUpInsert(arena, shape, n0)
      modifies this
      ensures WF(arena, shape) && RB(arena, shape)
      ensures Keys(arena, shape) == old(Keys(arena, shape))
      ensures shape.order == old(shape.order) && shape.ix == old(shape.ix) && arena.Keys == old(arena.Keys)
      ensures size == old(size) && rank == old(rank) && next == old(next)
    {
      var n;
      ghost var rotated;
      n, rotated := InsertFixLoop(n0);
      PaintRootEither(arena, shape, n, rotated);
      if arena[arena[Header].parent].color == Red {
        shape := AddBh(shape, arena[Header].parent, 1);
      }
      var r := arena[Header].parent;
      arena := arena[r := arena[r].(color := Black)];
    }

    /** `insert_at_pos`'s choice of side: forced left, or `comp(key, key(p))`. */
    ghost function InsertLeft(p: int, key: int, leftIndicator: bool): bool
      reads this
    {
      leftIndicator || (p in arena && rank(key) < rank(arena[p].key))
    }

    /** The in-order position a key linked under p on that side takes. */
    ghost function SlotIndex(p: int, key: int, leftIndicator: bool): int
      reads this
    {
      if p in shape.ix then
        (if InsertLeft(p, key, leftIndicator) then shape.ix[p] else shape.ix[p] + 1)
      else 0
    }

    /**
     * A free link for `insert_at_pos(p, _, leftIndicator)`: the header of an empty
     * tree, or the child slot of p on the side `insert_at_pos` picks.
     */
    ghost predicate SlotFree(p: int, key: int, leftIndicator: bool)
      reads this
    {
      && (p == Header ==> |shape.order| == 0)
      && (p != Header ==>
            && p in shape.ix && p in arena
            && (InsertLeft(p, key, leftIndicator) ==> arena[p].left == Null)
            && (!InsertLeft(p, key, leftIndicator) ==> arena[p].right == Null))
    }

    /**
     * A position `insert_at_pos(p, _, leftIndicator)` may link `key` at: a free link
     * where the key falls strictly between its in-order neighbours.
     */
    ghost predicate IsSlot(p: int, key: int, leftIndicator: bool)
      reads this
    {
      SlotFree(p, key, leftIndicator) && Fits(rank, Contents(), SlotIndex(p, key, leftIndicator), key)
    }

    /**
     * The state between `construct_node` and linking: valid, except that the
     * constructed node z is allocated but not part of the tree yet.
     */
    ghost predicate ValidWith(z: int)
      reads this
    {
      && SearchTree() && RB(arena, shape) && size == |shape.order|
      && Header < next && z != Header && z != Null && z in arena && z !in shape.ix
      && (forall h :: h in arena ==> h < next && (h == Header || h == z || h in shape.ix))
    }

    /**
     * `construct_node(key)`: a fresh node holding `key` with no links. The colour the
     * source leaves unset is red here, which `insert_fix` makes it first in any case.
     */
    method ConstructNode(key: int) returns (z: int)
      requires Valid()
      modifies this
      ensures z == old(next) && z !in old(arena) && z != Header && z != Null && z !in shape.ix
      ensures arena == old(arena)[z := Node(Null, Null, Null, Red, key)]
      ensures next == z + 1 && shape == old(shape) && size == old(size) && rank == old(rank)
      ensures ValidWith(z) && Contents() == old(Contents())
      ensures KeepsNodes(old(arena), old(shape), arena, shape)
    {
      assert next in shape.ix ==> LocalOK(arena, shape, next);
      AddFreshOK(arena, shape, next, Node(Null, Null, Null, Red, key));
      z := AllocateNode(key);
      forall h | h in shape.ix
        ensures KeyOf(arena, h) == KeyOf(old(arena), h)
      {
        assert LocalOK(old(arena), shape, h);
      }
    }

    /**
     * The allocation `construct_node(key)` makes: the fresh handle `next` holds key
     * and has no links.
     */
    method AllocateNode(key: int) returns (z: int)
      requires Header < next && forall y :: y in arena ==> y < next
      modifies this
      ensures z == old(next) && z !in old(arena) && z != Header && z != Null
      ensures arena == old(arena)[z := Node(Null, Null, Null, Red, key)]
      ensures next == z + 1 && shape == old(shape) && size == old(size) && rank == old(rank)
    {
      z := next;
      arena := arena[z := Node(Null, Null, Null, Red, key)];
      next := next + 1;
    }

    /** `delete_node(z)`: the node's storage is released. */
    method DeleteNode(z: int)
      modifies this
      ensures arena == old(arena) - {z}
      ensures next == old(next) && shape == old(shape) && size == old(size) && rank == old(rank)
    {
      arena := arena - {z};
    }

    /**
     * The links `insert_at_pos` writes, up to `++_size`: z under p, the header's
     * root/minimum/maximum for an empty tree, and p's child on the chosen side.
     */
    method LinkNew(p: int, z: int, leftIndicator: bool) returns (ghost left: bool)
      requires Header in arena && z in arena && (p == Header || p in arena)
      requires arena[z].left == Null && arena[z].right == Null && arena[z].color == Red
      modifies this
      ensures left == (leftIndicator || rank(old(arena[z].key)) < rank(old(arena[p].key)))
      ensures arena == LinkNewArena(old(arena), p, z, old(arena[z].key), left)
      ensures arena.Keys == old(arena.Keys)
      ensures shape == old(shape) && size == old(size) && rank == old(rank) && next == old(next)
    {
      var key := arena[z].key;
      arena := arena[z := arena[z].(parent := p)];
      if p == Header {
        arena := arena[Header := arena[Header].(parent := z, left := z, right := z)];
      }
      var insertLeft := leftIndicator || rank(key) < rank(arena[p].key);
      if insertLeft {
        arena := arena[p := arena[p].(left := z)];
        if p == arena[Header].left {
          arena := arena[Header := arena[Header].(left := z)];
        }
      } else {
        arena := arena[p := arena[p].(right := z)];
        if p == arena[Header].right {
          arena := arena[Header := arena[Header].(right := z)];
        }
      }
      left := insertLeft;
    }

    /**
     * `insert_at_pos`'s linking and `++_size`: z takes the slot's in-order position
     * and is the only node that may have a red parent.
     */
    method LinkAndCount(p: int, z: int, leftIndicator: bool, ghost k: int)
      requires WF(arena, shape) && RB(arena, shape) && size == |shape.order|
      requires z != Header && z != Null && z in arena && z !in shape.ix
      requires arena[z].left == Null && arena[z].right == Null && arena[z].color == Red
      requires SlotFree(p, arena[z].key, leftIndicator)
      requires k == SlotIndex(p, arena[z].key, leftIndicator) && 0 <= k <= |shape.order|
      modifies this
      ensures FixUpInsert(arena, shape, z) && size == |shape.order|
      ensures shape.ix[z] == k && Contents() == old(Contents())[..k] + [old(arena[z].key)] + old(Contents())[k..]
      ensures shape.order == old(shape.order)[..k] + [z] + old(shape.order)[k..]
      ensures shape.ix.Keys == old(shape.ix.Keys) + {z} && arena.Keys == old(arena.Keys)
      ensures rank == old(rank) && next == old(next)
    {
      var key := arena[z].key;
      ghost var a0, s0 := arena, shape;
      if p != Header {
        assert LocalOK(arena, shape, p);
      }
      ghost var insertLeft := LinkNew(p, z, leftIndicator);
      size := size + 1;
      assert InsertSite(a0, s0, p, z, k, insertLeft);
      LinkNewOK(a0, s0, arena, p, z, k, key, insertLeft);
      shape := InsertShape(s0, z, k, insertLeft);
    }

    /**
     * `insert_at_pos(p, z, leftIndicator)`: link the constructed node z under p, count
     * it and rebalance. The key lands at the slot's in-order position, so the tree
     * stays a red-black search tree whose contents gain exactly that key.
     */
    method InsertAtPos(p: int, z: int, leftIndicator: bool) returns (it: int)
      requires ValidWith(z)
      requires arena[z].left == Null && arena[z].right == Null && arena[z].color == Red
      requires IsSlot(p, arena[z].key, leftIndicator)
      modifies this
      ensures Valid()
      ensures it == z && z in shape.ix && KeyOf(arena, z) == old(arena[z].key)
      ensures var k := old(SlotIndex(p, arena[z].key, leftIndicator));
              && k == LowerBoundIndex(rank, old(Contents()), old(arena[z].key))
              && shape.ix[z] == k && Contents() == old(Contents()[..k] + [arena[z].key] + Contents()[k..])
              && shape.order == old(shape.order)[..k] + [z] + old(shape.order)[k..]
      ensures KeepsNodes(old(arena), old(shape), arena, shape)
      ensures Contents() == SortedInsert(rank, old(Contents()), old(arena[z].key))
      ensures shape.ix.Keys == old(shape.ix.Keys) + {z} && arena.Keys == old(arena.Keys)
      ensures rank == old(rank) && next == old(next)
    {
      ghost var key := arena[z].key;
      ghost var k := SlotIndex(p, key, leftIndicator);
      ghost var ks := Contents();
      FitsIsSortedInsert(rank, ks, k, key);
      if p in shape.ix {
        assert LocalOK(arena, shape, p);
      }
      LinkAndCount(p, z, leftIndicator, k);
      ghost var ks' := Contents();
      InsertFix(z);
      assert Contents() == ks';
      assert LocalOK(arena, shape, z);
      assert Contents()[k] == KeyOf(arena, z);
      SpliceKeepsNodes(old(arena), old(shape), arena, shape, z, k, key);
      it := z;
    }

    /**
     * The descent of `get_insert_unique_pos(key)`: going left when `key` compares
     * less than the node's key and right otherwise, it ends at a free link of p
     * (left when `comp`) at the in-order position of the upper bound of `key`.
     */
    method InsertDescent(key: int) returns (cur: int, p: int, comp: bool)
      requires SearchTree()
      ensures cur == Null
      ensures p == Header ==> |shape.order| == 0 && comp
      ensures p != Header ==> p in shape.ix && p in arena && comp == (rank(key) < rank(arena[p].key))
      ensures p != Header && comp ==> arena[p].left == Null && shape.ix[p] == UpperBoundIndex(rank, Contents(), key)
      ensures p != Header && !comp ==> arena[p].right == Null && shape.ix[p] + 1 == UpperBoundIndex(rank, Contents(), key)
    {
      ghost var ks := Contents();
      cur := arena[Header].parent;
      p := Header;
      comp := true;
      ghost var wlo, whi := 0, |shape.order|;
      if cur != Null {
        assert LocalOK(arena, shape, cur);
      }
      while cur != Null
        invariant 0 <= wlo <= whi <= |shape.order|
        invariant cur == Null ==> wlo == whi
        invariant cur != Null ==> cur in shape.ix && cur in shape.lo && cur in shape.hi && shape.lo[cur] == wlo && shape.hi[cur] == whi
        invariant forall j :: 0 <= j < wlo ==> !(rank(key) < rank(ks[j]))
        invariant forall j :: whi <= j < |ks| ==> rank(key) < rank(ks[j])
        invariant p == Header ==> comp && wlo == 0 && whi == |shape.order| && cur == arena[Header].parent
        invariant p != Header ==> p in shape.ix && p in arena && comp == (rank(key) < rank(arena[p].key))
        invariant p != Header && comp ==> arena[p].left == cur && shape.ix[p] == whi
        invariant p != Header && !comp ==> arena[p].right == cur && shape.ix[p] + 1 == wlo
        decreases whi - wlo + (if cur == Null then 0 else 1)
      {
        assert LocalOK(arena, shape, cur);
        ghost var i := shape.ix[cur];
        assert ks[i] == arena[cur].key;
        p := cur;
        comp := rank(key) < rank(arena[cur].key);
        if comp {
          GreaterFrom(rank, ks, key, i);
          whi := i;
          cur := arena[cur].left;
        } else {
          NotGreaterUpTo(rank, ks, key, i);
          wlo := i + 1;
          cur := arena[cur].right;
        }
        if cur != Null {
          assert LocalOK(arena, shape, cur);
        }
      }
      UpperBoundUnique(rank, ks, key, wlo);
    }

    /**
     * The node `get_insert_unique_pos` compares last: p itself after a step right,
     * or `--iterator(p)` after a step left from a node other than the minimum.
     */
    method LastBelow(p: int, comp: bool) returns (i: int)
      requires WF(arena, shape) && RootBlack(arena) && p in shape.ix
      requires comp ==> p != arena[Header].left
      ensures var k := if comp then shape.ix[p] - 1 else shape.ix[p];
              0 <= k < |shape.order| && i == shape.order[k] && i in shape.ix && i in arena
    {
      assert LocalOK(arena, shape, p);
      i := p;
      if comp {
        assert shape.order[0] in shape.ix && shape.ix[shape.order[0]] == 0;
        i := Decrement(p);
        assert LocalOK(arena, shape, i);
      }
    }

    /**
     * `get_insert_unique_pos(key)`: when no key equivalent to `key` is present, a
     * parent whose free link (on the side `insert_at_pos` picks without a left
     * indicator) keeps the keys increasing; otherwise the node holding the
     * equivalent key, and no parent.
     */
    method GetInsertUniquePos(key: int) returns (res: InsertPos)
      requires SearchTree() && RootBlack(arena)
      ensures res.second != Null <==> !HasEquivalent(rank, Contents(), key)
      ensures res.second != Null ==> res.first == Null && IsSlot(res.second, key, false)
      ensures res.second == Null ==>
                && res.first in shape.ix && rank(KeyOf(arena, res.first)) == rank(key)
                && res.first == At(shape, LowerBoundIndex(rank, Contents(), key))
    {
      ghost var ks := Contents();
      ghost var g := UpperBoundIndex(rank, ks, key);
      var cur, p, comp := InsertDescent(key);
      if comp && (p == Header || p == arena[Header].left) {
        if p != Header {
          assert shape.order[0] in shape.ix && shape.ix[shape.order[0]] == 0;
        }
        UpperBoundFits(rank, ks, key);
        assert SlotFree(p, key, false) && SlotIndex(p, key, false) == g;
        res := InsertPos(cur, p);
        return;
      }
      var i := LastBelow(p, comp);
      assert ks[g - 1] == arena[i].key;
      if rank(arena[i].key) < rank(key) {
        UpperBoundFits(rank, ks, key);
        assert SlotFree(p, key, false) && SlotIndex(p, key, false) == g;
        res := InsertPos(cur, p);
      } else {
        EquivalentBelowUpper(i, key);
        res := InsertPos(i, Null);
      }
    }

    /** The node just before the upper bound of `key`, when not below it, holds the equivalent key. */
    lemma EquivalentBelowUpper(i: int, key: int)
      requires SearchTree()
      requires var g := UpperBoundIndex(rank, Contents(), key);
               0 < g <= |shape.order| && i == shape.order[g - 1] && !(rank(KeyOf(arena, i)) < rank(key))
      ensures i in shape.ix && rank(KeyOf(arena, i)) == rank(key) && HasEquivalent(rank, Contents(), key)
      ensures i == At(shape, LowerBoundIndex(rank, Contents(), key))
    {
      var ks := Contents();
      var g := UpperBoundIndex(rank, ks, key);
      assert ks[g - 1] == KeyOf(arena, i);
      UpperBoundEquivalent(rank, ks, key);
    }

    /**
     * `insert_unique(val)`: insert `key` unless an equivalent key is present; the
     * position is looked up before the node is built. Returns the node holding the
     * key (new or already present) and whether it was inserted.
     */
    method InsertUnique(key: int) returns (r: Inserted)
      requires Valid()
      modifies this
      ensures Valid() && rank == old(rank)
      ensures Contents() == SortedInsert(rank, old(Contents()), key)
      ensures r.inserted <==> !HasEquivalent(rank, old(Contents()), key)
      ensures r.it in shape.ix && rank(KeyOf(arena, r.it)) == rank(key)
      ensures r.inserted ==> KeyOf(arena, r.it) == key && size == old(size) + 1
      ensures r.inserted ==> var k := LowerBoundIndex(rank, old(Contents()), key);
                             shape.order == old(shape.order)[..k] + [r.it] + old(shape.order)[k..]
      ensures !r.inserted ==> arena == old(arena) && shape == old(shape) && size == old(size) && next == old(next)
      ensures KeepsNodes(old(arena), old(shape), arena, shape)
    {
      var res := GetInsertUniquePos(key);
      if res.second != Null {
        var z := ConstructNode(key);
        ghost var a1, s1 := arena, shape;
        var it := InsertAtPos(res.second, z, res.first != Null);
        KeepsNodesTrans(old(arena), old(shape), a1, s1, arena, shape);
        r := Inserted(it, true);
      } else {
        SortedInsertPresent(rank, Contents(), key);
        r := Inserted(res.first, false);
      }
    }

    /**
     * `emplace_unique(args)`: build the node first, then look for its position; a
     * duplicate node is deleted again. The handle it took is not reused.
     */
    method EmplaceUnique(key: int) returns (r: Inserted)
      requires Valid()
      modifies this
      ensures Valid() && rank == old(rank) && next == old(next) + 1
      ensures Contents() == SortedInsert(rank, old(Contents()), key)
      ensures r.inserted <==> !HasEquivalent(rank, old(Contents()), key)
      ensures r.it in shape.ix && rank(KeyOf(arena, r.it)) == rank(key)
      ensures r.inserted ==> KeyOf(arena, r.it) == key && size == old(size) + 1
      ensures r.inserted ==> var k := LowerBoundIndex(rank, old(Contents()), key);
                             shape.order == old(shape.order)[..k] + [r.it] + old(shape.order)[k..]
      ensures !r.inserted ==> arena == old(arena) && shape == old(shape) && size == old(size)
      ensures KeepsNodes(old(arena), old(shape), arena, shape)
    {
      var z := ConstructNode(key);
      ghost var a1, s1 := arena, shape;
      var res := GetInsertUniquePos(arena[z].key);
      r := LinkOrDrop(z, res);
      KeepsNodesTrans(old(arena), old(shape), a1, s1, arena, shape);
      ReleaseAllocated(old(arena), z, a1[z]);
    }

    /**
     * The common end of `emplace_unique` and `emplace_hint`: link the constructed
     * node z at the position found for its key, or, when an equivalent key is
     * present, delete z again and return the node holding that key.
     */
    method LinkOrDrop(z: int, res: InsertPos) returns (r: Inserted)
      requires ValidWith(z) && arena[z].left == Null && arena[z].right == Null && arena[z].color == Red
      requires UniquePos(res, arena[z].key)
      modifies this
      ensures Valid() && rank == old(rank) && next == old(next)
      ensures var key := old(arena[z].key);
              && Contents() == SortedInsert(rank, old(Contents()), key)
              && (r.inserted <==> !HasEquivalent(rank, old(Contents()), key))
              && r.it in shape.ix && rank(KeyOf(arena, r.it)) == rank(key)
              && (r.inserted ==> KeyOf(arena, r.it) == key && size == old(size) + 1)
              && (r.inserted ==> var k := LowerBoundIndex(rank, old(Contents()), key);
                                 shape.order == old(shape.order)[..k] + [r.it] + old(shape.order)[k..])
      ensures !r.inserted ==> arena == old(arena) - {z} && shape == old(shape) && size == old(size)
      ensures KeepsNodes(old(arena), old(shape), arena, shape)
    {
      if res.second != Null {
        var it := InsertAtPos(res.second, z, res.first != Null);
        r := Inserted(it, true);
      } else {
        ghost var key := arena[z].key;
        RemoveFreshOK(arena, shape, z);
        DeleteNode(z);
        SortedInsertPresent(rank, Contents(), key);
        r := Inserted(res.first, false);
      }
    }

    /**
     * `insert_unique(first, last)` (and the `initializer_list` overload, which passes
     * its range on): `insert_unique` of each key in turn, counting down the distance.
     */
    method InsertRange(keys: seq<int>)
      requires Valid()
      modifies this
      ensures Valid() && rank == old(rank)
      ensures Contents() == InsertAll(rank, old(Contents()), keys)
      ensures KeepsNodes(old(arena), old(shape), arena, shape)
    {
      ghost var a0, s0 := arena, shape;
      var num := |keys|;
      var i := 0;
      while num != 0
        invariant 0 <= i <= |keys| && num == |keys| - i
        invariant Valid() && rank == old(rank)
        invariant Contents() == InsertAll(rank, old(Contents()), keys[..i])
        invariant KeepsNodes(a0, s0, arena, shape)
      {
        InsertKeeping(keys[i], a0, s0);
        InsertAllSnoc(rank, old(Contents()), keys[..i], keys[i]);
        assert keys[..i + 1] == keys[..i] + [keys[i]];
        i := i + 1;
        num := num - 1;
      }
      assert keys[..i] == keys;
    }

    /** One step of `insert_unique(first, last)`: `insert_unique(key)`, keeping the nodes of an earlier state. */
    method InsertKeeping(key: int, ghost a0: Arena, ghost s0: Shape)
      requires Valid() && KeepsNodes(a0, s0, arena, shape)
      modifies this
      ensures Valid() && rank == old(rank)
      ensures Contents() == SortedInsert(rank, old(Contents()), key)
      ensures KeepsNodes(a0, s0, arena, shape)
    {
      ghost var a1, s1 := arena, shape;
      var _ := InsertUnique(key);
      KeepsNodesTrans(a0, s0, a1, s1, arena, shape);
    }

    /**
     * What the insertion-position searches promise about `res` for `key`: a slot for
     * `insert_at_pos(res.second, _, res.first != nullptr)` exactly when no equivalent
     * key is present, and otherwise the node holding the equivalent key.
     */
    ghost predicate UniquePos(res: InsertPos, key: int)
      reads this
    {
      && (res.second != Null <==> !HasEquivalent(rank, Contents(), key))
      && (res.second != Null ==> IsSlot(res.second, key, res.first != Null))
      && (res.second == Null ==>
            && res.first in shape.ix && rank(KeyOf(arena, res.first)) == rank(key)
            && res.first == At(shape, LowerBoundIndex(rank, Contents(), key)))
    }

    /** A free link where the key fits is a position no equivalent key blocks. */
    lemma SlotIsUniquePos(first: int, p: int, key: int, k: int)
      requires Increasing(rank, Contents()) && p != Null
      requires SlotFree(p, key, first != Null) && k == SlotIndex(p, key, first != Null)
      requires Fits(rank, Contents(), k, key)
      ensures UniquePos(InsertPos(first, p), key)
    {
      FitsIsSortedInsert(rank, Contents(), k, key);
    }

    /** Left of the minimum, for a key below every key. */
    lemma BeforeMinSlot(key: int)
      requires SearchTree() && |shape.order| > 0 && arena[Header].left in arena
      requires rank(key) < rank(arena[arena[Header].left].key)
      ensures UniquePos(InsertPos(arena[Header].left, arena[Header].left), key)
    {
      var m := arena[Header].left;
      assert shape.order[0] in shape.ix && shape.ix[shape.order[0]] == 0;
      assert LocalOK(arena, shape, m);
      assert Contents()[0] == arena[m].key;
      FitsBetween(rank, Contents(), 0, key);
      assert arena[m].left != Null ==> LocalOK(arena, shape, arena[m].left);
      SlotIsUniquePos(m, m, key, 0);
    }

    /** Right of the maximum, for a key above every key. */
    lemma AfterMaxSlot(key: int)
      requires SearchTree() && |shape.order| > 0 && arena[Header].right in arena
      requires rank(arena[arena[Header].right].key) < rank(key)
      ensures UniquePos(InsertPos(Null, arena[Header].right), key)
    {
      var m := arena[Header].right;
      var n := |shape.order|;
      assert shape.order[n - 1] in shape.ix && shape.ix[shape.order[n - 1]] == n - 1;
      assert LocalOK(arena, shape, m);
      assert Contents()[n - 1] == arena[m].key;
      FitsBetween(rank, Contents(), n, key);
      assert arena[m].right != Null ==> LocalOK(arena, shape, arena[m].right);
      assert !InsertLeft(m, key, false);
      SlotIsUniquePos(Null, m, key, n);
    }

    /**
     * Between neighbours x and y = the node after x, for a key strictly between their
     * keys: right of x when that link is free, else left of y, which is then free.
     */
    lemma BetweenSlot(x: int, y: int, key: int)
      requires SearchTree() && x in shape.ix && y in shape.ix && x in arena && y in arena
      requires shape.ix[y] == shape.ix[x] + 1
      requires rank(arena[x].key) < rank(key) < rank(arena[y].key)
      requires arena[x].right == Null || arena[y].left == Null
      ensures arena[x].right == Null ==> UniquePos(InsertPos(Null, x), key)
      ensures arena[y].left == Null ==> UniquePos(InsertPos(y, y), key)
    {
      var k := shape.ix[y];
      assert LocalOK(arena, shape, x) && LocalOK(arena, shape, y);
      assert Contents()[k - 1] == arena[x].key && Contents()[k] == arena[y].key;
      FitsBetween(rank, Contents(), k, key);
      if arena[x].right == Null {
        assert !InsertLeft(x, key, false);
        SlotIsUniquePos(Null, x, key, k);
      }
      if arena[y].left == Null {
        SlotIsUniquePos(y, y, key, k);
      }
    }

    /**
     * `get_emplace_hint_unique_pos` for a key that compares less than the hint's:
     * the left of the minimum, or between the hint's predecessor and the hint, or
     * else the search from the root.
     */
    method HintPosBefore(hint: int, key: int) returns (res: InsertPos)
      requires SearchTree() && RootBlack(arena) && hint in shape.ix && hint in arena
      requires rank(key) < rank(arena[hint].key)
      ensures UniquePos(res, key)
    {
      assert LocalOK(arena, shape, hint);
      assert shape.order[0] in shape.ix && shape.ix[shape.order[0]] == 0;
      if hint == arena[Header].left {
        BeforeMinSlot(key);
        res := InsertPos(arena[Header].left, arena[Header].left);
        return;
      }
      assert shape.order[shape.ix[hint]] == hint && shape.ix[hint] > 0;
      var before := Decrement(hint);
      assert before == shape.order[shape.ix[hint] - 1];
      assert LocalOK(arena, shape, before);
      if rank(arena[before].key) < rank(key) {
        BetweenSlot(before, hint, key);
        if arena[before].right == Null {
          res := InsertPos(Null, before);
        } else {
          res := InsertPos(hint, hint);
        }
      } else {
        res := GetInsertUniquePos(key);
      }
    }

    /**
     * `get_emplace_hint_unique_pos` for a key the hint's key compares less than:
     * the right of the maximum, or between the hint and its successor, or else the
     * search from the root.
     */
    method HintPosAfter(hint: int, key: int) returns (res: InsertPos)
      requires SearchTree() && RootBlack(arena) && hint in shape.ix && hint in arena
      requires rank(arena[hint].key) < rank(key)
      ensures UniquePos(res, key)
    {
      assert LocalOK(arena, shape, hint);
      ghost var n := |shape.order|;
      assert shape.order[n - 1] in shape.ix && shape.ix[shape.order[n - 1]] == n - 1;
      if hint == arena[Header].right {
        AfterMaxSlot(key);
        res := InsertPos(Null, arena[Header].right);
        return;
      }
      assert shape.order[shape.ix[hint]] == hint && shape.ix[hint] < n - 1;
      var after := Increment(hint);
      assert after == shape.order[shape.ix[hint] + 1];
      assert LocalOK(arena, shape, after);
      if rank(key) < rank(arena[after].key) {
        BetweenSlot(hint, after, key);
        if arena[after].left == Null {
          res := InsertPos(after, after);
        } else {
          res := InsertPos(Null, hint);
        }
      } else {
        res := GetInsertUniquePos(key);
      }
    }

    /**
     * `get_emplace_hint_unique_pos(hint, key)`: try the slots next to the hint first
     * (after the maximum for `end()`), fall back to the search from the root, and
     * report the hint itself when its key is equivalent.
     */
    method GetEmplaceHintUniquePos(hint: int, key: int) returns (res: InsertPos)
      requires SearchTree() && RootBlack(arena) && size == |shape.order|
      requires hint == Header || hint in shape.ix
      ensures UniquePos(res, key)
    {
      if hint == Header {
        if size != 0 {
          assert shape.order[|shape.order| - 1] in shape.ix && LocalOK(arena, shape, shape.order[|shape.order| - 1]);
        }
        if size != 0 && rank(arena[arena[Header].right].key) < rank(key) {
          AfterMaxSlot(key);
          res := InsertPos(Null, arena[Header].right);
          return;
        }
        res := GetInsertUniquePos(key);
        return;
      }
      assert LocalOK(arena, shape, hint);
      if rank(key) < rank(arena[hint].key) {
        res := HintPosBefore(hint, key);
      } else if rank(arena[hint].key) < rank(key) {
        res := HintPosAfter(hint, key);
      } else {
        assert Contents()[shape.ix[hint]] == arena[hint].key;
        EquivalentIsLowerBound(rank, Contents(), key, shape.ix[hint]);
        res := InsertPos(hint, Null);
      }
    }

    /**
     * `emplace_hint(hint, args)`: build the node, find its position near the hint,
     * and link it there, or delete it again when an equivalent key is present.
     * Returns the node holding the key.
     */
    method EmplaceHint(hint: int, key: int) returns (it: int)
      requires Valid() && (hint == Header || hint in shape.ix)
      modifies this
      ensures Valid() && rank == old(rank) && next == old(next) + 1
      ensures Contents() == SortedInsert(rank, old(Contents()), key)
      ensures it in shape.ix && rank(KeyOf(arena, it)) == rank(key)
      ensures !HasEquivalent(rank, old(Contents()), key) ==> KeyOf(arena, it) == key && size == old(size) + 1
      ensures !HasEquivalent(rank, old(Contents()), key) ==> var k := LowerBoundIndex(rank, old(Contents()), key);
                shape.order == old(shape.order)[..k] + [it] + old(shape.order)[k..]
      ensures HasEquivalent(rank, old(Contents()), key) ==> arena == old(arena) && shape == old(shape) && size == old(size)
      ensures KeepsNodes(old(arena), old(shape), arena, shape)
    {
      var z := ConstructNode(key);
      ghost var a1, s1 := arena, shape;
      var res := GetEmplaceHintUniquePos(hint, arena[z].key);
      var r := LinkOrDrop(z, res);
      KeepsNodesTrans(old(arena), old(shape), a1, s1, arena, shape);
      ReleaseAllocated(old(arena), z, a1[z]);
      it := r.it;
    }

    // -------------------------------------------------------------------------
    // Erasure
    // -------------------------------------------------------------------------

    /**
     * The links the one-child branch of `delete_fix` writes (n has at most the child
     * c, `Null` or not): c takes n's place under n's parent p or as the root, and a
     * cached minimum or maximum equal to n moves to c, or to p when c is `Null`.
     */
    method UnlinkLinks(n: int, c: int) returns (p: int)
      requires Header in arena && n in arena && arena[n].parent in arena
      requires c == OnlyChild(arena, n) && (c == Null || c in arena)
      modifies this
      ensures p == old(arena[n].parent) && arena == UnlinkArena(old(arena), n)
      ensures shape == old(shape) && size == old(size) && rank == old(rank) && next == old(next)
    {
      p := arena[n].parent;
      if c != Null {
        arena := arena[c := arena[c].(parent := p)];
      }
      if arena[Header].parent == n {
        arena := arena[Header := arena[Header].(parent := c)];
      } else if arena[p].left == n {
        arena := arena[p := arena[p].(left := c)];
      } else {
        arena := arena[p := arena[p].(right := c)];
      }
      if arena[Header].left == n {
        arena := arena[Header := arena[Header].(left := if c != Null then c else p)];
      }
      if arena[Header].right == n {
        arena := arena[Header := arena[Header].(right := if c != Null then c else p)];
      }
    }

    /**
     * The one-child branch of `delete_fix` on a red-black tree: n leaves the in-order
     * sequence and keeps its colour; a red n leaves a red-black tree, a black one
     * leaves its child c one black short under n's parent p.
     */
    method EraseUnlink(n: int, c: int) returns (p: int)
      requires WF(arena, shape) && RB(arena, shape) && n in shape.ix && LocalOK(arena, shape, n)
      requires (arena[n].left == Null || arena[n].right == Null) && c == OnlyChild(arena, n)
      modifies this
      ensures RemovedAt(old(arena), old(shape), arena, shape, n)
      ensures arena[n].color == old(arena[n].color)
      ensures arena[n].color == Red ==> RB(arena, shape)
      ensures arena[n].color == Black ==> DelFixUp(arena, shape, c, p)
      ensures size == old(size) && rank == old(rank) && next == old(next)
    {
      UnlinkOK(arena, shape, n);
      p := UnlinkLinks(n, c);
      shape := UnlinkShape(shape, n);
    }

    /**
     * The first links the two-children branch of `delete_fix` writes: the successor
     * y (with no left child, and r its only possible child) takes n's left subtree
     * and, unless it is n's right child, n's right subtree, and r hangs where y hung.
     */
    method SpliceLinks(n: int, y: int, r: int) returns (rp: int)
      requires SpliceArena.requires(arena, n, y) && TransplantParent.requires(arena, n, y)
      requires r == arena[y].right && y != arena[n].left && (arena[y].parent == n ==> y == arena[n].right)
      modifies this
      ensures rp == TransplantParent(old(arena), n, y) && arena == SpliceArena(old(arena), n, y)
      ensures shape == old(shape) && size == old(size) && rank == old(rank) && next == old(next)
    {
      var l, rr := arena[n].left, arena[n].right;
      arena := arena[y := arena[y].(left := l)];
      arena := arena[l := arena[l].(parent := y)];
      if y != rr {
        rp := arena[y].parent;
        if r != Null {
          arena := arena[r := arena[r].(parent := rp)];
        }
        arena := arena[rp := arena[rp].(left := r)];
        arena := arena[y := arena[y].(right := rr)];
        arena := arena[rr := arena[rr].(parent := y)];
      } else {
        rp := y;
      }
    }

    /** The rest of the branch: y takes n's place under n's parent, and y and n swap colours. */
    method RelinkLinks(n: int, y: int)
      requires RelinkArena.requires(arena, n, y)
      modifies this
      ensures arena == RelinkArena(old(arena), n, y)
      ensures shape == old(shape) && size == old(size) && rank == old(rank) && next == old(next)
    {
      var p := arena[n].parent;
      if arena[Header].parent == n {
        arena := arena[Header := arena[Header].(parent := y)];
      } else if arena[p].left == n {
        arena := arena[p := arena[p].(left := y)];
      } else {
        arena := arena[p := arena[p].(right := y)];
      }
      arena := arena[y := arena[y].(parent := p)];
      var cy, cn := arena[y].color, arena[n].color;
      arena := arena[y := arena[y].(color := cn)];
      arena := arena[n := arena[n].(color := cy)];
    }

    /** All the links the two-children branch of `delete_fix` writes, in its order. */
    method TransplantLinks(n: int, y: int, r: int) returns (rp: int)
      requires TransplantArena.requires(arena, n, y) && TransplantParent.requires(arena, n, y)
      requires r == arena[y].right && y != arena[n].left
      modifies this
      ensures rp == TransplantParent(old(arena), n, y) && arena == TransplantArena(old(arena), n, y)
      ensures shape == old(shape) && size == old(size) && rank == old(rank) && next == old(next)
    {
      rp := SpliceLinks(n, y, r);
      RelinkLinks(n, y);
    }

    /**
     * The two-children branch of `delete_fix` on a red-black tree: n leaves the
     * in-order sequence with its successor y's colour, which is the colour removed:
     * red leaves a red-black tree, black leaves y's child r one black short under
     * `rp`.
     */
    method EraseTransplant(n: int, y: int, r: int) returns (rp: int)
      requires WF(arena, shape) && RB(arena, shape) && n in shape.ix && LocalOK(arena, shape, n)
      requires arena[n].left != Null && arena[n].right != Null && y == At(shape, shape.ix[n] + 1)
      requires y in arena && r == OnlyChild(arena, y)
      modifies this
      ensures RemovedAt(old(arena), old(shape), arena, shape, n)
      ensures arena[n].color == old(arena[y].color)
      ensures arena[n].color == Red ==> RB(arena, shape)
      ensures arena[n].color == Black ==> DelFixUp(arena, shape, r, rp)
      ensures size == old(size) && rank == old(rank) && next == old(next)
    {
      TransplantOK(arena, shape, n);
      rp := TransplantLinks(n, y, r);
      shape := TransplantShape(shape, n, y);
    }

    /**
     * Case 1 of the `delete_fix` loop (x's sibling w is red): w turns black, xp red,
     * and a rotation at xp gives x a black sibling, which is returned. x is still one
     * black short under xp, which is now red and has w for its parent.
     */
    method DeleteFixRedSibling(x: int, xp: int, w: int) returns (sibling: int)
      requires DelFixUp(arena, shape, x, xp) && DelFamily(arena, shape, x, xp, w) && IsRed(arena, w)
      modifies this
      ensures DelFixUp(arena, shape, x, xp) && xp != Header && xp in arena && !IsRed(arena, x) && IsRed(arena, xp)
      ensures sibling == Sibling(arena, xp, x) && !IsRed(arena, sibling)
      ensures arena[xp].parent == w && w != Header && Height(shape, w) == old(Height(shape, xp))
      ensures Keys(arena, shape) == old(Keys(arena, shape))
      ensures shape.order == old(shape.order) && shape.ix == old(shape.ix) && arena.Keys == old(arena.Keys)
      ensures size == old(size) && rank == old(rank) && next == old(next)
    {
      if x == arena[xp].left {
        sibling := DeleteFixRedSiblingLeft(x, xp, w);
      } else {
        sibling := DeleteFixRedSiblingRight(x, xp, w);
      }
    }

    /** Case 1 with x on the left: repaint, then `rotate_left(xp)`. */
    method DeleteFixRedSiblingLeft(x: int, xp: int, w: int) returns (sibling: int)
      requires DelFixUp(arena, shape, x, xp) && DelFamily(arena, shape, x, xp, w) && IsRed(arena, w)
      requires arena[xp].left == x
      modifies this
      ensures DelFixUp(arena, shape, x, xp) && xp != Header && xp in arena && !IsRed(arena, x) && IsRed(arena, xp)
      ensures sibling == Sibling(arena, xp, x) && !IsRed(arena, sibling)
      ensures arena[xp].parent == w && w != Header && Height(shape, w) == old(Height(shape, xp))
      ensures Keys(arena, shape) == old(Keys(arena, shape))
      ensures shape.order == old(shape.order) && shape.ix == old(shape.ix) && arena.Keys == old(arena.Keys)
      ensures size == old(size) && rank == old(rank) && next == old(next)
    {
      RedSiblingLeftOK(arena, shape, x, xp, w);
      arena := arena[w := arena[w].(color := Black)];
      arena := arena[xp := arena[xp].(color := Red)];
      ghost var a1 := arena;
      assert a1 == Paint(Paint(old(arena), w, Black), xp, Red);
      shape := AddBh(AddBh(shape, w, 1), xp, -1);
      ghost var s1 := shape;
      RotateLeft(xp);
      assert arena == RotateLeftArena(a1, xp) && shape == RotateLeftShape(a1, s1, xp);
      sibling := arena[xp].right;
    }

    /** Case 1 with x on the right: repaint, then `rotate_right(xp)`. */
    method DeleteFixRedSiblingRight(x: int, xp: int, w: int) returns (sibling: int)
      requires DelFixUp(arena, shape, x, xp) && DelFamily(arena, shape, x, xp, w) && IsRed(arena, w)
      requires arena[xp].left != x
      modifies this
      ensures DelFixUp(arena, shape, x, xp) && xp != Header && xp in arena && !IsRed(arena, x) && IsRed(arena, xp)
      ensures sibling == Sibling(arena, xp, x) && !IsRed(arena, sibling)
      ensures arena[xp].parent == w && w != Header && Height(shape, w) == old(Height(shape, xp))
      ensures Keys(arena, shape) == old(Keys(arena, shape))
      ensures shape.order == old(shape.order) && shape.ix == old(shape.ix) && arena.Keys == old(arena.Keys)
      ensures size == old(size) && rank == old(rank) && next == old(next)
    {
      RedSiblingRightOK(arena, shape, x, xp, w);
      arena := arena[w := arena[w].(color := Black)];
      arena := arena[xp := arena[xp].(color := Red)];
      ghost var a1 := arena;
      assert a1 == Paint(Paint(old(arena), w, Black), xp, Red);
      shape := AddBh(AddBh(shape, w, 1), xp, -1);
      ghost var s1 := shape;
      RotateRight(xp);
      assert arena == RotateRightArena(a1, xp) && shape == RotateRightShape(a1, s1, xp);
      sibling := arena[xp].left;
    }

    /**
     * Case 2 (the sibling w and both its children are black): w turns red, and the
     * deficit moves up from x to xp.
     */
    method DeleteFixBlackNephews(x: int, xp: int, w: int)
      requires DelFixUp(arena, shape, x, xp) && DelFamily(arena, shape, x, xp, w)
      requires !IsRed(arena, w) && !IsRed(arena, arena[w].left) && !IsRed(arena, arena[w].right)
      modifies this
      ensures xp in arena && DelFixUp(arena, shape, xp, arena[xp].parent)
      ensures arena[xp] == old(arena[xp]) && shape.lo == old(shape.lo) && shape.hi == old(shape.hi)
      ensures Keys(arena, shape) == old(Keys(arena, shape))
      ensures shape.order == old(shape.order) && shape.ix == old(shape.ix) && arena.Keys == old(arena.Keys)
      ensures size == old(size) && rank == old(rank) && next == old(next)
    {
      BlackNephewsOK(arena, shape, x, xp, w);
      arena := arena[w := arena[w].(color := Red)];
      shape := AddBh(AddBh(shape, w, -1), xp, -1);
    }

    /**
     * Case 3 with x on the left (the sibling w and its right child are black, its
     * left child red): the left child turns black, w red, and `rotate_right(w)`
     * lifts the former into w's place as x's new sibling, whose right child is red.
     */
    method DeleteFixInnerLeft(x: int, xp: int, w: int) returns (sibling: int)
      requires DelFixUp(arena, shape, x, xp) && DelFamily(arena, shape, x, xp, w) && arena[xp].left == x
      requires !IsRed(arena, w) && IsRed(arena, arena[w].left) && !IsRed(arena, arena[w].right)
      modifies this
      ensures DelFixUp(arena, shape, x, xp) && xp != Header && !IsRed(arena, x) && arena[xp].left == x
      ensures sibling == Sibling(arena, xp, x) && sibling in arena && !IsRed(arena, sibling) && IsRed(arena, arena[sibling].right)
      ensures Keys(arena, shape) == old(Keys(arena, shape))
      ensures shape.order == old(shape.order) && shape.ix == old(shape.ix) && arena.Keys == old(arena.Keys)
      ensures size == old(size) && rank == old(rank) && next == old(next)
    {
      InnerNephewLeftOK(arena, shape, x, xp, w);
      var wl := arena[w].left;
      arena := arena[wl := arena[wl].(color := Black)];
      arena := arena[w := arena[w].(color := Red)];
      assert arena == Paint(Paint(old(arena), wl, Black), w, Red);
      shape := AddBh(AddBh(shape, wl, 1), w, -1);
      RotateRight(w);
      sibling := arena[xp].right;
    }

    /** The mirror image: case 3 with x on the right, ending with `rotate_left(w)`. */
    method DeleteFixInnerRight(x: int, xp: int, w: int) returns (sibling: int)
      requires DelFixUp(arena, shape, x, xp) && DelFamily(arena, shape, x, xp, w) && arena[xp].left != x
      requires !IsRed(arena, w) && IsRed(arena, arena[w].right) && !IsRed(arena, arena[w].left)
      modifies this
      ensures DelFixUp(arena, shape, x, xp) && xp != Header && !IsRed(arena, x) && arena[xp].left != x
      ensures sibling == Sibling(arena, xp, x) && sibling in arena && !IsRed(arena, sibling) && IsRed(arena, arena[sibling].left)
      ensures Keys(arena, shape) == old(Keys(arena, shape))
      ensures shape.order == old(shape.order) && shape.ix == old(shape.ix) && arena.Keys == old(arena.Keys)
      ensures size == old(size) && rank == old(rank) && next == old(next)
    {
      InnerNephewRightOK(arena, shape, x, xp, w);
      var wr := arena[w].right;
      arena := arena[wr := arena[wr].(color := Black)];
      arena := arena[w := arena[w].(color := Red)];
      assert arena == Paint(Paint(old(arena), wr, Black), w, Red);
      shape := AddBh(AddBh(shape, wr, 1), w, -1);
      RotateLeft(w);
      sibling := arena[xp].left;
    }

    /**
     * Case 4 with x on the left (the sibling w is black, its right child red): w
     * takes xp's colour, xp and w's right child turn black, and `rotate_left(xp)`
     * ends the loop with a red-black tree in which x is unchanged.
     */
    method DeleteFixOuterLeft(x: int, xp: int, w: int)
      requires DelFixUp(arena, shape, x, xp) && DelFamily(arena, shape, x, xp, w) && arena[xp].left == x
      requires !IsRed(arena, w) && IsRed(arena, arena[w].right)
      modifies this
      ensures WF(arena, shape) && RB(arena, shape) && !IsRed(arena, x) && (x != Null ==> x in arena)
      ensures Keys(arena, shape) == old(Keys(arena, shape))
      ensures shape.order == old(shape.order) && shape.ix == old(shape.ix) && arena.Keys == old(arena.Keys)
      ensures size == old(size) && rank == old(rank) && next == old(next)
    {
      OuterNephewLeftOK(arena, shape, x, xp, w);
      shape := OuterBh(shape, xp, w, arena[w].right);
      arena := arena[w := arena[w].(color := arena[xp].color)];
      arena := arena[xp := arena[xp].(color := Black)];
      if arena[w].right != Null {
        arena := arena[arena[w].right := arena[arena[w].right].(color := Black)];
      }
      RotateLeft(xp);
    }

    /** The mirror image: case 4 with x on the right, ending with `rotate_right(xp)`. */
    method DeleteFixOuterRight(x: int, xp: int, w: int)
      requires DelFixUp(arena, shape, x, xp) && DelFamily(arena, shape, x, xp, w) && arena[xp].left != x
      requires !IsRed(arena, w) && IsRed(arena, arena[w].left)
      modifies this
      ensures WF(arena, shape) && RB(arena, shape) && !IsRed(arena, x) && (x != Null ==> x in arena)
      ensures Keys(arena, shape) == old(Keys(arena, shape))
      ensures shape.order == old(shape.order) && shape.ix == old(shape.ix) && arena.Keys == old(arena.Keys)
      ensures size == old(size) && rank == old(rank) && next == old(next)
    {
      OuterNephewRightOK(arena, shape, x, xp, w);
      shape := OuterBh(shape, xp, w, arena[w].left);
      arena := arena[w := arena[w].(color := arena[xp].color)];
      arena := arena[xp := arena[xp].(color := Black)];
      if arena[w].left != Null {
        arena := arena[arena[w].left := arena[arena[w].left].(color := Black)];
      }
      RotateRight(xp);
    }

    /**
     * Cases 3 and 4 (a child of the black sibling w is red): case 3 first when only
     * the inner one is, then case 4, which leaves a red-black tree.
     */
    method DeleteFixRotate(x: int, xp: int, w: int)
      requires DelFixUp(arena, shape, x, xp) && DelFamily(arena, shape, x, xp, w) && !IsRed(arena, w)
      requires IsRed(arena, arena[w].left) || IsRed(arena, arena[w].right)
      modifies this
      ensures WF(arena, shape) && RB(arena, shape) && !IsRed(arena, x) && (x != Null ==> x in arena)
      ensures Keys(arena, shape) == old(Keys(arena, shape))
      ensures shape.order == old(shape.order) && shape.ix == old(shape.ix) && arena.Keys == old(arena.Keys)
      ensures size == old(size) && rank == old(rank) && next == old(next)
    {
      var sibling := w;
      if x == arena[xp].left {
        if arena[w].right == Null || arena[arena[w].right].color != Red {
          sibling := DeleteFixInnerLeft(x, xp, w);
          DelFamilyOf(arena, shape, x, xp);
        }
        DeleteFixOuterLeft(x, xp, sibling);
      } else {
        if arena[w].left == Null || arena[arena[w].left].color != Red {
          sibling := DeleteFixInnerRight(x, xp, w);
          DelFamilyOf(arena, shape, x, xp);
        }
        DeleteFixOuterRight(x, xp, sibling);
      }
    }

    /**
     * One iteration of the `delete_fix` loop, x being neither the root nor red: case
     * 1 when the sibling is red, then case 2, which moves the deficit up a level, or
     * cases 3 and 4, which end the loop (`done`) with a red-black tree.
     */
    method DeleteFixStep(x0: int, xp0: int) returns (x: int, xp: int, done: bool)
      requires DelFixUp(arena, shape, x0, xp0) && Root(arena) != x0 && !IsRed(arena, x0)
      modifies this
      ensures done ==> WF(arena, shape) && RB(arena, shape) && !IsRed(arena, x) && (x != Null ==> x in arena)
      ensures !done ==> DelFixUp(arena, shape, x, xp)
      ensures !done ==> 0 <= LoopMeasure(arena, shape, x, xp) < old(LoopMeasure(arena, shape, x0, xp0))
      ensures Keys(arena, shape) == old(Keys(arena, shape))
      ensures shape.order == old(shape.order) && shape.ix == old(shape.ix) && arena.Keys == old(arena.Keys)
      ensures size == old(size) && rank == old(rank) && next == old(next)
    {
      DelFamilyOf(arena, shape, x0, xp0);
      var sibling := if x0 == arena[xp0].left then arena[xp0].right else arena[xp0].left;
      if arena[sibling].color == Red {
        sibling := DeleteFixRedSibling(x0, xp0, sibling);
        DelFamilyOf(arena, shape, x0, xp0);
      }
      x, xp, done := DeleteFixBlackSibling(x0, xp0, sibling);
    }

    /**
     * The rest of an iteration, once x's sibling is black: case 2 (both its
     * children black) moves x up to xp, inside xp's parent's larger subtree; cases
     * 3 and 4 end the loop.
     */
    method DeleteFixBlackSibling(x0: int, xp0: int, sibling: int) returns (x: int, xp: int, done: bool)
      requires DelFixUp(arena, shape, x0, xp0) && DelFamily(arena, shape, x0, xp0, sibling) && !IsRed(arena, sibling)
      modifies this
      ensures done ==> WF(arena, shape) && RB(arena, shape) && !IsRed(arena, x) && (x != Null ==> x in arena)
      ensures !done ==> DelFixUp(arena, shape, x, xp) && x == xp0 && xp == old(arena[xp0].parent)
      ensures !done ==> IsRed(arena, x) == old(IsRed(arena, xp0)) && shape.lo == old(shape.lo) && shape.hi == old(shape.hi)
      ensures !done && xp != Header ==> Height(shape, x) < Height(shape, xp) <= |shape.order|
      ensures Keys(arena, shape) == old(Keys(arena, shape))
      ensures shape.order == old(shape.order) && shape.ix == old(shape.ix) && arena.Keys == old(arena.Keys)
      ensures size == old(size) && rank == old(rank) && next == old(next)
    {
      x, xp := x0, xp0;
      if (arena[sibling].left == Null || arena[arena[sibling].left].color != Red) &&
         (arena[sibling].right == Null || arena[arena[sibling].right].color != Red) {
        DeleteFixBlackNephews(x, xp, sibling);
        x := xp;
        xp := arena[xp].parent;
        assert LocalOK(arena, shape, x);
        if xp != Header {
          ParentInterval(arena, shape, x);
        }
        done := false;
      } else {
        DeleteFixRotate(x, xp, sibling);
        done := true;
      }
    }

    /**
     * The loop of `delete_fix`, entered with x one black short under xp. It ends
     * after case 4 with a red-black tree, or once x is the root or red, which
     * painting it black repairs.
     */
    method DeleteFixLoop(x0: int, xp0: int) returns (x: int, xp: int, ghost done: bool)
      requires DelFixUp(arena, shape, x0, xp0)
      modifies this
      ensures done ==> WF(arena, shape) && RB(arena, shape) && !IsRed(arena, x) && (x != Null ==> x in arena)
      ensures !done ==> DelFixUp(arena, shape, x, xp) && (Root(arena) == x || IsRed(arena, x))
      ensures Keys(arena, shape) == old(Keys(arena, shape))
      ensures shape.order == old(shape.order) && shape.ix == old(shape.ix) && arena.Keys == old(arena.Keys)
      ensures size == old(size) && rank == old(rank) && next == old(next)
    {
      x, xp := x0, xp0;
      done := false;
      while arena[Header].parent != x && (x == Null || arena[x].color != Red)
        invariant DelFixUp(arena, shape, x, xp)
        invariant Keys(arena, shape) == old(Keys(arena, shape))
        invariant shape.order == old(shape.order) && shape.ix == old(shape.ix) && arena.Keys == old(arena.Keys)
        invariant size == old(size) && rank == old(rank) && next == old(next)
        decreases LoopMeasure(arena, shape, x, xp)
      {
        var stop;
        x, xp, stop := DeleteFixStep(x, xp);
        if stop {
          done := true;
          break;
        }
      }
    }

    /**
     * The rebalancing half of `delete_fix`, entered when the removed colour was
     * black: the loop, then `replacement->_set_black()`. The result is a red-black
     * tree with the same nodes in the same order.
     */
    method DeleteFixRebalance(x0: int, xp0: int)
      requires DelFixUp(arena, shape, x0, xp0)
      modifies this
      ensures WF(arena, shape) && RB(arena, shape)
      ensures Keys(arena, shape) == old(Keys(arena, shape))
      ensures shape.order == old(shape.order) && shape.ix == old(shape.ix) && arena.Keys == old(arena.Keys)
      ensures size == old(size) && rank == old(rank) && next == old(next)
    {
      var x, xp;
      ghost var done;
      x, xp, done := DeleteFixLoop(x0, xp0);
      if x != Null {
        if !done {
          PaintReplacementOK(arena, shape, x, xp);
          shape := ExitBh(arena, shape, x);
        } else {
          assert arena[x := arena[x].(color := Black)] == arena;
        }
        arena := arena[x := arena[x].(color := Black)];
      } else if !done {
        EmptiedOK(arena, shape, xp);
      }
    }

    /**
     * `delete_fix(n)`: n is unlinked, or, when it has two children, its successor
     * takes its place and colour; then, when the removed colour was black, the tree
     * is rebalanced. n is out of the tree, the in-order sequence has lost exactly
     * n's position, and the tree is a red-black tree again.
     */
    method DeleteFix(n: int)
      requires WF(arena, shape) && RB(arena, shape) && n in shape.ix
      modifies this
      ensures RemovedAt(old(arena), old(shape), arena, shape, n) && RB(arena, shape)
      ensures size == old(size) && rank == old(rank) && next == old(next)
    {
      assert LocalOK(arena, shape, n);
      var toDelete := n;
      if !(arena[n].left == Null || arena[n].right == Null) {
        assert LocalOK(arena, shape, arena[n].right);
        toDelete := GetSuccessor(n);
        assert LocalOK(arena, shape, toDelete);
      }
      var replacement := if arena[toDelete].left != Null then arena[toDelete].left else arena[toDelete].right;
      var replacementParent;
      if toDelete == n {
        replacementParent := EraseUnlink(n, replacement);
      } else {
        replacementParent := EraseTransplant(n, toDelete, replacement);
        toDelete := n;
      }
      ghost var a1, s1 := arena, shape;
      if arena[toDelete].color != Red {
        DeleteFixRebalance(replacement, replacementParent);
      }
    }
 
    /**
     * `erase(pos)` as written: the successor is taken, then `delete_fix` and
     * `delete_node`, but `_size` is left as it was, one above the node count.
     */
    method EraseAsWritten(pos: int) returns (ret: int)
      requires Valid() && pos in shape.ix
      modifies this
      ensures var k := old(shape.ix[pos]);
              && 0 <= k < old(|shape.order|)
              && Contents() == old(Contents())[..k] + old(Contents())[k + 1..]
              && shape.order == old(shape.order)[..k] + old(shape.order)[k + 1..]
              && ret == old(At(shape, shape.ix[pos] + 1)) && ret == At(shape, k)
      ensures SearchTree() && RB(arena, shape) && size == old(size) == |shape.order| + 1
      ensures Header < next && forall h :: h in arena ==> h < next && (h == Header || h in shape.ix)
      ensures shape.ix.Keys == old(shape.ix.Keys) - {pos} && arena.Keys == old(arena.Keys) - {pos}
      ensures rank == old(rank) && next == old(next)
    {
      assert LocalOK(arena, shape, pos);
      ghost var k := shape.ix[pos];
      ghost var ks := Contents();
      ret := Increment(pos);
      DeleteFix(pos);
      DropNodeOK(arena, shape, pos);
      DeleteNode(pos);
      RemoveIncreasing(rank, ks, k);
    }

    /**
     * `erase(pos)` with `--_size`: pos's key leaves the in-order sequence, every
     * other node keeps its handle, and the result is the node that followed pos.
     */
    method Erase(pos: int) returns (ret: int)
      requires Valid() && pos in shape.ix
      modifies this
      ensures var k := old(shape.ix[pos]);
              && 0 <= k < old(|shape.order|)
              && Contents() == old(Contents())[..k] + old(Contents())[k + 1..]
              && shape.order == old(shape.order)[..k] + old(shape.order)[k + 1..]
              && ret == old(At(shape, shape.ix[pos] + 1)) && ret == At(shape, k)
      ensures Valid() && size == old(size) - 1
      ensures shape.ix.Keys == old(shape.ix.Keys) - {pos} && arena.Keys == old(arena.Keys) - {pos}
      ensures rank == old(rank) && next == old(next)
    {
      assert LocalOK(arena, shape, pos);
      ghost var k := shape.ix[pos];
      ghost var ks := Contents();
      ret := Increment(pos);
      size := size - 1;
      DeleteFix(pos);
      DropNodeOK(arena, shape, pos);
      DeleteNode(pos);
      RemoveIncreasing(rank, ks, k);
    }
 
    /**
     * `erase(key)`: the node holding an equivalent key, if there is one, is erased;
     * the result is the number of keys removed.
     */
    method EraseKey(key: int) returns (n: nat)
      requires Valid()
      modifies this
      ensures Valid() && rank == old(rank) && next == old(next)
      ensures n == if HasEquivalent(rank, old(Contents()), key) then 1 else 0
      ensures Contents() == RemoveEquivalent(rank, old(Contents()), key)
      ensures size == old(size) - n
    {
      ghost var ks := Contents();
      var i := Find(key);
      if i == Header {
        RemoveAbsent(rank, ks, key);
        return 0;
      }
      assert LocalOK(arena, shape, i);
      ghost var k := shape.ix[i];
      assert ks[k] == KeyOf(arena, i);
      var _ := Erase(i);
      RemoveEquivalentAt(rank, ks, key, k);
      return 1;
    }
 
    /**
     * `erase_from(n)`: frees every node of n's subtree, the children's subtrees
     * first. `a0` holds the subtree's links as they were before any of it was freed.
     */
    method EraseFrom(n: int, ghost a0: Arena)
      requires WF(a0, shape) && n in shape.ix && LocalOK(a0, shape, n)
      requires forall h :: h in Subtree(shape, n) ==> h in arena && h in a0 && arena[h] == a0[h]
      modifies this
      ensures shape == old(shape) && size == old(size) && rank == old(rank) && next == old(next)
      ensures arena == old(arena) - Subtree(shape, n)
      decreases shape.hi[n] - shape.lo[n]
    {
      SubtreeSplit(a0, shape, n);
      ghost var L := if a0[n].left == Null then {} else Subtree(shape, a0[n].left);
      ghost var R := if a0[n].right == Null then {} else Subtree(shape, a0[n].right);
      if arena[n].left != Null {
        EraseFrom(arena[n].left, a0);
      } else {
        FreeNothing(arena);
      }
      ghost var a1 := arena;
      if arena[n].right != Null {
        EraseFrom(arena[n].right, a0);
      } else {
        FreeNothing(arena);
      }
      assert arena == a1 - R;
      DeleteNode(n);
      FreeParts(old(arena), L, n, R);
    }

    /**
     * `default_init()`: the header gets no root and links to itself, and is red;
     * `_size` is 0. The shape is the empty tree.
     */
    method DefaultInit()
      requires Header in arena
      modifies this
      ensures arena == old(arena)[Header := Node(Null, Header, Header, Red, old(arena[Header].key))]
      ensures size == 0 && shape == EmptyShape
      ensures rank == old(rank) && next == old(next)
    {
      arena := arena[Header := arena[Header].(parent := Null)];
      arena := arena[Header := arena[Header].(left := Header, right := Header)];
      arena := arena[Header := arena[Header].(color := Red)];
      size := 0;
      shape := EmptyShape;
    }

    /** The `erase_from(root())` half of `reset()`: every tree node is freed. */
    method FreeTree()
      requires Valid()
      modifies this
      ensures arena.Keys == {Header}
      ensures shape == old(shape) && size == old(size) && rank == old(rank) && next == old(next)
    {
      if arena[Header].parent != Null {
        SubtreeAll(arena, shape);
        FreeAll(arena, shape);
        assert LocalOK(arena, shape, arena[Header].parent);
        EraseFrom(arena[Header].parent, arena);
      } else {
        FreeAll(arena, shape);
        FreeNothing(arena);
      }
    }

    /**
     * `reset()`: every node is freed and the header re-initialised, leaving an empty
     * tree with only the header allocated. An empty tree has no subtree to free.
     */
    method Reset()
      requires Valid()
      modifies this
      ensures Valid() && Contents() == [] && size == 0 && arena.Keys == {Header} && shape == EmptyShape
      ensures rank == old(rank) && next == old(next)
    {
      FreeTree();
      DefaultInit();
      EmptyOK(arena);
    }

    /** `clear()`: `reset()`. */
    method Clear()
      requires Valid()
      modifies this
      ensures Valid() && Contents() == [] && size == 0 && arena.Keys == {Header} && shape == EmptyShape
      ensures rank == old(rank) && next == old(next)
    {
      Reset();
    }
 
    /**
     * The state inside `erase(first, last)`'s loop: the first m keys from position i
     * of the original sequence ks are gone, cur is the iterator at position i and
     * last has moved down by m.
     */
    ghost predicate RangeErased(cur: int, last: int, i: int, j: int, m: int, ks: seq<int>, size0: int)
      reads this
    {
      && Valid() && 0 <= i && 0 <= m <= j - i && j <= |ks| && |shape.order| == |ks| - m
      && Contents() == ks[..i] + ks[i + m..] && size == size0 - m
      && cur == At(shape, i) && (last == Header || last in shape.ix) && Pos(shape, last) == j - m
    }

    /** One round of the loop: `erase(first++)`. */
    method EraseRangeStep(cur: int, last: int, ghost i: int, ghost j: int, ghost m: int, ghost ks: seq<int>, ghost size0: int)
      returns (cur': int)
      requires RangeErased(cur, last, i, j, m, ks, size0) && cur != last
      modifies this
      ensures RangeErased(cur', last, i, j, m + 1, ks, size0)
      ensures rank == old(rank) && next == old(next)
    {
      if last != Header { assert LocalOK(arena, shape, last); }
      ghost var a0, s0 := arena, shape;
      var pos := cur;
      cur' := Increment(cur);
      var _ := Erase(pos);
      WidenGap(ks, i, m);
      RemovedPos(a0, s0, arena, shape, i, last);
    }

    /**
     * `erase(first, last)`: the whole tree is reset when the range is all of it;
     * otherwise the nodes from first up to (not including) last are erased one by
     * one. The result is last, which now sits where first was.
     */
    method EraseRange(first: int, last: int) returns (it: int)
      requires Valid() && (first == Header || first in shape.ix) && (last == Header || last in shape.ix)
      requires Pos(shape, first) <= Pos(shape, last)
      modifies this
      ensures var i, j := old(Pos(shape, first)), old(Pos(shape, last));
              && 0 <= i <= j <= |old(Contents())|
              && Contents() == old(Contents())[..i] + old(Contents())[j..]
              && size == old(size) - (j - i)
              && it == last && it == At(shape, i)
      ensures Valid() && rank == old(rank) && next == old(next)
    {
      if first != Header { assert LocalOK(arena, shape, first); }
      if last != Header { assert LocalOK(arena, shape, last); }
      ghost var i, j, ks := Pos(shape, first), Pos(shape, last), Contents();
      if first == Begin() && last == End() {
        Reset();
      } else {
        EraseRangeLoop(first, last, i, j, ks);
        if last != Header { assert LocalOK(arena, shape, last); }
      }
      it := last;
    }

    /** `while (first != last) erase(first++);`: the keys at positions [i, j) of ks are erased. */
    method EraseRangeLoop(first: int, last: int, ghost i: int, ghost j: int, ghost ks: seq<int>)
      requires RangeErased(first, last, i, j, 0, ks, size)
      modifies this
      ensures RangeErased(last, last, i, j, j - i, ks, old(size))
      ensures rank == old(rank) && next == old(next)
    {
      var cur := first;
      ghost var m := 0;
      while cur != last
        invariant RangeErased(cur, last, i, j, m, ks, old(size))
        invariant rank == old(rank) && next == old(next)
        decreases j - i - m
      {
        cur := EraseRangeStep(cur, last, i, j, m, ks, old(size));
        m := m + 1;
      }
    }
 
    /**
     * `copy_from(rhs, p)`: copies the subtree at h of another tree, whose nodes are S
     * and whose shape is s, into fresh nodes of this arena, the copy of h under p, and returns the copy of h. Each copy takes its
     * original's colour as well as its key.
     */
    method CopyFrom(S: Arena, ghost s: Shape, h: int, p: int) returns (root: int, ghost f: map<int, int>, ghost g: map<int, int>)
      requires WF(S, s) && h in s.ix
      requires Header < next && Null !in arena && forall y :: y in arena ==> y < next
      modifies this
      ensures SubtreeCopied(S, s, old(arena), arena, old(next), next, f, g, h, p, root)
      ensures shape == old(shape) && size == old(size) && rank == old(rank)
      decreases Width(s, h), 0
    {
      ChildrenNarrower(S, s, h);
      var nd := S[h];
      root := AllocateNode(nd.key);
      arena := arena[root := arena[root].(parent := p, color := nd.color)];
      ghost var a1 := arena;
      ghost var fl, gl := CopyChild(S, s, nd.left, root, true);
      ghost var a2, n2 := arena, next;
      ghost var fr, gr := CopyChild(S, s, nd.right, root, false);
      f, g := map[h := root] + fl + fr, map[root := h] + gl + gr;
      CopyFromOK(S, s, old(arena), a1, a2, arena, old(next), n2, next, h, p, root, fl, gl, fr, gr);
    }

    /**
     * `if (rhs->_left) root->_left = copy_from(rhs->_left, root)` and its mirror: the
     * child c, when there is one, is copied under root and linked on the given side.
     */
    method CopyChild(S: Arena, ghost s: Shape, c: int, root: int, isLeft: bool) returns (ghost fc: map<int, int>, ghost gc: map<int, int>)
      requires WF(S, s) && (c == Null || c in s.ix)
      requires root in arena && root != Null && Null !in arena && (if isLeft then arena[root].left else arena[root].right) == Null
      requires Header < next && forall y :: y in arena ==> y < next
      modifies this
      ensures ChildCopied(S, s, old(arena), arena, old(next), next, fc, gc, c, root, isLeft)
      ensures shape == old(shape) && size == old(size) && rank == old(rank)
      decreases Width(s, c), 1
    {
      if c == Null {
        fc, gc := map[], map[];
        ChildNullOK(S, s, arena, next, root, isLeft);
      } else {
        ghost var a0, n0 := arena, next;
        var x;
        x, fc, gc := CopyFrom(S, s, c, root);
        ghost var a1 := arena;
        arena := SetChild(arena, root, x, isLeft);
        ChildLinkOK(S, s, a0, a1, n0, next, fc, gc, c, root, x, isLeft);
      }
    }
  
    /**
     * `root() = copy_from(rhs.root(), _header)`: the nodes S of a non-empty tree with
     * shape s are copied under this tree's header, which was left empty.
     */
    method AttachCopy(S: Arena, ghost s: Shape) returns (r: int, ghost f: map<int, int>, ghost g: map<int, int>)
      requires WF(S, s) && RB(S, s) && |s.order| > 0
      requires arena.Keys == {Header} && arena[Header].color == Red && Header < next
      modifies this
      ensures CopySite(S, s, arena, f, g) && r == f[Root(S)]
      ensures AllocatedBut(old(arena), arena, old(next), next, g, Header)
      ensures arena[Header] == old(arena[Header]).(parent := r)
      ensures shape == old(shape) && size == old(size) && rank == old(rank)
    {
      SubtreeAll(S, s);
      r, f, g := CopyFrom(S, s, S[Header].parent, Header);
      ghost var a1 := arena;
      arena := arena[Header := arena[Header].(parent := r)];
      CopiedFrame(S, s, a1, arena, f, g, Root(S), Header);
    }

    /**
     * `root() = copy_from(rhs.root(), _header)` on an empty tree, with the copy's
     * shape: the nodes S of a non-empty tree with shape s are copied under the header,
     * in nodes allocated for them, and form a tree holding the same keys that lacks
     * only the header's minimum and maximum.
     */
    method CopyLinks(S: Arena, ghost s: Shape) returns (r: int)
      requires WF(S, s) && RB(S, s) && |s.order| > 0
      requires arena.Keys == {Header} && arena[Header].color == Red && Header < next
      modifies this
      ensures CopyMade(S, s, arena, shape, r, old(next), next)
      ensures size == old(size) && rank == old(rank)
    {
      ghost var f, g;
      r, f, g := AttachCopy(S, s);
      CopyMadeOK(S, s, old(arena), arena, old(next), next, f, g);
      shape := MapShape(s, f, g);
    }

    /**
     * The rest of `copy_tree(rhs)` once the copy hangs under the header: the header's
     * minimum and maximum are set, and `_size` and the comparator, n and rk, are taken
     * from rhs.
     */
    method FinishCopy(r: int, n: nat, rk: int -> int)
      requires Unended(arena, shape, r) && n == |shape.order| && Increasing(rk, Keys(arena, shape))
      requires Header < next && forall h :: h in arena ==> h < next && (h == Header || h in shape.ix)
      modifies this
      ensures Valid() && Contents() == old(Keys(arena, shape)) && size == n && rank == rk
      ensures shape == old(shape) && next == old(next)
    {
      var mx := Max(r);
      var mn := Min(r);
      WholeEnds(arena, shape, r, mn, mx);
      ghost var a1 := arena;
      arena := arena[Header := arena[Header].(left := mn, right := mx)];
      HeaderEndsOK(a1, shape, r, mn, mx);
      size := n;
      rank := rk;
    }

    /**
     * `copy_tree(rhs)` on an empty tree, with rhs's nodes S and shape s non-empty,
     * n its `_size` and rk its comparator: the tree becomes a copy, in nodes allocated
     * for it.
     */
    method CopyNonEmpty(S: Arena, ghost s: Shape, n: nat, rk: int -> int)
      requires WF(S, s) && RB(S, s) && |s.order| > 0 && n == |s.order| && Increasing(rk, Keys(S, s))
      requires arena.Keys == {Header} && arena[Header].color == Red && Header < next
      modifies this
      ensures Valid() && Contents() == Keys(S, s) && size == n && rank == rk
      ensures forall h :: h in shape.ix ==> old(next) <= h < next
    {
      var r := CopyLinks(S, s);
      FinishCopy(r, n, rk);
    }

    /**
     * `copy_tree(rhs)` on an empty tree: the tree becomes a copy of src, in nodes
     * allocated for it, with src's size and comparator. A source without nodes is not
     * walked.
     */
    method CopyTree(src: RBTree)
      requires src.Valid()
      requires Valid() && shape == EmptyShape && arena.Keys == {Header}
      modifies this
      ensures Valid() && Contents() == old(src.Contents()) && size == old(src.size) && rank == old(src.rank)
      ensures forall h :: h in shape.ix ==> old(next) <= h < next
    {
      if src.arena[Header].parent != Null {
        CopyNonEmpty(src.arena, src.shape, src.size, src.rank);
      } else {
        size := src.size;
        rank := src.rank;
      }
    }
  
    /** `_RB_tree(const _RB_tree& rhs)`: `default_init()` on a new header, then `copy_tree(rhs)`. */
    constructor Copy(src: RBTree)
      requires src.Valid()
      ensures Valid() && Contents() == src.Contents() && size == src.size && rank == src.rank
      ensures forall h :: h in shape.ix ==> Header < h < next
    {
      arena := map[Header := Node(Null, Header, Header, Red, 0)];
      size := 0;
      rank := Less;
      next := Header + 1;
      shape := EmptyShape;
      new;
      CopyTree(src);
    }

    /**
     * `operator=(const _RB_tree& rhs)`: `reset()`, then `copy_tree(rhs)`. Assigning a
     * tree to itself copies the tree `reset` has just emptied.
     */
    method CopyAssign(src: RBTree)
      requires Valid() && src.Valid()
      modifies this
      ensures Valid() && size == |Contents()|
      ensures src != this ==> Contents() == old(src.Contents()) && rank == old(src.rank)
      ensures src == this ==> Contents() == [] && rank == old(rank)
    {
      Reset();
      CopyTree(src);
    }

    /**
     * The state a tree is left in when another tree takes over its nodes: a new,
     * empty header with the comparator kept.
     */
    method Detach()
      modifies this
      ensures Valid() && Contents() == [] && size == 0 && arena.Keys == {Header}
      ensures rank == old(rank)
    {
      arena := map[Header := Node(Null, Header, Header, Red, 0)];
      size := 0;
      next := Header + 1;
      shape := EmptyShape;
    }

    /**
     * `_RB_tree(_RB_tree&& rhs)`: the new tree takes over rhs's header, nodes, size and
     * comparator; rhs is left an empty tree.
     */
    constructor Move(rhs: RBTree)
      requires rhs.Valid()
      modifies rhs
      ensures Valid() && Contents() == old(rhs.Contents()) && size == old(rhs.size) && rank == old(rhs.rank)
      ensures rhs.Valid() && rhs.Contents() == [] && rhs.size == 0 && rhs.rank == old(rhs.rank)
    {
      arena := rhs.arena;
      size := rhs.size;
      rank := rhs.rank;
      next := rhs.next;
      shape := rhs.shape;
      new;
      rhs.Detach();
    }

    /**
     * `operator=(_RB_tree&& rhs)`: `reset()`, then the tree takes over rhs's header,
     * nodes, size and comparator, and rhs is left an empty tree. Moving a tree into
     * itself leaves it empty.
     */
    method MoveAssign(rhs: RBTree)
      requires Valid() && rhs.Valid()
      modifies this, rhs
      ensures Valid() && size == |Contents()|
      ensures rhs != this ==> Contents() == old(rhs.Contents()) && rank == old(rhs.rank)
      ensures rhs != this ==> rhs.Valid() && rhs.Contents() == [] && rhs.size == 0 && rhs.rank == old(rhs.rank)
      ensures rhs == this ==> Contents() == [] && rank == old(rank)
    {
      Reset();
      if rhs != this {
        arena, size, rank, next, shape := rhs.arena, rhs.size, rhs.rank, rhs.next, rhs.shape;
        rhs.Detach();
      }
    }

    /** `swap(other)`: two distinct trees exchange headers, sizes and comparators. */
    method Swap(other: RBTree)
      requires Valid() && other.Valid()
      modifies this, other
      ensures Valid() && other.Valid()
      ensures other != this ==> Contents() == old(other.Contents()) && other.Contents() == old(Contents())
      ensures other != this ==> size == old(other.size) && other.size == old(size)
      ensures other != this ==> rank == old(other.rank) && other.rank == old(rank)
      ensures other == this ==> arena == old(arena) && shape == old(shape) && size == old(size) && rank == old(rank)
    {
      if other != this {
        arena, other.arena := other.arena, arena;
        size, other.size := other.size, size;
        rank, other.rank := other.rank, rank;
        next, other.next := other.next, next;
        shape, other.shape := other.shape, shape;
      }
    }
  }
}
