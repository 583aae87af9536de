/**
 * The node layout of the red-black tree and the shape invariants it keeps.
 *
 * Nodes live in an arena: a map from integer handles to `Node` values, so that a
 * node's identity (what an iterator holds) is its handle and relinking is a map
 * update. Handle `Header` is the header sentinel (`_header`): its `parent` is the
 * root, its `left` the minimum and its `right` the maximum; `Null` is `nullptr`.
 *
 * A ghost `Shape` describes the tree the links form: `order` lists the handles in
 * in-order sequence, and for every node `ix` is its position in `order`, `[lo, hi)`
 * the positions its subtree covers and `bh` its black height. All the structural
 * invariants are stated node by node ("local"), so that relinking a few nodes only
 * disturbs the conditions at those nodes.
 */
module TreeLayout {

  /** `_RB_tree_color`. */
  datatype Color = Red | Black

  /** An allocated node: `_parent`, `_left`, `_right`, `_color` and the key it stores. */
  datatype Node = Node(parent: int, left: int, right: int, color: Color, key: int)

  /** `nullptr`. */
  const Null: int := -1
  /** The header sentinel's handle. */
  const Header: int := 0

  type Arena = map<int, Node>

  datatype Shape = Shape(order: seq<int>, ix: map<int, int>, lo: map<int, int>, hi: map<int, int>, bh: map<int, int>)

  /** `h` has a position, an interval and a black height in `s`. */
  ghost predicate Tracked(s: Shape, h: int)
  {
    h in s.ix && h in s.lo && h in s.hi && h in s.bh
  }

  /**
   * The links around node `h` agree with the shape: its left subtree covers
   * `[lo, ix)`, its right subtree `[ix + 1, hi)`, its children point back at it and
   * its parent (or the header, for the root) points at it.
   */
  ghost predicate LocalOK(a: Arena, s: Shape, h: int)
  {
    && h in a && Header in a && Tracked(s, h)
    && 0 <= s.lo[h] <= s.ix[h] < s.hi[h] <= |s.order|
    && s.order[s.ix[h]] == h
    && (a[h].left == Null ==> s.lo[h] == s.ix[h])
    && (a[h].left != Null ==>
          && a[h].left in a && Tracked(s, a[h].left) && a[a[h].left].parent == h
          && s.lo[a[h].left] == s.lo[h] && s.hi[a[h].left] == s.ix[h])
    && (a[h].right == Null ==> s.hi[h] == s.ix[h] + 1)
    && (a[h].right != Null ==>
          && a[h].right in a && Tracked(s, a[h].right) && a[a[h].right].parent == h
          && s.lo[a[h].right] == s.ix[h] + 1 && s.hi[a[h].right] == s.hi[h])
    && (a[h].parent == Header ==> a[Header].parent == h)
    && (a[h].parent != Header ==>
          && a[h].parent in a && a[h].parent in s.ix
          && (a[a[h].parent].left == h || a[a[h].parent].right == h))
  }

  /**
   * The header links: no root and self-links when empty; otherwise the root covers
   * every position, the header's left is the first node and its right the last.
   */
  ghost predicate HeaderOK(a: Arena, s: Shape)
    requires Header in a
  {
    && a[Header].color == Red
    && (|s.order| == 0 ==> a[Header].parent == Null && a[Header].left == Header && a[Header].right == Header)
    && (|s.order| > 0 ==>
          && a[Header].parent in s.ix && a[Header].parent in a
          && a[Header].parent in s.lo && a[Header].parent in s.hi
          && s.lo[a[Header].parent] == 0 && s.hi[a[Header].parent] == |s.order|
          && a[a[Header].parent].parent == Header
          && a[Header].left == s.order[0] && a[Header].right == s.order[|s.order| - 1])
  }

  /** The links form a binary tree whose in-order sequence is `s.order`. */
  ghost predicate WF(a: Arena, s: Shape)
  {
    && Header in a && Null !in a && Header !in s.ix && Null !in s.ix
    && (forall i {:trigger s.order[i]} :: 0 <= i < |s.order| ==> s.order[i] in s.ix && s.ix[s.order[i]] == i)
    && (forall h {:trigger LocalOK(a, s, h)} :: h in s.ix ==> LocalOK(a, s, h))
    && HeaderOK(a, s)
  }

  /** Every node's local conditions hold: the part of `WF` that walking down the tree needs. */
  ghost predicate Linked(a: Arena, s: Shape)
  {
    forall h {:trigger LocalOK(a, s, h)} :: h in s.ix ==> LocalOK(a, s, h)
  }

  /** The root handle, `_header->_parent`. */
  ghost function Root(a: Arena): int
  {
    if Header in a then a[Header].parent else Null
  }

  /** The key stored at `h`. */
  ghost function KeyOf(a: Arena, h: int): int
  {
    if h in a then a[h].key else 0
  }

  /** The in-order key sequence. */
  ghost function Keys(a: Arena, s: Shape): seq<int>
  {
    seq(|s.order|, i requires 0 <= i < |s.order| => KeyOf(a, s.order[i]))
  }

  /** The position of an iterator: its index in `order`, or `|order|` for `end()` (the header). */
  ghost function Pos(s: Shape, h: int): int
  {
    if h in s.ix then s.ix[h] else |s.order|
  }

  /**
   * Iterator stability from (a, s) to (a', s'): every node of the old tree is still
   * in the tree under the same handle with the same key, and two old nodes keep
   * their relative in-order position.
   */
  ghost predicate KeepsNodes(a: Arena, s: Shape, a': Arena, s': Shape)
  {
    && (forall h :: h in s.ix ==> h in s'.ix && KeyOf(a', h) == KeyOf(a, h))
    && (forall h, g :: h in s.ix && g in s.ix && s.ix[h] < s.ix[g] ==>
          h in s'.ix && g in s'.ix && s'.ix[h] < s'.ix[g])
  }

  /** The iterator at position `i`: the node there, or the header past the end. */
  ghost function At(s: Shape, i: int): int
  {
    if 0 <= i < |s.order| then s.order[i] else Header
  }

  // ---------------------------------------------------------------------------
  // Red-black conditions
  // ---------------------------------------------------------------------------

  function Blk(c: Color): int
  {
    if c == Black then 1 else 0
  }

  /** The black height of a child link; `Null` (a black leaf) has 0. */
  ghost function BhOf(s: Shape, c: int): int
  {
    if c != Null && c in s.bh then s.bh[c] else 0
  }

  ghost predicate IsRed(a: Arena, c: int)
  {
    c != Null && c in a && a[c].color == Red
  }

  /** Both subtrees of `h` have the same black height, and `bh[h]` adds `h`'s own colour. */
  ghost predicate BHOK(a: Arena, s: Shape, h: int)
    requires h in a && h in s.bh
  {
    BhOf(s, a[h].left) == BhOf(s, a[h].right) && s.bh[h] == BhOf(s, a[h].left) + Blk(a[h].color)
  }

  /** A red `h` has no red child, except possibly the child `c`. */
  ghost predicate RedOKBut(a: Arena, h: int, c: int)
    requires h in a
  {
    a[h].color == Red ==> (a[h].left == c || !IsRed(a, a[h].left)) && (a[h].right == c || !IsRed(a, a[h].right))
  }

  /** The black-height condition holds at node `h`. */
  ghost predicate BHAt(a: Arena, s: Shape, h: int)
  {
    h in a && h in s.bh && BHOK(a, s, h)
  }

  /** The red condition holds at node `h`, except possibly towards the child `c`. */
  ghost predicate RedAt(a: Arena, h: int, c: int)
  {
    h in a && RedOKBut(a, h, c)
  }

  ghost predicate BHAll(a: Arena, s: Shape)
  {
    forall h {:trigger BHAt(a, s, h)} :: h in s.ix ==> BHAt(a, s, h)
  }

  /** No red node has a red child, except that the child `c` may be red under a red parent. */
  ghost predicate RedAll(a: Arena, s: Shape, c: int)
  {
    forall h {:trigger RedAt(a, h, c)} :: h in s.ix ==> RedAt(a, h, c)
  }

  ghost predicate RootBlack(a: Arena)
  {
    Root(a) != Null ==> !IsRed(a, Root(a))
  }

  /** The red-black invariants: black heights agree at every node, no red edge, black root. */
  ghost predicate RB(a: Arena, s: Shape)
  {
    BHAll(a, s) && RedAll(a, s, Null) && RootBlack(a)
  }

  // ---------------------------------------------------------------------------
  // Consequences of the shape
  // ---------------------------------------------------------------------------

  /** Every position inside a subtree's interval belongs to a node of that subtree. */
  lemma {:induction false} InSubtree(a: Arena, s: Shape, h: int, i: int)
    requires WF(a, s) && h in s.ix
    requires LocalOK(a, s, h) && s.lo[h] <= i < s.hi[h]
    ensures s.order[i] in s.ix && LocalOK(a, s, s.order[i])
    ensures s.lo[h] <= s.lo[s.order[i]] && s.hi[s.order[i]] <= s.hi[h]
    decreases s.hi[h] - s.lo[h]
  {
    var m := s.order[i];
    assert LocalOK(a, s, m);
    if i < s.ix[h] {
      var l := a[h].left;
      assert LocalOK(a, s, l);
      InSubtree(a, s, l, i);
    } else if i > s.ix[h] {
      var r := a[h].right;
      assert LocalOK(a, s, r);
      InSubtree(a, s, r, i);
    }
  }

  /** The last node of a subtree has no right child. */
  lemma LastOfSubtree(a: Arena, s: Shape, h: int)
    requires WF(a, s) && h in s.ix && LocalOK(a, s, h)
    ensures s.order[s.hi[h] - 1] in s.ix && LocalOK(a, s, s.order[s.hi[h] - 1])
    ensures a[s.order[s.hi[h] - 1]].right == Null
  {
    var m := s.order[s.hi[h] - 1];
    InSubtree(a, s, h, s.hi[h] - 1);
    assert LocalOK(a, s, m);
    assert a[m].right != Null ==> LocalOK(a, s, a[m].right);
  }

  /** The first node of a subtree has no left child. */
  lemma FirstOfSubtree(a: Arena, s: Shape, h: int)
    requires WF(a, s) && h in s.ix && LocalOK(a, s, h)
    ensures s.order[s.lo[h]] in s.ix && LocalOK(a, s, s.order[s.lo[h]])
    ensures a[s.order[s.lo[h]]].left == Null
  {
    var m := s.order[s.lo[h]];
    InSubtree(a, s, h, s.lo[h]);
    assert LocalOK(a, s, m);
    assert a[m].left != Null ==> LocalOK(a, s, a[m].left);
  }

  /** A node's parent has a strictly larger interval, so climbing terminates. */
  lemma ParentInterval(a: Arena, s: Shape, h: int)
    requires WF(a, s) && h in s.ix && LocalOK(a, s, h) && a[h].parent != Header
    ensures a[h].parent in s.ix && LocalOK(a, s, a[h].parent)
    ensures s.hi[a[h].parent] - s.lo[a[h].parent] > s.hi[h] - s.lo[h]
  {
    assert LocalOK(a, s, a[h].parent);
  }

  // ---------------------------------------------------------------------------
  // Rotations
  // ---------------------------------------------------------------------------

  /** What `rotate_left(x)` does to the links: x's right child y takes x's place. */
  ghost function RotateLeftArena(a: Arena, x: int): Arena
    requires Header in a && x in a && a[x].right in a && a[x].parent in a
    requires a[a[x].right].left == Null || a[a[x].right].left in a
  {
    var y := a[x].right;
    var b := a[y].left;
    var p := a[x].parent;
    var a1 := a[x := a[x].(right := b)];
    var a2 := if b != Null then a1[b := a1[b].(parent := x)] else a1;
    var a3 := a2[y := a2[y].(left := x, parent := p)];
    var a4 :=
      if a3[Header].parent == x then a3[Header := a3[Header].(parent := y)]
      else if a3[p].left == x then a3[p := a3[p].(left := y)]
      else a3[p := a3[p].(right := y)];
    a4[x := a4[x].(parent := y)]
  }

  /** What `rotate_right(x)` does to the links: x's left child y takes x's place. */
  ghost function RotateRightArena(a: Arena, x: int): Arena
    requires Header in a && x in a && a[x].left in a && a[x].parent in a
    requires a[a[x].left].right == Null || a[a[x].left].right in a
  {
    var y := a[x].left;
    var b := a[y].right;
    var p := a[x].parent;
    var a1 := a[x := a[x].(left := b)];
    var a2 := if b != Null then a1[b := a1[b].(parent := x)] else a1;
    var a3 := a2[y := a2[y].(right := x, parent := p)];
    var a4 :=
      if a3[Header].parent == x then a3[Header := a3[Header].(parent := y)]
      else if a3[p].left == x then a3[p := a3[p].(left := y)]
      else a3[p := a3[p].(right := y)];
    a4[x := a4[x].(parent := y)]
  }

  /** The rotation leaves the in-order sequence alone; only two intervals change. */
  ghost function RotateLeftShape(a: Arena, s: Shape, x: int): Shape
    requires x in a && Tracked(s, x) && Tracked(s, a[x].right)
  {
    var y := a[x].right;
    s.(lo := s.lo[y := s.lo[x]], hi := s.hi[x := s.ix[y]])
  }

  ghost function RotateRightShape(a: Arena, s: Shape, x: int): Shape
    requires x in a && Tracked(s, x) && Tracked(s, a[x].left)
  {
    var y := a[x].left;
    s.(lo := s.lo[x := s.ix[y] + 1], hi := s.hi[y := s.hi[x]])
  }

  /**
   * `a'` is `a` after a left rotation at x: x's right child y takes x's place under
   * x's parent p (or becomes the root), x becomes y's left child, y's former left
   * child b becomes x's right child, and no other node changes.
   */
  ghost predicate RotatedLeft(a: Arena, a': Arena, x: int)
  {
    && x in a && a[x].right in a && a[x].parent in a && Header in a
    && var y, b, p := a[x].right, a[a[x].right].left, a[x].parent;
    && (b == Null || b in a)
    && a'.Keys == a.Keys
    && a'[y] == a[y].(left := x, parent := p)
    && a'[x] == a[x].(right := b, parent := y)
    && (b != Null ==> a'[b] == a[b].(parent := x))
    && (p == Header ==> a'[Header] == a[Header].(parent := y))
    && (p != Header && a[p].left == x ==> a'[p] == a[p].(left := y))
    && (p != Header && a[p].left != x ==> a'[p] == a[p].(right := y))
    && (forall h :: h in a && h != x && h != y && h != b && h != p ==> a'[h] == a[h])
  }

  /** The mirror image of `RotatedLeft`: x's left child y takes x's place. */
  ghost predicate RotatedRight(a: Arena, a': Arena, x: int)
  {
    && x in a && a[x].left in a && a[x].parent in a && Header in a
    && var y, b, p := a[x].left, a[a[x].left].right, a[x].parent;
    && (b == Null || b in a)
    && a'.Keys == a.Keys
    && a'[y] == a[y].(right := x, parent := p)
    && a'[x] == a[x].(left := b, parent := y)
    && (b != Null ==> a'[b] == a[b].(parent := x))
    && (p == Header ==> a'[Header] == a[Header].(parent := y))
    && (p != Header && a[p].left == x ==> a'[p] == a[p].(left := y))
    && (p != Header && a[p].left != x ==> a'[p] == a[p].(right := y))
    && (forall h :: h in a && h != x && h != y && h != b && h != p ==> a'[h] == a[h])
  }

  /** The shape conditions, before a rotation at x with child y, at every node it relinks. */
  ghost predicate RotationSite(a: Arena, s: Shape, x: int, y: int)
  {
    && Header !in s.ix && Null !in s.ix && Header in a
    && LocalOK(a, s, x) && y != Null && LocalOK(a, s, y)
    && (a[y].left != Null ==> LocalOK(a, s, a[y].left))
    && (a[y].right != Null ==> LocalOK(a, s, a[y].right))
    && (a[x].parent != Header ==> LocalOK(a, s, a[x].parent))
    && (a[Header].parent == x <==> a[x].parent == Header)
  }

  lemma RotationSiteOf(a: Arena, s: Shape, x: int, y: int)
    requires WF(a, s) && x in s.ix && LocalOK(a, s, x) && y != Null && (y == a[x].left || y == a[x].right)
    ensures RotationSite(a, s, x, y)
  {
    assert LocalOK(a, s, y);
    assert a[y].left != Null ==> LocalOK(a, s, a[y].left);
    assert a[y].right != Null ==> LocalOK(a, s, a[y].right);
    assert a[x].parent != Header ==> LocalOK(a, s, a[x].parent);
  }

  lemma RotateLeftArenaIsRotation(a: Arena, s: Shape, x: int)
    requires x in a && a[x].right != Null && RotationSite(a, s, x, a[x].right)
    ensures RotatedLeft(a, RotateLeftArena(a, x), x)
  {
  }

  lemma RotateRightArenaIsRotation(a: Arena, s: Shape, x: int)
    requires x in a && a[x].left != Null && RotationSite(a, s, x, a[x].left)
    ensures RotatedRight(a, RotateRightArena(a, x), x)
  {
  }

  lemma RotateLeftAtPivot(a: Arena, s: Shape, a': Arena, x: int, h: int)
    requires x in a && a[x].right != Null && RotationSite(a, s, x, a[x].right)
    requires RotatedLeft(a, a', x)
    requires h in s.ix && LocalOK(a, s, h)
    requires var y := a[x].right; var b, p := a[y].left, a[x].parent; h == x
    ensures LocalOK(a', RotateLeftShape(a, s, x), h)
  {
  }

  lemma RotateLeftAtChild(a: Arena, s: Shape, a': Arena, x: int, h: int)
    requires x in a && a[x].right != Null && RotationSite(a, s, x, a[x].right)
    requires RotatedLeft(a, a', x)
    requires h in s.ix && LocalOK(a, s, h)
    requires var y := a[x].right; var b, p := a[y].left, a[x].parent; h == y
    ensures LocalOK(a', RotateLeftShape(a, s, x), h)
  {
  }

  lemma RotateLeftAtInner(a: Arena, s: Shape, a': Arena, x: int, h: int)
    requires x in a && a[x].right != Null && RotationSite(a, s, x, a[x].right)
    requires RotatedLeft(a, a', x)
    requires h in s.ix && LocalOK(a, s, h)
    requires var y := a[x].right; var b, p := a[y].left, a[x].parent; h == b
    ensures LocalOK(a', RotateLeftShape(a, s, x), h)
  {
  }

  lemma RotateLeftAtParent(a: Arena, s: Shape, a': Arena, x: int, h: int)
    requires x in a && a[x].right != Null && RotationSite(a, s, x, a[x].right)
    requires RotatedLeft(a, a', x)
    requires h in s.ix && LocalOK(a, s, h)
    requires var y := a[x].right; var b, p := a[y].left, a[x].parent; h == p
    ensures LocalOK(a', RotateLeftShape(a, s, x), h)
  {
  }

  lemma RotateLeftElsewhere(a: Arena, s: Shape, a': Arena, x: int, h: int)
    requires x in a && a[x].right != Null && RotationSite(a, s, x, a[x].right)
    requires RotatedLeft(a, a', x)
    requires h in s.ix && LocalOK(a, s, h)
    requires var y := a[x].right; var b, p := a[y].left, a[x].parent; h != x && h != y && h != b && h != p
    ensures LocalOK(a', RotateLeftShape(a, s, x), h)
  {
  }

  lemma RotateLeftNode(a: Arena, s: Shape, a': Arena, x: int, h: int)
    requires x in a && a[x].right != Null && RotationSite(a, s, x, a[x].right)
    requires RotatedLeft(a, a', x)
    requires h in s.ix && LocalOK(a, s, h)
    ensures LocalOK(a', RotateLeftShape(a, s, x), h)
  {
    var y := a[x].right;
    var b, p := a[y].left, a[x].parent;
    if h == x {
      RotateLeftAtPivot(a, s, a', x, h);
    } else if h == y {
      RotateLeftAtChild(a, s, a', x, h);
    } else if h == b {
      RotateLeftAtInner(a, s, a', x, h);
    } else if h == p {
      RotateLeftAtParent(a, s, a', x, h);
    } else {
      RotateLeftElsewhere(a, s, a', x, h);
    }
  }


  lemma RotateRightAtPivot(a: Arena, s: Shape, a': Arena, x: int, h: int)
    requires x in a && a[x].left != Null && RotationSite(a, s, x, a[x].left)
    requires RotatedRight(a, a', x)
    requires h in s.ix && LocalOK(a, s, h)
    requires var y := a[x].left; var b, p := a[y].right, a[x].parent; h == x
    ensures LocalOK(a', RotateRightShape(a, s, x), h)
  {
  }

  lemma RotateRightAtChild(a: Arena, s: Shape, a': Arena, x: int, h: int)
    requires x in a && a[x].left != Null && RotationSite(a, s, x, a[x].left)
    requires RotatedRight(a, a', x)
    requires h in s.ix && LocalOK(a, s, h)
    requires var y := a[x].left; var b, p := a[y].right, a[x].parent; h == y
    ensures LocalOK(a', RotateRightShape(a, s, x), h)
  {
  }

  lemma RotateRightAtInner(a: Arena, s: Shape, a': Arena, x: int, h: int)
    requires x in a && a[x].left != Null && RotationSite(a, s, x, a[x].left)
    requires RotatedRight(a, a', x)
    requires h in s.ix && LocalOK(a, s, h)
    requires var y := a[x].left; var b, p := a[y].right, a[x].parent; h == b
    ensures LocalOK(a', RotateRightShape(a, s, x), h)
  {
  }

  lemma RotateRightAtParent(a: Arena, s: Shape, a': Arena, x: int, h: int)
    requires x in a && a[x].left != Null && RotationSite(a, s, x, a[x].left)
    requires RotatedRight(a, a', x)
    requires h in s.ix && LocalOK(a, s, h)
    requires var y := a[x].left; var b, p := a[y].right, a[x].parent; h == p
    ensures LocalOK(a', RotateRightShape(a, s, x), h)
  {
  }

  lemma RotateRightElsewhere(a: Arena, s: Shape, a': Arena, x: int, h: int)
    requires x in a && a[x].left != Null && RotationSite(a, s, x, a[x].left)
    requires RotatedRight(a, a', x)
    requires h in s.ix && LocalOK(a, s, h)
    requires var y := a[x].left; var b, p := a[y].right, a[x].parent; h != x && h != y && h != b && h != p
    ensures LocalOK(a', RotateRightShape(a, s, x), h)
  {
  }

  lemma RotateRightNode(a: Arena, s: Shape, a': Arena, x: int, h: int)
    requires x in a && a[x].left != Null && RotationSite(a, s, x, a[x].left)
    requires RotatedRight(a, a', x)
    requires h in s.ix && LocalOK(a, s, h)
    ensures LocalOK(a', RotateRightShape(a, s, x), h)
  {
    var y := a[x].left;
    var b, p := a[y].right, a[x].parent;
    if h == x {
      RotateRightAtPivot(a, s, a', x, h);
    } else if h == y {
      RotateRightAtChild(a, s, a', x, h);
    } else if h == b {
      RotateRightAtInner(a, s, a', x, h);
    } else if h == p {
      RotateRightAtParent(a, s, a', x, h);
    } else {
      RotateRightElsewhere(a, s, a', x, h);
    }
  }


  lemma RotateLeftHeader(a: Arena, s: Shape, a': Arena, x: int)
    requires x in a && a[x].right != Null && RotationSite(a, s, x, a[x].right)
    requires RotatedLeft(a, a', x) && HeaderOK(a, s)
    requires |s.order| > 0 && a[x].parent != Header ==> LocalOK(a, s, a[Header].parent)
    ensures Header in a' && HeaderOK(a', RotateLeftShape(a, s, x))
  {
  }

  lemma RotateRightHeader(a: Arena, s: Shape, a': Arena, x: int)
    requires x in a && a[x].left != Null && RotationSite(a, s, x, a[x].left)
    requires RotatedRight(a, a', x) && HeaderOK(a, s)
    requires |s.order| > 0 && a[x].parent != Header ==> LocalOK(a, s, a[Header].parent)
    ensures Header in a' && HeaderOK(a', RotateRightShape(a, s, x))
  {
  }

  lemma RotateLeftLocals(a: Arena, s: Shape, a': Arena, x: int)
    requires WF(a, s) && x in s.ix && LocalOK(a, s, x) && a[x].right != Null
    requires RotatedLeft(a, a', x)
    ensures forall h {:trigger LocalOK(a', RotateLeftShape(a, s, x), h)} :: h in s.ix ==> LocalOK(a', RotateLeftShape(a, s, x), h)
  {
    RotationSiteOf(a, s, x, a[x].right);
    forall h | h in s.ix
      ensures LocalOK(a', RotateLeftShape(a, s, x), h)
    {
      assert LocalOK(a, s, h);
      RotateLeftNode(a, s, a', x, h);
    }
  }

  lemma RotateLeftKeys(a: Arena, s: Shape, a': Arena, x: int)
    requires WF(a, s) && RotatedLeft(a, a', x)
    ensures Keys(a', s) == Keys(a, s)
  {
    forall i | 0 <= i < |s.order|
      ensures Keys(a', s)[i] == Keys(a, s)[i]
    {
      assert LocalOK(a, s, s.order[i]);
    }
  }

  lemma RotateLeftWF(a: Arena, s: Shape, a': Arena, x: int)
    requires WF(a, s) && x in s.ix && LocalOK(a, s, x) && a[x].right != Null
    requires RotatedLeft(a, a', x)
    ensures WF(a', RotateLeftShape(a, s, x))
    ensures Keys(a', RotateLeftShape(a, s, x)) == Keys(a, s)
  {
    RotationSiteOf(a, s, x, a[x].right);
    RotateLeftLocals(a, s, a', x);
    if |s.order| > 0 && a[x].parent != Header {
      assert LocalOK(a, s, a[Header].parent);
    }
    RotateLeftHeader(a, s, a', x);
    RotateLeftKeys(a, s, a', x);
    assert Keys(a', RotateLeftShape(a, s, x)) == Keys(a', s);
  }


  /**
   * `rotate_left(x)` keeps a well-formed tree whose in-order sequence, node set,
   * keys and colours are unchanged: x becomes the left child of its former right
   * child y, which takes x's place under x's parent or as the root.
   */
  lemma RotateLeftOK(a: Arena, s: Shape, x: int)
    requires WF(a, s) && x in s.ix && LocalOK(a, s, x) && a[x].right != Null
    ensures LocalOK(a, s, a[x].right)
    ensures RotatedLeft(a, RotateLeftArena(a, x), x)
    ensures WF(RotateLeftArena(a, x), RotateLeftShape(a, s, x))
    ensures Keys(RotateLeftArena(a, x), RotateLeftShape(a, s, x)) == Keys(a, s)
  {
    RotationSiteOf(a, s, x, a[x].right);
    RotateLeftArenaIsRotation(a, s, x);
    RotateLeftWF(a, s, RotateLeftArena(a, x), x);
  }


  lemma RotateRightLocals(a: Arena, s: Shape, a': Arena, x: int)
    requires WF(a, s) && x in s.ix && LocalOK(a, s, x) && a[x].left != Null
    requires RotatedRight(a, a', x)
    ensures forall h {:trigger LocalOK(a', RotateRightShape(a, s, x), h)} :: h in s.ix ==> LocalOK(a', RotateRightShape(a, s, x), h)
  {
    RotationSiteOf(a, s, x, a[x].left);
    forall h | h in s.ix
      ensures LocalOK(a', RotateRightShape(a, s, x), h)
    {
      assert LocalOK(a, s, h);
      RotateRightNode(a, s, a', x, h);
    }
  }

  lemma RotateRightKeys(a: Arena, s: Shape, a': Arena, x: int)
    requires WF(a, s) && RotatedRight(a, a', x)
    ensures Keys(a', s) == Keys(a, s)
  {
    forall i | 0 <= i < |s.order|
      ensures Keys(a', s)[i] == Keys(a, s)[i]
    {
      assert LocalOK(a, s, s.order[i]);
    }
  }

  lemma RotateRightWF(a: Arena, s: Shape, a': Arena, x: int)
    requires WF(a, s) && x in s.ix && LocalOK(a, s, x) && a[x].left != Null
    requires RotatedRight(a, a', x)
    ensures WF(a', RotateRightShape(a, s, x))
    ensures Keys(a', RotateRightShape(a, s, x)) == Keys(a, s)
  {
    RotationSiteOf(a, s, x, a[x].left);
    RotateRightLocals(a, s, a', x);
    if |s.order| > 0 && a[x].parent != Header {
      assert LocalOK(a, s, a[Header].parent);
    }
    RotateRightHeader(a, s, a', x);
    RotateRightKeys(a, s, a', x);
    assert Keys(a', RotateRightShape(a, s, x)) == Keys(a', s);
  }


  /** The mirror image of `RotateLeftOK`. */
  lemma RotateRightOK(a: Arena, s: Shape, x: int)
    requires WF(a, s) && x in s.ix && LocalOK(a, s, x) && a[x].left != Null
    ensures LocalOK(a, s, a[x].left)
    ensures RotatedRight(a, RotateRightArena(a, x), x)
    ensures WF(RotateRightArena(a, x), RotateRightShape(a, s, x))
    ensures Keys(RotateRightArena(a, x), RotateRightShape(a, s, x)) == Keys(a, s)
  {
    RotationSiteOf(a, s, x, a[x].left);
    RotateRightArenaIsRotation(a, s, x);
    RotateRightWF(a, s, RotateRightArena(a, x), x);
  }


  /** A node allocated outside the tree changes nothing the tree's conditions read. */
  lemma AddFreshOK(a: Arena, s: Shape, z: int, n: Node)
    requires WF(a, s) && z !in a && z != Null
    ensures WF(a[z := n], s) && Keys(a[z := n], s) == Keys(a, s) && Root(a[z := n]) == Root(a)
    ensures RB(a, s) ==> RB(a[z := n], s)
  {
    var a' := a[z := n];
    forall h | h in s.ix
      ensures LocalOK(a', s, h)
      ensures BHAt(a, s, h) ==> BHAt(a', s, h)
      ensures RedAt(a, h, Null) ==> RedAt(a', h, Null)
    {
      assert LocalOK(a, s, h);
    }
    forall i | 0 <= i < |s.order|
      ensures KeyOf(a', s.order[i]) == KeyOf(a, s.order[i])
    {
      assert LocalOK(a, s, s.order[i]);
    }
  }

  /** Releasing a node just allocated gives back the arena before the allocation. */
  lemma ReleaseAllocated(a: Arena, z: int, n: Node)
    requires z !in a
    ensures a[z := n] - {z} == a
  {
  }

  /** Releasing a node outside the tree changes nothing the tree's conditions read. */
  lemma RemoveFreshOK(a: Arena, s: Shape, z: int)
    requires WF(a, s) && z !in s.ix && z != Header
    ensures WF(a - {z}, s) && Keys(a - {z}, s) == Keys(a, s) && Root(a - {z}) == Root(a)
    ensures KeepsNodes(a, s, a - {z}, s)
    ensures RB(a, s) ==> RB(a - {z}, s)
  {
    var a' := a - {z};
    forall h | h in s.ix
      ensures LocalOK(a', s, h) && KeyOf(a', h) == KeyOf(a, h)
      ensures BHAt(a, s, h) ==> BHAt(a', s, h)
      ensures RedAt(a, h, Null) ==> RedAt(a', h, Null)
    {
      assert LocalOK(a, s, h);
    }
    forall i | 0 <= i < |s.order|
      ensures KeyOf(a', s.order[i]) == KeyOf(a, s.order[i])
    {
      assert LocalOK(a, s, s.order[i]);
    }
    if Root(a) != Null {
      assert LocalOK(a, s, Root(a));
    }
  }
}
