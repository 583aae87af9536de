/**
 * The rebalancing loop of `delete_fix`, case by case, on arenas and shapes.
 *
 * Inside the loop x (possibly `Null`) is one black short under its parent xp, and
 * w is x's sibling. Four cases, each with a mirror image for x on the right:
 *   1. w is red: w turns black, xp red, and a rotation at xp gives x a black sibling;
 *   2. w and both its children are black: w turns red and the deficit moves to xp;
 *   3. only w's inner child is red: a rotation at w makes the outer child red;
 *   4. w's outer child is red: recolouring and a rotation at xp end the loop.
 */
module TreeRebalance {
  import opened TreeLayout
  import opened TreeInsert
  import opened TreeErase

  /**
   * The local configuration of one iteration: x non-red under xp, its sibling w
   * (never `Null`, since w's subtree has a black more than x's), and the local
   * conditions of every node the case rewrites.
   */
  ghost predicate DelFamily(a: Arena, s: Shape, x: int, xp: int, w: int)
  {
    && Header in a && Null !in a && Header !in s.ix && Null !in s.ix
    && xp in s.ix && LocalOK(a, s, xp) && (a[xp].left == x || a[xp].right == x)
    && (x != Null ==> x in s.ix && LocalOK(a, s, x) && BHAt(a, s, x))
    && !IsRed(a, x) && Deficit(a, s, xp, x) && RedAt(a, xp, x)
    && w == Sibling(a, xp, x) && w in s.ix && LocalOK(a, s, w) && BHAt(a, s, w) && RedAt(a, w, x)
    && (a[w].left != Null ==> LocalOK(a, s, a[w].left) && BHAt(a, s, a[w].left) && RedAt(a, a[w].left, x))
    && (a[w].right != Null ==> LocalOK(a, s, a[w].right) && BHAt(a, s, a[w].right) && RedAt(a, a[w].right, x))
    && (a[xp].parent != Header ==> LocalOK(a, s, a[xp].parent))
    && (a[Header].parent == xp <==> a[xp].parent == Header)
  }

  /** The loop condition holds (x is neither the root nor red): the family is in place. */
  lemma DelFamilyOf(a: Arena, s: Shape, x: int, xp: int)
    requires DelFixUp(a, s, x, xp) && Root(a) != x && !IsRed(a, x)
    ensures xp != Header && xp in a && DelFamily(a, s, x, xp, Sibling(a, xp, x))
  {
    assert LocalOK(a, s, xp);
    if x != Null {
      assert LocalOK(a, s, x) && BHAt(a, s, x);
      BhNonNeg(a, s, x, xp);
    }
    var w := Sibling(a, xp, x);
    assert LocalOK(a, s, w) && BHAt(a, s, w) && RedAt(a, w, x) && RedAt(a, xp, x);
    if a[w].left != Null {
      assert LocalOK(a, s, a[w].left) && BHAt(a, s, a[w].left) && RedAt(a, a[w].left, x);
    }
    if a[w].right != Null {
      assert LocalOK(a, s, a[w].right) && BHAt(a, s, a[w].right) && RedAt(a, a[w].right, x);
    }
    if a[xp].parent != Header {
      assert LocalOK(a, s, a[xp].parent);
    } else {
      assert a[Header].parent == xp;
    }
  }

  /** The number of positions xp's subtree covers. */
  function Height(s: Shape, xp: int): int
  {
    if xp in s.lo && xp in s.hi then s.hi[xp] - s.lo[xp] else 0
  }

  /**
   * The loop measure: the deficit climbs towards the root (the header being the
   * lowest value), and after case 1 the same height comes back with a red x.
   */
  ghost function LoopMeasure(a: Arena, s: Shape, x: int, xp: int): int
  {
    2 * (if xp == Header then 0 else |s.order| + 1 - Height(s, xp)) + (if IsRed(a, x) then 0 else 1)
  }

  // ---------------------------------------------------------------------------
  // Case 2: a black sibling with two black children
  // ---------------------------------------------------------------------------

  /** Case 2 at one node: w turns red, so xp is balanced and one black short itself. */
  lemma BlackNephewsAt(a: Arena, s: Shape, x: int, xp: int, w: int, h: int)
    requires DelFamily(a, s, x, xp, w) && !IsRed(a, w) && !IsRed(a, a[w].left) && !IsRed(a, a[w].right)
    requires h in s.ix && LocalOK(a, s, h) && (h != xp ==> BHAt(a, s, h)) && (h != x ==> RedAt(a, h, x))
    ensures var a', s', g := Paint(a, w, Red), AddBh(AddBh(s, w, -1), xp, -1), a[xp].parent;
            && (h != g ==> BHAt(a', s', h))
            && (h != xp ==> RedAt(a', h, xp))
            && (h == g ==> Deficit(a', s', g, xp))
  {
    if h == w {
      BlackNephewsAtSibling(a, s, x, xp, w, h);
    } else if h == xp {
      BlackNephewsAtParent(a, s, x, xp, w, h);
    } else if h == a[xp].parent {
      BlackNephewsAtGrandparent(a, s, x, xp, w, h);
    } else {
      BlackNephewsElsewhere(a, s, x, xp, w, h);
    }
  }

  lemma BlackNephewsAtSibling(a: Arena, s: Shape, x: int, xp: int, w: int, h: int)
    requires DelFamily(a, s, x, xp, w) && !IsRed(a, w) && !IsRed(a, a[w].left) && !IsRed(a, a[w].right)
    requires h in s.ix && LocalOK(a, s, h) && (h != xp ==> BHAt(a, s, h)) && (h != x ==> RedAt(a, h, x))
    requires h == w
    ensures var a', s' := Paint(a, w, Red), AddBh(AddBh(s, w, -1), xp, -1);
            BHAt(a', s', h) && RedAt(a', h, xp)
  {
  }

  lemma BlackNephewsAtParent(a: Arena, s: Shape, x: int, xp: int, w: int, h: int)
    requires DelFamily(a, s, x, xp, w) && !IsRed(a, w) && !IsRed(a, a[w].left) && !IsRed(a, a[w].right)
    requires h in s.ix && LocalOK(a, s, h) && (h != xp ==> BHAt(a, s, h)) && (h != x ==> RedAt(a, h, x))
    requires h == xp
    ensures var a', s' := Paint(a, w, Red), AddBh(AddBh(s, w, -1), xp, -1);
            BHAt(a', s', h)
  {
  }

  lemma BlackNephewsAtGrandparent(a: Arena, s: Shape, x: int, xp: int, w: int, h: int)
    requires DelFamily(a, s, x, xp, w) && !IsRed(a, w) && !IsRed(a, a[w].left) && !IsRed(a, a[w].right)
    requires h in s.ix && LocalOK(a, s, h) && (h != xp ==> BHAt(a, s, h)) && (h != x ==> RedAt(a, h, x))
    requires h == a[xp].parent && h != w && h != xp
    ensures var a', s' := Paint(a, w, Red), AddBh(AddBh(s, w, -1), xp, -1);
            RedAt(a', h, xp) && Deficit(a', s', h, xp)
  {
  }

  lemma BlackNephewsElsewhere(a: Arena, s: Shape, x: int, xp: int, w: int, h: int)
    requires DelFamily(a, s, x, xp, w) && !IsRed(a, w) && !IsRed(a, a[w].left) && !IsRed(a, a[w].right)
    requires h in s.ix && LocalOK(a, s, h) && (h != xp ==> BHAt(a, s, h)) && (h != x ==> RedAt(a, h, x))
    requires h != w && h != xp && h != a[xp].parent
    ensures var a', s' := Paint(a, w, Red), AddBh(AddBh(s, w, -1), xp, -1);
            BHAt(a', s', h) && RedAt(a', h, xp)
  {
  }

  lemma BlackNephewsNodes(a: Arena, s: Shape, x: int, xp: int, w: int)
    requires DelFixUp(a, s, x, xp) && DelFamily(a, s, x, xp, w)
    requires !IsRed(a, w) && !IsRed(a, a[w].left) && !IsRed(a, a[w].right)
    ensures var a', s', g := Paint(a, w, Red), AddBh(AddBh(s, w, -1), xp, -1), a[xp].parent;
            && (forall h {:trigger BHAt(a', s', h)} :: h in s'.ix && h != g ==> BHAt(a', s', h))
            && (forall h {:trigger RedAt(a', h, xp)} :: h in s'.ix && h != xp ==> RedAt(a', h, xp))
            && (g != Header ==> Deficit(a', s', g, xp))
  {
    var a', s', g := Paint(a, w, Red), AddBh(AddBh(s, w, -1), xp, -1), a[xp].parent;
    forall h | h in s'.ix
      ensures h != g ==> BHAt(a', s', h)
      ensures h != xp ==> RedAt(a', h, xp)
      ensures h == g ==> Deficit(a', s', g, xp)
    {
      assert LocalOK(a, s, h) && (h != xp ==> BHAt(a, s, h)) && (h != x ==> RedAt(a, h, x));
      BlackNephewsAt(a, s, x, xp, w, h);
    }
  }

  /**
   * Case 2 (w and both its children black): `sibling->_set_red()` and the deficit
   * moves from x to xp: the loop continues with x := xp and xp := xp's parent, on a
   * tree with the same nodes in the same order.
   */
  lemma BlackNephewsOK(a: Arena, s: Shape, x: int, xp: int, w: int)
    requires DelFixUp(a, s, x, xp) && DelFamily(a, s, x, xp, w)
    requires !IsRed(a, w) && !IsRed(a, a[w].left) && !IsRed(a, a[w].right)
    ensures var a', s' := Paint(a, w, Red), AddBh(AddBh(s, w, -1), xp, -1);
            && DelFixUp(a', s', xp, a[xp].parent) && Keys(a', s') == Keys(a, s)
            && s'.order == s.order && s'.ix == s.ix && s'.lo == s.lo && s'.hi == s.hi && a'.Keys == a.Keys
  {
    RepaintWF(a, s, w, Red, -1, xp, a[xp].color, -1);
    assert Paint(Paint(a, w, Red), xp, a[xp].color) == Paint(a, w, Red);
    BlackNephewsNodes(a, s, x, xp, w);
    assert LocalOK(a, s, Root(a));
  }

  // ---------------------------------------------------------------------------
  // Black heights live in `bh` alone
  // ---------------------------------------------------------------------------

  /** A rotation's shape differs only in the intervals, so the rebalancing invariant carries over. */
  lemma SameBhFixUp(a: Arena, s1: Shape, s2: Shape, x: int, xp: int)
    requires s2.bh == s1.bh && s2.ix == s1.ix && xp in a
    requires forall h {:trigger BHAt(a, s1, h)} :: h in s1.ix && h != xp ==> BHAt(a, s1, h)
    requires Deficit(a, s1, xp, x)
    ensures forall h {:trigger BHAt(a, s2, h)} :: h in s2.ix && h != xp ==> BHAt(a, s2, h)
    ensures Deficit(a, s2, xp, x)
  {
    forall h | h in s2.ix && h != xp
      ensures BHAt(a, s2, h)
    {
      assert BHAt(a, s1, h);
    }
  }

  // ---------------------------------------------------------------------------
  // Case 1: a red sibling
  // ---------------------------------------------------------------------------

  /** Case 1 with x on the left, at one node: after repainting and `rotate_left(xp)`. */
  lemma RedSiblingLeftAt(a: Arena, s: Shape, a2: Arena, x: int, xp: int, w: int, h: int)
    requires DelFamily(a, s, x, xp, w) && a[xp].left == x && IsRed(a, w)
    requires var a1 := Paint(Paint(a, w, Black), xp, Red);
             RotateLeftArena.requires(a1, xp) && RotatedLeft(a1, a2, xp)
    requires h in s.ix && LocalOK(a, s, h) && (h != xp ==> BHAt(a, s, h)) && (h != x ==> RedAt(a, h, x))
    ensures var s1 := AddBh(AddBh(s, w, 1), xp, -1);
            && (h != xp ==> BHAt(a2, s1, h))
            && (h != x ==> RedAt(a2, h, x))
            && (h == xp ==> Deficit(a2, s1, xp, x))
  {
    if h == xp {
      RedSiblingLeftAtParent(a, s, a2, x, xp, w);
    } else if h == w {
      RedSiblingLeftAtSibling(a, s, a2, x, xp, w);
    } else if h == a[w].left {
      RedSiblingLeftAtInner(a, s, a2, x, xp, w);
    } else if h == a[xp].parent {
      RedSiblingLeftAtAbove(a, s, a2, x, xp, w, h);
    } else {
      RedSiblingLeftElsewhere(a, s, a2, x, xp, w, h);
    }
  }

  lemma RedSiblingLeftAtParent(a: Arena, s: Shape, a2: Arena, x: int, xp: int, w: int)
    requires DelFamily(a, s, x, xp, w) && a[xp].left == x && IsRed(a, w)
    requires var a1 := Paint(Paint(a, w, Black), xp, Red);
             RotateLeftArena.requires(a1, xp) && RotatedLeft(a1, a2, xp)
    ensures var s1 := AddBh(AddBh(s, w, 1), xp, -1);
            Deficit(a2, s1, xp, x) && RedAt(a2, xp, x)
  {
  }

  lemma RedSiblingLeftAtSibling(a: Arena, s: Shape, a2: Arena, x: int, xp: int, w: int)
    requires DelFamily(a, s, x, xp, w) && a[xp].left == x && IsRed(a, w)
    requires var a1 := Paint(Paint(a, w, Black), xp, Red);
             RotateLeftArena.requires(a1, xp) && RotatedLeft(a1, a2, xp)
    ensures var s1 := AddBh(AddBh(s, w, 1), xp, -1);
            BHAt(a2, s1, w) && RedAt(a2, w, x)
  {
  }

  lemma RedSiblingLeftAtInner(a: Arena, s: Shape, a2: Arena, x: int, xp: int, w: int)
    requires DelFamily(a, s, x, xp, w) && a[xp].left == x && IsRed(a, w) && a[w].left != Null
    requires var a1 := Paint(Paint(a, w, Black), xp, Red);
             RotateLeftArena.requires(a1, xp) && RotatedLeft(a1, a2, xp)
    ensures var s1 := AddBh(AddBh(s, w, 1), xp, -1);
            BHAt(a2, s1, a[w].left) && RedAt(a2, a[w].left, x)
  {
  }

  lemma RedSiblingLeftAtAbove(a: Arena, s: Shape, a2: Arena, x: int, xp: int, w: int, h: int)
    requires DelFamily(a, s, x, xp, w) && a[xp].left == x && IsRed(a, w)
    requires var a1 := Paint(Paint(a, w, Black), xp, Red);
             RotateLeftArena.requires(a1, xp) && RotatedLeft(a1, a2, xp)
    requires h in s.ix && LocalOK(a, s, h) && BHAt(a, s, h) && RedAt(a, h, x)
    requires h == a[xp].parent && h != w && h != a[w].left
    ensures var s1 := AddBh(AddBh(s, w, 1), xp, -1);
            BHAt(a2, s1, h) && RedAt(a2, h, x)
  {
  }

  lemma RedSiblingLeftElsewhere(a: Arena, s: Shape, a2: Arena, x: int, xp: int, w: int, h: int)
    requires DelFamily(a, s, x, xp, w) && a[xp].left == x && IsRed(a, w)
    requires var a1 := Paint(Paint(a, w, Black), xp, Red);
             RotateLeftArena.requires(a1, xp) && RotatedLeft(a1, a2, xp)
    requires h in s.ix && LocalOK(a, s, h) && (h != xp ==> BHAt(a, s, h)) && (h != x ==> RedAt(a, h, x))
    requires h != xp && h != w && h != a[w].left && h != a[xp].parent
    ensures var s1 := AddBh(AddBh(s, w, 1), xp, -1);
            BHAt(a2, s1, h) && (h != x ==> RedAt(a2, h, x))
  {
  }

  lemma RedSiblingLeftNodes(a: Arena, s: Shape, x: int, xp: int, w: int)
    requires DelFixUp(a, s, x, xp) && DelFamily(a, s, x, xp, w) && a[xp].left == x && IsRed(a, w)
    requires var a1 := Paint(Paint(a, w, Black), xp, Red);
             RotateLeftArena.requires(a1, xp) && RotatedLeft(a1, RotateLeftArena(a1, xp), xp)
    ensures var a2 := RotateLeftArena(Paint(Paint(a, w, Black), xp, Red), xp);
            var s1 := AddBh(AddBh(s, w, 1), xp, -1);
            && (forall h {:trigger BHAt(a2, s1, h)} :: h in s1.ix && h != xp ==> BHAt(a2, s1, h))
            && (forall h {:trigger RedAt(a2, h, x)} :: h in s1.ix && h != x ==> RedAt(a2, h, x))
            && Deficit(a2, s1, xp, x)
  {
    var a2 := RotateLeftArena(Paint(Paint(a, w, Black), xp, Red), xp);
    forall h | h in s.ix
      ensures var s1 := AddBh(AddBh(s, w, 1), xp, -1);
              && (h != xp ==> BHAt(a2, s1, h))
              && (h != x ==> RedAt(a2, h, x))
              && (h == xp ==> Deficit(a2, s1, xp, x))
    {
      assert LocalOK(a, s, h) && (h != xp ==> BHAt(a, s, h)) && (h != x ==> RedAt(a, h, x));
      RedSiblingLeftAt(a, s, a2, x, xp, w, h);
    }
    RedSiblingLeftAt(a, s, a2, x, xp, w, xp);
  }

  lemma RedSiblingLeftRoot(a: Arena, s: Shape, x: int, xp: int, w: int)
    requires DelFixUp(a, s, x, xp) && DelFamily(a, s, x, xp, w) && a[xp].left == x && IsRed(a, w)
    requires var a1 := Paint(Paint(a, w, Black), xp, Red);
             RotateLeftArena.requires(a1, xp) && RotatedLeft(a1, RotateLeftArena(a1, xp), xp)
    ensures var a2 := RotateLeftArena(Paint(Paint(a, w, Black), xp, Red), xp);
            && RootBlack(a2) && Root(a2) != x && a2[xp].parent == w && a2[xp].left == x
            && IsRed(a2, xp) && !IsRed(a2, Sibling(a2, xp, x))
  {
    assert LocalOK(a, s, Root(a));
  }

  lemma RedSiblingLeftFixUp(a: Arena, s: Shape, x: int, xp: int, w: int)
    requires DelFixUp(a, s, x, xp) && DelFamily(a, s, x, xp, w) && a[xp].left == x && IsRed(a, w)
    requires var a1 := Paint(Paint(a, w, Black), xp, Red);
             var s1 := AddBh(AddBh(s, w, 1), xp, -1);
             && RotateLeftArena.requires(a1, xp) && RotatedLeft(a1, RotateLeftArena(a1, xp), xp)
             && RotateLeftShape.requires(a1, s1, xp)
             && WF(RotateLeftArena(a1, xp), RotateLeftShape(a1, s1, xp))
    ensures var a1 := Paint(Paint(a, w, Black), xp, Red);
            var s1 := AddBh(AddBh(s, w, 1), xp, -1);
            DelFixUp(RotateLeftArena(a1, xp), RotateLeftShape(a1, s1, xp), x, xp)
  {
    var a1 := Paint(Paint(a, w, Black), xp, Red);
    var s1 := AddBh(AddBh(s, w, 1), xp, -1);
    RedSiblingLeftNodes(a, s, x, xp, w);
    SameBhFixUp(RotateLeftArena(a1, xp), s1, RotateLeftShape(a1, s1, xp), x, xp);
    RedSiblingLeftRoot(a, s, x, xp, w);
  }

  lemma RedSiblingLeftKeepsReplacement(a: Arena, s: Shape, x: int, xp: int, w: int)
    requires DelFamily(a, s, x, xp, w) && a[xp].left == x && IsRed(a, w)
    requires var a1 := Paint(Paint(a, w, Black), xp, Red);
             RotateLeftArena.requires(a1, xp) && RotatedLeft(a1, RotateLeftArena(a1, xp), xp)
    ensures x != Null ==> x in a && RotateLeftArena(Paint(Paint(a, w, Black), xp, Red), xp)[x] == a[x]
  {
  }

  /**
   * Case 1 with x on the left (w red, so xp is black): w turns black, xp red, and
   * `rotate_left(xp)` lifts w into xp's place. x is still one black short under xp,
   * now red, and its new sibling, w's former left child, is black. The lifted w
   * covers the interval xp covered.
   */
  lemma RedSiblingLeftOK(a: Arena, s: Shape, x: int, xp: int, w: int)
    requires DelFixUp(a, s, x, xp) && DelFamily(a, s, x, xp, w) && a[xp].left == x && IsRed(a, w)
    ensures var a1 := Paint(Paint(a, w, Black), xp, Red);
            var s1 := AddBh(AddBh(s, w, 1), xp, -1);
            && WF(a1, s1) && xp in s1.ix && LocalOK(a1, s1, xp) && a1[xp].right == w && w != Null
            && var a2 := RotateLeftArena(a1, xp); var s2 := RotateLeftShape(a1, s1, xp);
            && DelFixUp(a2, s2, x, xp) && IsRed(a2, xp) && !IsRed(a2, Sibling(a2, xp, x))
            && Keys(a2, s2) == Keys(a, s) && s2.order == s.order && s2.ix == s.ix && a2.Keys == a.Keys
            && a2[xp].parent == w && Height(s2, w) == Height(s, xp) && Sibling(a2, xp, x) == a2[xp].right
            && (x != Null ==> x in a2 && a2[x] == a[x])
  {
    var a1 := Paint(Paint(a, w, Black), xp, Red);
    var s1 := AddBh(AddBh(s, w, 1), xp, -1);
    RepaintWF(a, s, w, Black, 1, xp, Red, -1);
    assert LocalOK(a1, s1, xp);
    RotateLeftOK(a1, s1, xp);
    RedSiblingLeftFixUp(a, s, x, xp, w);
    RedSiblingLeftRoot(a, s, x, xp, w);
    RedSiblingLeftKeepsReplacement(a, s, x, xp, w);
  }

  /** The mirror image: case 1 with x on the right, at one node: after repainting and `rotate_right(xp)`. */
  lemma RedSiblingRightAt(a: Arena, s: Shape, a2: Arena, x: int, xp: int, w: int, h: int)
    requires DelFamily(a, s, x, xp, w) && a[xp].left != x && IsRed(a, w)
    requires var a1 := Paint(Paint(a, w, Black), xp, Red);
             RotateRightArena.requires(a1, xp) && RotatedRight(a1, a2, xp)
    requires h in s.ix && LocalOK(a, s, h) && (h != xp ==> BHAt(a, s, h)) && (h != x ==> RedAt(a, h, x))
    ensures var s1 := AddBh(AddBh(s, w, 1), xp, -1);
            && (h != xp ==> BHAt(a2, s1, h))
            && (h != x ==> RedAt(a2, h, x))
            && (h == xp ==> Deficit(a2, s1, xp, x))
  {
    if h == xp {
      RedSiblingRightAtParent(a, s, a2, x, xp, w);
    } else if h == w {
      RedSiblingRightAtSibling(a, s, a2, x, xp, w);
    } else if h == a[w].right {
      RedSiblingRightAtInner(a, s, a2, x, xp, w);
    } else if h == a[xp].parent {
      RedSiblingRightAtAbove(a, s, a2, x, xp, w, h);
    } else {
      RedSiblingRightElsewhere(a, s, a2, x, xp, w, h);
    }
  }

  lemma RedSiblingRightAtParent(a: Arena, s: Shape, a2: Arena, x: int, xp: int, w: int)
    requires DelFamily(a, s, x, xp, w) && a[xp].left != x && IsRed(a, w)
    requires var a1 := Paint(Paint(a, w, Black), xp, Red);
             RotateRightArena.requires(a1, xp) && RotatedRight(a1, a2, xp)
    ensures var s1 := AddBh(AddBh(s, w, 1), xp, -1);
            Deficit(a2, s1, xp, x) && RedAt(a2, xp, x)
  {
  }

  lemma RedSiblingRightAtSibling(a: Arena, s: Shape, a2: Arena, x: int, xp: int, w: int)
    requires DelFamily(a, s, x, xp, w) && a[xp].left != x && IsRed(a, w)
    requires var a1 := Paint(Paint(a, w, Black), xp, Red);
             RotateRightArena.requires(a1, xp) && RotatedRight(a1, a2, xp)
    ensures var s1 := AddBh(AddBh(s, w, 1), xp, -1);
            BHAt(a2, s1, w) && RedAt(a2, w, x)
  {
  }

  lemma RedSiblingRightAtInner(a: Arena, s: Shape, a2: Arena, x: int, xp: int, w: int)
    requires DelFamily(a, s, x, xp, w) && a[xp].left != x && IsRed(a, w) && a[w].right != Null
    requires var a1 := Paint(Paint(a, w, Black), xp, Red);
             RotateRightArena.requires(a1, xp) && RotatedRight(a1, a2, xp)
    ensures var s1 := AddBh(AddBh(s, w, 1), xp, -1);
            BHAt(a2, s1, a[w].right) && RedAt(a2, a[w].right, x)
  {
  }

  lemma RedSiblingRightAtAbove(a: Arena, s: Shape, a2: Arena, x: int, xp: int, w: int, h: int)
    requires DelFamily(a, s, x, xp, w) && a[xp].left != x && IsRed(a, w)
    requires var a1 := Paint(Paint(a, w, Black), xp, Red);
             RotateRightArena.requires(a1, xp) && RotatedRight(a1, a2, xp)
    requires h in s.ix && LocalOK(a, s, h) && BHAt(a, s, h) && RedAt(a, h, x)
    requires h == a[xp].parent && h != w && h != a[w].right
    ensures var s1 := AddBh(AddBh(s, w, 1), xp, -1);
            BHAt(a2, s1, h) && RedAt(a2, h, x)
  {
  }

  lemma RedSiblingRightElsewhere(a: Arena, s: Shape, a2: Arena, x: int, xp: int, w: int, h: int)
    requires DelFamily(a, s, x, xp, w) && a[xp].left != x && IsRed(a, w)
    requires var a1 := Paint(Paint(a, w, Black), xp, Red);
             RotateRightArena.requires(a1, xp) && RotatedRight(a1, a2, xp)
    requires h in s.ix && LocalOK(a, s, h) && (h != xp ==> BHAt(a, s, h)) && (h != x ==> RedAt(a, h, x))
    requires h != xp && h != w && h != a[w].right && h != a[xp].parent
    ensures var s1 := AddBh(AddBh(s, w, 1), xp, -1);
            BHAt(a2, s1, h) && (h != x ==> RedAt(a2, h, x))
  {
  }

  lemma RedSiblingRightNodes(a: Arena, s: Shape, x: int, xp: int, w: int)
    requires DelFixUp(a, s, x, xp) && DelFamily(a, s, x, xp, w) && a[xp].left != x && IsRed(a, w)
    requires var a1 := Paint(Paint(a, w, Black), xp, Red);
             RotateRightArena.requires(a1, xp) && RotatedRight(a1, RotateRightArena(a1, xp), xp)
    ensures var a2 := RotateRightArena(Paint(Paint(a, w, Black), xp, Red), xp);
            var s1 := AddBh(AddBh(s, w, 1), xp, -1);
            && (forall h {:trigger BHAt(a2, s1, h)} :: h in s1.ix && h != xp ==> BHAt(a2, s1, h))
            && (forall h {:trigger RedAt(a2, h, x)} :: h in s1.ix && h != x ==> RedAt(a2, h, x))
            && Deficit(a2, s1, xp, x)
  {
    var a2 := RotateRightArena(Paint(Paint(a, w, Black), xp, Red), xp);
    forall h | h in s.ix
      ensures var s1 := AddBh(AddBh(s, w, 1), xp, -1);
              && (h != xp ==> BHAt(a2, s1, h))
              && (h != x ==> RedAt(a2, h, x))
              && (h == xp ==> Deficit(a2, s1, xp, x))
    {
      assert LocalOK(a, s, h) && (h != xp ==> BHAt(a, s, h)) && (h != x ==> RedAt(a, h, x));
      RedSiblingRightAt(a, s, a2, x, xp, w, h);
    }
    RedSiblingRightAt(a, s, a2, x, xp, w, xp);
  }

  lemma RedSiblingRightRoot(a: Arena, s: Shape, x: int, xp: int, w: int)
    requires DelFixUp(a, s, x, xp) && DelFamily(a, s, x, xp, w) && a[xp].left != x && IsRed(a, w)
    requires var a1 := Paint(Paint(a, w, Black), xp, Red);
             RotateRightArena.requires(a1, xp) && RotatedRight(a1, RotateRightArena(a1, xp), xp)
    ensures var a2 := RotateRightArena(Paint(Paint(a, w, Black), xp, Red), xp);
            && RootBlack(a2) && Root(a2) != x && a2[xp].parent == w && a2[xp].right == x
            && IsRed(a2, xp) && !IsRed(a2, Sibling(a2, xp, x))
  {
    assert LocalOK(a, s, Root(a));
  }

  lemma RedSiblingRightFixUp(a: Arena, s: Shape, x: int, xp: int, w: int)
    requires DelFixUp(a, s, x, xp) && DelFamily(a, s, x, xp, w) && a[xp].left != x && IsRed(a, w)
    requires var a1 := Paint(Paint(a, w, Black), xp, Red);
             var s1 := AddBh(AddBh(s, w, 1), xp, -1);
             && RotateRightArena.requires(a1, xp) && RotatedRight(a1, RotateRightArena(a1, xp), xp)
             && RotateRightShape.requires(a1, s1, xp)
             && WF(RotateRightArena(a1, xp), RotateRightShape(a1, s1, xp))
    ensures var a1 := Paint(Paint(a, w, Black), xp, Red);
            var s1 := AddBh(AddBh(s, w, 1), xp, -1);
            DelFixUp(RotateRightArena(a1, xp), RotateRightShape(a1, s1, xp), x, xp)
  {
    var a1 := Paint(Paint(a, w, Black), xp, Red);
    var s1 := AddBh(AddBh(s, w, 1), xp, -1);
    RedSiblingRightNodes(a, s, x, xp, w);
    SameBhFixUp(RotateRightArena(a1, xp), s1, RotateRightShape(a1, s1, xp), x, xp);
    RedSiblingRightRoot(a, s, x, xp, w);
  }

  lemma RedSiblingRightKeepsReplacement(a: Arena, s: Shape, x: int, xp: int, w: int)
    requires DelFamily(a, s, x, xp, w) && a[xp].left != x && IsRed(a, w)
    requires var a1 := Paint(Paint(a, w, Black), xp, Red);
             RotateRightArena.requires(a1, xp) && RotatedRight(a1, RotateRightArena(a1, xp), xp)
    ensures x != Null ==> x in a && RotateRightArena(Paint(Paint(a, w, Black), xp, Red), xp)[x] == a[x]
  {
  }

  /**
   * Case 1 with x on the right (w red, so xp is black): w turns black, xp red, and
   * `rotate_right(xp)` lifts w into xp's place. x is still one black short under xp,
   * now red, and its new sibling, w's former right child, is black. The lifted w
   * covers the interval xp covered.
   */
  lemma RedSiblingRightOK(a: Arena, s: Shape, x: int, xp: int, w: int)
    requires DelFixUp(a, s, x, xp) && DelFamily(a, s, x, xp, w) && a[xp].left != x && IsRed(a, w)
    ensures var a1 := Paint(Paint(a, w, Black), xp, Red);
            var s1 := AddBh(AddBh(s, w, 1), xp, -1);
            && WF(a1, s1) && xp in s1.ix && LocalOK(a1, s1, xp) && a1[xp].left == w && w != Null
            && var a2 := RotateRightArena(a1, xp); var s2 := RotateRightShape(a1, s1, xp);
            && DelFixUp(a2, s2, x, xp) && IsRed(a2, xp) && !IsRed(a2, Sibling(a2, xp, x))
            && Keys(a2, s2) == Keys(a, s) && s2.order == s.order && s2.ix == s.ix && a2.Keys == a.Keys
            && a2[xp].parent == w && Height(s2, w) == Height(s, xp) && Sibling(a2, xp, x) == a2[xp].left
            && (x != Null ==> x in a2 && a2[x] == a[x])
  {
    var a1 := Paint(Paint(a, w, Black), xp, Red);
    var s1 := AddBh(AddBh(s, w, 1), xp, -1);
    RepaintWF(a, s, w, Black, 1, xp, Red, -1);
    assert LocalOK(a1, s1, xp);
    RotateRightOK(a1, s1, xp);
    RedSiblingRightFixUp(a, s, x, xp, w);
    RedSiblingRightRoot(a, s, x, xp, w);
    RedSiblingRightKeepsReplacement(a, s, x, xp, w);
  }

  // ---------------------------------------------------------------------------
  // Case 3: a black sibling whose inner child alone is red
  // ---------------------------------------------------------------------------

  /** Case 3 with x on the left, at one node: after repainting and `rotate_right(w)`. */
  lemma InnerNephewLeftAt(a: Arena, s: Shape, a2: Arena, x: int, xp: int, w: int, h: int)
    requires DelFamily(a, s, x, xp, w) && a[xp].left == x && !IsRed(a, w)
    requires IsRed(a, a[w].left) && !IsRed(a, a[w].right)
    requires var a1 := Paint(Paint(a, a[w].left, Black), w, Red);
             RotateRightArena.requires(a1, w) && RotatedRight(a1, a2, w)
    requires h in s.ix && LocalOK(a, s, h) && (h != xp ==> BHAt(a, s, h)) && (h != x ==> RedAt(a, h, x))
    ensures var s1 := AddBh(AddBh(s, a[w].left, 1), w, -1);
            && (h != xp ==> BHAt(a2, s1, h))
            && (h != x ==> RedAt(a2, h, x))
            && (h == xp ==> Deficit(a2, s1, xp, x))
  {
    if h == xp {
      InnerNephewLeftAtParent(a, s, a2, x, xp, w);
    } else if h == w {
      InnerNephewLeftAtSibling(a, s, a2, x, xp, w);
    } else if h == a[w].left {
      InnerNephewLeftAtNephew(a, s, a2, x, xp, w);
    } else {
      InnerNephewLeftElsewhere(a, s, a2, x, xp, w, h);
    }
  }

  lemma InnerNephewLeftAtParent(a: Arena, s: Shape, a2: Arena, x: int, xp: int, w: int)
    requires DelFamily(a, s, x, xp, w) && a[xp].left == x && !IsRed(a, w)
    requires IsRed(a, a[w].left) && !IsRed(a, a[w].right)
    requires var a1 := Paint(Paint(a, a[w].left, Black), w, Red);
             RotateRightArena.requires(a1, w) && RotatedRight(a1, a2, w)
    ensures var s1 := AddBh(AddBh(s, a[w].left, 1), w, -1);
            Deficit(a2, s1, xp, x) && RedAt(a2, xp, x)
  {
  }

  lemma InnerNephewLeftAtSibling(a: Arena, s: Shape, a2: Arena, x: int, xp: int, w: int)
    requires DelFamily(a, s, x, xp, w) && a[xp].left == x && !IsRed(a, w)
    requires IsRed(a, a[w].left) && !IsRed(a, a[w].right)
    requires var a1 := Paint(Paint(a, a[w].left, Black), w, Red);
             RotateRightArena.requires(a1, w) && RotatedRight(a1, a2, w)
    ensures var s1 := AddBh(AddBh(s, a[w].left, 1), w, -1);
            BHAt(a2, s1, w) && RedAt(a2, w, x)
  {
  }

  lemma InnerNephewLeftAtNephew(a: Arena, s: Shape, a2: Arena, x: int, xp: int, w: int)
    requires DelFamily(a, s, x, xp, w) && a[xp].left == x && !IsRed(a, w)
    requires IsRed(a, a[w].left) && !IsRed(a, a[w].right)
    requires var a1 := Paint(Paint(a, a[w].left, Black), w, Red);
             RotateRightArena.requires(a1, w) && RotatedRight(a1, a2, w)
    ensures var s1 := AddBh(AddBh(s, a[w].left, 1), w, -1);
            BHAt(a2, s1, a[w].left) && RedAt(a2, a[w].left, x)
  {
  }

  lemma InnerNephewLeftElsewhere(a: Arena, s: Shape, a2: Arena, x: int, xp: int, w: int, h: int)
    requires DelFamily(a, s, x, xp, w) && a[xp].left == x && !IsRed(a, w)
    requires IsRed(a, a[w].left) && !IsRed(a, a[w].right)
    requires var a1 := Paint(Paint(a, a[w].left, Black), w, Red);
             RotateRightArena.requires(a1, w) && RotatedRight(a1, a2, w)
    requires h in s.ix && LocalOK(a, s, h) && (h != xp ==> BHAt(a, s, h)) && (h != x ==> RedAt(a, h, x))
    requires h != xp && h != w && h != a[w].left
    ensures var s1 := AddBh(AddBh(s, a[w].left, 1), w, -1);
            BHAt(a2, s1, h) && (h != x ==> RedAt(a2, h, x))
  {
  }

  lemma InnerNephewLeftNodes(a: Arena, s: Shape, x: int, xp: int, w: int)
    requires DelFixUp(a, s, x, xp) && DelFamily(a, s, x, xp, w) && a[xp].left == x && !IsRed(a, w)
    requires IsRed(a, a[w].left) && !IsRed(a, a[w].right)
    requires var a1 := Paint(Paint(a, a[w].left, Black), w, Red);
             RotateRightArena.requires(a1, w) && RotatedRight(a1, RotateRightArena(a1, w), w)
    ensures var a2 := RotateRightArena(Paint(Paint(a, a[w].left, Black), w, Red), w);
            var s1 := AddBh(AddBh(s, a[w].left, 1), w, -1);
            && (forall h {:trigger BHAt(a2, s1, h)} :: h in s1.ix && h != xp ==> BHAt(a2, s1, h))
            && (forall h {:trigger RedAt(a2, h, x)} :: h in s1.ix && h != x ==> RedAt(a2, h, x))
            && Deficit(a2, s1, xp, x)
  {
    var a2 := RotateRightArena(Paint(Paint(a, a[w].left, Black), w, Red), w);
    forall h | h in s.ix
      ensures var s1 := AddBh(AddBh(s, a[w].left, 1), w, -1);
              && (h != xp ==> BHAt(a2, s1, h))
              && (h != x ==> RedAt(a2, h, x))
              && (h == xp ==> Deficit(a2, s1, xp, x))
    {
      assert LocalOK(a, s, h) && (h != xp ==> BHAt(a, s, h)) && (h != x ==> RedAt(a, h, x));
      InnerNephewLeftAt(a, s, a2, x, xp, w, h);
    }
    InnerNephewLeftAt(a, s, a2, x, xp, w, xp);
  }

  lemma InnerNephewLeftRoot(a: Arena, s: Shape, x: int, xp: int, w: int)
    requires DelFixUp(a, s, x, xp) && DelFamily(a, s, x, xp, w) && a[xp].left == x && !IsRed(a, w)
    requires IsRed(a, a[w].left) && !IsRed(a, a[w].right)
    requires var a1 := Paint(Paint(a, a[w].left, Black), w, Red);
             RotateRightArena.requires(a1, w) && RotatedRight(a1, RotateRightArena(a1, w), w)
    ensures var a2 := RotateRightArena(Paint(Paint(a, a[w].left, Black), w, Red), w);
            && RootBlack(a2) && Root(a2) != x && a2[xp].left == x && Sibling(a2, xp, x) == a[w].left
            && !IsRed(a2, a[w].left) && IsRed(a2, a2[a[w].left].right)
  {
    assert LocalOK(a, s, Root(a));
  }

  lemma InnerNephewLeftFixUp(a: Arena, s: Shape, x: int, xp: int, w: int)
    requires DelFixUp(a, s, x, xp) && DelFamily(a, s, x, xp, w) && a[xp].left == x && !IsRed(a, w)
    requires IsRed(a, a[w].left) && !IsRed(a, a[w].right)
    requires var a1 := Paint(Paint(a, a[w].left, Black), w, Red);
             var s1 := AddBh(AddBh(s, a[w].left, 1), w, -1);
             && RotateRightArena.requires(a1, w) && RotatedRight(a1, RotateRightArena(a1, w), w)
             && RotateRightShape.requires(a1, s1, w)
             && WF(RotateRightArena(a1, w), RotateRightShape(a1, s1, w))
    ensures var a1 := Paint(Paint(a, a[w].left, Black), w, Red);
            var s1 := AddBh(AddBh(s, a[w].left, 1), w, -1);
            DelFixUp(RotateRightArena(a1, w), RotateRightShape(a1, s1, w), x, xp)
  {
    var a1 := Paint(Paint(a, a[w].left, Black), w, Red);
    var s1 := AddBh(AddBh(s, a[w].left, 1), w, -1);
    InnerNephewLeftNodes(a, s, x, xp, w);
    SameBhFixUp(RotateRightArena(a1, w), s1, RotateRightShape(a1, s1, w), x, xp);
    InnerNephewLeftRoot(a, s, x, xp, w);
  }

  lemma InnerNephewLeftKeepsReplacement(a: Arena, s: Shape, x: int, xp: int, w: int)
    requires DelFamily(a, s, x, xp, w) && a[xp].left == x && !IsRed(a, w) && IsRed(a, a[w].left)
    requires var a1 := Paint(Paint(a, a[w].left, Black), w, Red);
             RotateRightArena.requires(a1, w) && RotatedRight(a1, RotateRightArena(a1, w), w)
    ensures x != Null ==> x in a && RotateRightArena(Paint(Paint(a, a[w].left, Black), w, Red), w)[x] == a[x]
  {
  }

  /**
   * Case 3 with x on the left (w black, its right child black, its left child wl
   * red): wl turns black, w red, and `rotate_right(w)` lifts wl into w's place. x is
   * still one black short under xp, and its new sibling wl is black with a red right
   * child, which is case 4.
   */
  lemma InnerNephewLeftOK(a: Arena, s: Shape, x: int, xp: int, w: int)
    requires DelFixUp(a, s, x, xp) && DelFamily(a, s, x, xp, w) && a[xp].left == x && !IsRed(a, w)
    requires IsRed(a, a[w].left) && !IsRed(a, a[w].right)
    ensures var a1 := Paint(Paint(a, a[w].left, Black), w, Red);
            var s1 := AddBh(AddBh(s, a[w].left, 1), w, -1);
            && WF(a1, s1) && w in s1.ix && LocalOK(a1, s1, w) && a1[w].left == a[w].left && a[w].left != Null
            && var a2 := RotateRightArena(a1, w); var s2 := RotateRightShape(a1, s1, w);
            && DelFixUp(a2, s2, x, xp) && a2[xp].left == x && Sibling(a2, xp, x) == a[w].left
            && !IsRed(a2, a[w].left) && IsRed(a2, a2[a[w].left].right) && (x != Null ==> x in a2 && a2[x] == a[x])
            && Keys(a2, s2) == Keys(a, s) && s2.order == s.order && s2.ix == s.ix && a2.Keys == a.Keys
  {
    var a1 := Paint(Paint(a, a[w].left, Black), w, Red);
    var s1 := AddBh(AddBh(s, a[w].left, 1), w, -1);
    RepaintWF(a, s, a[w].left, Black, 1, w, Red, -1);
    assert LocalOK(a1, s1, w);
    RotateRightOK(a1, s1, w);
    InnerNephewLeftFixUp(a, s, x, xp, w);
    InnerNephewLeftRoot(a, s, x, xp, w);
    InnerNephewLeftKeepsReplacement(a, s, x, xp, w);
  }

  /** The mirror image: case 3 with x on the right, at one node: after repainting and `rotate_left(w)`. */
  lemma InnerNephewRightAt(a: Arena, s: Shape, a2: Arena, x: int, xp: int, w: int, h: int)
    requires DelFamily(a, s, x, xp, w) && a[xp].left != x && !IsRed(a, w)
    requires IsRed(a, a[w].right) && !IsRed(a, a[w].left)
    requires var a1 := Paint(Paint(a, a[w].right, Black), w, Red);
             RotateLeftArena.requires(a1, w) && RotatedLeft(a1, a2, w)
    requires h in s.ix && LocalOK(a, s, h) && (h != xp ==> BHAt(a, s, h)) && (h != x ==> RedAt(a, h, x))
    ensures var s1 := AddBh(AddBh(s, a[w].right, 1), w, -1);
            && (h != xp ==> BHAt(a2, s1, h))
            && (h != x ==> RedAt(a2, h, x))
            && (h == xp ==> Deficit(a2, s1, xp, x))
  {
    if h == xp {
      InnerNephewRightAtParent(a, s, a2, x, xp, w);
    } else if h == w {
      InnerNephewRightAtSibling(a, s, a2, x, xp, w);
    } else if h == a[w].right {
      InnerNephewRightAtNephew(a, s, a2, x, xp, w);
    } else {
      InnerNephewRightElsewhere(a, s, a2, x, xp, w, h);
    }
  }

  lemma InnerNephewRightAtParent(a: Arena, s: Shape, a2: Arena, x: int, xp: int, w: int)
    requires DelFamily(a, s, x, xp, w) && a[xp].left != x && !IsRed(a, w)
    requires IsRed(a, a[w].right) && !IsRed(a, a[w].left)
    requires var a1 := Paint(Paint(a, a[w].right, Black), w, Red);
             RotateLeftArena.requires(a1, w) && RotatedLeft(a1, a2, w)
    ensures var s1 := AddBh(AddBh(s, a[w].right, 1), w, -1);
            Deficit(a2, s1, xp, x) && RedAt(a2, xp, x)
  {
  }

  lemma InnerNephewRightAtSibling(a: Arena, s: Shape, a2: Arena, x: int, xp: int, w: int)
    requires DelFamily(a, s, x, xp, w) && a[xp].left != x && !IsRed(a, w)
    requires IsRed(a, a[w].right) && !IsRed(a, a[w].left)
    requires var a1 := Paint(Paint(a, a[w].right, Black), w, Red);
             RotateLeftArena.requires(a1, w) && RotatedLeft(a1, a2, w)
    ensures var s1 := AddBh(AddBh(s, a[w].right, 1), w, -1);
            BHAt(a2, s1, w) && RedAt(a2, w, x)
  {
  }

  lemma InnerNephewRightAtNephew(a: Arena, s: Shape, a2: Arena, x: int, xp: int, w: int)
    requires DelFamily(a, s, x, xp, w) && a[xp].left != x && !IsRed(a, w)
    requires IsRed(a, a[w].right) && !IsRed(a, a[w].left)
    requires var a1 := Paint(Paint(a, a[w].right, Black), w, Red);
             RotateLeftArena.requires(a1, w) && RotatedLeft(a1, a2, w)
    ensures var s1 := AddBh(AddBh(s, a[w].right, 1), w, -1);
            BHAt(a2, s1, a[w].right) && RedAt(a2, a[w].right, x)
  {
  }

  lemma InnerNephewRightElsewhere(a: Arena, s: Shape, a2: Arena, x: int, xp: int, w: int, h: int)
    requires DelFamily(a, s, x, xp, w) && a[xp].left != x && !IsRed(a, w)
    requires IsRed(a, a[w].right) && !IsRed(a, a[w].left)
    requires var a1 := Paint(Paint(a, a[w].right, Black), w, Red);
             RotateLeftArena.requires(a1, w) && RotatedLeft(a1, a2, w)
    requires h in s.ix && LocalOK(a, s, h) && (h != xp ==> BHAt(a, s, h)) && (h != x ==> RedAt(a, h, x))
    requires h != xp && h != w && h != a[w].right
    ensures var s1 := AddBh(AddBh(s, a[w].right, 1), w, -1);
            BHAt(a2, s1, h) && (h != x ==> RedAt(a2, h, x))
  {
  }

  lemma InnerNephewRightNodes(a: Arena, s: Shape, x: int, xp: int, w: int)
    requires DelFixUp(a, s, x, xp) && DelFamily(a, s, x, xp, w) && a[xp].left != x && !IsRed(a, w)
    requires IsRed(a, a[w].right) && !IsRed(a, a[w].left)
    requires var a1 := Paint(Paint(a, a[w].right, Black), w, Red);
             RotateLeftArena.requires(a1, w) && RotatedLeft(a1, RotateLeftArena(a1, w), w)
    ensures var a2 := RotateLeftArena(Paint(Paint(a, a[w].right, Black), w, Red), w);
            var s1 := AddBh(AddBh(s, a[w].right, 1), w, -1);
            && (forall h {:trigger BHAt(a2, s1, h)} :: h in s1.ix && h != xp ==> BHAt(a2, s1, h))
            && (forall h {:trigger RedAt(a2, h, x)} :: h in s1.ix && h != x ==> RedAt(a2, h, x))
            && Deficit(a2, s1, xp, x)
  {
    var a2 := RotateLeftArena(Paint(Paint(a, a[w].right, Black), w, Red), w);
    forall h | h in s.ix
      ensures var s1 := AddBh(AddBh(s, a[w].right, 1), w, -1);
              && (h != xp ==> BHAt(a2, s1, h))
              && (h != x ==> RedAt(a2, h, x))
              && (h == xp ==> Deficit(a2, s1, xp, x))
    {
      assert LocalOK(a, s, h) && (h != xp ==> BHAt(a, s, h)) && (h != x ==> RedAt(a, h, x));
      InnerNephewRightAt(a, s, a2, x, xp, w, h);
    }
    InnerNephewRightAt(a, s, a2, x, xp, w, xp);
  }

  lemma InnerNephewRightRoot(a: Arena, s: Shape, x: int, xp: int, w: int)
    requires DelFixUp(a, s, x, xp) && DelFamily(a, s, x, xp, w) && a[xp].left != x && !IsRed(a, w)
    requires IsRed(a, a[w].right) && !IsRed(a, a[w].left)
    requires var a1 := Paint(Paint(a, a[w].right, Black), w, Red);
             RotateLeftArena.requires(a1, w) && RotatedLeft(a1, RotateLeftArena(a1, w), w)
    ensures var a2 := RotateLeftArena(Paint(Paint(a, a[w].right, Black), w, Red), w);
            && RootBlack(a2) && Root(a2) != x && a2[xp].right == x && Sibling(a2, xp, x) == a[w].right
            && !IsRed(a2, a[w].right) && IsRed(a2, a2[a[w].right].left)
  {
    assert LocalOK(a, s, Root(a));
  }

  lemma InnerNephewRightFixUp(a: Arena, s: Shape, x: int, xp: int, w: int)
    requires DelFixUp(a, s, x, xp) && DelFamily(a, s, x, xp, w) && a[xp].left != x && !IsRed(a, w)
    requires IsRed(a, a[w].right) && !IsRed(a, a[w].left)
    requires var a1 := Paint(Paint(a, a[w].right, Black), w, Red);
             var s1 := AddBh(AddBh(s, a[w].right, 1), w, -1);
             && RotateLeftArena.requires(a1, w) && RotatedLeft(a1, RotateLeftArena(a1, w), w)
             && RotateLeftShape.requires(a1, s1, w)
             && WF(RotateLeftArena(a1, w), RotateLeftShape(a1, s1, w))
    ensures var a1 := Paint(Paint(a, a[w].right, Black), w, Red);
            var s1 := AddBh(AddBh(s, a[w].right, 1), w, -1);
            DelFixUp(RotateLeftArena(a1, w), RotateLeftShape(a1, s1, w), x, xp)
  {
    var a1 := Paint(Paint(a, a[w].right, Black), w, Red);
    var s1 := AddBh(AddBh(s, a[w].right, 1), w, -1);
    InnerNephewRightNodes(a, s, x, xp, w);
    SameBhFixUp(RotateLeftArena(a1, w), s1, RotateLeftShape(a1, s1, w), x, xp);
    InnerNephewRightRoot(a, s, x, xp, w);
  }

  lemma InnerNephewRightKeepsReplacement(a: Arena, s: Shape, x: int, xp: int, w: int)
    requires DelFamily(a, s, x, xp, w) && a[xp].left != x && !IsRed(a, w) && IsRed(a, a[w].right)
    requires var a1 := Paint(Paint(a, a[w].right, Black), w, Red);
             RotateLeftArena.requires(a1, w) && RotatedLeft(a1, RotateLeftArena(a1, w), w)
    ensures x != Null ==> x in a && RotateLeftArena(Paint(Paint(a, a[w].right, Black), w, Red), w)[x] == a[x]
  {
  }

  /**
   * Case 3 with x on the right (w black, its left child black, its right child wl
   * red): wl turns black, w red, and `rotate_left(w)` lifts wl into w's place. x is
   * still one black short under xp, and its new sibling wl is black with a red right
   * child, which is case 4.
   */
  lemma InnerNephewRightOK(a: Arena, s: Shape, x: int, xp: int, w: int)
    requires DelFixUp(a, s, x, xp) && DelFamily(a, s, x, xp, w) && a[xp].left != x && !IsRed(a, w)
    requires IsRed(a, a[w].right) && !IsRed(a, a[w].left)
    ensures var a1 := Paint(Paint(a, a[w].right, Black), w, Red);
            var s1 := AddBh(AddBh(s, a[w].right, 1), w, -1);
            && WF(a1, s1) && w in s1.ix && LocalOK(a1, s1, w) && a1[w].right == a[w].right && a[w].right != Null
            && var a2 := RotateLeftArena(a1, w); var s2 := RotateLeftShape(a1, s1, w);
            && DelFixUp(a2, s2, x, xp) && a2[xp].right == x && Sibling(a2, xp, x) == a[w].right
            && !IsRed(a2, a[w].right) && IsRed(a2, a2[a[w].right].left) && (x != Null ==> x in a2 && a2[x] == a[x])
            && Keys(a2, s2) == Keys(a, s) && s2.order == s.order && s2.ix == s.ix && a2.Keys == a.Keys
  {
    var a1 := Paint(Paint(a, a[w].right, Black), w, Red);
    var s1 := AddBh(AddBh(s, a[w].right, 1), w, -1);
    RepaintWF(a, s, a[w].right, Black, 1, w, Red, -1);
    assert LocalOK(a1, s1, w);
    RotateLeftOK(a1, s1, w);
    InnerNephewRightFixUp(a, s, x, xp, w);
    InnerNephewRightRoot(a, s, x, xp, w);
    InnerNephewRightKeepsReplacement(a, s, x, xp, w);
  }

  // ---------------------------------------------------------------------------
  // Case 4: a black sibling whose outer child is red
  // ---------------------------------------------------------------------------

  /**
   * Case 4's repainting: `sibling->_color = replacement_parent->_color`, then xp and
   * w's outer child wr black.
   */
  ghost function OuterRecolor(a: Arena, xp: int, w: int, wr: int): Arena
    requires xp in a && w in a && wr in a
  {
    Paint(Paint(Paint(a, w, a[xp].color), xp, Black), wr, Black)
  }

  /** The black heights after case 4: w and xp exchange theirs, and wr gains one. */
  ghost function OuterBh(s: Shape, xp: int, w: int, wr: int): Shape
    requires xp in s.bh && w in s.bh && wr in s.bh
  {
    s.(bh := s.bh[w := s.bh[xp]][xp := s.bh[w]][wr := s.bh[wr] + 1])
  }

  /** Repainting and changing black heights keeps the links and the keys. */
  lemma OuterRecolorWF(a: Arena, s: Shape, xp: int, w: int, wr: int)
    requires WF(a, s) && xp in s.ix && w in s.ix && wr in s.ix && xp in a && w in a && wr in a
    requires xp in s.bh && w in s.bh && wr in s.bh
    ensures var a1, s1 := OuterRecolor(a, xp, w, wr), OuterBh(s, xp, w, wr);
            && WF(a1, s1) && Keys(a1, s1) == Keys(a, s) && s1.order == s.order && s1.ix == s.ix
            && s1.lo == s.lo && s1.hi == s.hi && a1.Keys == a.Keys
  {
    OuterPaintWF(a, s, xp, w, wr);
    OuterBhWF(OuterRecolor(a, xp, w, wr), s, xp, w, wr);
  }

  lemma OuterPaintWF(a: Arena, s: Shape, xp: int, w: int, wr: int)
    requires WF(a, s) && xp in s.ix && w in s.ix && wr in s.ix && xp in a && w in a && wr in a
    ensures var a1 := OuterRecolor(a, xp, w, wr);
            WF(a1, s) && Keys(a1, s) == Keys(a, s) && a1.Keys == a.Keys
  {
    PaintWF(a, s, w, a[xp].color);
    PaintWF(Paint(a, w, a[xp].color), s, xp, Black);
    PaintWF(Paint(Paint(a, w, a[xp].color), xp, Black), s, wr, Black);
  }

  lemma OuterBhWF(a1: Arena, s: Shape, xp: int, w: int, wr: int)
    requires WF(a1, s) && xp in s.bh && w in s.bh && wr in s.bh
    ensures var s1 := OuterBh(s, xp, w, wr);
            && WF(a1, s1) && Keys(a1, s1) == Keys(a1, s) && s1.order == s.order && s1.ix == s.ix
            && s1.lo == s.lo && s1.hi == s.hi
  {
    var s1 := OuterBh(s, xp, w, wr);
    assert s1.bh.Keys == s.bh.Keys;
    forall m | m in s.ix
      ensures LocalOK(a1, s1, m)
    {
      assert LocalOK(a1, s, m);
      SameLinkShape(a1, s, s1, m);
    }
  }

  /** The rotation keeps the black heights, so the per-node facts carry over to its shape. */
  lemma SameBhRB(a: Arena, s1: Shape, s2: Shape)
    requires s2.bh == s1.bh && s2.ix == s1.ix
    requires forall h {:trigger BHAt(a, s1, h)} :: h in s1.ix ==> BHAt(a, s1, h)
    requires forall h {:trigger RedAt(a, h, Null)} :: h in s1.ix ==> RedAt(a, h, Null)
    requires RootBlack(a)
    ensures RB(a, s2)
  {
    forall h | h in s2.ix
      ensures BHAt(a, s2, h)
    {
      assert BHAt(a, s1, h);
    }
  }

  /** Case 4 with x on the left, at one node: after repainting and `rotate_left(xp)`. */
  lemma OuterNephewLeftAt(a: Arena, s: Shape, a2: Arena, x: int, xp: int, w: int, h: int)
    requires DelFamily(a, s, x, xp, w) && a[xp].left == x && !IsRed(a, w) && IsRed(a, a[w].right)
    requires var a1 := OuterRecolor(a, xp, w, a[w].right);
             RotateLeftArena.requires(a1, xp) && RotatedLeft(a1, a2, xp)
    requires h in s.ix && LocalOK(a, s, h) && (h != xp ==> BHAt(a, s, h)) && (h != x ==> RedAt(a, h, x))
    ensures var s1 := OuterBh(s, xp, w, a[w].right);
            BHAt(a2, s1, h) && RedAt(a2, h, Null)
  {
    if h == xp {
      OuterNephewLeftAtParent(a, s, a2, x, xp, w);
    } else if h == w {
      OuterNephewLeftAtSibling(a, s, a2, x, xp, w);
    } else if h == a[w].left {
      OuterNephewLeftAtInner(a, s, a2, x, xp, w);
    } else if h == a[w].right {
      OuterNephewLeftAtOuter(a, s, a2, x, xp, w);
    } else if h == a[xp].parent {
      OuterNephewLeftAtAbove(a, s, a2, x, xp, w, h);
    } else if h == x {
      OuterNephewLeftAtReplacement(a, s, a2, x, xp, w);
    } else {
      OuterNephewLeftElsewhere(a, s, a2, x, xp, w, h);
    }
  }

  lemma OuterNephewLeftAtParent(a: Arena, s: Shape, a2: Arena, x: int, xp: int, w: int)
    requires DelFamily(a, s, x, xp, w) && a[xp].left == x && !IsRed(a, w) && IsRed(a, a[w].right)
    requires var a1 := OuterRecolor(a, xp, w, a[w].right);
             RotateLeftArena.requires(a1, xp) && RotatedLeft(a1, a2, xp)
    ensures var s1 := OuterBh(s, xp, w, a[w].right);
            BHAt(a2, s1, xp) && RedAt(a2, xp, Null)
  {
  }

  lemma OuterNephewLeftAtSibling(a: Arena, s: Shape, a2: Arena, x: int, xp: int, w: int)
    requires DelFamily(a, s, x, xp, w) && a[xp].left == x && !IsRed(a, w) && IsRed(a, a[w].right)
    requires var a1 := OuterRecolor(a, xp, w, a[w].right);
             RotateLeftArena.requires(a1, xp) && RotatedLeft(a1, a2, xp)
    ensures var s1 := OuterBh(s, xp, w, a[w].right);
            BHAt(a2, s1, w) && RedAt(a2, w, Null)
  {
  }

  lemma OuterNephewLeftAtInner(a: Arena, s: Shape, a2: Arena, x: int, xp: int, w: int)
    requires DelFamily(a, s, x, xp, w) && a[xp].left == x && !IsRed(a, w) && IsRed(a, a[w].right)
    requires var a1 := OuterRecolor(a, xp, w, a[w].right);
             RotateLeftArena.requires(a1, xp) && RotatedLeft(a1, a2, xp)
    requires a[w].left != Null
    ensures var s1 := OuterBh(s, xp, w, a[w].right);
            BHAt(a2, s1, a[w].left) && RedAt(a2, a[w].left, Null)
  {
  }

  lemma OuterNephewLeftAtOuter(a: Arena, s: Shape, a2: Arena, x: int, xp: int, w: int)
    requires DelFamily(a, s, x, xp, w) && a[xp].left == x && !IsRed(a, w) && IsRed(a, a[w].right)
    requires var a1 := OuterRecolor(a, xp, w, a[w].right);
             RotateLeftArena.requires(a1, xp) && RotatedLeft(a1, a2, xp)
    ensures var s1 := OuterBh(s, xp, w, a[w].right);
            BHAt(a2, s1, a[w].right) && RedAt(a2, a[w].right, Null)
  {
  }

  lemma OuterNephewLeftAtAbove(a: Arena, s: Shape, a2: Arena, x: int, xp: int, w: int, h: int)
    requires DelFamily(a, s, x, xp, w) && a[xp].left == x && !IsRed(a, w) && IsRed(a, a[w].right)
    requires var a1 := OuterRecolor(a, xp, w, a[w].right);
             RotateLeftArena.requires(a1, xp) && RotatedLeft(a1, a2, xp)
    requires h in s.ix && LocalOK(a, s, h) && (h != xp ==> BHAt(a, s, h)) && (h != x ==> RedAt(a, h, x))
    requires h == a[xp].parent && h != w && h != a[w].left && h != a[w].right
    ensures var s1 := OuterBh(s, xp, w, a[w].right);
            BHAt(a2, s1, h) && RedAt(a2, h, Null)
  {
  }

  lemma OuterNephewLeftAtReplacement(a: Arena, s: Shape, a2: Arena, x: int, xp: int, w: int)
    requires DelFamily(a, s, x, xp, w) && a[xp].left == x && !IsRed(a, w) && IsRed(a, a[w].right)
    requires var a1 := OuterRecolor(a, xp, w, a[w].right);
             RotateLeftArena.requires(a1, xp) && RotatedLeft(a1, a2, xp)
    requires x != Null
    ensures var s1 := OuterBh(s, xp, w, a[w].right);
            BHAt(a2, s1, x) && RedAt(a2, x, Null)
  {
  }

  lemma OuterNephewLeftElsewhere(a: Arena, s: Shape, a2: Arena, x: int, xp: int, w: int, h: int)
    requires DelFamily(a, s, x, xp, w) && a[xp].left == x && !IsRed(a, w) && IsRed(a, a[w].right)
    requires var a1 := OuterRecolor(a, xp, w, a[w].right);
             RotateLeftArena.requires(a1, xp) && RotatedLeft(a1, a2, xp)
    requires h in s.ix && LocalOK(a, s, h) && (h != xp ==> BHAt(a, s, h)) && (h != x ==> RedAt(a, h, x))
    requires h != xp && h != w && h != a[w].left && h != a[w].right && h != a[xp].parent && h != x
    ensures var s1 := OuterBh(s, xp, w, a[w].right);
            BHAt(a2, s1, h) && RedAt(a2, h, Null)
  {
  }

  lemma OuterNephewLeftNodes(a: Arena, s: Shape, x: int, xp: int, w: int)
    requires DelFixUp(a, s, x, xp) && DelFamily(a, s, x, xp, w) && a[xp].left == x && !IsRed(a, w)
    requires IsRed(a, a[w].right)
    requires var a1 := OuterRecolor(a, xp, w, a[w].right);
             RotateLeftArena.requires(a1, xp) && RotatedLeft(a1, RotateLeftArena(a1, xp), xp)
    ensures var a2 := RotateLeftArena(OuterRecolor(a, xp, w, a[w].right), xp);
            var s1 := OuterBh(s, xp, w, a[w].right);
            && (forall h {:trigger BHAt(a2, s1, h)} :: h in s1.ix ==> BHAt(a2, s1, h))
            && (forall h {:trigger RedAt(a2, h, Null)} :: h in s1.ix ==> RedAt(a2, h, Null))
  {
    var a2 := RotateLeftArena(OuterRecolor(a, xp, w, a[w].right), xp);
    forall h | h in s.ix
      ensures BHAt(a2, OuterBh(s, xp, w, a[w].right), h) && RedAt(a2, h, Null)
    {
      assert LocalOK(a, s, h) && (h != xp ==> BHAt(a, s, h)) && (h != x ==> RedAt(a, h, x));
      OuterNephewLeftAt(a, s, a2, x, xp, w, h);
    }
  }

  lemma OuterNephewLeftRoot(a: Arena, s: Shape, x: int, xp: int, w: int)
    requires DelFixUp(a, s, x, xp) && DelFamily(a, s, x, xp, w) && a[xp].left == x && !IsRed(a, w)
    requires IsRed(a, a[w].right)
    requires var a1 := OuterRecolor(a, xp, w, a[w].right);
             RotateLeftArena.requires(a1, xp) && RotatedLeft(a1, RotateLeftArena(a1, xp), xp)
    ensures RootBlack(RotateLeftArena(OuterRecolor(a, xp, w, a[w].right), xp))
  {
    assert LocalOK(a, s, Root(a));
  }

  lemma OuterNephewLeftKeepsReplacement(a: Arena, s: Shape, x: int, xp: int, w: int)
    requires DelFamily(a, s, x, xp, w) && a[xp].left == x && !IsRed(a, w) && IsRed(a, a[w].right)
    requires var a1 := OuterRecolor(a, xp, w, a[w].right);
             RotateLeftArena.requires(a1, xp) && RotatedLeft(a1, RotateLeftArena(a1, xp), xp)
    ensures x != Null ==> x in a && RotateLeftArena(OuterRecolor(a, xp, w, a[w].right), xp)[x] == a[x]
  {
  }

  /**
   * Case 4 with x on the left (w black with a red right child wr): w takes xp's
   * colour, xp and wr turn black, and `rotate_left(xp)` lifts w into xp's place. The
   * extra black under w makes up x's deficit: the tree is a red-black tree again,
   * with the same nodes in the same order, and x is untouched.
   */
  lemma OuterNephewLeftOK(a: Arena, s: Shape, x: int, xp: int, w: int)
    requires DelFixUp(a, s, x, xp) && DelFamily(a, s, x, xp, w) && a[xp].left == x && !IsRed(a, w)
    requires IsRed(a, a[w].right)
    ensures a[w].right in a && xp in s.bh && w in s.bh && a[w].right in s.bh
    ensures var a1 := OuterRecolor(a, xp, w, a[w].right);
            var s1 := OuterBh(s, xp, w, a[w].right);
            && WF(a1, s1) && xp in s1.ix && LocalOK(a1, s1, xp) && a1[xp].right == w && w != Null
            && var a2 := RotateLeftArena(a1, xp); var s2 := RotateLeftShape(a1, s1, xp);
            && WF(a2, s2) && RB(a2, s2) && (x != Null ==> x in a2 && a2[x] == a[x])
            && Keys(a2, s2) == Keys(a, s) && s2.order == s.order && s2.ix == s.ix && a2.Keys == a.Keys
  {
    var wr := a[w].right;
    var a1 := OuterRecolor(a, xp, w, wr);
    var s1 := OuterBh(s, xp, w, wr);
    OuterRecolorWF(a, s, xp, w, wr);
    assert LocalOK(a1, s1, xp);
    RotateLeftOK(a1, s1, xp);
    OuterNephewLeftNodes(a, s, x, xp, w);
    OuterNephewLeftRoot(a, s, x, xp, w);
    OuterNephewLeftKeepsReplacement(a, s, x, xp, w);
    SameBhRB(RotateLeftArena(a1, xp), s1, RotateLeftShape(a1, s1, xp));
  }

  /** The mirror image: case 4 with x on the right, at one node: after repainting and `rotate_right(xp)`. */
  lemma OuterNephewRightAt(a: Arena, s: Shape, a2: Arena, x: int, xp: int, w: int, h: int)
    requires DelFamily(a, s, x, xp, w) && a[xp].left != x && !IsRed(a, w) && IsRed(a, a[w].left)
    requires var a1 := OuterRecolor(a, xp, w, a[w].left);
             RotateRightArena.requires(a1, xp) && RotatedRight(a1, a2, xp)
    requires h in s.ix && LocalOK(a, s, h) && (h != xp ==> BHAt(a, s, h)) && (h != x ==> RedAt(a, h, x))
    ensures var s1 := OuterBh(s, xp, w, a[w].left);
            BHAt(a2, s1, h) && RedAt(a2, h, Null)
  {
    if h == xp {
      OuterNephewRightAtParent(a, s, a2, x, xp, w);
    } else if h == w {
      OuterNephewRightAtSibling(a, s, a2, x, xp, w);
    } else if h == a[w].right {
      OuterNephewRightAtInner(a, s, a2, x, xp, w);
    } else if h == a[w].left {
      OuterNephewRightAtOuter(a, s, a2, x, xp, w);
    } else if h == a[xp].parent {
      OuterNephewRightAtAbove(a, s, a2, x, xp, w, h);
    } else if h == x {
      OuterNephewRightAtReplacement(a, s, a2, x, xp, w);
    } else {
      OuterNephewRightElsewhere(a, s, a2, x, xp, w, h);
    }
  }

  lemma OuterNephewRightAtParent(a: Arena, s: Shape, a2: Arena, x: int, xp: int, w: int)
    requires DelFamily(a, s, x, xp, w) && a[xp].left != x && !IsRed(a, w) && IsRed(a, a[w].left)
    requires var a1 := OuterRecolor(a, xp, w, a[w].left);
             RotateRightArena.requires(a1, xp) && RotatedRight(a1, a2, xp)
    ensures var s1 := OuterBh(s, xp, w, a[w].left);
            BHAt(a2, s1, xp) && RedAt(a2, xp, Null)
  {
  }

  lemma OuterNephewRightAtSibling(a: Arena, s: Shape, a2: Arena, x: int, xp: int, w: int)
    requires DelFamily(a, s, x, xp, w) && a[xp].left != x && !IsRed(a, w) && IsRed(a, a[w].left)
    requires var a1 := OuterRecolor(a, xp, w, a[w].left);
             RotateRightArena.requires(a1, xp) && RotatedRight(a1, a2, xp)
    ensures var s1 := OuterBh(s, xp, w, a[w].left);
            BHAt(a2, s1, w) && RedAt(a2, w, Null)
  {
  }

  lemma OuterNephewRightAtInner(a: Arena, s: Shape, a2: Arena, x: int, xp: int, w: int)
    requires DelFamily(a, s, x, xp, w) && a[xp].left != x && !IsRed(a, w) && IsRed(a, a[w].left)
    requires var a1 := OuterRecolor(a, xp, w, a[w].left);
             RotateRightArena.requires(a1, xp) && RotatedRight(a1, a2, xp)
    requires a[w].right != Null
    ensures var s1 := OuterBh(s, xp, w, a[w].left);
            BHAt(a2, s1, a[w].right) && RedAt(a2, a[w].right, Null)
  {
  }

  lemma OuterNephewRightAtOuter(a: Arena, s: Shape, a2: Arena, x: int, xp: int, w: int)
    requires DelFamily(a, s, x, xp, w) && a[xp].left != x && !IsRed(a, w) && IsRed(a, a[w].left)
    requires var a1 := OuterRecolor(a, xp, w, a[w].left);
             RotateRightArena.requires(a1, xp) && RotatedRight(a1, a2, xp)
    ensures var s1 := OuterBh(s, xp, w, a[w].left);
            BHAt(a2, s1, a[w].left) && RedAt(a2, a[w].left, Null)
  {
  }

  lemma OuterNephewRightAtAbove(a: Arena, s: Shape, a2: Arena, x: int, xp: int, w: int, h: int)
    requires DelFamily(a, s, x, xp, w) && a[xp].left != x && !IsRed(a, w) && IsRed(a, a[w].left)
    requires var a1 := OuterRecolor(a, xp, w, a[w].left);
             RotateRightArena.requires(a1, xp) && RotatedRight(a1, a2, xp)
    requires h in s.ix && LocalOK(a, s, h) && (h != xp ==> BHAt(a, s, h)) && (h != x ==> RedAt(a, h, x))
    requires h == a[xp].parent && h != w && h != a[w].right && h != a[w].left
    ensures var s1 := OuterBh(s, xp, w, a[w].left);
            BHAt(a2, s1, h) && RedAt(a2, h, Null)
  {
  }

  lemma OuterNephewRightAtReplacement(a: Arena, s: Shape, a2: Arena, x: int, xp: int, w: int)
    requires DelFamily(a, s, x, xp, w) && a[xp].left != x && !IsRed(a, w) && IsRed(a, a[w].left)
    requires var a1 := OuterRecolor(a, xp, w, a[w].left);
             RotateRightArena.requires(a1, xp) && RotatedRight(a1, a2, xp)
    requires x != Null
    ensures var s1 := OuterBh(s, xp, w, a[w].left);
            BHAt(a2, s1, x) && RedAt(a2, x, Null)
  {
  }

  lemma OuterNephewRightElsewhere(a: Arena, s: Shape, a2: Arena, x: int, xp: int, w: int, h: int)
    requires DelFamily(a, s, x, xp, w) && a[xp].left != x && !IsRed(a, w) && IsRed(a, a[w].left)
    requires var a1 := OuterRecolor(a, xp, w, a[w].left);
             RotateRightArena.requires(a1, xp) && RotatedRight(a1, a2, xp)
    requires h in s.ix && LocalOK(a, s, h) && (h != xp ==> BHAt(a, s, h)) && (h != x ==> RedAt(a, h, x))
    requires h != xp && h != w && h != a[w].right && h != a[w].left && h != a[xp].parent && h != x
    ensures var s1 := OuterBh(s, xp, w, a[w].left);
            BHAt(a2, s1, h) && RedAt(a2, h, Null)
  {
  }

  lemma OuterNephewRightNodes(a: Arena, s: Shape, x: int, xp: int, w: int)
    requires DelFixUp(a, s, x, xp) && DelFamily(a, s, x, xp, w) && a[xp].left != x && !IsRed(a, w)
    requires IsRed(a, a[w].left)
    requires var a1 := OuterRecolor(a, xp, w, a[w].left);
             RotateRightArena.requires(a1, xp) && RotatedRight(a1, RotateRightArena(a1, xp), xp)
    ensures var a2 := RotateRightArena(OuterRecolor(a, xp, w, a[w].left), xp);
            var s1 := OuterBh(s, xp, w, a[w].left);
            && (forall h {:trigger BHAt(a2, s1, h)} :: h in s1.ix ==> BHAt(a2, s1, h))
            && (forall h {:trigger RedAt(a2, h, Null)} :: h in s1.ix ==> RedAt(a2, h, Null))
  {
    var a2 := RotateRightArena(OuterRecolor(a, xp, w, a[w].left), xp);
    forall h | h in s.ix
      ensures BHAt(a2, OuterBh(s, xp, w, a[w].left), h) && RedAt(a2, h, Null)
    {
      assert LocalOK(a, s, h) && (h != xp ==> BHAt(a, s, h)) && (h != x ==> RedAt(a, h, x));
      OuterNephewRightAt(a, s, a2, x, xp, w, h);
    }
  }

  lemma OuterNephewRightRoot(a: Arena, s: Shape, x: int, xp: int, w: int)
    requires DelFixUp(a, s, x, xp) && DelFamily(a, s, x, xp, w) && a[xp].left != x && !IsRed(a, w)
    requires IsRed(a, a[w].left)
    requires var a1 := OuterRecolor(a, xp, w, a[w].left);
             RotateRightArena.requires(a1, xp) && RotatedRight(a1, RotateRightArena(a1, xp), xp)
    ensures RootBlack(RotateRightArena(OuterRecolor(a, xp, w, a[w].left), xp))
  {
    assert LocalOK(a, s, Root(a));
  }

  lemma OuterNephewRightKeepsReplacement(a: Arena, s: Shape, x: int, xp: int, w: int)
    requires DelFamily(a, s, x, xp, w) && a[xp].left != x && !IsRed(a, w) && IsRed(a, a[w].left)
    requires var a1 := OuterRecolor(a, xp, w, a[w].left);
             RotateRightArena.requires(a1, xp) && RotatedRight(a1, RotateRightArena(a1, xp), xp)
    ensures x != Null ==> x in a && RotateRightArena(OuterRecolor(a, xp, w, a[w].left), xp)[x] == a[x]
  {
  }

  /**
   * Case 4 with x on the right (w black with a red left child wr): w takes xp's
   * colour, xp and wr turn black, and `rotate_right(xp)` lifts w into xp's place. The
   * extra black under w makes up x's deficit: the tree is a red-black tree again,
   * with the same nodes in the same order, and x is untouched.
   */
  lemma OuterNephewRightOK(a: Arena, s: Shape, x: int, xp: int, w: int)
    requires DelFixUp(a, s, x, xp) && DelFamily(a, s, x, xp, w) && a[xp].left != x && !IsRed(a, w)
    requires IsRed(a, a[w].left)
    ensures a[w].left in a && xp in s.bh && w in s.bh && a[w].left in s.bh
    ensures var a1 := OuterRecolor(a, xp, w, a[w].left);
            var s1 := OuterBh(s, xp, w, a[w].left);
            && WF(a1, s1) && xp in s1.ix && LocalOK(a1, s1, xp) && a1[xp].left == w && w != Null
            && var a2 := RotateRightArena(a1, xp); var s2 := RotateRightShape(a1, s1, xp);
            && WF(a2, s2) && RB(a2, s2) && (x != Null ==> x in a2 && a2[x] == a[x])
            && Keys(a2, s2) == Keys(a, s) && s2.order == s.order && s2.ix == s.ix && a2.Keys == a.Keys
  {
    var wr := a[w].left;
    var a1 := OuterRecolor(a, xp, w, wr);
    var s1 := OuterBh(s, xp, w, wr);
    OuterRecolorWF(a, s, xp, w, wr);
    assert LocalOK(a1, s1, xp);
    RotateRightOK(a1, s1, xp);
    OuterNephewRightNodes(a, s, x, xp, w);
    OuterNephewRightRoot(a, s, x, xp, w);
    OuterNephewRightKeepsReplacement(a, s, x, xp, w);
    SameBhRB(RotateRightArena(a1, xp), s1, RotateRightShape(a1, s1, xp));
  }

  // ---------------------------------------------------------------------------
  // Leaving the loop
  // ---------------------------------------------------------------------------

  /** The black heights after `replacement->_set_black()`: a red x gains one. */
  ghost function ExitBh(a: Arena, s: Shape, x: int): Shape
  {
    if IsRed(a, x) && x in s.bh then AddBh(s, x, 1) else s
  }

  /** Painting x black, at one node: x's extra black fills the deficit at xp. */
  lemma PaintReplacementAt(a: Arena, s: Shape, x: int, xp: int, h: int)
    requires Header in a && Null !in a && Header !in s.ix && x != Null && x in s.ix && LocalOK(a, s, x) && BHAt(a, s, x)
    requires a[x].parent == xp
    requires xp != Header ==> && xp in s.ix && LocalOK(a, s, xp) && (a[xp].left == x || a[xp].right == x)
                              && Deficit(a, s, xp, x) && IsRed(a, x)
    requires h in s.ix && LocalOK(a, s, h) && (h != xp ==> BHAt(a, s, h)) && (h != x ==> RedAt(a, h, x))
    ensures BHAt(Paint(a, x, Black), ExitBh(a, s, x), h) && RedAt(Paint(a, x, Black), h, Null)
  {
    if h == x {
    } else if h == xp {
    } else {
    }
  }

  /**
   * The end of `delete_fix`: once x is the root or red, `replacement->_set_black()`
   * leaves a red-black tree with the same nodes in the same order.
   */
  lemma PaintReplacementOK(a: Arena, s: Shape, x: int, xp: int)
    requires DelFixUp(a, s, x, xp) && (Root(a) == x || IsRed(a, x)) && x != Null
    ensures x in a && x in s.ix
    ensures var a', s' := Paint(a, x, Black), ExitBh(a, s, x);
            && WF(a', s') && RB(a', s') && Keys(a', s') == Keys(a, s)
            && s'.order == s.order && s'.ix == s.ix && s'.lo == s.lo && s'.hi == s.hi && a'.Keys == a.Keys
  {
    var a', s' := Paint(a, x, Black), ExitBh(a, s, x);
    assert LocalOK(a, s, x) && BHAt(a, s, x);
    PaintWF(a, s, x, Black);
    if IsRed(a, x) {
      AddBhWF(a', s, x, 1);
    }
    if xp != Header {
      assert LocalOK(a, s, xp);
    }
    forall h | h in s'.ix
      ensures BHAt(a', s', h) && RedAt(a', h, Null)
    {
      assert LocalOK(a, s, h) && (h != xp ==> BHAt(a, s, h)) && (h != x ==> RedAt(a, h, x));
      PaintReplacementAt(a, s, x, xp, h);
    }
    assert LocalOK(a, s, Root(a));
  }

  /** An emptied tree (x is `Null` and the root) is trivially red-black. */
  lemma EmptiedOK(a: Arena, s: Shape, xp: int)
    requires DelFixUp(a, s, Null, xp) && Root(a) == Null
    ensures RB(a, s) && |s.order| == 0
  {
  }
}
