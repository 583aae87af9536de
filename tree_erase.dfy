/**
 * What `delete_fix` does to the node layout, proved once on arenas and shapes so
 * that the tree's methods only have to cite these lemmas.
 *
 * The first half of `delete_fix` takes node n out of the links: a node with at most
 * one child is replaced by that child ("unlinking"); a node with two children is
 * replaced by its in-order successor y, which is relinked into n's place and takes
 * n's colour, while n takes y's ("transplanting"). Either way the in-order sequence
 * loses exactly n and every other node keeps its handle.
 *
 * When the colour that left the tree was black, one subtree is a black short: the
 * rebalancing loop keeps that deficit at a single node and moves it up (recolouring)
 * or removes it (the rotation cases).
 */
module TreeErase {
  import opened TreeLayout
  import opened TreeInsert

  /** A position `v` after the position `t` has been removed (for `v != t`). */
  function Down(v: int, t: int): int
  {
    if v > t then v - 1 else v
  }

  /** `to_delete->_left ? to_delete->_left : to_delete->_right`. */
  ghost function OnlyChild(a: Arena, n: int): int
    requires n in a
  {
    if a[n].left != Null then a[n].left else a[n].right
  }

  /** The sibling the rebalancing loop picks: the other child of xp. */
  ghost function Sibling(a: Arena, xp: int, x: int): int
    requires xp in a
  {
    if x == a[xp].left then a[xp].right else a[xp].left
  }

  // ---------------------------------------------------------------------------
  // Black heights are never negative
  // ---------------------------------------------------------------------------

  /**
   * A node all of whose descendants are balanced has a non-negative black height.
   * The one node allowed to be unbalanced, xp, is strictly larger than h.
   */
  lemma {:induction false} BhNonNeg(a: Arena, s: Shape, h: int, xp: int)
    requires WF(a, s) && h in s.ix && h in s.lo && h in s.hi
    requires forall m {:trigger BHAt(a, s, m)} :: m in s.ix && m != xp ==> BHAt(a, s, m)
    requires xp in s.ix ==> xp in s.lo && xp in s.hi && s.hi[h] - s.lo[h] < s.hi[xp] - s.lo[xp]
    ensures h in a && h in s.bh && s.bh[h] >= Blk(a[h].color) && BhOf(s, h) >= 0
    decreases s.hi[h] - s.lo[h]
  {
    assert LocalOK(a, s, h);
    assert BHAt(a, s, h);
    var l := a[h].left;
    if l != Null {
      assert LocalOK(a, s, l);
      BhNonNeg(a, s, l, xp);
    }
  }

  /** A node of black height 0 in a red-black tree is a red leaf. */
  lemma ZeroBhLeaf(a: Arena, s: Shape, c: int)
    requires WF(a, s) && RB(a, s) && c in s.ix && c in s.bh && s.bh[c] == 0
    ensures c in a && a[c].left == Null && a[c].right == Null && a[c].color == Red
  {
    assert LocalOK(a, s, c) && BHAt(a, s, c) && RedAt(a, c, Null);
    if a[c].left != Null {
      assert LocalOK(a, s, a[c].left);
      BhNonNeg(a, s, a[c].left, Null);
    } else if a[c].right != Null {
      assert LocalOK(a, s, a[c].right);
      BhNonNeg(a, s, a[c].right, Null);
    }
  }

  /**
   * In a red-black tree a node with a single child has a red leaf as that child:
   * the null side has black height 0, and so has the child.
   */
  lemma OneChildLeaf(a: Arena, s: Shape, n: int)
    requires WF(a, s) && RB(a, s) && n in s.ix && n in a && (a[n].left == Null || a[n].right == Null)
    requires OnlyChild(a, n) != Null
    ensures OnlyChild(a, n) in a && a[OnlyChild(a, n)].left == Null && a[OnlyChild(a, n)].right == Null
    ensures a[OnlyChild(a, n)].color == Red
  {
    assert LocalOK(a, s, n) && BHAt(a, s, n);
    ZeroBhLeaf(a, s, OnlyChild(a, n));
  }

  // ---------------------------------------------------------------------------
  // The rebalancing invariant
  // ---------------------------------------------------------------------------

  /**
   * The subtree at x is one black node short of its sibling's: x's parent xp is
   * unbalanced by exactly one, and xp's own black height counts the taller side.
   */
  ghost predicate Deficit(a: Arena, s: Shape, xp: int, x: int)
    requires xp in a
  {
    var w := Sibling(a, xp, x);
    xp in s.bh && BhOf(s, x) + 1 == BhOf(s, w) && s.bh[xp] == BhOf(s, w) + Blk(a[xp].color)
  }

  /**
   * The state inside the rebalancing loop of `delete_fix`, with x the `replacement`
   * (possibly `Null`) and xp the `replacement_parent`: the links are well formed,
   * x hangs under xp (or is the root when xp is the header), every node but xp is
   * balanced and xp is short by one black on x's side; no red node has a red child
   * except that x may be red under a red parent and x itself may have a red child;
   * and the root is black unless it is x.
   */
  ghost predicate DelFixUp(a: Arena, s: Shape, x: int, xp: int)
  {
    && WF(a, s)
    && (x != Null ==> x in s.ix && x in a && a[x].parent == xp)
    && (xp == Header <==> Root(a) == x)
    && (xp != Header ==> xp in s.ix && xp in a && (a[xp].left == x || a[xp].right == x) && Deficit(a, s, xp, x))
    && (forall h {:trigger BHAt(a, s, h)} :: h in s.ix && h != xp ==> BHAt(a, s, h))
    && (forall h {:trigger RedAt(a, h, x)} :: h in s.ix && h != x ==> RedAt(a, h, x))
    && (RootBlack(a) || Root(a) == x)
  }

  /**
   * (a', s') is (a, s) with node n taken out of the tree: the links are well formed,
   * the in-order sequence has lost n's position k, and no handle was released.
   */
  ghost predicate RemovedAt(a: Arena, s: Shape, a': Arena, s': Shape, n: int)
  {
    && n in s.ix && 0 <= s.ix[n] < |s.order|
    && var k := s.ix[n];
    && WF(a', s') && a'.Keys == a.Keys
    && s'.order == s.order[..k] + s.order[k + 1..] && s'.ix.Keys == s.ix.Keys - {n}
    && Keys(a', s') == Keys(a, s)[..k] + Keys(a, s)[k + 1..]
  }

  // ---------------------------------------------------------------------------
  // Unlinking a node with at most one child
  // ---------------------------------------------------------------------------

  /**
   * The links the one-child branch of `delete_fix` writes: the child c (possibly
   * `Null`) takes n's place under n's parent p or as the root, and a cached minimum
   * or maximum equal to n moves to c, or to p when c is `Null`.
   */
  ghost function UnlinkArena(a: Arena, n: int): Arena
    requires Header in a && n in a && a[n].parent in a
    requires OnlyChild(a, n) == Null || OnlyChild(a, n) in a
  {
    var c := OnlyChild(a, n);
    var p := a[n].parent;
    var a1 := if c != Null then a[c := a[c].(parent := p)] else a;
    var a2 :=
      if a1[Header].parent == n then a1[Header := a1[Header].(parent := c)]
      else if a1[p].left == n then a1[p := a1[p].(left := c)]
      else a1[p := a1[p].(right := c)];
    var a3 := if a2[Header].left == n then a2[Header := a2[Header].(left := if c != Null then c else p)] else a2;
    if a3[Header].right == n then a3[Header := a3[Header].(right := if c != Null then c else p)] else a3
  }

  /** `a'` is `a` with n unlinked (as `UnlinkArena` does it), no other node changed. */
  ghost predicate Unlinked(a: Arena, a': Arena, n: int)
  {
    && Header in a && n in a && n != Header && a[n].parent in a
    && var c, p := OnlyChild(a, n), a[n].parent;
    && (c == Null || c in a) && c != Header && c != n && p != n && p != c
    && a'.Keys == a.Keys
    && (c != Null ==> a'[c] == a[c].(parent := p))
    && (p != Header && a[p].left == n ==> a'[p] == a[p].(left := c))
    && (p != Header && a[p].left != n ==> a'[p] == a[p].(right := c))
    && a'[Header] == a[Header].(
         parent := if p == Header then c else a[Header].parent,
         left := if a[Header].left == n then (if c != Null then c else p) else a[Header].left,
         right := if a[Header].right == n then (if c != Null then c else p) else a[Header].right)
    && (forall h :: h in a && h != c && h != p && h != Header ==> a'[h] == a[h])
  }

  /** The shape after removing n, which sits at position k: later positions move down by one. */
  ghost function UnlinkShape(s: Shape, n: int): Shape
    requires n in s.ix && 0 <= s.ix[n] < |s.order|
  {
    var k := s.ix[n];
    Shape(
      s.order[..k] + s.order[k + 1..],
      map h | h in s.ix && h != n :: Down(s.ix[h], k),
      map h | h in s.lo :: Down(s.lo[h], k),
      map h | h in s.hi :: Down(s.hi[h], k),
      s.bh)
  }

  /** Where the one-child branch applies, with the local facts it relies on. */
  ghost predicate UnlinkSite(a: Arena, s: Shape, n: int)
  {
    && Header in a && Null !in a && Header !in s.ix && Null !in s.ix
    && n in s.ix && LocalOK(a, s, n) && (a[n].left == Null || a[n].right == Null)
    && (a[n].parent != Header ==> LocalOK(a, s, a[n].parent))
    && (OnlyChild(a, n) != Null ==> LocalOK(a, s, OnlyChild(a, n)))
    && (a[Header].parent == n <==> a[n].parent == Header)
  }

  lemma UnlinkSiteOf(a: Arena, s: Shape, n: int)
    requires WF(a, s) && n in s.ix && n in a && (a[n].left == Null || a[n].right == Null)
    ensures UnlinkSite(a, s, n)
  {
    assert LocalOK(a, s, n);
    if a[n].parent != Header {
      assert LocalOK(a, s, a[n].parent);
    }
    if OnlyChild(a, n) != Null {
      assert LocalOK(a, s, OnlyChild(a, n));
    }
  }

  lemma UnlinkArenaIsUnlinked(a: Arena, s: Shape, n: int)
    requires UnlinkSite(a, s, n)
    ensures UnlinkArena.requires(a, n) && Unlinked(a, UnlinkArena(a, n), n)
  {
    if a[n].parent != Header {
      assert a[Header].parent != n;
    }
  }

  lemma UnlinkAtChild(a: Arena, s: Shape, a': Arena, n: int, h: int)
    requires UnlinkSite(a, s, n) && Unlinked(a, a', n)
    requires h in s.ix && LocalOK(a, s, h) && h == OnlyChild(a, n)
    ensures LocalOK(a', UnlinkShape(s, n), h)
  {
  }

  lemma UnlinkAtParent(a: Arena, s: Shape, a': Arena, n: int, h: int)
    requires UnlinkSite(a, s, n) && Unlinked(a, a', n)
    requires h in s.ix && LocalOK(a, s, h) && h == a[n].parent
    ensures LocalOK(a', UnlinkShape(s, n), h)
  {
  }

  lemma UnlinkElsewhere(a: Arena, s: Shape, a': Arena, n: int, h: int)
    requires UnlinkSite(a, s, n) && Unlinked(a, a', n)
    requires h in s.ix && LocalOK(a, s, h) && h != n && h != OnlyChild(a, n) && h != a[n].parent
    ensures LocalOK(a', UnlinkShape(s, n), h)
  {
  }

  lemma UnlinkNode(a: Arena, s: Shape, a': Arena, n: int, h: int)
    requires UnlinkSite(a, s, n) && Unlinked(a, a', n)
    requires h in s.ix && h != n && LocalOK(a, s, h)
    ensures LocalOK(a', UnlinkShape(s, n), h)
  {
    if h == OnlyChild(a, n) {
      UnlinkAtChild(a, s, a', n, h);
    } else if h == a[n].parent {
      UnlinkAtParent(a, s, a', n, h);
    } else {
      UnlinkElsewhere(a, s, a', n, h);
    }
  }

  lemma UnlinkLocals(a: Arena, s: Shape, a': Arena, n: int)
    requires WF(a, s) && UnlinkSite(a, s, n) && Unlinked(a, a', n)
    ensures forall h {:trigger LocalOK(a', UnlinkShape(s, n), h)} :: h in UnlinkShape(s, n).ix ==> LocalOK(a', UnlinkShape(s, n), h)
  {
    forall h | h in UnlinkShape(s, n).ix
      ensures LocalOK(a', UnlinkShape(s, n), h)
    {
      assert LocalOK(a, s, h);
      UnlinkNode(a, s, a', n, h);
    }
  }

  /** Positions keep matching handles once n's position is cut out of `order`. */
  lemma UnlinkOrder(s: Shape, n: int)
    requires n in s.ix && 0 <= s.ix[n] < |s.order|
    requires forall i {:trigger s.order[i]} :: 0 <= i < |s.order| ==> s.order[i] in s.ix && s.ix[s.order[i]] == i
    ensures var s' := UnlinkShape(s, n);
            && s'.ix.Keys == s.ix.Keys - {n}
            && forall i {:trigger s'.order[i]} :: 0 <= i < |s'.order| ==> s'.order[i] in s'.ix && s'.ix[s'.order[i]] == i
  {
    var s' := UnlinkShape(s, n);
    var k := s.ix[n];
    forall i | 0 <= i < |s'.order|
      ensures s'.order[i] in s'.ix && s'.ix[s'.order[i]] == i
    {
      if i < k {
        assert s'.order[i] == s.order[i];
      } else {
        assert s'.order[i] == s.order[i + 1];
      }
    }
  }

  /**
   * The header after unlinking: the root, and the cached minimum and maximum when n
   * was one of them. A single child of n is a leaf, so it is n's neighbour in order;
   * without a child, the neighbour is n's parent.
   */
  lemma UnlinkHeader(a: Arena, s: Shape, a': Arena, n: int)
    requires UnlinkSite(a, s, n) && Unlinked(a, a', n) && HeaderOK(a, s)
    requires forall i {:trigger s.order[i]} :: 0 <= i < |s.order| ==> s.order[i] in s.ix && s.ix[s.order[i]] == i
    requires |s.order| > 0 ==> LocalOK(a, s, a[Header].parent)
    requires OnlyChild(a, n) != Null ==> a[OnlyChild(a, n)].left == Null && a[OnlyChild(a, n)].right == Null
    ensures Header in a' && HeaderOK(a', UnlinkShape(s, n))
  {
  }

  lemma UnlinkKeys(a: Arena, s: Shape, a': Arena, n: int)
    requires Unlinked(a, a', n) && Null !in a && n in s.ix && 0 <= s.ix[n] < |s.order|
    ensures var k := s.ix[n];
            Keys(a', UnlinkShape(s, n)) == Keys(a, s)[..k] + Keys(a, s)[k + 1..]
  {
    var k := s.ix[n];
    var s' := UnlinkShape(s, n);
    forall h | h in a
      ensures KeyOf(a', h) == KeyOf(a, h)
    {
    }
    assert |Keys(a', s')| == |Keys(a, s)[..k] + Keys(a, s)[k + 1..]|;
    forall i | 0 <= i < |s'.order|
      ensures Keys(a', s')[i] == (Keys(a, s)[..k] + Keys(a, s)[k + 1..])[i]
    {
      if i < k {
        assert s'.order[i] == s.order[i];
      } else {
        assert s'.order[i] == s.order[i + 1];
      }
    }
  }

  /** Unlinking keeps the links well formed; the in-order sequence loses n. */
  lemma UnlinkWF(a: Arena, s: Shape, n: int)
    requires WF(a, s) && RB(a, s) && n in s.ix && n in a && (a[n].left == Null || a[n].right == Null)
    ensures LocalOK(a, s, n) && UnlinkArena.requires(a, n) && Unlinked(a, UnlinkArena(a, n), n)
    ensures var a', s', k := UnlinkArena(a, n), UnlinkShape(s, n), s.ix[n];
            && WF(a', s') && a'.Keys == a.Keys
            && s'.order == s.order[..k] + s.order[k + 1..] && s'.ix.Keys == s.ix.Keys - {n}
            && Keys(a', s') == Keys(a, s)[..k] + Keys(a, s)[k + 1..]
  {
    UnlinkSiteOf(a, s, n);
    UnlinkArenaIsUnlinked(a, s, n);
    var a' := UnlinkArena(a, n);
    UnlinkLocals(a, s, a', n);
    UnlinkOrder(s, n);
    if OnlyChild(a, n) != Null {
      OneChildLeaf(a, s, n);
    }
    if |s.order| > 0 {
      assert LocalOK(a, s, a[Header].parent);
    }
    UnlinkHeader(a, s, a', n);
    UnlinkKeys(a, s, a', n);
  }

  /** Removing a red node: it is a leaf, and black heights count no red node. */
  lemma UnlinkRedAt(a: Arena, s: Shape, a': Arena, n: int, h: int)
    requires UnlinkSite(a, s, n) && Unlinked(a, a', n) && a[n].color == Red && OnlyChild(a, n) == Null
    requires BHAt(a, s, n)
    requires h in s.ix && h != n && LocalOK(a, s, h) && BHAt(a, s, h) && RedAt(a, h, Null)
    ensures BHAt(a', UnlinkShape(s, n), h) && RedAt(a', h, Null)
  {
  }

  /**
   * Removing a black node: the child c that replaces it is one black short, at its
   * new parent p; c may be red under a red p.
   */
  lemma UnlinkBlackAt(a: Arena, s: Shape, a': Arena, n: int, h: int)
    requires UnlinkSite(a, s, n) && Unlinked(a, a', n) && a[n].color == Black
    requires BHAt(a, s, n)
    requires h in s.ix && h != n && LocalOK(a, s, h) && BHAt(a, s, h) && RedAt(a, h, Null)
    ensures h != a[n].parent ==> BHAt(a', UnlinkShape(s, n), h)
    ensures h != OnlyChild(a, n) ==> RedAt(a', h, OnlyChild(a, n))
    ensures h == a[n].parent ==> Deficit(a', UnlinkShape(s, n), h, OnlyChild(a, n))
  {
  }

  lemma UnlinkRed(a: Arena, s: Shape, n: int)
    requires WF(a, s) && RB(a, s) && n in s.ix && n in a && (a[n].left == Null || a[n].right == Null)
    requires a[n].color == Red
    requires UnlinkArena.requires(a, n) && Unlinked(a, UnlinkArena(a, n), n) && UnlinkSite(a, s, n)
    ensures RB(UnlinkArena(a, n), UnlinkShape(s, n))
  {
    var a', s' := UnlinkArena(a, n), UnlinkShape(s, n);
    assert RedAt(a, n, Null) && BHAt(a, s, n);
    if OnlyChild(a, n) != Null {
      OneChildLeaf(a, s, n);
      assert false;
    }
    forall h | h in s'.ix
      ensures BHAt(a', s', h) && RedAt(a', h, Null)
    {
      assert LocalOK(a, s, h) && BHAt(a, s, h) && RedAt(a, h, Null);
      UnlinkRedAt(a, s, a', n, h);
    }
    assert LocalOK(a, s, Root(a));
  }

  lemma UnlinkBlackNodes(a: Arena, s: Shape, n: int)
    requires WF(a, s) && RB(a, s) && n in s.ix && n in a && a[n].color == Black
    requires UnlinkArena.requires(a, n) && Unlinked(a, UnlinkArena(a, n), n) && UnlinkSite(a, s, n)
    ensures var a', s', c, p := UnlinkArena(a, n), UnlinkShape(s, n), OnlyChild(a, n), a[n].parent;
            && (forall h {:trigger BHAt(a', s', h)} :: h in s'.ix && h != p ==> BHAt(a', s', h))
            && (forall h {:trigger RedAt(a', h, c)} :: h in s'.ix && h != c ==> RedAt(a', h, c))
            && (p != Header ==> Deficit(a', s', p, c))
  {
    var a', s' := UnlinkArena(a, n), UnlinkShape(s, n);
    var c, p := OnlyChild(a, n), a[n].parent;
    assert BHAt(a, s, n);
    forall h | h in s'.ix
      ensures h != p ==> BHAt(a', s', h)
      ensures h != c ==> RedAt(a', h, c)
      ensures h == p ==> Deficit(a', s', h, c)
    {
      assert LocalOK(a, s, h) && BHAt(a, s, h) && RedAt(a, h, Null);
      UnlinkBlackAt(a, s, a', n, h);
    }
  }

  lemma UnlinkBlack(a: Arena, s: Shape, n: int)
    requires WF(a, s) && RB(a, s) && n in s.ix && n in a && (a[n].left == Null || a[n].right == Null)
    requires a[n].color == Black
    requires UnlinkArena.requires(a, n) && Unlinked(a, UnlinkArena(a, n), n) && UnlinkSite(a, s, n)
    requires WF(UnlinkArena(a, n), UnlinkShape(s, n))
    ensures DelFixUp(UnlinkArena(a, n), UnlinkShape(s, n), OnlyChild(a, n), a[n].parent)
  {
    UnlinkBlackNodes(a, s, n);
    assert LocalOK(a, s, Root(a));
  }

  /**
   * The one-child branch of `delete_fix` on a red-black tree: the links stay well
   * formed and the in-order sequence loses n. A red n leaves a red-black tree; a
   * black n leaves its child one black short, which the rebalancing loop repairs.
   */
  lemma UnlinkOK(a: Arena, s: Shape, n: int)
    requires WF(a, s) && RB(a, s) && n in s.ix && n in a && (a[n].left == Null || a[n].right == Null)
    ensures LocalOK(a, s, n) && UnlinkArena.requires(a, n) && UnlinkArena(a, n)[n] == a[n]
    ensures var a', s' := UnlinkArena(a, n), UnlinkShape(s, n);
            && RemovedAt(a, s, a', s', n)
            && (a[n].color == Red ==> RB(a', s'))
            && (a[n].color == Black ==> DelFixUp(a', s', OnlyChild(a, n), a[n].parent))
  {
    UnlinkWF(a, s, n);
    UnlinkSiteOf(a, s, n);
    UnlinkArenaIsUnlinked(a, s, n);
    if a[n].color == Red {
      UnlinkRed(a, s, n);
    } else {
      UnlinkBlack(a, s, n);
    }
  }

  // ---------------------------------------------------------------------------
  // Transplanting the successor into a node with two children
  // ---------------------------------------------------------------------------

  /**
   * The first links the two-children branch of `delete_fix` writes: the successor y
   * takes n's left subtree l and, unless y is n's right child rr, y's right child r
   * takes y's place under y's parent yp and y takes rr.
   */
  ghost function SpliceArena(a: Arena, n: int, y: int): Arena
    requires Header in a && n in a && y in a && a[n].left in a && a[n].right in a
    requires a[y].parent in a && (a[y].right == Null || a[y].right in a)
  {
    var l, rr, r := a[n].left, a[n].right, a[y].right;
    var a1 := a[y := a[y].(left := l)];
    var a2 := a1[l := a1[l].(parent := y)];
    if y != rr then
      var yp := a2[y].parent;
      var b1 := if r != Null then a2[r := a2[r].(parent := yp)] else a2;
      var b2 := b1[yp := b1[yp].(left := r)];
      var b3 := b2[y := b2[y].(right := rr)];
      b3[rr := b3[rr].(parent := y)]
    else a2
  }

  /**
   * The rest of the branch: y takes n's place under n's parent (or as the root), then
   * y and n swap colours.
   */
  ghost function RelinkArena(a: Arena, n: int, y: int): Arena
    requires Header in a && n in a && y in a && a[n].parent in a
  {
    var p := a[n].parent;
    var a4 :=
      if a[Header].parent == n then a[Header := a[Header].(parent := y)]
      else if a[p].left == n then a[p := a[p].(left := y)]
      else a[p := a[p].(right := y)];
    var a5 := a4[y := a4[y].(parent := p)];
    var cy, cn := a5[y].color, a5[n].color;
    a5[y := a5[y].(color := cn)][n := a5[n].(color := cy)]
  }

  /** All the links the two-children branch writes, in its order. */
  ghost function TransplantArena(a: Arena, n: int, y: int): Arena
    requires Header in a && n in a && y in a && a[n].left in a && a[n].right in a
    requires a[y].parent in a && a[n].parent in a && (a[y].right == Null || a[y].right in a)
    requires a[n].parent != y && a[n].parent != a[n].left && a[n].parent != a[n].right
    requires a[n].parent != a[y].parent && a[n].parent != a[y].right
    requires n != y && n != a[n].left && n != a[n].right && n != a[y].right && (a[y].parent == n ==> y == a[n].right)
  {
    var a3 := SpliceArena(a, n, y);
    assert a3[n] == a[n] && a[n].parent in a3;
    RelinkArena(a3, n, y)
  }

  /** `a3` is `a` after `SpliceArena`. */
  ghost predicate Spliced(a: Arena, a3: Arena, n: int, y: int)
  {
    && Header in a && n in a && y in a && a[n].left in a && a[n].right in a && a[y].parent in a
    && var l, rr, r, yp := a[n].left, a[n].right, a[y].right, a[y].parent;
    && (r == Null || r in a) && (y == rr ==> yp == n)
    && a3.Keys == a.Keys
    && a3[y] == a[y].(left := l, right := if y == rr then r else rr)
    && a3[n] == a[n] && a3[Header] == a[Header]
    && a3[l] == a[l].(parent := y)
    && (y != rr ==> a3[rr] == a[rr].(parent := y, left := if yp == rr then r else a[rr].left))
    && (y != rr && yp != rr ==> a3[yp] == a[yp].(left := r))
    && (y != rr && r != Null ==> a3[r] == a[r].(parent := yp))
    && (y == rr && r != Null ==> a3[r] == a[r])
    && (forall h :: h in a && h != y && h != l && h != rr && h != yp && h != r ==> a3[h] == a[h])
  }

  /**
   * `a'` is `a` after `TransplantArena`: y has n's parent, left subtree, colour and
   * (unless y is n's right child rr) right subtree; n has y's colour; r hangs where y
   * hung; no other node changes.
   */
  ghost predicate Transplanted(a: Arena, a': Arena, n: int, y: int)
  {
    && Header in a && n in a && y in a && a[n].left in a && a[n].right in a && a[y].parent in a && a[n].parent in a
    && var l, rr, r, yp, p := a[n].left, a[n].right, a[y].right, a[y].parent, a[n].parent;
    && (r == Null || r in a) && (y == rr ==> yp == n)
    && a'.Keys == a.Keys
    && a'[y] == a[y].(parent := p, left := l, right := if y == rr then r else rr, color := a[n].color)
    && a'[n] == a[n].(color := a[y].color)
    && a'[l] == a[l].(parent := y)
    && (y != rr ==> a'[rr] == a[rr].(parent := y, left := if yp == rr then r else a[rr].left))
    && (y != rr && yp != rr ==> a'[yp] == a[yp].(left := r))
    && (y != rr && r != Null ==> a'[r] == a[r].(parent := yp))
    && (y == rr && r != Null ==> a'[r] == a[r])
    && a'[Header] == (if p == Header then a[Header].(parent := y) else a[Header])
    && (p != Header && a[p].left == n ==> a'[p] == a[p].(left := y))
    && (p != Header && a[p].left != n ==> a'[p] == a[p].(right := y))
    && (forall h :: h in a && h != y && h != n && h != l && h != rr && h != yp && h != r && h != p && h != Header ==> a'[h] == a[h])
  }

  /** The shape without n: y moves to n's position and interval and takes n's black height. */
  ghost function TransplantShape(s: Shape, n: int, y: int): Shape
    requires n in s.ix && n in s.lo && n in s.hi && n in s.bh && 0 <= s.ix[n] < |s.order|
  {
    var k := s.ix[n];
    Shape(
      s.order[..k] + s.order[k + 1..],
      map h | h in s.ix && h != n :: Down(s.ix[h], k),
      (map h | h in s.lo :: Down(s.lo[h], k + 1))[y := s.lo[n]],
      (map h | h in s.hi :: Down(s.hi[h], k + 1))[y := s.hi[n] - 1],
      s.bh[y := s.bh[n]])
  }

  /** Where the two-children branch applies: n, its successor y and the nodes around them. */
  ghost predicate TransplantSite(a: Arena, s: Shape, n: int, y: int)
  {
    && TransplantCore(a, s, n, y)
    && LocalOK(a, s, a[n].left) && LocalOK(a, s, a[n].right)
    && (a[y].parent != n ==> LocalOK(a, s, a[y].parent))
    && (a[y].right != Null ==> LocalOK(a, s, a[y].right))
    && (a[n].parent != Header ==> LocalOK(a, s, a[n].parent))
  }

  /** The facts about n and y alone that every node's relinking relies on. */
  ghost predicate TransplantCore(a: Arena, s: Shape, n: int, y: int)
  {
    && Header in a && Null !in a && Header !in s.ix && Null !in s.ix
    && n in s.ix && LocalOK(a, s, n) && a[n].left != Null && a[n].right != Null
    && y in s.ix && LocalOK(a, s, y) && s.ix[y] == s.ix[n] + 1 && a[y].left == Null
    && s.ix[y] < s.hi[n]
    && (a[y].parent == n ==> y == a[n].right)
    && (a[y].parent != n ==> a[y].parent in a && a[a[y].parent].left == y)
    && (a[Header].parent == n <==> a[n].parent == Header)
  }

  lemma TransplantSiteOf(a: Arena, s: Shape, n: int)
    requires WF(a, s) && n in s.ix && n in a && a[n].left != Null && a[n].right != Null
    ensures LocalOK(a, s, n) && s.ix[n] + 1 < |s.order|
    ensures TransplantSite(a, s, n, s.order[s.ix[n] + 1])
  {
    assert LocalOK(a, s, n);
    var l, rr := a[n].left, a[n].right;
    assert LocalOK(a, s, l) && LocalOK(a, s, rr);
    FirstOfSubtree(a, s, rr);
    var y := s.order[s.ix[n] + 1];
    assert LocalOK(a, s, y);
    if a[y].parent != Header {
      assert LocalOK(a, s, a[y].parent);
    }
    if a[y].right != Null {
      assert LocalOK(a, s, a[y].right);
    }
    if a[n].parent != Header {
      assert LocalOK(a, s, a[n].parent);
    }
    assert LocalOK(a, s, Root(a));
  }

  lemma SpliceArenaIsSpliced(a: Arena, s: Shape, n: int, y: int)
    requires TransplantSite(a, s, n, y)
    ensures SpliceArena.requires(a, n, y) && Spliced(a, SpliceArena(a, n, y), n, y)
  {
    var rr, yp := a[n].right, a[y].parent;
    if y == rr {
    } else if yp == rr {
    } else {
    }
  }

  lemma RelinkArenaIsTransplanted(a: Arena, s: Shape, a3: Arena, n: int, y: int)
    requires TransplantSite(a, s, n, y) && Spliced(a, a3, n, y)
    ensures RelinkArena.requires(a3, n, y) && Transplanted(a, RelinkArena(a3, n, y), n, y)
  {
    var p := a[n].parent;
    if p == Header {
    } else if a[p].left == n {
    } else {
    }
  }

  lemma TransplantArenaIsTransplanted(a: Arena, s: Shape, n: int, y: int)
    requires TransplantSite(a, s, n, y)
    ensures TransplantArena.requires(a, n, y) && Transplanted(a, TransplantArena(a, n, y), n, y)
  {
    SpliceArenaIsSpliced(a, s, n, y);
    RelinkArenaIsTransplanted(a, s, SpliceArena(a, n, y), n, y);
  }

  lemma TransplantAtSuccessor(a: Arena, s: Shape, a': Arena, n: int, y: int, h: int)
    requires TransplantCore(a, s, n, y) && Transplanted(a, a', n, y)
    requires h in s.ix && LocalOK(a, s, h) && h == y
    ensures LocalOK(a', TransplantShape(s, n, y), h)
  {
  }

  lemma TransplantAtLeft(a: Arena, s: Shape, a': Arena, n: int, y: int, h: int)
    requires TransplantCore(a, s, n, y) && Transplanted(a, a', n, y)
    requires h in s.ix && LocalOK(a, s, h) && h == a[n].left
    ensures LocalOK(a', TransplantShape(s, n, y), h)
  {
  }

  lemma TransplantAtRight(a: Arena, s: Shape, a': Arena, n: int, y: int, h: int)
    requires TransplantCore(a, s, n, y) && Transplanted(a, a', n, y)
    requires h in s.ix && LocalOK(a, s, h) && h == a[n].right && h != y
    ensures LocalOK(a', TransplantShape(s, n, y), h)
  {
  }

  lemma TransplantAtSuccessorParent(a: Arena, s: Shape, a': Arena, n: int, y: int, h: int)
    requires TransplantCore(a, s, n, y) && Transplanted(a, a', n, y)
    requires h in s.ix && LocalOK(a, s, h) && h == a[y].parent && h != n && h != a[n].right
    ensures LocalOK(a', TransplantShape(s, n, y), h)
  {
  }

  lemma TransplantAtReplacement(a: Arena, s: Shape, a': Arena, n: int, y: int, h: int)
    requires TransplantCore(a, s, n, y) && Transplanted(a, a', n, y)
    requires h in s.ix && LocalOK(a, s, h) && h == a[y].right && h != Null
    ensures LocalOK(a', TransplantShape(s, n, y), h)
  {
  }

  lemma TransplantAtParent(a: Arena, s: Shape, a': Arena, n: int, y: int, h: int)
    requires TransplantCore(a, s, n, y) && Transplanted(a, a', n, y)
    requires h in s.ix && LocalOK(a, s, h) && h == a[n].parent
    ensures LocalOK(a', TransplantShape(s, n, y), h)
  {
  }

  lemma TransplantElsewhere(a: Arena, s: Shape, a': Arena, n: int, y: int, h: int)
    requires TransplantCore(a, s, n, y) && Transplanted(a, a', n, y)
    requires h in s.ix && LocalOK(a, s, h) && h != y && h != n && h != a[n].left && h != a[n].right && h != a[y].parent && h != a[y].right && h != a[n].parent
    ensures LocalOK(a', TransplantShape(s, n, y), h)
  {
  }

  lemma TransplantNode(a: Arena, s: Shape, a': Arena, n: int, y: int, h: int)
    requires TransplantSite(a, s, n, y) && Transplanted(a, a', n, y)
    requires h in s.ix && h != n && LocalOK(a, s, h)
    ensures LocalOK(a', TransplantShape(s, n, y), h)
  {
    if h == y {
      TransplantAtSuccessor(a, s, a', n, y, h);
    } else if h == a[n].left {
      TransplantAtLeft(a, s, a', n, y, h);
    } else if h == a[n].right {
      TransplantAtRight(a, s, a', n, y, h);
    } else if h == a[y].parent {
      TransplantAtSuccessorParent(a, s, a', n, y, h);
    } else if h == a[y].right {
      TransplantAtReplacement(a, s, a', n, y, h);
    } else if h == a[n].parent {
      TransplantAtParent(a, s, a', n, y, h);
    } else {
      TransplantElsewhere(a, s, a', n, y, h);
    }
  }

  lemma TransplantLocals(a: Arena, s: Shape, a': Arena, n: int, y: int)
    requires WF(a, s) && TransplantSite(a, s, n, y) && Transplanted(a, a', n, y)
    ensures forall h {:trigger LocalOK(a', TransplantShape(s, n, y), h)} :: h in TransplantShape(s, n, y).ix ==> LocalOK(a', TransplantShape(s, n, y), h)
  {
    forall h | h in TransplantShape(s, n, y).ix
      ensures LocalOK(a', TransplantShape(s, n, y), h)
    {
      assert LocalOK(a, s, h);
      TransplantNode(a, s, a', n, y, h);
    }
  }

  /** The header keeps its minimum and maximum: n, having two children, is neither. */
  lemma TransplantHeader(a: Arena, s: Shape, a': Arena, n: int, y: int)
    requires TransplantSite(a, s, n, y) && Transplanted(a, a', n, y) && HeaderOK(a, s)
    requires forall i {:trigger s.order[i]} :: 0 <= i < |s.order| ==> s.order[i] in s.ix && s.ix[s.order[i]] == i
    requires LocalOK(a, s, a[Header].parent)
    ensures Header in a' && HeaderOK(a', TransplantShape(s, n, y))
  {
  }

  lemma TransplantKeys(a: Arena, s: Shape, a': Arena, n: int, y: int)
    requires Transplanted(a, a', n, y) && Null !in a && n in s.ix && n in s.lo && n in s.hi && n in s.bh
    requires 0 <= s.ix[n] < |s.order|
    ensures var k := s.ix[n];
            Keys(a', TransplantShape(s, n, y)) == Keys(a, s)[..k] + Keys(a, s)[k + 1..]
  {
    var k := s.ix[n];
    var s' := TransplantShape(s, n, y);
    forall h | h in a
      ensures KeyOf(a', h) == KeyOf(a, h)
    {
      var l, rr, r, yp, p := a[n].left, a[n].right, a[y].right, a[y].parent, a[n].parent;
      if h == y || h == n || h == l || h == Header {
      } else if h == rr {
      } else if h == yp {
      } else if h == r {
      } else if h == p {
      }
    }
    assert |Keys(a', s')| == |Keys(a, s)[..k] + Keys(a, s)[k + 1..]|;
    forall i | 0 <= i < |s'.order|
      ensures Keys(a', s')[i] == (Keys(a, s)[..k] + Keys(a, s)[k + 1..])[i]
    {
      if i < k {
        assert s'.order[i] == s.order[i];
      } else {
        assert s'.order[i] == s.order[i + 1];
      }
    }
  }

  /** The positions after transplanting are those after unlinking n. */
  lemma TransplantOrder(s: Shape, n: int, y: int)
    requires n in s.ix && n in s.lo && n in s.hi && n in s.bh && 0 <= s.ix[n] < |s.order|
    requires forall i {:trigger s.order[i]} :: 0 <= i < |s.order| ==> s.order[i] in s.ix && s.ix[s.order[i]] == i
    ensures var s' := TransplantShape(s, n, y);
            && s'.ix.Keys == s.ix.Keys - {n}
            && forall i {:trigger s'.order[i]} :: 0 <= i < |s'.order| ==> s'.order[i] in s'.ix && s'.ix[s'.order[i]] == i
  {
    UnlinkOrder(s, n);
    assert TransplantShape(s, n, y).order == UnlinkShape(s, n).order;
    assert TransplantShape(s, n, y).ix == UnlinkShape(s, n).ix;
  }

  /** Transplanting keeps the links well formed; the in-order sequence loses n. */
  lemma TransplantWF(a: Arena, s: Shape, a': Arena, n: int, y: int)
    requires WF(a, s) && n in s.ix && n in a && a[n].left != Null && a[n].right != Null
    requires LocalOK(a, s, n) && s.ix[n] + 1 < |s.order| && y == s.order[s.ix[n] + 1]
    requires TransplantSite(a, s, n, y) && Transplanted(a, a', n, y)
    ensures var s', k := TransplantShape(s, n, y), s.ix[n];
            && WF(a', s') && a'.Keys == a.Keys
            && s'.order == s.order[..k] + s.order[k + 1..] && s'.ix.Keys == s.ix.Keys - {n}
            && Keys(a', s') == Keys(a, s)[..k] + Keys(a, s)[k + 1..]
  {
    TransplantLocals(a, s, a', n, y);
    TransplantOrder(s, n, y);
    assert LocalOK(a, s, a[Header].parent);
    TransplantHeader(a, s, a', n, y);
    TransplantKeys(a, s, a', n, y);
  }


  /** The parent the rebalancing starts from after transplanting: where r now hangs. */
  ghost function TransplantParent(a: Arena, n: int, y: int): int
    requires n in a && y in a
  {
    if y == a[n].right then y else a[y].parent
  }

  /**
   * The red rule after transplanting, away from the successor: only the edge into r
   * can break it, and only when the removed colour was black (a removed red
   * successor was a leaf, so r is Null).
   */
  lemma TransplantRedRule(a: Arena, s: Shape, a': Arena, n: int, y: int, h: int)
    requires TransplantCore(a, s, n, y) && Transplanted(a, a', n, y)
    requires a[y].color == Red ==> a[y].right == Null
    requires RedAt(a, n, Null)
    requires h in s.ix && h != n && h != y && h != a[y].right && LocalOK(a, s, h) && RedAt(a, h, Null)
    ensures RedAt(a', h, a[y].right)
  {
    if h == a[y].parent {
    } else if h == a[n].parent {
    } else if h == a[n].right || h == a[n].left {
    } else {
    }
  }

  /** The successor in n's place takes n's colour and n's children. */
  lemma TransplantRedRuleAtSuccessor(a: Arena, s: Shape, a': Arena, n: int, y: int)
    requires TransplantCore(a, s, n, y) && Transplanted(a, a', n, y)
    requires a[y].color == Red ==> a[y].right == Null
    requires RedAt(a, n, Null) && RedAt(a, y, Null)
    ensures RedAt(a', y, a[y].right)
  {
  }

  /**
   * Black heights after transplanting, away from the successor: the successor keeps
   * n's black height, and only r's new parent loses one, when the removed colour was
   * black.
   */
  lemma TransplantBalanced(a: Arena, s: Shape, a': Arena, n: int, y: int, h: int)
    requires TransplantCore(a, s, n, y) && Transplanted(a, a', n, y)
    requires a[y].color == Red ==> a[y].right == Null
    requires BHAt(a, s, n) && BHAt(a, s, y)
    requires h in s.ix && h != n && h != y && LocalOK(a, s, h) && BHAt(a, s, h)
    requires a[y].color == Black ==> h != TransplantParent(a, n, y)
    ensures BHAt(a', TransplantShape(s, n, y), h)
  {
  }

  /** The successor's own black height after transplanting. */
  lemma TransplantBalancedAtSuccessor(a: Arena, s: Shape, a': Arena, n: int, y: int)
    requires TransplantCore(a, s, n, y) && Transplanted(a, a', n, y)
    requires a[y].color == Red ==> a[y].right == Null
    requires BHAt(a, s, n) && BHAt(a, s, y)
    requires a[y].color == Black ==> y != TransplantParent(a, n, y)
    ensures BHAt(a', TransplantShape(s, n, y), y)
  {
  }

  /** A removed black successor leaves r one black short at its new parent. */
  lemma TransplantDeficit(a: Arena, s: Shape, a': Arena, n: int, y: int)
    requires TransplantCore(a, s, n, y) && Transplanted(a, a', n, y)
    requires a[y].color == Black
    requires BHAt(a, s, n) && BHAt(a, s, y)
    requires var xp := TransplantParent(a, n, y); xp != y ==> LocalOK(a, s, xp) && BHAt(a, s, xp)
    ensures Deficit(a', TransplantShape(s, n, y), TransplantParent(a, n, y), a[y].right)
  {
  }

  /** A removed red successor was a leaf, and the transplanted tree is red-black. */
  lemma TransplantRed(a: Arena, s: Shape, a': Arena, n: int, y: int)
    requires WF(a, s) && RB(a, s) && TransplantSite(a, s, n, y) && Transplanted(a, a', n, y)
    requires TransplantShape(s, n, y).ix.Keys == s.ix.Keys - {n}
    requires a[y].color == Red
    ensures a[y].right == Null && RB(a', TransplantShape(s, n, y))
  {
    var s' := TransplantShape(s, n, y);
    assert BHAt(a, s, n) && BHAt(a, s, y) && RedAt(a, n, Null) && RedAt(a, y, Null);
    if a[y].right != Null {
      assert LocalOK(a, s, a[y].right);
      ZeroBhLeaf(a, s, a[y].right);
      assert false;
    }
    forall h | h in s'.ix
      ensures BHAt(a', s', h) && RedAt(a', h, Null)
    {
      if h == y {
        TransplantBalancedAtSuccessor(a, s, a', n, y);
        TransplantRedRuleAtSuccessor(a, s, a', n, y);
      } else {
        assert LocalOK(a, s, h) && BHAt(a, s, h) && RedAt(a, h, Null);
        TransplantBalanced(a, s, a', n, y, h);
        TransplantRedRule(a, s, a', n, y, h);
      }
    }
    assert LocalOK(a, s, Root(a));
  }

  lemma TransplantBlackNodes(a: Arena, s: Shape, a': Arena, n: int, y: int)
    requires WF(a, s) && RB(a, s) && TransplantSite(a, s, n, y) && Transplanted(a, a', n, y)
    requires TransplantShape(s, n, y).ix.Keys == s.ix.Keys - {n}
    requires a[y].color == Black
    ensures var s', r, xp := TransplantShape(s, n, y), a[y].right, TransplantParent(a, n, y);
            && (forall h {:trigger BHAt(a', s', h)} :: h in s'.ix && h != xp ==> BHAt(a', s', h))
            && (forall h {:trigger RedAt(a', h, r)} :: h in s'.ix && h != r ==> RedAt(a', h, r))
            && Deficit(a', s', xp, r)
  {
    var s', r, xp := TransplantShape(s, n, y), a[y].right, TransplantParent(a, n, y);
    assert BHAt(a, s, n) && BHAt(a, s, y) && RedAt(a, n, Null) && RedAt(a, y, Null);
    forall h | h in s'.ix
      ensures h != xp ==> BHAt(a', s', h)
      ensures h != r ==> RedAt(a', h, r)
    {
      if h == y {
        if h != xp {
          TransplantBalancedAtSuccessor(a, s, a', n, y);
        }
        TransplantRedRuleAtSuccessor(a, s, a', n, y);
      } else {
        assert LocalOK(a, s, h) && BHAt(a, s, h) && RedAt(a, h, Null);
        if h != xp {
          TransplantBalanced(a, s, a', n, y, h);
        }
        if h != r {
          TransplantRedRule(a, s, a', n, y, h);
        }
      }
    }
    if xp != y {
      assert BHAt(a, s, xp);
    }
    TransplantDeficit(a, s, a', n, y);
  }

  /** A removed black successor leaves the rebalancing invariant at r and its new parent. */
  lemma TransplantBlack(a: Arena, s: Shape, a': Arena, n: int, y: int)
    requires WF(a, s) && RB(a, s) && TransplantSite(a, s, n, y) && Transplanted(a, a', n, y)
    requires TransplantShape(s, n, y).ix.Keys == s.ix.Keys - {n}
    requires WF(a', TransplantShape(s, n, y))
    requires a[y].color == Black
    ensures DelFixUp(a', TransplantShape(s, n, y), a[y].right, TransplantParent(a, n, y))
  {
    TransplantBlackNodes(a, s, a', n, y);
    assert LocalOK(a, s, Root(a));
  }

  /**
   * The two-children branch of `delete_fix` on a red-black tree: the successor y takes
   * n's place and colour, the links stay well formed and the in-order sequence loses
   * n. A red y leaves a red-black tree; a black y leaves its right child one black
   * short under its new parent, which the rebalancing loop repairs.
   */
  lemma TransplantOK(a: Arena, s: Shape, n: int)
    requires WF(a, s) && RB(a, s) && n in s.ix && n in a && a[n].left != Null && a[n].right != Null
    ensures LocalOK(a, s, n) && s.ix[n] + 1 < |s.order|
    ensures var y := s.order[s.ix[n] + 1];
            && TransplantArena.requires(a, n, y) && y in a && a[y].left == Null && y != a[n].left
            && TransplantParent.requires(a, n, y)
            && var a', s' := TransplantArena(a, n, y), TransplantShape(s, n, y);
            && RemovedAt(a, s, a', s', n) && a'[n] == a[n].(color := a[y].color)
            && (a[y].color == Red ==> RB(a', s'))
            && (a[y].color == Black ==> DelFixUp(a', s', a[y].right, TransplantParent(a, n, y)))
  {
    TransplantSiteOf(a, s, n);
    var y := s.order[s.ix[n] + 1];
    TransplantArenaIsTransplanted(a, s, n, y);
    var a' := TransplantArena(a, n, y);
    TransplantWF(a, s, a', n, y);
    if a[y].color == Red {
      TransplantRed(a, s, a', n, y);
    } else {
      TransplantBlack(a, s, a', n, y);
    }
  }

  // ---------------------------------------------------------------------------
  // Freeing the unlinked node
  // ---------------------------------------------------------------------------

  /**
   * `delete_node(n)` once n is out of the tree: no link of the tree reaches n, so
   * releasing it keeps the shape, the keys and the red-black conditions.
   */
  lemma DropNodeOK(a: Arena, s: Shape, n: int)
    requires WF(a, s) && n !in s.ix && n != Header
    ensures WF(a - {n}, s) && Keys(a - {n}, s) == Keys(a, s)
    ensures RB(a, s) ==> RB(a - {n}, s)
  {
    var a' := a - {n};
    forall h | h in s.ix
      ensures LocalOK(a', s, h) && (BHAt(a, s, h) ==> BHAt(a', s, h)) && (RedAt(a, h, Null) ==> RedAt(a', h, Null))
    {
      assert LocalOK(a, s, h);
    }
    if |s.order| > 0 {
      assert LocalOK(a, s, Root(a));
    }
    forall i | 0 <= i < |s.order|
      ensures Keys(a', s)[i] == Keys(a, s)[i]
    {
      assert s.order[i] in s.ix;
    }
  }

  /**
   * Removing position k shifts every later iterator, `end()` included, one
   * position down.
   */
  lemma RemovedPos(a: Arena, s: Shape, a': Arena, s': Shape, k: int, h: int)
    requires WF(a, s) && WF(a', s') && 0 <= k < |s.order| && s'.order == s.order[..k] + s.order[k + 1..]
    requires (h == Header || h in s.ix) && k < Pos(s, h)
    ensures (h == Header || h in s'.ix) && Pos(s', h) == Pos(s, h) - 1
  {
    if h != Header {
      assert LocalOK(a, s, h);
      assert s'.order[s.ix[h] - 1] == h;
    }
  }
}
