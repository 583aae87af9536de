/**
 * Whole subtrees, as `erase_from` frees them and `copy_from` duplicates them: the
 * nodes of a subtree are the nodes at the positions its interval covers.
 */
module TreeSubtrees {
  import opened TreeLayout

  /** The nodes at positions `[lo, hi)` of the in-order sequence. */
  ghost function Span(s: Shape, lo: int, hi: int): set<int>
  {
    set i | lo <= i < hi && 0 <= i < |s.order| :: s.order[i]
  }

  /** The nodes of h's subtree. */
  ghost function Subtree(s: Shape, h: int): set<int>
    requires h in s.lo && h in s.hi
  {
    Span(s, s.lo[h], s.hi[h])
  }

  /** The number of positions h's subtree covers, the measure `copy_from` and `erase_from` descend on. */
  ghost function Width(s: Shape, h: int): nat
  {
    if h in s.ix && h in s.lo && h in s.hi && s.lo[h] <= s.hi[h] then s.hi[h] - s.lo[h] else 0
  }

  /** The children of a node are nodes with narrower subtrees. */
  lemma ChildrenNarrower(a: Arena, s: Shape, h: int)
    requires WF(a, s) && h in s.ix
    ensures h in a && Width(s, Null) == 0 && 0 < Width(s, h)
    ensures a[h].left != Null ==> a[h].left in s.ix && Width(s, a[h].left) < Width(s, h)
    ensures a[h].right != Null ==> a[h].right in s.ix && Width(s, a[h].right) < Width(s, h)
  {
    assert LocalOK(a, s, h);
  }

  /** Every node of a span is a tree node whose position lies in the span. */
  lemma SpanIndex(a: Arena, s: Shape, lo: int, hi: int)
    requires WF(a, s)
    ensures forall x :: x in Span(s, lo, hi) ==> x in s.ix && lo <= s.ix[x] < hi
  {
    forall x | x in Span(s, lo, hi)
      ensures x in s.ix && lo <= s.ix[x] < hi
    {
      var i :| lo <= i < hi && 0 <= i < |s.order| && s.order[i] == x;
    }
  }

  /** Adjacent spans make up the span that covers both. */
  lemma SpanJoin(s: Shape, lo: int, mid: int, hi: int)
    requires lo <= mid <= hi
    ensures Span(s, lo, hi) == Span(s, lo, mid) + Span(s, mid, hi)
  {
  }

  /** The span of one position is the node there. */
  lemma SpanOne(s: Shape, i: int)
    requires 0 <= i < |s.order|
    ensures Span(s, i, i + 1) == {s.order[i]}
  {
    assert s.order[i] in Span(s, i, i + 1);
  }

  /**
   * A subtree is its left subtree, its root and its right subtree, and no two of
   * the three share a node.
   */
  lemma SubtreeSplit(a: Arena, s: Shape, h: int)
    requires WF(a, s) && h in s.ix
    ensures LocalOK(a, s, h)
    ensures a[h].left != Null ==> LocalOK(a, s, a[h].left)
    ensures a[h].right != Null ==> LocalOK(a, s, a[h].right)
    ensures var l, r := a[h].left, a[h].right;
            var L := if l == Null then {} else Subtree(s, l);
            var R := if r == Null then {} else Subtree(s, r);
            Subtree(s, h) == L + {h} + R && h !in L && h !in R && L !! R
  {
    assert LocalOK(a, s, h);
    var k := s.ix[h];
    if a[h].left != Null { assert LocalOK(a, s, a[h].left); }
    if a[h].right != Null { assert LocalOK(a, s, a[h].right); }
    SpanJoin(s, s.lo[h], k, s.hi[h]);
    SpanJoin(s, k, k + 1, s.hi[h]);
    SpanOne(s, k);
    SpanIndex(a, s, s.lo[h], k);
    SpanIndex(a, s, k + 1, s.hi[h]);
    assert Span(s, s.lo[h], k) == {} || a[h].left != Null;
    assert Span(s, k + 1, s.hi[h]) == {} || a[h].right != Null;
  }

  /** The root's subtree is the whole tree. */
  lemma SubtreeAll(a: Arena, s: Shape)
    requires WF(a, s) && |s.order| > 0
    ensures Root(a) in s.lo && Root(a) in s.hi && Subtree(s, Root(a)) == s.ix.Keys
  {
    SpanIndex(a, s, 0, |s.order|);
    forall x | x in s.ix
      ensures x in Span(s, 0, |s.order|)
    {
      assert LocalOK(a, s, x);
    }
  }

  /** Freeing three disjoint parts one after another frees their union. */
  lemma FreeParts(a: Arena, l: set<int>, n: int, r: set<int>)
    ensures a - l - r - {n} == a - (l + {n} + r)
  {
  }

  /** Freeing nothing changes nothing. */
  lemma FreeNothing(a: Arena)
    ensures a - {} == a
  {
  }

  /** When every allocated handle is the header or a tree node, freeing the tree leaves the header alone. */
  lemma FreeAll(a: Arena, s: Shape)
    requires WF(a, s) && forall h :: h in a ==> h == Header || h in s.ix
    ensures forall h :: h in s.ix ==> h in a && 0 <= s.ix[h] < |s.order|
    ensures (a - s.ix.Keys).Keys == {Header}
    ensures Root(a) == Null ==> s.ix.Keys == {}
  {
    assert forall h :: h in a - s.ix.Keys <==> h == Header;
    forall h | h in s.ix
      ensures h in a && 0 <= s.ix[h] < |s.order|
    {
      assert LocalOK(a, s, h);
    }
    if Root(a) == Null {
      assert |s.order| == 0;
    }
  }

  /** The shape of the empty tree. */
  const EmptyShape := Shape([], map[], map[], map[], map[])

  /** A lone header as `default_init` leaves it is the empty red-black tree. */
  lemma EmptyOK(a: Arena)
    requires a.Keys == {Header} && a[Header].parent == Null
    requires a[Header].left == Header && a[Header].right == Header && a[Header].color == Red
    ensures WF(a, EmptyShape) && RB(a, EmptyShape) && Keys(a, EmptyShape) == []
  {
  }

  /**
   * The children of a node of t's subtree lie in t's subtree, and none of them is t:
   * a subtree is closed under taking children.
   */
  lemma SubtreeChildren(a: Arena, s: Shape, t: int, x: int)
    requires WF(a, s) && t in s.ix && LocalOK(a, s, t) && x in Subtree(s, t)
    ensures x in s.ix && LocalOK(a, s, x)
    ensures a[x].left != Null ==> a[x].left in Subtree(s, t) && a[x].left != t
    ensures a[x].right != Null ==> a[x].right in Subtree(s, t) && a[x].right != t
  {
    SpanIndex(a, s, s.lo[t], s.hi[t]);
    assert LocalOK(a, s, x);
    InSubtree(a, s, t, s.ix[x]);
    if a[x].left != Null {
      var c := a[x].left;
      assert LocalOK(a, s, c);
      assert s.order[s.ix[c]] in Subtree(s, t);
    }
    if a[x].right != Null {
      var c := a[x].right;
      assert LocalOK(a, s, c);
      assert s.order[s.ix[c]] in Subtree(s, t);
    }
  }
}
