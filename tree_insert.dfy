/**
 * What `insert_at_pos` and `insert_fix` do to the node layout, proved once on
 * arenas and shapes so that the tree's methods only have to cite these lemmas.
 *
 * Linking a new red leaf z at in-order position k keeps the tree well formed and
 * keeps every black height; the only red-red edge it can create is the one into z.
 * Each `insert_fix` step keeps that "one red edge, into n" invariant (recolouring,
 * which moves the edge two levels up) or removes the edge for good (the rotations).
 */
module TreeInsert {
  import opened TreeLayout

  // ---------------------------------------------------------------------------
  // Linking a new leaf
  // ---------------------------------------------------------------------------

  /** A position `v` after a new position has been made at `t`. */
  function ShiftAt(v: int, t: int): int
  {
    if v >= t then v + 1 else v
  }

  /**
   * The shape after linking z in at in-order position k. Positions from k on move
   * up by one. Interval bounds move from k + 1 on when z hangs to the left of its
   * parent (the parent's own interval starts at k) and from k on when it hangs to
   * the right (the parent's interval ends at k).
   */
  ghost function InsertShape(s: Shape, z: int, k: int, left: bool): Shape
    requires 0 <= k <= |s.order|
  {
    var t := if left then k + 1 else k;
    Shape(
      s.order[..k] + [z] + s.order[k..],
      (map h | h in s.ix :: ShiftAt(s.ix[h], k))[z := k],
      (map h | h in s.lo :: ShiftAt(s.lo[h], t))[z := k],
      (map h | h in s.hi :: ShiftAt(s.hi[h], t))[z := k + 1],
      s.bh[z := 0])
  }

  /**
   * Where a new node may go: the empty tree's header, or the free left or right
   * child slot of p, which must sit at in-order position k. The node z may already
   * be allocated, as long as it is not part of the tree.
   */
  ghost predicate InsertSite(a: Arena, s: Shape, p: int, z: int, k: int, left: bool)
  {
    && WF(a, s) && z != Header && z != Null && z !in s.ix && 0 <= k <= |s.order|
    && (p == Header ==> |s.order| == 0 && k == 0)
    && (p != Header ==>
          && p in s.ix && LocalOK(a, s, p)
          && (left ==> a[p].left == Null && k == s.ix[p])
          && (!left ==> a[p].right == Null && k == s.ix[p] + 1))
  }

  /**
   * The links `insert_at_pos` writes: z hangs under p; an empty tree's header gets
   * z as root, minimum and maximum; otherwise p's free slot gets z, and the cached
   * minimum (left insertion) or maximum (right insertion) moves to z if it was p.
   */
  ghost function LinkNewArena(a: Arena, p: int, z: int, key: int, left: bool): Arena
    requires Header in a && (p == Header || p in a)
  {
    var a1 := a[z := Node(p, Null, Null, Red, key)];
    var a2 := if p == Header then a1[Header := a1[Header].(parent := z, left := z, right := z)] else a1;
    if left then
      var a3 := a2[p := a2[p].(left := z)];
      if p == a3[Header].left then a3[Header := a3[Header].(left := z)] else a3
    else
      var a3 := a2[p := a2[p].(right := z)];
      if p == a3[Header].right then a3[Header := a3[Header].(right := z)] else a3
  }

  /** `a'` is `a` with the new leaf z linked under p, and no other node changed. */
  ghost predicate LinkedNew(a: Arena, a': Arena, p: int, z: int, key: int, left: bool)
  {
    && Header in a && z != Header && (p == Header || p in a)
    && a'.Keys == a.Keys + {z}
    && a'[z] == Node(p, Null, Null, Red, key)
    && (p == Header ==> a'[Header] == a[Header].(parent := z, left := z, right := z))
    && (p != Header && left ==>
          && a'[p] == a[p].(left := z)
          && a'[Header] == if a[Header].left == p then a[Header].(left := z) else a[Header])
    && (p != Header && !left ==>
          && a'[p] == a[p].(right := z)
          && a'[Header] == if a[Header].right == p then a[Header].(right := z) else a[Header])
    && (forall h :: h in a && h != p && h != Header && h != z ==> a'[h] == a[h])
  }

  lemma LinkNewArenaIsLinked(a: Arena, s: Shape, p: int, z: int, k: int, key: int, left: bool)
    requires InsertSite(a, s, p, z, k, left)
    ensures LinkedNew(a, LinkNewArena(a, p, z, key, left), p, z, key, left)
  {
  }

  lemma LinkAtNew(a: Arena, s: Shape, a': Arena, p: int, z: int, k: int, key: int, left: bool)
    requires InsertSite(a, s, p, z, k, left) && LinkedNew(a, a', p, z, key, left)
    ensures LocalOK(a', InsertShape(s, z, k, left), z)
    ensures BHAt(a', InsertShape(s, z, k, left), z) && RedAt(a', z, z)
  {
  }

  lemma LinkAtParent(a: Arena, s: Shape, a': Arena, p: int, z: int, k: int, key: int, left: bool)
    requires InsertSite(a, s, p, z, k, left) && LinkedNew(a, a', p, z, key, left)
    requires p != Header && BHAt(a, s, p) && RedAt(a, p, Null)
    requires a[p].parent != Header ==> LocalOK(a, s, a[p].parent)
    ensures LocalOK(a', InsertShape(s, z, k, left), p)
    ensures BHAt(a', InsertShape(s, z, k, left), p) && RedAt(a', p, z)
  {
  }

  lemma LinkElsewhere(a: Arena, s: Shape, a': Arena, p: int, z: int, k: int, key: int, left: bool, h: int)
    requires InsertSite(a, s, p, z, k, left) && LinkedNew(a, a', p, z, key, left)
    requires h in s.ix && h != p && LocalOK(a, s, h) && BHAt(a, s, h) && RedAt(a, h, Null)
    requires a[h].parent != Header ==> LocalOK(a, s, a[h].parent)
    ensures LocalOK(a', InsertShape(s, z, k, left), h)
    ensures BHAt(a', InsertShape(s, z, k, left), h) && RedAt(a', h, z)
  {
    LinkElsewhereLinks(a, s, a', p, z, k, key, left, h);
    LinkElsewhereColours(a, s, a', p, z, k, key, left, h);
  }

  lemma LinkElsewhereLinks(a: Arena, s: Shape, a': Arena, p: int, z: int, k: int, key: int, left: bool, h: int)
    requires InsertSite(a, s, p, z, k, left) && LinkedNew(a, a', p, z, key, left)
    requires h in s.ix && h != p && LocalOK(a, s, h)
    requires a[h].parent != Header ==> LocalOK(a, s, a[h].parent)
    ensures LocalOK(a', InsertShape(s, z, k, left), h)
  {
    if left {
      LinkElsewhereLeft(a, s, a', p, z, k, key, h);
    } else {
      LinkElsewhereRight(a, s, a', p, z, k, key, h);
    }
  }

  lemma LinkElsewhereLeft(a: Arena, s: Shape, a': Arena, p: int, z: int, k: int, key: int, h: int)
    requires InsertSite(a, s, p, z, k, true) && LinkedNew(a, a', p, z, key, true)
    requires h in s.ix && h != p && LocalOK(a, s, h)
    requires a[h].parent != Header ==> LocalOK(a, s, a[h].parent)
    ensures LocalOK(a', InsertShape(s, z, k, true), h)
  {
  }

  lemma LinkElsewhereRight(a: Arena, s: Shape, a': Arena, p: int, z: int, k: int, key: int, h: int)
    requires InsertSite(a, s, p, z, k, false) && LinkedNew(a, a', p, z, key, false)
    requires h in s.ix && h != p && LocalOK(a, s, h)
    requires a[h].parent != Header ==> LocalOK(a, s, a[h].parent)
    ensures LocalOK(a', InsertShape(s, z, k, false), h)
  {
  }

  lemma LinkElsewhereColours(a: Arena, s: Shape, a': Arena, p: int, z: int, k: int, key: int, left: bool, h: int)
    requires InsertSite(a, s, p, z, k, left) && LinkedNew(a, a', p, z, key, left)
    requires h in s.ix && h != p && LocalOK(a, s, h) && BHAt(a, s, h) && RedAt(a, h, Null)
    ensures BHAt(a', InsertShape(s, z, k, left), h) && RedAt(a', h, z)
  {
  }

  lemma LinkHeader(a: Arena, s: Shape, a': Arena, p: int, z: int, k: int, key: int, left: bool)
    requires InsertSite(a, s, p, z, k, left) && LinkedNew(a, a', p, z, key, left)
    requires |s.order| > 0 ==> s.order[0] in s.ix && s.ix[s.order[0]] == 0
    requires |s.order| > 0 ==> s.order[|s.order| - 1] in s.ix && s.ix[s.order[|s.order| - 1]] == |s.order| - 1
    ensures Header in a' && HeaderOK(a', InsertShape(s, z, k, left))
  {
    var s' := InsertShape(s, z, k, left);
    if p != Header {
      var r := a[Header].parent;
      assert s'.order[0] == if k == 0 then z else s.order[0];
      assert s'.order[|s'.order| - 1] == if k == |s.order| then z else s.order[|s.order| - 1];
    }
  }

  lemma LinkOrder(s: Shape, z: int, k: int, left: bool)
    requires 0 <= k <= |s.order| && z !in s.ix
    requires forall i {:trigger s.order[i]} :: 0 <= i < |s.order| ==> s.order[i] in s.ix && s.ix[s.order[i]] == i
    ensures var s' := InsertShape(s, z, k, left);
            forall i {:trigger s'.order[i]} :: 0 <= i < |s'.order| ==> s'.order[i] in s'.ix && s'.ix[s'.order[i]] == i
  {
    var s' := InsertShape(s, z, k, left);
    forall i | 0 <= i < |s'.order|
      ensures s'.order[i] in s'.ix && s'.ix[s'.order[i]] == i
    {
      if i < k {
        assert s'.order[i] == s.order[i];
      } else if i > k {
        assert s'.order[i] == s.order[i - 1];
      }
    }
  }

  lemma LinkKeepsKey(a: Arena, a': Arena, p: int, z: int, key: int, left: bool, h: int)
    requires LinkedNew(a, a', p, z, key, left) && h in a && h != z
    ensures KeyOf(a', h) == KeyOf(a, h)
  {
  }

  lemma LinkKeys(a: Arena, s: Shape, a': Arena, p: int, z: int, k: int, key: int, left: bool)
    requires InsertSite(a, s, p, z, k, left) && LinkedNew(a, a', p, z, key, left)
    ensures Keys(a', InsertShape(s, z, k, left)) == Keys(a, s)[..k] + [key] + Keys(a, s)[k..]
  {
    var s' := InsertShape(s, z, k, left);
    var ks, ks' := Keys(a, s), Keys(a', s');
    forall i | 0 <= i < |s'.order|
      ensures ks'[i] == (ks[..k] + [key] + ks[k..])[i]
    {
      if i < k {
        assert s'.order[i] == s.order[i];
        assert LocalOK(a, s, s.order[i]);
        LinkKeepsKey(a, a', p, z, key, left, s.order[i]);
      } else if i > k {
        assert s'.order[i] == s.order[i - 1];
        assert LocalOK(a, s, s.order[i - 1]);
        LinkKeepsKey(a, a', p, z, key, left, s.order[i - 1]);
      } else {
        assert s'.order[i] == z;
      }
    }
  }

  /** The new node's colour and the "one red edge, into n" invariant `insert_fix` starts from. */
  ghost predicate FixUpInsert(a: Arena, s: Shape, n: int)
  {
    && WF(a, s) && n in s.ix && n in a && a[n].color == Red
    && BHAll(a, s) && RedAll(a, s, n) && (RootBlack(a) || Root(a) == n)
  }

  /** Every node's local conditions after linking z in. */
  lemma LinkNodes(a: Arena, s: Shape, a': Arena, p: int, z: int, k: int, key: int, left: bool)
    requires InsertSite(a, s, p, z, k, left) && LinkedNew(a, a', p, z, key, left) && RB(a, s)
    ensures var s' := InsertShape(s, z, k, left);
            && (forall h {:trigger LocalOK(a', s', h)} :: h in s'.ix ==> LocalOK(a', s', h))
            && (forall h {:trigger BHAt(a', s', h)} :: h in s'.ix ==> BHAt(a', s', h))
            && (forall h {:trigger RedAt(a', h, z)} :: h in s'.ix ==> RedAt(a', h, z))
  {
    var s' := InsertShape(s, z, k, left);
    forall h | h in s'.ix
      ensures LocalOK(a', s', h) && BHAt(a', s', h) && RedAt(a', h, z)
    {
      if h == z {
        LinkAtNew(a, s, a', p, z, k, key, left);
      } else {
        assert h in s.ix && LocalOK(a, s, h) && BHAt(a, s, h) && RedAt(a, h, Null);
        if a[h].parent != Header {
          assert LocalOK(a, s, a[h].parent);
        }
        if h == p {
          LinkAtParent(a, s, a', p, z, k, key, left);
        } else {
          LinkElsewhere(a, s, a', p, z, k, key, left, h);
        }
      }
    }
  }

  /** The root stays black unless the new node is the root. */
  lemma LinkRoot(a: Arena, s: Shape, a': Arena, p: int, z: int, k: int, key: int, left: bool)
    requires InsertSite(a, s, p, z, k, left) && LinkedNew(a, a', p, z, key, left) && RootBlack(a)
    ensures RootBlack(a') || Root(a') == z
  {
    if p != Header {
      assert Root(a') == Root(a);
      if Root(a) != Null {
        assert LocalOK(a, s, Root(a));
      }
    }
  }

  /**
   * Linking a new red leaf keeps the tree well formed and puts the key at position
   * k of the key sequence; the only possible red-red edge is the one into z.
   */
  lemma LinkOK(a: Arena, s: Shape, a': Arena, p: int, z: int, k: int, key: int, left: bool)
    requires InsertSite(a, s, p, z, k, left) && LinkedNew(a, a', p, z, key, left) && RB(a, s)
    ensures WF(a', InsertShape(s, z, k, left))
    ensures FixUpInsert(a', InsertShape(s, z, k, left), z)
    ensures Keys(a', InsertShape(s, z, k, left)) == Keys(a, s)[..k] + [key] + Keys(a, s)[k..]
    ensures InsertShape(s, z, k, left).order == s.order[..k] + [z] + s.order[k..]
  {
    LinkNodes(a, s, a', p, z, k, key, left);
    if |s.order| > 0 {
      assert s.order[0] in s.ix && s.ix[s.order[0]] == 0;
      assert s.order[|s.order| - 1] in s.ix && s.ix[s.order[|s.order| - 1]] == |s.order| - 1;
    }
    LinkHeader(a, s, a', p, z, k, key, left);
    LinkOrder(s, z, k, left);
    LinkKeys(a, s, a', p, z, k, key, left);
    LinkRoot(a, s, a', p, z, k, key, left);
  }

  /** `LinkOK` for the links `insert_at_pos` writes, with the new shape's sizes. */
  lemma LinkNewOK(a: Arena, s: Shape, a': Arena, p: int, z: int, k: int, key: int, left: bool)
    requires InsertSite(a, s, p, z, k, left) && a' == LinkNewArena(a, p, z, key, left) && RB(a, s)
    ensures var s' := InsertShape(s, z, k, left);
            && FixUpInsert(a', s', z) && |s'.order| == |s.order| + 1
            && Keys(a', s') == Keys(a, s)[..k] + [key] + Keys(a, s)[k..]
            && s'.ix.Keys == s.ix.Keys + {z} && s'.ix[z] == k
  {
    LinkNewArenaIsLinked(a, s, p, z, k, key, left);
    LinkOK(a, s, a', p, z, k, key, left);
    var s' := InsertShape(s, z, k, left);
    assert s'.ix.Keys == s.ix.Keys + {z};
  }

  /**
   * Splicing one new handle into the in-order sequence, with its key spliced into
   * the key sequence at the same place, keeps every old node and its key, in order.
   */
  lemma SpliceKeepsNodes(a: Arena, s: Shape, a': Arena, s': Shape, z: int, k: int, key: int)
    requires WF(a, s) && WF(a', s') && 0 <= k <= |s.order|
    requires s'.order == s.order[..k] + [z] + s.order[k..]
    requires Keys(a', s') == Keys(a, s)[..k] + [key] + Keys(a, s)[k..]
    ensures KeepsNodes(a, s, a', s')
  {
    forall h | h in s.ix
      ensures h in s'.ix && s'.ix[h] == ShiftAt(s.ix[h], k) && KeyOf(a', h) == KeyOf(a, h)
    {
      assert LocalOK(a, s, h);
      var i := s.ix[h];
      var j := ShiftAt(i, k);
      assert s'.order[j] == h;
      assert Keys(a', s')[j] == KeyOf(a', h);
      assert Keys(a, s)[i] == KeyOf(a, h);
    }
  }

  /** Iterator stability composes. */
  lemma KeepsNodesTrans(a0: Arena, s0: Shape, a1: Arena, s1: Shape, a2: Arena, s2: Shape)
    requires KeepsNodes(a0, s0, a1, s1) && KeepsNodes(a1, s1, a2, s2)
    ensures KeepsNodes(a0, s0, a2, s2)
  {
  }

  // ---------------------------------------------------------------------------
  // Recolouring
  // ---------------------------------------------------------------------------

  /** `h->_set_red()` / `h->_set_black()`. */
  ghost function Paint(a: Arena, h: int, c: Color): Arena
    requires h in a
  {
    a[h := a[h].(color := c)]
  }

  /** The shape with `h`'s black height moved by `d`. */
  ghost function AddBh(s: Shape, h: int, d: int): Shape
    requires h in s.bh
  {
    s.(bh := s.bh[h := s.bh[h] + d])
  }

  /** Repainting a node changes no link and no key. */
  lemma PaintWF(a: Arena, s: Shape, h: int, c: Color)
    requires WF(a, s) && h in s.ix && h in a
    ensures WF(Paint(a, h, c), s) && Keys(Paint(a, h, c), s) == Keys(a, s)
  {
    var a' := Paint(a, h, c);
    forall m | m in s.ix
      ensures LocalOK(a', s, m)
    {
      assert LocalOK(a, s, m);
    }
    PaintKeys(a, s, h, c);
  }

  lemma PaintKeys(a: Arena, s: Shape, h: int, c: Color)
    requires h in a
    ensures Keys(Paint(a, h, c), s) == Keys(a, s)
  {
    var a' := Paint(a, h, c);
    forall i | 0 <= i < |s.order|
      ensures KeyOf(a', s.order[i]) == KeyOf(a, s.order[i])
    {
    }
  }

  /** Black heights take no part in the link conditions. */
  lemma AddBhWF(a: Arena, s: Shape, h: int, d: int)
    requires WF(a, s) && h in s.bh
    ensures WF(a, AddBh(s, h, d)) && Keys(a, AddBh(s, h, d)) == Keys(a, s)
  {
    var s' := AddBh(s, h, d);
    assert s'.order == s.order && s'.ix == s.ix && s'.lo == s.lo && s'.hi == s.hi;
    assert s'.bh.Keys == s.bh.Keys;
    forall m | m in s.ix
      ensures LocalOK(a, s', m)
    {
      assert LocalOK(a, s, m);
      SameLinkShape(a, s, s', m);
    }
  }

  lemma SameLinkShape(a: Arena, s: Shape, s': Shape, m: int)
    requires LocalOK(a, s, m)
    requires s'.order == s.order && s'.ix == s.ix && s'.lo == s.lo && s'.hi == s.hi && s'.bh.Keys == s.bh.Keys
    ensures LocalOK(a, s', m)
  {
  }

  /**
   * The configuration inside the `insert_fix` loop: n is red and not the root, its
   * parent p is red, so p is not the root either and has a black parent g; u is p's
   * sibling (the uncle), possibly `Null`.
   */
  ghost predicate RedFamily(a: Arena, s: Shape, n: int, p: int, g: int, u: int)
  {
    FixUpInsert(a, s, n) && Family(a, s, n, p, g, u)
  }

  /** The links and colours of `RedFamily` around n, without the tree-wide conditions. */
  ghost predicate Family(a: Arena, s: Shape, n: int, p: int, g: int, u: int)
  {
    && Header in a && Null !in a && Header !in s.ix && Null !in s.ix
    && n in s.ix && Root(a) != n && LocalOK(a, s, n) && a[n].color == Red
    && p == a[n].parent && p in s.ix && LocalOK(a, s, p) && a[p].color == Red
    && g == a[p].parent && g in s.ix && LocalOK(a, s, g) && a[g].color == Black
    && u == (if a[g].left == p then a[g].right else a[g].left)
    && (u != Null ==> LocalOK(a, s, u))
    && (a[g].parent != Header ==> LocalOK(a, s, a[g].parent))
  }

  lemma RedFamilyOf(a: Arena, s: Shape, n: int)
    requires FixUpInsert(a, s, n) && Root(a) != n && a[n].parent in a && a[a[n].parent].color == Red
    ensures a[n].parent in a && a[n].parent != Header && a[a[n].parent].parent in a
    ensures var p := a[n].parent; var g := a[p].parent;
            RedFamily(a, s, n, p, g, if a[g].left == p then a[g].right else a[g].left)
  {
    assert LocalOK(a, s, n);
    var p := a[n].parent;
    assert LocalOK(a, s, p) && RedAt(a, p, n);
    var g := a[p].parent;
    assert LocalOK(a, s, g) && RedAt(a, g, n);
    var u := if a[g].left == p then a[g].right else a[g].left;
    if u != Null {
      assert LocalOK(a, s, u);
    }
    if a[g].parent != Header {
      assert LocalOK(a, s, a[g].parent);
    }
  }

  /** In a well-formed tree the local facts of `Family` follow from the links and colours. */
  lemma FamilyOfWF(a: Arena, s: Shape, n: int, p: int, g: int, u: int)
    requires WF(a, s) && n in s.ix && Root(a) != n
    requires LocalOK(a, s, n) && a[n].color == Red && p == a[n].parent
    requires LocalOK(a, s, p) && a[p].color == Red && g == a[p].parent
    requires LocalOK(a, s, g) && a[g].color == Black
    requires u == (if a[g].left == p then a[g].right else a[g].left)
    ensures Family(a, s, n, p, g, u)
  {
    if u != Null {
      assert LocalOK(a, s, u);
    }
    if a[g].parent != Header {
      assert LocalOK(a, s, a[g].parent);
    }
  }

  /** Repainting two nodes and moving their black heights keeps the links and the keys. */
  lemma RepaintWF(a: Arena, s: Shape, p: int, cp: Color, dp: int, g: int, cg: Color, dg: int)
    requires WF(a, s) && p in s.ix && g in s.ix && p in a && g in a && p in s.bh && g in s.bh
    ensures var a1 := Paint(Paint(a, p, cp), g, cg);
            var s1 := AddBh(AddBh(s, p, dp), g, dg);
            && WF(a1, s1) && Keys(a1, s1) == Keys(a, s) && s1.order == s.order && s1.ix == s.ix
            && s1.lo == s.lo && s1.hi == s.hi
  {
    var a1 := Paint(Paint(a, p, cp), g, cg);
    PaintWF(a, s, p, cp);
    PaintWF(Paint(a, p, cp), s, g, cg);
    AddBhWF(a1, s, p, dp);
    AddBhWF(a1, AddBh(s, p, dp), g, dg);
  }

  /** The subtree of n's grandparent is strictly larger than n's. */
  lemma FamilyGrows(a: Arena, s: Shape, n: int, p: int, g: int, u: int)
    requires RedFamily(a, s, n, p, g, u)
    ensures n in s.lo && n in s.hi && g in s.lo && g in s.hi
    ensures s.hi[n] - s.lo[n] < s.hi[g] - s.lo[g] <= |s.order|
  {
  }

  /** The recolouring step at one node. */
  lemma RecolorAt(a: Arena, s: Shape, n: int, p: int, g: int, u: int, h: int)
    requires Family(a, s, n, p, g, u) && IsRed(a, u)
    requires BHAt(a, s, p) && BHAt(a, s, u) && BHAt(a, s, g)
    requires h in s.ix && LocalOK(a, s, h) && BHAt(a, s, h) && RedAt(a, h, n)
    ensures var a' := Paint(Paint(Paint(a, u, Black), p, Black), g, Red);
            BHAt(a', AddBh(AddBh(s, p, 1), u, 1), h) && RedAt(a', h, g)
  {
    RecolorBhAt(a, s, n, p, g, u, h);
    RecolorRedAt(a, s, n, p, g, u, h);
  }

  lemma RecolorBhAt(a: Arena, s: Shape, n: int, p: int, g: int, u: int, h: int)
    requires Family(a, s, n, p, g, u) && IsRed(a, u)
    requires BHAt(a, s, p) && BHAt(a, s, u) && BHAt(a, s, g)
    requires h in s.ix && LocalOK(a, s, h) && BHAt(a, s, h) && RedAt(a, h, n)
    ensures BHAt(Paint(Paint(Paint(a, u, Black), p, Black), g, Red), AddBh(AddBh(s, p, 1), u, 1), h)
  {
  }

  lemma RecolorRedAt(a: Arena, s: Shape, n: int, p: int, g: int, u: int, h: int)
    requires Family(a, s, n, p, g, u) && IsRed(a, u)
    requires BHAt(a, s, p) && BHAt(a, s, u) && BHAt(a, s, g)
    requires h in s.ix && LocalOK(a, s, h) && BHAt(a, s, h) && RedAt(a, h, n)
    ensures RedAt(Paint(Paint(Paint(a, u, Black), p, Black), g, Red), h, g)
  {
  }

  lemma RecolorNodes(a: Arena, s: Shape, n: int, p: int, g: int, u: int)
    requires RedFamily(a, s, n, p, g, u) && IsRed(a, u)
    ensures var a' := Paint(Paint(Paint(a, u, Black), p, Black), g, Red);
            var s' := AddBh(AddBh(s, p, 1), u, 1);
            && (forall h {:trigger BHAt(a', s', h)} :: h in s.ix ==> BHAt(a', s', h))
            && (forall h {:trigger RedAt(a', h, g)} :: h in s.ix ==> RedAt(a', h, g))
  {
    assert BHAt(a, s, p) && BHAt(a, s, u) && BHAt(a, s, g);
    forall h | h in s.ix
      ensures var a' := Paint(Paint(Paint(a, u, Black), p, Black), g, Red);
              BHAt(a', AddBh(AddBh(s, p, 1), u, 1), h) && RedAt(a', h, g)
    {
      assert LocalOK(a, s, h) && BHAt(a, s, h) && RedAt(a, h, n);
      RecolorAt(a, s, n, p, g, u, h);
    }
  }

  /**
   * Recolouring (the uncle is red): p and u turn black and g red. Every black height
   * stays balanced, and the only possible red edge is now the one into g.
   */
  lemma RecolorOK(a: Arena, s: Shape, n: int, p: int, g: int, u: int)
    requires RedFamily(a, s, n, p, g, u) && IsRed(a, u)
    ensures var a' := Paint(Paint(Paint(a, u, Black), p, Black), g, Red);
            var s' := AddBh(AddBh(s, p, 1), u, 1);
            && FixUpInsert(a', s', g) && Keys(a', s') == Keys(a, s)
            && s'.order == s.order && s'.lo == s.lo && s'.hi == s.hi && s'.ix == s.ix
            && a'.Keys == a.Keys && a'[g].parent in a'
  {
    var a' := Paint(Paint(Paint(a, u, Black), p, Black), g, Red);
    var s' := AddBh(AddBh(s, p, 1), u, 1);
    assert u in s.ix;
    PaintWF(a, s, u, Black);
    PaintWF(Paint(a, u, Black), s, p, Black);
    PaintWF(Paint(Paint(a, u, Black), p, Black), s, g, Red);
    AddBhWF(a', s, p, 1);
    AddBhWF(a', AddBh(s, p, 1), u, 1);
    RecolorNodes(a, s, n, p, g, u);
    if Root(a) != g {
      assert LocalOK(a, s, Root(a));
    }
  }

  // ---------------------------------------------------------------------------
  // Rotations: the inner cases (LR, RL)
  // ---------------------------------------------------------------------------

  /** The LR step at one node: after `rotate_left(p)`, p is the red child of red n. */
  lemma InnerLeftAt(a: Arena, s: Shape, a': Arena, n: int, p: int, g: int, u: int, h: int)
    requires Family(a, s, n, p, g, u) && a[g].left == p && a[p].right == n
    requires RotatedLeft(a, a', p) && WF(a', RotateLeftShape(a, s, p))
    requires BHAt(a, s, p) && BHAt(a, s, n) && RedAt(a, p, n) && RedAt(a, n, n)
    requires h in s.ix && LocalOK(a, s, h) && BHAt(a, s, h) && RedAt(a, h, n)
    requires a[n].left != Null ==> LocalOK(a, s, a[n].left)
    ensures BHAt(a', RotateLeftShape(a, s, p), h) && RedAt(a', h, p)
  {
  }

  /**
   * LR (n is the right child of p, p the left child of g, u black): `n = p;
   * rotate_left(n)` turns the configuration into LL with the roles of n and p
   * exchanged, keeping every black height.
   */
  lemma InnerLeftOK(a: Arena, s: Shape, n: int, p: int, g: int, u: int)
    requires RedFamily(a, s, n, p, g, u) && !IsRed(a, u) && a[g].left == p && a[p].left != n
    ensures a[p].right == n && n != Null
    ensures var a' := RotateLeftArena(a, p); var s' := RotateLeftShape(a, s, p);
            && RedFamily(a', s', p, n, g, u) && a'[g].left == n && a'[n].left == p
            && Keys(a', s') == Keys(a, s) && s'.order == s.order && s'.ix == s.ix
            && a'.Keys == a.Keys && !IsRed(a', u)
  {
    RotateLeftOK(a, s, p);
    var a' := RotateLeftArena(a, p);
    var s' := RotateLeftShape(a, s, p);
    InnerLeftNodes(a, s, n, p, g, u);
    assert LocalOK(a', s', p) && LocalOK(a', s', n) && LocalOK(a', s', g);
    FamilyOfWF(a', s', p, n, g, u);
    if Root(a) != Null {
      assert LocalOK(a, s, Root(a));
    }
  }

  lemma InnerLeftNodes(a: Arena, s: Shape, n: int, p: int, g: int, u: int)
    requires RedFamily(a, s, n, p, g, u) && a[g].left == p && a[p].right == n
    requires RotateLeftArena.requires(a, p) && RotatedLeft(a, RotateLeftArena(a, p), p) && WF(RotateLeftArena(a, p), RotateLeftShape(a, s, p))
    ensures var a' := RotateLeftArena(a, p); var s' := RotateLeftShape(a, s, p);
            && (forall h {:trigger BHAt(a', s', h)} :: h in s'.ix ==> BHAt(a', s', h))
            && (forall h {:trigger RedAt(a', h, p)} :: h in s'.ix ==> RedAt(a', h, p))
  {
    var a' := RotateLeftArena(a, p);
    assert BHAt(a, s, p) && BHAt(a, s, n) && RedAt(a, p, n) && RedAt(a, n, n);
    if a[n].left != Null {
      assert LocalOK(a, s, a[n].left);
    }
    forall h | h in s.ix
      ensures BHAt(a', RotateLeftShape(a, s, p), h) && RedAt(a', h, p)
    {
      assert LocalOK(a, s, h) && BHAt(a, s, h) && RedAt(a, h, n);
      InnerLeftAt(a, s, a', n, p, g, u, h);
    }
  }

  /** The RL step at one node, the mirror image of `InnerLeftAt`. */
  lemma InnerRightAt(a: Arena, s: Shape, a': Arena, n: int, p: int, g: int, u: int, h: int)
    requires Family(a, s, n, p, g, u) && a[g].left != p && a[p].left == n
    requires RotatedRight(a, a', p) && WF(a', RotateRightShape(a, s, p))
    requires BHAt(a, s, p) && BHAt(a, s, n) && RedAt(a, p, n) && RedAt(a, n, n)
    requires h in s.ix && LocalOK(a, s, h) && BHAt(a, s, h) && RedAt(a, h, n)
    requires a[n].right != Null ==> LocalOK(a, s, a[n].right)
    ensures BHAt(a', RotateRightShape(a, s, p), h) && RedAt(a', h, p)
  {
  }

  /** RL, the mirror image of `InnerLeftOK`: `n = p; rotate_right(n)`. */
  lemma InnerRightOK(a: Arena, s: Shape, n: int, p: int, g: int, u: int)
    requires RedFamily(a, s, n, p, g, u) && !IsRed(a, u) && a[g].left != p && a[p].left == n
    ensures n != Null
    ensures var a' := RotateRightArena(a, p); var s' := RotateRightShape(a, s, p);
            && RedFamily(a', s', p, n, g, u) && a'[g].left != n && a'[n].right == p
            && Keys(a', s') == Keys(a, s) && s'.order == s.order && s'.ix == s.ix
            && a'.Keys == a.Keys && !IsRed(a', u)
  {
    RotateRightOK(a, s, p);
    var a' := RotateRightArena(a, p);
    var s' := RotateRightShape(a, s, p);
    InnerRightNodes(a, s, n, p, g, u);
    assert LocalOK(a', s', p) && LocalOK(a', s', n) && LocalOK(a', s', g);
    FamilyOfWF(a', s', p, n, g, u);
    if Root(a) != Null {
      assert LocalOK(a, s, Root(a));
    }
  }

  lemma InnerRightNodes(a: Arena, s: Shape, n: int, p: int, g: int, u: int)
    requires RedFamily(a, s, n, p, g, u) && a[g].left != p && a[p].left == n
    requires RotateRightArena.requires(a, p) && RotatedRight(a, RotateRightArena(a, p), p) && WF(RotateRightArena(a, p), RotateRightShape(a, s, p))
    ensures var a' := RotateRightArena(a, p); var s' := RotateRightShape(a, s, p);
            && (forall h {:trigger BHAt(a', s', h)} :: h in s'.ix ==> BHAt(a', s', h))
            && (forall h {:trigger RedAt(a', h, p)} :: h in s'.ix ==> RedAt(a', h, p))
  {
    var a' := RotateRightArena(a, p);
    assert BHAt(a, s, p) && BHAt(a, s, n) && RedAt(a, p, n) && RedAt(a, n, n);
    if a[n].right != Null {
      assert LocalOK(a, s, a[n].right);
    }
    forall h | h in s.ix
      ensures BHAt(a', RotateRightShape(a, s, p), h) && RedAt(a', h, p)
    {
      assert LocalOK(a, s, h) && BHAt(a, s, h) && RedAt(a, h, n);
      InnerRightAt(a, s, a', n, p, g, u, h);
    }
  }


  /** The LL step at one node, after repainting and `rotate_right(grandparent)`. */
  lemma OuterLeftAt(a: Arena, s: Shape, a2: Arena, n: int, p: int, g: int, u: int, h: int)
    requires Family(a, s, n, p, g, u) && !IsRed(a, u) && a[g].left == p && a[p].left == n
    requires var a1 := Paint(Paint(a, p, Black), g, Red);
             RotateRightArena.requires(a1, g) && RotatedRight(a1, a2, g)
    requires BHAt(a, s, p) && BHAt(a, s, n) && BHAt(a, s, g) && RedAt(a, p, n) && RedAt(a, n, n)
    requires a[p].right != Null ==> LocalOK(a, s, a[p].right)
    requires h in s.ix && LocalOK(a, s, h) && BHAt(a, s, h) && RedAt(a, h, n)
    ensures BHAt(a2, AddBh(AddBh(s, p, 1), g, -1), h) && RedAt(a2, h, Null)
  {
    if h == p {
      OuterLeftAtTop(a, s, a2, n, p, g, u, h);
    } else if h == g {
      OuterLeftAtPivot(a, s, a2, n, p, g, u, h);
    } else if h == a[p].right {
      OuterLeftAtInner(a, s, a2, n, p, g, u, h);
    } else if h == a[g].parent {
      OuterLeftAtAbove(a, s, a2, n, p, g, u, h);
    } else {
      OuterLeftAtElsewhere(a, s, a2, n, p, g, u, h);
    }
  }

  lemma OuterLeftAtTop(a: Arena, s: Shape, a2: Arena, n: int, p: int, g: int, u: int, h: int)
    requires Family(a, s, n, p, g, u) && !IsRed(a, u) && a[g].left == p && a[p].left == n
    requires var a1 := Paint(Paint(a, p, Black), g, Red);
             RotateRightArena.requires(a1, g) && RotatedRight(a1, a2, g)
    requires BHAt(a, s, p) && BHAt(a, s, n) && BHAt(a, s, g) && RedAt(a, p, n) && RedAt(a, n, n)
    requires a[p].right != Null ==> LocalOK(a, s, a[p].right)
    requires h in s.ix && LocalOK(a, s, h) && BHAt(a, s, h) && RedAt(a, h, n)
    requires h == p
    ensures BHAt(a2, AddBh(AddBh(s, p, 1), g, -1), h) && RedAt(a2, h, Null)
  {
  }

  lemma OuterLeftAtPivot(a: Arena, s: Shape, a2: Arena, n: int, p: int, g: int, u: int, h: int)
    requires Family(a, s, n, p, g, u) && !IsRed(a, u) && a[g].left == p && a[p].left == n
    requires var a1 := Paint(Paint(a, p, Black), g, Red);
             RotateRightArena.requires(a1, g) && RotatedRight(a1, a2, g)
    requires BHAt(a, s, p) && BHAt(a, s, n) && BHAt(a, s, g) && RedAt(a, p, n) && RedAt(a, n, n)
    requires a[p].right != Null ==> LocalOK(a, s, a[p].right)
    requires h in s.ix && LocalOK(a, s, h) && BHAt(a, s, h) && RedAt(a, h, n)
    requires h == g
    ensures BHAt(a2, AddBh(AddBh(s, p, 1), g, -1), h) && RedAt(a2, h, Null)
  {
  }

  lemma OuterLeftAtInner(a: Arena, s: Shape, a2: Arena, n: int, p: int, g: int, u: int, h: int)
    requires Family(a, s, n, p, g, u) && !IsRed(a, u) && a[g].left == p && a[p].left == n
    requires var a1 := Paint(Paint(a, p, Black), g, Red);
             RotateRightArena.requires(a1, g) && RotatedRight(a1, a2, g)
    requires BHAt(a, s, p) && BHAt(a, s, n) && BHAt(a, s, g) && RedAt(a, p, n) && RedAt(a, n, n)
    requires a[p].right != Null ==> LocalOK(a, s, a[p].right)
    requires h in s.ix && LocalOK(a, s, h) && BHAt(a, s, h) && RedAt(a, h, n)
    requires h == a[p].right && h != g
    ensures BHAt(a2, AddBh(AddBh(s, p, 1), g, -1), h) && RedAt(a2, h, Null)
  {
  }

  lemma OuterLeftAtAbove(a: Arena, s: Shape, a2: Arena, n: int, p: int, g: int, u: int, h: int)
    requires Family(a, s, n, p, g, u) && !IsRed(a, u) && a[g].left == p && a[p].left == n
    requires var a1 := Paint(Paint(a, p, Black), g, Red);
             RotateRightArena.requires(a1, g) && RotatedRight(a1, a2, g)
    requires BHAt(a, s, p) && BHAt(a, s, n) && BHAt(a, s, g) && RedAt(a, p, n) && RedAt(a, n, n)
    requires a[p].right != Null ==> LocalOK(a, s, a[p].right)
    requires h in s.ix && LocalOK(a, s, h) && BHAt(a, s, h) && RedAt(a, h, n)
    requires h == a[g].parent && h != p && h != a[p].right
    ensures BHAt(a2, AddBh(AddBh(s, p, 1), g, -1), h) && RedAt(a2, h, Null)
  {
  }

  lemma OuterLeftAtElsewhere(a: Arena, s: Shape, a2: Arena, n: int, p: int, g: int, u: int, h: int)
    requires Family(a, s, n, p, g, u) && !IsRed(a, u) && a[g].left == p && a[p].left == n
    requires var a1 := Paint(Paint(a, p, Black), g, Red);
             RotateRightArena.requires(a1, g) && RotatedRight(a1, a2, g)
    requires BHAt(a, s, p) && BHAt(a, s, n) && BHAt(a, s, g) && RedAt(a, p, n) && RedAt(a, n, n)
    requires a[p].right != Null ==> LocalOK(a, s, a[p].right)
    requires h in s.ix && LocalOK(a, s, h) && BHAt(a, s, h) && RedAt(a, h, n)
    requires h != p && h != g && h != a[p].right && h != a[g].parent
    ensures BHAt(a2, AddBh(AddBh(s, p, 1), g, -1), h) && RedAt(a2, h, Null)
  {
  }

  lemma OuterLeftNodes(a: Arena, s: Shape, n: int, p: int, g: int, u: int)
    requires RedFamily(a, s, n, p, g, u) && !IsRed(a, u) && a[g].left == p && a[p].left == n
    requires var a1 := Paint(Paint(a, p, Black), g, Red);
             RotateRightArena.requires(a1, g) && RotatedRight(a1, RotateRightArena(a1, g), g)
    ensures var a2 := RotateRightArena(Paint(Paint(a, p, Black), g, Red), g);
            var s2 := AddBh(AddBh(s, p, 1), g, -1);
            && (forall h {:trigger BHAt(a2, s2, h)} :: h in s.ix ==> BHAt(a2, s2, h))
            && (forall h {:trigger RedAt(a2, h, Null)} :: h in s.ix ==> RedAt(a2, h, Null))
  {
    var a2 := RotateRightArena(Paint(Paint(a, p, Black), g, Red), g);
    assert BHAt(a, s, p) && BHAt(a, s, n) && BHAt(a, s, g) && RedAt(a, p, n) && RedAt(a, n, n);
    if a[p].right != Null {
      assert LocalOK(a, s, a[p].right);
    }
    forall h | h in s.ix
      ensures BHAt(a2, AddBh(AddBh(s, p, 1), g, -1), h) && RedAt(a2, h, Null)
    {
      assert LocalOK(a, s, h) && BHAt(a, s, h) && RedAt(a, h, n);
      OuterLeftAt(a, s, a2, n, p, g, u, h);
    }
  }

  /**
   * LL (n is the left child of p, p the left child of g, u black): p turns black,
   * g red, and `rotate_right(g)` lifts p into g's place. The tree is a red-black
   * tree again, with the same in-order sequence.
   */
  lemma OuterLeftOK(a: Arena, s: Shape, n: int, p: int, g: int, u: int)
    requires RedFamily(a, s, n, p, g, u) && !IsRed(a, u) && a[g].left == p && a[p].left == n
    ensures var a1 := Paint(Paint(a, p, Black), g, Red);
            var s1 := AddBh(AddBh(s, p, 1), g, -1);
            && WF(a1, s1) && g in s1.ix && LocalOK(a1, s1, g) && a1[g].left != Null
            && var a2 := RotateRightArena(a1, g); var s2 := RotateRightShape(a1, s1, g);
            && WF(a2, s2) && RB(a2, s2) && Keys(a2, s2) == Keys(a, s) && s2.order == s.order
            && s2.ix == s.ix && a2.Keys == a.Keys
  {
    var a1 := Paint(Paint(a, p, Black), g, Red);
    var s1 := AddBh(AddBh(s, p, 1), g, -1);
    RepaintWF(a, s, p, Black, 1, g, Red, -1);
    assert LocalOK(a1, s1, g);
    RotateRightOK(a1, s1, g);
    OuterLeftNodes(a, s, n, p, g, u);
    OuterLeftRB(a1, s1, RotateRightArena(a1, g), g);
    OuterLeftRoot(a, s, n, p, g, u);
  }

  /** The rotation keeps the black heights, so the per-node facts carry over to its shape. */
  lemma OuterLeftRB(a1: Arena, s1: Shape, a2: Arena, g: int)
    requires g in a1 && Tracked(s1, g) && Tracked(s1, a1[g].left)
    requires forall h {:trigger BHAt(a2, s1, h)} :: h in s1.ix ==> BHAt(a2, s1, h)
    requires forall h {:trigger RedAt(a2, h, Null)} :: h in s1.ix ==> RedAt(a2, h, Null)
    ensures BHAll(a2, RotateRightShape(a1, s1, g)) && RedAll(a2, RotateRightShape(a1, s1, g), Null)
  {
    var s2 := RotateRightShape(a1, s1, g);
    forall h | h in s2.ix
      ensures BHAt(a2, s2, h)
    {
      assert BHAt(a2, s1, h);
    }
  }

  lemma OuterLeftRoot(a: Arena, s: Shape, n: int, p: int, g: int, u: int)
    requires RedFamily(a, s, n, p, g, u) && a[g].left == p && a[p].left == n
    requires var a1 := Paint(Paint(a, p, Black), g, Red);
             RotateRightArena.requires(a1, g) && RotatedRight(a1, RotateRightArena(a1, g), g)
    ensures RootBlack(RotateRightArena(Paint(Paint(a, p, Black), g, Red), g))
  {
    if Root(a) != Null {
      assert LocalOK(a, s, Root(a));
    }
  }

  /** The RR step at one node, after repainting and `rotate_left(grandparent)`. */
  lemma OuterRightAt(a: Arena, s: Shape, a2: Arena, n: int, p: int, g: int, u: int, h: int)
    requires Family(a, s, n, p, g, u) && !IsRed(a, u) && a[g].left != p && a[p].right == n
    requires var a1 := Paint(Paint(a, p, Black), g, Red);
             RotateLeftArena.requires(a1, g) && RotatedLeft(a1, a2, g)
    requires BHAt(a, s, p) && BHAt(a, s, n) && BHAt(a, s, g) && RedAt(a, p, n) && RedAt(a, n, n)
    requires a[p].left != Null ==> LocalOK(a, s, a[p].left)
    requires h in s.ix && LocalOK(a, s, h) && BHAt(a, s, h) && RedAt(a, h, n)
    ensures BHAt(a2, AddBh(AddBh(s, p, 1), g, -1), h) && RedAt(a2, h, Null)
  {
    if h == p {
      OuterRightAtTop(a, s, a2, n, p, g, u, h);
    } else if h == g {
      OuterRightAtPivot(a, s, a2, n, p, g, u, h);
    } else if h == a[p].left {
      OuterRightAtInner(a, s, a2, n, p, g, u, h);
    } else if h == a[g].parent {
      OuterRightAtAbove(a, s, a2, n, p, g, u, h);
    } else {
      OuterRightAtElsewhere(a, s, a2, n, p, g, u, h);
    }
  }

  lemma OuterRightAtTop(a: Arena, s: Shape, a2: Arena, n: int, p: int, g: int, u: int, h: int)
    requires Family(a, s, n, p, g, u) && !IsRed(a, u) && a[g].left != p && a[p].right == n
    requires var a1 := Paint(Paint(a, p, Black), g, Red);
             RotateLeftArena.requires(a1, g) && RotatedLeft(a1, a2, g)
    requires BHAt(a, s, p) && BHAt(a, s, n) && BHAt(a, s, g) && RedAt(a, p, n) && RedAt(a, n, n)
    requires a[p].left != Null ==> LocalOK(a, s, a[p].left)
    requires h in s.ix && LocalOK(a, s, h) && BHAt(a, s, h) && RedAt(a, h, n)
    requires h == p
    ensures BHAt(a2, AddBh(AddBh(s, p, 1), g, -1), h) && RedAt(a2, h, Null)
  {
  }

  lemma OuterRightAtPivot(a: Arena, s: Shape, a2: Arena, n: int, p: int, g: int, u: int, h: int)
    requires Family(a, s, n, p, g, u) && !IsRed(a, u) && a[g].left != p && a[p].right == n
    requires var a1 := Paint(Paint(a, p, Black), g, Red);
             RotateLeftArena.requires(a1, g) && RotatedLeft(a1, a2, g)
    requires BHAt(a, s, p) && BHAt(a, s, n) && BHAt(a, s, g) && RedAt(a, p, n) && RedAt(a, n, n)
    requires a[p].left != Null ==> LocalOK(a, s, a[p].left)
    requires h in s.ix && LocalOK(a, s, h) && BHAt(a, s, h) && RedAt(a, h, n)
    requires h == g
    ensures BHAt(a2, AddBh(AddBh(s, p, 1), g, -1), h) && RedAt(a2, h, Null)
  {
  }

  lemma OuterRightAtInner(a: Arena, s: Shape, a2: Arena, n: int, p: int, g: int, u: int, h: int)
    requires Family(a, s, n, p, g, u) && !IsRed(a, u) && a[g].left != p && a[p].right == n
    requires var a1 := Paint(Paint(a, p, Black), g, Red);
             RotateLeftArena.requires(a1, g) && RotatedLeft(a1, a2, g)
    requires BHAt(a, s, p) && BHAt(a, s, n) && BHAt(a, s, g) && RedAt(a, p, n) && RedAt(a, n, n)
    requires a[p].left != Null ==> LocalOK(a, s, a[p].left)
    requires h in s.ix && LocalOK(a, s, h) && BHAt(a, s, h) && RedAt(a, h, n)
    requires h == a[p].left && h != g
    ensures BHAt(a2, AddBh(AddBh(s, p, 1), g, -1), h) && RedAt(a2, h, Null)
  {
  }

  lemma OuterRightAtAbove(a: Arena, s: Shape, a2: Arena, n: int, p: int, g: int, u: int, h: int)
    requires Family(a, s, n, p, g, u) && !IsRed(a, u) && a[g].left != p && a[p].right == n
    requires var a1 := Paint(Paint(a, p, Black), g, Red);
             RotateLeftArena.requires(a1, g) && RotatedLeft(a1, a2, g)
    requires BHAt(a, s, p) && BHAt(a, s, n) && BHAt(a, s, g) && RedAt(a, p, n) && RedAt(a, n, n)
    requires a[p].left != Null ==> LocalOK(a, s, a[p].left)
    requires h in s.ix && LocalOK(a, s, h) && BHAt(a, s, h) && RedAt(a, h, n)
    requires h == a[g].parent && h != p && h != a[p].left
    ensures BHAt(a2, AddBh(AddBh(s, p, 1), g, -1), h) && RedAt(a2, h, Null)
  {
  }

  lemma OuterRightAtElsewhere(a: Arena, s: Shape, a2: Arena, n: int, p: int, g: int, u: int, h: int)
    requires Family(a, s, n, p, g, u) && !IsRed(a, u) && a[g].left != p && a[p].right == n
    requires var a1 := Paint(Paint(a, p, Black), g, Red);
             RotateLeftArena.requires(a1, g) && RotatedLeft(a1, a2, g)
    requires BHAt(a, s, p) && BHAt(a, s, n) && BHAt(a, s, g) && RedAt(a, p, n) && RedAt(a, n, n)
    requires a[p].left != Null ==> LocalOK(a, s, a[p].left)
    requires h in s.ix && LocalOK(a, s, h) && BHAt(a, s, h) && RedAt(a, h, n)
    requires h != p && h != g && h != a[p].left && h != a[g].parent
    ensures BHAt(a2, AddBh(AddBh(s, p, 1), g, -1), h) && RedAt(a2, h, Null)
  {
  }

  lemma OuterRightNodes(a: Arena, s: Shape, n: int, p: int, g: int, u: int)
    requires RedFamily(a, s, n, p, g, u) && !IsRed(a, u) && a[g].left != p && a[p].right == n
    requires var a1 := Paint(Paint(a, p, Black), g, Red);
             RotateLeftArena.requires(a1, g) && RotatedLeft(a1, RotateLeftArena(a1, g), g)
    ensures var a2 := RotateLeftArena(Paint(Paint(a, p, Black), g, Red), g);
            var s2 := AddBh(AddBh(s, p, 1), g, -1);
            && (forall h {:trigger BHAt(a2, s2, h)} :: h in s.ix ==> BHAt(a2, s2, h))
            && (forall h {:trigger RedAt(a2, h, Null)} :: h in s.ix ==> RedAt(a2, h, Null))
  {
    var a2 := RotateLeftArena(Paint(Paint(a, p, Black), g, Red), g);
    assert BHAt(a, s, p) && BHAt(a, s, n) && BHAt(a, s, g) && RedAt(a, p, n) && RedAt(a, n, n);
    if a[p].left != Null {
      assert LocalOK(a, s, a[p].left);
    }
    forall h | h in s.ix
      ensures BHAt(a2, AddBh(AddBh(s, p, 1), g, -1), h) && RedAt(a2, h, Null)
    {
      assert LocalOK(a, s, h) && BHAt(a, s, h) && RedAt(a, h, n);
      OuterRightAt(a, s, a2, n, p, g, u, h);
    }
  }

  /** RR, the mirror image of `OuterLeftOK`: repaint, then `rotate_left(g)`. */
  lemma OuterRightOK(a: Arena, s: Shape, n: int, p: int, g: int, u: int)
    requires RedFamily(a, s, n, p, g, u) && !IsRed(a, u) && a[g].left != p && a[p].right == n
    ensures var a1 := Paint(Paint(a, p, Black), g, Red);
            var s1 := AddBh(AddBh(s, p, 1), g, -1);
            && WF(a1, s1) && g in s1.ix && LocalOK(a1, s1, g) && a1[g].right != Null
            && var a2 := RotateLeftArena(a1, g); var s2 := RotateLeftShape(a1, s1, g);
            && WF(a2, s2) && RB(a2, s2) && Keys(a2, s2) == Keys(a, s) && s2.order == s.order
            && s2.ix == s.ix && a2.Keys == a.Keys
  {
    var a1 := Paint(Paint(a, p, Black), g, Red);
    var s1 := AddBh(AddBh(s, p, 1), g, -1);
    RepaintWF(a, s, p, Black, 1, g, Red, -1);
    assert LocalOK(a1, s1, g);
    RotateLeftOK(a1, s1, g);
    OuterRightNodes(a, s, n, p, g, u);
    OuterRightRB(a1, s1, RotateLeftArena(a1, g), g);
    OuterRightRoot(a, s, n, p, g, u);
  }

  /** The rotation keeps the black heights, so the per-node facts carry over to its shape. */
  lemma OuterRightRB(a1: Arena, s1: Shape, a2: Arena, g: int)
    requires g in a1 && Tracked(s1, g) && Tracked(s1, a1[g].right)
    requires forall h {:trigger BHAt(a2, s1, h)} :: h in s1.ix ==> BHAt(a2, s1, h)
    requires forall h {:trigger RedAt(a2, h, Null)} :: h in s1.ix ==> RedAt(a2, h, Null)
    ensures BHAll(a2, RotateLeftShape(a1, s1, g)) && RedAll(a2, RotateLeftShape(a1, s1, g), Null)
  {
    var s2 := RotateLeftShape(a1, s1, g);
    forall h | h in s2.ix
      ensures BHAt(a2, s2, h)
    {
      assert BHAt(a2, s1, h);
    }
  }

  lemma OuterRightRoot(a: Arena, s: Shape, n: int, p: int, g: int, u: int)
    requires RedFamily(a, s, n, p, g, u) && a[g].left != p && a[p].right == n
    requires var a1 := Paint(Paint(a, p, Black), g, Red);
             RotateLeftArena.requires(a1, g) && RotatedLeft(a1, RotateLeftArena(a1, g), g)
    ensures RootBlack(RotateLeftArena(Paint(Paint(a, p, Black), g, Red), g))
  {
    if Root(a) != Null {
      assert LocalOK(a, s, Root(a));
    }
  }

  // ---------------------------------------------------------------------------
  // After the loop
  // ---------------------------------------------------------------------------

  /**
   * When the loop stops because n is the root or n's parent is black, the only
   * possible red edge is gone or sits at the root; `root()->_set_black()` removes it
   * (the root's black height grows by one if it was red).
   */
  lemma PaintRootOK(a: Arena, s: Shape, n: int)
    requires FixUpInsert(a, s, n)
    requires Root(a) == n || !IsRed(a, a[n].parent)
    ensures Root(a) in s.ix && Root(a) in a && Root(a) in s.bh
    ensures var r := Root(a);
            var s' := if a[r].color == Red then AddBh(s, r, 1) else s;
            && WF(Paint(a, r, Black), s') && RB(Paint(a, r, Black), s')
            && Keys(Paint(a, r, Black), s') == Keys(a, s) && s'.order == s.order
  {
    assert LocalOK(a, s, n);
    var r := Root(a);
    assert LocalOK(a, s, r) && BHAt(a, s, r);
    var a' := Paint(a, r, Black);
    var s' := if a[r].color == Red then AddBh(s, r, 1) else s;
    PaintWF(a, s, r, Black);
    AddBhWF(a', s, r, 1);
    var q := a[n].parent;
    forall h | h in s.ix
      ensures BHAt(a', s', h) && RedAt(a', h, Null)
    {
      assert LocalOK(a, s, h) && BHAt(a, s, h) && RedAt(a, h, n);
    }
  }

  /**
   * The last statement of `insert_fix`, `root()->_set_black()`: after a rotation case
   * the root is already black and nothing changes; after the loop ends normally a
   * red root turns black and every black height grows by one.
   */
  lemma PaintRootEither(a: Arena, s: Shape, n: int, rotated: bool)
    requires rotated ==> WF(a, s) && RB(a, s) && n in s.ix
    requires !rotated ==> FixUpInsert(a, s, n) && (Root(a) == n || !IsRed(a, a[n].parent))
    ensures Root(a) in s.ix && Root(a) in a && Root(a) in s.bh
    ensures var r := Root(a);
            var s' := if a[r].color == Red then AddBh(s, r, 1) else s;
            && WF(Paint(a, r, Black), s') && RB(Paint(a, r, Black), s')
            && Keys(Paint(a, r, Black), s') == Keys(a, s) && s'.order == s.order && s'.ix == s.ix
            && Paint(a, r, Black).Keys == a.Keys
  {
    if rotated {
      assert LocalOK(a, s, n);
      var r := Root(a);
      assert r in a && a[r].color == Black && BHAt(a, s, r);
      assert a[r].(color := Black) == a[r];
      assert Paint(a, r, Black) == a;
    } else {
      PaintRootOK(a, s, n);
    }
  }
}
