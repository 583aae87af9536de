/**
 * `copy_from` and `copy_tree`: a deep copy of a tree into fresh nodes of another
 * arena. A copy is described by a map f from original handles to their copies
 * (with its inverse g); the copy's shape is the original's, renamed through f.
 */
module TreeCopy {
  import opened TreeLayout
  import opened TreeSubtrees

  /** Where f sends a link: a copied node to its copy, `nullptr` and the header to themselves. */
  ghost function Img(f: map<int, int>, c: int): int
  {
    if c in f then f[c] else c
  }

  /** g undoes f and f undoes g, so f is one-to-one. */
  ghost predicate Inverse(f: map<int, int>, g: map<int, int>)
  {
    && (forall x :: x in f ==> f[x] in g && g[f[x]] == x)
    && (forall y :: y in g ==> g[y] in f && f[g[y]] == y)
  }

  /** The node `cp` copies the node `nd`: same colour and key, children renamed through f. */
  ghost predicate CopyOf(nd: Node, f: map<int, int>, cp: Node)
  {
    cp.left == Img(f, nd.left) && cp.right == Img(f, nd.right) && cp.color == nd.color && cp.key == nd.key
  }

  /**
   * In arena A, f maps the subtree of h in (S, s) onto copies: every copy is a real
   * node of A copying its original, the subtree holds its nodes' children, the copies
   * of a node's children point back at the node's copy, and the copy of h hangs under p.
   */
  ghost predicate Copied(S: Arena, s: Shape, A: Arena, f: map<int, int>, g: map<int, int>, h: int, p: int)
    requires h in s.lo && h in s.hi
  {
    && f.Keys == Subtree(s, h) && Inverse(f, g) && h in f
    && (forall x :: x in f ==> x in S && f[x] in A && f[x] != Null && f[x] != Header && CopyOf(S[x], f, A[f[x]]))
    && (forall x :: x in f ==> (S[x].left == Null || S[x].left in f) && (S[x].right == Null || S[x].right in f))
    && (forall x, c {:trigger f[x], f[c]} :: x in f && c in f && (S[x].left == c || S[x].right == c) ==> A[f[c]].parent == f[x])
    && A[f[h]].parent == p
  }

  /** A copy stays a copy while its nodes are left alone. */
  lemma CopiedFrame(S: Arena, s: Shape, A: Arena, A': Arena, f: map<int, int>, g: map<int, int>, h: int, p: int)
    requires h in s.lo && h in s.hi && Copied(S, s, A, f, g, h, p)
    requires forall y :: y in g ==> y in A && y in A' && A'[y] == A[y]
    ensures Copied(S, s, A', f, g, h, p)
  {
    forall x | x in f
      ensures f[x] in A' && A'[f[x]] == A[f[x]]
    {
      assert f[x] in g;
    }
  }

  /** The copy maps of a node and its two subtrees, put together. */
  lemma JoinInverse(h: int, root: int, fl: map<int, int>, gl: map<int, int>, fr: map<int, int>, gr: map<int, int>)
    requires Inverse(fl, gl) && Inverse(fr, gr) && fl.Keys !! fr.Keys && h !in fl && h !in fr
    requires root !in gl && root !in gr && gl.Keys !! gr.Keys
    ensures Inverse(map[h := root] + fl + fr, map[root := h] + gl + gr)
  {
    var f, g := map[h := root] + fl + fr, map[root := h] + gl + gr;
    forall x | x in f
      ensures f[x] in g && g[f[x]] == x
    {
      if x in fr {
        assert fr[x] in gr;
      } else if x in fl {
        assert fl[x] in gl;
      }
    }
    forall y | y in g
      ensures g[y] in f && f[g[y]] == y
    {
      if y in gr {
        assert gr[y] in fr;
      } else if y in gl {
        assert gl[y] in fl;
      }
    }
  }

  /** The facts `copy_from` has at h once both of h's subtrees are copied. */
  ghost predicate JoinSite(S: Arena, s: Shape, A: Arena, h: int, root: int, p: int,
                           fl: map<int, int>, gl: map<int, int>, fr: map<int, int>, gr: map<int, int>)
  {
    && h in S && Null !in S && h != Null && h in s.lo && h in s.hi
    && Subtree(s, h) == fl.Keys + {h} + fr.Keys && h !in fl && h !in fr && fl.Keys !! fr.Keys
    && root in A && root != Null && root != Header && A[root].parent == p
    && A[root].left == Img(fl, S[h].left) && A[root].right == Img(fr, S[h].right)
    && A[root].color == S[h].color && A[root].key == S[h].key
    && (S[h].left == Null ==> fl == map[] && gl == map[])
    && (S[h].left != Null ==> S[h].left in s.lo && S[h].left in s.hi && Copied(S, s, A, fl, gl, S[h].left, root))
    && (S[h].right == Null ==> fr == map[] && gr == map[])
    && (S[h].right != Null ==> S[h].right in s.lo && S[h].right in s.hi && Copied(S, s, A, fr, gr, S[h].right, root))
    && root !in gl && root !in gr && gl.Keys !! gr.Keys
  }

  /** Each node of the joined subtree is copied, and its children are in the subtree. */
  lemma JoinNode(S: Arena, s: Shape, A: Arena, h: int, root: int, p: int,
                 fl: map<int, int>, gl: map<int, int>, fr: map<int, int>, gr: map<int, int>, x: int)
    requires JoinSite(S, s, A, h, root, p, fl, gl, fr, gr)
    requires x in Subtree(s, h)
    ensures var f := map[h := root] + fl + fr;
            && x in f && x in S && f[x] in A && f[x] != Null && f[x] != Header && CopyOf(S[x], f, A[f[x]])
            && (S[x].left == Null || S[x].left in f) && (S[x].right == Null || S[x].right in f)
  {
  }

  /** Each child's copy in the joined subtree points back at its parent's copy. */
  lemma JoinLink(S: Arena, s: Shape, A: Arena, h: int, root: int, p: int,
                 fl: map<int, int>, gl: map<int, int>, fr: map<int, int>, gr: map<int, int>, x: int, c: int)
    requires JoinSite(S, s, A, h, root, p, fl, gl, fr, gr)
    requires var f := map[h := root] + fl + fr;
             x in f && c in f && x in S && (S[x].left == c || S[x].right == c)
    ensures var f := map[h := root] + fl + fr;
            f[c] in A && A[f[c]].parent == f[x]
  {
  }

  /**
   * `copy_from` at h: the copy `root` of h, with h's subtrees copied under it,
   * is a copy of h's whole subtree.
   */
  lemma CopyJoin(S: Arena, s: Shape, A: Arena, h: int, root: int, p: int,
                 fl: map<int, int>, gl: map<int, int>, fr: map<int, int>, gr: map<int, int>)
    requires JoinSite(S, s, A, h, root, p, fl, gl, fr, gr)
    ensures Copied(S, s, A, map[h := root] + fl + fr, map[root := h] + gl + gr, h, p)
  {
    var f, g := map[h := root] + fl + fr, map[root := h] + gl + gr;
    JoinInverse(h, root, fl, gl, fr, gr);
    forall x | x in f
      ensures x in S && f[x] in A && f[x] != Null && f[x] != Header && CopyOf(S[x], f, A[f[x]])
      ensures (S[x].left == Null || S[x].left in f) && (S[x].right == Null || S[x].right in f)
    {
      JoinNode(S, s, A, h, root, p, fl, gl, fr, gr, x);
    }
    forall x, c | x in f && c in f && (S[x].left == c || S[x].right == c)
      ensures A[f[c]].parent == f[x]
    {
      JoinLink(S, s, A, h, root, p, fl, gl, fr, gr, x, c);
    }
  }

  // ---------------------------------------------------------------------------
  // The copied tree
  // ---------------------------------------------------------------------------

  /** The original's shape with every node renamed to its copy. */
  ghost function MapShape(s: Shape, f: map<int, int>, g: map<int, int>): Shape
  {
    Shape(seq(|s.order|, i requires 0 <= i < |s.order| => Img(f, s.order[i])),
          map y | y in g && g[y] in s.ix :: s.ix[g[y]],
          map y | y in g && g[y] in s.lo :: s.lo[g[y]],
          map y | y in g && g[y] in s.hi :: s.hi[g[y]],
          map y | y in g && g[y] in s.bh :: s.bh[g[y]])
  }

  /** The facts `copy_tree` has once the root's copy hangs under the header. */
  ghost predicate CopySite(S: Arena, s: Shape, A: Arena, f: map<int, int>, g: map<int, int>)
  {
    && WF(S, s) && RB(S, s) && |s.order| > 0 && Copied(S, s, A, f, g, Root(S), Header)
    && Header in A && Null !in A && A[Header].parent == f[Root(S)] && A[Header].color == Red
  }

  /** Node c is copied by f into A, and g maps the copy back. */
  ghost predicate CopiedAt(S: Arena, A: Arena, f: map<int, int>, g: map<int, int>, c: int)
  {
    && c in S && c in f && f[c] in g && g[f[c]] == c && f[c] in A && f[c] != Null && f[c] != Header
    && CopyOf(S[c], f, A[f[c]])
  }

  /** x, its children and its parent are copied, with the copies linked as the originals are. */
  ghost predicate CopiedAround(S: Arena, A: Arena, f: map<int, int>, g: map<int, int>, x: int)
  {
    && Null !in f && CopiedAt(S, A, f, g, x) && Header in A
    && (S[x].left != Null ==> CopiedAt(S, A, f, g, S[x].left) && A[f[S[x].left]].parent == f[x])
    && (S[x].right != Null ==> CopiedAt(S, A, f, g, S[x].right) && A[f[S[x].right]].parent == f[x])
    && (S[x].parent != Header ==> CopiedAt(S, A, f, g, S[x].parent) && A[f[x]].parent == f[S[x].parent])
    && (S[x].parent == Header ==> A[f[x]].parent == Header && A[Header].parent == f[x])
  }

  /** The local conditions carry over to a node's copy. */
  lemma CopyLocal(S: Arena, s: Shape, A: Arena, f: map<int, int>, g: map<int, int>, x: int)
    requires LocalOK(S, s, x) && CopiedAround(S, A, f, g, x)
    ensures LocalOK(A, MapShape(s, f, g), f[x])
  {
    var l, r, q := S[x].left, S[x].right, S[x].parent;
    if q != Header {
      assert S[q].left == x || S[q].right == x;
    }
  }

  /** The black heights carry over to a node's copy. */
  lemma CopyBlackHeight(S: Arena, s: Shape, A: Arena, f: map<int, int>, g: map<int, int>, x: int)
    requires BHAt(S, s, x) && CopiedAround(S, A, f, g, x)
    ensures BHAt(A, MapShape(s, f, g), f[x])
  {
  }

  /** The red rule carries over to a node's copy. */
  lemma CopyRed(S: Arena, A: Arena, f: map<int, int>, g: map<int, int>, x: int)
    requires RedAt(S, x, Null) && CopiedAround(S, A, f, g, x)
    ensures RedAt(A, f[x], Null)
  {
  }

  /** The copy of node x keeps the local conditions and the red-black rules. */
  lemma CopyNodeOK(S: Arena, s: Shape, A: Arena, f: map<int, int>, g: map<int, int>, x: int)
    requires CopySite(S, s, A, f, g) && x in s.ix
    ensures x in f && LocalOK(A, MapShape(s, f, g), f[x])
    ensures BHAt(A, MapShape(s, f, g), f[x]) && RedAt(A, f[x], Null)
  {
    SubtreeAll(S, s);
    assert LocalOK(S, s, x) && BHAt(S, s, x) && RedAt(S, x, Null);
    CopiedAroundOf(S, s, A, f, g, x);
    CopyLocal(S, s, A, f, g, x);
    CopyBlackHeight(S, s, A, f, g, x);
    CopyRed(S, A, f, g, x);
  }

  /** In a whole-tree copy every node's neighbourhood is copied. */
  lemma CopiedAroundOf(S: Arena, s: Shape, A: Arena, f: map<int, int>, g: map<int, int>, x: int)
    requires CopySite(S, s, A, f, g) && x in s.ix && f.Keys == s.ix.Keys && LocalOK(S, s, x)
    ensures CopiedAround(S, A, f, g, x)
  {
    assert Null !in f;
    var l, r, q := S[x].left, S[x].right, S[x].parent;
    assert f[x] in g;
    if l != Null {
      assert f[l] in g;
    }
    if r != Null {
      assert f[r] in g;
    }
    if q != Header {
      assert f[q] in g;
      assert A[f[x]].parent == f[q];
    } else {
      assert x == Root(S);
    }
  }

  /** Every node of the copy keeps the local conditions and the red-black rules. */
  lemma CopyNodes(S: Arena, s: Shape, A: Arena, f: map<int, int>, g: map<int, int>)
    requires CopySite(S, s, A, f, g)
    ensures var s' := MapShape(s, f, g);
            && (forall y {:trigger LocalOK(A, s', y)} :: y in s'.ix ==> LocalOK(A, s', y))
            && BHAll(A, s') && RedAll(A, s', Null)
  {
    var s' := MapShape(s, f, g);
    forall y | y in s'.ix
      ensures LocalOK(A, s', y) && BHAt(A, s', y) && RedAt(A, y, Null)
    {
      CopyNodeOK(S, s, A, f, g, g[y]);
    }
  }

  /** The copy's in-order sequence is the original's renamed, holding the same keys. */
  lemma CopyOrder(S: Arena, s: Shape, A: Arena, f: map<int, int>, g: map<int, int>)
    requires CopySite(S, s, A, f, g)
    ensures var s' := MapShape(s, f, g);
            && |s'.order| == |s.order| && Header !in s'.ix && Null !in s'.ix
            && (forall i {:trigger s'.order[i]} :: 0 <= i < |s'.order| ==> s'.order[i] in s'.ix && s'.ix[s'.order[i]] == i)
            && Keys(A, s') == Keys(S, s)
  {
    var s' := MapShape(s, f, g);
    SubtreeAll(S, s);
    forall i | 0 <= i < |s'.order|
      ensures s'.order[i] in s'.ix && s'.ix[s'.order[i]] == i && Keys(A, s')[i] == Keys(S, s)[i]
    {
      assert s.order[i] in f && f[s.order[i]] in g;
    }
    assert Header !in s'.ix by {
      if Header in g {
        assert g[Header] in f;
      }
    }
  }

  /** The copy of the root covers the whole copy and is black. */
  lemma CopyRoot(S: Arena, s: Shape, A: Arena, f: map<int, int>, g: map<int, int>)
    requires CopySite(S, s, A, f, g)
    ensures var s' := MapShape(s, f, g);
            && f[Root(S)] in s'.ix && LocalOK(A, s', f[Root(S)]) && s'.lo[f[Root(S)]] == 0 && s'.hi[f[Root(S)]] == |s.order|
            && !IsRed(A, f[Root(S)])
  {
    CopyNodeOK(S, s, A, f, g, Root(S));
    assert LocalOK(S, s, Root(S));
  }

  /** The copy's nodes are exactly the copies g maps back. */
  lemma CopyHandles(S: Arena, s: Shape, A: Arena, f: map<int, int>, g: map<int, int>)
    requires CopySite(S, s, A, f, g)
    ensures MapShape(s, f, g).ix.Keys == g.Keys
  {
    SubtreeAll(S, s);
    forall y | y in g
      ensures g[y] in s.ix
    {
      assert g[y] in f;
    }
  }

  /** The first and last nodes of a subtree covering the whole sequence are its ends. */
  lemma WholeEnds(a: Arena, s: Shape, r: int, mn: int, mx: int)
    requires Linked(a, s) && r in s.ix && r in s.lo && r in s.hi && s.lo[r] == 0 && s.hi[r] == |s.order|
    requires mn in s.ix && s.ix[mn] == s.lo[r] && mx in s.ix && s.ix[mx] == s.hi[r] - 1
    ensures |s.order| > 0 && mn == s.order[0] && mx == s.order[|s.order| - 1]
  {
    assert LocalOK(a, s, r) && LocalOK(a, s, mn) && LocalOK(a, s, mx);
  }

  /** Setting the header's minimum and maximum disturbs no node's local conditions. */
  lemma HeaderEndsFrame(a: Arena, s: Shape, mn: int, mx: int)
    requires Linked(a, s) && Header in a && Header !in s.ix
    ensures Linked(a[Header := a[Header].(left := mn, right := mx)], s)
  {
    var a' := a[Header := a[Header].(left := mn, right := mx)];
    forall h | h in s.ix
      ensures LocalOK(a', s, h)
    {
      assert LocalOK(a, s, h);
    }
  }

  /**
   * A tree that is complete but for the header's minimum and maximum: every node is
   * in place and balanced, the root r covers every position and hangs under the header.
   */
  ghost predicate Unended(a: Arena, s: Shape, r: int)
  {
    && Linked(a, s) && BHAll(a, s) && RedAll(a, s, Null)
    && Header in a && Null !in a && Header !in s.ix && Null !in s.ix && a[Header].color == Red
    && (forall i {:trigger s.order[i]} :: 0 <= i < |s.order| ==> s.order[i] in s.ix && s.ix[s.order[i]] == i)
    && |s.order| > 0 && r in s.ix && LocalOK(a, s, r) && s.lo[r] == 0 && s.hi[r] == |s.order|
    && a[Header].parent == r && a[r].parent == Header && !IsRed(a, r)
  }

  /** Such a tree becomes well formed once the header's ends are its first and last nodes. */
  lemma HeaderEndsOK(a: Arena, s: Shape, r: int, mn: int, mx: int)
    requires Unended(a, s, r)
    requires mn == s.order[0] && mx == s.order[|s.order| - 1]
    ensures var a' := a[Header := a[Header].(left := mn, right := mx)];
            WF(a', s) && RB(a', s) && Keys(a', s) == Keys(a, s)
  {
    var a' := a[Header := a[Header].(left := mn, right := mx)];
    HeaderEndsFrame(a, s, mn, mx);
    forall y | y in s.ix
      ensures BHAt(a', s, y) && RedAt(a', y, Null)
    {
      assert BHAt(a, s, y) && RedAt(a, y, Null);
    }
    forall i | 0 <= i < |s.order|
      ensures Keys(a', s)[i] == Keys(a, s)[i]
    {
      assert s.order[i] in s.ix;
    }
  }

  /**
   * `copy_tree`'s copy under the header: renamed by f, the original's shape is the
   * copy's, complete but for the header's ends, holding the original's keys in order.
   */
  lemma CopyTreeOK(S: Arena, s: Shape, A: Arena, f: map<int, int>, g: map<int, int>)
    requires CopySite(S, s, A, f, g)
    ensures Unended(A, MapShape(s, f, g), f[Root(S)]) && Keys(A, MapShape(s, f, g)) == Keys(S, s)
    ensures MapShape(s, f, g).ix.Keys == g.Keys
  {
    CopyNodes(S, s, A, f, g);
    CopyOrder(S, s, A, f, g);
    CopyRoot(S, s, A, f, g);
    CopyHandles(S, s, A, f, g);
  }

  /**
   * Going from arena A0 (handles below n0) to A (handles below n), exactly the
   * handles of g were allocated, all of them fresh, and no node other than `but`
   * was changed.
   */
  ghost predicate AllocatedBut(A0: Arena, A: Arena, n0: int, n: int, g: map<int, int>, but: int)
  {
    && n0 <= n && (forall y :: y in g ==> n0 <= y < n)
    && (forall y :: y in A0 && y != but ==> y in A && A[y] == A0[y])
    && A.Keys == A0.Keys + g.Keys && (forall y :: y in A ==> y < n)
  }

  /**
   * What `copy_tree` has once the root's copy hangs under the header of an arena A0
   * that held only the header: in A, with shape s', the copy of (S, s) rooted at r is
   * complete but for the header's ends, holds the same keys, and its nodes are
   * handles from [n0, n).
   */
  ghost predicate CopyMade(S: Arena, s: Shape, A: Arena, s': Shape, r: int, n0: int, n: int)
  {
    && Unended(A, s', r) && Keys(A, s') == Keys(S, s)
    && Header < n && (forall h :: h in A ==> h < n && (h == Header || h in s'.ix))
    && (forall h :: h in s'.ix ==> n0 <= h < n)
  }

  /** The copy made under an empty header is the original renamed. */
  lemma CopyMadeOK(S: Arena, s: Shape, A0: Arena, A: Arena, n0: int, n: int, f: map<int, int>, g: map<int, int>)
    requires CopySite(S, s, A, f, g) && AllocatedBut(A0, A, n0, n, g, Header) && A0.Keys == {Header} && Header < n0
    ensures CopyMade(S, s, A, MapShape(s, f, g), f[Root(S)], n0, n)
  {
    CopyTreeOK(S, s, A, f, g);
  }

  /**
   * The bookkeeping of `copy_from` at h: A0 is the arena on entry, with every handle
   * below n0; A1 adds the copy `root` = n0; A2 and A3 add the copies of the left and
   * the right subtree, from handles [n0 + 1, n1) and [n1, n2). The copies' handles
   * are all fresh and distinct, and nothing allocated before is touched.
   */
  lemma CopyFromFrame(A0: Arena, A1: Arena, A2: Arena, A3: Arena, root: int, n0: int, n1: int, n2: int,
                      h: int, gl: map<int, int>, gr: map<int, int>)
    requires forall y :: y in A0 ==> y < n0
    requires root == n0 && A1.Keys == A0.Keys + {root} && forall y :: y in A0 ==> A1[y] == A0[y]
    requires AllocatedBut(A1, A2, n0 + 1, n1, gl, root) && AllocatedBut(A2, A3, n1, n2, gr, root)
    ensures AllocatedBut(A0, A3, n0, n2, map[root := h] + gl + gr, Null) && n0 < n2
    ensures root !in gl && root !in gr && gl.Keys !! gr.Keys
    ensures forall y :: y in gl ==> y in A2 && y in A3 && A3[y] == A2[y]
  {
    assert forall y :: y in gl ==> y !in gr;
  }

  /** Node r with one child link, the left or the right one, set to x. */
  function SetChild(a: Arena, r: int, x: int, isLeft: bool): Arena
    requires r in a
  {
    if isLeft then a[r := a[r].(left := x)] else a[r := a[r].(right := x)]
  }

  /**
   * From A0 (handles below n0) to A (handles below n): the child c of root, when
   * there is one, was copied into the fresh handles of gc and the copy linked on the
   * given side of root; without a child, nothing changed.
   */
  ghost predicate ChildCopied(S: Arena, s: Shape, A0: Arena, A: Arena, n0: int, n: int,
                              fc: map<int, int>, gc: map<int, int>, c: int, root: int, isLeft: bool)
  {
    && (c == Null ==> fc == map[] && gc == map[])
    && (c != Null ==> c in s.lo && c in s.hi && Copied(S, s, A, fc, gc, c, root))
    && root in A0 && root in A
    && A[root] == (if isLeft then A0[root].(left := Img(fc, c)) else A0[root].(right := Img(fc, c)))
    && AllocatedBut(A0, A, n0, n, gc, root)
  }

  /** From A0 (handles below n0) to A (below n), the subtree of h was copied under p into fresh handles; root copies h. */
  ghost predicate SubtreeCopied(S: Arena, s: Shape, A0: Arena, A: Arena, n0: int, n: int,
                                f: map<int, int>, g: map<int, int>, h: int, p: int, root: int)
  {
    && h in s.lo && h in s.hi && Copied(S, s, A, f, g, h, p) && h in f && root == f[h]
    && AllocatedBut(A0, A, n0, n, g, Null) && n0 < n
  }

  /** Without a child there is nothing to copy. */
  lemma ChildNullOK(S: Arena, s: Shape, A: Arena, n: int, root: int, isLeft: bool)
    requires root in A && (if isLeft then A[root].left else A[root].right) == Null
    requires forall y :: y in A ==> y < n
    ensures ChildCopied(S, s, A, A, n, n, map[], map[], Null, root, isLeft)
  {
  }

  /** Linking the copy x of child c below root keeps the copy intact. */
  lemma ChildLinkOK(S: Arena, s: Shape, A0: Arena, A1: Arena, n0: int, n: int,
                    fc: map<int, int>, gc: map<int, int>, c: int, root: int, x: int, isLeft: bool)
    requires c != Null && SubtreeCopied(S, s, A0, A1, n0, n, fc, gc, c, root, x)
    requires root in A0 && root != Null && Null !in A0 && root < n0
    ensures ChildCopied(S, s, A0, SetChild(A1, root, x, isLeft), n0, n, fc, gc, c, root, isLeft)
  {
    assert root !in gc && A1[root] == A0[root] && Img(fc, c) == x;
    CopiedFrame(S, s, A1, SetChild(A1, root, x, isLeft), fc, gc, c, root);
  }

  /**
   * `copy_from` at h: A1 adds the copy root of h to A0, and the two children are
   * copied from there; the result is a copy of the subtree of h.
   */
  lemma CopyFromOK(S: Arena, s: Shape, A0: Arena, A1: Arena, A2: Arena, A3: Arena, n0: int, n1: int, n2: int,
                   h: int, p: int, root: int, fl: map<int, int>, gl: map<int, int>, fr: map<int, int>, gr: map<int, int>)
    requires WF(S, s) && h in s.ix && h in S
    requires (forall y :: y in A0 ==> y < n0) && Header < n0 && root == n0
    requires A1 == A0[root := Node(p, Null, Null, S[h].color, S[h].key)]
    requires ChildCopied(S, s, A1, A2, n0 + 1, n1, fl, gl, S[h].left, root, true)
    requires ChildCopied(S, s, A2, A3, n1, n2, fr, gr, S[h].right, root, false)
    ensures SubtreeCopied(S, s, A0, A3, n0, n2, map[h := root] + fl + fr, map[root := h] + gl + gr, h, p, root)
  {
    CopyFromSite(S, s, A0, A1, A2, A3, n0, n1, n2, h, p, root, fl, gl, fr, gr);
    CopyJoin(S, s, A3, h, root, p, fl, gl, fr, gr);
  }

  /** The pieces `copy_from` puts together at h fit: the copy of h links both copied subtrees. */
  lemma CopyFromSite(S: Arena, s: Shape, A0: Arena, A1: Arena, A2: Arena, A3: Arena, n0: int, n1: int, n2: int,
                     h: int, p: int, root: int, fl: map<int, int>, gl: map<int, int>, fr: map<int, int>, gr: map<int, int>)
    requires WF(S, s) && h in s.ix && h in S
    requires (forall y :: y in A0 ==> y < n0) && Header < n0 && root == n0
    requires A1 == A0[root := Node(p, Null, Null, S[h].color, S[h].key)]
    requires ChildCopied(S, s, A1, A2, n0 + 1, n1, fl, gl, S[h].left, root, true)
    requires ChildCopied(S, s, A2, A3, n1, n2, fr, gr, S[h].right, root, false)
    ensures JoinSite(S, s, A3, h, root, p, fl, gl, fr, gr)
    ensures AllocatedBut(A0, A3, n0, n2, map[root := h] + gl + gr, Null) && n0 < n2
  {
    SiteLinks(S, s, A0, A1, A2, A3, n0, n1, n2, h, p, root, fl, gl, fr, gr);
    SiteKeys(S, s, h, fl, fr);
  }

  /** The subtree of h is h and the subtrees the two copy maps cover. */
  lemma SiteKeys(S: Arena, s: Shape, h: int, fl: map<int, int>, fr: map<int, int>)
    requires WF(S, s) && h in s.ix && h in S
    requires S[h].left == Null ==> fl == map[]
    requires S[h].left != Null ==> S[h].left in s.lo && S[h].left in s.hi && fl.Keys == Subtree(s, S[h].left)
    requires S[h].right == Null ==> fr == map[]
    requires S[h].right != Null ==> S[h].right in s.lo && S[h].right in s.hi && fr.Keys == Subtree(s, S[h].right)
    ensures h in S && Null !in S && h != Null && h in s.lo && h in s.hi
    ensures Subtree(s, h) == fl.Keys + {h} + fr.Keys && h !in fl && h !in fr && fl.Keys !! fr.Keys
  {
    SubtreeSplit(S, s, h);
  }

  /** The copy of h and the links written to it; the copies of both subtrees survive. */
  lemma SiteLinks(S: Arena, s: Shape, A0: Arena, A1: Arena, A2: Arena, A3: Arena, n0: int, n1: int, n2: int,
                  h: int, p: int, root: int, fl: map<int, int>, gl: map<int, int>, fr: map<int, int>, gr: map<int, int>)
    requires h in S
    requires (forall y :: y in A0 ==> y < n0) && Header < n0 && root == n0
    requires A1 == A0[root := Node(p, Null, Null, S[h].color, S[h].key)]
    requires ChildCopied(S, s, A1, A2, n0 + 1, n1, fl, gl, S[h].left, root, true)
    requires ChildCopied(S, s, A2, A3, n1, n2, fr, gr, S[h].right, root, false)
    ensures root in A3 && root != Null && root != Header && A3[root].parent == p
    ensures A3[root].left == Img(fl, S[h].left) && A3[root].right == Img(fr, S[h].right)
    ensures A3[root].color == S[h].color && A3[root].key == S[h].key
    ensures S[h].left == Null ==> fl == map[] && gl == map[]
    ensures S[h].left != Null ==> S[h].left in s.lo && S[h].left in s.hi && Copied(S, s, A3, fl, gl, S[h].left, root)
    ensures S[h].right == Null ==> fr == map[] && gr == map[]
    ensures S[h].right != Null ==> S[h].right in s.lo && S[h].right in s.hi && Copied(S, s, A3, fr, gr, S[h].right, root)
    ensures root !in gl && root !in gr && gl.Keys !! gr.Keys
    ensures AllocatedBut(A0, A3, n0, n2, map[root := h] + gl + gr, Null) && n0 < n2
  {
    CopyFromFrame(A0, A1, A2, A3, root, n0, n1, n2, h, gl, gr);
    if S[h].left != Null {
      CopiedFrame(S, s, A2, A3, fl, gl, S[h].left, root);
    }
  }
}
