/**
 * `set<Key, Compare>`: a thin facade over `_RB_tree` whose key and value are the
 * same (`std::_Identity` as the key extractor). Only the constructors are part of
 * the class; each builds the owned tree, by `insert_unique` calls or by copying
 * or moving another set's tree.
 */
module OrderedSet {
  import opened KeySeqs
  import opened TreeLayout
  import opened RBTrees

  /** Under `std::less<int>` two keys are equivalent only when they are equal. */
  lemma EquivalentUnderLess(ks: seq<int>, x: int)
    requires HasEquivalent(Less, ks, x)
    ensures x in ks
  {
    var i :| 0 <= i < |ks| && Less(ks[i]) == Less(x);
    assert ks[i] == x;
  }

  /**
   * Inserting the keys of a range one by one into an empty tree under `std::less`
   * gives the range's distinct keys, strictly ascending.
   */
  lemma DistinctKeysOf(keys: seq<int>)
    ensures Increasing(Less, InsertAll(Less, [], keys))
    ensures forall x :: x in InsertAll(Less, [], keys) <==> x in keys
  {
    var r := InsertAll(Less, [], keys);
    InsertAllOK(Less, [], keys);
    forall x | x in keys
      ensures x in r
    {
      EquivalentUnderLess(r, x);
    }
  }

  class Set {
    var tree: RBTree

    /** The owned tree is a valid red-black tree. */
    ghost predicate Valid()
      reads this, tree
    {
      tree.Valid()
    }

    /** The set's keys in iteration order. */
    ghost function Contents(): seq<int>
      reads this, tree
    {
      tree.Contents()
    }

    /** `set() = default`: an empty tree under `std::less`, whose `begin()` is its `end()`. */
    constructor ()
      ensures Valid() && fresh(tree) && Contents() == [] && tree.size == 0
      ensures tree.rank == Less
      ensures tree.Begin() == tree.End()
    {
      tree := new RBTree();
    }

    /** `explicit set(const Compare& comp)`: an empty tree ordered by comp. */
    constructor WithCompare(comp: int -> int)
      ensures Valid() && fresh(tree) && Contents() == [] && tree.size == 0 && tree.rank == comp
    {
      tree := new RBTree.WithCompare(comp);
    }

    /**
     * `set(first, last)`: a default tree filled by `insert_unique(first, last)`; it
     * holds each distinct key of the range once, in ascending order.
     */
    constructor FromRange(keys: seq<int>)
      ensures Valid() && fresh(tree) && tree.rank == Less
      ensures Contents() == InsertAll(Less, [], keys)
      ensures Increasing(Less, Contents()) && forall x :: x in Contents() <==> x in keys
      ensures tree.size == |Contents()|
    {
      var t := new RBTree();
      t.InsertRange(keys);
      DistinctKeysOf(keys);
      tree := t;
    }

    /** `set(const set& other)`: the tree is a copy of other's, in a tree of its own. */
    constructor Copy(other: Set)
      requires other.Valid()
      ensures Valid() && fresh(tree)
      ensures Contents() == other.Contents() && tree.size == other.tree.size && tree.rank == other.tree.rank
    {
      tree := new RBTree.Copy(other.tree);
    }

    /** `set(set&& other)`: the tree takes over other's nodes; other is left empty. */
    constructor Move(other: Set)
      requires other.Valid()
      modifies other.tree
      ensures Valid() && fresh(tree)
      ensures Contents() == old(other.Contents()) && tree.size == old(other.tree.size) && tree.rank == old(other.tree.rank)
      ensures other.Valid() && other.Contents() == [] && other.tree.size == 0
    {
      tree := new RBTree.Move(other.tree);
    }

    /**
     * `set(ilist, comp)`: a default tree, its comparator replaced by comp, then filled
     * by `insert_unique` over the list. Order and duplicates are both decided by comp:
     * the keys ascend under comp, none is equivalent to another, each comes from the
     * list, and every listed key has an equivalent in the set.
     */
    constructor FromList(ilist: seq<int>, comp: int -> int)
      ensures Valid() && fresh(tree) && tree.rank == comp
      ensures Contents() == InsertAll(comp, [], ilist)
      ensures Increasing(comp, Contents())
      ensures forall x :: x in Contents() ==> x in ilist
      ensures forall x :: x in ilist ==> HasEquivalent(comp, Contents(), x)
      ensures tree.size == |Contents()|
    {
      var t := new RBTree();
      t.rank := comp;
      t.InsertRange(ilist);
      InsertAllOK(comp, [], ilist);
      tree := t;
    }
  }
}
