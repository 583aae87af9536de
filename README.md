# MyStl red-black tree, `set`, iterators, `Array` and algorithms in Dafny

This project models the core of MyStl, a small re-implementation of parts of the
C++ standard library, and proves properties of that model. The core is:

- `_RB_tree` (`Headers/tree.h`): a red-black tree with a header sentinel;
- the `set` adaptor over it (`Headers/set.h`);
- `Deque_Iterator` (`Headers/Deque.h`) and `Reverse_Iterator` (`Headers/Iterator.h`);
- the fixed-size `Array` (`Headers/Array.h`);
- the generic algorithms (`Headers/Algorithm.h`).

**The tree.** The tree is the class `RBTrees.RBTree`. Its nodes live in an *arena*,
a map from integer handles to `Node(parent, left, right, color, key)`. Handle `0` is
the header and `-1` is `nullptr`. An iterator is a handle, so relinking a node is a
map update, and node identity (iterator stability) stays observable. Allocating a
node takes the next unused handle (`next`).

A ghost `Shape` records the tree the links form:
- `order` is the in-order sequence of handles;
- for each node, `ix` is its position, `[lo, hi)` is the span of positions its
  subtree covers, and `bh` is its black height.

`TreeLayout.WF` says the links and the header's root/min/max cache agree with the
shape. `TreeLayout.RB` is the red-black invariant: equal black heights, no red node
with a red child, and a black root. `RBTree.Contents()` is the in-order key
sequence.

The comparator `Compare` is a *rank* function `int -> int`: `comp(x, y)` is
`rank(x) < rank(y)`. Two keys are equivalent when their ranks are equal. The default
`std::less<int>` is the identity rank `Less`.

The key sequence functions of `KeySeqs` (`SortedInsert`, `InsertAll`,
`RemoveEquivalent`, `LowerBoundIndex`, `UpperBoundIndex`) are the specification that
the tree's methods are proved against. The modules `TreeInsert`, `TreeErase`,
`TreeRebalance`, `TreeSubtrees` and `TreeCopy` hold the lemmas about each relinking
step.

**The other headers.**
- The reverse iterator is its base position into a sequence.
- The deque iterator is four fields, with addresses as integers and the block
  directory as an `array<int>`.
- `Array` and the algorithms work on Dafny arrays with integer positions as
  iterators.

**Where the source cannot compile or is wrong, the model follows the evident
intent:**
- `lower_bound`/`upper_bound` loop on `cur`, not on `lb`/`ub` (`tree.h:495`, `513`,
  `531`, `549`).
- `find` reads the found node's key (`tree.h:483`).
- `sibling->_is_red()` is called (`tree.h:803`).
- When `erase` unlinks a node that is the cached minimum or maximum, the cache moves
  to the replacement, or to the removed node's parent when there is no replacement
  (`tree.h:754-758`).
- In the two-child erase, the successor's place is its parent's *left* link
  (`tree.h:772` writes the right link, which detaches a subtree).
- `erase` decrements `_size` (`tree.h:419-429`; see Findings).
- `copy_from` copies the colour (`tree.h:927-947`).
- `decrement` handles the header (`tree.h:178-192`; see Findings).
- The header always exists (`tree.h:231`, `973`).
- `reset` and `copy_tree` skip the recursion when the root is null
  (`tree.h:957-958`, `964`).
- The move constructor leaves its source empty (`tree.h:249-252`). Move assignment
  does the same (`tree.h:263`): as written, `std::move(rhs._header)` copies the header
  pointer, so both trees would share the header and every node.
- `swap` compares `this` with `&other` (`tree.h:455` compares the pointer `this` with
  the reference `other`, which does not compile).
- The hint search compares with the neighbour's key and returns the pair
  `(hint, nullptr)` (`tree.h:660`, `671`).
- At `tree.h:582` the header's key is read when the parent is the header. In the
  model the header carries an unused key, and either side leaves the header's links
  on the new root.
- `set(comp)` constructs `_RB_tree` from a comparator, which `_RB_tree` has no
  constructor for (`set.h:41`); the model builds an empty tree ordered by `comp`.

## Model

| member | source | states |
|---|---|---|
| RBTrees.RBTree.constructor | Headers/tree.h:241 | `_RB_tree()`: a valid, empty tree of size 0 under `std::less`, whose header's left and right are itself, so `begin() == end()` |
| RBTrees.RBTree.WithCompare | Headers/set.h:41 | a valid, empty tree of size 0 ordered by the given comparator |
| RBTrees.RBTree.Size | Headers/tree.h:271-273 | `size()` is the number of keys in the in-order sequence |
| RBTrees.RBTree.Empty | Headers/tree.h:275-277 | `empty()` holds exactly when the key sequence is empty |
| RBTrees.RBTree.Begin | Headers/tree.h:284-286 | `begin()` (the cached minimum) is the node at position 0, and equals `end()` exactly when the tree is empty |
| RBTrees.RBTree.End | Headers/tree.h:292-294 | `end()` is the header, the position just past the last node |
| RBTrees.RBTree.Min | Headers/tree.h:25-29 | `_min(h)` is the node at the first position of h's subtree, and has no left child |
| RBTrees.RBTree.Max | Headers/tree.h:37-41 | `_max(h)` is the node at the last position of h's subtree, and has no right child |
| RBTrees.RBTree.Increment | Headers/tree.h:159-176 | `++it` yields the node at the next in-order position, or the header (`end()`) from the maximum; with a right child it is that subtree's leftmost node |
| RBTrees.RBTree.GetSuccessor | Headers/tree.h:49-57 | `_get_successor(x)` of a node that is not the last is the node at the next in-order position |
| RBTrees.RBTree.Decrement | Headers/tree.h:178-192 | `--it` yields the node at the previous position; `--end()` yields the last node; with a left child it is that subtree's rightmost node |
| RBTrees.RBTree.PredecessorAsWritten | Headers/tree.h:178-192 | `decrement` as written: correct on nodes, but on the header it yields the last node of the minimum's subtree |
| RBTrees.EndDecrementAsWrittenMisses | Headers/tree.h:178-192 | on a valid two-node red-black tree, the as-written `--end()` lands on the first node while the last node is the second |
| RBTrees.RBTree.LowerBound | Headers/tree.h:491-507 | `lower_bound(k)` is the node at the first position whose key does not compare less than k, or `end()` |
| RBTrees.RBTree.UpperBound | Headers/tree.h:527-543 | `upper_bound(k)` is the node at the first position whose key compares greater than k, or `end()` |
| RBTrees.RBTree.Find | Headers/tree.h:481-484 | `find(k)` is not `end()` exactly when some key is equivalent to k, and then it is that key's node, the lower bound |
| RBTrees.RBTree.CountUnique | Headers/tree.h:463-465 | `count_unique(k)` is 1 when some key is equivalent to k and 0 otherwise |
| RBTrees.RBTree.EqualRangeUnique | Headers/tree.h:467-472 | `equal_range_unique(k)` is `[lower_bound, upper_bound)` when an equivalent key exists, else `(end(), end())` |
| RBTrees.RBTree.RotateLeft | Headers/tree.h:861-881 | `rotate_left` writes exactly the links of the left rotation at the pivot; the shape becomes the rotated shape; nothing else changes |
| RBTrees.RBTree.RotateRight | Headers/tree.h:883-903 | `rotate_right` writes exactly the links of the right rotation at the pivot; the shape becomes the rotated shape; nothing else changes |
| TreeLayout.RotateLeftOK | Headers/tree.h:861-881 | a left rotation only relinks pivot, its right child and their parent/inner child, keeps a well-formed tree, and keeps the in-order key sequence |
| TreeLayout.RotateRightOK | Headers/tree.h:883-903 | a right rotation only relinks pivot, its left child and their parent/inner child, keeps a well-formed tree, and keeps the in-order key sequence |
| RBTrees.RBTree.InsertFixRecolor | Headers/tree.h:688-694 | red uncle: recolouring moves the possible red-red violation up to the grandparent, whose subtree is strictly larger, with keys unchanged |
| RBTrees.RBTree.InsertFixRotate | Headers/tree.h:695-722 | black uncle: the LR/LL or RL/RR rotations restore all red-black invariants, with keys, nodes and positions unchanged |
| RBTrees.RBTree.InsertFixLoop | Headers/tree.h:679-724 | the loop ends either after a rotation with the invariants restored, or at the root or under a black parent, with keys unchanged |
| RBTrees.RBTree.InsertFix | Headers/tree.h:676-727 | from a tree whose only violation is the new red node under a red parent, `insert_fix` restores the red-black invariants and keeps the in-order keys and positions |
| TreeInsert.RecolorOK | Headers/tree.h:688-694 | recolouring parent and uncle black and grandparent red keeps the keys, positions and black-height balance, and leaves at most the grandparent in red-red violation |
| TreeInsert.OuterLeftOK | Headers/tree.h:704-707 | the LL case (recolour, rotate right at the grandparent) yields a valid red-black tree with the same keys |
| TreeInsert.OuterRightOK | Headers/tree.h:715-718 | the RR case (recolour, rotate left at the grandparent) yields a valid red-black tree with the same keys |
| TreeInsert.PaintRootOK | Headers/tree.h:726 | painting the root black after the loop yields a valid red-black tree |
| TreeInsert.LinkNewOK | Headers/tree.h:573-592 | linking a red leaf into a free slot gives the shape with the key inserted at its position, well-formed, and violating at most the red rule at the new node |
| RBTrees.RBTree.ConstructNode | Headers/tree.h:905-917 | `construct_node` takes a fresh handle, not in the tree, holding a detached red node with the key; every node of the tree keeps its handle, key and position |
| RBTrees.RBTree.DeleteNode | Headers/tree.h:919-922 | `delete_node` removes exactly that handle from the arena |
| RBTrees.RBTree.InsertAtPos | Headers/tree.h:573-597 | `insert_at_pos` leaves a valid tree whose key sequence is the old one with the key at its sorted place (the lower-bound index), and returns the new node; the in-order node sequence is the old one with the new node spliced in at that index, so every existing iterator keeps its node, key and relative order through the rebalancing |
| TreeInsert.SpliceKeepsNodes | Headers/tree.h:573-597 | splicing one new node into the in-order sequence, with its key at the same place in the key sequence, keeps every old node in the tree with its key and its order relative to the other old nodes |
| TreeInsert.KeepsNodesTrans | Headers/tree.h:368-378 | keeping the nodes composes over successive insertions |
| RBTrees.RBTree.GetInsertUniquePos | Headers/tree.h:602-628 | returns a parent with a free slot exactly when no key is equivalent; otherwise returns the node of the equivalent key |
| RBTrees.RBTree.InsertUnique | Headers/tree.h:337-349 | `insert_unique(k)` inserts exactly when no key is equivalent, increasing the size by one; otherwise it leaves the tree unchanged; the result iterator holds an equivalent key and the sequence is `SortedInsert`; a new node is spliced into the node sequence at the key's lower-bound index, and every old node keeps its handle, key and relative order |
| RBTrees.RBTree.EmplaceUnique | Headers/tree.h:384-398 | as `insert_unique`, with the node constructed first and freed when an equivalent key exists (one handle is used either way); a new node is spliced in at the key's lower-bound index, and every old node keeps its handle, key and relative order |
| RBTrees.RBTree.LinkOrDrop | Headers/tree.h:392-397 | the end of `emplace_unique` (and of `emplace_hint`): with a free slot, the constructed node is linked at the key's lower-bound index and the old nodes are kept; otherwise the node is freed, the tree is unchanged and the equivalent node is returned |
| RBTrees.RBTree.InsertRange | Headers/tree.h:368-378 | `insert_unique(first, last)` leaves a valid tree whose keys are the old keys with each range key inserted in turn (`InsertAll`), and every node present before keeps its handle, key and relative order |
| RBTrees.RBTree.HintPosBefore | Headers/tree.h:640-654 | for a key below the hint, the position found is a free slot at the key's sorted place, or the equivalent node |
| RBTrees.RBTree.HintPosAfter | Headers/tree.h:655-668 | for a key above the hint, the position found is a free slot at the key's sorted place, or the equivalent node |
| RBTrees.RBTree.GetEmplaceHintUniquePos | Headers/tree.h:630-673 | for every hint, the result is a free slot at the key's sorted place when no key is equivalent, and the equivalent node otherwise |
| RBTrees.RBTree.EmplaceHint | Headers/tree.h:400-417 | `emplace_hint` inserts the key at its sorted place unless an equivalent key exists, and returns an iterator to an equivalent key; a new node is spliced in at the key's lower-bound index, and every old node keeps its handle, key and relative order |
| KeySeqs.SortedInsertPresent | Headers/tree.h:615-627 | inserting a key equivalent to a present one leaves an increasing sequence unchanged |
| KeySeqs.SortedInsertAbsent | Headers/tree.h:573-597 | inserting an absent key places it at its lower-bound index |
| KeySeqs.SortedInsertAt | Headers/tree.h:573-597 | sorted insertion keeps a sequence strictly increasing |
| KeySeqs.InsertAllOK | Headers/tree.h:368-378 | inserting a range keeps the sequence increasing, keeps the old keys, adds only range keys, and leaves every range key with an equivalent |
| KeySeqs.LowerBoundUnique | Headers/tree.h:491-507 | the lower-bound index is the only split point between keys below k and keys not below k |
| KeySeqs.UpperBoundUnique | Headers/tree.h:527-543 | the upper-bound index is the only split point between keys not above k and keys above k |
| RBTrees.RBTree.EraseUnlink | Headers/tree.h:738-759 | a node with at most one child is spliced out, with its child (or null) taking its place; red removal keeps the invariants, black removal leaves a single black deficit at its child |
| RBTrees.RBTree.EraseTransplant | Headers/tree.h:760-791 | a node with two children is replaced by its successor node, which takes its colour; the removed colour decides whether rebalancing is needed |
| TreeErase.UnlinkOK | Headers/tree.h:738-759 | unlinking a node with at most one child removes exactly its position from the in-order sequence and keeps the tree well-formed |
| TreeErase.TransplantOK | Headers/tree.h:760-791 | relinking the successor into a two-child node's place removes exactly that node's position and keeps every other node's handle |
| RBTrees.RBTree.DeleteFixRebalance | Headers/tree.h:795-858 | from a tree with one black deficit, the loop and the final recolouring restore the red-black invariants with keys and positions unchanged |
| RBTrees.RBTree.DeleteFixStep | Headers/tree.h:796-853 | one iteration either finishes with a valid red-black tree (after a rotation case) or moves the deficit up with a smaller measure |
| TreeRebalance.RedSiblingLeftOK | Headers/tree.h:803-814 | the red-sibling case keeps the keys and the deficit and gives a black sibling |
| TreeRebalance.BlackNephewsOK | Headers/tree.h:816-821 | painting the sibling red moves the deficit to the parent |
| TreeRebalance.InnerNephewLeftOK | Headers/tree.h:825-830 | the inner-red-nephew case turns into the outer-red-nephew case |
| TreeRebalance.OuterNephewLeftOK | Headers/tree.h:832-837 | the outer-red-nephew case restores all red-black invariants |
| TreeRebalance.PaintReplacementOK | Headers/tree.h:856-857 | painting a red replacement (or the root) black removes the deficit |
| RBTrees.RBTree.DeleteFix | Headers/tree.h:732-858 | `delete_fix(n)` removes exactly n's position from the in-order sequence and leaves a red-black tree in which every other node keeps its handle |
| RBTrees.RBTree.EraseAsWritten | Headers/tree.h:419-429 | `erase(pos)` as written: keys and handles are right and the successor is returned, but `_size` stays one above the node count |
| RBTrees.RBTree.Erase | Headers/tree.h:419-429 | `erase(pos)` removes exactly pos's key, keeps every other handle, returns the node that followed pos, and decreases the size by one |
| RBTrees.RBTree.EraseKey | Headers/tree.h:447-452 | `erase(k)` returns 1 and removes the equivalent key when there is one, and returns 0 leaving the keys unchanged otherwise |
| KeySeqs.RemoveEquivalentAt | Headers/tree.h:447-452 | removing the key equivalent to k from an increasing sequence deletes exactly the entry at its position |
| RBTrees.RBTree.EraseRange | Headers/tree.h:435-445 | `erase(first, last)` removes exactly the keys from first's position up to last's position, and returns last |
| RBTrees.RBTree.EraseFrom | Headers/tree.h:950-955 | `erase_from(n)` removes exactly the handles of n's subtree from the arena |
| RBTrees.RBTree.DefaultInit | Headers/tree.h:972-981 | `default_init` gives the header null root and self-links, red colour, and size 0 |
| RBTrees.RBTree.Reset | Headers/tree.h:957-961 | `reset` frees every node and leaves a valid empty tree holding only the header |
| RBTrees.RBTree.Clear | Headers/tree.h:333-335 | `clear` leaves a valid empty tree holding only the header |
| RBTrees.RBTree.CopyFrom | Headers/tree.h:927-947 | `copy_from(h, p)` allocates fresh nodes that copy h's subtree node by node (key, colour, links mapped), with the copy's root under p |
| RBTrees.RBTree.CopyChild | Headers/tree.h:933-939 | a null child copies to nothing; otherwise the child's subtree is copied and linked in as root's child on that side |
| TreeCopy.CopyJoin | Headers/tree.h:927-947 | the copies of the two child subtrees and the new root together are a copy of the whole subtree |
| TreeCopy.CopyTreeOK | Headers/tree.h:963-964 | a node-by-node copy of a valid red-black tree is a red-black tree with the same in-order keys |
| TreeCopy.HeaderEndsOK | Headers/tree.h:965-966 | pointing the header at the copy's first and last nodes completes a well-formed tree |
| RBTrees.RBTree.CopyTree | Headers/tree.h:963-970 | `copy_tree(rhs)` into an empty tree gives rhs's keys, size and comparator, in handles allocated by this copy |
| RBTrees.RBTree.Copy | Headers/tree.h:243-247 | the copy constructor gives a valid tree with the source's keys, size and comparator, in its own fresh handles |
| RBTrees.RBTree.CopyAssign | Headers/tree.h:254-258 | copy assignment from another tree gives its keys and comparator; self-assignment empties the tree |
| RBTrees.RBTree.Move | Headers/tree.h:249-252 | the move constructor takes over the source's keys, size and comparator and leaves the source valid and empty |
| RBTrees.RBTree.MoveAssign | Headers/tree.h:260-268 | move assignment from another tree takes over its keys and comparator and leaves it empty; self-assignment empties the tree |
| RBTrees.RBTree.Swap | Headers/tree.h:454-460 | `swap` exchanges keys, sizes and comparators of two trees; swapping with itself changes nothing |
| OrderedSet.DistinctKeysOf | Headers/set.h:43-46 | inserting a range one key at a time under `std::less` gives exactly the range's distinct keys, strictly ascending |
| OrderedSet.Set.constructor | Headers/set.h:39 | `set()` is empty, of size 0, under `std::less`, with `begin() == end()` |
| OrderedSet.Set.WithCompare | Headers/set.h:41 | `set(comp)` is empty and ordered by comp |
| OrderedSet.Set.FromRange | Headers/set.h:43-46 | `set(first, last)` holds each distinct key of the range once, strictly ascending, and its size is their number |
| OrderedSet.Set.Copy | Headers/set.h:48 | the copy holds the same keys with the same size and comparator, in a tree of its own |
| OrderedSet.Set.Move | Headers/set.h:50 | the new set takes over the keys; the source is left valid and empty |
| OrderedSet.Set.FromList | Headers/set.h:52-56 | `set(ilist, comp)` orders by comp and drops comp-duplicates: keys strictly ascending under comp, all from the list, every listed key has an equivalent |
| DequeIterators.BlockSize | Headers/Deque.h:16 | `block_size` is the number of elements that fit in 512 bytes when an element is smaller, else 1; it is at least 1 |
| DequeIterators.DequeIterator.CurIsAddressOfPosition | Headers/Deque.h:19-22 | in a valid iterator, `cur` is the address of the element at its logical position |
| DequeIterators.DequeIterator.Default | Headers/Deque.h:26 | the default iterator has all four fields null (one choice of the indeterminate values) |
| DequeIterators.DequeIterator.Copy | Headers/Deque.h:28-29 | the copy constructor copies all four fields |
| DequeIterators.DequeIterator.Move | Headers/Deque.h:31-35 | the move constructor takes all four fields and nulls the source's |
| DequeIterators.DequeIterator.FromMap | Headers/Deque.h:37-38 | from `(map, p)`: `first = *map`, `last = *map + block_size`, `cur = p` |
| DequeIterators.DequeIterator.Assign | Headers/Deque.h:44-53 | copy assignment copies all four fields; self-assignment changes nothing |
| DequeIterators.DequeIterator.Arrow | Headers/Deque.h:59-61 | `operator->` is `cur` |
| DequeIterators.DequeIterator.ChangeNodeBy | Headers/Deque.h:77-81 | `change_node_by(n)` moves `map_node` by n slots and points `first`, `cur` and `last` at that slot's block |
| DequeIterators.DequeIterator.Increment | Headers/Deque.h:63-69 | `++it` advances the logical position by exactly one, stays in the block or moves to the next slot, and keeps `first <= cur < last` |
| ReverseIterators.RevIter.Arrow | Headers/Iterator.h:129-132 | `r->` designates position `base() - 1` |
| ReverseIterators.RevIter.Plus | Headers/Iterator.h:138-140 | `r + n` designates the position n before r's |
| ReverseIterators.RevIter.Minus | Headers/Iterator.h:142-144 | `r - n` is the inverse of `r + n` |
| ReverseIterators.RevIter.Index | Headers/Iterator.h:134-136 | `r[n]` as written reads `*(r + (n - 1))` |
| ReverseIterators.RevIter.IndexStd | Headers/Iterator.h:134-136 | the ISO C++ `r[n]` reads `*(r + n)` |
| ReverseIterators.IndexIsOffByOne | Headers/Iterator.h:134-136 | on `[10, 20, 30]` from `rbegin()`, `r[1]` as written is 30 where `*(r + 1)` is 20 |
| ReverseIterators.AddTo | Headers/Iterator.h:211-215 | `n + r` equals `r + n` |
| ReverseIterators.Eq | Headers/Iterator.h:181-184 | `==` holds exactly for equal bases |
| ReverseIterators.Lt | Headers/Iterator.h:186-189 | `r1 < r2` exactly when r2 is reached from r1 by a positive number of steps |
| ReverseIterators.Ne | Headers/Iterator.h:191-194 | `!=` is the negation of `==`, and holds exactly when one is below the other |
| ReverseIterators.Le | Headers/Iterator.h:196-199 | `<=` is `<` or `==` |
| ReverseIterators.Gt | Headers/Iterator.h:201-204 | `>` is the negation of `<=` |
| ReverseIterators.Ge | Headers/Iterator.h:206-209 | `>=` is `>` or `==` |
| ReverseIterators.Diff | Headers/Iterator.h:217-221 | `r1 - r2` as written is the number of steps from r1 to r2 (`r1 + d == r2`): 0 exactly for equal iterators and negative exactly when r2 comes before r1 |
| ReverseIterators.DiffIsNegatedStd | Headers/Iterator.h:217-221 | for all reverse iterators, the difference as written is the negated ISO C++ difference |
| ReverseIterators.DiffOfSteps | Headers/Iterator.h:217-221 | for every r and n, `(r + n) - r` is `-n` as written and `n` under ISO C++ |
| ReverseIterators.DiffStd | Headers/Iterator.h:217-221 | the ISO C++ difference is the step count from r2 to r1 |
| ReverseIterators.DiffSignIsReversed | Headers/Iterator.h:217-221 | one step from `rbegin()` has difference -1 as written and 1 under ISO C++ |
| ReverseIterators.ReverseIterator.constructor | Headers/Iterator.h:112 | `Reverse_Iterator(x)` has base x |
| ReverseIterators.ReverseIterator.AddAssign | Headers/Iterator.h:146-149 | `r += n` makes r equal to `r + n` |
| ReverseIterators.ReverseIterator.SubAssign | Headers/Iterator.h:151-154 | `r -= n` makes r equal to `r - n` |
| ReverseIterators.ReverseIterator.PreIncrement | Headers/Iterator.h:157-160 | `++r` is `r + 1` |
| ReverseIterators.ReverseIterator.PreDecrement | Headers/Iterator.h:162-165 | `--r` is `r - 1` |
| ReverseIterators.ReverseIterator.PostIncrement | Headers/Iterator.h:168-172 | `r++` returns the prior iterator and advances by one |
| ReverseIterators.ReverseIterator.PostDecrement | Headers/Iterator.h:174-178 | `r--` returns the prior iterator and steps back by one |
| ReverseIterators.WalkIsReverse | Headers/Iterator.h:124-127 | dereferencing from `rbegin()` to `rend()` reads the sequence reversed |
| StaticArray.Array.constructor | Headers/Array.h:12 | an array holds its N initial values, and N is not 0 |
| StaticArray.Array.At | Headers/Array.h:33-41 | `at(pos)` is the element when `pos < N` and `out_of_range` otherwise |
| StaticArray.Array.Get | Headers/Array.h:43-45 | `operator[]` is the element `at` would return |
| StaticArray.Array.Front | Headers/Array.h:47-49 | `front()` is element 0 |
| StaticArray.Array.Back | Headers/Array.h:51-53 | `back()` is element N - 1, the last one `at` accepts |
| StaticArray.Array.Size | Headers/Array.h:89 | `size()` is N, which is positive |
| StaticArray.Array.MaxSize | Headers/Array.h:91 | `max_size()` equals `size()` |
| StaticArray.Array.Empty | Headers/Array.h:87 | `empty()` is false, matching `size() == 0` |
| StaticArray.Array.Fill | Headers/Array.h:95-99 | `fill(v)` makes every element v |
| StaticArray.Array.Swap | Headers/Array.h:101-103 | each array ends with the other's old contents |
| StaticArray.RangeSwap | Headers/Array.h:107-114 | the two ranges exchange contents, nothing outside them changes, and the result is `first2` advanced by the length |
| Algorithm.Equal | Headers/Algorithm.h:9-16 | `equal` is true exactly when the ranges agree element by element |
| Algorithm.Max | Headers/Algorithm.h:19 | `max(a, b)` is the larger argument |
| Algorithm.MaxBy | Headers/Algorithm.h:22 | `max(a, b, pred)` is one of the arguments, not below either under a strict order, and the first on ties |
| Algorithm.Min | Headers/Algorithm.h:25 | `min(a, b)` is the smaller argument |
| Algorithm.MinBy | Headers/Algorithm.h:28 | `min(a, b, pred)` is one of the arguments, above neither under a strict order, and the second on ties |
| Algorithm.MaxMinArePredicateForms | Headers/Algorithm.h:19-28 | the plain forms are the predicate forms with `<` |
| Algorithm.Fill | Headers/Algorithm.h:43-46 | `fill` writes the value to every position of the range and nowhere else |
| Algorithm.Copy | Headers/Algorithm.h:48-55 | `copy` writes the source range to the destination in order, returns its end, and changes nothing else, also for a left-overlapping destination |
| Algorithm.CopyBackward | Headers/Algorithm.h:106-113 | `copy_backward` writes the source range to end at `d_last`, returns its start, and changes nothing else, also for a right-overlapping destination |

## Left out

- Memory allocation, allocators and exception rollback (the `try`/`catch` blocks in `emplace_hint` and `copy_from`, `tree.h:406-416`, `930-946`): allocation is taking a fresh handle, and nothing throws.
- Each tree owns its arena, so the copy's "freshly allocated nodes" are stated as handles allocated by the copy (at or above the tree's `next`), and two trees never share nodes.
- `capacity()` and its asserts (`tree.h:279-281`, `339`, `371`, `387`, `402`): the tree is unbounded.
- Genericity over `TKey`/`TVal`/`KeyofValue`/`Compare`: keys are `int`, the key extractor is the identity, and a comparator is a rank function. This covers `std::less`, `std::greater` and comparators with ties. It does not cover strict weak orders that have no integer rank.
- RBTrees.RBTree.DefaultInit: keeps the comparator instead of resetting it to `Compare()`. For a stateless comparator the two are the same, and `Reset`, `Clear`, `CopyAssign` and `MoveAssign` inherit this.
- RBTrees.RBTree.CopyAssign: the self-assignment case follows the code (`reset()` first, so the tree ends empty) rather than the usual no-op.
- RBTrees.RBTree.MoveAssign: self-move-assignment also ends empty, as the code does.
- DequeIterators.DequeIterator.Default: `Deque_Iterator() noexcept = default;` (`Deque.h:26`) leaves the four pointers indeterminate. The model chooses null for all four, so it does not capture reading an uninitialized iterator.
- Algorithm.Copy: when source and destination are the same array, the destination may not start strictly inside `(first, last)`. The loop at `Algorithm.h:49-55` runs on that input and overwrites elements before it reads them; ISO C++ leaves that case undefined, and the model does not describe it.
- RBTrees.RBTree.GetSuccessor: requires a node that is not the last. `_get_successor` on the maximum climbs past the root through the header without ending.
- `erase(const_iterator)` (`tree.h:431-433`), the const overloads of the lookups, `cbegin`/`cend`, `rbegin`/`rend`, the hinted and forwarding `insert_unique` overloads (`tree.h:351-366`) and the initializer-list overload (`tree.h:380-382`). These are one-line delegations to the modelled members.
- `root()`, `min_node()`, `max_node()` and the colour helpers: they are reads and writes of `Node` fields in the arena.
- `key_comp()` (`tree.h:564-566`): it is the `rank` field.
- The deque container and the second `operator++` (`Deque.h:71-73`). The container is absent; the duplicate operator is a compile error. The missing `return *this` in `Deque.h:63-69` is another compile error, and `Increment` returns nothing.
- `Deque_Iterator::operator*` (`Deque.h:55-57`): reading memory is a lookup of `cur` in a heap map, and it has no contract of its own.
- `Reverse_Iterator`'s converting constructor and assignment (`Iterator.h:114-118`), which name an undeclared `reverse_iterator`; the iterator traits and category tags (`Iterator.h:8-91`), which are compile-time type classification.
- `Reverse_Iterator::operator*` (`Iterator.h:124-127`): it is a sequence read at `Arrow()`.
- `Array`'s `data`, `begin`/`end` and reverse iterators (`Array.h:55-85`): they expose the storage and have no behaviour.
- `destroy`, `uninitialized_fill` and `uninitialized_copy` (`Algorithm.h:30-104`): object lifetime code.
- `List.h`, `Vector.h` and the test drivers: they contain no behaviour to model.

## Findings

| source | as written | input that shows it | evidently intended | confidence | as-written member | corrected member |
|---|---|---|---|---|---|---|
| Headers/tree.h:419-429 | `erase(pos)` never decrements `_size` | any erase: on a one-key tree, `size()` stays 1 while the tree is empty | `--_size` after removing the node | not executed | RBTrees.RBTree.EraseAsWritten | RBTrees.RBTree.Erase |
| Headers/tree.h:178-192 | `decrement` has no header case, so `--end()` takes `_max(_header->_left)`, the last node of the minimum's subtree | root 20 (black) with left child 10 (red): `--end()` yields 10 instead of 20 | the header (red, its parent's parent is itself) steps to `_header->_right`, the maximum | not executed | RBTrees.EndDecrementAsWrittenMisses | RBTrees.RBTree.Decrement |
