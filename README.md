# Red-black tree (tree.h, node.h), modelled in Dafny

The repository is a C++ red-black tree: a template class `RBTree<T>` holding a
`root` pointer to `RBNode<T>` nodes (`data`, an int `color` with 1 for red and 0
for black, and `link[0]`/`link[1]` for the left and right child). It offers
`insert`, `find`, `print` (an in-order walk), `remove`, and a destructor that
frees every node with `tree_clear`. Insertion goes down recursively and repairs
on the way back up by recolouring or by single and double rotations. Deletion
goes down recursively too. It splices out a node that has a NULL child. A node
with two children first takes its in-order predecessor's data. A `done` flag is
meant to stop the deficit repair `remove_balance`.

Each node is owned by exactly one link. So a subtree is modelled as a value,
`Tree = Nil | Node(color, left, data, right)`. Every routine that rewrites links
in place becomes a function from the old subtree to the new one. The `int *done`
out-parameter becomes a returned `bool`: it is 0 on entry and only ever set, so
the bool says whether this call set it. A direction `d` is a `bool`: `false` is
`link[0]`, `true` is `link[1]`.

Files and modules:

- `nodes.dfy` (`RBNodes`): the node, its constructor, and `tree_clear` as a
  recursive method that reports the data of the nodes in the order it releases
  them.
- `sorted_seqs.dfy` (`SortedSeqs`): the reference definitions the in-order
  sequence is compared with. These are strict sortedness, insertion at the
  sorted position, and erasure of the first occurrence, with their lemmas.
- `tree.dfy` (`RBTrees`): the engine of tree.h, with its invariants and proofs.
  - The invariants are BST order, no red node with a red child, uniform black
    height, and a black root.
  - `remove_entry` is also written as a method with the predecessor loop. It is
    proved to compute the same as the function model.
- `rbtree.dfy` (`RBTreeObject`): the class `RBTree` with its `root` field and
  the public operations.
- `scenarios.dfy` (`RBScenarios`): repeated insertion and example scenarios,
  stated for all keys.

The `remove_entry` guard at tree.h:188 tests the pointer `done` instead of
`*done`, so `remove_balance` is never called (see Findings). `remove_entry` is
therefore modelled with a parameter `fixDeficit`:

- `fixDeficit == false` is the code as written. The class's `Remove` uses it.
- `fixDeficit == true` is the evidently intended `if(!*done)`.
  `RBTree.RemoveRebalanced` uses it. The full red-black property is proved only
  for this version.

Equal keys go left: `dir = node->data < entry` is 0 for an equal key.

## Model

| member | source | states |
|---|---|---|
| RBNodes.NewNode | node.h:15-21 | the constructor stores the given data, links and colour verbatim |
| RBNodes.NewNodeDefaults | node.h:15-16 | a node built from its data alone is a red leaf; the default data is `T()` |
| RBNodes.PostOrder | node.h:26-32 | the release order of `tree_clear` (subtrees, then the node) lists every node exactly once |
| RBNodes.TreeClear | node.h:26-32 | the reference becomes NULL; the nodes are released in post-order, each exactly once; NULL releases nothing |
| RBTrees.IsRed | tree.h:40-44 | a red link is never NULL |
| RBTrees.InOrderVisitsAll | tree.h:117-124 | the in-order walk visits every node exactly once |
| RBTrees.SingleRotate | tree.h:47-65 | needs `link[!d]`; the old `!d` child becomes the black root, the old root its red `d` child with the moved grandchild; the in-order sequence is unchanged |
| RBTrees.DoubleRotate | tree.h:68-75 | needs `link[!d]` and its `link[d]`; the old grandchild becomes the black root with the old root and old child as red children; the in-order sequence is unchanged |
| RBTrees.InsertFixup | tree.h:90-112 | the recolour and rotation repair never changes the in-order sequence |
| RBTrees.InsertEntry | tree.h:77-114 | the result is never an empty link |
| RBTrees.InsertEntryAddsOne | tree.h:77-89 | insertion adds exactly one node, holding the entry, even when the key is already present |
| RBTrees.TreeInsert | tree.h:263-267 | the root ends black; the in-order sequence is that of `insert_entry` |
| RBTrees.FindEntry | tree.h:127-137 | a found target occurs in the tree |
| RBTrees.FindEntryCorrect | tree.h:127-137 | in an ordered tree `find_entry` is true exactly when the target occurs |
| RBTrees.InsertEntryInOrder | tree.h:77-89 | in an ordered tree the entry lands at its sorted position, an equal key before its twin |
| RBTrees.TreeInsertOrdered | tree.h:263-267 | inserting an absent key keeps BST order, adds exactly that key in sorted position, and the key is then found |
| RBTrees.InsertFixupColors | tree.h:90-112 | after the repair a black node has no red-red edge below it; a red node has at most one red child |
| RBTrees.InsertEntryColors | tree.h:77-114 | insertion below a black node leaves no red-red edge; below a red node at most one, at the top |
| RBTrees.InsertFixupBlackHeight | tree.h:90-112 | the repair keeps the subtree balanced with the same black height |
| RBTrees.InsertEntryBlackHeight | tree.h:77-114 | insertion keeps black heights uniform and unchanged |
| RBTrees.TreeInsertColors | tree.h:263-267 | `insert` keeps no-red-red, leaves a black root, keeps uniform black height and adds at most one black level |
| RBTrees.TreeInsertValid | tree.h:263-267 | an absent key into a valid ordered red-black tree gives a valid ordered red-black tree with the key in sorted position |
| RBTrees.RightmostData | tree.h:173-176 | following `link[1]` to its end reaches the last in-order key |
| RBTrees.Splice | tree.h:152-169 | a node with a NULL link is replaced by its other link; `*done` is set iff the node or its replacement is red; the result is never red below a black node |
| RBTrees.RemoveEntry | tree.h:140-193 | the recursive descent with the predecessor loop computes exactly the deletion function, for the guard as written and corrected |
| RBTrees.BalanceBlackSibling | tree.h:212-254 | in-order unchanged; NULL `v` changes nothing; both nephews black: `*done` iff `u` red, `u` black, `v` red; otherwise `*done`, root gets `u`'s colour, both children black |
| RBTrees.RemoveBalance | tree.h:196-257 | `remove_balance` keeps the in-order sequence |
| RBTrees.TreeRemove | tree.h:286-300 | a target `find_entry` misses leaves the tree unchanged; otherwise the root ends black or the tree empty |
| RBTrees.SpliceInOrder | tree.h:152-169 | splicing removes exactly the node's key from the in-order sequence |
| RBTrees.PredecessorStep | tree.h:170-189 | at a two-child node holding the target, in-order the result is the left subtree without the predecessor's key, then that key, then the right subtree |
| RBTrees.PredecessorInOrder | tree.h:170-186 | taking the predecessor's data and deleting it on the left removes exactly the node's old key |
| RBTrees.DescentInOrder | tree.h:183-186 | deleting in the subtree the descent picks removes exactly the key from the whole sequence |
| RBTrees.DescentSide | tree.h:184 | in an ordered tree a key other than the node's lies on the side `dir` selects |
| RBTrees.RemovalInOrder | tree.h:140-193 | deleting a key present in an ordered tree removes exactly that key from the in-order sequence |
| RBTrees.RemovalTwoChildren | tree.h:170-186 | a two-child node holding the target keeps its place and colour, takes the predecessor's data, and that key is deleted from its left subtree |
| RBTrees.TreeRemoveAbsent | tree.h:286-300 | `remove` of an absent key from an ordered tree changes nothing |
| RBTrees.TreeRemovePresent | tree.h:286-295 | `remove` of a present key: in-order loses exactly the key, order kept, key no longer found, root black or tree empty |
| RBTrees.RemovalColors | tree.h:150-169 | deletion as written creates no red-red edge and no red root under a black one |
| RBTrees.TreeRemoveColors | tree.h:286-295 | `remove` as written keeps no-red-red and a black root |
| RBTrees.AsWrittenRemoveUnbalances | tree.h:188-189 | a valid three-node tree from which `remove` as written yields unequal black heights, while the corrected guard keeps it valid |
| RBTrees.FlipRestores | tree.h:220-226 | both nephews black: the subtree is valid again; with a red `u` the lost level is regained, with a black `u` it stays one short |
| RBTrees.SingleRestores | tree.h:228-252 | red far nephew: one rotation regains the lost level, keeps the subtree valid and sets `*done` |
| RBTrees.DoubleRestores | tree.h:228-252 | red near nephew, black far one: two rotations regain the lost level, keep the subtree valid and set `*done` |
| RBTrees.BalanceBlackSiblingRestores | tree.h:212-254 | with a black sibling, the case analysis leaves a valid subtree that regains the level (`*done`) or is uniformly one short with a black root |
| RBTrees.RemoveBalanceRestores | tree.h:196-257 | `remove_balance` on a one-level deficit leaves a valid subtree, never red above a black node, that regains the level or is uniformly one short |
| RBTrees.SpliceBalanced | tree.h:152-169 | splicing keeps the subtree valid; `*done` unset means a NULL link one black level short |
| RBTrees.RemovalBalanced | tree.h:140-193 | with the corrected guard every level of deletion leaves a valid subtree whose black height is kept (`*done`) or one short with a black root |
| RBTrees.TreeRemoveFixedValid | tree.h:286-295 | the corrected `remove` keeps a red-black tree red-black |
| RBTrees.TreeRemoveFixed | tree.h:286-295 | the corrected `remove` of a present key from a valid ordered tree removes exactly that key and leaves a valid ordered tree |
| RBTrees.InsertThenRemove | tree.h:263-295 | inserting an absent key, then removing it, restores the in-order sequence |
| RBTrees.SizeAtLeastBlackHeight | tree.h:92-111 | a balanced tree of black height h has at least 2^h - 1 nodes |
| RBTrees.HeightAtMostTwiceBlackHeight | tree.h:92-111 | with no red-red edge the height is at most twice the black height (plus a red root) |
| RBTrees.HeightBound | tree.h:92-111 | a red-black tree of n nodes has height at most 2 log2(n + 1) |
| RBTreeObject.RBTree.constructor | tree.h:20-22 | a new tree is empty |
| RBTreeObject.RBTree.Insert | tree.h:263-267 | the root becomes `insert`'s result; no-red-red, black root and uniform black height are kept; an absent key into an ordered tree lands in sorted position |
| RBTreeObject.RBTree.Find | tree.h:277-283 | reports `find_entry`: in an ordered tree, exactly membership; nothing changes |
| RBTreeObject.RBTree.Print | tree.h:270-274 | yields the in-order sequence, one entry per node |
| RBTreeObject.RBTree.Remove | tree.h:286-300 | the root becomes `remove`'s as-written result; no-red-red and black root kept; an absent key changes nothing; in an ordered tree exactly the key goes |
| RBTreeObject.RBTree.RemoveRebalanced | tree.h:286-300 | with the corrected guard a valid red-black tree stays one; a miss changes nothing; in an ordered tree exactly the key goes and order is kept |
| RBTreeObject.RBTree.Clear | tree.h:23-25 | the destructor releases every node in post-order and leaves the root NULL |
| RBScenarios.InsertAllValid | tree.h:263-267 | inserting distinct absent keys one by one keeps a valid ordered tree and places each key in sorted position |
| RBScenarios.AscendingInserts | tree.h:263-267 | keys inserted in ascending order into an empty tree are enumerated in that order in a valid red-black tree |
| RBScenarios.RemoveSecond | tree.h:286-295 | removing the second smallest key: it is not found, the third still is, and the enumeration skips only it |
| RBScenarios.RemoveFromEmpty | tree.h:286-300 | `remove` on an empty tree changes nothing |

## Left out

- main.cpp, a timing benchmark against `std::set`. It uses clocks and floating point and states nothing about the tree.
- The `std::cout` output of `print`, `find` and the not-found branch of `remove`. `print` is modelled by the sequence it writes, and `find` by its boolean.
- `new` and `delete`. A node's allocation and release are modelled by its appearing in or vanishing from the tree. `tree_clear` reports the release order as a sequence.
- In-place pointer rewriting. Rotations, `insert_entry`, `remove_entry` and `remove_balance` are functions on subtree values. This is exact because no node is shared, but the order of the individual field writes is not modelled.
- Template genericity. The key type is `int`. The int colour field is a two-valued datatype, so colours other than 0 and 1 cannot be expressed.
- Duplicate keys. A duplicate insert adds a second node, and `RBTrees.InsertEntryAddsOne` states the extra copy. BST order, validity and the membership results are stated only for keys that are absent.
- RBTree.Remove: does not keep uniform black height, because the source's `remove` never reaches `remove_balance` (see Findings). Its invariant is only "no red-red edge and a black root".
- RBTree.Insert: keeps BST order only for an absent key, because an equal key is inserted again.
- RBScenarios.AscendingInserts: the concrete examples with keys 1 to 7 and 10 to 80 are stated for every ascending key sequence rather than worked out on those keys.
- Membership after an arbitrary sequence of inserts and removes is not stated as one lemma. It follows from the per-operation lemmas on ordered trees, together with `RBTrees.FindEntryCorrect`.

## Findings

| source | as written | input that shows it | evidently intended | confidence | as-written member | corrected member |
|---|---|---|---|---|---|---|
| tree.h:188 | `if(!done)` tests the pointer, which is always `&done` and never NULL, so `remove_balance` is never called | remove 1 from the valid tree 2 (black) with black leaves 1 and 3: the result 2 with only the right leaf 3 has black heights 0 and 1 | `if(!*done)`: repair the deficit while it is not yet resolved | not executed | RBTrees.AsWrittenRemoveUnbalances | RBTrees.TreeRemoveFixedValid |
