/** The `RBTree` class of tree.h: the `root` pointer and the public operations that
    call the recursive routines on it. */
module RBTreeObject {
  import opened RBNodes
  import opened SortedSeqs
  import opened RBTrees

  class RBTree {
    /** The root link; `Nil` is the empty tree. */
    var root: Tree

    /** What every public operation keeps, duplicates and the as-written `remove`
        included: no red node has a red child and the root is black. */
    predicate Valid()
      reads this
    {
      NoRedRed(root) && !IsRed(root)
    }

    /** `RBTree()`: the empty tree. */
    constructor()
      ensures root == Nil && Valid()
    {
      root := Nil;
    }

    /** `insert`: `insert_entry` on the root, then the root is coloured black. An
        absent key into an ordered tree keeps it ordered and lands at its sorted
        position; black heights stay uniform. */
    method Insert(entry: Key)
      requires Valid()
      modifies this
      ensures Valid()
      ensures root == TreeInsert(old(root), entry)
      ensures Balanced(old(root)) ==> Balanced(root)
      ensures old(Ordered(root)) && entry !in old(InOrder(root)) ==>
        Ordered(root) && InOrder(root) == InsertSorted(old(InOrder(root)), entry)
    {
      var r := InsertEntry(root, entry);
      TreeInsertColors(root, entry);
      if Ordered(root) && entry !in InOrder(root) {
        TreeInsertOrdered(root, entry);
      }
      root := r.(color := Black);
    }

    /** `find`: whether `find_entry` reaches the target; in an ordered tree, exactly
        whether it occurs. Nothing changes. */
    method Find(target: Key) returns (found: bool)
      ensures found == FindEntry(root, target)
      ensures Ordered(root) ==> (found <==> target in InOrder(root))
    {
      found := FindEntry(root, target);
      if Ordered(root) {
        FindEntryCorrect(root, target);
      }
    }

    /** `print`: the data in the order `print_entries` writes them, one per node. */
    method Print() returns (s: seq<Key>)
      ensures s == InOrder(root)
      ensures |s| == Size(root) && multiset(s) == Elements(root)
    {
      s := InOrder(root);
      InOrderVisitsAll(root);
    }

    /** `remove` as written: when `find_entry` finds the target, `remove_entry` runs
        without ever reaching `remove_balance` and a non-empty result gets a black
        root; otherwise nothing changes. In an ordered tree exactly the target leaves
        the in-order sequence. */
    method Remove(target: Key)
      requires Valid()
      modifies this
      ensures Valid()
      ensures root == TreeRemove(old(root), target, false)
      ensures !old(FindEntry(root, target)) ==> root == old(root)
      ensures old(Ordered(root)) ==>
        Ordered(root) && InOrder(root) == Erase(old(InOrder(root)), target) && !FindEntry(root, target)
    {
      if Ordered(root) {
        if target in InOrder(root) {
          TreeRemovePresent(root, target, false);
        } else {
          TreeRemoveAbsent(root, target, false);
          FindEntryCorrect(root, target);
        }
      }
      TreeRemoveColors(root, target);
      if FindEntry(root, target) {
        var r, done := RemoveEntry(root, target, false);
        if r != Nil {
          r := r.(color := Black);
        }
        root := r;
      }
    }

    /** `remove` with the guard corrected to `if(!*done)`: `remove_balance` repairs
        the lost black level, so a valid red-black tree stays one, and an ordered tree
        loses exactly the target. */
    method RemoveRebalanced(target: Key)
      requires Valid() && Balanced(root)
      modifies this
      ensures Valid() && Balanced(root)
      ensures root == TreeRemove(old(root), target, true)
      ensures !old(FindEntry(root, target)) ==> root == old(root)
      ensures old(Ordered(root)) ==>
        Ordered(root) && InOrder(root) == Erase(old(InOrder(root)), target) && !FindEntry(root, target)
    {
      TreeRemoveFixedValid(root, target);
      if Ordered(root) {
        if target in InOrder(root) {
          TreeRemoveFixed(root, target);
        } else {
          TreeRemoveAbsent(root, target, true);
          FindEntryCorrect(root, target);
        }
      }
      if FindEntry(root, target) {
        var r, done := RemoveEntry(root, target, true);
        if r != Nil {
          r := r.(color := Black);
        }
        root := r;
      }
    }

    /** `~RBTree`: `tree_clear` on the root releases every node in post-order and
        leaves the root NULL. */
    method Clear() returns (released: seq<Key>)
      modifies this
      ensures root == Nil && Valid()
      ensures released == PostOrder(old(root))
      ensures multiset(released) == old(Elements(root))
    {
      root, released := TreeClear(root);
    }
  }
}
