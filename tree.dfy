/** The red-black tree engine of tree.h: colour test, rotations, recursive
    insertion with bottom-up repair, lookup, in-order enumeration, recursive
    deletion and the deficit fixer `remove_balance`.

    The C++ routines rewrite `link[]` and `color` in place and reassign the
    caller's pointer through `RBNode<T> *&node`. Every node has exactly one
    owning link, so each routine is modelled as a function from the old subtree
    to the new one, and the `int *done` out-parameter becomes a returned bool. */
module RBTrees {
  import opened RBNodes
  import opened SortedSeqs

  // ---------------------------------------------------------------------------
  // Links, colours and the invariants
  // ---------------------------------------------------------------------------

  /** `is_red`: the link is not NULL and the node's colour is red. */
  predicate IsRed(t: Tree)
    ensures IsRed(t) ==> t.Node?
  {
    t.Node? && t.color == Red
  }

  /** `node->link[d]`: the direction is an index, false for link[0] (left) and
      true for link[1] (right), so `!d` is the other side as in the source. */
  function Link(t: Tree, d: bool): Tree
    requires t.Node?
  {
    if d then t.right else t.left
  }

  /** `node->link[d] = c`. */
  function SetLink(t: Tree, d: bool, c: Tree): (r: Tree)
    requires t.Node?
    ensures r.Node? && r.color == t.color && r.data == t.data
    ensures Link(r, d) == c && Link(r, !d) == Link(t, !d)
  {
    if d then t.(right := c) else t.(left := c)
  }

  /** `print_entries`: the data met by an in-order walk (left, node, right). */
  function InOrder(t: Tree): seq<Key> {
    match t
    case Nil => []
    case Node(_, l, d, r) => InOrder(l) + [d] + InOrder(r)
  }

  /** The enumeration visits every node once. */
  lemma {:induction false} InOrderVisitsAll(t: Tree)
    ensures |InOrder(t)| == Size(t)
    ensures multiset(InOrder(t)) == Elements(t)
  {
    if t.Node? {
      InOrderVisitsAll(t.left);
      InOrderVisitsAll(t.right);
    }
  }

  /** Binary-search-tree order: the in-order enumeration is strictly ascending. */
  predicate Ordered(t: Tree) {
    StrictlySorted(InOrder(t))
  }

  /** No red node has a red child. */
  predicate NoRedRed(t: Tree) {
    match t
    case Nil => true
    case Node(c, l, _, r) => (c == Red ==> !IsRed(l) && !IsRed(r)) && NoRedRed(l) && NoRedRed(r)
  }

  /** The number of black nodes on the leftmost path down to a NULL link. */
  function BlackHeight(t: Tree): nat {
    match t
    case Nil => 0
    case Node(c, l, _, _) => BlackHeight(l) + (if c == Black then 1 else 0)
  }

  /** Every path from a node down to a NULL link meets the same number of black nodes. */
  predicate Balanced(t: Tree) {
    match t
    case Nil => true
    case Node(_, l, _, r) => BlackHeight(l) == BlackHeight(r) && Balanced(l) && Balanced(r)
  }

  /** The colour invariants of a whole tree: no red-red edge, uniform black height, black root. */
  predicate RedBlack(t: Tree) {
    NoRedRed(t) && Balanced(t) && !IsRed(t)
  }

  // ---------------------------------------------------------------------------
  // Rotations
  // ---------------------------------------------------------------------------

  /** `single_rotate(node, d)`: the child on side `!d` becomes the subtree root,
      coloured black; the old root becomes its `d` child, coloured red, and takes
      over the moved child's `d` subtree. */
  function SingleRotate(node: Tree, d: bool): (r: Tree)
    requires node.Node? && Link(node, !d).Node?
    ensures r.Node? && r.color == Black && r.data == Link(node, !d).data
    ensures Link(r, d).Node? && Link(r, d).color == Red && Link(r, d).data == node.data
    ensures Link(r, !d) == Link(Link(node, !d), !d)
    ensures Link(Link(r, d), !d) == Link(Link(node, !d), d)
    ensures Link(Link(r, d), d) == Link(node, d)
    ensures InOrder(r) == InOrder(node)
  {
    var Node(_, l, k, rt) := node;
    if d then
      // temp = link[0]: node->link[0] = temp->link[1]; temp->link[1] = node
      Node(Black, l.left, l.data, Node(Red, l.right, k, rt))
    else
      // temp = link[1]: node->link[1] = temp->link[0]; temp->link[0] = node
      Node(Black, Node(Red, l, k, rt.left), rt.data, rt.right)
  }

  /** `double_rotate(node, d)`: rotate the `!d` child by `!d`, then the node by `d`.
      The old grandchild `node->link[!d]->link[d]` becomes the black subtree root
      with the old root (red) on side `d` and the old child (red) on side `!d`. */
  function DoubleRotate(node: Tree, d: bool): (r: Tree)
    requires node.Node? && Link(node, !d).Node? && Link(Link(node, !d), d).Node?
    ensures r.Node? && r.color == Black && r.data == Link(Link(node, !d), d).data
    ensures Link(r, d).Node? && Link(r, d).color == Red && Link(r, d).data == node.data
    ensures Link(r, !d).Node? && Link(r, !d).color == Red && Link(r, !d).data == Link(node, !d).data
    ensures Link(Link(r, d), d) == Link(node, d)
    ensures Link(Link(r, d), !d) == Link(Link(Link(node, !d), d), d)
    ensures Link(Link(r, !d), d) == Link(Link(Link(node, !d), d), !d)
    ensures Link(Link(r, !d), !d) == Link(Link(node, !d), !d)
    ensures InOrder(r) == InOrder(node)
  {
    var n := SetLink(node, !d, SingleRotate(Link(node, !d), !d));
    SingleRotate(n, d)
  }

  // ---------------------------------------------------------------------------
  // Insertion
  // ---------------------------------------------------------------------------

  /** The repair after a recursive insertion below `node` on side `dir`: when the
      child on that side is red, either flip colours (its sibling is red too), or
      rotate once (the same-side grandchild is red) or twice (the other grandchild
      is red). Only colours and shape change, never the in-order sequence. */
  function InsertFixup(node: Tree, dir: bool): (r: Tree)
    requires node.Node?
    ensures r.Node? && InOrder(r) == InOrder(node)
  {
    if IsRed(Link(node, dir)) then
      if IsRed(Link(node, !dir)) then
        node.(color := Red, left := node.left.(color := Black), right := node.right.(color := Black))
      else if IsRed(Link(Link(node, dir), dir)) then
        SingleRotate(node, !dir)
      else if IsRed(Link(Link(node, dir), !dir)) then
        DoubleRotate(node, !dir)
      else
        node
    else
      node
  }

  /** `insert_entry`: a new red node at the NULL link reached by descending (an
      entry equal to a node's data goes left), repaired on the way back up. */
  function InsertEntry(node: Tree, entry: Key): (r: Tree)
    ensures r.Node?
  {
    match node
    case Nil => NewNode(entry)
    case Node(_, _, _, _) =>
      var dir := node.data < entry;
      InsertFixup(SetLink(node, dir, InsertEntry(Link(node, dir), entry)), dir)
  }

  /** The public `insert`: insert, then colour the root black. */
  function TreeInsert(t: Tree, entry: Key): (r: Tree)
    ensures r.Node? && r.color == Black
    ensures InOrder(r) == InOrder(InsertEntry(t, entry))
  {
    var r := InsertEntry(t, entry);
    r.(color := Black)
  }

  // ---------------------------------------------------------------------------
  // Lookup
  // ---------------------------------------------------------------------------

  /** `find_entry`: descend by comparison until the target or a NULL link is met. */
  function FindEntry(node: Tree, target: Key): (found: bool)
    ensures found ==> target in InOrder(node)
  {
    if node == Nil then false
    else if target == node.data then true
    else FindEntry(Link(node, node.data < target), target)
  }

  // ---------------------------------------------------------------------------
  // Deletion
  // ---------------------------------------------------------------------------

  /** The data of the rightmost node, reached by following `link[1]` while it is
      not NULL: the last element of the in-order sequence. */
  function RightmostData(t: Tree): (m: Key)
    requires t.Node?
    ensures InOrder(t) != [] && m == InOrder(t)[|InOrder(t)| - 1]
  {
    if t.right == Nil then t.data else RightmostData(t.right)
  }

  /** The splice case of `remove_entry` (tree.h:152-169): a node with a NULL link is replaced by its other link. The
      flag says whether `*done` is set: the node was red, or its replacement was
      red and is recoloured black. */
  function Splice(node: Tree): (res: (Tree, bool))
    requires node.Node? && (node.left == Nil || node.right == Nil)
    ensures res.0.Node? <==> Link(node, node.left == Nil).Node?
    ensures InOrder(res.0) == InOrder(Link(node, node.left == Nil))
    ensures res.1 <==> IsRed(node) || IsRed(Link(node, node.left == Nil))
    ensures !IsRed(res.0) || IsRed(node)
  {
    var temp := Link(node, node.left == Nil);
    if IsRed(node) then (temp, true)
    else if IsRed(temp) then (temp.(color := Black), true)
    else (temp, false)
  }

  /** `remove_entry(node, target, done)`. `*done` is 0 whenever the routine is
      entered, so the result pairs the new subtree with whether `*done` was set.
      A node holding the target with two children first takes the data of the
      rightmost node of its left subtree, and that data is then removed from the
      left subtree instead.

      `fixDeficit` selects the guard of the call to `remove_balance`. As written,
      the guard `if(!done)` tests the pointer, which is never NULL, so
      `remove_balance` is never called: `fixDeficit == false`. With
      `fixDeficit == true` the guard is `if(!*done)`. */
  function Removal(node: Tree, target: Key, fixDeficit: bool): (res: (Tree, bool))
    decreases node
  {
    match node
    case Nil => (Nil, true)
    case Node(_, l, k, r) =>
      if k == target && (l == Nil || r == Nil) then
        Splice(node)
      else
        var n := if k == target then node.(data := RightmostData(l)) else node;
        var t := if k == target then RightmostData(l) else target;
        var dir := n.data < t;
        assert Link(n, dir) == Link(node, dir);
        var (child, done) := Removal(Link(n, dir), t, fixDeficit);
        if fixDeficit && !done then RemoveBalance(SetLink(n, dir, child), dir)
        else (SetLink(n, dir, child), done)
  }

  /** `remove_entry`, line by line: the recursive descent with the loop that walks
      `link[1]` to the in-order predecessor. It computes exactly `Removal`, with the
      guard as written (`fixDeficit == false`) or corrected. */
  method RemoveEntry(node: Tree, target: Key, fixDeficit: bool) returns (r: Tree, done: bool)
    ensures (r, done) == Removal(node, target, fixDeficit)
    decreases node
  {
    if node == Nil {
      return Nil, true;
    }
    var n, t := node, target;
    if n.data == t {
      if n.left == Nil || n.right == Nil {
        var res := Splice(n);
        r, done := res.0, res.1;
        return;
      }
      var temp := n.left;
      while temp.right != Nil
        invariant temp.Node? && RightmostData(temp) == RightmostData(node.left)
        decreases temp
      {
        temp := temp.right;
      }
      n := n.(data := temp.data);
      t := temp.data;
    }
    var dir := n.data < t;
    assert Link(n, dir) == Link(node, dir);
    var child;
    child, done := RemoveEntry(Link(n, dir), t, fixDeficit);
    r := SetLink(n, dir, child);
    // As written, `if(!done)` tests the pointer, which is never NULL.
    if fixDeficit && !done {
      var res := RemoveBalance(r, dir);
      r, done := res.0, res.1;
    }
  }

  /** The case analysis of `remove_balance` (tree.h:212-254) at `u` once its sibling subtree `v = u->link[!d]`
      is known to be black. Both nephews black: `u` turns black and `v` red, and
      `*done` is set iff `u` was red. Otherwise rotate once (the far nephew is red)
      or twice; the new subtree root takes `u`'s colour, its two children turn
      black, and `*done` is set. A NULL `v` leaves everything as it is. */
  function BalanceBlackSibling(u: Tree, d: bool): (res: (Tree, bool))
    requires u.Node?
    ensures InOrder(res.0) == InOrder(u)
    ensures Link(u, !d) == Nil ==> res == (u, false)
    ensures Link(u, !d).Node? && !IsRed(Link(u, !d).left) && !IsRed(Link(u, !d).right) ==>
      res.1 == (u.color == Red) &&
      res.0.Node? && res.0.color == Black && res.0.data == u.data &&
      Link(res.0, !d).Node? && Link(res.0, !d).color == Red && Link(res.0, !d).data == Link(u, !d).data
    ensures Link(u, !d).Node? && (IsRed(Link(u, !d).left) || IsRed(Link(u, !d).right)) ==>
      res.1 && res.0.Node? && res.0.color == u.color &&
      res.0.left.Node? && res.0.left.color == Black &&
      res.0.right.Node? && res.0.right.color == Black
  {
    var v := Link(u, !d);
    if v == Nil then (u, false)
    else if !IsRed(v.left) && !IsRed(v.right) then
      (SetLink(u, !d, v.(color := Red)).(color := Black), u.color == Red)
    else
      var c := u.color;
      var p := if IsRed(Link(v, !d)) then SingleRotate(u, d) else DoubleRotate(u, d);
      assert InOrder(p.left.(color := Black)) == InOrder(p.left);
      assert InOrder(p.right.(color := Black)) == InOrder(p.right);
      (p.(color := c, left := p.left.(color := Black), right := p.right.(color := Black)), true)
  }

  /** `remove_balance(node, d, done)`: the subtree on side `d` of `node` has lost
      one black level. A red sibling is first rotated up (`single_rotate(node, d)`),
      which makes `node` red and gives it a black sibling; the case analysis then
      runs on that node. The flag says whether `*done` was set. */
  function RemoveBalance(node: Tree, d: bool): (res: (Tree, bool))
    requires node.Node?
    ensures InOrder(res.0) == InOrder(node)
  {
    if IsRed(Link(node, !d)) then
      var top := SingleRotate(node, d);
      var (u, done) := BalanceBlackSibling(Link(top, d), d);
      (SetLink(top, d, u), done)
    else
      BalanceBlackSibling(node, d)
  }

  /** The public `remove`: when `find_entry` finds the target, remove it and colour
      a non-empty result's root black; otherwise nothing changes. */
  function TreeRemove(t: Tree, target: Key, fixDeficit: bool): (r: Tree)
    ensures !FindEntry(t, target) ==> r == t
    ensures FindEntry(t, target) ==> !IsRed(r)
  {
    if FindEntry(t, target) then
      var (n, _) := Removal(t, target, fixDeficit);
      if n == Nil then n else n.(color := Black)
    else
      t
  }

  // ---------------------------------------------------------------------------
  // The invariants seen through `link[d]`
  // ---------------------------------------------------------------------------

  /** No-red-red at a node, stated for either side. */
  lemma NoRedRedSides(t: Tree, d: bool)
    requires t.Node?
    ensures NoRedRed(t) <==>
      (t.color == Red ==> !IsRed(Link(t, d)) && !IsRed(Link(t, !d))) &&
      NoRedRed(Link(t, d)) && NoRedRed(Link(t, !d))
  {
  }

  /** Black-height balance at a node, stated for either side. */
  lemma BalancedSides(t: Tree, d: bool)
    requires t.Node?
    ensures Balanced(t) <==>
      BlackHeight(Link(t, d)) == BlackHeight(Link(t, !d)) && Balanced(Link(t, d)) && Balanced(Link(t, !d))
    ensures Balanced(t) ==> BlackHeight(t) == BlackHeight(Link(t, d)) + (if t.color == Black then 1 else 0)
  {
  }

  /** BST order at a node: both subtrees ordered and separated by the node's data. */
  lemma OrderedNode(t: Tree)
    requires t.Node?
    ensures Ordered(t) <==>
      (Ordered(t.left) && Ordered(t.right) &&
       (forall y :: y in InOrder(t.left) ==> y < t.data) &&
       (forall y :: y in InOrder(t.right) ==> t.data < y))
  {
    SortedAround(InOrder(t.left), t.data, InOrder(t.right));
  }

  /** The half of `OrderedNode` that takes an ordered tree apart. */
  lemma OrderedParts(t: Tree)
    requires t.Node? && Ordered(t)
    ensures Ordered(t.left) && Ordered(t.right)
    ensures forall y :: y in InOrder(t.left) ==> y < t.data
    ensures forall y :: y in InOrder(t.right) ==> t.data < y
  {
    OrderedNode(t);
  }

  // ---------------------------------------------------------------------------
  // Lookup is correct
  // ---------------------------------------------------------------------------

  /** In a BST-ordered tree `find_entry` reports exactly whether the target occurs. */
  lemma {:induction false} FindEntryCorrect(t: Tree, target: Key)
    requires Ordered(t)
    ensures FindEntry(t, target) <==> target in InOrder(t)
  {
    if t.Node? && target != t.data {
      OrderedNode(t);
      FindEntryCorrect(Link(t, t.data < target), target);
      if target in InOrder(t) {
        assert target in InOrder(t.left) || target in InOrder(t.right);
      }
    }
  }

  // ---------------------------------------------------------------------------
  // Insertion: the in-order sequence
  // ---------------------------------------------------------------------------

  /** One level of insertion: the entry goes into one subtree, and the repair
      leaves the in-order sequence as the descent made it. */
  lemma InsertEntryStep(t: Tree, x: Key)
    requires t.Node?
    ensures InOrder(InsertEntry(t, x)) ==
      if t.data < x then InOrder(t.left) + [t.data] + InOrder(InsertEntry(t.right, x))
      else InOrder(InsertEntry(t.left, x)) + [t.data] + InOrder(t.right)
  {
    var dir := t.data < x;
    var n := SetLink(t, dir, InsertEntry(Link(t, dir), x));
    assert InOrder(InsertEntry(t, x)) == InOrder(n);
  }

  /** Insertion adds exactly one node, holding the entry, whatever the tree: an equal
      key is added a second time. */
  lemma {:induction false} InsertEntryAddsOne(t: Tree, x: Key)
    ensures multiset(InOrder(InsertEntry(t, x))) == multiset(InOrder(t)) + multiset{x}
  {
    if t.Node? {
      InsertEntryStep(t, x);
      InsertEntryAddsOne(Link(t, t.data < x), x);
    }
  }

  /** Insertion into an ordered tree puts the entry at its sorted position: in front
      of the first element that is not smaller, so an equal key lands before its twin. */
  lemma {:induction false} InsertEntryInOrder(t: Tree, x: Key)
    requires Ordered(t)
    ensures InOrder(InsertEntry(t, x)) == InsertSorted(InOrder(t), x)
  {
    match t
    case Nil =>
    case Node(c, l, k, r) =>
      OrderedNode(t);
      InsertEntryStep(t, x);
      if k < x {
        InsertEntryInOrder(r, x);
        InsertSortedAfter(InOrder(l), k, InOrder(r), x);
      } else {
        InsertEntryInOrder(l, x);
        InsertSortedBefore(InOrder(l), k, InOrder(r), x);
      }
  }

  /** The public insert of an absent key into an ordered tree keeps it ordered and
      changes its in-order sequence by exactly that key. */
  lemma TreeInsertOrdered(t: Tree, x: Key)
    requires Ordered(t) && x !in InOrder(t)
    ensures InOrder(TreeInsert(t, x)) == InsertSorted(InOrder(t), x)
    ensures Ordered(TreeInsert(t, x))
    ensures FindEntry(TreeInsert(t, x), x)
  {
    InsertEntryInOrder(t, x);
    InsertSortedKeepsSorted(InOrder(t), x);
    assert x in multiset(InOrder(TreeInsert(t, x)));
    FindEntryCorrect(TreeInsert(t, x), x);
  }

  // ---------------------------------------------------------------------------
  // Insertion: the colour invariants
  // ---------------------------------------------------------------------------

  /** What insertion below a red node can leave: a red root whose subtrees have no
      red-red edge and which has at most one red child. The parent repairs it. */
  predicate RedRootOneRedChild(t: Tree) {
    t.Node? && t.color == Red && NoRedRed(t.left) && NoRedRed(t.right) &&
    !(IsRed(t.left) && IsRed(t.right))
  }

  /** The repair at `node` after inserting on side `dir`; `ch` is the new child.
      A black node ends with no red-red edge; a red node is left as it is. */
  lemma InsertFixupColors(node: Tree, dir: bool)
    requires node.Node?
    requires NoRedRed(Link(node, !dir))
    requires NoRedRed(Link(node, dir)) || RedRootOneRedChild(Link(node, dir))
    requires node.color == Red ==> !IsRed(Link(node, !dir)) && NoRedRed(Link(node, dir))
    ensures node.color == Black ==> NoRedRed(InsertFixup(node, dir))
    ensures node.color == Red ==> RedRootOneRedChild(InsertFixup(node, dir))
  {
    var ch, s := Link(node, dir), Link(node, !dir);
    var r := InsertFixup(node, dir);
    NoRedRedSides(node, dir);
    if ch.Node? {
      NoRedRedSides(ch, dir);
    }
    if IsRed(ch) && IsRed(s) {
      NoRedRedSides(s, dir);
      NoRedRedSides(r, dir);
      NoRedRedSides(Link(r, dir), dir);
      NoRedRedSides(Link(r, !dir), dir);
    } else if IsRed(ch) && IsRed(Link(ch, dir)) {
      NoRedRedSides(r, dir);
      NoRedRedSides(Link(r, !dir), dir);
    } else if IsRed(ch) && IsRed(Link(ch, !dir)) {
      NoRedRedSides(Link(ch, !dir), dir);
      NoRedRedSides(r, dir);
      NoRedRedSides(Link(r, !dir), dir);
      NoRedRedSides(Link(r, dir), dir);
    } else {
      assert r == node;
      NoRedRedSides(node, dir);
    }
  }

  /** Insertion below a black node (or at a NULL link) leaves no red-red edge;
      below a red node it leaves at most one red-red edge, at the top. */
  lemma {:induction false} InsertEntryColors(t: Tree, x: Key)
    requires NoRedRed(t)
    ensures !IsRed(t) ==> NoRedRed(InsertEntry(t, x))
    ensures IsRed(t) ==> RedRootOneRedChild(InsertEntry(t, x))
  {
    if t.Node? {
      var dir := t.data < x;
      InsertEntryColors(Link(t, dir), x);
      NoRedRedSides(t, dir);
      InsertFixupColors(SetLink(t, dir, InsertEntry(Link(t, dir), x)), dir);
    }
  }

  /** The repair keeps black heights: a balanced node stays balanced, with the same
      black height. */
  lemma InsertFixupBlackHeight(node: Tree, dir: bool)
    requires node.Node? && Balanced(node)
    requires NoRedRed(Link(node, !dir))
    requires NoRedRed(Link(node, dir)) || RedRootOneRedChild(Link(node, dir))
    requires node.color == Red ==> !IsRed(Link(node, !dir)) && NoRedRed(Link(node, dir))
    ensures Balanced(InsertFixup(node, dir))
    ensures BlackHeight(InsertFixup(node, dir)) == BlackHeight(node)
  {
    var ch, s := Link(node, dir), Link(node, !dir);
    var r := InsertFixup(node, dir);
    BalancedSides(node, dir);
    if ch.Node? {
      BalancedSides(ch, dir);
      NoRedRedSides(ch, dir);
    }
    if IsRed(ch) && IsRed(s) {
      BalancedSides(s, dir);
      BalancedSides(r, dir);
      BalancedSides(Link(r, dir), dir);
      BalancedSides(Link(r, !dir), dir);
    } else if IsRed(ch) && IsRed(Link(ch, dir)) {
      BalancedSides(r, dir);
      BalancedSides(Link(r, !dir), dir);
    } else if IsRed(ch) && IsRed(Link(ch, !dir)) {
      BalancedSides(Link(ch, !dir), dir);
      BalancedSides(r, dir);
      BalancedSides(Link(r, !dir), dir);
      BalancedSides(Link(r, dir), dir);
    }
  }

  /** Insertion keeps black heights uniform and unchanged. */
  lemma {:induction false} InsertEntryBlackHeight(t: Tree, x: Key)
    requires NoRedRed(t) && Balanced(t)
    ensures Balanced(InsertEntry(t, x))
    ensures BlackHeight(InsertEntry(t, x)) == BlackHeight(t)
  {
    if t.Node? {
      var dir := t.data < x;
      var child := Link(t, dir);
      NoRedRedSides(t, dir);
      BalancedSides(t, dir);
      InsertEntryBlackHeight(child, x);
      InsertEntryColors(child, x);
      var n := SetLink(t, dir, InsertEntry(child, x));
      assert InsertEntry(t, x) == InsertFixup(n, dir);
      assert Link(n, !dir) == Link(t, !dir) && n.color == t.color;
      BalancedSides(n, dir);
      assert Balanced(n) && BlackHeight(n) == BlackHeight(t);
      InsertFixupBlackHeight(n, dir);
    }
  }

  /** The public insert keeps "no red node has a red child" and leaves a black root,
      whatever the key; it keeps black heights uniform, adding at most one black
      level (when the repair reaches a red root). */
  lemma TreeInsertColors(t: Tree, x: Key)
    requires NoRedRed(t)
    ensures NoRedRed(TreeInsert(t, x)) && !IsRed(TreeInsert(t, x))
    ensures Balanced(t) ==> Balanced(TreeInsert(t, x))
    ensures Balanced(t) ==> BlackHeight(t) <= BlackHeight(TreeInsert(t, x)) <= BlackHeight(t) + 1
  {
    InsertEntryColors(t, x);
    var r := InsertEntry(t, x);
    if Balanced(t) {
      InsertEntryBlackHeight(t, x);
    }
  }

  /** Insertion of an absent key into a valid red-black tree: the result is ordered,
      has no red-red edge, uniform black height and a black root, and its in-order
      sequence is the old one with the key in sorted position. */
  lemma TreeInsertValid(t: Tree, x: Key)
    requires Ordered(t) && RedBlack(t) && x !in InOrder(t)
    ensures Ordered(TreeInsert(t, x)) && RedBlack(TreeInsert(t, x))
    ensures InOrder(TreeInsert(t, x)) == InsertSorted(InOrder(t), x)
  {
    TreeInsertOrdered(t, x);
    TreeInsertColors(t, x);
  }

  // ---------------------------------------------------------------------------
  // Deletion: the in-order sequence
  // ---------------------------------------------------------------------------

  /** One level of `remove_entry` past the splice case: the node (after taking its
      predecessor's data, if it holds the target) gets the result of the recursive
      removal on side `dir`, possibly followed by `remove_balance`; in-order, that is
      the node with the recursive result as its child. */
  lemma RemovalStep(t: Tree, x: Key, fixDeficit: bool)
    requires t.Node? && !(t.data == x && (t.left == Nil || t.right == Nil))
    ensures
      var n := if t.data == x then t.(data := RightmostData(t.left)) else t;
      var target := if t.data == x then RightmostData(t.left) else x;
      var dir := n.data < target;
      InOrder(Removal(t, x, fixDeficit).0) == InOrder(SetLink(n, dir, Removal(Link(t, dir), target, fixDeficit).0))
  {
  }

  /** The splice case removes exactly the node's data from the in-order sequence. */
  lemma SpliceInOrder(t: Tree)
    requires Ordered(t) && t.Node? && (t.left == Nil || t.right == Nil)
    ensures InOrder(Splice(t).0) == Erase(InOrder(t), t.data)
  {
    OrderedParts(t);
    EraseAt(InOrder(t.left), t.data, InOrder(t.right));
  }

  /** One level of deletion at a two-child node holding the target: in-order, the
      node becomes the result of deleting the predecessor's data on the left, then
      that data, then the unchanged right subtree. */
  lemma PredecessorStep(t: Tree, fixDeficit: bool)
    requires t.Node? && t.left.Node? && t.right.Node?
    ensures InOrder(Removal(t, t.data, fixDeficit).0) ==
      InOrder(Removal(t.left, RightmostData(t.left), fixDeficit).0) + [RightmostData(t.left)] + InOrder(t.right)
  {
    var m := RightmostData(t.left);
    var n := t.(data := m);
    var (child, done) := Removal(t.left, m, fixDeficit);
    var p := SetLink(n, false, child);
    assert p == Node(t.color, child, m, t.right);
    assert Removal(t, t.data, fixDeficit) ==
      if fixDeficit && !done then RemoveBalance(p, false) else (p, done);
  }

  /** The two-children case: removing the predecessor's data from the left subtree
      and storing it in the node removes exactly the node's old data. */
  lemma PredecessorInOrder(t: Tree, fixDeficit: bool)
    requires Ordered(t) && t.Node? && t.left.Node? && t.right.Node?
    requires InOrder(Removal(t.left, RightmostData(t.left), fixDeficit).0) ==
      Erase(InOrder(t.left), RightmostData(t.left))
    ensures InOrder(Removal(t, t.data, fixDeficit).0) == Erase(InOrder(t), t.data)
  {
    OrderedParts(t);
    PredecessorStep(t, fixDeficit);
    ErasePredecessor(InOrder(t.left), t.data, InOrder(t.right));
  }

  /** The descent case: the key lies on side `dir` and is removed there. */
  lemma DescentInOrder(t: Tree, x: Key, fixDeficit: bool)
    requires Ordered(t) && t.Node? && t.data != x && x in InOrder(t)
    requires x in InOrder(Link(t, t.data < x))
    requires InOrder(Removal(Link(t, t.data < x), x, fixDeficit).0) == Erase(InOrder(Link(t, t.data < x)), x)
    ensures InOrder(Removal(t, x, fixDeficit).0) == Erase(InOrder(t), x)
  {
    var Node(c, l, k, r) := t;
    OrderedParts(t);
    RemovalStep(t, x, fixDeficit);
    if k < x {
      EraseAfter(InOrder(l), k, InOrder(r), x);
    } else {
      EraseBefore(InOrder(l), k, InOrder(r), x);
    }
  }

  /** In an ordered tree a key other than the root's lies on the side the descent takes. */
  lemma DescentSide(t: Tree, x: Key)
    requires Ordered(t) && t.Node? && t.data != x && x in InOrder(t)
    ensures x in InOrder(Link(t, t.data < x))
  {
    OrderedParts(t);
    if x in InOrder(t.left) {
      assert x < t.data;
    } else if x in InOrder(t.right) {
      assert t.data < x;
    }
  }

  /** Removing a key that occurs in an ordered tree removes exactly that key from the
      in-order sequence (whether or not the deficit is repaired). */
  lemma {:induction false} RemovalInOrder(t: Tree, x: Key, fixDeficit: bool)
    requires Ordered(t) && x in InOrder(t)
    ensures InOrder(Removal(t, x, fixDeficit).0) == Erase(InOrder(t), x)
  {
    var Node(c, l, k, r) := t;
    OrderedParts(t);
    if k == x && (l == Nil || r == Nil) {
      SpliceInOrder(t);
    } else if k == x {
      RemovalInOrder(l, RightmostData(l), fixDeficit);
      PredecessorInOrder(t, fixDeficit);
    } else {
      DescentSide(t, x);
      RemovalInOrder(Link(t, k < x), x, fixDeficit);
      DescentInOrder(t, x, fixDeficit);
    }
  }

  /** `remove` of a key that is absent from an ordered tree changes nothing. */
  lemma TreeRemoveAbsent(t: Tree, x: Key, fixDeficit: bool)
    requires Ordered(t) && x !in InOrder(t)
    ensures TreeRemove(t, x, fixDeficit) == t
  {
    FindEntryCorrect(t, x);
  }

  /** `remove` of a key that occurs in an ordered tree: the in-order sequence loses
      exactly that key, the order is kept, the key is no longer found, and the root is
      black or the tree is empty. */
  lemma TreeRemovePresent(t: Tree, x: Key, fixDeficit: bool)
    requires Ordered(t) && x in InOrder(t)
    ensures InOrder(TreeRemove(t, x, fixDeficit)) == Erase(InOrder(t), x)
    ensures Ordered(TreeRemove(t, x, fixDeficit))
    ensures !FindEntry(TreeRemove(t, x, fixDeficit), x)
    ensures !IsRed(TreeRemove(t, x, fixDeficit))
  {
    FindEntryCorrect(t, x);
    RemovalInOrder(t, x, fixDeficit);
    var r := TreeRemove(t, x, fixDeficit);
    assert InOrder(r) == InOrder(Removal(t, x, fixDeficit).0);
    EraseKeepsSorted(InOrder(t), x);
    EraseRemovesAll(InOrder(t), x);
    FindEntryCorrect(r, x);
  }

  // ---------------------------------------------------------------------------
  // Deletion: the colour invariants
  // ---------------------------------------------------------------------------

  /** As written, deletion only ever recolours a red node black or drops a node, so
      it never creates a red-red edge and never returns a red subtree root below a
      black one. */
  lemma {:induction false} RemovalColors(t: Tree, x: Key)
    requires NoRedRed(t)
    ensures NoRedRed(Removal(t, x, false).0)
    ensures IsRed(Removal(t, x, false).0) ==> IsRed(t)
  {
    match t
    case Nil =>
    case Node(c, l, k, r) =>
      if k == x && (l == Nil || r == Nil) {
        NoRedRedSides(t, l == Nil);
      } else {
        var n := if k == x then t.(data := RightmostData(l)) else t;
        var target := if k == x then RightmostData(l) else x;
        var dir := n.data < target;
        NoRedRedSides(t, dir);
        RemovalColors(Link(t, dir), target);
        var res := Removal(t, x, false);
        assert res.0 == SetLink(n, dir, Removal(Link(t, dir), target, false).0);
        NoRedRedSides(res.0, dir);
      }
  }

  /** The public `remove` as written keeps "no red node has a red child" and leaves a
      black root (or an empty tree). */
  lemma TreeRemoveColors(t: Tree, x: Key)
    requires NoRedRed(t) && !IsRed(t)
    ensures NoRedRed(TreeRemove(t, x, false)) && !IsRed(TreeRemove(t, x, false))
  {
    RemovalColors(t, x);
  }

  // ---------------------------------------------------------------------------
  // Deletion: black heights
  // ---------------------------------------------------------------------------

  /** A valid three-node tree from which `remove` as written produces a tree whose
      black heights differ: deleting the black leaf 1 sets no `*done`, and the
      deficit is never repaired. With the corrected guard the sibling 3 turns red
      and the tree stays balanced. */
  lemma AsWrittenRemoveUnbalances()
    ensures var t := Node(Black, Node(Black, Nil, 1, Nil), 2, Node(Black, Nil, 3, Nil));
      RedBlack(t) && Ordered(t) &&
      TreeRemove(t, 1, false) == Node(Black, Nil, 2, Node(Black, Nil, 3, Nil)) &&
      !Balanced(TreeRemove(t, 1, false)) &&
      TreeRemove(t, 1, true) == Node(Black, Nil, 2, Node(Red, Nil, 3, Nil)) &&
      RedBlack(TreeRemove(t, 1, true))
  {
    var t := Node(Black, Node(Black, Nil, 1, Nil), 2, Node(Black, Nil, 3, Nil));
    assert InOrder(t) == [1, 2, 3];
  }

  /** The case analysis of `remove_balance` at `u`, whose side `d` is one black level
      short of its black sibling: the subtree ends valid, never red above a black
      `u`, and either regains the missing level (`*done` set) or is uniformly one level
      short with a black root. A red `u` always regains it. */
  lemma BalanceBlackSiblingRestores(u: Tree, d: bool)
    requires u.Node?
    requires NoRedRed(Link(u, d)) && NoRedRed(Link(u, !d))
    requires Balanced(Link(u, d)) && Balanced(Link(u, !d))
    requires BlackHeight(Link(u, !d)) == BlackHeight(Link(u, d)) + 1
    requires !IsRed(Link(u, d)) && !IsRed(Link(u, !d))
    ensures var (r, done) := BalanceBlackSibling(u, d);
      NoRedRed(r) && Balanced(r) && (IsRed(r) ==> IsRed(u)) &&
      (done ==> BlackHeight(r) == BlackHeight(Link(u, !d)) + (if u.color == Black then 1 else 0)) &&
      (!done ==> BlackHeight(r) == BlackHeight(Link(u, !d)) && !IsRed(r)) &&
      (IsRed(u) ==> done)
  {
    var v := Link(u, !d);
    BalancedSides(v, d);
    NoRedRedSides(v, d);
    if !IsRed(v.left) && !IsRed(v.right) {
      FlipRestores(u, d);
    } else if IsRed(Link(v, !d)) {
      SingleRestores(u, d);
    } else {
      DoubleRestores(u, d);
    }
  }

  /** Both nephews black: the sibling turns red, which takes one black level off
      side `!d` too, and a red `u` turning black puts it back. */
  lemma FlipRestores(u: Tree, d: bool)
    requires u.Node? && Link(u, !d).Node?
    requires NoRedRed(Link(u, d)) && NoRedRed(Link(u, !d))
    requires Balanced(Link(u, d)) && Balanced(Link(u, !d))
    requires BlackHeight(Link(u, !d)) == BlackHeight(Link(u, d)) + 1
    requires !IsRed(Link(u, d)) && !IsRed(Link(u, !d))
    requires !IsRed(Link(u, !d).left) && !IsRed(Link(u, !d).right)
    ensures var (r, done) := BalanceBlackSibling(u, d);
      NoRedRed(r) && Balanced(r) && !IsRed(r) &&
      (done ==> BlackHeight(r) == BlackHeight(Link(u, !d)) + (if u.color == Black then 1 else 0)) &&
      (!done ==> BlackHeight(r) == BlackHeight(Link(u, !d))) &&
      (IsRed(u) ==> done)
  {
    var v := Link(u, !d);
    var w := v.(color := Red);
    var q := SetLink(u, !d, w);
    var r := q.(color := Black);
    assert BalanceBlackSibling(u, d).0 == r;
    NoRedRedSides(r, d);
    BalancedSides(r, d);
    BalancedSides(v, d);
  }

  /** Far nephew red: one rotation; the new root takes `u`'s colour, and both of its
      children, now black, have the sibling's black height. */
  lemma SingleRestores(u: Tree, d: bool)
    requires u.Node? && Link(u, !d).Node?
    requires NoRedRed(Link(u, d)) && NoRedRed(Link(u, !d))
    requires Balanced(Link(u, d)) && Balanced(Link(u, !d))
    requires BlackHeight(Link(u, !d)) == BlackHeight(Link(u, d)) + 1
    requires !IsRed(Link(u, d)) && !IsRed(Link(u, !d))
    requires IsRed(Link(Link(u, !d), !d))
    ensures var (r, done) := BalanceBlackSibling(u, d);
      NoRedRed(r) && Balanced(r) && (IsRed(r) ==> IsRed(u)) && done &&
      BlackHeight(r) == BlackHeight(Link(u, !d)) + (if u.color == Black then 1 else 0)
  {
    var v := Link(u, !d);
    NoRedRedSides(v, d);
    BalancedSides(v, d);
    var p := SingleRotate(u, d);
    var a := Link(p, d).(color := Black);
    var b := Link(p, !d).(color := Black);
    var q := SetLink(SetLink(p, d, a), !d, b);
    var r := q.(color := u.color);
    assert BalanceBlackSibling(u, d).0 == r;
    NoRedRedSides(Link(p, !d), d);
    BalancedSides(Link(p, !d), d);
    NoRedRedSides(a, d);
    BalancedSides(a, d);
    NoRedRedSides(r, d);
    BalancedSides(r, d);
  }

  /** Far nephew black, near nephew red: two rotations bring the near nephew up; the
      new root takes `u`'s colour and both of its children, now black, have the
      sibling's black height. */
  lemma DoubleRestores(u: Tree, d: bool)
    requires u.Node? && Link(u, !d).Node?
    requires NoRedRed(Link(u, d)) && NoRedRed(Link(u, !d))
    requires Balanced(Link(u, d)) && Balanced(Link(u, !d))
    requires BlackHeight(Link(u, !d)) == BlackHeight(Link(u, d)) + 1
    requires !IsRed(Link(u, d)) && !IsRed(Link(u, !d))
    requires !IsRed(Link(Link(u, !d), !d)) && IsRed(Link(Link(u, !d), d))
    ensures var (r, done) := BalanceBlackSibling(u, d);
      NoRedRed(r) && Balanced(r) && (IsRed(r) ==> IsRed(u)) && done &&
      BlackHeight(r) == BlackHeight(Link(u, !d)) + (if u.color == Black then 1 else 0)
  {
    var v := Link(u, !d);
    var g := Link(v, d);
    NoRedRedSides(v, d);
    BalancedSides(v, d);
    NoRedRedSides(g, d);
    BalancedSides(g, d);
    var p := DoubleRotate(u, d);
    var a := Link(p, d).(color := Black);
    var b := Link(p, !d).(color := Black);
    var q := SetLink(SetLink(p, d, a), !d, b);
    var r := q.(color := u.color);
    assert BalanceBlackSibling(u, d).0 == r;
    NoRedRedSides(a, d);
    BalancedSides(a, d);
    NoRedRedSides(b, d);
    BalancedSides(b, d);
    NoRedRedSides(r, d);
    BalancedSides(r, d);
  }

  /** `remove_balance(node, d)` on a node whose side `d` is one black level short:
      a red sibling is rotated up first, which puts a red `u` with a black sibling
      below a black root, and the case analysis there always regains the level. */
  lemma RemoveBalanceRestores(node: Tree, d: bool)
    requires node.Node?
    requires NoRedRed(Link(node, d)) && NoRedRed(Link(node, !d))
    requires Balanced(Link(node, d)) && Balanced(Link(node, !d))
    requires BlackHeight(Link(node, !d)) == BlackHeight(Link(node, d)) + 1
    requires !IsRed(Link(node, d))
    requires IsRed(node) ==> !IsRed(Link(node, !d))
    ensures var (r, done) := RemoveBalance(node, d);
      NoRedRed(r) && Balanced(r) && (IsRed(r) ==> IsRed(node)) &&
      (done ==> BlackHeight(r) == BlackHeight(Link(node, !d)) + (if node.color == Black then 1 else 0)) &&
      (!done ==> BlackHeight(r) == BlackHeight(Link(node, !d)) && !IsRed(r)) &&
      (IsRed(node) ==> done)
  {
    var v := Link(node, !d);
    if IsRed(v) {
      NoRedRedSides(v, d);
      BalancedSides(v, d);
      var top := SingleRotate(node, d);
      var u := Link(top, d);
      BalanceBlackSiblingRestores(u, d);
      var (u', done) := BalanceBlackSibling(u, d);
      var r := SetLink(top, d, u');
      assert RemoveBalance(node, d) == (r, done);
      NoRedRedSides(r, d);
      BalancedSides(r, d);
    } else {
      BalanceBlackSiblingRestores(node, d);
    }
  }

  /** With the corrected guard, one level of deletion keeps the subtree valid; it
      either keeps its black height (`*done` set) or is uniformly one black level
      short with a black root, which the caller then repairs. The root turns red
      only if it was red. */
  lemma {:induction false} RemovalBalanced(t: Tree, x: Key)
    requires NoRedRed(t) && Balanced(t)
    ensures var (r, done) := Removal(t, x, true);
      NoRedRed(r) && Balanced(r) && (IsRed(r) ==> IsRed(t)) &&
      (done ==> BlackHeight(r) == BlackHeight(t)) &&
      (!done ==> BlackHeight(r) + 1 == BlackHeight(t) && !IsRed(r))
  {
    match t
    case Nil =>
    case Node(c, l, k, rt) =>
      if k == x && (l == Nil || rt == Nil) {
        SpliceBalanced(t);
      } else {
        var n := if k == x then t.(data := RightmostData(l)) else t;
        var target := if k == x then RightmostData(l) else x;
        var dir := n.data < target;
        NoRedRedSides(t, dir);
        BalancedSides(t, dir);
        RemovalBalanced(Link(t, dir), target);
        var (child, done) := Removal(Link(t, dir), target, true);
        var m := SetLink(n, dir, child);
        NoRedRedSides(m, dir);
        BalancedSides(m, dir);
        if !done {
          RemoveBalanceRestores(m, dir);
        }
      }
  }

  /** The splice case keeps the subtree valid: a black node with no red child leaves
      a NULL link one black level short; otherwise `*done` is set. */
  lemma SpliceBalanced(t: Tree)
    requires t.Node? && (t.left == Nil || t.right == Nil)
    requires NoRedRed(t) && Balanced(t)
    ensures var (r, done) := Splice(t);
      NoRedRed(r) && Balanced(r) && !IsRed(r) &&
      (done ==> BlackHeight(r) == BlackHeight(t)) &&
      (!done ==> BlackHeight(r) + 1 == BlackHeight(t) && r == Nil)
  {
    var d := t.left == Nil;
    NoRedRedSides(t, d);
    BalancedSides(t, d);
    var temp := Link(t, d);
    if temp.Node? {
      BalancedSides(temp, d);
      NoRedRedSides(temp, d);
    }
  }

  /** The corrected `remove` keeps a valid red-black tree valid. */
  lemma TreeRemoveFixedValid(t: Tree, x: Key)
    requires RedBlack(t)
    ensures RedBlack(TreeRemove(t, x, true))
  {
    RemovalBalanced(t, x);
  }

  /** A node holding the target with two children keeps its place and colour: its
      data becomes the rightmost key of its left subtree, that key is removed from the
      left subtree instead, and the right subtree is untouched (as written). */
  lemma RemovalTwoChildren(t: Tree)
    requires t.Node? && t.left.Node? && t.right.Node?
    ensures var r := Removal(t, t.data, false).0;
      r.Node? && r.color == t.color && r.data == RightmostData(t.left) &&
      r.left == Removal(t.left, RightmostData(t.left), false).0 && r.right == t.right
  {
  }

  /** The corrected `remove` of a key that occurs in a valid, ordered red-black tree:
      the in-order sequence loses exactly that key, and the result is again an
      ordered, valid red-black tree that no longer holds the key. */
  lemma TreeRemoveFixed(t: Tree, x: Key)
    requires Ordered(t) && RedBlack(t) && x in InOrder(t)
    ensures InOrder(TreeRemove(t, x, true)) == Erase(InOrder(t), x)
    ensures Ordered(TreeRemove(t, x, true)) && RedBlack(TreeRemove(t, x, true))
    ensures !FindEntry(TreeRemove(t, x, true), x)
  {
    TreeRemovePresent(t, x, true);
    TreeRemoveFixedValid(t, x);
  }

  /** Inserting an absent key and removing it again gives back the same in-order
      sequence, with or without the deficit repair. */
  lemma InsertThenRemove(t: Tree, x: Key, fixDeficit: bool)
    requires Ordered(t) && x !in InOrder(t)
    ensures InOrder(TreeRemove(TreeInsert(t, x), x, fixDeficit)) == InOrder(t)
  {
    TreeInsertOrdered(t, x);
    var s := TreeInsert(t, x);
    assert x in multiset(InOrder(s));
    TreeRemovePresent(s, x, fixDeficit);
    EraseInsertSorted(InOrder(t), x);
  }

  // ---------------------------------------------------------------------------
  // The height guarantee
  // ---------------------------------------------------------------------------

  /** The number of nodes on the longest path from the root down to a NULL link. */
  function Height(t: Tree): nat {
    match t
    case Nil => 0
    case Node(_, l, _, r) => 1 + (if Height(l) < Height(r) then Height(r) else Height(l))
  }

  function Pow2(n: nat): nat {
    if n == 0 then 1 else 2 * Pow2(n - 1)
  }

  /** A balanced tree of black height `h` holds at least `2^h - 1` nodes. */
  lemma {:induction false} SizeAtLeastBlackHeight(t: Tree)
    requires Balanced(t)
    ensures Pow2(BlackHeight(t)) <= Size(t) + 1
  {
    if t.Node? {
      SizeAtLeastBlackHeight(t.left);
      SizeAtLeastBlackHeight(t.right);
    }
  }

  /** With no red-red edge, a path meets at most one red node per black one, plus a
      red root. */
  lemma {:induction false} HeightAtMostTwiceBlackHeight(t: Tree)
    requires NoRedRed(t) && Balanced(t)
    ensures Height(t) <= 2 * BlackHeight(t) + (if IsRed(t) then 1 else 0)
  {
    if t.Node? {
      HeightAtMostTwiceBlackHeight(t.left);
      HeightAtMostTwiceBlackHeight(t.right);
    }
  }

  lemma {:induction false} Pow2Add(a: nat, b: nat)
    ensures Pow2(a + b) == Pow2(a) * Pow2(b)
  {
    if a > 0 {
      Pow2Add(a - 1, b);
    }
  }

  lemma {:induction false} Pow2Monotone(a: nat, b: nat)
    requires a <= b
    ensures Pow2(a) <= Pow2(b)
  {
    if a < b {
      Pow2Monotone(a, b - 1);
    }
  }

  /** The red-black height guarantee: a valid tree of `n` nodes has height at most
      `2 log2(n + 1)`, stated without logarithms as `2^height <= (n + 1)^2`. */
  lemma HeightBound(t: Tree)
    requires RedBlack(t)
    ensures Pow2(Height(t)) <= (Size(t) + 1) * (Size(t) + 1)
  {
    var h := BlackHeight(t);
    HeightAtMostTwiceBlackHeight(t);
    SizeAtLeastBlackHeight(t);
    Pow2Monotone(Height(t), h + h);
    Pow2Add(h, h);
    SquareMonotone(Pow2(h), Size(t) + 1);
  }

  lemma SquareMonotone(a: nat, b: nat)
    requires a <= b
    ensures a * a <= b * b
  {
    assert a * a <= a * b;
  }
}
