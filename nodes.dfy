/** The node of the red-black tree (node.h): its layout, its constructor and the
    recursive teardown `tree_clear`. */
module RBNodes {

  /** The element type. The C++ class is a template over `T`; the model fixes one
      totally ordered key type. */
  type Key = int

  /** node.h keeps the colour in an int field: 1 is red, 0 is black. */
  datatype Color = Black | Red

  /** A link to a node: `Nil` is a NULL pointer, `Node` an RBNode with its colour,
      `link[0]` (left), `data` and `link[1]` (right). Each node is owned by exactly one
      link, so a subtree is a value. */
  datatype Tree = Nil | Node(color: Color, left: Tree, data: Key, right: Tree)

  /** The RBNode constructor: the arguments are stored as given; by default the data
      is `T()` (0 for the integer key), both links are NULL and the colour is red. */
  function NewNode(d: Key := 0, l: Tree := Nil, r: Tree := Nil, c: Color := Red): (n: Tree)
    ensures n.Node? && n.data == d && n.left == l && n.right == r && n.color == c
  {
    Node(c, l, d, r)
  }

  /** A node built from its data alone is a red leaf; with no argument at all it also
      holds the default key. */
  lemma NewNodeDefaults(d: Key)
    ensures NewNode(d).color == Red
    ensures NewNode(d).left == Nil && NewNode(d).right == Nil
    ensures NewNode() == Node(Red, Nil, 0, Nil)
  {
  }

  /** The number of nodes of a tree. */
  function Size(t: Tree): nat {
    match t
    case Nil => 0
    case Node(_, l, _, r) => Size(l) + 1 + Size(r)
  }

  /** The data of all nodes, with multiplicity. */
  function Elements(t: Tree): multiset<Key> {
    match t
    case Nil => multiset{}
    case Node(_, l, d, r) => Elements(l) + multiset{d} + Elements(r)
  }

  /** The order in which `tree_clear` releases the nodes: both subtrees, then the node. */
  function PostOrder(t: Tree): (s: seq<Key>)
    ensures |s| == Size(t)
    ensures multiset(s) == Elements(t)
  {
    match t
    case Nil => []
    case Node(_, l, d, r) => PostOrder(l) + PostOrder(r) + [d]
  }

  /** `tree_clear`: releases the left subtree, then the right one, then the node, and
      writes NULL back through the reference. `released` lists the data of the released
      nodes in release order; every node is released exactly once. */
  method TreeClear(node: Tree) returns (cleared: Tree, released: seq<Key>)
    ensures cleared == Nil
    ensures released == PostOrder(node)
    ensures |released| == Size(node) && multiset(released) == Elements(node)
    ensures node == Nil ==> released == []
    decreases node
  {
    if node == Nil {
      return Nil, [];
    }
    var left, fromLeft := TreeClear(node.left);
    var right, fromRight := TreeClear(node.right);
    released := fromLeft + fromRight + [node.data];
    cleared := Nil;
  }
}
