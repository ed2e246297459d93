/** The minimal node types `TestNode` (src/test.rs) and `PlainTree`
    (src/plain.rs), together with the default rotations every node type
    inherits from `BinaryTree` (src/lib.rs). A plain node keeps no
    statistics, so its child-link primitives are bare swaps; the counting
    node of module CountNode is specified against these definitions. */
module Plain {
  import opened Common

  /** A subtree: `Nil` is an absent child (`None`). A node handed to a
      caller is always a `Node`. */
  datatype Tree<T> = Nil | Node(left: Tree<T>, value: T, right: Tree<T>)

  /** The in-order sequence of values: the abstraction every positional
      operation is specified against. */
  function InOrder<T>(t: Tree<T>): seq<T> {
    match t
    case Nil => []
    case Node(l, v, r) => InOrder(l) + [v] + InOrder(r)
  }

  /** Length of the longest downward path; an absent subtree has height -1,
      a childless node height 0. */
  function Height<T>(t: Tree<T>): int {
    match t
    case Nil => -1
    case Node(l, _, r) => 1 + Max(Height(l), Height(r))
  }

  /** `PlainTree::new` / `TestNode::new`: a childless node. */
  function New<T>(v: T): (n: Tree<T>)
    ensures n.Node? && n.value == v
    ensures InOrder(n) == [v] && Height(n) == 0
  {
    Node(Nil, v, Nil)
  }

  /** `PlainTree::root`: a plain tree is its own, always present, root. */
  function Root<T>(t: Tree<T>): (r: Option<Tree<T>>)
    requires t.Node?
    ensures r.Some? && InOrder(r.value) == InOrder(t) && r.value.value == t.value
  {
    Some(t)
  }

  // Child links. Each returns the node after the call and the subtree the
  // call hands back.

  /** `detach_left`: take the left child, leaving the slot empty. */
  function DetachLeft<T>(t: Tree<T>): (r: (Tree<T>, Tree<T>))
    requires t.Node?
    ensures r.0.Node? && r.0.left.Nil? && r.0.value == t.value && r.0.right == t.right
    ensures r.1 == t.left
    ensures InOrder(r.1) + InOrder(r.0) == InOrder(t)
  {
    (t.(left := Nil), t.left)
  }

  /** `detach_right`: take the right child, leaving the slot empty. */
  function DetachRight<T>(t: Tree<T>): (r: (Tree<T>, Tree<T>))
    requires t.Node?
    ensures r.0.Node? && r.0.right.Nil? && r.0.value == t.value && r.0.left == t.left
    ensures r.1 == t.right
    ensures InOrder(r.0) + InOrder(r.1) == InOrder(t)
  {
    (t.(right := Nil), t.right)
  }

  /** `insert_left`: install `st` as the left child and hand back exactly
      the previous occupant. */
  function InsertLeft<T>(t: Tree<T>, st: Tree<T>): (r: (Tree<T>, Tree<T>))
    requires t.Node?
    ensures r.0.Node? && r.0.left == st && r.0.value == t.value && r.0.right == t.right
    ensures r.1 == t.left
    ensures InOrder(r.0) == InOrder(st) + [t.value] + InOrder(t.right)
  {
    (t.(left := st), t.left)
  }

  /** `insert_right`: install `st` as the right child and hand back exactly
      the previous occupant. */
  function InsertRight<T>(t: Tree<T>, st: Tree<T>): (r: (Tree<T>, Tree<T>))
    requires t.Node?
    ensures r.0.Node? && r.0.right == st && r.0.value == t.value && r.0.left == t.left
    ensures r.1 == t.right
    ensures InOrder(r.0) == InOrder(t.left) + [t.value] + InOrder(st)
  {
    (t.(right := st), t.right)
  }

  /** Swapping a subtree in and back out restores the node: the swap
      contract of `insert_left`. */
  lemma InsertLeftSwapsBack<T>(t: Tree<T>, st: Tree<T>)
    requires t.Node?
    ensures InsertLeft(InsertLeft(t, st).0, InsertLeft(t, st).1) == (t, st)
    ensures InsertLeft(DetachLeft(t).0, DetachLeft(t).1) == (t, Nil)
  {
  }

  /** The default `rotate_left` of `BinaryTree`, built from the child-link
      primitives exactly as the trait method is. */
  function RotateLeft<T>(t: Tree<T>): (r: Rotated<Tree<T>>)
    requires t.Node?
    ensures r.ok <==> t.right.Node?
    ensures !r.ok ==> r.node == t
    ensures r.ok ==> r.node == Node(Node(t.left, t.value, t.right.left), t.right.value, t.right.right)
    ensures r.node.Node? && InOrder(r.node) == InOrder(t)
  {
    var (self1, sub) := DetachRight(t);
    if sub.Nil? then Rotated(false, self1)
    else
      var (sub1, mid) := DetachLeft(sub);
      var (self2, _) := InsertRight(self1, mid);
      // mem::swap(self, self2): the old right child now sits on top
      var (top, _) := InsertLeft(sub1, self2);
      Rotated(true, top)
  }

  /** The default `rotate_right` of `BinaryTree`: the mirror image. */
  function RotateRight<T>(t: Tree<T>): (r: Rotated<Tree<T>>)
    requires t.Node?
    ensures r.ok <==> t.left.Node?
    ensures !r.ok ==> r.node == t
    ensures r.ok ==> r.node == Node(t.left.left, t.left.value, Node(t.left.right, t.value, t.right))
    ensures r.node.Node? && InOrder(r.node) == InOrder(t)
  {
    var (self1, sub) := DetachLeft(t);
    if sub.Nil? then Rotated(false, self1)
    else
      var (sub1, mid) := DetachRight(sub);
      var (self2, _) := InsertLeft(self1, mid);
      var (top, _) := InsertRight(sub1, self2);
      Rotated(true, top)
  }

  /** A left rotation followed by a right rotation restores the tree. */
  lemma RotateLeftThenRight<T>(t: Tree<T>)
    requires t.Node? && t.right.Node?
    ensures RotateRight(RotateLeft(t).node) == Rotated(true, t)
  {
  }

  /** A right rotation followed by a left rotation restores the tree. */
  lemma RotateRightThenLeft<T>(t: Tree<T>)
    requires t.Node? && t.left.Node?
    ensures RotateLeft(RotateRight(t).node) == Rotated(true, t)
  {
  }

  /** The fixture of the rotate and walk tests: 20 with left child 10 and
      right child 30, which has left child 25. */
  function TestTree(): Tree<nat> {
    Node(New(10), 20, Node(New(25), 30, Nil))
  }

  /** The rotate test of `PlainTree`, `TestNode` and `TestTree`. */
  lemma RotateScenario()
    ensures var once := RotateLeft(TestTree());
            && once.ok
            && once.node.value == 30
            && once.node.left.value == 20
            && once.node.left.left.value == 10
            && once.node.left.right.value == 25
            && RotateRight(once.node) == Rotated(true, TestTree())
            && InOrder(once.node) == [10, 20, 25, 30]
  {
  }
}
