/** `CountNode` of src/count.rs: a node that caches the number of values
    in its subtree (`count`) and the subtree's height (`height`). Every
    child-link change recomputes both (`update_stats`), and `rebalance`
    performs the AVL rotations. Each operation is specified against the
    plain node of module Plain through `Shape`, which forgets the caches. */
module CountNode {
  import opened Common
  import Plain
  import Level

  /** An optional owned subtree: `Empty` is `None`. The caches are what the
      node stores; `Valid` says when they are right. */
  datatype Subtree<T> = Empty | Node(left: Subtree<T>, value: T, right: Subtree<T>, count: nat, height: nat)

  /** The count a parent reads off a child slot: 0 when it is absent. */
  function CountOf<T>(t: Subtree<T>): nat {
    if t.Empty? then 0 else t.count
  }

  /** The height a parent reads off a child slot for its balance factor:
      -1 when it is absent. */
  function HeightOf<T>(t: Subtree<T>): int {
    if t.Empty? then -1 else t.height
  }

  /** The plain tree underneath, caches forgotten. */
  function Shape<T>(t: Subtree<T>): (s: Plain.Tree<T>)
    ensures s.Nil? <==> t.Empty?
  {
    match t
    case Empty => Plain.Nil
    case Node(l, v, r, _, _) => Plain.Node(Shape(l), v, Shape(r))
  }

  /** The in-order sequence of values: the list a `CountTree` represents. */
  function Elems<T>(t: Subtree<T>): seq<T> {
    Plain.InOrder(Shape(t))
  }

  /** Every cache in the subtree is what `update_stats` would compute. */
  predicate Valid<T>(t: Subtree<T>) {
    match t
    case Empty => true
    case Node(l, _, r, c, h) =>
      && Valid(l) && Valid(r)
      && c == CountOf(l) + CountOf(r) + 1
      && h == 1 + Max(HeightOf(l), HeightOf(r))
  }

  /** The AVL condition: at every node the cached heights of the two
      children differ by at most one. */
  predicate Avl<T>(t: Subtree<T>) {
    match t
    case Empty => true
    case Node(l, _, r, _, _) =>
      && Avl(l) && Avl(r)
      && -1 <= HeightOf(l) - HeightOf(r) <= 1
  }

  /** Valid caches hold the subtree's size and height. */
  lemma {:induction false} ValidCaches<T>(t: Subtree<T>)
    ensures Valid(t) ==> CountOf(t) == |Elems(t)|
    ensures Valid(t) ==> HeightOf(t) == Plain.Height(Shape(t))
  {
    match t
    case Empty =>
    case Node(l, _, r, _, _) =>
      ValidCaches(l);
      ValidCaches(r);
  }

  /** With valid caches, the AVL condition is exactly what the test suite's
      `compute_level` calls balanced within tolerance 1. */
  lemma {:induction false} AvlIsLevelBalanced<T>(t: Subtree<T>)
    requires Valid(t)
    ensures Avl(t) <==> Level.ComputeLevel(Shape(t), 1).IsBalanced()
    ensures Level.ComputeLevel(Shape(t), 1).AsU32() == HeightOf(t) + 1
  {
    ValidCaches(t);
    match t
    case Empty =>
    case Node(l, _, r, _, _) =>
      AvlIsLevelBalanced(l);
      AvlIsLevelBalanced(r);
      ValidCaches(l);
      ValidCaches(r);
  }

  /** `CountNode::new`: a childless node counting itself, of height 0. */
  function New<T>(v: T): (n: Subtree<T>)
    ensures Valid(n) && Avl(n)
    ensures Shape(n) == Plain.New(v)
    ensures Elems(n) == [v]
  {
    Node(Empty, v, Empty, 1, 0)
  }

  /** `lcount`: the number of values in the left subtree. */
  function LCount<T>(n: Subtree<T>): (c: nat)
    requires n.Node?
    ensures Valid(n) ==> c == |Elems(n.left)|
  {
    ValidCaches(n.left);
    CountOf(n.left)
  }

  /** `rcount`: the number of values in the right subtree. */
  function RCount<T>(n: Subtree<T>): (c: nat)
    requires n.Node?
    ensures Valid(n) ==> c == |Elems(n.right)|
  {
    ValidCaches(n.right);
    CountOf(n.right)
  }

  /** `balance_factor`: left height minus right height, an absent child
      counting as -1. */
  function BalanceFactor<T>(n: Subtree<T>): (bf: int)
    requires n.Node?
    ensures bf > 0 ==> n.left.Node?
    ensures bf < 0 ==> n.right.Node?
    ensures Valid(n) ==> bf == Plain.Height(Shape(n.left)) - Plain.Height(Shape(n.right))
  {
    ValidCaches(n.left);
    ValidCaches(n.right);
    HeightOf(n.left) - HeightOf(n.right)
  }

  /** `update_stats`: recompute this node's count and height from its
      children's caches. An absent child contributes height 0 to the
      maximum, and one is added only when the node has a child (count
      above 1); with valid children this is one more than the taller
      child, an absent one counting as -1. */
  function UpdateStats<T>(n: Subtree<T>): (r: Subtree<T>)
    requires n.Node?
    ensures r.Node? && r.left == n.left && r.value == n.value && r.right == n.right
    ensures Shape(r) == Shape(n)
    ensures Valid(n.left) && Valid(n.right) ==> Valid(r)
    ensures Valid(n.left) && Valid(n.right) ==> |Elems(r)| == r.count
  {
    var c := CountOf(n.left) + CountOf(n.right) + 1;
    var lh := if n.left.Empty? then 0 else n.left.height;
    var rh := if n.right.Empty? then 0 else n.right.height;
    var h := if c > 1 then Max(lh, rh) + 1 else Max(lh, rh);
    var r := n.(count := c, height := h);
    ValidCaches(r);
    r
  }

  /** A node linking `l`, `v` and `r` with freshly computed statistics. */
  function Make<T>(l: Subtree<T>, v: T, r: Subtree<T>): (n: Subtree<T>)
    ensures n.Node? && n.left == l && n.value == v && n.right == r
    ensures Shape(n) == Plain.Node(Shape(l), v, Shape(r))
    ensures Elems(n) == Elems(l) + [v] + Elems(r)
    ensures Valid(l) && Valid(r) ==> Valid(n)
  {
    UpdateStats(Node(l, v, r, 0, 0))
  }

  // Child links: each returns the node after the call (statistics
  // recomputed) and the subtree handed back, exactly as the plain node's
  // swap does.

  /** `detach_left`. */
  function DetachLeft<T>(n: Subtree<T>): (r: (Subtree<T>, Subtree<T>))
    requires n.Node?
    ensures Shape(r.0) == Plain.DetachLeft(Shape(n)).0
    ensures Shape(r.1) == Plain.DetachLeft(Shape(n)).1 && r.1 == n.left
    ensures Valid(n) ==> Valid(r.0) && Valid(r.1) && r.0.count + CountOf(r.1) == n.count
  {
    (UpdateStats(n.(left := Empty)), n.left)
  }

  /** `detach_right`. */
  function DetachRight<T>(n: Subtree<T>): (r: (Subtree<T>, Subtree<T>))
    requires n.Node?
    ensures Shape(r.0) == Plain.DetachRight(Shape(n)).0
    ensures Shape(r.1) == Plain.DetachRight(Shape(n)).1 && r.1 == n.right
    ensures Valid(n) ==> Valid(r.0) && Valid(r.1) && r.0.count + CountOf(r.1) == n.count
  {
    (UpdateStats(n.(right := Empty)), n.right)
  }

  /** `insert_left`: install `st`, hand back the previous left child. */
  function InsertLeft<T>(n: Subtree<T>, st: Subtree<T>): (r: (Subtree<T>, Subtree<T>))
    requires n.Node?
    ensures r.0 == Make(st, n.value, n.right) && r.1 == n.left
    ensures Shape(r.0) == Plain.InsertLeft(Shape(n), Shape(st)).0
    ensures Shape(r.1) == Plain.InsertLeft(Shape(n), Shape(st)).1
    ensures Valid(n.right) && Valid(st) ==> Valid(r.0)
  {
    (UpdateStats(n.(left := st)), n.left)
  }

  /** `insert_right`: install `st`, hand back the previous right child. */
  function InsertRight<T>(n: Subtree<T>, st: Subtree<T>): (r: (Subtree<T>, Subtree<T>))
    requires n.Node?
    ensures r.0 == Make(n.left, n.value, st) && r.1 == n.right
    ensures Shape(r.0) == Plain.InsertRight(Shape(n), Shape(st)).0
    ensures Shape(r.1) == Plain.InsertRight(Shape(n), Shape(st)).1
    ensures Valid(n.left) && Valid(st) ==> Valid(r.0)
  {
    (UpdateStats(n.(right := st)), n.right)
  }

  /** Counting statistics do not depend on the order of child-link
      changes: detaching and reinstalling the left child gives back the
      node with valid caches. */
  lemma InsertLeftSwapsBack<T>(n: Subtree<T>)
    requires Valid(n) && n.Node?
    ensures InsertLeft(DetachLeft(n).0, DetachLeft(n).1) == (n, Empty)
  {
    UpdateStatsFresh(n);
  }

  /** The default `rotate_left`, run on a counting node: the same
      rearrangement as the plain rotation, with the two moved nodes'
      statistics recomputed child first. Only the children's caches need
      to be valid; the node's own may be stale, as it is inside
      `rebalance`. */
  function RotateLeft<T>(n: Subtree<T>): (r: Rotated<Subtree<T>>)
    requires n.Node?
    ensures r.ok <==> n.right.Node?
    ensures r.node.Node? && Shape(r.node) == Plain.RotateLeft(Shape(n)).node
    ensures r.ok ==> r.node == Make(Make(n.left, n.value, n.right.left), n.right.value, n.right.right)
    ensures !r.ok && Valid(n) ==> r.node == n
    ensures Valid(n.left) && Valid(n.right) ==> Valid(r.node)
  {
    var (self1, sub) := DetachRight(n);
    if sub.Empty? then Rotated(false, self1)
    else
      var (sub1, mid) := DetachLeft(sub);
      var (self2, _) := InsertRight(self1, mid);
      // mem::swap(self, self2): the old right child now sits on top
      var (top, _) := InsertLeft(sub1, self2);
      Rotated(true, top)
  }

  /** The default `rotate_right`: the mirror image. */
  function RotateRight<T>(n: Subtree<T>): (r: Rotated<Subtree<T>>)
    requires n.Node?
    ensures r.ok <==> n.left.Node?
    ensures r.node.Node? && Shape(r.node) == Plain.RotateRight(Shape(n)).node
    ensures r.ok ==> r.node == Make(n.left.left, n.left.value, Make(n.left.right, n.value, n.right))
    ensures !r.ok && Valid(n) ==> r.node == n
    ensures Valid(n.left) && Valid(n.right) ==> Valid(r.node)
  {
    var (self1, sub) := DetachLeft(n);
    if sub.Empty? then Rotated(false, self1)
    else
      var (sub1, mid) := DetachRight(sub);
      var (self2, _) := InsertLeft(self1, mid);
      var (top, _) := InsertRight(sub1, self2);
      Rotated(true, top)
  }

  /** `rebalance`: with the left side two taller, rotate the left child
      left first when it leans right, then rotate this node right; the
      mirror image when the right side is taller; otherwise nothing. The
      rotations this performs cannot fail, and the values keep their
      order. */
  function Rebalance<T>(n: Subtree<T>): (r: Subtree<T>)
    requires n.Node?
    ensures r.Node? && Elems(r) == Elems(n)
    ensures Valid(n) ==> Valid(r)
    ensures -1 <= BalanceFactor(n) <= 1 ==> r == n
  {
    if BalanceFactor(n) > 1 then
      var l := if BalanceFactor(n.left) < 0 then RotateLeft(n.left).node else n.left;
      var rot := RotateRight(n.(left := l));
      assert rot.ok;
      rot.node
    else if BalanceFactor(n) < -1 then
      var r := if BalanceFactor(n.right) > 0 then RotateRight(n.right).node else n.right;
      var rot := RotateLeft(n.(right := r));
      assert rot.ok;
      rot.node
    else n
  }

  /** Rebalancing a node with valid caches whose subtrees are AVL and whose
      balance factor is at most two in size gives an AVL subtree whose
      height is between the taller child's and one more; a node already in
      balance is left as it is. */
  lemma RebalanceRestoresAvl<T>(n: Subtree<T>)
    requires n.Node? && Valid(n) && Avl(n.left) && Avl(n.right)
    requires -2 <= BalanceFactor(n) <= 2
    ensures var r := Rebalance(n);
            var m := Max(HeightOf(n.left), HeightOf(n.right));
            && Valid(r) && Avl(r)
            && m <= HeightOf(r) <= m + 1
            && (-1 <= BalanceFactor(n) <= 1 ==> HeightOf(r) == m + 1)
  {
    if BalanceFactor(n) > 1 {
      RebalanceLeftHeavy(n);
    } else if BalanceFactor(n) < -1 {
      RebalanceRightHeavy(n);
    }
  }

  /** Facts about a freshly linked node, in the form the balance proofs
      use them. */
  lemma MakeFacts<T>(l: Subtree<T>, v: T, r: Subtree<T>)
    requires Valid(l) && Valid(r)
    ensures Valid(Make(l, v, r))
    ensures HeightOf(Make(l, v, r)) == 1 + Max(HeightOf(l), HeightOf(r))
    ensures Avl(l) && Avl(r) && -1 <= HeightOf(l) - HeightOf(r) <= 1 ==> Avl(Make(l, v, r))
  {
  }

  /** A node whose caches are valid is its own `update_stats`. */
  lemma UpdateStatsFresh<T>(n: Subtree<T>)
    requires n.Node? && Valid(n)
    ensures UpdateStats(n) == n
  {
    assert n.left.Node? ==> CountOf(n.left) >= 1;
    assert n.right.Node? ==> CountOf(n.right) >= 1;
  }

  /** The single rotation: a left-leaning or even left child `x`, two
      taller than the right child `z`. */
  lemma SingleRotation<T>(a: Subtree<T>, x: T, b: Subtree<T>, y: T, c: Subtree<T>)
    requires Valid(a) && Valid(b) && Valid(c) && Avl(a) && Avl(b) && Avl(c)
    requires -1 <= HeightOf(a) - HeightOf(b) <= 1
    requires HeightOf(a) >= HeightOf(c) + 1 && HeightOf(b) >= HeightOf(c)
    requires 1 + Max(HeightOf(a), HeightOf(b)) == HeightOf(c) + 2
    ensures var r := Make(a, x, Make(b, y, c));
            var m := 1 + Max(HeightOf(a), HeightOf(b));
            Valid(r) && Avl(r) && m <= HeightOf(r) <= m + 1
  {
    MakeFacts(b, y, c);
    MakeFacts(a, x, Make(b, y, c));
  }

  /** The mirror image of `SingleRotation`. */
  lemma SingleRotationMirror<T>(a: Subtree<T>, x: T, b: Subtree<T>, y: T, c: Subtree<T>)
    requires Valid(a) && Valid(b) && Valid(c) && Avl(a) && Avl(b) && Avl(c)
    requires -1 <= HeightOf(b) - HeightOf(c) <= 1
    requires HeightOf(c) >= HeightOf(a) + 1 && HeightOf(b) >= HeightOf(a)
    requires 1 + Max(HeightOf(b), HeightOf(c)) == HeightOf(a) + 2
    ensures var r := Make(Make(a, x, b), y, c);
            var m := 1 + Max(HeightOf(b), HeightOf(c));
            Valid(r) && Avl(r) && m <= HeightOf(r) <= m + 1
  {
    MakeFacts(a, x, b);
    MakeFacts(Make(a, x, b), y, c);
  }

  /** The double rotation: the middle grandchild `b2`'s subtrees are
      shared out between its two new children. */
  lemma DoubleRotation<T>(a: Subtree<T>, x: T, b1: Subtree<T>, y: T, b2: Subtree<T>, z: T, c: Subtree<T>)
    requires Valid(a) && Valid(b1) && Valid(b2) && Valid(c)
    requires Avl(a) && Avl(b1) && Avl(b2) && Avl(c)
    requires -1 <= HeightOf(b1) - HeightOf(b2) <= 1
    requires var hb := 1 + Max(HeightOf(b1), HeightOf(b2));
             hb == HeightOf(a) + 1 && hb == HeightOf(c) + 1
    ensures var r := Make(Make(a, x, b1), y, Make(b2, z, c));
            Valid(r) && Avl(r) && HeightOf(r) == HeightOf(a) + 2
  {
    MakeFacts(a, x, b1);
    MakeFacts(b2, z, c);
    MakeFacts(Make(a, x, b1), y, Make(b2, z, c));
  }

  lemma RebalanceLeftHeavy<T>(n: Subtree<T>)
    requires n.Node? && Valid(n) && Avl(n.left) && Avl(n.right)
    requires BalanceFactor(n) == 2
    ensures var r := Rebalance(n);
            var m := HeightOf(n.left);
            Valid(r) && Avl(r) && m <= HeightOf(r) <= m + 1
  {
    var l := n.left;
    assert Valid(l);
    if BalanceFactor(l) < 0 {
      var lr := l.right;
      assert Valid(lr);
      assert Rebalance(n) == Make(Make(l.left, l.value, lr.left), lr.value, Make(lr.right, n.value, n.right));
      DoubleRotation(l.left, l.value, lr.left, lr.value, lr.right, n.value, n.right);
    } else {
      assert Rebalance(n) == Make(l.left, l.value, Make(l.right, n.value, n.right));
      SingleRotation(l.left, l.value, l.right, n.value, n.right);
    }
  }

  lemma RebalanceRightHeavy<T>(n: Subtree<T>)
    requires n.Node? && Valid(n) && Avl(n.left) && Avl(n.right)
    requires BalanceFactor(n) == -2
    ensures var r := Rebalance(n);
            var m := HeightOf(n.right);
            Valid(r) && Avl(r) && m <= HeightOf(r) <= m + 1
  {
    var rt := n.right;
    assert Valid(rt);
    if BalanceFactor(rt) > 0 {
      var rl := rt.left;
      assert Valid(rl);
      assert Rebalance(n) == Make(Make(n.left, n.value, rl.left), rl.value, Make(rl.right, rt.value, rt.right));
      DoubleRotation(n.left, n.value, rl.left, rl.value, rl.right, rt.value, rt.right);
    } else {
      assert Rebalance(n) == Make(Make(n.left, n.value, rt.left), rt.value, rt.right);
      SingleRotationMirror(n.left, n.value, rt.left, rt.value, rt.right);
    }
  }

  /** After one or both subtrees grew by at most one (from heights `hl` and
      `hr` of an AVL node), rebalancing brings the node back to AVL with a
      height that is the old one or one more. */
  lemma RebalanceAfterGrowth<T>(n: Subtree<T>, hl: int, hr: int)
    requires n.Node? && Valid(n) && Avl(n.left) && Avl(n.right)
    requires -1 <= hl - hr <= 1
    requires hl <= HeightOf(n.left) <= hl + 1 && hr <= HeightOf(n.right) <= hr + 1
    ensures var r := Rebalance(n);
            var h := 1 + Max(hl, hr);
            Valid(r) && Avl(r) && h <= HeightOf(r) <= h + 1
  {
    RebalanceRestoresAvl(n);
  }

  /** After one or both subtrees shrank by at most one, rebalancing brings
      the node back to AVL with a height that is the old one or one less. */
  lemma RebalanceAfterShrink<T>(n: Subtree<T>, hl: int, hr: int)
    requires n.Node? && Valid(n) && Avl(n.left) && Avl(n.right)
    requires -1 <= hl - hr <= 1
    requires hl - 1 <= HeightOf(n.left) <= hl && hr - 1 <= HeightOf(n.right) <= hr
    ensures var r := Rebalance(n);
            var h := 1 + Max(hl, hr);
            Valid(r) && Avl(r) && h - 1 <= HeightOf(r) <= h
  {
    RebalanceRestoresAvl(n);
  }
}
