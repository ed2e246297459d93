/** The generic walk protocol of the crate, on plain nodes: a walk asks a
    step function at every node whether to go Left, Right or Stop, and on
    the way back out hands each ancestor, with the direction taken from it,
    to a step-out callback. `insert_before` and `try_remove` are built on
    such sub-walks. The source keeps the ancestors on an explicit stack only
    to bound call-stack depth; here the walk is plain recursion. */
module Walk {
  import opened Common
  import opened Plain

  /** The child a direction leads to. */
  function Child<T>(t: Tree<T>, a: Action): Tree<T>
    requires t.Node?
  {
    match a
    case Left => t.left
    case Right => t.right
    case Stop => t
  }

  /** The subtree reached by following `path` from `t`. */
  function Follow<T>(t: Tree<T>, path: seq<Action>): Tree<T>
    decreases |path|
  {
    if |path| == 0 || t.Nil? then t else Follow(Child(t, path[0]), path[1..])
  }

  /** An ancestor as the step-out callback sees it, with the direction the
      walk took from it. */
  datatype Frame<T> = Frame(node: Tree<T>, dir: Action)

  /** Where a walk stopped, the step-out calls in the order they happen,
      and the step answers left unused. */
  datatype Trace<T> = Trace(target: Tree<T>, frames: seq<Frame<T>>, rest: seq<Action>)

  /** `walk_mut` driven by a queue of step answers, as in the walk tests:
      each visited node consumes one answer; an exhausted queue counts as
      Stop, and so does a direction whose child is absent (the tree ended
      before the walk said stop). */
  function WalkMut<T>(t: Tree<T>, steps: seq<Action>): (r: Trace<T>)
    requires t.Node?
    ensures r.target.Node?
    ensures |r.frames| <= |steps|
    ensures forall j :: 0 <= j < |r.frames| ==>
              r.frames[j].dir == steps[|r.frames| - 1 - j] && r.frames[j].dir != Stop
    ensures r.rest == if |r.frames| < |steps| then steps[|r.frames| + 1..] else []
    decreases t
  {
    if |steps| == 0 then Trace(t, [], [])
    else if steps[0] == Stop || Child(t, steps[0]).Nil? then Trace(t, [], steps[1..])
    else
      var sub := WalkMut(Child(t, steps[0]), steps[1..]);
      Trace(sub.target, sub.frames + [Frame(t, steps[0])], sub.rest)
  }

  /** The walk stops at the node the used answers lead to, and the k-th
      step-out call (counting from 0) sees the ancestor k levels above it:
      frames unwind in the reverse order of the descent. */
  lemma {:induction false} WalkMutFollows<T>(t: Tree<T>, steps: seq<Action>)
    requires t.Node?
    ensures var r := WalkMut(t, steps);
            && r.target == Follow(t, steps[..|r.frames|])
            && forall j :: 0 <= j < |r.frames| ==>
                 r.frames[j].node == Follow(t, steps[..|r.frames| - 1 - j])
    decreases t
  {
    var r := WalkMut(t, steps);
    if |steps| == 0 || steps[0] == Stop || Child(t, steps[0]).Nil? {
      assert r.frames == [];
      assert |steps[..0]| == 0;
    } else {
      var c := Child(t, steps[0]);
      var sub := WalkMut(c, steps[1..]);
      assert r == Trace(sub.target, sub.frames + [Frame(t, steps[0])], sub.rest);
      WalkMutFollows(c, steps[1..]);
      var n := |sub.frames|;
      FollowPrefix(t, steps, n);
      forall j | 0 <= j < |r.frames|
        ensures r.frames[j].node == Follow(t, steps[..|r.frames| - 1 - j])
      {
        if j < n {
          FollowPrefix(t, steps, n - 1 - j);
          assert r.frames[j] == sub.frames[j];
        } else {
          assert |steps[..0]| == 0;
        }
      }
    }
  }

  /** Following the first k+1 answers is following the first one, then k more. */
  lemma FollowPrefix<T>(t: Tree<T>, steps: seq<Action>, k: nat)
    requires t.Node? && k < |steps|
    ensures Follow(t, steps[..k + 1]) == Follow(Child(t, steps[0]), steps[1..][..k])
  {
    assert steps[..k + 1][1..] == steps[1..][..k];
  }

  /** The walk test: answers Right, Left, Stop on the 20/10/30/25 fixture
      stop at 25; the step-out calls see 30 (Left) and then 20 (Right), and
      every answer is used. */
  lemma WalkScenario()
    ensures var r := WalkMut(TestTree(), [Right, Left, Stop]);
            && r.target.value == 25
            && |r.frames| == 2
            && r.frames[0].node.value == 30 && r.frames[0].dir == Left
            && r.frames[1].node.value == 20 && r.frames[1].dir == Right
            && r.rest == []
  {
  }

  /** The sub-walk of `insert_before`: go Right to the last node and attach
      a new node holding `x` as its right child. */
  function PushLast<T>(t: Tree<T>, x: T): (r: Tree<T>)
    requires t.Node?
    ensures r.Node? && InOrder(r) == InOrder(t) + [x]
    decreases t
  {
    if t.right.Nil? then InsertRight(t, New(x)).0
    else InsertRight(t, PushLast(t.right, x)).0
  }

  /** The sub-walk of `try_remove`: go Right to the last node and take it
      out, its left child (if any) moving into its slot. Returns the
      remaining subtree and the value taken. */
  function PopLast<T>(t: Tree<T>): (r: (Tree<T>, T))
    requires t.Node?
    ensures InOrder(r.0) + [r.1] == InOrder(t)
    decreases t
  {
    if t.right.Nil? then (t.left, t.value)
    else
      var (rest, x) := PopLast(t.right);
      (InsertRight(t, rest).0, x)
  }

  /** `insert_before` with a no-op step-out: `x` becomes the in-order
      predecessor of this node, as the last node of its left subtree or as
      its left child when it has none. */
  function InsertBefore<T>(t: Tree<T>, x: T): (r: Tree<T>)
    requires t.Node?
    ensures r.Node? && r.value == t.value && r.right == t.right
    ensures InOrder(r) == InOrder(t.left) + [x, t.value] + InOrder(t.right)
  {
    if t.left.Nil? then InsertLeft(t, New(x)).0
    else InsertLeft(t, PushLast(t.left, x)).0
  }

  /** `try_remove` with a no-op step-out: remove this node's own value by
      promoting a descendant. With a left subtree, its last node (the
      in-order predecessor) takes this node's place; otherwise the right
      child does. Returns the node afterwards and the detached former
      occupant, a childless node holding the removed value, or `Nil` when a
      childless node could not be removed from within. */
  function TryRemove<T>(t: Tree<T>): (r: (Tree<T>, Tree<T>))
    requires t.Node?
    ensures r.1.Nil? <==> t.left.Nil? && t.right.Nil?
    ensures r.1.Nil? ==> r.0 == t
    ensures r.1.Node? ==> r.1 == New(t.value) && InOrder(r.0) == InOrder(t.left) + InOrder(t.right)
  {
    if t.left.Node? then
      var (rest, pred) := PopLast(t.left);
      (Node(rest, pred, t.right), New(t.value))
    else if t.right.Node? then (t.right, New(t.value))
    else (t, Nil)
  }

  /** The remove test: `try_remove` on 30, whose only child is 25, hands
      back a node holding 30 and leaves 25 in its place; with a right child
      40 added, 30 is still the value handed back. */
  lemma TryRemoveScenario()
    ensures var r := TryRemove(TestTree().right);
            r.1.value == 30 && r.0.value == 25
    ensures var r := TryRemove(TestTree().right.(right := New(40)));
            r.1.value == 30 && r.0.value == 25 && r.0.right.value == 40
  {
  }
}
