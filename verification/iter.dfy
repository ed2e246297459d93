/** The explicit-stack in-order iterator of src/iter.rs. The stack holds
    nodes tagged Left (the whole subtree is still to come) or Right (the
    node's left subtree is done; its own value and its right subtree are
    still to come). The top of the stack is the end of the sequence. */
module Iter {
  import opened Common
  import opened Plain

  datatype IterAction = DoLeft | DoRight

  datatype Frame<T> = Frame(node: Tree<T>, action: IterAction)

  datatype Iter<T> = Iter(stack: seq<Frame<T>>)

  /** The values one frame still owes, in order. */
  function Owed<T>(f: Frame<T>): seq<T>
    requires f.node.Node?
  {
    match f.action
    case DoLeft => InOrder(f.node)
    case DoRight => [f.node.value] + InOrder(f.node.right)
  }

  /** Every frame holds a node. */
  predicate WellFormed<T>(stack: seq<Frame<T>>) {
    forall i :: 0 <= i < |stack| ==> stack[i].node.Node?
  }

  /** The values the iterator is still to yield: the top frame's first. */
  function Pending<T>(stack: seq<Frame<T>>): seq<T>
    requires WellFormed(stack)
  {
    if |stack| == 0 then []
    else Owed(stack[|stack| - 1]) + Pending(stack[..|stack| - 1])
  }

  /** `Iter::new`: just the root, tagged Left. An absent root, which the
      tree containers pass as `None`, gives an empty stack. */
  function New<T>(t: Tree<T>): (it: Iter<T>)
    ensures WellFormed(it.stack)
    ensures t.Node? ==> it.stack == [Frame(t, DoLeft)]
    ensures Pending(it.stack) == InOrder(t)
  {
    if t.Nil? then Iter([]) else Iter([Frame(t, DoLeft)])
  }

  /** The inner loop of `next`: push every node of the left spine from `n`
      down, tagged Right, and stop at the first node with no left child. */
  function DescendLeft<T>(n: Tree<T>, stack: seq<Frame<T>>): (r: (seq<Frame<T>>, Tree<T>))
    requires n.Node? && WellFormed(stack)
    ensures r.1.Node? && r.1.left.Nil? && WellFormed(r.0)
    ensures [r.1.value] + InOrder(r.1.right) + Pending(r.0) == InOrder(n) + Pending(stack)
    decreases n
  {
    if n.left.Nil? then (stack, n)
    else
      PendingPush(stack, Frame(n, DoRight));
      DescendLeft(n.left, stack + [Frame(n, DoRight)])
  }

  /** Pushing a frame puts what it owes in front of everything else. */
  lemma PendingPush<T>(stack: seq<Frame<T>>, f: Frame<T>)
    requires WellFormed(stack) && f.node.Node?
    ensures WellFormed(stack + [f])
    ensures Pending(stack + [f]) == Owed(f) + Pending(stack)
  {
    assert (stack + [f])[..|stack|] == stack;
  }

  /** The popped node yields its value, and its right child (if any) is
      pushed tagged Left. */
  function Yield<T>(stack: seq<Frame<T>>, node: Tree<T>): (r: (Iter<T>, Option<T>))
    requires WellFormed(stack) && node.Node?
    ensures WellFormed(r.0.stack) && r.1 == Some(node.value)
    ensures Pending(r.0.stack) == InOrder(node.right) + Pending(stack)
    ensures [node.value] + Pending(r.0.stack) == [node.value] + InOrder(node.right) + Pending(stack)
  {
    if node.right.Node? then
      PendingPush(stack, Frame(node.right, DoLeft));
      (Iter(stack + [Frame(node.right, DoLeft)]), Some(node.value))
    else (Iter(stack), Some(node.value))
  }

  /** Resume the popped frame `top`: a Left frame first descends its left
      spine; either way the node reached yields its value. */
  function Resume<T>(top: Frame<T>, rest: seq<Frame<T>>): (r: (Iter<T>, Option<T>))
    requires top.node.Node? && WellFormed(rest)
    ensures WellFormed(r.0.stack) && r.1.Some?
    ensures [r.1.value] + Pending(r.0.stack) == Owed(top) + Pending(rest)
  {
    if top.action == DoLeft then
      var d := DescendLeft(top.node, rest);
      Yield(d.0, d.1)
    else Yield(rest, top.node)
  }

  /** `Iterator::next`: `None` exactly when the stack is empty; otherwise
      pop one frame, yield the first value still owed, and push the right
      child of the yielded node, tagged Left. */
  function Next<T>(it: Iter<T>): (r: (Iter<T>, Option<T>))
    requires WellFormed(it.stack)
    ensures WellFormed(r.0.stack)
    ensures r.1.None? <==> |it.stack| == 0
    ensures r.1.None? ==> r.0 == it
    ensures r.1.Some? ==> [r.1.value] + Pending(r.0.stack) == Pending(it.stack)
  {
    if |it.stack| == 0 then (it, None)
    else Resume(it.stack[|it.stack| - 1], it.stack[..|it.stack| - 1])
  }

  /** Draining the iterator yields the in-order sequence, each node once. */
  method Collect<T>(t: Tree<T>) returns (xs: seq<T>)
    ensures xs == InOrder(t)
  {
    var it := New(t);
    xs := [];
    while |it.stack| > 0
      invariant WellFormed(it.stack)
      invariant xs + Pending(it.stack) == InOrder(t)
      decreases |Pending(it.stack)|
    {
      var step := Next(it);
      xs := xs + [step.1.value];
      it := step.0;
    }
  }

  /** The iteration test: node 7 with left child 8 (whose right child is
      12) and right child 5 yields 8, 12, 7, 5 and then nothing. Stated for
      any four values in those places. */
  lemma IterationScenario<T>(a: T, b: T, c: T, d: T)
    ensures var t := Node(Node(Nil, a, Plain.New(b)), c, Plain.New(d));
            var s1 := Next(New(t));
            var s2 := Next(s1.0);
            var s3 := Next(s2.0);
            var s4 := Next(s3.0);
            && s1.1 == Some(a) && s2.1 == Some(b) && s3.1 == Some(c) && s4.1 == Some(d)
            && Next(s4.0).1 == None
  {
    var t := Node(Node(Nil, a, Plain.New(b)), c, Plain.New(d));
    assert DescendLeft(t.left, [Frame(t, DoRight)]) == ([Frame(t, DoRight)], t.left);
    assert DescendLeft(t, []) == ([Frame(t, DoRight)], t.left);
    var s1 := Next(New(t));
    assert s1.0.stack == [Frame(t, DoRight), Frame(Plain.New(b), DoLeft)];
    var s2 := Next(s1.0);
    assert s2.0.stack == [Frame(t, DoRight)];
    var s3 := Next(s2.0);
    assert s3.0.stack == [Frame(Plain.New(d), DoLeft)];
    var s4 := Next(s3.0);
    assert s4.0.stack == [];
  }
}
