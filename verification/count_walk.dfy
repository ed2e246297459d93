/** The walks `CountTree` runs over counting nodes (src/count.rs), each a
    plain recursion. Going down, a walk either follows the index rule of
    `index_walker!` or always turns the same way; at the node where it
    stops it applies the operation's payload; coming back up it reinstalls
    each changed child (which recomputes the statistics) and, where the
    caller's step-out callback is `rebalance`, rebalances the ancestor. */
module CountWalk {
  import opened Common
  import Plain
  import Walk
  import opened CountNode

  // ---------------------------------------------------------------------
  // Walks that always turn the same way

  /** The walk of `push_back`, also the sub-walk of `insert_before`: go
      Right to the last node and attach a new node holding `x` as its right
      child; `rebal` says whether the step-out callback rebalances. */
  function AppendLast<T>(n: Subtree<T>, x: T, rebal: bool): (r: Subtree<T>)
    requires n.Node?
    ensures r.Node? && Elems(r) == Elems(n) + [x]
    ensures Valid(n) ==> Valid(r)
    decreases n
  {
    if n.right.Empty? then InsertRight(n, New(x)).0
    else
      var m := InsertRight(n, AppendLast(n.right, x, rebal)).0;
      if rebal then Rebalance(m) else m
  }

  /** The walk of `push_front`: go Left to the first node and attach a new
      node holding `x` as its left child, rebalancing on the way back. */
  function AppendFirst<T>(n: Subtree<T>, x: T): (r: Subtree<T>)
    requires n.Node?
    ensures r.Node? && Elems(r) == [x] + Elems(n)
    ensures Valid(n) ==> Valid(r)
    decreases n
  {
    if n.left.Empty? then InsertLeft(n, New(x)).0
    else Rebalance(InsertLeft(n, AppendFirst(n.left, x)).0)
  }

  /** The extracting walk of `pop_back`, also the sub-walk of `try_remove`:
      go Right to the last node; its left child, if any, is swapped into its
      place, otherwise the childless node is cut off. Returns the remaining
      subtree and the value taken, rebalancing on the way back. */
  function ExtractLast<T>(n: Subtree<T>): (r: (Subtree<T>, T))
    requires n.Node?
    ensures Elems(r.0) + [r.1] == Elems(n)
    ensures Valid(n) ==> Valid(r.0)
    decreases n
  {
    ElemsOfNode(n);
    if n.right.Empty? then (n.left, n.value)
    else
      var e := ExtractLast(n.right);
      var m := Rebalance(InsertRight(n, e.0).0);
      SnocRegroup(Elems(n.left), n.value, Elems(e.0), e.1, Elems(n.right), Elems(m));
      (m, e.1)
  }

  /** The extracting walk of `pop_front`: go Left to the first node; its
      right child, if any, is swapped into its place. */
  function ExtractFirst<T>(n: Subtree<T>): (r: (Subtree<T>, T))
    requires n.Node?
    ensures [r.1] + Elems(r.0) == Elems(n)
    ensures Valid(n) ==> Valid(r.0)
    decreases n
  {
    ElemsOfNode(n);
    if n.left.Empty? then (n.right, n.value)
    else
      var e := ExtractFirst(n.left);
      var m := Rebalance(InsertLeft(n, e.0).0);
      ConsRegroup(e.1, Elems(e.0), Elems(n.left), n.value, Elems(n.right), Elems(m));
      (m, e.1)
  }

  /** Taking the last value of the right subtree is taking the last value
      of the whole. */
  lemma SnocRegroup<T>(l: seq<T>, v: T, a: seq<T>, y: T, r: seq<T>, m: seq<T>)
    requires a + [y] == r && m == l + [v] + a
    ensures m + [y] == l + [v] + r
  {
  }

  /** A value appended to the left subtree lands just before the node's
      own value. */
  lemma BeforeRegroup<T>(l: seq<T>, x: T, a: seq<T>, v: T, r: seq<T>, m: seq<T>)
    requires a == l + [x] && m == a + [v] + r
    ensures m == l + [x, v] + r
  {
  }

  /** Taking the first value of the left subtree is taking the first value
      of the whole. */
  lemma ConsRegroup<T>(y: T, a: seq<T>, l: seq<T>, v: T, r: seq<T>, m: seq<T>)
    requires [y] + a == l && m == a + [v] + r
    ensures [y] + m == l + [v] + r
  {
  }

  /** `insert_before`: `x` becomes the in-order predecessor of this node,
      as the last node of its left subtree, or as its left child when it
      has none; then the node itself is handed to the step-out callback. */
  function InsertBefore<T>(n: Subtree<T>, x: T, rebal: bool): (r: Subtree<T>)
    requires n.Node?
    ensures r.Node? && Elems(r) == Elems(n.left) + [x, n.value] + Elems(n.right)
    ensures Valid(n) ==> Valid(r)
  {
    var sub := if n.left.Empty? then New(x) else AppendLast(n.left, x, rebal);
    var m := InsertLeft(n, sub).0;
    BeforeRegroup(Elems(n.left), x, Elems(sub), n.value, Elems(n.right), Elems(m));
    if rebal then Rebalance(m) else m
  }

  /** `try_remove` with `rebalance` as its step-out callback: remove this
      node's own value by promoting a descendant. With a left subtree, its
      last node (the in-order predecessor) is extracted and takes this
      node's place; otherwise the right child does. Returns the node
      afterwards and the detached former occupant, a childless node holding
      the removed value, or `Empty` when a childless node cannot be removed
      from within. */
  function TryRemove<T>(n: Subtree<T>): (r: (Subtree<T>, Subtree<T>))
    requires n.Node?
    ensures r.1.Empty? <==> n.left.Empty? && n.right.Empty?
    ensures r.1.Empty? ==> r.0 == n
    ensures r.1.Node? ==> r.1 == New(n.value) && Elems(r.0) == Elems(n.left) + Elems(n.right)
    ensures Valid(n) ==> Valid(r.0)
  {
    if n.left.Node? then
      var (rest, pred) := ExtractLast(n.left);
      (Rebalance(Make(rest, pred, n.right)), New(n.value))
    else if n.right.Node? then (n.right, New(n.value))
    else (n, Empty)
  }

  // ---------------------------------------------------------------------
  // Agreement with the plain walks when no rebalancing happens

  /** Without rebalancing, appending walks exactly as the plain sub-walk. */
  lemma {:induction false} AppendLastIsPlain<T>(n: Subtree<T>, x: T)
    requires n.Node?
    ensures Shape(AppendLast(n, x, false)) == Walk.PushLast(Shape(n), x)
    decreases n
  {
    if n.right.Node? {
      AppendLastIsPlain(n.right, x);
    }
  }

  /** Without rebalancing, `insert_before` on a counting node has the shape
      it has on a plain node. */
  lemma InsertBeforeIsPlain<T>(n: Subtree<T>, x: T)
    requires n.Node?
    ensures Shape(InsertBefore(n, x, false)) == Walk.InsertBefore(Shape(n), x)
  {
    if n.left.Node? {
      AppendLastIsPlain(n.left, x);
    }
  }

  // ---------------------------------------------------------------------
  // Balance: every walk that rebalances on the way out keeps an AVL
  // subtree AVL, growing by at most one level on insertion and shrinking
  // by at most one on removal.

  lemma {:induction false} AppendLastAvl<T>(n: Subtree<T>, x: T)
    requires n.Node? && Valid(n) && Avl(n)
    ensures var r := AppendLast(n, x, true);
            Avl(r) && HeightOf(n) <= HeightOf(r) <= HeightOf(n) + 1
    decreases n
  {
    if n.right.Empty? {
      MakeFacts(n.left, n.value, New(x));
    } else {
      AppendLastAvl(n.right, x);
      var sub := AppendLast(n.right, x, true);
      RebalanceAfterGrowth(Make(n.left, n.value, sub), HeightOf(n.left), HeightOf(n.right));
    }
  }

  lemma {:induction false} AppendFirstAvl<T>(n: Subtree<T>, x: T)
    requires n.Node? && Valid(n) && Avl(n)
    ensures var r := AppendFirst(n, x);
            Avl(r) && HeightOf(n) <= HeightOf(r) <= HeightOf(n) + 1
    decreases n
  {
    if n.left.Empty? {
      MakeFacts(New(x), n.value, n.right);
    } else {
      AppendFirstAvl(n.left, x);
      var sub := AppendFirst(n.left, x);
      RebalanceAfterGrowth(Make(sub, n.value, n.right), HeightOf(n.left), HeightOf(n.right));
    }
  }

  lemma {:induction false} ExtractLastAvl<T>(n: Subtree<T>)
    requires n.Node? && Valid(n) && Avl(n)
    ensures var r := ExtractLast(n).0;
            Avl(r) && HeightOf(n) - 1 <= HeightOf(r) <= HeightOf(n)
    decreases n
  {
    if n.right.Node? {
      ExtractLastAvl(n.right);
      var sub := ExtractLast(n.right).0;
      RebalanceAfterShrink(Make(n.left, n.value, sub), HeightOf(n.left), HeightOf(n.right));
    }
  }

  lemma {:induction false} ExtractFirstAvl<T>(n: Subtree<T>)
    requires n.Node? && Valid(n) && Avl(n)
    ensures var r := ExtractFirst(n).0;
            Avl(r) && HeightOf(n) - 1 <= HeightOf(r) <= HeightOf(n)
    decreases n
  {
    if n.left.Node? {
      ExtractFirstAvl(n.left);
      var sub := ExtractFirst(n.left).0;
      RebalanceAfterShrink(Make(sub, n.value, n.right), HeightOf(n.left), HeightOf(n.right));
    }
  }

  lemma InsertBeforeAvl<T>(n: Subtree<T>, x: T)
    requires n.Node? && Valid(n) && Avl(n)
    ensures var r := InsertBefore(n, x, true);
            Avl(r) && HeightOf(n) <= HeightOf(r) <= HeightOf(n) + 1
  {
    if n.left.Empty? {
      RebalanceAfterGrowth(Make(New(x), n.value, n.right), HeightOf(n.left), HeightOf(n.right));
    } else {
      AppendLastAvl(n.left, x);
      var sub := AppendLast(n.left, x, true);
      RebalanceAfterGrowth(Make(sub, n.value, n.right), HeightOf(n.left), HeightOf(n.right));
    }
  }

  lemma TryRemoveAvl<T>(n: Subtree<T>)
    requires n.Node? && Valid(n) && Avl(n)
    ensures var r := TryRemove(n).0;
            Avl(r) && HeightOf(n) - 1 <= HeightOf(r) <= HeightOf(n)
  {
    if n.left.Node? {
      ExtractLastAvl(n.left);
      var (rest, pred) := ExtractLast(n.left);
      RebalanceAfterShrink(Make(rest, pred, n.right), HeightOf(n.left), HeightOf(n.right));
    }
  }

  // ---------------------------------------------------------------------
  // Walks guided by position

  /** `index_walker!`: the position of this node is its left count plus
      the offset `up` carried down from the right turns taken so far. Go
      Left when `i` is before it, Stop on it, and otherwise go Right with
      the offset moved past this node. Returns the direction and the offset
      the next node sees. */
  function IndexStep<T>(n: Subtree<T>, i: nat, up: nat): (r: (Action, nat))
    requires n.Node?
    ensures r.0 != Right ==> r.1 == up
    ensures Valid(n) && up <= i < up + |Elems(n)| ==>
              && (r.0 == Left ==> i - up < |Elems(n.left)|)
              && (r.0 == Stop ==> i - up == |Elems(n.left)| && Elems(n)[i - up] == n.value)
              && (r.0 == Right ==> r.1 == up + |Elems(n.left)| + 1 && r.1 <= i < r.1 + |Elems(n.right)|)
  {
    var cur := LCount(n) + up;
    if i < cur then (Left, up)
    else if i == cur then (Stop, up)
    else (Right, cur + 1)
  }

  /** The walk of `get`: the value at position `i` of the subtree whose
      first value has position `up`, or `None` when the walk runs off the
      tree before the index rule says stop. */
  function IndexGet<T>(n: Subtree<T>, i: nat, up: nat): (r: Option<T>)
    requires n.Node?
    ensures Valid(n) && up <= i < up + |Elems(n)| ==> r == Some(Elems(n)[i - up])
    decreases n
  {
    var (a, up') := IndexStep(n, i, up);
    match a
    case Stop => Some(n.value)
    case Left =>
      if n.left.Empty? then None
      else
        var r := IndexGet(n.left, i, up');
        assert Valid(n) && up <= i < up + |Elems(n)| ==> Elems(n)[i - up] == Elems(n.left)[i - up];
        r
    case Right =>
      if n.right.Empty? then None
      else
        var r := IndexGet(n.right, i, up');
        assert Valid(n) && up <= i < up + |Elems(n)| ==>
          Elems(n)[i - up] == Elems(n.right)[i - up'];
        r
  }

  /** The walk of `get_mut` followed by a write through the reference it
      yields: the value at position `i` becomes `x`. Where the walk runs
      off the tree the write lands on the last node reached. No link
      changes, so every cache stays as it was. */
  function IndexSet<T>(n: Subtree<T>, i: nat, up: nat, x: T): (r: Subtree<T>)
    requires n.Node?
    ensures r.Node? && r.count == n.count && r.height == n.height
    ensures Valid(n) ==> Valid(r)
    ensures Avl(n) ==> Avl(r)
    ensures Valid(n) && up <= i < up + |Elems(n)| ==> Elems(r) == Elems(n)[i - up := x]
    decreases n
  {
    var (a, up') := IndexStep(n, i, up);
    match a
    case Stop => n.(value := x)
    case Left =>
      if n.left.Empty? then n.(value := x)
      else n.(left := IndexSet(n.left, i, up', x))
    case Right =>
      if n.right.Empty? then n.(value := x)
      else n.(right := IndexSet(n.right, i, up', x))
  }

  /** The reshaping walk of `insert`: find position `i` by the index rule
      and `insert_before` the node there, rebalancing every node on the way
      back. Where the walk runs off the tree, the last node reached is the
      one inserted before. */
  function IndexInsert<T>(n: Subtree<T>, i: nat, up: nat, x: T): (r: Subtree<T>)
    requires n.Node?
    ensures r.Node?
    ensures Valid(n) ==> Valid(r)
    decreases n
  {
    var (a, up') := IndexStep(n, i, up);
    if a == Stop || (a == Left && n.left.Empty?) || (a == Right && n.right.Empty?) then
      InsertBefore(n, x, true)
    else if a == Left then
      Rebalance(InsertLeft(n, IndexInsert(n.left, i, up', x)).0)
    else
      Rebalance(InsertRight(n, IndexInsert(n.right, i, up', x)).0)
  }

  /** The extracting walk of `remove`: find position `i` by the index rule
      and `try_remove` the node there; a childless target is cut off
      instead. Every node on the way back is rebalanced. Returns the
      remaining subtree and the removed value. */
  function IndexRemove<T>(n: Subtree<T>, i: nat, up: nat): (r: (Subtree<T>, T))
    requires n.Node?
    ensures Valid(n) ==> Valid(r.0)
    decreases n
  {
    var (a, up') := IndexStep(n, i, up);
    if a == Stop || (a == Left && n.left.Empty?) || (a == Right && n.right.Empty?) then
      RemoveHere(n)
    else if a == Left then
      var (sub, y) := IndexRemove(n.left, i, up');
      (Rebalance(InsertLeft(n, sub).0), y)
    else
      var (sub, y) := IndexRemove(n.right, i, up');
      (Rebalance(InsertRight(n, sub).0), y)
  }

  /** Inserting at a position in range puts `x` exactly there, every other
      value keeping its order. */
  lemma {:induction false} IndexInsertPlacesValue<T>(n: Subtree<T>, i: nat, up: nat, x: T)
    requires n.Node? && Valid(n) && up <= i < up + |Elems(n)|
    ensures Elems(IndexInsert(n, i, up, x)) == Elems(n)[..i - up] + [x] + Elems(n)[i - up..]
    decreases n
  {
    var step := IndexStep(n, i, up);
    if step.0 == Stop {
      InsertStepStop(n, i, up, x);
      InsertHere(n, IndexInsert(n, i, up, x), i, up, x);
    } else if step.0 == Left {
      IndexInsertPlacesValue(n.left, i, up, x);
      InsertStepLeft(n, i, up, x);
      InsertGoingLeft(n, IndexInsert(n.left, i, up, x), IndexInsert(n, i, up, x), i, up, x);
    } else {
      IndexInsertPlacesValue(n.right, i, step.1, x);
      InsertStepRight(n, i, up, x);
      InsertGoingRight(n, IndexInsert(n.right, i, step.1, x), IndexInsert(n, i, up, x), i, up, step.1, x);
    }
  }

  /** Inserting before the node the walk stopped on places `x` at its
      position. */
  lemma InsertHere<T>(n: Subtree<T>, whole: Subtree<T>, i: nat, up: nat, x: T)
    requires n.Node? && i - up == |Elems(n.left)|
    requires whole == InsertBefore(n, x, true)
    ensures Elems(whole) == Elems(n)[..i - up] + [x] + Elems(n)[i - up..]
  {
    ElemsOfNode(n);
    InsertAtNode(Elems(n.left), n.value, Elems(n.right), x, Elems(n), i - up, Elems(whole));
  }

  /** Inserting into the left subtree at a position in range of it
      places `x` at the same position of the whole node. */
  lemma InsertGoingLeft<T>(n: Subtree<T>, sub: Subtree<T>, whole: Subtree<T>, i: nat, up: nat, x: T)
    requires n.Node? && up <= i < up + |Elems(n.left)|
    requires Elems(sub) == Elems(n.left)[..i - up] + [x] + Elems(n.left)[i - up..]
    requires Elems(whole) == Elems(sub) + [n.value] + Elems(n.right)
    ensures Elems(whole) == Elems(n)[..i - up] + [x] + Elems(n)[i - up..]
  {
    ElemsOfNode(n);
    InsertIntoLeft(Elems(n.left), n.value, Elems(n.right), i - up, x, Elems(n), Elems(sub), Elems(whole));
  }

  /** Inserting into the right subtree, whose first value has position
      `up'`, places `x` at the same position of the whole node. */
  lemma InsertGoingRight<T>(n: Subtree<T>, sub: Subtree<T>, whole: Subtree<T>, i: nat, up: nat, up': nat, x: T)
    requires n.Node? && up' == up + |Elems(n.left)| + 1 && up' <= i < up' + |Elems(n.right)|
    requires Elems(sub) == Elems(n.right)[..i - up'] + [x] + Elems(n.right)[i - up'..]
    requires Elems(whole) == Elems(n.left) + [n.value] + Elems(sub)
    ensures Elems(whole) == Elems(n)[..i - up] + [x] + Elems(n)[i - up..]
  {
    ElemsOfNode(n);
    InsertIntoRight(Elems(n.left), n.value, Elems(n.right), i - up', x, Elems(n), i - up, Elems(sub), Elems(whole));
  }

  /** The inserting walk stopping at this node. */
  lemma InsertStepStop<T>(n: Subtree<T>, i: nat, up: nat, x: T)
    requires n.Node? && IndexStep(n, i, up).0 == Stop
    ensures IndexInsert(n, i, up, x) == InsertBefore(n, x, true)
  {
  }

  /** One level of the inserting walk going Left, in terms of values. */
  lemma InsertStepLeft<T>(n: Subtree<T>, i: nat, up: nat, x: T)
    requires n.Node? && IndexStep(n, i, up).0 == Left && n.left.Node?
    ensures Elems(IndexInsert(n, i, up, x)) == Elems(IndexInsert(n.left, i, up, x)) + [n.value] + Elems(n.right)
  {
    assert IndexInsert(n, i, up, x) == Rebalance(InsertLeft(n, IndexInsert(n.left, i, up, x)).0);
  }

  /** One level of the inserting walk going Right, in terms of values. */
  lemma InsertStepRight<T>(n: Subtree<T>, i: nat, up: nat, x: T)
    requires n.Node? && IndexStep(n, i, up).0 == Right && n.right.Node?
    ensures var up' := IndexStep(n, i, up).1;
            Elems(IndexInsert(n, i, up, x)) == Elems(n.left) + [n.value] + Elems(IndexInsert(n.right, i, up', x))
  {
    var up' := IndexStep(n, i, up).1;
    assert IndexInsert(n, i, up, x) == Rebalance(InsertRight(n, IndexInsert(n.right, i, up', x)).0);
  }

  /** Removing at a position in range returns the value there and keeps
      every other value in order. */
  lemma {:induction false} IndexRemoveTakesValue<T>(n: Subtree<T>, i: nat, up: nat)
    requires n.Node? && Valid(n) && up <= i < up + |Elems(n)|
    ensures var r := IndexRemove(n, i, up);
            && r.1 == Elems(n)[i - up]
            && Elems(r.0) == Elems(n)[..i - up] + Elems(n)[i - up + 1..]
    decreases n
  {
    var step := IndexStep(n, i, up);
    if step.0 == Stop {
      RemoveStepStop(n, i, up);
      RemoveAtHere(n, IndexRemove(n, i, up), i, up);
    } else if step.0 == Left {
      IndexRemoveTakesValue(n.left, i, up);
      RemoveStepLeft(n, i, up);
      RemoveGoingLeft(n, IndexRemove(n.left, i, up), IndexRemove(n, i, up), i, up);
    } else {
      IndexRemoveTakesValue(n.right, i, step.1);
      RemoveStepRight(n, i, up);
      RemoveGoingRight(n, IndexRemove(n.right, i, step.1), IndexRemove(n, i, up), i, up, step.1);
    }
  }

  /** Removing at the node the walk stopped on takes its own value. */
  lemma RemoveAtHere<T>(n: Subtree<T>, whole: (Subtree<T>, T), i: nat, up: nat)
    requires n.Node? && i - up == |Elems(n.left)|
    requires whole == RemoveHere(n)
    ensures whole.1 == Elems(n)[i - up]
    ensures Elems(whole.0) == Elems(n)[..i - up] + Elems(n)[i - up + 1..]
  {
    ElemsOfNode(n);
    RemoveAtNode(Elems(n.left), n.value, Elems(n.right), Elems(n), i - up, Elems(whole.0));
  }

  /** Removing from the left subtree at a position in range of it takes
      the value at the same position of the whole node. */
  lemma RemoveGoingLeft<T>(n: Subtree<T>, sub: (Subtree<T>, T), whole: (Subtree<T>, T), i: nat, up: nat)
    requires n.Node? && up <= i < up + |Elems(n.left)|
    requires sub.1 == Elems(n.left)[i - up]
    requires Elems(sub.0) == Elems(n.left)[..i - up] + Elems(n.left)[i - up + 1..]
    requires whole.1 == sub.1 && Elems(whole.0) == Elems(sub.0) + [n.value] + Elems(n.right)
    ensures whole.1 == Elems(n)[i - up]
    ensures Elems(whole.0) == Elems(n)[..i - up] + Elems(n)[i - up + 1..]
  {
    ElemsOfNode(n);
    RemoveFromLeft(Elems(n.left), n.value, Elems(n.right), i - up, Elems(n), Elems(sub.0), Elems(whole.0));
  }

  /** Removing from the right subtree, whose first value has position
      `up'`, takes the value at the same position of the whole node. */
  lemma RemoveGoingRight<T>(n: Subtree<T>, sub: (Subtree<T>, T), whole: (Subtree<T>, T), i: nat, up: nat, up': nat)
    requires n.Node? && up' == up + |Elems(n.left)| + 1 && up' <= i < up' + |Elems(n.right)|
    requires sub.1 == Elems(n.right)[i - up']
    requires Elems(sub.0) == Elems(n.right)[..i - up'] + Elems(n.right)[i - up' + 1..]
    requires whole.1 == sub.1 && Elems(whole.0) == Elems(n.left) + [n.value] + Elems(sub.0)
    ensures whole.1 == Elems(n)[i - up]
    ensures Elems(whole.0) == Elems(n)[..i - up] + Elems(n)[i - up + 1..]
  {
    ElemsOfNode(n);
    RemoveFromRight(Elems(n.left), n.value, Elems(n.right), i - up', Elems(n), i - up,
                    Elems(sub.0), Elems(whole.0));
  }

  /** The extracting walk stopping at this node. */
  lemma RemoveStepStop<T>(n: Subtree<T>, i: nat, up: nat)
    requires n.Node? && IndexStep(n, i, up).0 == Stop
    ensures IndexRemove(n, i, up) == RemoveHere(n)
  {
  }

  /** One level of the extracting walk going Left, in terms of values. */
  lemma RemoveStepLeft<T>(n: Subtree<T>, i: nat, up: nat)
    requires n.Node? && IndexStep(n, i, up).0 == Left && n.left.Node?
    ensures var r, sub := IndexRemove(n, i, up), IndexRemove(n.left, i, up);
            r.1 == sub.1 && Elems(r.0) == Elems(sub.0) + [n.value] + Elems(n.right)
  {
    var sub := IndexRemove(n.left, i, up);
    assert IndexRemove(n, i, up) == (Rebalance(InsertLeft(n, sub.0).0), sub.1);
  }

  /** One level of the extracting walk going Right, in terms of values. */
  lemma RemoveStepRight<T>(n: Subtree<T>, i: nat, up: nat)
    requires n.Node? && IndexStep(n, i, up).0 == Right && n.right.Node?
    ensures var up' := IndexStep(n, i, up).1;
            var r, sub := IndexRemove(n, i, up), IndexRemove(n.right, i, up');
            r.1 == sub.1 && Elems(r.0) == Elems(n.left) + [n.value] + Elems(sub.0)
  {
    var sub := IndexRemove(n.right, i, IndexStep(n, i, up).1);
    assert IndexRemove(n, i, up) == (Rebalance(InsertRight(n, sub.0).0), sub.1);
  }

  /** The values of a node: its left subtree's, its own, its right's. */
  lemma ElemsOfNode<T>(n: Subtree<T>)
    requires n.Node?
    ensures Elems(n) == Elems(n.left) + [n.value] + Elems(n.right)
  {
  }

  /** The payload of `remove` at the node the walk stopped on: `try_remove`
      it, or cut it off when it is childless. */
  function RemoveHere<T>(n: Subtree<T>): (r: (Subtree<T>, T))
    requires n.Node?
    ensures r.1 == n.value
    ensures Elems(r.0) == Elems(n.left) + Elems(n.right)
    ensures Valid(n) ==> Valid(r.0)
  {
    var (rest, removed) := TryRemove(n);
    if removed.Empty? then (Empty, n.value) else (rest, removed.value)
  }

  lemma {:induction false} IndexInsertAvl<T>(n: Subtree<T>, i: nat, up: nat, x: T)
    requires n.Node? && Valid(n) && Avl(n)
    ensures var r := IndexInsert(n, i, up, x);
            Avl(r) && HeightOf(n) <= HeightOf(r) <= HeightOf(n) + 1
    decreases n
  {
    var step := IndexStep(n, i, up);
    if step.0 == Stop || (step.0 == Left && n.left.Empty?) || (step.0 == Right && n.right.Empty?) {
      InsertBeforeAvl(n, x);
    } else if step.0 == Left {
      IndexInsertAvl(n.left, i, step.1, x);
      var sub := IndexInsert(n.left, i, step.1, x);
      RebalanceAfterGrowth(Make(sub, n.value, n.right), HeightOf(n.left), HeightOf(n.right));
    } else {
      IndexInsertAvl(n.right, i, step.1, x);
      var sub := IndexInsert(n.right, i, step.1, x);
      RebalanceAfterGrowth(Make(n.left, n.value, sub), HeightOf(n.left), HeightOf(n.right));
    }
  }

  lemma {:induction false} IndexRemoveAvl<T>(n: Subtree<T>, i: nat, up: nat)
    requires n.Node? && Valid(n) && Avl(n)
    ensures var r := IndexRemove(n, i, up).0;
            Avl(r) && HeightOf(n) - 1 <= HeightOf(r) <= HeightOf(n)
    decreases n
  {
    var step := IndexStep(n, i, up);
    if step.0 == Stop || (step.0 == Left && n.left.Empty?) || (step.0 == Right && n.right.Empty?) {
      TryRemoveAvl(n);
    } else if step.0 == Left {
      IndexRemoveAvl(n.left, i, step.1);
      var sub := IndexRemove(n.left, i, step.1).0;
      RebalanceAfterShrink(Make(sub, n.value, n.right), HeightOf(n.left), HeightOf(n.right));
    } else {
      IndexRemoveAvl(n.right, i, step.1);
      var sub := IndexRemove(n.right, i, step.1).0;
      RebalanceAfterShrink(Make(n.left, n.value, sub), HeightOf(n.left), HeightOf(n.right));
    }
  }

  // ---------------------------------------------------------------------
  // Positions in a node's in-order sequence `ls + [v] + rs`

  lemma InsertIntoLeft<T>(ls: seq<T>, v: T, rs: seq<T>, k: nat, x: T, s: seq<T>, sub: seq<T>, whole: seq<T>)
    requires k < |ls| && s == ls + [v] + rs
    requires sub == ls[..k] + [x] + ls[k..] && whole == sub + [v] + rs
    ensures whole == s[..k] + [x] + s[k..]
  {
    assert s[..k] == ls[..k];
    assert s[k..] == ls[k..] + [v] + rs;
  }

  lemma InsertIntoRight<T>(ls: seq<T>, v: T, rs: seq<T>, k: nat, x: T, s: seq<T>, j: nat, sub: seq<T>, whole: seq<T>)
    requires k < |rs| && s == ls + [v] + rs && j == |ls| + 1 + k
    requires sub == rs[..k] + [x] + rs[k..] && whole == ls + [v] + sub
    ensures whole == s[..j] + [x] + s[j..]
  {
    assert s[..j] == ls + [v] + rs[..k];
    assert s[j..] == rs[k..];
  }

  lemma RemoveFromLeft<T>(ls: seq<T>, v: T, rs: seq<T>, k: nat, s: seq<T>, sub: seq<T>, whole: seq<T>)
    requires k < |ls| && s == ls + [v] + rs
    requires sub == ls[..k] + ls[k + 1..] && whole == sub + [v] + rs
    ensures s[k] == ls[k]
    ensures whole == s[..k] + s[k + 1..]
  {
    assert s[..k] == ls[..k];
    assert s[k + 1..] == ls[k + 1..] + [v] + rs;
  }

  lemma RemoveFromRight<T>(ls: seq<T>, v: T, rs: seq<T>, k: nat, s: seq<T>, j: nat, sub: seq<T>, whole: seq<T>)
    requires k < |rs| && s == ls + [v] + rs && j == |ls| + 1 + k
    requires sub == rs[..k] + rs[k + 1..] && whole == ls + [v] + sub
    ensures s[j] == rs[k]
    ensures whole == s[..j] + s[j + 1..]
  {
    assert s[..j] == ls + [v] + rs[..k];
    assert s[j + 1..] == rs[k + 1..];
  }

  lemma InsertAtNode<T>(ls: seq<T>, v: T, rs: seq<T>, x: T, s: seq<T>, k: nat, whole: seq<T>)
    requires s == ls + [v] + rs && k == |ls| && whole == ls + [x, v] + rs
    ensures whole == s[..k] + [x] + s[k..]
  {
    assert s[..k] == ls;
    assert s[k..] == [v] + rs;
  }

  lemma RemoveAtNode<T>(ls: seq<T>, v: T, rs: seq<T>, s: seq<T>, k: nat, whole: seq<T>)
    requires s == ls + [v] + rs && k == |ls| && whole == ls + rs
    ensures s[k] == v
    ensures whole == s[..k] + s[k + 1..]
  {
    assert s[..k] == ls;
    assert s[k + 1..] == rs;
  }
}
