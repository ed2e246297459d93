/** The tests of src/count.rs, each stated for arbitrary values in the
    places the test puts its integers, so that the test's own values are one
    instance. */
module CountTests {
  import opened Common
  import Level
  import opened CountNode
  import W = CountWalk
  import opened Count

  /** `test_nodes`: node 7, then 8 and 12 put before it without
      rebalancing, then 5 attached as its right child. */
  function TestNodes<T>(a: T, b: T, c: T, d: T): (n: Subtree<T>)
    ensures n.Node?
  {
    var n1 := W.InsertBefore(CountNode.New(c), a, false);
    var n2 := W.InsertBefore(n1, b, false);
    InsertRight(n2, CountNode.New(d)).0
  }

  /** The fixture is 7 with left child 8 (whose right child is 12) and
      right child 5. */
  lemma TestNodesShape<T>(a: T, b: T, c: T, d: T)
    ensures TestNodes(a, b, c, d) == Make(Make(Empty, a, CountNode.New(b)), c, CountNode.New(d))
  {
    var n1 := W.InsertBefore(CountNode.New(c), a, false);
    assert n1 == Make(CountNode.New(a), c, Empty);
    var n2 := W.InsertBefore(n1, b, false);
    assert W.AppendLast(CountNode.New(a), b, false) == Make(Empty, a, CountNode.New(b));
    assert n2 == Make(Make(Empty, a, CountNode.New(b)), c, Empty);
  }

  /** The `counting` test: two values on the left, one on the right, four
      in all, height 2. */
  lemma Counting<T>(a: T, b: T, c: T, d: T)
    ensures var n := TestNodes(a, b, c, d);
            && LCount(n) == 2 && RCount(n) == 1 && n.count == 4 && n.height == 2
            && Valid(n) && Avl(n) && Elems(n) == [a, b, c, d]
  {
    TestNodesShape(a, b, c, d);
    MakeFacts(Empty, a, CountNode.New(b));
    MakeFacts(Make(Empty, a, CountNode.New(b)), c, CountNode.New(d));
  }

  /** The `custom` test: positions 0 to 3 read 8, 12, 7, 5, position 4 is
      out of bounds, and a write of 100 through `get_mut(3)` is read back. */
  lemma Custom<T>(a: T, b: T, c: T, d: T, e: T)
    ensures var t := CountTree(TestNodes(a, b, c, d));
            && Get(t, 0) == Some(a) && Get(t, 1) == Some(b)
            && Get(t, 2) == Some(c) && Get(t, 3) == Some(d)
            && Get(t, 4) == None
            && GetMut(t, 3, e).Some? && Get(GetMut(t, 3, e).value, 3) == Some(e)
  {
    Counting(a, b, c, d);
  }

  /** The `rebalance` test: the fixture leans left by one; with its right
      child detached it leans left by two, and `rebalance` turns it into a
      perfectly balanced tree of 8, 12, 7 in order, which `compute_level`
      calls balanced at level 2. */
  lemma RebalanceTest<T>(a: T, b: T, c: T, d: T)
    ensures var n := TestNodes(a, b, c, d);
            var m := Rebalance(DetachRight(n).0);
            var t := CountTree(m);
            && BalanceFactor(n) == 1
            && BalanceFactor(m) == 0
            && Level.ComputeLevel(Shape(m), 1) == Level.Balanced(2)
            && Get(t, 0) == Some(a) && Get(t, 1) == Some(b) && Get(t, 2) == Some(c)
            && Get(t, 3) == None
  {
    TestNodesShape(a, b, c, d);
    var left := Make(Empty, a, CountNode.New(b));
    var k := DetachRight(TestNodes(a, b, c, d)).0;
    assert k == Make(left, c, Empty);
    var m := Make(CountNode.New(a), b, CountNode.New(c));
    assert RotateLeft(left).node == Make(CountNode.New(a), b, Empty);
    assert Rebalance(k) == m;
    MakeFacts(CountNode.New(a), b, CountNode.New(c));
  }

  /** The tree after 2, 3, 4, 5, 6 are inserted at position 0, each time
      by `push_front` with its rotations. */
  function Pushed5<T>(x2: T, x3: T, x4: T, x5: T, x6: T): Subtree<T> {
    Make(Make(CountNode.New(x6), x5, CountNode.New(x4)), x3, CountNode.New(x2))
  }

  /** ... then 7 at position 0, which rotates the root right. */
  function Pushed6<T>(x2: T, x3: T, x4: T, x5: T, x6: T, x7: T): Subtree<T> {
    Make(Make(CountNode.New(x7), x6, Empty), x5, Make(CountNode.New(x4), x3, CountNode.New(x2)))
  }

  /** ... then 1 at the end. */
  function Pushed7<T>(x1: T, x2: T, x3: T, x4: T, x5: T, x6: T, x7: T): Subtree<T> {
    Make(Make(CountNode.New(x7), x6, Empty), x5, Make(CountNode.New(x4), x3, Make(Empty, x2, CountNode.New(x1))))
  }

  /** The `insert` test: 2, 3, 4, 5 and 6 each inserted at position 0 read
      back in reverse; after 7 is inserted at 0 too the tree has height 2
      and level 3, and after 1 is inserted at the end (position 6) it reads
      there and the tree has height 3 and level 4. The values are `x2` to
      `x7` and `x1` in those places. */
  lemma InsertTest<T>(x1: T, x2: T, x3: T, x4: T, x5: T, x6: T, x7: T)
    ensures var t5 := Insert(Insert(Insert(Insert(Insert(Count.New(), 0, x2), 0, x3), 0, x4), 0, x5), 0, x6);
            var t6 := Insert(t5, 0, x7);
            var t7 := Insert(t6, 6, x1);
            && Get(Count.New<T>(), 0) == None
            && Get(t5, 0) == Some(x6) && Get(t5, 1) == Some(x5) && Get(t5, 2) == Some(x4)
            && Get(t6, 4) == Some(x3) && Get(t6, 5) == Some(x2)
            && t6.root.height == 2 && Level.ComputeLevel(Shape(t6.root), 1) == Level.Balanced(3)
            && Get(t7, 6) == Some(x1)
            && t7.root.height == 3 && Level.ComputeLevel(Shape(t7.root), 1) == Level.Balanced(4)
  {
    InsertTestShapes(x1, x2, x3, x4, x5, x6, x7);
    ReadPushed5(x2, x3, x4, x5, x6);
    ReadPushed6(x2, x3, x4, x5, x6, x7);
    ReadPushed7(x1, x2, x3, x4, x5, x6, x7);
  }

  lemma InsertTestShapes<T>(x1: T, x2: T, x3: T, x4: T, x5: T, x6: T, x7: T)
    ensures var t5 := Insert(Insert(Insert(Insert(Insert(Count.New(), 0, x2), 0, x3), 0, x4), 0, x5), 0, x6);
            && t5 == CountTree(Pushed5(x2, x3, x4, x5, x6))
            && Insert(t5, 0, x7) == CountTree(Pushed6(x2, x3, x4, x5, x6, x7))
            && Insert(Insert(t5, 0, x7), 6, x1) == CountTree(Pushed7(x1, x2, x3, x4, x5, x6, x7))
  {
    assert Insert(Count.New(), 0, x2) == CountTree(CountNode.New(x2));
    PushOntoLeaf(x2, x3);
    PushRotatingRoot(x2, x3, x4);
    PushUnderLeft(x3, x4, x5, x2);
    PushRotatingLeft(x3, x4, x5, x6, x2);
    PushRotatingRootRight(x2, x3, x4, x5, x6, x7);
    PushBackLast(x1, x2, x3, x4, x5, x6, x7);
  }

  lemma ReadPushed5<T>(x2: T, x3: T, x4: T, x5: T, x6: T)
    ensures var t := CountTree(Pushed5(x2, x3, x4, x5, x6));
            Get(t, 0) == Some(x6) && Get(t, 1) == Some(x5) && Get(t, 2) == Some(x4)
  {
    var l := Make(CountNode.New(x6), x5, CountNode.New(x4));
    assert Valid(Pushed5(x2, x3, x4, x5, x6));
    assert Elems(l) == [x6, x5, x4];
  }

  lemma ReadPushed6<T>(x2: T, x3: T, x4: T, x5: T, x6: T, x7: T)
    ensures var t := CountTree(Pushed6(x2, x3, x4, x5, x6, x7));
            && Get(t, 4) == Some(x3) && Get(t, 5) == Some(x2)
            && t.root.height == 2 && Level.ComputeLevel(Shape(t.root), 1) == Level.Balanced(3)
  {
    var l := Make(CountNode.New(x7), x6, Empty);
    var r := Make(CountNode.New(x4), x3, CountNode.New(x2));
    MakeFacts(CountNode.New(x7), x6, Empty);
    MakeFacts(CountNode.New(x4), x3, CountNode.New(x2));
    MakeFacts(l, x5, r);
    assert Elems(r) == [x4, x3, x2];
    assert Values(CountTree(Make(l, x5, r)))[4] == x3;
    InvIsLevelBalanced(CountTree(Make(l, x5, r)));
  }

  lemma ReadPushed7<T>(x1: T, x2: T, x3: T, x4: T, x5: T, x6: T, x7: T)
    ensures var t := CountTree(Pushed7(x1, x2, x3, x4, x5, x6, x7));
            && Get(t, 6) == Some(x1)
            && t.root.height == 3 && Level.ComputeLevel(Shape(t.root), 1) == Level.Balanced(4)
  {
    var l := Make(CountNode.New(x7), x6, Empty);
    var rr := Make(Empty, x2, CountNode.New(x1));
    var r := Make(CountNode.New(x4), x3, rr);
    MakeFacts(CountNode.New(x7), x6, Empty);
    MakeFacts(Empty, x2, CountNode.New(x1));
    MakeFacts(CountNode.New(x4), x3, rr);
    MakeFacts(l, x5, r);
    assert Elems(r) == [x4, x3, x2, x1];
    InvIsLevelBalanced(CountTree(Make(l, x5, r)));
  }

  lemma PushOntoLeaf<T>(p: T, x: T)
    ensures Insert(CountTree(CountNode.New(p)), 0, x) == CountTree(Make(CountNode.New(x), p, Empty))
  {
  }

  lemma PushRotatingRoot<T>(p: T, q: T, x: T)
    ensures Insert(CountTree(Make(CountNode.New(q), p, Empty)), 0, x)
         == CountTree(Make(CountNode.New(x), q, CountNode.New(p)))
  {
    var l := Make(CountNode.New(x), q, Empty);
    assert W.AppendFirst(Make(CountNode.New(q), p, Empty), x) == Rebalance(Make(l, p, Empty));
  }

  lemma PushUnderLeft<T>(p: T, q: T, x: T, z: T)
    ensures Insert(CountTree(Make(CountNode.New(q), p, CountNode.New(z))), 0, x)
         == CountTree(Make(Make(CountNode.New(x), q, Empty), p, CountNode.New(z)))
  {
    var l := Make(CountNode.New(x), q, Empty);
    assert W.AppendFirst(Make(CountNode.New(q), p, CountNode.New(z)), x) == Rebalance(Make(l, p, CountNode.New(z)));
  }

  lemma PushRotatingLeft<T>(p: T, q: T, y: T, x: T, z: T)
    ensures Insert(CountTree(Make(Make(CountNode.New(y), q, Empty), p, CountNode.New(z))), 0, x)
         == CountTree(Make(Make(CountNode.New(x), y, CountNode.New(q)), p, CountNode.New(z)))
  {
    var l := Make(CountNode.New(y), q, Empty);
    var r := CountNode.New(z);
    PushRotatingRoot(q, y, x);
    assert W.AppendFirst(l, x) == Make(CountNode.New(x), y, CountNode.New(q));
    assert W.AppendFirst(Make(l, p, r), x) == Rebalance(Make(W.AppendFirst(l, x), p, r));
  }

  lemma PushRotatingRootRight<T>(x2: T, x3: T, x4: T, x5: T, x6: T, x7: T)
    ensures Insert(CountTree(Pushed5(x2, x3, x4, x5, x6)), 0, x7) == CountTree(Pushed6(x2, x3, x4, x5, x6, x7))
  {
    var l := Make(CountNode.New(x6), x5, CountNode.New(x4));
    var l' := Make(Make(CountNode.New(x7), x6, Empty), x5, CountNode.New(x4));
    PushUnderLeft(x5, x6, x7, x4);
    assert W.AppendFirst(l, x7) == l';
    assert W.AppendFirst(Make(l, x3, CountNode.New(x2)), x7) == Rebalance(Make(l', x3, CountNode.New(x2)));
  }

  lemma PushBackLast<T>(x1: T, x2: T, x3: T, x4: T, x5: T, x6: T, x7: T)
    ensures Insert(CountTree(Pushed6(x2, x3, x4, x5, x6, x7)), 6, x1) == CountTree(Pushed7(x1, x2, x3, x4, x5, x6, x7))
  {
    var l := Make(CountNode.New(x7), x6, Empty);
    var r := Make(CountNode.New(x4), x3, CountNode.New(x2));
    var r' := Make(CountNode.New(x4), x3, Make(Empty, x2, CountNode.New(x1)));
    assert W.AppendLast(CountNode.New(x2), x1, true) == Make(Empty, x2, CountNode.New(x1));
    assert W.AppendLast(r, x1, true) == r';
    assert W.AppendLast(Make(l, x5, r), x1, true) == Rebalance(Make(l, x5, r'));
  }

  /** Remove at position `pos` `k` times over, as the `remove` test's loop
      does; returns the tree left and the values removed, in order. */
  function RemoveRepeatedly<T>(t: CountTree<T>, pos: nat, k: nat): (r: (CountTree<T>, seq<T>))
    requires Inv(t) && pos + k <= Len(t)
    ensures Inv(r.0) && |r.1| == k
    decreases k
  {
    if k == 0 then (t, [])
    else
      var e := Remove(t, pos);
      var rest := RemoveRepeatedly(e.0, pos, k - 1);
      (rest.0, [e.1] + rest.1)
  }

  /** The same loop on the list itself: drop the value at `pos`, `k`
      times over. */
  function DropRepeatedly<T>(v: seq<T>, pos: nat, k: nat): (r: (seq<T>, seq<T>))
    requires pos + k <= |v|
    decreases k
  {
    if k == 0 then (v, [])
    else
      var rest := DropRepeatedly(v[..pos] + v[pos + 1..], pos, k - 1);
      (rest.0, [v[pos]] + rest.1)
  }

  /** The tree loop follows the list loop. */
  lemma {:induction false} RemoveRepeatedlyFollowsList<T>(t: CountTree<T>, pos: nat, k: nat)
    requires Inv(t) && pos + k <= Len(t)
    ensures RemoveRepeatedly(t, pos, k).1 == DropRepeatedly(Values(t), pos, k).1
    ensures Values(RemoveRepeatedly(t, pos, k).0) == DropRepeatedly(Values(t), pos, k).0
    decreases k
  {
    if k > 0 {
      var e := Remove(t, pos);
      RemoveRepeatedlyFollowsList(e.0, pos, k - 1);
      RemoveOnce(t, pos, k, e);
      DropOnce(Values(t), pos, k, Values(e.0));
    }
  }

  /** One round of the tree loop: a remove, then the remaining rounds. */
  lemma RemoveOnce<T>(t: CountTree<T>, pos: nat, k: nat, e: (CountTree<T>, T))
    requires Inv(t) && pos + k <= Len(t) && k > 0 && e == Remove(t, pos)
    ensures Inv(e.0) && pos + (k - 1) <= Len(e.0)
    ensures RemoveRepeatedly(t, pos, k)
         == (RemoveRepeatedly(e.0, pos, k - 1).0, [e.1] + RemoveRepeatedly(e.0, pos, k - 1).1)
    ensures Values(e.0) == Values(t)[..pos] + Values(t)[pos + 1..] && e.1 == Values(t)[pos]
  {
  }

  /** One round of the list loop. */
  lemma DropOnce<T>(v: seq<T>, pos: nat, k: nat, w: seq<T>)
    requires pos + k <= |v| && k > 0 && w == v[..pos] + v[pos + 1..]
    ensures pos + (k - 1) <= |w|
    ensures DropRepeatedly(v, pos, k) == (DropRepeatedly(w, pos, k - 1).0, [v[pos]] + DropRepeatedly(w, pos, k - 1).1)
  {
  }

  /** Dropping at a fixed position `k` times takes the run of `k` values
      that starts there, in order, and leaves the rest in order. */
  lemma {:induction false} DropRepeatedlyTakesRun<T>(v: seq<T>, pos: nat, k: nat)
    requires pos + k <= |v|
    ensures DropRepeatedly(v, pos, k).1 == v[pos..pos + k]
    ensures DropRepeatedly(v, pos, k).0 == v[..pos] + v[pos + k..]
    decreases k
  {
    if k > 0 {
      var w := v[..pos] + v[pos + 1..];
      DropRepeatedlyTakesRun(w, pos, k - 1);
      assert w[..pos] == v[..pos];
      assert w[pos..] == v[pos + 1..];
    }
  }

  /** The `remove` test: from the values 0 to 93, removing at position 64
      twenty times returns 64, 65, ..., 83, and every tree along the way is
      balanced within 1 by `compute_level`. */
  lemma RemoveTest()
    ensures var t := FromIter(seq(94, i => i));
            && Len(t) == 94
            && RemoveRepeatedly(t, 64, 20).1 == seq(20, i => 64 + i)
            && forall j :: 0 <= j <= 20 ==>
                 Level.ComputeLevel(Shape(RemoveRepeatedly(t, 64, j).0.root), 1).IsBalanced()
  {
    var xs := seq(94, i => i);
    var t := FromIter(xs);
    assert Len(t) == 94;
    RemoveRepeatedlyFollowsList(t, 64, 20);
    DropRepeatedlyTakesRun(xs, 64, 20);
    CountingRun(xs, RemoveRepeatedly(t, 64, 20).1);
    forall j | 0 <= j <= 20
      ensures Level.ComputeLevel(Shape(RemoveRepeatedly(t, 64, j).0.root), 1).IsBalanced()
    {
      InvIsLevelBalanced(RemoveRepeatedly(t, 64, j).0);
    }
  }

  lemma CountingRun(xs: seq<int>, run: seq<int>)
    requires xs == seq(94, i => i) && run == xs[64..84]
    ensures run == seq(20, i => 64 + i)
  {
  }

  /** The property test of tests/quickcount.rs: after inserting at any
      position up to the length, the value before it and the value that was
      there are still read one position apart around the new value, and the
      tree is balanced within 1. */
  lemma QuickcheckInsert<T>(t: CountTree<T>, index: nat, x: T)
    requires Inv(t) && index <= Len(t) && Len(t) < MaxCount
    ensures var r := Insert(t, index, x);
            && (index > 0 ==> Get(r, index - 1) == Get(t, index - 1))
            && Get(r, index) == Some(x)
            && (Get(t, index).Some? ==> Get(r, index + 1) == Get(t, index))
            && r.root.Node?
            && Level.ComputeLevel(Shape(r.root), 1).IsBalanced()
  {
    var r := Insert(t, index, x);
    if index > 0 {
      GetAfterInsert(t, index, x, index - 1);
    }
    GetAfterInsert(t, index, x, index);
    GetAfterInsert(t, index, x, index + 1);
    InvIsLevelBalanced(r);
  }

  /** `pop_front` and `pop_back` give `None` on an empty tree and empty a
      tree of one value. */
  lemma PopEnds<T>(x: T)
    ensures PopFront(Count.New<T>()).1 == None && PopBack(Count.New<T>()).1 == None
    ensures var t := PushBack(Count.New(), x);
            && PopFront(t) == (Count.New(), Some(x))
            && PopBack(t) == (Count.New(), Some(x))
  {
  }
}
