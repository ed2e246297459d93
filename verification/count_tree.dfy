/** `CountTree` of src/count.rs: a list stored in an AVL tree of counting
    nodes. The position of a value is the number of values before it in
    order, read off the `count` caches on the way down, so `get`, `insert`
    and `remove` by position each walk one path. */
module Count {
  import opened Common
  import Iter
  import Level
  import Bulk
  import opened CountNode
  import W = CountWalk

  /** The count cache is a `u32`: a tree holds at most this many values. */
  const MaxCount: nat := 0xFFFF_FFFF

  /** The tree owns an optional root; `Empty` is `None`. */
  datatype CountTree<T> = CountTree(root: Subtree<T>)

  /** What every public operation keeps: correct caches, the AVL
      condition, and a count the `u32` cache can hold. */
  predicate Inv<T>(t: CountTree<T>) {
    Valid(t.root) && Avl(t.root) && CountOf(t.root) <= MaxCount
  }

  /** The list the tree represents. */
  function Values<T>(t: CountTree<T>): seq<T> {
    Elems(t.root)
  }

  /** `CountTree::new`: the empty list. */
  function New<T>(): (t: CountTree<T>)
    ensures Inv(t) && Values(t) == []
  {
    CountTree(Empty)
  }

  /** `is_empty`: no root. */
  function IsEmpty<T>(t: CountTree<T>): (b: bool)
    ensures b <==> Values(t) == []
  {
    t.root.Empty?
  }

  /** `len`: the root's count cache, 0 without a root. */
  function Len<T>(t: CountTree<T>): (n: nat)
    ensures t.root.Empty? ==> n == 0
    ensures Valid(t.root) ==> n == |Values(t)|
  {
    ValidCaches(t.root);
    CountOf(t.root)
  }

  /** `get`: `None` for a position at or past the length; otherwise the
      value the index walk stops on. */
  function Get<T>(t: CountTree<T>, i: nat): (r: Option<T>)
    ensures Valid(t.root) ==> (r.Some? <==> i < |Values(t)|)
    ensures Valid(t.root) && i < |Values(t)| ==> r.value == Values(t)[i]
  {
    if i >= Len(t) then None
    else W.IndexGet(t.root, i, 0)
  }

  /** `get_mut` followed by a write of `x` through the reference it yields
      (the only use the tests make of it): `None` for a position at or past
      the length, where nothing is written; otherwise the tree with the
      value at position `i` replaced. */
  function GetMut<T>(t: CountTree<T>, i: nat, x: T): (r: Option<CountTree<T>>)
    ensures Valid(t.root) ==> (r.Some? <==> i < |Values(t)|)
    ensures Inv(t) && r.Some? ==> Inv(r.value) && Values(r.value) == Values(t)[i := x]
  {
    if i >= Len(t) then None
    else Some(CountTree(W.IndexSet(t.root, i, 0, x)))
  }

  /** `push_front`: a lone node for an empty tree; otherwise hang the new
      node off the leftmost node, rebalancing every node on the way back. */
  function PushFront<T>(t: CountTree<T>, x: T): (r: CountTree<T>)
    requires Len(t) < MaxCount
    ensures Values(r) == [x] + Values(t)
    ensures Inv(t) ==> Inv(r)
  {
    if IsEmpty(t) then CountTree(CountNode.New(x))
    else
      PushFrontKeepsInv(t, x);
      CountTree(W.AppendFirst(t.root, x))
  }

  lemma PushFrontKeepsInv<T>(t: CountTree<T>, x: T)
    requires t.root.Node? && Len(t) < MaxCount
    ensures Inv(t) ==> Inv(CountTree(W.AppendFirst(t.root, x)))
  {
    if Inv(t) {
      W.AppendFirstAvl(t.root, x);
      ValidCaches(W.AppendFirst(t.root, x));
    }
  }

  /** `push_back`: the mirror image of `push_front`. */
  function PushBack<T>(t: CountTree<T>, x: T): (r: CountTree<T>)
    requires Len(t) < MaxCount
    ensures Values(r) == Values(t) + [x]
    ensures Inv(t) ==> Inv(r)
  {
    if IsEmpty(t) then CountTree(CountNode.New(x))
    else
      PushBackKeepsInv(t, x);
      CountTree(W.AppendLast(t.root, x, true))
  }

  lemma PushBackKeepsInv<T>(t: CountTree<T>, x: T)
    requires t.root.Node? && Len(t) < MaxCount
    ensures Inv(t) ==> Inv(CountTree(W.AppendLast(t.root, x, true)))
  {
    if Inv(t) {
      W.AppendLastAvl(t.root, x);
      ValidCaches(W.AppendLast(t.root, x, true));
    }
  }

  /** `insert`: position 0 is `push_front` and position `Len` is
      `push_back`; any position between is found by the index walk, the
      value is put before the node found there, and every node on the way
      back is rebalanced. A position past the length panics, and the `u32`
      count must not overflow. */
  function Insert<T>(t: CountTree<T>, i: nat, x: T): (r: CountTree<T>)
    requires i <= Len(t) && Len(t) < MaxCount
    ensures Inv(t) ==> Inv(r) && Values(r) == Values(t)[..i] + [x] + Values(t)[i..]
  {
    if i == 0 then
      var r := PushFront(t, x);
      InsertAtEnd(Values(t), i, x, Values(r));
      r
    else if i < Len(t) then
      InsertInside(t, i, x);
      CountTree(W.IndexInsert(t.root, i, 0, x))
    else
      var r := PushBack(t, x);
      InsertAtEnd(Values(t), i, x, Values(r));
      r
  }

  /** Putting a value at position 0 or at the end is prepending or
      appending it. */
  lemma InsertAtEnd<T>(v: seq<T>, i: nat, x: T, w: seq<T>)
    ensures (i == 0 && w == [x] + v) || (i == |v| && w == v + [x]) ==> w == v[..i] + [x] + v[i..]
  {
  }

  lemma InsertInside<T>(t: CountTree<T>, i: nat, x: T)
    requires 0 < i < Len(t) < MaxCount
    ensures var r := CountTree(W.IndexInsert(t.root, i, 0, x));
            Inv(t) ==> Inv(r) && Values(r) == Values(t)[..i] + [x] + Values(t)[i..]
  {
    if Inv(t) {
      W.IndexInsertPlacesValue(t.root, i, 0, x);
      W.IndexInsertAvl(t.root, i, 0, x);
      ValidCaches(W.IndexInsert(t.root, i, 0, x));
    }
  }

  /** `pop_front`: `None` for an empty tree; a lone root is taken whole;
      otherwise the leftmost node is cut out, its right child taking its
      place, and every node on the way back is rebalanced. */
  function PopFront<T>(t: CountTree<T>): (r: (CountTree<T>, Option<T>))
    ensures r.1.None? <==> t.root.Empty?
    ensures r.1.None? ==> r.0 == t
    ensures Inv(t) && r.1.Some? ==> Inv(r.0) && [r.1.value] + Values(r.0) == Values(t)
  {
    if IsEmpty(t) then (t, None)
    else if Len(t) == 1 then
      LoneRoot(t);
      (CountTree(Empty), Some(t.root.value))
    else
      PopFrontKeepsInv(t);
      var e := W.ExtractFirst(t.root);
      (CountTree(e.0), Some(e.1))
  }

  /** `pop_back`: the mirror image of `pop_front`. */
  function PopBack<T>(t: CountTree<T>): (r: (CountTree<T>, Option<T>))
    ensures r.1.None? <==> t.root.Empty?
    ensures r.1.None? ==> r.0 == t
    ensures Inv(t) && r.1.Some? ==> Inv(r.0) && Values(r.0) + [r.1.value] == Values(t)
  {
    if IsEmpty(t) then (t, None)
    else if Len(t) == 1 then
      LoneRoot(t);
      (CountTree(Empty), Some(t.root.value))
    else
      PopBackKeepsInv(t);
      var e := W.ExtractLast(t.root);
      (CountTree(e.0), Some(e.1))
  }

  /** A valid root counting one value has no children. */
  lemma LoneRoot<T>(t: CountTree<T>)
    requires t.root.Node? && Len(t) == 1
    ensures Valid(t.root) ==> Values(t) == [t.root.value]
  {
    if Valid(t.root) {
      ValidCaches(t.root.left);
      ValidCaches(t.root.right);
    }
  }

  lemma PopFrontKeepsInv<T>(t: CountTree<T>)
    requires t.root.Node?
    ensures Inv(t) ==> Inv(CountTree(W.ExtractFirst(t.root).0))
  {
    if Inv(t) {
      W.ExtractFirstAvl(t.root);
      ValidCaches(t.root);
      ValidCaches(W.ExtractFirst(t.root).0);
    }
  }

  lemma PopBackKeepsInv<T>(t: CountTree<T>)
    requires t.root.Node?
    ensures Inv(t) ==> Inv(CountTree(W.ExtractLast(t.root).0))
  {
    if Inv(t) {
      W.ExtractLastAvl(t.root);
      ValidCaches(t.root);
      ValidCaches(W.ExtractLast(t.root).0);
    }
  }

  /** `remove`: position 0 is `pop_front` and the last position is
      `pop_back`; any position between is found by the index walk and
      `try_remove`d there, every node on the way back rebalanced. A
      position at or past the length panics. */
  function Remove<T>(t: CountTree<T>, i: nat): (r: (CountTree<T>, T))
    requires i < Len(t)
    ensures Inv(t) ==> && Inv(r.0)
                       && r.1 == Values(t)[i]
                       && Values(r.0) == Values(t)[..i] + Values(t)[i + 1..]
  {
    if i == 0 then
      var p := PopFront(t);
      (p.0, p.1.value)
    else if i + 1 < Len(t) then
      RemoveInside(t, i);
      var e := W.IndexRemove(t.root, i, 0);
      (CountTree(e.0), e.1)
    else
      var p := PopBack(t);
      (p.0, p.1.value)
  }

  lemma RemoveInside<T>(t: CountTree<T>, i: nat)
    requires 0 < i && i + 1 < Len(t)
    ensures var e := W.IndexRemove(t.root, i, 0);
            Inv(t) ==> && Inv(CountTree(e.0))
                       && e.1 == Values(t)[i]
                       && Elems(e.0) == Values(t)[..i] + Values(t)[i + 1..]
  {
    if Inv(t) {
      W.IndexRemoveTakesValue(t.root, i, 0);
      W.IndexRemoveAvl(t.root, i, 0);
      ValidCaches(t.root);
      ValidCaches(W.IndexRemove(t.root, i, 0).0);
    }
  }

  /** `iter`: the in-order iterator, drained. */
  method ToSeq<T>(t: CountTree<T>) returns (xs: seq<T>)
    ensures xs == Values(t)
  {
    xs := Iter.Collect(Shape(t.root));
  }

  /** `from_iter`, built by `Bulk.BuildBalanced`: a valid AVL tree holding
      `xs` in order. The `u32` count must not overflow. */
  function FromIter<T>(xs: seq<T>): (t: CountTree<T>)
    requires |xs| <= MaxCount
    ensures Inv(t) && Values(t) == xs
  {
    var root := Bulk.BuildBalanced(xs);
    ValidCaches(root);
    CountTree(root)
  }

  // ---------------------------------------------------------------------
  // How the operations relate

  /** Removing at the position just inserted at hands back the inserted
      value and the list as it was; the length grows by one and shrinks
      back. */
  lemma InsertThenRemove<T>(t: CountTree<T>, i: nat, x: T)
    requires Inv(t) && i <= Len(t) && Len(t) < MaxCount
    ensures var r := Insert(t, i, x);
            && Len(r) == Len(t) + 1
            && Remove(r, i).1 == x
            && Values(Remove(r, i).0) == Values(t)
  {
    var r := Insert(t, i, x);
    var e := Remove(r, i);
    InsertedThenDropped(Values(t), i, x, Values(r), Values(e.0), e.1);
  }

  lemma InsertedThenDropped<T>(v: seq<T>, i: nat, x: T, w: seq<T>, u: seq<T>, y: T)
    requires i <= |v| && w == v[..i] + [x] + v[i..]
    requires i < |w| && u == w[..i] + w[i + 1..] && y == w[i]
    ensures y == x && u == v
  {
    assert w[..i] == v[..i];
    assert w[i + 1..] == v[i..];
  }

  /** Inserting the removed value back where it was restores the list. */
  lemma RemoveThenInsert<T>(t: CountTree<T>, i: nat)
    requires Inv(t) && i < Len(t)
    ensures var e := Remove(t, i);
            && Len(e.0) + 1 == Len(t)
            && Values(Insert(e.0, i, e.1)) == Values(t)
  {
    var e := Remove(t, i);
    Reinserted(Values(t), i, Values(e.0), e.1);
  }

  lemma Reinserted<T>(v: seq<T>, i: nat, w: seq<T>, y: T)
    requires i < |v| && w == v[..i] + v[i + 1..] && y == v[i]
    ensures |w| + 1 == |v|
    ensures w[..i] + [y] + w[i..] == v
  {
    assert w[..i] == v[..i];
    assert w[i..] == v[i + 1..];
  }

  /** `pop_front` undoes `push_front`. */
  lemma PushFrontThenPop<T>(t: CountTree<T>, x: T)
    requires Inv(t) && Len(t) < MaxCount
    ensures var p := PopFront(PushFront(t, x));
            p.1 == Some(x) && Values(p.0) == Values(t) && Inv(p.0)
  {
    var r := PushFront(t, x);
    assert Values(r) == [x] + Values(t);
    var p := PopFront(r);
    assert [p.1.value] + Values(p.0) == [x] + Values(t);
    assert p.1.value == ([p.1.value] + Values(p.0))[0];
    assert Values(p.0) == ([p.1.value] + Values(p.0))[1..];
  }

  /** `pop_back` undoes `push_back`. */
  lemma PushBackThenPop<T>(t: CountTree<T>, x: T)
    requires Inv(t) && Len(t) < MaxCount
    ensures var p := PopBack(PushBack(t, x));
            p.1 == Some(x) && Values(p.0) == Values(t) && Inv(p.0)
  {
    var r := PushBack(t, x);
    assert Values(r) == Values(t) + [x];
    var p := PopBack(r);
    var w := Values(p.0) + [p.1.value];
    assert w == Values(t) + [x];
    assert p.1.value == w[|w| - 1];
    assert Values(p.0) == w[..|w| - 1];
  }

  /** After an insert at `i`, positions before `i` read as before, `i`
      reads the new value, and later positions read what was one before
      them. */
  lemma GetAfterInsert<T>(t: CountTree<T>, i: nat, x: T, j: nat)
    requires Inv(t) && i <= Len(t) && Len(t) < MaxCount
    ensures Get(Insert(t, i, x), j) ==
              if j < i then Get(t, j)
              else if j == i then Some(x)
              else Get(t, j - 1)
  {
    InsertedAt(Values(t), i, x, Values(Insert(t, i, x)), j);
  }

  /** Where each position of `v` lands once `x` is put at `i`. */
  lemma InsertedAt<T>(v: seq<T>, i: nat, x: T, w: seq<T>, j: nat)
    requires i <= |v| && w == v[..i] + [x] + v[i..]
    ensures |w| == |v| + 1
    ensures j < i ==> j < |v| && w[j] == v[j]
    ensures j == i ==> w[j] == x
    ensures i < j < |w| ==> w[j] == v[j - 1]
  {
  }

  /** After a remove at `i`, positions before `i` read as before and later
      ones read what was one after them. */
  lemma GetAfterRemove<T>(t: CountTree<T>, i: nat, j: nat)
    requires Inv(t) && i < Len(t)
    ensures Get(Remove(t, i).0, j) == if j < i then Get(t, j) else Get(t, j + 1)
  {
    DroppedAt(Values(t), i, Values(Remove(t, i).0), j);
  }

  /** Where each position of `v` lands once the value at `i` is dropped. */
  lemma DroppedAt<T>(v: seq<T>, i: nat, w: seq<T>, j: nat)
    requires i < |v| && w == v[..i] + v[i + 1..]
    ensures |w| + 1 == |v|
    ensures j < i ==> w[j] == v[j]
    ensures i <= j < |w| ==> w[j] == v[j + 1]
  {
  }

  /** After writing through `get_mut`, position `i` reads the written
      value and every other position reads as before. */
  lemma GetAfterGetMut<T>(t: CountTree<T>, i: nat, x: T, j: nat)
    requires Inv(t) && i < Len(t)
    ensures GetMut(t, i, x).Some?
    ensures Get(GetMut(t, i, x).value, j) == if j == i then Some(x) else Get(t, j)
  {
  }

  /** Draining the iterator of a tree built by `from_iter` gives back the
      input, and `get` agrees with it at every position. */
  method FromIterThenIter<T>(xs: seq<T>) returns (ys: seq<T>)
    requires |xs| <= MaxCount
    ensures ys == xs
    ensures forall j :: 0 <= j < |xs| ==> Get(FromIter(xs), j) == Some(xs[j])
  {
    ys := ToSeq(FromIter(xs));
  }

  /** Every tree the operations keep the invariant of is balanced within
      1 by the test suite's `compute_level`, one level above its height. */
  lemma InvIsLevelBalanced<T>(t: CountTree<T>)
    requires Inv(t)
    ensures Level.ComputeLevel(Shape(t.root), 1).IsBalanced()
    ensures Level.ComputeLevel(Shape(t.root), 1).AsU32() == HeightOf(t.root) + 1
  {
    AvlIsLevelBalanced(t.root);
  }
}
