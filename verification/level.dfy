/** The balance oracle of the test suite (src/test.rs): `compute_level`
    reports a node's level, its height plus one, tagged Balanced when the
    levels of the two children differ by at most `tolerance` at every node
    of the subtree, and Imbalanced otherwise. Every balance claim of the
    tests is phrased through it. */
module Level {
  import opened Common
  import opened Plain

  datatype Level = Balanced(e: nat) | Imbalanced(e: nat) {

    /** `Level::is_balanced`. */
    predicate IsBalanced() {
      Balanced?
    }

    /** `Level::as_u32`: the level, whichever the tag. */
    function AsU32(): nat {
      match this
      case Balanced(e) => e
      case Imbalanced(e) => e
    }
  }

  /** Every node of `t` has children whose heights differ by at most
      `tolerance` (an absent child has height -1). */
  predicate HeightBalanced<T>(t: Tree<T>, tolerance: nat) {
    match t
    case Nil => true
    case Node(l, _, r) =>
      && HeightBalanced(l, tolerance)
      && HeightBalanced(r, tolerance)
      && -(tolerance as int) <= Height(l) - Height(r) <= tolerance
  }

  /** `compute_level`; an absent child counts as `Balanced(0)`, which is also
      what an absent tree yields here. */
  function ComputeLevel<T>(t: Tree<T>, tolerance: nat): (r: Level)
    ensures r.AsU32() == Height(t) + 1
    ensures r.IsBalanced() <==> HeightBalanced(t, tolerance)
  {
    match t
    case Nil => Balanced(0)
    case Node(l, _, r) =>
      var llevel := ComputeLevel(l, tolerance);
      var rlevel := ComputeLevel(r, tolerance);
      var hi := Max(llevel.AsU32(), rlevel.AsU32());
      var lo := if llevel.AsU32() < rlevel.AsU32() then llevel.AsU32() else rlevel.AsU32();
      if llevel.IsBalanced() && rlevel.IsBalanced() then
        if hi - lo > tolerance then Imbalanced(hi + 1) else Balanced(hi + 1)
      else Imbalanced(hi + 1)
  }

  /** An Imbalanced child makes its parent Imbalanced one level higher than
      the taller child. */
  lemma ImbalancePropagates<T>(t: Tree<T>, tolerance: nat)
    requires t.Node?
    requires !ComputeLevel(t.left, tolerance).IsBalanced() || !ComputeLevel(t.right, tolerance).IsBalanced()
    ensures ComputeLevel(t, tolerance)
         == Imbalanced(Max(ComputeLevel(t.left, tolerance).AsU32(), ComputeLevel(t.right, tolerance).AsU32()) + 1)
  {
  }

  /** The fixture of the rotate tests is balanced within 1 at level 3, and
      not perfectly balanced. */
  lemma LevelScenario()
    ensures ComputeLevel(TestTree(), 1) == Balanced(3)
    ensures ComputeLevel(TestTree(), 0) == Imbalanced(3)
  {
  }
}
